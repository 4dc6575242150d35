/**
 * The format listing of dpres_file_formats/file_formats.py.
 *
 * The module-level format table is the `formats` field of a `FormatTable`.
 * Listing the versions writes seven keys of each format into every one of
 * its versions in place, so it is a method that changes that field; it is
 * proved equal to functional specifications of the new table and of the
 * list it returns.
 */
module FileFormats {
  import opened Wrappers
  import opened Json
  import ReadFileFormats

  /** The keys of a format that are copied into each of its versions. */
  const PARENT_KEYS: set<string> :=
    {"mimetype", "content_type", "format_name_long", "format_name_short",
     "typical_extensions", "required_metadata", "charsets"}

  /** Why listing the versions raises: the loop variable is read before any version bound it. */
  datatype ListingError = NoVersionBound

  /** What listing reads of the table: every format has a list of versions, and a format with versions has the parent keys. */
  predicate ListingReadable(fs: seq<Dict>)
  {
    forall k :: 0 <= k < |fs| ==> FormatReadable(fs[k])
  }

  predicate FormatReadable(f: Dict)
  {
    "versions" in f && IsObjList(f["versions"]) &&
    (Objects(f["versions"]) != [] ==> PARENT_KEYS <= f.Keys)
  }

  /** The versions of a format. */
  function Versions(f: Dict): seq<Dict>
    requires FormatReadable(f)
  {
    Objects(f["versions"])
  }

  /** A version with the parent keys of its format written into it. */
  function Stamp(v: Dict, f: Dict): Dict
    requires PARENT_KEYS <= f.Keys
  {
    v["mimetype" := f["mimetype"]]
     ["content_type" := f["content_type"]]
     ["format_name_long" := f["format_name_long"]]
     ["format_name_short" := f["format_name_short"]]
     ["typical_extensions" := f["typical_extensions"]]
     ["required_metadata" := f["required_metadata"]]
     ["charsets" := f["charsets"]]
  }

  /**
   * A stamped version carries its format's value under each parent key and
   * its own value under every other key; stamping twice is stamping once.
   */
  lemma StampSpec(v: Dict, f: Dict)
    requires PARENT_KEYS <= f.Keys
    ensures Stamp(v, f).Keys == v.Keys + PARENT_KEYS
    ensures forall key :: key in PARENT_KEYS ==> Stamp(v, f)[key] == f[key]
    ensures forall key :: key in v && key !in PARENT_KEYS ==> Stamp(v, f)[key] == v[key]
    ensures Stamp(Stamp(v, f), f) == Stamp(v, f)
  {
    var s := Stamp(v, f);
    assert Stamp(s, f).Keys == s.Keys;
    assert forall key :: key in s ==> Stamp(s, f)[key] == s[key];
  }

  /** A format whose every version is stamped. */
  function StampedFormat(f: Dict): (r: Dict)
    requires FormatReadable(f)
  {
    var vs := Versions(f);
    if vs == [] then f
    else f["versions" := ObjList(seq(|vs|, j requires 0 <= j < |vs| => Stamp(vs[j], f)))]
  }

  /** The table after listing: every version of every format stamped. */
  function Stamped(fs: seq<Dict>): (r: seq<Dict>)
    requires ListingReadable(fs)
    ensures |r| == |fs|
  {
    seq(|fs|, k requires 0 <= k < |fs| => StampedFormat(fs[k]))
  }

  /** The value of the loop variable after the loops over `fs`: the last version of the last format that has one. */
  function LatestVersion(fs: seq<Dict>): Option<Dict>
    requires ListingReadable(fs)
  {
    if fs == [] then None
    else
      var f := fs[|fs| - 1];
      var vs := Versions(f);
      if vs != [] then Some(Stamp(vs[|vs| - 1], f)) else LatestVersion(fs[..|fs| - 1])
  }

  /** What listing returns: after each format, the current value of the loop variable. */
  function Listed(fs: seq<Dict>): Result<seq<Dict>, ListingError>
    requires ListingReadable(fs)
  {
    if fs == [] then Success([])
    else
      var init := Listed(fs[..|fs| - 1]);
      var latest := LatestVersion(fs);
      if init.Failure? then init
      else if latest.None? then Failure(NoVersionBound)
      else Success(init.value + [latest.value])
  }

  /** `fs[k]` has a version, and `r[k]` is its last version, stamped. */
  predicate ListsLastVersion(fs: seq<Dict>, r: seq<Dict>, k: int)
    requires ListingReadable(fs)
  {
    0 <= k < |fs| && k < |r| && Versions(fs[k]) != [] &&
    r[k] == Stamp(Versions(fs[k])[|Versions(fs[k])| - 1], fs[k])
  }

  /**
   * Listing fails exactly when the first format has no versions. Otherwise
   * it returns one dict per format: the format's last version with the
   * parent keys written in, or, for a format without versions, a second copy
   * of the dict listed for the format before it.
   */
  lemma {:induction false} ListedSpec(fs: seq<Dict>)
    requires ListingReadable(fs)
    ensures Listed(fs).Failure? <==> fs != [] && Versions(fs[0]) == []
    ensures Listed(fs).Success? ==>
      var r := Listed(fs).value;
      |r| == |fs| &&
      (forall k :: 0 <= k < |fs| && Versions(fs[k]) != [] ==> ListsLastVersion(fs, r, k)) &&
      (forall k :: 0 < k < |fs| && Versions(fs[k]) == [] ==> r[k] == r[k - 1])
  {
    if fs != [] {
      var init := fs[..|fs| - 1];
      assert ListingReadable(init);
      ListedSpec(init);
      LatestVersionBound(fs);
      if |fs| > 1 {
        assert init[0] == fs[0];
        LatestVersionStep(fs);
      }
      if Listed(fs).Success? {
        var r := Listed(fs).value;
        var ri := Listed(init).value;
        assert r == ri + [LatestVersion(fs).value];
        forall k | 0 <= k < |fs| && Versions(fs[k]) != []
          ensures ListsLastVersion(fs, r, k)
        {
          if k < |fs| - 1 {
            assert init[k] == fs[k];
            assert ListsLastVersion(init, ri, k);
          }
        }
        forall k | 0 < k < |fs| && Versions(fs[k]) == []
          ensures r[k] == r[k - 1]
        {
          if k < |fs| - 1 {
            assert init[k] == fs[k];
          } else if k - 1 < |fs| - 2 || Versions(init[k - 1]) == [] {
            assert r[k - 1] == ri[k - 1];
          }
        }
      }
    }
  }

  /** The loop variable is unbound after the loops exactly when no format so far had a version. */
  lemma {:induction false} LatestVersionBound(fs: seq<Dict>)
    requires ListingReadable(fs) && fs != []
    ensures LatestVersion(fs).None? <==> forall k :: 0 <= k < |fs| ==> Versions(fs[k]) == []
  {
    var init := fs[..|fs| - 1];
    assert forall k :: 0 <= k < |init| ==> init[k] == fs[k];
    if init != [] {
      LatestVersionBound(init);
    }
  }

  /**
   * The value listed for the last format: its last version if it has one,
   * otherwise the value listed for the format before it.
   */
  lemma LatestVersionStep(fs: seq<Dict>)
    requires ListingReadable(fs) && |fs| > 1
    ensures Versions(fs[|fs| - 1]) == [] ==> LatestVersion(fs) == LatestVersion(fs[..|fs| - 1])
  {
  }

  /** Every version of every format gains the parent keys; its other keys and the format's other keys are untouched. */
  lemma StampedSpec(fs: seq<Dict>, k: int)
    requires ListingReadable(fs) && 0 <= k < |fs|
    ensures var g := Stamped(fs)[k];
      g.Keys == fs[k].Keys && FormatReadable(g) &&
      (forall key :: key in fs[k] && key != "versions" ==> g[key] == fs[k][key]) &&
      |Versions(g)| == |Versions(fs[k])| &&
      forall j :: 0 <= j < |Versions(g)| ==> Versions(g)[j] == Stamp(Versions(fs[k])[j], fs[k])
  {
  }

  /** Listing a second time changes nothing more and lists the same versions. */
  lemma ListingRepeatable(fs: seq<Dict>)
    requires ListingReadable(fs)
    ensures ListingReadable(Stamped(fs))
    ensures Stamped(Stamped(fs)) == Stamped(fs)
    ensures Listed(Stamped(fs)) == Listed(fs)
  {
    var gs := Stamped(fs);
    forall k | 0 <= k < |fs|
      ensures FormatReadable(gs[k]) && StampedFormat(gs[k]) == gs[k]
    {
      StampedSpec(fs, k);
      var vs := Versions(fs[k]);
      if vs != [] {
        var ws := Versions(gs[k]);
        forall j | 0 <= j < |ws|
          ensures Stamp(ws[j], gs[k]) == ws[j]
        {
          StampSpec(vs[j], fs[k]);
        }
        assert Versions(StampedFormat(gs[k])) == ws;
      }
    }
    ListedOfStamped(fs);
  }

  /** Stamping a format keeps the number of its versions and the stamped form of its last one. */
  lemma StampedLast(f: Dict)
    requires FormatReadable(f)
    ensures FormatReadable(StampedFormat(f)) && |Versions(StampedFormat(f))| == |Versions(f)|
    ensures Versions(f) != [] ==>
      var vs, ws := Versions(f), Versions(StampedFormat(f));
      Stamp(ws[|ws| - 1], StampedFormat(f)) == Stamp(vs[|vs| - 1], f)
  {
    var vs := Versions(f);
    if vs != [] {
      var g := StampedFormat(f);
      var ws := Versions(g);
      StampSpec(vs[|vs| - 1], f);
      assert g.Keys == f.Keys;
      assert forall key :: key in PARENT_KEYS ==> g[key] == f[key];
      assert Stamp(ws[|ws| - 1], g) == Stamp(ws[|ws| - 1], f);
    }
  }

  /** The loop variable ends the same over the stamped table as over the original. */
  lemma {:induction false} LatestOfStamped(fs: seq<Dict>)
    requires ListingReadable(fs)
    ensures ListingReadable(Stamped(fs)) && LatestVersion(Stamped(fs)) == LatestVersion(fs)
  {
    var gs := Stamped(fs);
    forall k | 0 <= k < |fs| ensures FormatReadable(gs[k]) {
      StampedLast(fs[k]);
    }
    if fs != [] {
      var init := fs[..|fs| - 1];
      assert Stamped(init) == gs[..|fs| - 1];
      LatestOfStamped(init);
      StampedLast(fs[|fs| - 1]);
    }
  }

  /** Listing the stamped table lists what listing the original does. */
  lemma {:induction false} ListedOfStamped(fs: seq<Dict>)
    requires ListingReadable(fs)
    ensures ListingReadable(Stamped(fs)) && Listed(Stamped(fs)) == Listed(fs)
  {
    LatestOfStamped(fs);
    if fs != [] {
      var init := fs[..|fs| - 1];
      assert Stamped(init) == Stamped(fs)[..|fs| - 1];
      ListedOfStamped(init);
    }
  }

  /**
   * The inner loop of `supported_file_formats_versions`: every version of `f`
   * stamped with its parent keys, and the loop variable left at the last one
   * (unchanged when `f` has no versions).
   */
  method StampVersions(f: Dict, version0: Option<Dict>) returns (versions: seq<Dict>, version: Option<Dict>)
    requires FormatReadable(f)
    ensures |versions| == |Versions(f)| && forall m :: 0 <= m < |versions| ==> versions[m] == Stamp(Versions(f)[m], f)
    ensures version == if versions == [] then version0 else Some(versions[|versions| - 1])
  {
    versions := Objects(f["versions"]);
    version := version0;
    var j := 0;
    while j < |versions|
      invariant 0 <= j <= |versions| == |Versions(f)|
      invariant forall m :: 0 <= m < j ==> versions[m] == Stamp(Versions(f)[m], f)
      invariant forall m :: j <= m < |versions| ==> versions[m] == Versions(f)[m]
      invariant version == if j == 0 then version0 else Some(versions[j - 1])
    {
      var v := versions[j];
      v := v["mimetype" := f["mimetype"]];
      v := v["content_type" := f["content_type"]];
      v := v["format_name_long" := f["format_name_long"]];
      v := v["format_name_short" := f["format_name_short"]];
      v := v["typical_extensions" := f["typical_extensions"]];
      v := v["required_metadata" := f["required_metadata"]];
      v := v["charsets" := f["charsets"]];
      versions := versions[j := v];
      version := Some(v);
      j := j + 1;
    }
  }

  /** A format whose versions list is replaced by its stamped versions is the stamped format. */
  lemma StampedFormatOf(f: Dict, versions: seq<Dict>)
    requires FormatReadable(f)
    requires |versions| == |Versions(f)| && forall m :: 0 <= m < |versions| ==> versions[m] == Stamp(Versions(f)[m], f)
    ensures StampedFormat(f) == if versions == [] then f else f["versions" := ObjList(versions)]
  {
    var vs := Versions(f);
    assert versions == seq(|vs|, m requires 0 <= m < |vs| => Stamp(vs[m], f));
  }

  /** The module-level format table. */
  class FormatTable {
    var formats: seq<Dict>

    constructor (formats: seq<Dict>)
      ensures this.formats == formats
    {
      this.formats := formats;
    }

    /** `supported_file_formats`: the table itself. */
    method SupportedFileFormats() returns (r: seq<Dict>)
      ensures r == formats
    {
      r := formats;
    }

    /**
     * `supported_file_formats_versions`: stamps every version in place and
     * appends the loop variable once per format.
     */
    method SupportedFileFormatsVersions() returns (r: Result<seq<Dict>, ListingError>)
      requires ListingReadable(formats)
      modifies this
      ensures r == Listed(old(formats))
      ensures r.Success? ==> formats == Stamped(old(formats))
      ensures r.Failure? ==> formats == old(formats)
    {
      ghost var fs := formats;
      var formatVersions: seq<Dict> := [];
      var version: Option<Dict> := None;
      var i := 0;
      while i < |formats|
        invariant 0 <= i <= |formats| == |fs|
        invariant forall k :: 0 <= k < i ==> formats[k] == StampedFormat(fs[k])
        invariant forall k :: i <= k < |formats| ==> formats[k] == fs[k]
        invariant ListingReadable(fs[..i])
        invariant version == LatestVersion(fs[..i])
        invariant Listed(fs[..i]) == Success(formatVersions)
      {
        assert fs[..i + 1][..i] == fs[..i];
        var f := formats[i];
        assert FormatReadable(f);
        var versions;
        versions, version := StampVersions(f, version);
        assert version == LatestVersion(fs[..i + 1]);
        if version.None? {
          LatestVersionBound(fs[..i + 1]);
          assert fs[..i + 1][0] == fs[0];
          assert Versions(fs[0]) == [];
          ListedSpec(fs);
          assert Listed(fs).Failure?;
          assert Listed(fs).error.NoVersionBound?;
          return Failure(NoVersionBound);
        }
        StampedFormatOf(f, versions);
        if versions != [] {
          f := f["versions" := ObjList(versions)];
        }
        formats := formats[i := f];
        formatVersions := formatVersions + [version.value];
        i := i + 1;
      }
      assert fs[..i] == fs;
      r := Success(formatVersions);
    }
  }
}
