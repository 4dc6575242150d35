/**
 * The table shaping of dpres_file_formats/read_file_formats.py.
 *
 * The registry read from JSON in the source is a parameter here: a sequence
 * of format records (JSON objects). Each function of the source is an
 * imperative method with the source's loops, proved equal to a functional
 * specification; the properties the source promises are lemmas about those
 * specifications.
 */
module ReadFileFormats {
  import opened Wrappers
  import opened Defaults
  import opened Json
  import Seqs

  // ---------------------------------------------------------------------------
  // Record shape
  // ---------------------------------------------------------------------------

  /** `file_format.get('versions', [])` is a list of version records. */
  predicate HasVersionList(f: Dict)
  {
    "versions" in f ==> IsObjList(f["versions"])
  }

  /** `file_format.get('versions', [])`. */
  function VersionsOf(f: Dict): seq<Dict>
  {
    if "versions" in f && IsObjList(f["versions"]) then Objects(f["versions"]) else []
  }

  predicate AllHaveVersionLists(fs: seq<Dict>)
  {
    forall i :: 0 <= i < |fs| ==> HasVersionList(fs[i])
  }

  // ---------------------------------------------------------------------------
  // file_formats: selection of formats and versions
  // ---------------------------------------------------------------------------

  /**
   * A version is output iff it is active or deprecated ones are wanted, and
   * it has a non-empty `added_in_dps_spec` or unofficial ones are wanted.
   */
  predicate KeepVersion(v: Dict, deprecated: bool, unofficial: bool)
  {
    (deprecated || Truthy(Get(v, "active", Bool(false)))) &&
    (unofficial || Truthy(Get(v, "added_in_dps_spec", Str(""))))
  }

  function Keeper(deprecated: bool, unofficial: bool): Dict -> bool
  {
    (v: Dict) => KeepVersion(v, deprecated, unofficial)
  }

  /** The versions of a format that are output, in their original order. */
  function KeptVersions(f: Dict, deprecated: bool, unofficial: bool): seq<Dict>
  {
    Seqs.Filter(VersionsOf(f), Keeper(deprecated, unofficial))
  }

  /**
   * `_select_format_and_versions`: a format is output iff it keeps some
   * version, and then with `versions` replaced by the kept versions; every
   * other key is the format's own.
   */
  function SelectFormat(f: Dict, deprecated: bool, unofficial: bool): (r: Option<Dict>)
    ensures r.Some? <==> KeptVersions(f, deprecated, unofficial) != []
    ensures r.Some? ==> HasVersionList(r.value) && VersionsOf(r.value) == KeptVersions(f, deprecated, unofficial)
  {
    var kept := KeptVersions(f, deprecated, unofficial);
    if kept == [] then None else Some(f["versions" := ObjList(kept)])
  }

  /**
   * A format is output iff some version of it is kept; the output record is
   * the format with exactly the kept versions and every other key its own.
   */
  lemma SelectFormatSpec(f: Dict, deprecated: bool, unofficial: bool)
    requires HasVersionList(f)
    ensures SelectFormat(f, deprecated, unofficial).Some? <==>
      exists v :: v in VersionsOf(f) && KeepVersion(v, deprecated, unofficial)
    ensures SelectFormat(f, deprecated, unofficial).Some? ==>
      var g := SelectFormat(f, deprecated, unofficial).value;
      g.Keys == f.Keys + {"versions"} && (forall k :: k in f && k != "versions" ==> g[k] == f[k]) &&
      (forall v :: v in VersionsOf(g) <==> v in VersionsOf(f) && KeepVersion(v, deprecated, unofficial))
  {
    var kept := KeptVersions(f, deprecated, unofficial);
    assert kept != [] ==> kept[0] in kept;
  }

  /** The formats that are output, each with its kept versions, in input order. */
  function Selected(raws: seq<Dict>, deprecated: bool, unofficial: bool): (sel: seq<Dict>)
    ensures |sel| <= |raws|
    decreases |raws|
  {
    if raws == [] then []
    else
      var init := Selected(raws[..|raws| - 1], deprecated, unofficial);
      var last := SelectFormat(raws[|raws| - 1], deprecated, unofficial);
      if last.None? then init else init + [last.value]
  }

  /** Selection works record by record, so it keeps the input's relative order. */
  lemma {:induction false} SelectedAppend(a: seq<Dict>, b: seq<Dict>, deprecated: bool, unofficial: bool)
    ensures Selected(a + b, deprecated, unofficial) == Selected(a, deprecated, unofficial) + Selected(b, deprecated, unofficial)
    decreases |b|
  {
    if b == [] {
      assert a + b == a;
    } else {
      var b' := b[..|b| - 1];
      assert (a + b)[..|a + b| - 1] == a + b' && (a + b)[|a + b| - 1] == b[|b| - 1];
      SelectedAppend(a, b', deprecated, unofficial);
      SelectedLast(a + b, deprecated, unofficial);
      SelectedLast(b, deprecated, unofficial);
    }
  }

  /** `g` is what selection makes of `raws[i]`. */
  predicate SelectedAt(raws: seq<Dict>, i: int, g: Dict, deprecated: bool, unofficial: bool)
  {
    0 <= i < |raws| && SelectFormat(raws[i], deprecated, unofficial) == Some(g)
  }

  /** The records a selection step emits: the selected format, if any. */
  function Emitted(r: Option<Dict>): seq<Dict>
  {
    if r.Some? then [r.value] else []
  }

  /** Selection of a non-empty list: the selection of all but the last format, then the last one's. */
  lemma SelectedLast(raws: seq<Dict>, deprecated: bool, unofficial: bool)
    requires raws != []
    ensures Selected(raws, deprecated, unofficial) ==
      Selected(raws[..|raws| - 1], deprecated, unofficial) + Emitted(SelectFormat(raws[|raws| - 1], deprecated, unofficial))
  {
    var r := SelectFormat(raws[|raws| - 1], deprecated, unofficial);
    if r.None? {
      assert Emitted(r) == [];
    } else {
      assert Emitted(r) == [r.value];
    }
  }

  /** Selecting one format more appends that format's selection, if any. */
  lemma SelectedStep(raws: seq<Dict>, i: int, deprecated: bool, unofficial: bool)
    requires 0 <= i < |raws|
    ensures Selected(raws[..i + 1], deprecated, unofficial) ==
      Selected(raws[..i], deprecated, unofficial) + Emitted(SelectFormat(raws[i], deprecated, unofficial))
  {
    var p := raws[..i + 1];
    assert p[..|p| - 1] == raws[..i] && p[|p| - 1] == raws[i];
    SelectedLast(p, deprecated, unofficial);
  }

  /** Every output format is the selection of some input format. */
  lemma {:induction false} SelectedFrom(raws: seq<Dict>, g: Dict, deprecated: bool, unofficial: bool)
    requires g in Selected(raws, deprecated, unofficial)
    ensures exists i :: SelectedAt(raws, i, g, deprecated, unofficial)
    decreases |raws|
  {
    var init := raws[..|raws| - 1];
    var s0 := Selected(init, deprecated, unofficial);
    var r := SelectFormat(raws[|raws| - 1], deprecated, unofficial);
    SelectedLast(raws, deprecated, unofficial);
    if r == Some(g) {
      assert SelectedAt(raws, |raws| - 1, g, deprecated, unofficial);
    } else {
      assert g in s0;
      SelectedFrom(init, g, deprecated, unofficial);
      var i :| SelectedAt(init, i, g, deprecated, unofficial);
      assert raws[i] == init[i];
      assert SelectedAt(raws, i, g, deprecated, unofficial);
    }
  }

  /** The selection of every input format is output. */
  lemma SelectedTo(raws: seq<Dict>, i: int, g: Dict, deprecated: bool, unofficial: bool)
    requires SelectedAt(raws, i, g, deprecated, unofficial)
    ensures g in Selected(raws, deprecated, unofficial)
  {
    var pre, post := raws[..i + 1], raws[i + 1..];
    assert raws == pre + post;
    SelectedAppend(pre, post, deprecated, unofficial);
    SelectedStep(raws, i, deprecated, unofficial);
    assert Emitted(SelectFormat(raws[i], deprecated, unofficial)) == [g];
    assert g in Selected(pre, deprecated, unofficial);
  }

  /** Every output format has a non-empty list of version records. */
  lemma SelectedShape(raws: seq<Dict>, deprecated: bool, unofficial: bool)
    requires AllHaveVersionLists(raws)
    ensures AllHaveVersionLists(Selected(raws, deprecated, unofficial))
    ensures forall i :: 0 <= i < |Selected(raws, deprecated, unofficial)| ==>
      VersionsOf(Selected(raws, deprecated, unofficial)[i]) != []
  {
    var sel := Selected(raws, deprecated, unofficial);
    forall i | 0 <= i < |sel|
      ensures HasVersionList(sel[i]) && VersionsOf(sel[i]) != []
    {
      SelectedFrom(raws, sel[i], deprecated, unofficial);
      var j :| SelectedAt(raws, j, sel[i], deprecated, unofficial);
    }
  }

  /** The output formats are exactly the selected records of the input. */
  lemma SelectedMembers(raws: seq<Dict>, deprecated: bool, unofficial: bool)
    requires AllHaveVersionLists(raws)
    ensures forall g :: g in Selected(raws, deprecated, unofficial) <==>
      exists i :: SelectedAt(raws, i, g, deprecated, unofficial)
  {
    forall g | g in Selected(raws, deprecated, unofficial)
      ensures exists i :: SelectedAt(raws, i, g, deprecated, unofficial)
    {
      SelectedFrom(raws, g, deprecated, unofficial);
    }
    forall g | exists i :: SelectedAt(raws, i, g, deprecated, unofficial)
      ensures g in Selected(raws, deprecated, unofficial)
    {
      var i :| SelectedAt(raws, i, g, deprecated, unofficial);
      SelectedTo(raws, i, g, deprecated, unofficial);
    }
  }

  /** Number of versions a format list holds, over all its formats. */
  function TotalVersions(fs: seq<Dict>): nat
  {
    if fs == [] then 0 else TotalVersions(fs[..|fs| - 1]) + |VersionsOf(fs[|fs| - 1])|
  }

  /** Appending a format adds its versions to the count. */
  lemma TotalVersionsSnoc(fs: seq<Dict>, g: Dict)
    requires AllHaveVersionLists(fs) && HasVersionList(g)
    ensures AllHaveVersionLists(fs + [g])
    ensures TotalVersions(fs + [g]) == TotalVersions(fs) + |VersionsOf(g)|
  {
    var gs := fs + [g];
    assert gs[..|gs| - 1] == fs && gs[|gs| - 1] == g;
  }

  /** Number of versions kept from a raw format list. */
  function TotalKept(raws: seq<Dict>, deprecated: bool, unofficial: bool): nat
  {
    if raws == [] then 0
    else TotalKept(raws[..|raws| - 1], deprecated, unofficial) + |KeptVersions(raws[|raws| - 1], deprecated, unofficial)|
  }

  /** Counting one format more adds the versions it keeps. */
  lemma TotalKeptStep(raws: seq<Dict>, i: int, deprecated: bool, unofficial: bool)
    requires 0 <= i < |raws|
    ensures TotalKept(raws[..i + 1], deprecated, unofficial) ==
      TotalKept(raws[..i], deprecated, unofficial) + |KeptVersions(raws[i], deprecated, unofficial)|
  {
    var p := raws[..i + 1];
    assert p[..|p| - 1] == raws[..i] && p[|p| - 1] == raws[i];
  }

  /** The selected formats hold exactly the kept versions. */
  lemma {:induction false} SelectedHoldsKeptVersions(raws: seq<Dict>, deprecated: bool, unofficial: bool)
    requires AllHaveVersionLists(raws)
    ensures AllHaveVersionLists(Selected(raws, deprecated, unofficial))
    ensures TotalVersions(Selected(raws, deprecated, unofficial)) == TotalKept(raws, deprecated, unofficial)
    decreases |raws|
  {
    SelectedShape(raws, deprecated, unofficial);
    if raws != [] {
      var init := raws[..|raws| - 1];
      var last := raws[|raws| - 1];
      SelectedShape(init, deprecated, unofficial);
      SelectedHoldsKeptVersions(init, deprecated, unofficial);
      SelectedLast(raws, deprecated, unofficial);
      var s0 := Selected(init, deprecated, unofficial);
      var r := SelectFormat(last, deprecated, unofficial);
      if r.None? {
        assert s0 + Emitted(r) == s0;
      } else {
        TotalVersionsSnoc(s0, r.value);
      }
    }
  }

  /**
   * Asking for deprecated or unofficial versions too never drops a version
   * that is output without them.
   */
  lemma KeptVersionsMonotone(f: Dict, d0: bool, u0: bool, d1: bool, u1: bool)
    requires HasVersionList(f)
    requires (d0 ==> d1) && (u0 ==> u1)
    ensures forall v :: v in KeptVersions(f, d0, u0) ==> v in KeptVersions(f, d1, u1)
    ensures |KeptVersions(f, d0, u0)| <= |KeptVersions(f, d1, u1)|
  {
    assert forall v :: v in KeptVersions(f, d0, u0) ==> v in VersionsOf(f) && KeepVersion(v, d0, u0);
    Seqs.FilterLengthMonotone(VersionsOf(f), Keeper(d0, u0), Keeper(d1, u1));
  }

  /** ... nor a format, and so never shortens the output. */
  lemma {:induction false} SelectionMonotone(raws: seq<Dict>, d0: bool, u0: bool, d1: bool, u1: bool)
    requires AllHaveVersionLists(raws)
    requires (d0 ==> d1) && (u0 ==> u1)
    ensures |Selected(raws, d0, u0)| <= |Selected(raws, d1, u1)|
    ensures TotalKept(raws, d0, u0) <= TotalKept(raws, d1, u1)
    decreases |raws|
  {
    if raws != [] {
      var init := raws[..|raws| - 1];
      var last := raws[|raws| - 1];
      SelectionMonotone(init, d0, u0, d1, u1);
      KeptVersionsMonotone(last, d0, u0, d1, u1);
      SelectedLast(raws, d0, u0);
      SelectedLast(raws, d1, u1);
      assert |Emitted(SelectFormat(last, d0, u0))| <= |Emitted(SelectFormat(last, d1, u1))|;
    }
  }

  // ---------------------------------------------------------------------------
  // file_formats: flattening
  // ---------------------------------------------------------------------------

  /** The format's keys that are merged into its version dicts: all but `versions` and `_id`. */
  function FormatBase(f: Dict): Dict
  {
    f - {"versions", "_id"}
  }

  /** `format_dict` after `update` with each of `vs` in turn: later keys win. */
  function Overlay(base: Dict, vs: seq<Dict>): Dict
  {
    if vs == [] then base else Overlay(base, vs[..|vs| - 1]) + vs[|vs| - 1]
  }

  /** The overlay's keys are the base's and the versions': a key of an earlier version persists into later dicts. */
  lemma {:induction false} OverlayKeys(base: Dict, vs: seq<Dict>, k: string)
    ensures k in Overlay(base, vs) <==> k in base || exists j :: 0 <= j < |vs| && k in vs[j]
    decreases |vs|
  {
    if vs != [] {
      var init := vs[..|vs| - 1];
      OverlayKeys(base, init, k);
      if exists j :: 0 <= j < |vs| - 1 && k in vs[j] {
        var j :| 0 <= j < |vs| - 1 && k in vs[j];
        assert init[j] == vs[j];
      }
      if exists j :: 0 <= j < |init| && k in init[j] {
        var j :| 0 <= j < |init| && k in init[j];
        assert init[j] == vs[j];
      }
    }
  }

  /** A key takes its value from the last version that has it. */
  lemma {:induction false} OverlayLastWins(base: Dict, vs: seq<Dict>, j: int, k: string)
    requires 0 <= j < |vs| && k in vs[j] && forall l :: j < l < |vs| ==> k !in vs[l]
    ensures k in Overlay(base, vs) && Overlay(base, vs)[k] == vs[j][k]
    decreases |vs|
  {
    var init := vs[..|vs| - 1];
    if j < |init| {
      assert k !in vs[|vs| - 1] && init[j] == vs[j];
      forall l | j < l < |init| ensures k !in init[l] {
        assert init[l] == vs[l];
      }
      OverlayLastWins(base, init, j, k);
    }
  }

  /** A key no version has keeps the base's value. */
  lemma {:induction false} OverlayBase(base: Dict, vs: seq<Dict>, k: string)
    requires k in base && forall j :: 0 <= j < |vs| ==> k !in vs[j]
    ensures k in Overlay(base, vs) && Overlay(base, vs)[k] == base[k]
    decreases |vs|
  {
    if vs != [] {
      var init := vs[..|vs| - 1];
      forall j | 0 <= j < |init| ensures k !in init[j] {
        assert init[j] == vs[j];
      }
      OverlayBase(base, init, k);
    }
  }

  /** The dicts `_flatten_format_versions` appends: the k-th is the overlay of the first k+1 versions. */
  function Flattened(base: Dict, vs: seq<Dict>): (r: seq<Dict>)
    ensures |r| == |vs|
    ensures forall k :: 0 <= k < |vs| ==> r[k] == Overlay(base, vs[..k + 1])
  {
    if vs == [] then []
    else
      var init := vs[..|vs| - 1];
      var r := Flattened(base, init) + [Overlay(base, vs)];
      assert forall k :: 0 <= k < |init| ==> Flattened(base, init)[k] == Overlay(base, vs[..k + 1]) by {
        forall k | 0 <= k < |init| ensures Flattened(base, init)[k] == Overlay(base, vs[..k + 1]) {
          assert init[..k + 1] == vs[..k + 1];
        }
      }
      assert vs[..|vs|] == vs;
      r
  }

  /** The flattened dicts of every format, format after format. */
  function FlattenAll(fs: seq<Dict>): seq<Dict>
  {
    if fs == [] then []
    else FlattenAll(fs[..|fs| - 1]) + Flattened(FormatBase(fs[|fs| - 1]), VersionsOf(fs[|fs| - 1]))
  }

  /** Flattening emits one dict per version. */
  lemma {:induction false} FlattenAllCount(fs: seq<Dict>)
    requires AllHaveVersionLists(fs)
    ensures |FlattenAll(fs)| == TotalVersions(fs)
    decreases |fs|
  {
    if fs != [] {
      FlattenAllCount(fs[..|fs| - 1]);
    }
  }

  /** One more format appends its flattened dicts. */
  lemma FlattenAllStep(fs: seq<Dict>, i: nat)
    requires i < |fs|
    ensures FlattenAll(fs[..i + 1]) == FlattenAll(fs[..i]) + Flattened(FormatBase(fs[i]), VersionsOf(fs[i]))
  {
    var p := fs[..i + 1];
    assert p[..|p| - 1] == fs[..i] && p[|p| - 1] == fs[i];
  }

  /** What `file_formats` returns. */
  function FileFormatsOf(raws: seq<Dict>, deprecated: bool, unofficial: bool, versionsSeparately: bool): seq<Dict>
    requires AllHaveVersionLists(raws)
  {
    var sel := Selected(raws, deprecated, unofficial);
    SelectedShape(raws, deprecated, unofficial);
    if versionsSeparately then FlattenAll(sel) else sel
  }

  /** With `versions_separately` the output has one dict per kept version. */
  lemma FileFormatsSeparateCount(raws: seq<Dict>, deprecated: bool, unofficial: bool)
    requires AllHaveVersionLists(raws)
    ensures |FileFormatsOf(raws, deprecated, unofficial, true)| == TotalKept(raws, deprecated, unofficial)
  {
    SelectedShape(raws, deprecated, unofficial);
    FlattenAllCount(Selected(raws, deprecated, unofficial));
    SelectedHoldsKeptVersions(raws, deprecated, unofficial);
  }

  /** `_select_format_and_versions` for one format, with its loop. */
  method SelectFormatAndVersions(f: Dict, deprecated: bool, unofficial: bool) returns (includeFormat: bool, g: Dict)
    requires HasVersionList(f)
    ensures includeFormat <==> SelectFormat(f, deprecated, unofficial).Some?
    ensures includeFormat ==> g == SelectFormat(f, deprecated, unofficial).value
  {
    includeFormat := false;
    var included: seq<Dict> := [];
    g := f;
    var versions := VersionsOf(f);
    for i := 0 to |versions|
      invariant included == Seqs.Filter(versions[..i], Keeper(deprecated, unofficial))
      invariant includeFormat <==> included != []
      invariant includeFormat ==> g == f["versions" := ObjList(included)]
    {
      var version := versions[i];
      var official := unofficial || Truthy(Get(version, "added_in_dps_spec", Str("")));
      var active := deprecated || Truthy(Get(version, "active", Bool(false)));
      if active && official {
        includeFormat := true;
        included := included + [version];
      }
      // the source reassigns `versions` on every iteration
      g := f["versions" := ObjList(included)];
      KeptPrefixStep(versions, i, deprecated, unofficial);
    }
    assert versions[..|versions|] == versions;
    assert included == KeptVersions(f, deprecated, unofficial);
  }

  /** Extending the scanned prefix by one version keeps it iff the keep condition holds. */
  lemma KeptPrefixStep(versions: seq<Dict>, i: int, deprecated: bool, unofficial: bool)
    requires 0 <= i < |versions|
    ensures Seqs.Filter(versions[..i + 1], Keeper(deprecated, unofficial)) ==
      Seqs.Filter(versions[..i], Keeper(deprecated, unofficial)) +
      (if KeepVersion(versions[i], deprecated, unofficial) then [versions[i]] else [])
  {
    assert versions[..i + 1] == versions[..i] + [versions[i]];
    Seqs.FilterAppend(versions[..i], [versions[i]], Keeper(deprecated, unofficial));
    Seqs.FilterCons([versions[i]], Keeper(deprecated, unofficial));
  }

  /** `_flatten_format_versions` for one format: `format_dict` accumulates every version's keys. */
  method FlattenFormatVersions(f: Dict) returns (dicts: seq<Dict>)
    requires HasVersionList(f)
    ensures dicts == Flattened(FormatBase(f), VersionsOf(f))
  {
    var formatDict := f - {"versions", "_id"};
    dicts := [];
    var versions := VersionsOf(f);
    for i := 0 to |versions|
      invariant formatDict == Overlay(FormatBase(f), versions[..i])
      invariant dicts == Flattened(FormatBase(f), versions[..i])
    {
      assert versions[..i + 1][..i] == versions[..i];
      formatDict := formatDict + versions[i];
      dicts := dicts + [formatDict];
    }
    assert versions[..|versions|] == versions;
  }

  /** The first loop of `file_formats`: every format `_select_format_and_versions` includes, in order. */
  method SelectAll(raws: seq<Dict>, deprecated: bool, unofficial: bool) returns (selected: seq<Dict>)
    requires AllHaveVersionLists(raws)
    ensures selected == Selected(raws, deprecated, unofficial)
  {
    selected := [];
    for i := 0 to |raws|
      invariant selected == Selected(raws[..i], deprecated, unofficial)
    {
      SelectedStep(raws, i, deprecated, unofficial);
      var keep, g := SelectFormatAndVersions(raws[i], deprecated, unofficial);
      if keep {
        selected := selected + [g];
      }
    }
    assert raws[..|raws|] == raws;
  }

  /** The second loop of `file_formats`: the flattened dicts of every format, format after format. */
  method FlattenAllFormats(fs: seq<Dict>) returns (output: seq<Dict>)
    requires AllHaveVersionLists(fs)
    ensures output == FlattenAll(fs)
  {
    output := [];
    for i := 0 to |fs|
      invariant output == FlattenAll(fs[..i])
    {
      FlattenAllStep(fs, i);
      var dicts := FlattenFormatVersions(fs[i]);
      output := output + dicts;
    }
    assert fs[..|fs|] == fs;
  }

  /** `file_formats` over an explicit registry. */
  method FileFormats(raws: seq<Dict>, deprecated: bool, unofficial: bool, versionsSeparately: bool)
    returns (output: seq<Dict>)
    requires AllHaveVersionLists(raws)
    ensures output == FileFormatsOf(raws, deprecated, unofficial, versionsSeparately)
  {
    var selected := SelectAll(raws, deprecated, unofficial);
    if !versionsSeparately {
      output := selected;
    } else {
      SelectedShape(raws, deprecated, unofficial);
      output := FlattenAllFormats(selected);
    }
  }

  // ---------------------------------------------------------------------------
  // mimetypes_grading
  // ---------------------------------------------------------------------------

  /** `version.get('active', False)` is truthy. */
  predicate IsActive(v: Dict)
  {
    Truthy(Get(v, "active", Bool(false)))
  }

  /** Every active version has the string `version` that is read with `[]`. */
  predicate ActiveVersionsNamed(vs: seq<Dict>)
  {
    forall j :: 0 <= j < |vs| && IsActive(vs[j]) ==> HasStr(vs[j], "version")
  }

  /** `vs[j]` is active and named `ver`. */
  predicate NamesVersion(vs: seq<Dict>, j: int, ver: string)
  {
    0 <= j < |vs| && IsActive(vs[j]) && "version" in vs[j] && vs[j]["version"] == Str(ver)
  }

  /** `format_versions`: version name to grade, over the active versions, a later one overriding. */
  function ActiveGrades(vs: seq<Dict>): map<string, Value>
    requires ActiveVersionsNamed(vs)
  {
    if vs == [] then map[]
    else
      var m := ActiveGrades(vs[..|vs| - 1]);
      var v := vs[|vs| - 1];
      if IsActive(v) then m[v["version"].s := Get(v, "grade", Str(""))] else m
  }

  /** The names in `format_versions` are exactly those of the active versions. */
  lemma {:induction false} ActiveGradesKeys(vs: seq<Dict>)
    requires ActiveVersionsNamed(vs)
    ensures forall ver :: ver in ActiveGrades(vs) <==> exists j :: NamesVersion(vs, j, ver)
    decreases |vs|
  {
    if vs != [] {
      var init := vs[..|vs| - 1];
      ActiveGradesKeys(init);
      forall ver | ver in ActiveGrades(vs) ensures exists j :: NamesVersion(vs, j, ver) {
        if NamesVersion(vs, |vs| - 1, ver) {
        } else {
          assert ver in ActiveGrades(init);
          var j :| NamesVersion(init, j, ver);
          assert vs[j] == init[j];
          assert NamesVersion(vs, j, ver);
        }
      }
      forall ver | exists j :: NamesVersion(vs, j, ver) ensures ver in ActiveGrades(vs) {
        var j :| NamesVersion(vs, j, ver);
        if j < |vs| - 1 {
          assert NamesVersion(init, j, ver);
        }
      }
    }
  }

  /** The grade recorded for a name is that of the last active version with that name. */
  lemma {:induction false} ActiveGradesLastWins(vs: seq<Dict>, j: int, ver: string)
    requires ActiveVersionsNamed(vs)
    requires NamesVersion(vs, j, ver)
    requires forall l :: j < l < |vs| ==> !NamesVersion(vs, l, ver)
    ensures ver in ActiveGrades(vs) && ActiveGrades(vs)[ver] == Get(vs[j], "grade", Str(""))
    decreases |vs|
  {
    var init := vs[..|vs| - 1];
    if j < |vs| - 1 {
      assert !NamesVersion(vs, |vs| - 1, ver);
      assert NamesVersion(init, j, ver);
      forall l | j < l < |init| ensures !NamesVersion(init, l, ver) {
        assert !NamesVersion(vs, l, ver);
      }
      ActiveGradesLastWins(init, j, ver);
    }
  }

  /** `file_format.get('charsets', [])` is truthy. */
  predicate HasCharsets(f: Dict)
  {
    Truthy(Get(f, "charsets", Arr([])))
  }

  /** What mimetypes_grading reads of a format without failing. */
  predicate ReadableForGrading(f: Dict)
  {
    HasVersionList(f) && ActiveVersionsNamed(VersionsOf(f))
  }

  /** The format adds its versions: it has an active version and passes the `text_formats` filter. */
  predicate Contributes(f: Dict, textFormats: bool)
    requires ReadableForGrading(f)
  {
    ActiveGrades(VersionsOf(f)) != map[] && (!textFormats || HasCharsets(f))
  }

  /** Every format is readable, and every contributing one has the string `mimetype` read with `[]`. */
  predicate GradingReadable(fs: seq<Dict>, textFormats: bool)
  {
    forall i :: 0 <= i < |fs| ==>
      ReadableForGrading(fs[i]) && (Contributes(fs[i], textFormats) ==> HasStr(fs[i], "mimetype"))
  }

  /** mimetype to {version to grade}. */
  type Grading = map<string, map<string, Value>>

  /** One iteration of the outer loop of `mimetypes_grading`: a contributing format adds its versions under its mimetype. */
  function AddContribution(m: Grading, f: Dict, textFormats: bool): Grading
    requires ReadableForGrading(f) && (Contributes(f, textFormats) ==> HasStr(f, "mimetype"))
  {
    if Contributes(f, textFormats) then
      var mimetype := f["mimetype"].s;
      var versions := ActiveGrades(VersionsOf(f));
      if mimetype in m then m[mimetype := m[mimetype] + versions] else m[mimetype := versions]
    else m
  }

  /** What `mimetypes_grading` returns. */
  function GradingOf(fs: seq<Dict>, textFormats: bool): Grading
    requires GradingReadable(fs, textFormats)
    decreases |fs|
  {
    if fs == [] then map[]
    else AddContribution(GradingOf(fs[..|fs| - 1], textFormats), fs[|fs| - 1], textFormats)
  }

  /** `fs[i]` contributes under the mimetype `mimetype`. */
  predicate ContributesAs(fs: seq<Dict>, i: int, mimetype: string, textFormats: bool)
  {
    0 <= i < |fs| && ReadableForGrading(fs[i]) && Contributes(fs[i], textFormats) &&
    "mimetype" in fs[i] && fs[i]["mimetype"] == Str(mimetype)
  }

  /** Dropping the last format keeps a registry readable, and the others contribute as before. */
  lemma GradingPrefix(fs: seq<Dict>, textFormats: bool, mimetype: string)
    requires GradingReadable(fs, textFormats) && fs != []
    ensures GradingReadable(fs[..|fs| - 1], textFormats)
    ensures forall i :: 0 <= i < |fs| - 1 ==>
      (ContributesAs(fs[..|fs| - 1], i, mimetype, textFormats) <==> ContributesAs(fs, i, mimetype, textFormats))
  {
    GradingPrefixReadable(fs, textFormats);
  }

  lemma GradingPrefixReadable(fs: seq<Dict>, textFormats: bool)
    requires GradingReadable(fs, textFormats) && fs != []
    ensures GradingReadable(fs[..|fs| - 1], textFormats)
  {
  }

  /** One step of the grading: the last format adds its versions under its mimetype, overriding. */
  lemma GradingStep(fs: seq<Dict>, textFormats: bool, mimetype: string)
    requires GradingReadable(fs, textFormats) && fs != []
    requires GradingReadable(fs[..|fs| - 1], textFormats)
    ensures var g0 := GradingOf(fs[..|fs| - 1], textFormats);
      var g := GradingOf(fs, textFormats);
      var n := |fs| - 1;
      (mimetype in g <==> mimetype in g0 || ContributesAs(fs, n, mimetype, textFormats)) &&
      (mimetype in g ==>
        g[mimetype] == (if mimetype in g0 then g0[mimetype] else map[]) +
          (if ContributesAs(fs, n, mimetype, textFormats) then ActiveGrades(VersionsOf(fs[n])) else map[]))
  {
    var f := fs[|fs| - 1];
    var g0 := GradingOf(fs[..|fs| - 1], textFormats);
    assert GradingOf(fs, textFormats) == AddContribution(g0, f, textFormats);
    if Contributes(f, textFormats) {
      assert ContributesAs(fs, |fs| - 1, mimetype, textFormats) <==> f["mimetype"].s == mimetype;
    } else {
      assert !ContributesAs(fs, |fs| - 1, mimetype, textFormats);
    }
  }

  /** A mimetype is a key iff some format contributes under it. */
  lemma {:induction false} GradingMimetypes(fs: seq<Dict>, textFormats: bool, mimetype: string)
    requires GradingReadable(fs, textFormats)
    ensures mimetype in GradingOf(fs, textFormats) <==> exists i :: ContributesAs(fs, i, mimetype, textFormats)
    decreases |fs|
  {
    if fs != [] {
      var init := fs[..|fs| - 1];
      var n := |fs| - 1;
      GradingPrefix(fs, textFormats, mimetype);
      GradingStep(fs, textFormats, mimetype);
      GradingMimetypes(init, textFormats, mimetype);
      if mimetype in GradingOf(init, textFormats) {
        var i :| ContributesAs(init, i, mimetype, textFormats);
        assert ContributesAs(fs, i, mimetype, textFormats);
      }
      if exists i :: ContributesAs(fs, i, mimetype, textFormats) {
        var i :| ContributesAs(fs, i, mimetype, textFormats);
        if i < n {
          assert ContributesAs(init, i, mimetype, textFormats);
        }
      }
    }
  }

  /** A version is listed under a mimetype iff a format contributing under it has that version active. */
  lemma GradingVersions(fs: seq<Dict>, textFormats: bool, mimetype: string, ver: string)
    requires GradingReadable(fs, textFormats)
    requires mimetype in GradingOf(fs, textFormats)
    ensures ver in GradingOf(fs, textFormats)[mimetype] <==>
      exists i :: ContributesAs(fs, i, mimetype, textFormats) && ver in ActiveGrades(VersionsOf(fs[i]))
  {
    if ver in GradingOf(fs, textFormats)[mimetype] {
      GradingVersionsFrom(fs, textFormats, mimetype, ver);
    }
    if exists i :: ContributesAs(fs, i, mimetype, textFormats) && ver in ActiveGrades(VersionsOf(fs[i])) {
      var i :| ContributesAs(fs, i, mimetype, textFormats) && ver in ActiveGrades(VersionsOf(fs[i]));
      GradingVersionsTo(fs, textFormats, i, mimetype, ver);
    }
  }

  /** A version listed under a mimetype comes from a format contributing under it. */
  lemma {:induction false} GradingVersionsFrom(fs: seq<Dict>, textFormats: bool, mimetype: string, ver: string)
    requires GradingReadable(fs, textFormats)
    requires mimetype in GradingOf(fs, textFormats) && ver in GradingOf(fs, textFormats)[mimetype]
    ensures exists i :: ContributesAs(fs, i, mimetype, textFormats) && ver in ActiveGrades(VersionsOf(fs[i]))
    decreases |fs|
  {
    if fs != [] {
      var init := fs[..|fs| - 1];
      var n := |fs| - 1;
      GradingPrefix(fs, textFormats, mimetype);
      GradingStep(fs, textFormats, mimetype);
      if !(ContributesAs(fs, n, mimetype, textFormats) && ver in ActiveGrades(VersionsOf(fs[n]))) {
        GradingVersionsFrom(init, textFormats, mimetype, ver);
        var i :| ContributesAs(init, i, mimetype, textFormats) && ver in ActiveGrades(VersionsOf(init[i]));
        assert ContributesAs(fs, i, mimetype, textFormats) && fs[i] == init[i];
      }
    }
  }

  /** Every active version of a format contributing under a mimetype is listed under it. */
  lemma {:induction false} GradingVersionsTo(fs: seq<Dict>, textFormats: bool, i: int, mimetype: string, ver: string)
    requires GradingReadable(fs, textFormats)
    requires ContributesAs(fs, i, mimetype, textFormats) && ver in ActiveGrades(VersionsOf(fs[i]))
    ensures mimetype in GradingOf(fs, textFormats) && ver in GradingOf(fs, textFormats)[mimetype]
    decreases |fs|
  {
    var init := fs[..|fs| - 1];
    var n := |fs| - 1;
    GradingPrefix(fs, textFormats, mimetype);
    GradingStep(fs, textFormats, mimetype);
    if i < n {
      assert ContributesAs(init, i, mimetype, textFormats);
      GradingVersionsTo(init, textFormats, i, mimetype, ver);
    }
  }

  /**
   * Formats sharing a mimetype merge, a later format overriding: the grade of
   * a version is that of the last contributing format that has it.
   */
  lemma {:induction false} GradingLastWins(fs: seq<Dict>, textFormats: bool, i: int, mimetype: string, ver: string)
    requires GradingReadable(fs, textFormats)
    requires ContributesAs(fs, i, mimetype, textFormats) && ver in ActiveGrades(VersionsOf(fs[i]))
    requires forall l :: i < l < |fs| && ContributesAs(fs, l, mimetype, textFormats) ==>
      ver !in ActiveGrades(VersionsOf(fs[l]))
    ensures mimetype in GradingOf(fs, textFormats) && ver in GradingOf(fs, textFormats)[mimetype]
    ensures GradingOf(fs, textFormats)[mimetype][ver] == ActiveGrades(VersionsOf(fs[i]))[ver]
    decreases |fs|
  {
    var init := fs[..|fs| - 1];
    var n := |fs| - 1;
    GradingPrefix(fs, textFormats, mimetype);
    GradingStep(fs, textFormats, mimetype);
    if i < n {
      assert ContributesAs(init, i, mimetype, textFormats);
      forall l | i < l < |init| && ContributesAs(init, l, mimetype, textFormats)
        ensures ver !in ActiveGrades(VersionsOf(init[l]))
      {
        assert ContributesAs(fs, l, mimetype, textFormats);
      }
      GradingLastWins(init, textFormats, i, mimetype, ver);
    }
  }

  function CharsetsFilter(): Dict -> bool
  {
    (f: Dict) => HasCharsets(f)
  }

  /** The formats with charsets of a registry readable for text grading are readable for plain grading. */
  lemma TextualReadable(fs: seq<Dict>)
    requires GradingReadable(fs, true)
    ensures GradingReadable(Seqs.Filter(fs, CharsetsFilter()), false)
  {
    var kept := Seqs.Filter(fs, CharsetsFilter());
    forall i | 0 <= i < |kept| ensures
      ReadableForGrading(kept[i]) && (Contributes(kept[i], false) ==> HasStr(kept[i], "mimetype"))
    {
      assert kept[i] in kept;
      var k :| 0 <= k < |fs| && fs[k] == kept[i];
      assert HasCharsets(fs[k]);
    }
  }

  /** With `text_formats`, the grading is that of the formats with a non-empty charset list alone. */
  lemma {:induction false} TextGradingIsFiltered(fs: seq<Dict>)
    requires GradingReadable(fs, true)
    ensures GradingReadable(Seqs.Filter(fs, CharsetsFilter()), false)
    ensures GradingOf(fs, true) == GradingOf(Seqs.Filter(fs, CharsetsFilter()), false)
    decreases |fs|
  {
    TextualReadable(fs);
    if fs != [] {
      var init, f := fs[..|fs| - 1], fs[|fs| - 1];
      assert fs == init + [f];
      GradingPrefixReadable(fs, true);
      TextGradingIsFiltered(init);
      TextGradingStep(init, f, Seqs.Filter(init, CharsetsFilter()), Seqs.Filter(fs, CharsetsFilter()));
    }
  }

  /** Grading a registry with one more format at the end. */
  lemma GradingSnoc(init: seq<Dict>, f: Dict, textFormats: bool)
    requires GradingReadable(init + [f], textFormats)
    ensures GradingReadable(init, textFormats)
    ensures ReadableForGrading(f) && (Contributes(f, textFormats) ==> HasStr(f, "mimetype"))
    ensures GradingOf(init + [f], textFormats) == AddContribution(GradingOf(init, textFormats), f, textFormats)
  {
    var fs := init + [f];
    assert fs[..|fs| - 1] == init && fs[|fs| - 1] == f;
    GradingPrefixReadable(fs, textFormats);
  }

  /** The induction step of TextGradingIsFiltered. */
  lemma TextGradingStep(init: seq<Dict>, f: Dict, t0: seq<Dict>, textual: seq<Dict>)
    requires GradingReadable(init + [f], true) && GradingReadable(init, true)
    requires t0 == Seqs.Filter(init, CharsetsFilter()) && textual == Seqs.Filter(init + [f], CharsetsFilter())
    requires GradingReadable(t0, false) && GradingReadable(textual, false)
    requires GradingOf(init, true) == GradingOf(t0, false)
    ensures GradingOf(init + [f], true) == GradingOf(textual, false)
  {
    GradingSnoc(init, f, true);
    Seqs.FilterAppend(init, [f], CharsetsFilter());
    var one: seq<Dict> := [f];
    Seqs.FilterCons(one, CharsetsFilter());
    assert one[1..] == [];
    if HasCharsets(f) {
      assert textual == t0 + [f];
      GradingSnoc(t0, f, false);
      assert Contributes(f, true) == Contributes(f, false);
    } else {
      assert textual == t0;
      assert !Contributes(f, true);
    }
  }

  /** The inner loop of `mimetypes_grading`: the grade of every active version, by version name. */
  method FormatVersionsGrading(versions: seq<Dict>) returns (formatVersions: map<string, Value>)
    requires ActiveVersionsNamed(versions)
    ensures formatVersions == ActiveGrades(versions)
  {
    formatVersions := map[];
    for j := 0 to |versions|
      invariant formatVersions == ActiveGrades(versions[..j])
    {
      assert versions[..j + 1][..j] == versions[..j];
      var v := versions[j];
      if IsActive(v) {
        formatVersions := formatVersions[v["version"].s := Get(v, "grade", Str(""))];
      }
    }
    assert versions[..|versions|] == versions;
  }

  /** `mimetypes_grading` over an explicit registry. */
  method MimetypesGrading(fs: seq<Dict>, textFormats: bool) returns (mimetypes: Grading)
    requires GradingReadable(fs, textFormats)
    ensures mimetypes == GradingOf(fs, textFormats)
  {
    mimetypes := map[];
    for i := 0 to |fs|
      invariant mimetypes == GradingOf(fs[..i], textFormats)
    {
      var f := fs[i];
      assert fs[..i + 1] == fs[..i] + [f];
      GradingSnoc(fs[..i], f, textFormats);
      var formatVersions := FormatVersionsGrading(VersionsOf(f));
      if formatVersions != map[] {
        if !textFormats || HasCharsets(f) {
          var mimetype := f["mimetype"].s;
          if mimetype in mimetypes {
            mimetypes := mimetypes[mimetype := mimetypes[mimetype] + formatVersions];
          } else {
            mimetypes := mimetypes[mimetype := formatVersions];
          }
        }
      }
    }
    assert fs[..|fs|] == fs;
  }

  // ---------------------------------------------------------------------------
  // containers_streams_grading
  // ---------------------------------------------------------------------------

  /** A (mimetype, version) pair of a stream. */
  type StreamPair = (string, string)

  /** Why `containers_streams_grading` raises. */
  datatype ContainerGradingError =
    /** A second selected container with the same mimetype makes line 160 index the list by a string. */
    | ListIndexedByString(mimetype: string)

  /** A stream record with the string `mimetype` and `version` read with `[]`. */
  predicate IsStreamRecord(s: Dict)
  {
    HasStr(s, "mimetype") && HasStr(s, "version")
  }

  function PairOf(s: Dict): StreamPair
    requires IsStreamRecord(s)
  {
    (s["mimetype"].s, s["version"].s)
  }

  /** The audio streams, then the video streams, of a container. */
  function StreamRecords(c: Dict): seq<Dict>
    requires HasObjList(c, "audio_streams") && HasObjList(c, "video_streams")
  {
    ObjectsAt(c, "audio_streams") + ObjectsAt(c, "video_streams")
  }

  predicate AllStreamRecords(recs: seq<Dict>)
  {
    forall j :: 0 <= j < |recs| ==> IsStreamRecord(recs[j])
  }

  /** The set `streams` built from a list of stream records. */
  function PairsOf(recs: seq<Dict>): (pairs: set<StreamPair>)
    requires AllStreamRecords(recs)
    ensures forall p :: p in pairs <==> exists j :: 0 <= j < |recs| && PairOf(recs[j]) == p
  {
    if recs == [] then {}
    else
      var init := recs[..|recs| - 1];
      var pairs := PairsOf(init) + {PairOf(recs[|recs| - 1])};
      assert forall j :: 0 <= j < |init| ==> init[j] == recs[j];
      pairs
  }

  /** The container is kept: no grade was asked for, or it has the grade asked for. */
  predicate Selects(c: Dict, grade: Option<Grade>)
  {
    grade.None? || Get(c, "grade", Str("")) == Str(grade.value.Value())
  }

  /** What `containers_streams_grading` reads of a container without failing. */
  predicate ContainerReadable(c: Dict, grade: Option<Grade>)
  {
    HasObjList(c, "audio_streams") && HasObjList(c, "video_streams") &&
    AllStreamRecords(StreamRecords(c)) &&
    (Selects(c, grade) ==> HasStr(c, "mimetype"))
  }

  predicate ContainersReadable(cs: seq<Dict>, grade: Option<Grade>)
  {
    forall i :: 0 <= i < |cs| ==> ContainerReadable(cs[i], grade)
  }

  /** Container mimetype to the stream pairs it may hold. */
  type ContainerGrading = map<string, set<StreamPair>>

  /** One iteration of the loop of `containers_streams_grading`. */
  function AddContainer(m: ContainerGrading, c: Dict, grade: Option<Grade>): Result<ContainerGrading, ContainerGradingError>
    requires ContainerReadable(c, grade)
  {
    if !Selects(c, grade) then Success(m)
    else
      var mimetype := c["mimetype"].s;
      if mimetype in m then Failure(ListIndexedByString(mimetype))
      else Success(m[mimetype := PairsOf(StreamRecords(c))])
  }

  /** What `containers_streams_grading` returns, or why it raises. */
  function ContainersGradingOf(cs: seq<Dict>, grade: Option<Grade>): Result<ContainerGrading, ContainerGradingError>
    requires ContainersReadable(cs, grade)
    decreases |cs|
  {
    if cs == [] then Success(map[])
    else
      var prev := ContainersGradingOf(cs[..|cs| - 1], grade);
      if prev.Failure? then prev else AddContainer(prev.value, cs[|cs| - 1], grade)
  }

  /** `cs[i]` is kept and has the mimetype `mimetype`. */
  predicate SelectsAs(cs: seq<Dict>, i: int, grade: Option<Grade>, mimetype: string)
  {
    0 <= i < |cs| && Selects(cs[i], grade) && "mimetype" in cs[i] && cs[i]["mimetype"] == Str(mimetype)
  }

  /** Two kept containers share a mimetype. */
  ghost predicate HasDuplicate(cs: seq<Dict>, grade: Option<Grade>)
  {
    exists i, j, mimetype :: i < j && SelectsAs(cs, i, grade, mimetype) && SelectsAs(cs, j, grade, mimetype)
  }

  /** Grading containers with one more at the end. */
  lemma ContainersSnoc(init: seq<Dict>, c: Dict, grade: Option<Grade>)
    requires ContainersReadable(init + [c], grade)
    ensures ContainersReadable(init, grade) && ContainerReadable(c, grade)
    ensures ContainersGradingOf(init + [c], grade) ==
      var prev := ContainersGradingOf(init, grade);
      if prev.Failure? then prev else AddContainer(prev.value, c, grade)
  {
    var cs := init + [c];
    assert cs[..|cs| - 1] == init && cs[|cs| - 1] == c;
    assert forall i :: 0 <= i < |init| ==> init[i] == cs[i];
  }

  /** `m` maps exactly the mimetypes of the kept containers, each to that container's stream pairs. */
  ghost predicate GradesAs(cs: seq<Dict>, grade: Option<Grade>, m: ContainerGrading)
    requires ContainersReadable(cs, grade)
  {
    (forall mimetype :: mimetype in m <==> exists i :: SelectsAs(cs, i, grade, mimetype)) &&
    (forall i, mimetype :: SelectsAs(cs, i, grade, mimetype) ==> m[mimetype] == PairsOf(StreamRecords(cs[i])))
  }

  /**
   * The grading fails exactly when two kept containers share a mimetype;
   * otherwise it maps every kept container's mimetype to that container's
   * stream pairs, and nothing else.
   */
  lemma {:induction false} ContainersGradingSpec(cs: seq<Dict>, grade: Option<Grade>)
    requires ContainersReadable(cs, grade)
    ensures ContainersGradingOf(cs, grade).Failure? <==> HasDuplicate(cs, grade)
    ensures ContainersGradingOf(cs, grade).Success? ==> GradesAs(cs, grade, ContainersGradingOf(cs, grade).value)
    decreases |cs|
  {
    if cs != [] {
      var init, c := cs[..|cs| - 1], cs[|cs| - 1];
      assert cs == init + [c];
      ContainersSnoc(init, c, grade);
      ContainersGradingSpec(init, grade);
      ContainersStep(init, c, grade);
    }
  }

  /** The induction step of ContainersGradingSpec. */
  lemma ContainersStep(init: seq<Dict>, c: Dict, grade: Option<Grade>)
    requires ContainersReadable(init + [c], grade)
    requires ContainersReadable(init, grade) && ContainerReadable(c, grade)
    requires ContainersGradingOf(init, grade).Failure? <==> HasDuplicate(init, grade)
    requires ContainersGradingOf(init, grade).Success? ==> GradesAs(init, grade, ContainersGradingOf(init, grade).value)
    requires ContainersGradingOf(init + [c], grade) ==
      var prev := ContainersGradingOf(init, grade);
      if prev.Failure? then prev else AddContainer(prev.value, c, grade)
    ensures ContainersGradingOf(init + [c], grade).Failure? <==> HasDuplicate(init + [c], grade)
    ensures ContainersGradingOf(init + [c], grade).Success? ==>
      GradesAs(init + [c], grade, ContainersGradingOf(init + [c], grade).value)
  {
    var cs := init + [c];
    var prev := ContainersGradingOf(init, grade);
    if prev.Failure? {
      var i, j, mimetype :| i < j && SelectsAs(init, i, grade, mimetype) && SelectsAs(init, j, grade, mimetype);
      assert SelectsAs(cs, i, grade, mimetype) && SelectsAs(cs, j, grade, mimetype);
    } else {
      AddContainerSpec(init, c, grade, prev.value, ContainersGradingOf(cs, grade));
    }
  }

  /**
   * One loop iteration of `containers_streams_grading`, given a grading that
   * is correct for the earlier containers, is correct for one more container.
   */
  lemma AddContainerSpec(init: seq<Dict>, c: Dict, grade: Option<Grade>, m: ContainerGrading,
                         r: Result<ContainerGrading, ContainerGradingError>)
    requires ContainersReadable(init + [c], grade)
    requires ContainersReadable(init, grade) && ContainerReadable(c, grade)
    requires !HasDuplicate(init, grade) && GradesAs(init, grade, m)
    requires r == AddContainer(m, c, grade)
    ensures r.Failure? <==> HasDuplicate(init + [c], grade)
    ensures r.Success? ==> GradesAs(init + [c], grade, r.value)
  {
    if !Selects(c, grade) {
      SkippedContainer(init, c, grade, m);
    } else if c["mimetype"].s in m {
      ClashingContainer(init, c, grade, m);
    } else {
      AddedContainer(init, c, grade, m, r.value);
    }
  }

  /** A container that is not kept leaves the grading as it is, and correct. */
  lemma SkippedContainer(init: seq<Dict>, c: Dict, grade: Option<Grade>, m: ContainerGrading)
    requires ContainersReadable(init + [c], grade) && ContainersReadable(init, grade)
    requires !Selects(c, grade) && !HasDuplicate(init, grade) && GradesAs(init, grade, m)
    ensures !HasDuplicate(init + [c], grade) && GradesAs(init + [c], grade, m)
  {
    var cs := init + [c];
    forall i, mimetype
      ensures SelectsAs(cs, i, grade, mimetype) <==> SelectsAs(init, i, grade, mimetype)
    {
      if 0 <= i < |init| {
        assert cs[i] == init[i];
      }
    }
  }

  /** A kept container whose mimetype an earlier kept container has is a duplicate. */
  lemma ClashingContainer(init: seq<Dict>, c: Dict, grade: Option<Grade>, m: ContainerGrading)
    requires ContainersReadable(init, grade) && ContainerReadable(c, grade) && Selects(c, grade)
    requires GradesAs(init, grade, m) && c["mimetype"].s in m
    ensures HasDuplicate(init + [c], grade)
  {
    var cs := init + [c];
    var mimetype := c["mimetype"].s;
    var i :| SelectsAs(init, i, grade, mimetype);
    assert SelectsAs(cs, i, grade, mimetype) && SelectsAs(cs, |init|, grade, mimetype);
  }

  /** A kept container under a new mimetype adds that mimetype, with its stream pairs, and no duplicate. */
  lemma AddedContainer(init: seq<Dict>, c: Dict, grade: Option<Grade>, m: ContainerGrading, m': ContainerGrading)
    requires ContainersReadable(init + [c], grade)
    requires ContainersReadable(init, grade) && ContainerReadable(c, grade) && Selects(c, grade)
    requires !HasDuplicate(init, grade) && GradesAs(init, grade, m)
    requires c["mimetype"].s !in m && m' == m[c["mimetype"].s := PairsOf(StreamRecords(c))]
    ensures !HasDuplicate(init + [c], grade) && GradesAs(init + [c], grade, m')
  {
    NoDuplicateAdded(init, c, grade, m);
    KeysAdded(init, c, grade, m, m');
    ValuesAdded(init, c, grade, m, m');
  }

  /** A kept container under a mimetype no earlier kept container has adds no duplicate. */
  lemma NoDuplicateAdded(init: seq<Dict>, c: Dict, grade: Option<Grade>, m: ContainerGrading)
    requires Selects(c, grade) && HasStr(c, "mimetype")
    requires !HasDuplicate(init, grade)
    requires forall mimetype :: (exists i :: SelectsAs(init, i, grade, mimetype)) ==> mimetype in m
    requires c["mimetype"].s !in m
    ensures !HasDuplicate(init + [c], grade)
  {
    var cs := init + [c];
    if HasDuplicate(cs, grade) {
      var i, j, mimetype :| i < j && SelectsAs(cs, i, grade, mimetype) && SelectsAs(cs, j, grade, mimetype);
      assert SelectsAs(init, i, grade, mimetype);
      if j < |init| {
        assert SelectsAs(init, j, grade, mimetype);
      }
      assert false;
    }
  }

  /** The kept mimetypes grow by the mimetype of a kept last container. */
  lemma KeysAdded(init: seq<Dict>, c: Dict, grade: Option<Grade>, m: ContainerGrading, m': ContainerGrading)
    requires Selects(c, grade) && HasStr(c, "mimetype")
    requires forall mimetype :: mimetype in m <==> exists i :: SelectsAs(init, i, grade, mimetype)
    requires m'.Keys == m.Keys + {c["mimetype"].s}
    ensures forall mimetype :: mimetype in m' <==> exists i :: SelectsAs(init + [c], i, grade, mimetype)
  {
    var cs := init + [c];
    assert SelectsAs(cs, |init|, grade, c["mimetype"].s);
    forall mimetype | mimetype in m
      ensures exists i :: SelectsAs(cs, i, grade, mimetype)
    {
      var i :| SelectsAs(init, i, grade, mimetype);
      assert SelectsAs(cs, i, grade, mimetype);
    }
    forall mimetype | (exists i :: SelectsAs(cs, i, grade, mimetype)) && mimetype != c["mimetype"].s
      ensures mimetype in m
    {
      var i :| SelectsAs(cs, i, grade, mimetype);
      assert SelectsAs(init, i, grade, mimetype);
    }
  }

  /** Every kept container, the new last one included, maps to its own stream pairs. */
  lemma ValuesAdded(init: seq<Dict>, c: Dict, grade: Option<Grade>, m: ContainerGrading, m': ContainerGrading)
    requires ContainersReadable(init + [c], grade)
    requires ContainersReadable(init, grade) && ContainerReadable(c, grade) && Selects(c, grade)
    requires forall mimetype :: (exists i :: SelectsAs(init, i, grade, mimetype)) ==> mimetype in m
    requires forall i, mimetype :: SelectsAs(init, i, grade, mimetype) ==> m[mimetype] == PairsOf(StreamRecords(init[i]))
    requires c["mimetype"].s !in m
    requires m' == m[c["mimetype"].s := PairsOf(StreamRecords(c))]
    ensures forall i, mimetype :: SelectsAs(init + [c], i, grade, mimetype) ==>
      ContainerReadable((init + [c])[i], grade) &&
      mimetype in m' && m'[mimetype] == PairsOf(StreamRecords((init + [c])[i]))
  {
    var cs := init + [c];
    forall i, mimetype | SelectsAs(cs, i, grade, mimetype)
      ensures mimetype in m' && m'[mimetype] == PairsOf(StreamRecords(cs[i]))
    {
      if i < |init| {
        assert SelectsAs(init, i, grade, mimetype);
      }
    }
  }

  /** The set of stream pairs of a list of stream records, built as the source's inner loops do. */
  method CollectPairs(streams: set<StreamPair>, recs: seq<Dict>) returns (pairs: set<StreamPair>)
    requires AllStreamRecords(recs)
    ensures pairs == streams + PairsOf(recs)
  {
    pairs := streams;
    for j := 0 to |recs|
      invariant AllStreamRecords(recs[..j])
      invariant pairs == streams + PairsOf(recs[..j])
    {
      assert recs[..j + 1][..j] == recs[..j];
      pairs := pairs + {PairOf(recs[j])};
    }
    assert recs[..|recs|] == recs;
  }

  /** `containers_streams_grading` over an explicit container table; `grade` is the grade asked for, if any. */
  method ContainersStreamsGrading(cs: seq<Dict>, grade: Option<Grade>)
    returns (r: Result<ContainerGrading, ContainerGradingError>)
    requires ContainersReadable(cs, grade)
    ensures r == ContainersGradingOf(cs, grade)
  {
    var selected: ContainerGrading := map[];
    for i := 0 to |cs|
      invariant ContainersGradingOf(cs[..i], grade) == Success(selected)
    {
      var c := cs[i];
      assert cs[..i + 1] == cs[..i] + [c];
      ContainersSnoc(cs[..i], c, grade);
      var streams := ContainerStreams(c);
      if Selects(c, grade) {
        var mimetype := c["mimetype"].s;
        if mimetype in selected {
          assert ContainersGradingOf(cs[..i + 1], grade) == Failure(ListIndexedByString(mimetype));
          ContainersFailureSticks(cs, grade, i + 1);
          return Failure(ListIndexedByString(mimetype));
        }
        selected := selected[mimetype := streams];
      }
    }
    assert cs[..|cs|] == cs;
    return Success(selected);
  }

  /** Once the grading of a prefix fails, the grading of the whole fails the same way. */
  lemma {:induction false} ContainersFailureSticks(cs: seq<Dict>, grade: Option<Grade>, k: nat)
    requires ContainersReadable(cs, grade) && k <= |cs|
    requires ContainersReadable(cs[..k], grade) && ContainersGradingOf(cs[..k], grade).Failure?
    ensures ContainersGradingOf(cs, grade) == ContainersGradingOf(cs[..k], grade)
    decreases |cs| - k
  {
    if k == |cs| {
      assert cs[..k] == cs;
    } else {
      var init := cs[..|cs| - 1];
      assert init[..k] == cs[..k];
      ContainersFailureSticks(init, grade, k);
    }
  }

  /** The `streams` set of one container: its audio stream pairs, then its video stream pairs. */
  method ContainerStreams(c: Dict) returns (streams: set<StreamPair>)
    requires HasObjList(c, "audio_streams") && HasObjList(c, "video_streams")
    requires AllStreamRecords(StreamRecords(c))
    ensures streams == PairsOf(StreamRecords(c))
  {
    var audio := ObjectsAt(c, "audio_streams");
    var video := ObjectsAt(c, "video_streams");
    assert AllStreamRecords(audio) && AllStreamRecords(video) by {
      assert forall j :: 0 <= j < |audio| ==> audio[j] == StreamRecords(c)[j];
      assert forall j :: 0 <= j < |video| ==> video[j] == StreamRecords(c)[|audio| + j];
    }
    streams := CollectPairs({}, audio);
    streams := CollectPairs(streams, video);
    PairsOfAppend(audio, video);
  }

  lemma PairsOfAppend(a: seq<Dict>, b: seq<Dict>)
    requires AllStreamRecords(a) && AllStreamRecords(b)
    ensures AllStreamRecords(a + b)
    ensures PairsOf(a + b) == PairsOf(a) + PairsOf(b)
  {
    var ab := a + b;
    forall p ensures p in PairsOf(ab) <==> p in PairsOf(a) + PairsOf(b) {
      if p in PairsOf(ab) {
        var j :| 0 <= j < |ab| && PairOf(ab[j]) == p;
        if j < |a| { assert ab[j] == a[j]; } else { assert ab[j] == b[j - |a|]; }
      }
      if p in PairsOf(a) {
        var j :| 0 <= j < |a| && PairOf(a[j]) == p;
        assert ab[j] == a[j];
      }
      if p in PairsOf(b) {
        var j :| 0 <= j < |b| && PairOf(b[j]) == p;
        assert ab[|a| + j] == b[j];
      }
    }
  }
}

/**
 * The registry of tests/conftest.py as far as selection looks at it: four
 * formats whose versions carry the conftest's `active` and
 * `added_in_dps_spec` values, and the shapes tests/read_file_formats_test.py
 * expects for every combination of the two flags.
 */
module ReadFileFormatsExamples {
  import opened Json
  import opened ReadFileFormats
  import Seqs

  /** A version's `active` and `added_in_dps_spec` values. */
  predicate Flags(v: Dict, active: bool, added: string)
  {
    Get(v, "active", Bool(false)) == Bool(active) && Get(v, "added_in_dps_spec", Str("")) == Str(added)
  }

  predicate IsConftestRegistry(raws: seq<Dict>)
  {
    |raws| == 4 && AllHaveVersionLists(raws) &&
    |VersionsOf(raws[0])| == 3 &&
    Flags(VersionsOf(raws[0])[0], false, "1") &&
    Flags(VersionsOf(raws[0])[1], true, "1") &&
    Flags(VersionsOf(raws[0])[2], true, "") &&
    |VersionsOf(raws[1])| == 1 && Flags(VersionsOf(raws[1])[0], true, "1") &&
    |VersionsOf(raws[2])| == 1 && Flags(VersionsOf(raws[2])[0], false, "1") &&
    |VersionsOf(raws[3])| == 1 && Flags(VersionsOf(raws[3])[0], true, "1")
  }

  function B(b: bool): nat { if b then 1 else 0 }

  lemma KeptOfOne(f: Dict, d: bool, u: bool)
    requires HasVersionList(f) && |VersionsOf(f)| == 1
    ensures |KeptVersions(f, d, u)| == B(KeepVersion(VersionsOf(f)[0], d, u))
  {
    var vs := VersionsOf(f);
    Seqs.FilterCons(vs, Keeper(d, u));
    assert vs[1..] == [];
  }

  lemma KeptOfThree(f: Dict, d: bool, u: bool)
    requires HasVersionList(f) && |VersionsOf(f)| == 3
    ensures |KeptVersions(f, d, u)| ==
      B(KeepVersion(VersionsOf(f)[0], d, u)) + B(KeepVersion(VersionsOf(f)[1], d, u)) +
      B(KeepVersion(VersionsOf(f)[2], d, u))
  {
    var vs := VersionsOf(f);
    var p := Keeper(d, u);
    Seqs.FilterCons(vs, p);
    Seqs.FilterCons(vs[1..], p);
    Seqs.FilterCons(vs[2..], p);
    assert vs[1..][1..] == vs[2..];
    assert vs[2..][1..] == [];
  }

  /** How many versions each conftest format keeps. */
  lemma ConftestKept(raws: seq<Dict>, d: bool, u: bool)
    requires IsConftestRegistry(raws)
    ensures |KeptVersions(raws[0], d, u)| == 1 + B(d) + B(u)
    ensures |KeptVersions(raws[1], d, u)| == 1
    ensures |KeptVersions(raws[2], d, u)| == B(d)
    ensures |KeptVersions(raws[3], d, u)| == 1
  {
    KeptOfThree(raws[0], d, u);
    KeptOfOne(raws[1], d, u);
    KeptOfOne(raws[2], d, u);
    KeptOfOne(raws[3], d, u);
  }

  /** Every conftest format but the third, which has only a deprecated version, is output. */
  lemma ConftestSelects(raws: seq<Dict>, d: bool, u: bool)
    requires IsConftestRegistry(raws)
    ensures SelectFormat(raws[0], d, u).Some? && SelectFormat(raws[1], d, u).Some?
    ensures SelectFormat(raws[2], d, u).Some? <==> d
    ensures SelectFormat(raws[3], d, u).Some?
  {
    ConftestKept(raws, d, u);
  }

  /** Selection of a four-format list: each format's selection, in order. */
  lemma SelectedOfFour(raws: seq<Dict>, d: bool, u: bool)
    requires |raws| == 4
    ensures Selected(raws, d, u) ==
      Emitted(SelectFormat(raws[0], d, u)) + Emitted(SelectFormat(raws[1], d, u)) +
      Emitted(SelectFormat(raws[2], d, u)) + Emitted(SelectFormat(raws[3], d, u))
  {
    var e0, e1 := Emitted(SelectFormat(raws[0], d, u)), Emitted(SelectFormat(raws[1], d, u));
    var e2, e3 := Emitted(SelectFormat(raws[2], d, u)), Emitted(SelectFormat(raws[3], d, u));
    assert Selected(raws[..1], d, u) == e0 by {
      SelectedStep(raws, 0, d, u);
      assert raws[..0] == [];
    }
    assert Selected(raws[..2], d, u) == e0 + e1 by {
      SelectedStep(raws, 1, d, u);
    }
    assert Selected(raws[..3], d, u) == e0 + e1 + e2 by {
      SelectedStep(raws, 2, d, u);
    }
    assert Selected(raws[..4], d, u) == e0 + e1 + e2 + e3 by {
      SelectedStep(raws, 3, d, u);
    }
    assert raws[..4] == raws;
  }

  /** Three formats are output, four with deprecated ones; the first is the first format's selection. */
  lemma ConftestSelected(raws: seq<Dict>, d: bool, u: bool)
    requires IsConftestRegistry(raws)
    ensures |Selected(raws, d, u)| == 3 + B(d)
    ensures SelectFormat(raws[0], d, u).Some? && Selected(raws, d, u)[0] == SelectFormat(raws[0], d, u).value
  {
    ConftestSelects(raws, d, u);
    SelectedOfFour(raws, d, u);
  }

  /** Versions kept from a four-format list: the sum of each format's. */
  lemma TotalKeptOfFour(raws: seq<Dict>, d: bool, u: bool)
    requires |raws| == 4
    ensures TotalKept(raws, d, u) ==
      |KeptVersions(raws[0], d, u)| + |KeptVersions(raws[1], d, u)| +
      |KeptVersions(raws[2], d, u)| + |KeptVersions(raws[3], d, u)|
  {
    TotalKeptStep(raws, 0, d, u);
    TotalKeptStep(raws, 1, d, u);
    TotalKeptStep(raws, 2, d, u);
    TotalKeptStep(raws, 3, d, u);
    assert raws[..0] == [] && raws[..4] == raws;
  }

  /** The kept versions of the conftest registry: 3, two more with deprecated and one more with unofficial ones. */
  lemma ConftestTotalKept(raws: seq<Dict>, d: bool, u: bool)
    requires IsConftestRegistry(raws)
    ensures TotalKept(raws, d, u) == 3 + 2 * B(d) + B(u)
  {
    ConftestKept(raws, d, u);
    TotalKeptOfFour(raws, d, u);
  }

  /**
   * tests/read_file_formats_test.py: 3 formats, or 4 with deprecated ones;
   * the first has 1 version, one more for each flag; flattened, 3 dicts,
   * two more with deprecated and one more with unofficial ones.
   */
  lemma ConftestFileFormats(raws: seq<Dict>, d: bool, u: bool)
    requires IsConftestRegistry(raws)
    ensures |FileFormatsOf(raws, d, u, false)| == 3 + B(d)
    ensures AllHaveVersionLists(FileFormatsOf(raws, d, u, false))
    ensures |VersionsOf(FileFormatsOf(raws, d, u, false)[0])| == 1 + B(d) + B(u)
    ensures |FileFormatsOf(raws, d, u, true)| == 3 + 2 * B(d) + B(u)
  {
    ConftestKept(raws, d, u);
    ConftestSelected(raws, d, u);
    SelectedShape(raws, d, u);
    ConftestTotalKept(raws, d, u);
    FileFormatsSeparateCount(raws, d, u);
  }
}
