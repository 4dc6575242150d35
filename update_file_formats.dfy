/**
 * The registry editing of dpres_file_formats/update_file_formats.py.
 *
 * The JSON table the source reads and writes back is the `formats` field of
 * a `Registry`; each editing function of the source is a method of it that
 * changes that field, with the source's loops. Every method is proved equal
 * to a functional specification of the new table, and what the source
 * promises about an edit is proved about that specification.
 */
module UpdateFileFormats {
  import opened Wrappers
  import opened Defaults
  import opened Json
  import opened Text
  import Seqs
  import ReadFileFormats

  // ---------------------------------------------------------------------------
  // Identifiers
  // ---------------------------------------------------------------------------

  /** `FORMAT_ID`: the id of the `count`-th format with short name `short`. */
  function FormatId(short: string, count: nat): string
  {
    "FI_DPRES_" + short + "_" + NatToString(count)
  }

  /** `VERSION_ID`: the id of a version of a format. */
  function VersionId(formatId: string, versionName: string): string
  {
    formatId + "_" + versionName
  }

  /**
   * A format id determines both the short name and the running number:
   * the running number is the digits after the last underscore.
   */
  lemma FormatIdInjective(s1: string, n1: nat, s2: string, n2: nat)
    requires FormatId(s1, n1) == FormatId(s2, n2)
    ensures s1 == s2 && n1 == n2
  {
    var t := FormatId(s1, n1);
    var d1, d2 := NatToString(n1), NatToString(n2);
    var p1, p2 := "FI_DPRES_" + s1 + "_", "FI_DPRES_" + s2 + "_";
    assert t == p1 + d1 && t == p2 + d2;
    assert t[|p1| - 1] == '_' && t[|p2| - 1] == '_';
    if |d1| < |d2| {
      assert false;
    } else if |d2| < |d1| {
      assert false;
    }
    assert t[|p1|..] == d1 && t[|p2|..] == d2;
    assert d1 == d2;
    assert p1 == t[..|p1|] == p2;
    assert s1 == p1[9..|p1| - 1] && s2 == p2[9..|p2| - 1];
    NatToStringInjective(n1, n2);
  }

  // ---------------------------------------------------------------------------
  // Record shape
  // ---------------------------------------------------------------------------

  /** Every format has the `_id` that the lookups read with `[]`. */
  predicate AllHaveIds(fs: seq<Dict>)
  {
    forall i :: 0 <= i < |fs| ==> "_id" in fs[i]
  }

  /** `fs[k]` is a format with id `id`. */
  predicate IdAt(fs: seq<Dict>, k: int, id: string)
  {
    0 <= k < |fs| && "_id" in fs[k] && fs[k]["_id"] == Str(id)
  }

  /** The index of the last format with id `id`: the one the lookup loops keep. */
  function LastWithId(fs: seq<Dict>, id: string): (r: Option<nat>)
    requires AllHaveIds(fs)
    ensures r.Some? ==> IdAt(fs, r.value, id) && forall j :: r.value < j < |fs| ==> !IdAt(fs, j, id)
    ensures r.None? ==> forall j :: 0 <= j < |fs| ==> !IdAt(fs, j, id)
  {
    if fs == [] then None
    else if fs[|fs| - 1]["_id"] == Str(id) then Some(|fs| - 1)
    else
      var init := fs[..|fs| - 1];
      assert forall j :: 0 <= j < |init| ==> (IdAt(init, j, id) <==> IdAt(fs, j, id));
      LastWithId(init, id)
  }

  /** Appends `item` to the list `d[key]`, creating the list when the key is missing. */
  function AppendTo(d: Dict, key: string, item: Dict): (r: Dict)
    requires key in d ==> d[key].Arr?
    ensures r.Keys == d.Keys + {key}
    ensures r[key].Arr? && r[key].items == (if key in d then d[key].items else []) + [Obj(item)]
    ensures forall k :: k in d && k != key ==> r[k] == d[k]
  {
    d[key := Arr(Get(d, key, Arr([])).items + [Obj(item)])]
  }

  // ---------------------------------------------------------------------------
  // add_format
  // ---------------------------------------------------------------------------

  /** The arguments of `add_format`; the controlled vocabularies are datatypes. */
  datatype FormatFields = FormatFields(
    mimetype: string,
    contentType: ContentType,
    formatNameLong: string,
    formatNameShort: string,
    typicalExtensions: seq<string>,
    requiredMetadata: Option<TechMetadata>,
    charsets: bool)

  /** `file_format.get('format_name_short', '') == short`. */
  predicate HasShortName(f: Dict, short: string)
  {
    Get(f, "format_name_short", Str("")) == Str(short)
  }

  /** The number of formats with short name `short`. */
  function CountShort(fs: seq<Dict>, short: string): nat
  {
    if fs == [] then 0
    else CountShort(fs[..|fs| - 1], short) + (if HasShortName(fs[|fs| - 1], short) then 1 else 0)
  }

  /** The record `add_format` appends. */
  function NewFormat(formatId: string, a: FormatFields): Dict
  {
    map[
      "_id" := Str(formatId),
      "mimetype" := Str(a.mimetype),
      "content_type" := Str(a.contentType.Value()),
      "format_name_long" := Str(a.formatNameLong),
      "format_name_short" := Str(a.formatNameShort),
      "typical_extensions" := StrList(a.typicalExtensions),
      "required_metadata" := Str(if a.requiredMetadata.Some? then a.requiredMetadata.value.Value() else ""),
      "charsets" := StrList(if a.charsets then ALLOWED_CHARSETS else []),
      "relations" := Arr([]),
      "versions" := Arr([])
    ]
  }

  /** The id `add_format` gives to a new format with short name `short` in `fs`. */
  function NextFormatId(fs: seq<Dict>, short: string): string
  {
    FormatId(short, 1 + CountShort(fs, short))
  }

  /**
   * The new record: its id, its short name, the allowed character sets
   * exactly when they are required, and no relations and no versions.
   */
  lemma NewFormatFields(formatId: string, a: FormatFields)
    ensures NewFormat(formatId, a)["_id"] == Str(formatId)
    ensures HasShortName(NewFormat(formatId, a), a.formatNameShort)
    ensures NewFormat(formatId, a)["charsets"] == StrList(if a.charsets then ALLOWED_CHARSETS else [])
    ensures NewFormat(formatId, a)["relations"] == Arr([]) && NewFormat(formatId, a)["versions"] == Arr([])
  {
  }

  /** A new format has no versions, so no listing of the registry shows it. */
  lemma NewFormatNotListed(formatId: string, a: FormatFields, deprecated: bool, unofficial: bool)
    ensures ReadFileFormats.HasVersionList(NewFormat(formatId, a))
    ensures ReadFileFormats.SelectFormat(NewFormat(formatId, a), deprecated, unofficial).None?
  {
    var f := NewFormat(formatId, a);
    assert ReadFileFormats.VersionsOf(f) == [];
  }

  /** The formats before `k` with the short name of `fs[k]`, plus one, number `fs[k]`'s id. */
  predicate NumberedAt(fs: seq<Dict>, k: int)
    requires 0 <= k < |fs|
  {
    HasStr(fs[k], "format_name_short") && "_id" in fs[k] &&
    fs[k]["_id"] == Str(NextFormatId(fs[..k], fs[k]["format_name_short"].s))
  }

  /** Every format carries the id `add_format` gave it. */
  predicate Numbered(fs: seq<Dict>)
  {
    forall k :: 0 <= k < |fs| ==> NumberedAt(fs, k)
  }

  /** Counting over a longer prefix never counts fewer formats. */
  lemma {:induction false} CountShortMonotone(fs: seq<Dict>, a: nat, b: nat, short: string)
    requires a <= b <= |fs|
    ensures CountShort(fs[..a], short) <= CountShort(fs[..b], short)
    decreases b - a
  {
    if a < b {
      CountShortMonotone(fs, a, b - 1, short);
      assert fs[..b][..b - 1] == fs[..b - 1];
    }
  }

  /** Appending the record `add_format` builds keeps every id the one `add_format` gives. */
  lemma AddFormatKeepsNumbered(fs: seq<Dict>, a: FormatFields)
    requires Numbered(fs)
    ensures Numbered(fs + [NewFormat(NextFormatId(fs, a.formatNameShort), a)])
  {
    var gs := fs + [NewFormat(NextFormatId(fs, a.formatNameShort), a)];
    forall k | 0 <= k < |gs|
      ensures NumberedAt(gs, k)
    {
      assert gs[..k] == fs[..k] || k == |fs|;
      if k == |fs| {
        assert gs[..k] == fs;
      } else {
        assert gs[k] == fs[k] && NumberedAt(fs, k);
      }
    }
  }

  /** In a registry built by `add_format`, format ids are unique. */
  lemma NumberedIdsDistinct(fs: seq<Dict>, j: int, k: int)
    requires Numbered(fs) && 0 <= j < k < |fs|
    ensures NumberedAt(fs, j) && NumberedAt(fs, k) && fs[j]["_id"] != fs[k]["_id"]
  {
    assert NumberedAt(fs, j) && NumberedAt(fs, k);
    var sj, sk := fs[j]["format_name_short"].s, fs[k]["format_name_short"].s;
    if fs[j]["_id"] == fs[k]["_id"] {
      FormatIdInjective(sj, 1 + CountShort(fs[..j], sj), sk, 1 + CountShort(fs[..k], sk));
      assert fs[..j + 1][..j] == fs[..j];
      assert CountShort(fs[..j + 1], sj) == CountShort(fs[..j], sj) + 1;
      CountShortMonotone(fs, j + 1, k, sj);
      assert false;
    }
  }

  /** The id `add_format` gives is the first of its short name in a registry without it. */
  lemma FirstFormatId(fs: seq<Dict>, short: string)
    requires forall i :: 0 <= i < |fs| ==> !HasShortName(fs[i], short)
    ensures NextFormatId(fs, short) == "FI_DPRES_" + short + "_1"
  {
    if fs != [] {
      FirstFormatId(fs[..|fs| - 1], short);
    }
  }

  // ---------------------------------------------------------------------------
  // add_version_to_format
  // ---------------------------------------------------------------------------

  /** The arguments of `add_version_to_format`; an absent `version` is the empty string. */
  datatype VersionFields = VersionFields(
    grade: Grade,
    supportInDpsIngest: bool,
    active: bool,
    version: string,
    formatRegistryKey: string,
    addedInDpsSpec: Option<DpsSpecVersion>,
    removedInDpsSpec: Option<DpsSpecVersion>,
    formatSourcePid: string,
    formatSourceUrl: string,
    formatSourceReference: string)

  /** Why `add_version_to_format` raises `ValueError`. */
  datatype UpdateError = FormatMissing(formatId: string) | VersionExists(version: string, formatId: string)

  /** The stored version: `UNAP` for a format without versions. */
  function VersionString(version: string): string
  {
    if version == "" then UNAP else version
  }

  /** The version's part of the version id. */
  function VersionName(version: string): string
  {
    if version == "" then "UNAP" else version
  }

  /** The stored value of an optional specification version. */
  function SpecValue(s: Option<DpsSpecVersion>): string
  {
    if s.Some? then s.value.Value() else ""
  }

  /** A format source record. */
  function SourceRecord(pid: string, url: string, reference: string): Dict
  {
    map["pid" := Str(pid), "url" := Str(url), "reference" := Str(reference)]
  }

  /** The sources a new version starts with: one exactly when a source pid is given. */
  function InitialSources(a: VersionFields): (r: seq<Dict>)
    ensures |r| == 1 <==> a.formatSourcePid != ""
    ensures r == [] <==> a.formatSourcePid == ""
  {
    if a.formatSourcePid != "" then [SourceRecord(a.formatSourcePid, a.formatSourceUrl, a.formatSourceReference)] else []
  }

  /** The record `add_version_to_format` appends. */
  function NewVersion(formatId: string, a: VersionFields): Dict
  {
    map[
      "_id" := Str(VersionId(formatId, VersionName(a.version))),
      "version" := Str(VersionString(a.version)),
      "grade" := Str(a.grade.Value()),
      "format_registry_key" := Str(a.formatRegistryKey),
      "support_in_dps_ingest" := Bool(a.supportInDpsIngest),
      "active" := Bool(a.active),
      "added_in_dps_spec" := Str(SpecValue(a.addedInDpsSpec)),
      "removed_in_dps_spec" := Str(SpecValue(a.removedInDpsSpec)),
      "format_sources" := ObjList(InitialSources(a))
    ]
  }

  /** The versions of a format can be searched for duplicates: each has a string `version`. */
  predicate VersionsNamed(f: Dict)
  {
    ReadFileFormats.HasVersionList(f) &&
    forall j :: 0 <= j < |ReadFileFormats.VersionsOf(f)| ==> HasStr(ReadFileFormats.VersionsOf(f)[j], "version")
  }

  /** `version` is a substring of the `version` of the `j`-th version of `f`. */
  predicate TakenAt(f: Dict, j: int, version: string)
    requires VersionsNamed(f)
  {
    0 <= j < |ReadFileFormats.VersionsOf(f)| && Contains(ReadFileFormats.VersionsOf(f)[j]["version"].s, version)
  }

  /** The duplicate check: `version` is a substring of some existing version string. */
  predicate VersionTaken(f: Dict, version: string)
    requires VersionsNamed(f)
  {
    exists j :: 0 <= j < |ReadFileFormats.VersionsOf(f)| && TakenAt(f, j, version)
  }

  /** What `add_version_to_format` reads of the table without failing. */
  predicate VersionAddable(fs: seq<Dict>, formatId: string)
  {
    AllHaveIds(fs) && (LastWithId(fs, formatId).Some? ==> VersionsNamed(fs[LastWithId(fs, formatId).value]))
  }

  /** `f` with `v` appended to its versions, the list created when missing. */
  function WithVersion(f: Dict, v: Dict): Dict
    requires ReadFileFormats.HasVersionList(f)
  {
    f["versions" := ObjList(ReadFileFormats.VersionsOf(f) + [v])]
  }

  /** The table after `add_version_to_format`, or the error it raises. */
  function AddedVersion(fs: seq<Dict>, formatId: string, a: VersionFields): Result<seq<Dict>, UpdateError>
    requires VersionAddable(fs, formatId)
  {
    var last := LastWithId(fs, formatId);
    if last.None? then Failure(FormatMissing(formatId))
    else if VersionTaken(fs[last.value], VersionString(a.version)) then
      Failure(VersionExists(VersionString(a.version), formatId))
    else Success(fs[last.value := WithVersion(fs[last.value], NewVersion(formatId, a))])
  }

  /**
   * `add_version_to_format` fails exactly when no format has the id or the
   * version is a substring of one of its versions; otherwise the last format
   * with the id gains the new version at the end of its versions, and no other
   * format and no other key changes.
   */
  lemma AddedVersionSpec(fs: seq<Dict>, formatId: string, a: VersionFields)
    requires VersionAddable(fs, formatId)
    ensures AddedVersion(fs, formatId, a) == Failure(FormatMissing(formatId)) <==>
      forall j :: 0 <= j < |fs| ==> !IdAt(fs, j, formatId)
    ensures AddedVersion(fs, formatId, a).Failure? && AddedVersion(fs, formatId, a).error.VersionExists? <==>
      LastWithId(fs, formatId).Some? && VersionTaken(fs[LastWithId(fs, formatId).value], VersionString(a.version))
    ensures AddedVersion(fs, formatId, a).Success? ==>
      LastWithId(fs, formatId).Some? && IdAt(fs, LastWithId(fs, formatId).value, formatId) &&
      AddedAt(fs, AddedVersion(fs, formatId, a).value, LastWithId(fs, formatId).value, NewVersion(formatId, a))
  {
    var last := LastWithId(fs, formatId);
    if last.Some? && AddedVersion(fs, formatId, a).Success? {
      var k := last.value;
      var gs := AddedVersion(fs, formatId, a).value;
      assert ReadFileFormats.VersionsOf(gs[k]) == ReadFileFormats.VersionsOf(fs[k]) + [NewVersion(formatId, a)];
      assert AddedAt(fs, gs, k, NewVersion(formatId, a));
    }
  }

  /** `gs` is `fs` with `v` appended to the versions of `fs[k]` and nothing else changed. */
  predicate AddedAt(fs: seq<Dict>, gs: seq<Dict>, k: int, v: Dict)
  {
    0 <= k < |fs| == |gs| &&
    (forall j :: 0 <= j < |fs| && j != k ==> gs[j] == fs[j]) &&
    gs[k].Keys == fs[k].Keys + {"versions"} &&
    (forall key :: key in fs[k] && key != "versions" ==> gs[k][key] == fs[k][key]) &&
    ReadFileFormats.HasVersionList(fs[k]) && ReadFileFormats.HasVersionList(gs[k]) &&
    ReadFileFormats.VersionsOf(gs[k]) == ReadFileFormats.VersionsOf(fs[k]) + [v]
  }

  /** The new version's id, stored version and sources. */
  lemma NewVersionFields(formatId: string, a: VersionFields)
    ensures NewVersion(formatId, a)["_id"] == Str(formatId + "_" + (if a.version == "" then "UNAP" else a.version))
    ensures NewVersion(formatId, a)["version"] == Str(if a.version == "" then UNAP else a.version)
    ensures IsObjList(NewVersion(formatId, a)["format_sources"])
    ensures |Objects(NewVersion(formatId, a)["format_sources"])| == (if a.formatSourcePid != "" then 1 else 0)
  {
  }

  /** Adding the same version a second time raises: the version is a substring of itself. */
  lemma AddedVersionTwiceFails(fs: seq<Dict>, formatId: string, a: VersionFields)
    requires VersionAddable(fs, formatId) && AddedVersion(fs, formatId, a).Success?
    ensures VersionAddable(AddedVersion(fs, formatId, a).value, formatId)
    ensures AddedVersion(AddedVersion(fs, formatId, a).value, formatId, a) ==
      Failure(VersionExists(VersionString(a.version), formatId))
  {
    var k := LastWithId(fs, formatId).value;
    var gs := AddedVersion(fs, formatId, a).value;
    var v := NewVersion(formatId, a);
    var vs := ReadFileFormats.VersionsOf(gs[k]);
    assert vs == ReadFileFormats.VersionsOf(fs[k]) + [v];
    assert AllHaveIds(gs) by {
      forall i | 0 <= i < |gs| ensures "_id" in gs[i] {
        assert "_id" in fs[i];
      }
    }
    assert LastWithId(gs, formatId) == Some(k) by {
      LastWithIdFrame(fs, gs, formatId, k);
    }
    assert VersionsNamed(gs[k]);
    assert OccursAt(VersionString(a.version), VersionString(a.version), 0);
    assert TakenAt(gs[k], |vs| - 1, VersionString(a.version));
  }

  /** Changing one format without changing its id keeps the last format with every id. */
  lemma LastWithIdFrame(fs: seq<Dict>, gs: seq<Dict>, id: string, k: int)
    requires AllHaveIds(fs) && AllHaveIds(gs) && 0 <= k < |fs| == |gs|
    requires forall j :: 0 <= j < |fs| && j != k ==> gs[j] == fs[j]
    requires gs[k]["_id"] == fs[k]["_id"]
    ensures LastWithId(gs, id) == LastWithId(fs, id)
  {
    var a, b := LastWithId(fs, id), LastWithId(gs, id);
    assert forall j :: 0 <= j < |fs| ==> (IdAt(fs, j, id) <==> IdAt(gs, j, id));
  }

  /**
   * The added version is listed by `file_formats` exactly when it is active
   * or deprecated ones are wanted, and it names a specification version or
   * unofficial ones are wanted; it comes after the format's other listed versions.
   */
  lemma AddedVersionListed(fs: seq<Dict>, formatId: string, a: VersionFields, deprecated: bool, unofficial: bool)
    requires VersionAddable(fs, formatId) && AddedVersion(fs, formatId, a).Success?
    ensures var k := LastWithId(fs, formatId).value;
      var g := AddedVersion(fs, formatId, a).value[k];
      ReadFileFormats.HasVersionList(g) &&
      ReadFileFormats.KeptVersions(g, deprecated, unofficial) ==
        ReadFileFormats.KeptVersions(fs[k], deprecated, unofficial) +
        (if (deprecated || a.active) && (unofficial || a.addedInDpsSpec.Some?) then [NewVersion(formatId, a)] else [])
  {
    var k := LastWithId(fs, formatId).value;
    var v := NewVersion(formatId, a);
    assert AddedVersion(fs, formatId, a).value[k] == WithVersion(fs[k], v);
    KeptWithVersion(fs[k], v, deprecated, unofficial);
    NewVersionKept(formatId, a, deprecated, unofficial);
  }

  /** Appending a version to a format keeps the format's kept versions and adds `v` exactly when it is kept. */
  lemma KeptWithVersion(f: Dict, v: Dict, deprecated: bool, unofficial: bool)
    requires ReadFileFormats.HasVersionList(f)
    ensures ReadFileFormats.HasVersionList(WithVersion(f, v))
    ensures ReadFileFormats.KeptVersions(WithVersion(f, v), deprecated, unofficial) ==
      ReadFileFormats.KeptVersions(f, deprecated, unofficial) +
      (if ReadFileFormats.KeepVersion(v, deprecated, unofficial) then [v] else [])
  {
    assert ReadFileFormats.VersionsOf(WithVersion(f, v)) == ReadFileFormats.VersionsOf(f) + [v];
    Seqs.FilterAppend(ReadFileFormats.VersionsOf(f), [v], ReadFileFormats.Keeper(deprecated, unofficial));
  }

  /** A new version is listed exactly when it is active or deprecated ones are wanted, and names a specification version or unofficial ones are wanted. */
  lemma NewVersionKept(formatId: string, a: VersionFields, deprecated: bool, unofficial: bool)
    ensures ReadFileFormats.KeepVersion(NewVersion(formatId, a), deprecated, unofficial) <==>
      (deprecated || a.active) && (unofficial || a.addedInDpsSpec.Some?)
  {
    if a.addedInDpsSpec.Some? {
      assert |a.addedInDpsSpec.value.Value()| >= 5;
    }
  }

  // ---------------------------------------------------------------------------
  // replace_format
  // ---------------------------------------------------------------------------

  /** The mimetype and relation list that `replace_format` reads of a format it touches. */
  predicate ReplaceReadableAt(f: Dict, superseded: string, superseding: string)
    requires "_id" in f
  {
    (f["_id"] == Str(superseded) || f["_id"] == Str(superseding) ==>
      HasStr(f, "mimetype") && ("relations" in f ==> f["relations"].Arr?)) &&
    (f["_id"] == Str(superseded) ==> "versions" in f && IsObjList(f["versions"]))
  }

  /** What `replace_format` reads of the table without failing. */
  predicate ReplaceReadable(fs: seq<Dict>, superseded: string, superseding: string)
  {
    AllHaveIds(fs) && forall k :: 0 <= k < |fs| ==> ReplaceReadableAt(fs[k], superseded, superseding)
  }

  /** The id found by the first loop: `id` when some format has it, otherwise empty. */
  function FoundId(fs: seq<Dict>, id: string): string
    requires AllHaveIds(fs)
  {
    if LastWithId(fs, id).Some? then id else ""
  }

  /** The mimetype found by the first loop: that of the last format with id `id`, otherwise empty. */
  function FoundMimetype(fs: seq<Dict>, id: string, superseded: string, superseding: string): string
    requires ReplaceReadable(fs, superseded, superseding)
    requires id == superseded || id == superseding
  {
    var last := LastWithId(fs, id);
    if last.Some? then fs[last.value]["mimetype"].s else ""
  }

  /** A relation record between two formats. */
  function Relation(id: string, t: RelationshipType, spec: DpsSpecVersion, fromMimetype: string, toMimetype: string): Dict
  {
    map[
      "_id" := Str(id),
      "type" := Str(t.Value()),
      "dps_spec_version" := Str(spec.Value()),
      "description" := Str("MIME type changed from " + fromMimetype + " to " + toMimetype)
    ]
  }

  /** A version of a superseded format: inactive, unsupported, unacceptable and removed in `spec`. */
  function DeprecatedVersion(v: Dict, spec: DpsSpecVersion): Dict
  {
    v["active" := Bool(false)]["support_in_dps_ingest" := Bool(false)]
     ["grade" := Str(Unacceptable.Value())]["removed_in_dps_spec" := Str(spec.Value())]
  }

  /** Every version of `vs`, deprecated. */
  function DeprecatedVersions(vs: seq<Dict>, spec: DpsSpecVersion): (r: seq<Dict>)
    ensures |r| == |vs| && forall j :: 0 <= j < |vs| ==> r[j] == DeprecatedVersion(vs[j], spec)
  {
    seq(|vs|, j requires 0 <= j < |vs| => DeprecatedVersion(vs[j], spec))
  }

  /** One format after `replace_format`, given the two relations it may gain. */
  function ReplacedFormat(f: Dict, superseded: string, superseding: string, spec: DpsSpecVersion,
                          toSuperseding: Dict, toSuperseded: Dict): Dict
    requires "_id" in f && ReplaceReadableAt(f, superseded, superseding)
  {
    var f1 :=
      if f["_id"] == Str(superseded) then
        AppendTo(f, "relations", toSuperseding)["versions" := ObjList(DeprecatedVersions(Objects(f["versions"]), spec))]
      else f;
    if f["_id"] == Str(superseding) then AppendTo(f1, "relations", toSuperseded) else f1
  }

  /** The relation a superseded format gains: it is superseded by the superseding format. */
  function SupersededBy(fs: seq<Dict>, superseded: string, superseding: string, spec: DpsSpecVersion): Dict
    requires ReplaceReadable(fs, superseded, superseding)
  {
    Relation(FoundId(fs, superseding), RelationshipType.Superseded, spec,
      FoundMimetype(fs, superseded, superseded, superseding), FoundMimetype(fs, superseding, superseded, superseding))
  }

  /** The relation the superseding format gains: it supersedes the superseded format. */
  function SupersedesOf(fs: seq<Dict>, superseded: string, superseding: string, spec: DpsSpecVersion): Dict
    requires ReplaceReadable(fs, superseded, superseding)
  {
    Relation(FoundId(fs, superseded), RelationshipType.Supersedes, spec,
      FoundMimetype(fs, superseded, superseded, superseding), FoundMimetype(fs, superseding, superseded, superseding))
  }

  /** The table after `replace_format`. */
  function Replaced(fs: seq<Dict>, superseded: string, superseding: string, spec: DpsSpecVersion): (r: seq<Dict>)
    requires ReplaceReadable(fs, superseded, superseding)
    ensures |r| == |fs|
  {
    var toSuperseding := SupersededBy(fs, superseded, superseding, spec);
    var toSuperseded := SupersedesOf(fs, superseded, superseding, spec);
    seq(|fs|, k requires 0 <= k < |fs| =>
      ReplacedFormat(fs[k], superseded, superseding, spec, toSuperseding, toSuperseded))
  }

  /** The four keys deprecation sets. */
  const DEPRECATION_KEYS: set<string> := {"active", "support_in_dps_ingest", "grade", "removed_in_dps_spec"}

  /**
   * `v` is `w` deprecated in `spec`: inactive, unsupported in ingest,
   * unacceptable and removed in `spec`, with every other key unchanged.
   */
  predicate DeprecatedFrom(v: Dict, w: Dict, spec: DpsSpecVersion)
  {
    v.Keys == w.Keys + DEPRECATION_KEYS &&
    v["active"] == Bool(false) && v["support_in_dps_ingest"] == Bool(false) &&
    v["grade"] == Str(Unacceptable.Value()) && v["removed_in_dps_spec"] == Str(spec.Value()) &&
    forall key :: key in w && key !in DEPRECATION_KEYS ==> v[key] == w[key]
  }

  lemma DeprecatedVersionSpec(w: Dict, spec: DpsSpecVersion)
    ensures DeprecatedFrom(DeprecatedVersion(w, spec), w, spec)
    ensures !ReadFileFormats.IsActive(DeprecatedVersion(w, spec))
  {
  }

  /** The versions of a superseded format after `replace_format` are its versions, deprecated. */
  lemma ReplacedVersions(fs: seq<Dict>, superseded: string, superseding: string, spec: DpsSpecVersion, k: int)
    requires ReplaceReadable(fs, superseded, superseding) && IdAt(fs, k, superseded)
    ensures ReadFileFormats.HasVersionList(Replaced(fs, superseded, superseding, spec)[k])
    ensures ReadFileFormats.VersionsOf(Replaced(fs, superseded, superseding, spec)[k]) ==
      DeprecatedVersions(Objects(fs[k]["versions"]), spec)
  {
    var g := Replaced(fs, superseded, superseding, spec)[k];
    assert "versions" in g && g["versions"] == ObjList(DeprecatedVersions(Objects(fs[k]["versions"]), spec));
  }

  /**
   * After `replace_format`, every version of a superseded format is
   * deprecated in `spec`; none of them is listed without deprecated
   * versions, and the format no longer adds anything to the mimetype grading.
   */
  lemma ReplacedDeprecates(fs: seq<Dict>, superseded: string, superseding: string, spec: DpsSpecVersion,
                           k: int, unofficial: bool)
    requires ReplaceReadable(fs, superseded, superseding) && IdAt(fs, k, superseded)
    ensures var g := Replaced(fs, superseded, superseding, spec)[k];
      ReadFileFormats.HasVersionList(g) &&
      var vs, ws := ReadFileFormats.VersionsOf(g), Objects(fs[k]["versions"]);
      |vs| == |ws| &&
      (forall j :: 0 <= j < |vs| ==> DeprecatedFrom(vs[j], ws[j], spec)) &&
      ReadFileFormats.KeptVersions(g, false, unofficial) == [] &&
      ReadFileFormats.ActiveVersionsNamed(vs) && ReadFileFormats.ActiveGrades(vs) == map[]
  {
    ReplacedVersions(fs, superseded, superseding, spec, k);
    var g := Replaced(fs, superseded, superseding, spec)[k];
    var vs, ws := ReadFileFormats.VersionsOf(g), Objects(fs[k]["versions"]);
    forall j | 0 <= j < |vs|
      ensures DeprecatedFrom(vs[j], ws[j], spec) && !ReadFileFormats.IsActive(vs[j])
    {
      DeprecatedVersionSpec(ws[j], spec);
    }
    NoneKept(vs, unofficial);
    NoActiveGrades(vs);
  }

  /** Versions none of which is active are not listed without deprecated ones. */
  lemma {:induction false} NoneKept(vs: seq<Dict>, unofficial: bool)
    requires forall j :: 0 <= j < |vs| ==> !ReadFileFormats.IsActive(vs[j])
    ensures Seqs.Filter(vs, ReadFileFormats.Keeper(false, unofficial)) == []
  {
    if vs != [] {
      Seqs.FilterCons(vs, ReadFileFormats.Keeper(false, unofficial));
      NoneKept(vs[1..], unofficial);
    }
  }

  /** Versions none of which is active grade nothing. */
  lemma {:induction false} NoActiveGrades(vs: seq<Dict>)
    requires forall j :: 0 <= j < |vs| ==> !ReadFileFormats.IsActive(vs[j])
    ensures ReadFileFormats.ActiveVersionsNamed(vs) && ReadFileFormats.ActiveGrades(vs) == map[]
  {
    if vs != [] {
      NoActiveGrades(vs[..|vs| - 1]);
    }
  }

  /**
   * After `replace_format`, a superseded format ends its relations with the
   * "is superseded by" relation, the superseding format ends its relations
   * with the "supersedes" relation, and formats with neither id are unchanged.
   */
  lemma ReplacedRelations(fs: seq<Dict>, superseded: string, superseding: string, spec: DpsSpecVersion, k: int)
    requires ReplaceReadable(fs, superseded, superseding) && 0 <= k < |fs|
    ensures var g := Replaced(fs, superseded, superseding, spec)[k];
      var before := if "relations" in fs[k] && fs[k]["relations"].Arr? then fs[k]["relations"].items else [];
      var down := SupersededBy(fs, superseded, superseding, spec);
      var up := SupersedesOf(fs, superseded, superseding, spec);
      (fs[k]["_id"] != Str(superseded) && fs[k]["_id"] != Str(superseding) ==> g == fs[k]) &&
      (fs[k]["_id"] == Str(superseded) || fs[k]["_id"] == Str(superseding) ==>
        "relations" in g && g["relations"].Arr? &&
        g["relations"].items ==
          before + (if fs[k]["_id"] == Str(superseded) then [Obj(down)] else []) +
          (if fs[k]["_id"] == Str(superseding) then [Obj(up)] else []))
  {
  }

  /**
   * The two relations `replace_format` adds: each points at the other format's
   * id (empty when that format is missing), carries its type and the
   * specification version, and both are described by the change of mimetype.
   */
  lemma ReplaceRelationFields(fs: seq<Dict>, superseded: string, superseding: string, spec: DpsSpecVersion)
    requires ReplaceReadable(fs, superseded, superseding)
    ensures var down := SupersededBy(fs, superseded, superseding, spec);
      down["_id"] == Str(if exists j :: IdAt(fs, j, superseding) then superseding else "") &&
      down["type"] == Str("is superseded by") &&
      down["dps_spec_version"] == Str(spec.Value()) &&
      down["description"] == Str("MIME type changed from " + FoundMimetype(fs, superseded, superseded, superseding) +
        " to " + FoundMimetype(fs, superseding, superseded, superseding))
    ensures var up := SupersedesOf(fs, superseded, superseding, spec);
      up["_id"] == Str(if exists j :: IdAt(fs, j, superseded) then superseded else "") &&
      up["type"] == Str("supersedes") &&
      up["dps_spec_version"] == Str(spec.Value()) &&
      up["description"] == SupersededBy(fs, superseded, superseding, spec)["description"]
  {
    if exists j :: IdAt(fs, j, superseding) {
      var j :| IdAt(fs, j, superseding);
      assert LastWithId(fs, superseding).Some?;
    }
    if exists j :: IdAt(fs, j, superseded) {
      var j :| IdAt(fs, j, superseded);
      assert LastWithId(fs, superseded).Some?;
    }
  }

  // ---------------------------------------------------------------------------
  // add_source_to_format
  // ---------------------------------------------------------------------------

  /** The version lists, version ids and source lists that `add_source_to_format` reads. */
  predicate SourcesReadable(fs: seq<Dict>)
  {
    forall k :: 0 <= k < |fs| ==> VersionsIdentified(fs[k])
  }

  /** Every version of `f` has an `_id`, and its `format_sources`, when present, is a list. */
  predicate VersionsIdentified(f: Dict)
  {
    ReadFileFormats.HasVersionList(f) &&
    forall j :: 0 <= j < |ReadFileFormats.VersionsOf(f)| ==> SourceReadable(ReadFileFormats.VersionsOf(f)[j])
  }

  predicate SourceReadable(v: Dict)
  {
    "_id" in v && ("format_sources" in v ==> v["format_sources"].Arr?)
  }

  /** `vs[j]` is the first version with id `id`. */
  predicate IsFirstWithId(vs: seq<Dict>, j: int, id: string)
  {
    0 <= j < |vs| && "_id" in vs[j] && vs[j]["_id"] == Str(id) &&
    forall i :: 0 <= i < j ==> "_id" in vs[i] && vs[i]["_id"] != Str(id)
  }

  /** `ws` is `vs` with `source` appended to the sources of `vs[j]` and nothing else changed. */
  predicate SourceAppendedAt(vs: seq<Dict>, ws: seq<Dict>, j: int, source: Dict)
  {
    0 <= j < |vs| == |ws| && (forall i :: 0 <= i < |vs| && i != j ==> ws[i] == vs[i]) &&
    ws[j].Keys == vs[j].Keys + {"format_sources"} && ws[j]["format_sources"].Arr? &&
    ws[j]["format_sources"].items ==
      (if "format_sources" in vs[j] && vs[j]["format_sources"].Arr? then vs[j]["format_sources"].items else []) + [Obj(source)] &&
    (forall key :: key in vs[j] && key != "format_sources" ==> ws[j][key] == vs[j][key])
  }

  /** The index of the first version with id `id`: the one the inner loop stops at. */
  function FirstWithId(vs: seq<Dict>, id: string): (r: Option<nat>)
    requires forall j :: 0 <= j < |vs| ==> "_id" in vs[j]
    ensures r.Some? ==> IsFirstWithId(vs, r.value, id)
    ensures r.None? ==> forall j :: 0 <= j < |vs| ==> vs[j]["_id"] != Str(id)
  {
    if vs == [] then None
    else if vs[0]["_id"] == Str(id) then Some(0)
    else
      var r := FirstWithId(vs[1..], id);
      if r.Some? then Some(r.value + 1) else None
  }

  /** One format after `add_source_to_format`. */
  function SourcedFormat(f: Dict, versionId: string, source: Dict): Dict
    requires VersionsIdentified(f)
  {
    var vs := ReadFileFormats.VersionsOf(f);
    var first := FirstWithId(vs, versionId);
    if first.None? then f
    else f["versions" := ObjList(vs[first.value := AppendTo(vs[first.value], "format_sources", source)])]
  }

  /** The table after `add_source_to_format`. */
  function Sourced(fs: seq<Dict>, versionId: string, source: Dict): (r: seq<Dict>)
    requires SourcesReadable(fs)
    ensures |r| == |fs|
  {
    seq(|fs|, k requires 0 <= k < |fs| => SourcedFormat(fs[k], versionId, source))
  }

  /**
   * In every format, the first version with the id gains the source at the end
   * of its sources and no other version changes; a format with no such
   * version is unchanged, so an unknown id changes nothing.
   */
  lemma SourcedSpec(fs: seq<Dict>, versionId: string, source: Dict, k: int)
    requires SourcesReadable(fs) && 0 <= k < |fs|
    ensures var g, vs := Sourced(fs, versionId, source)[k], ReadFileFormats.VersionsOf(fs[k]);
      (forall j :: 0 <= j < |vs| ==> vs[j]["_id"] != Str(versionId)) ==> g == fs[k]
    ensures var g, vs := Sourced(fs, versionId, source)[k], ReadFileFormats.VersionsOf(fs[k]);
      forall j :: IsFirstWithId(vs, j, versionId) ==>
        VersionsIdentified(g) && SourceAppendedAt(vs, ReadFileFormats.VersionsOf(g), j, source)
  {
    var vs := ReadFileFormats.VersionsOf(fs[k]);
    var first := FirstWithId(vs, versionId);
    if first.Some? {
      var g := Sourced(fs, versionId, source)[k];
      var ws := ReadFileFormats.VersionsOf(g);
      assert ws == vs[first.value := AppendTo(vs[first.value], "format_sources", source)];
      forall j | IsFirstWithId(vs, j, versionId)
        ensures j == first.value
      {
      }
      assert VersionsIdentified(g) by {
        forall i | 0 <= i < |ws| ensures SourceReadable(ws[i]) {
          assert SourceReadable(vs[i]);
        }
      }
    }
  }

  /** The version loop of `replace_format`: sets the four deprecation keys of every version. */
  method DeprecateVersions(versions: seq<Dict>, spec: DpsSpecVersion) returns (deprecated: seq<Dict>)
    ensures deprecated == DeprecatedVersions(versions, spec)
  {
    deprecated := versions;
    var j := 0;
    while j < |deprecated|
      invariant 0 <= j <= |deprecated| == |versions|
      invariant forall m :: 0 <= m < j ==> deprecated[m] == DeprecatedVersion(versions[m], spec)
      invariant forall m :: j <= m < |deprecated| ==> deprecated[m] == versions[m]
    {
      var v := deprecated[j];
      v := v["active" := Bool(false)];
      v := v["support_in_dps_ingest" := Bool(false)];
      v := v["grade" := Str(Unacceptable.Value())];
      v := v["removed_in_dps_spec" := Str(spec.Value())];
      deprecated := deprecated[j := v];
      j := j + 1;
    }
  }

  /**
   * The first loop of `replace_format`: the id and mimetype of the superseded
   * and of the superseding format, each empty when no format has the id and
   * that of the last format with the id otherwise.
   */
  method FindReplaceFormats(fs: seq<Dict>, superseded: string, superseding: string)
    returns (supersededId: string, supersededMimetype: string, supersedingId: string, supersedingMimetype: string)
    requires ReplaceReadable(fs, superseded, superseding)
    ensures supersededId == FoundId(fs, superseded) && supersedingId == FoundId(fs, superseding)
    ensures supersededMimetype == FoundMimetype(fs, superseded, superseded, superseding)
    ensures supersedingMimetype == FoundMimetype(fs, superseding, superseded, superseding)
  {
    supersededId, supersededMimetype := "", "";
    supersedingId, supersedingMimetype := "", "";
    for i := 0 to |fs|
      invariant ReplaceReadable(fs[..i], superseded, superseding)
      invariant supersededId == FoundId(fs[..i], superseded)
      invariant supersedingId == FoundId(fs[..i], superseding)
      invariant supersededMimetype == FoundMimetype(fs[..i], superseded, superseded, superseding)
      invariant supersedingMimetype == FoundMimetype(fs[..i], superseding, superseded, superseding)
    {
      assert fs[..i + 1][..i] == fs[..i];
      assert ReplaceReadableAt(fs[i], superseded, superseding);
      if fs[i]["_id"] == Str(superseded) {
        supersededId := superseded;
        supersededMimetype := fs[i]["mimetype"].s;
      }
      if fs[i]["_id"] == Str(superseding) {
        supersedingId := superseding;
        supersedingMimetype := fs[i]["mimetype"].s;
      }
    }
    assert fs[..|fs|] == fs;
  }

  /** The body of the second loop of `replace_format`: one format gains its relations and, if superseded, loses its versions' support. */
  method ReplaceOne(f: Dict, superseded: string, superseding: string, spec: DpsSpecVersion,
                    toSuperseding: Dict, toSuperseded: Dict) returns (g: Dict)
    requires "_id" in f && ReplaceReadableAt(f, superseded, superseding)
    ensures g == ReplacedFormat(f, superseded, superseding, spec, toSuperseding, toSuperseded)
  {
    g := f;
    if g["_id"] == Str(superseded) {
      g := AppendTo(g, "relations", toSuperseding);
      assert g["versions"] == f["versions"] && g["_id"] == f["_id"];
      var versions := DeprecateVersions(Objects(g["versions"]), spec);
      g := g["versions" := ObjList(versions)];
    }
    assert g == if f["_id"] == Str(superseded) then
      AppendTo(f, "relations", toSuperseding)["versions" := ObjList(DeprecatedVersions(Objects(f["versions"]), spec))]
      else f;
    assert g["_id"] == f["_id"];
    if g["_id"] == Str(superseding) {
      g := AppendTo(g, "relations", toSuperseded);
    }
  }

  // ---------------------------------------------------------------------------
  // The registry and its editing operations
  // ---------------------------------------------------------------------------

  /** The editable format table. */
  class Registry {
    var formats: seq<Dict>

    constructor (formats: seq<Dict>)
      ensures this.formats == formats
    {
      this.formats := formats;
    }

    /** `add_format`: appends a new format and returns its id. */
    method AddFormat(a: FormatFields) returns (formatId: string)
      modifies this
      ensures formatId == NextFormatId(old(formats), a.formatNameShort)
      ensures formats == old(formats) + [NewFormat(formatId, a)]
      ensures Numbered(old(formats)) ==> Numbered(formats)
    {
      var nameCount := 1;
      var i := 0;
      while i < |formats|
        invariant 0 <= i <= |formats|
        invariant nameCount == 1 + CountShort(formats[..i], a.formatNameShort)
      {
        assert formats[..i + 1][..i] == formats[..i];
        if Get(formats[i], "format_name_short", Str("")) == Str(a.formatNameShort) {
          nameCount := nameCount + 1;
        }
        i := i + 1;
      }
      assert formats[..i] == formats;
      formatId := FormatId(a.formatNameShort, nameCount);
      if Numbered(formats) {
        AddFormatKeepsNumbered(formats, a);
      }
      formats := formats + [NewFormat(formatId, a)];
    }

    /** `add_version_to_format`: appends a version to the last format with the id, or raises. */
    method AddVersionToFormat(formatId: string, a: VersionFields) returns (r: Outcome<UpdateError>)
      requires VersionAddable(formats, formatId)
      modifies this
      ensures AddedVersion(old(formats), formatId, a).Failure? ==>
        r == Fail(AddedVersion(old(formats), formatId, a).error) && formats == old(formats)
      ensures AddedVersion(old(formats), formatId, a).Success? ==>
        r == Pass && formats == AddedVersion(old(formats), formatId, a).value
    {
      var version := a.version;
      var versionName := a.version;
      if version == "" {
        version := UNAP;
        versionName := "UNAP";
      }
      var found: Option<nat> := None;
      var i := 0;
      while i < |formats|
        invariant 0 <= i <= |formats|
        invariant AllHaveIds(formats[..i])
        invariant found == LastWithId(formats[..i], formatId)
      {
        assert formats[..i + 1][..i] == formats[..i];
        if formats[i]["_id"] == Str(formatId) {
          found := Some(i);
        }
        i := i + 1;
      }
      assert formats[..i] == formats;
      if found.None? {
        return Fail(FormatMissing(formatId));
      }
      var f := formats[found.value];
      var versions: seq<Dict> := ReadFileFormats.VersionsOf(f);
      var j := 0;
      while j < |versions|
        invariant 0 <= j <= |versions|
        invariant forall m :: 0 <= m < j ==> !TakenAt(f, m, version)
      {
        if Contains(versions[j]["version"].s, version) {
          assert TakenAt(f, j, version);
          return Fail(VersionExists(version, formatId));
        }
        j := j + 1;
      }
      var versionDict := NewVersion(formatId, a);
      formats := formats[found.value := WithVersion(f, versionDict)];
      r := Pass;
    }

    /** `replace_format`: relates the two formats and deprecates every version of the superseded one. */
    method ReplaceFormat(superseded: string, superseding: string, spec: DpsSpecVersion)
      requires ReplaceReadable(formats, superseded, superseding)
      modifies this
      ensures formats == Replaced(old(formats), superseded, superseding, spec)
    {
      var supersededId, supersededMimetype, supersedingId, supersedingMimetype :=
        FindReplaceFormats(formats, superseded, superseding);
      var toSuperseding := Relation(supersedingId, RelationshipType.Superseded, spec, supersededMimetype, supersedingMimetype);
      var toSuperseded := Relation(supersededId, RelationshipType.Supersedes, spec, supersededMimetype, supersedingMimetype);
      ghost var fs := formats;
      assert toSuperseding == SupersededBy(fs, superseded, superseding, spec);
      assert toSuperseded == SupersedesOf(fs, superseded, superseding, spec);

      var i := 0;
      while i < |formats|
        invariant 0 <= i <= |formats| == |fs|
        invariant forall k :: 0 <= k < i ==>
          formats[k] == ReplacedFormat(fs[k], superseded, superseding, spec, toSuperseding, toSuperseded)
        invariant forall k :: i <= k < |formats| ==> formats[k] == fs[k]
      {
        assert "_id" in formats[i] && ReplaceReadableAt(formats[i], superseded, superseding);
        var f := ReplaceOne(formats[i], superseded, superseding, spec, toSuperseding, toSuperseded);
        formats := formats[i := f];
        i := i + 1;
      }
    }

    /** `add_source_to_format`: appends a source to the first version with the id in every format. */
    method AddSourceToFormat(versionId: string, pid: string, url: string, reference: string)
      requires SourcesReadable(formats)
      modifies this
      ensures formats == Sourced(old(formats), versionId, SourceRecord(pid, url, reference))
    {
      var source := SourceRecord(pid, url, reference);
      ghost var fs := formats;
      var i := 0;
      while i < |formats|
        invariant 0 <= i <= |formats| == |fs|
        invariant forall k :: 0 <= k < i ==> formats[k] == SourcedFormat(fs[k], versionId, source)
        invariant forall k :: i <= k < |formats| ==> formats[k] == fs[k]
      {
        var f := formats[i];
        assert VersionsIdentified(f);
        var versions := ReadFileFormats.VersionsOf(f);
        var j := 0;
        while j < |versions|
          invariant 0 <= j <= |versions|
          invariant forall m :: 0 <= m < j ==> versions[m]["_id"] != Str(versionId)
        {
          assert SourceReadable(versions[j]);
          if versions[j]["_id"] == Str(versionId) {
            f := f["versions" := ObjList(versions[j := AppendTo(versions[j], "format_sources", source)])];
            break;
          }
          j := j + 1;
        }
        assert f == SourcedFormat(fs[i], versionId, source);
        formats := formats[i := f];
        i := i + 1;
      }
    }
  }
}
