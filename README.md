# dpres-file-formats in Dafny

A model of the digital-preservation file format registry: the graders that
assign a preservation grade to a file, the functions that shape the registry
table for output and grading, the editing functions that add formats,
versions, relations and sources to the table, and the listing of the
module-level format table.

- `wrappers.dfy`, `defaults.dfy`, `text.dfy`, `seqs.dfy`, `json.dfy`:
  the option and result types, the controlled vocabularies (grades, content
  types, technical metadata schemas, relationship types, specification
  versions) as datatypes, the string operations the registry uses (ASCII
  lower-casing, Python's substring test, decimal rendering of a natural
  number), sequence filtering, and JSON values with Python's truthiness and
  `dict.get`.
- `graders.dfy` (module `Graders`): MIMEGrader, TextGrader and
  ContainerStreamsGrader as functions over explicit, read-only tables.
- `read_file_formats.dfy` (module `ReadFileFormats`): `file_formats`,
  `mimetypes_grading` and `containers_streams_grading` as methods with the
  source's loops, each proved equal to a functional specification. The
  properties the source promises are proved as lemmas about those
  specifications. Module `ReadFileFormatsExamples` replays the repository's
  test fixture on any registry with the fixture's flags.
- `update_file_formats.dfy` (module `UpdateFileFormats`): class `Registry`,
  whose `formats` field is the editable table. `add_format`,
  `add_version_to_format`, `replace_format` and `add_source_to_format` are
  methods that change that field, each proved equal to a function of the
  old table, with lemmas about what each edit does.
- `file_formats.dfy` (module `FileFormats`): class `FormatTable`, whose
  `formats` field is the module-level table. `supported_file_formats_versions`
  writes seven parent keys into every version in place.

Behaviour of the code that the model keeps as written:

- `containers_streams_grading` indexes the list of containers by a string
  when a second selected container has the same mimetype. The model returns
  a failure there.
- `ContainerStreamsGrader.is_supported` compares the mimetype with
  `container["mimetype"] and container["version"]`. That is the version
  whenever the container's mimetype is non-empty.
- `add_version_to_format` rejects a version that is a substring of an
  existing version string, not only an equal one.
- `supported_file_formats_versions` appends the loop variable once per
  format, after the inner loop. It therefore returns one dict per format,
  the last version. A format without versions repeats the previous entry,
  and a first format without versions makes the call fail.

## Model

| member | source | states |
|---|---|---|
| Defaults.GradeOfValue | dpres_file_formats/defaults.py:56-62 | a grade found for a stored string has that string as its value |
| Defaults.GradeValueRoundTrip | dpres_file_formats/defaults.py:56-62 | the five grade strings are distinct, so looking up a grade's string gives that grade back |
| Text.Lower | dpres_file_formats/graders.py:135 | lower-casing keeps the length and maps each character by itself |
| Text.Contains | dpres_file_formats/update_file_formats.py:164 | `needle in hay` holds iff the needle occurs at some position of the haystack |
| Text.NatToString | dpres_file_formats/update_file_formats.py:65-66 | the rendering of the running number is a non-empty string of decimal digits |
| Text.NatToStringInjective | dpres_file_formats/update_file_formats.py:58-66 | distinct running numbers are rendered as distinct strings |
| Graders.MimeIsSupported | dpres_file_formats/graders.py:48-51 | supported iff some table entry has exactly that mimetype |
| Graders.MimeGrade | dpres_file_formats/graders.py:53-64 | UNACCEPTABLE when no entry matches mimetype and version; otherwise the grade of the first matching entry |
| Graders.MimeGraderIsCaseSensitive | dpres_file_formats/graders.py:51-57 | the mimetype comparison is case-sensitive for both `is_supported` and `grade` |
| Graders.MimeGradePdfExamples | tests/graders_test.py:13-24 | for PDF A-1a, 1.2 and foo the grades are RECOMMENDED, ACCEPTABLE and UNACCEPTABLE, whatever the streams |
| Graders.TextIsSupported | dpres_file_formats/graders.py:72-79 | supported iff some entry has that mimetype and a non-empty charset list |
| Graders.TextGrade | dpres_file_formats/graders.py:81-102 | UNACCEPTABLE when no entry matches mimetype, version and some stream charset; otherwise the first such entry's grade |
| Graders.TextGradeWithoutStreams | dpres_file_formats/graders.py:90-94 | with an empty stream map the grade is always UNACCEPTABLE |
| Graders.TextGradeOneAllowedCharsetSuffices | dpres_file_formats/graders.py:86-93 | one stream with an allowed charset in the first mimetype/version match gives that entry's grade |
| Graders.TextGradeCsvExamples | tests/graders_test.py:27-47 | text/csv with UTF-8 is RECOMMENDED; a wrong version or the sole charset `foo` gives UNACCEPTABLE |
| Graders.TextGradeRefinesMimeGrade | dpres_file_formats/graders.py:53-102 | when at most one entry matches mimetype and version, the text grade is the MIME grade or UNACCEPTABLE |
| Graders.ContainerIsSupported | dpres_file_formats/graders.py:117-122 | supported iff the argument equals `mimetype and version` of some container entry |
| Graders.ContainerIsSupportedMatchesVersions | dpres_file_formats/graders.py:120-122 | for an entry with a non-empty mimetype, the container's own mimetype is not supported but its version is |
| Graders.CriteriaAreRelevantTiers | dpres_file_formats/graders.py:141-166 | the grading criteria are exactly the tiers whose lower-cased mimetype and version match stream 0, with their audio then video streams |
| Graders.NumericGrade | dpres_file_formats/graders.py:169-179 | every grade's number indexes the inverse table at that grade |
| Graders.NumericGradesInverse | dpres_file_formats/graders.py:169-179 | `numeric_grades` and `inverse_numeric_grades` are inverse to each other |
| Graders.Weakest | dpres_file_formats/graders.py:190-192 | the result is one of the grades and has the least number among them |
| Graders.TierGradesMembers | dpres_file_formats/graders.py:182-184 | a pair contributes grade g iff some criterion lists the pair with grade g |
| Graders.CollectGradesMembers | dpres_file_formats/graders.py:182-184 | a grade is collected iff some contained pair contributes it |
| Graders.CollectGradesOnePerPair | dpres_file_formats/graders.py:182-187 | when every contained pair lies in exactly one tier, there are as many grades as contained pairs |
| Graders.ContainerGrade | dpres_file_formats/graders.py:124-192 | fails exactly when stream 0 is missing or when no other stream is present; otherwise returns a grade |
| Graders.ContainerGradeBounds | dpres_file_formats/graders.py:186-192 | a returned grade is UNACCEPTABLE or the grade of a tier listing a contained pair, and never stronger than any tier that lists a contained pair |
| Graders.ExactlyOneTierPerPair | dpres_file_formats/graders.py:181-192 | when each contained pair lies in exactly one relevant tier, the result is the weakest of those tier grades |
| Graders.UnlistedPairIsUnacceptable | dpres_file_formats/graders.py:186-188 | one pair in no tier, with the others in exactly one, gives UNACCEPTABLE |
| Graders.HitCountIsNotPerPair | dpres_file_formats/graders.py:182-192 | one unlisted pair plus one pair listed twice passes the count check and yields the weaker of the two tier grades |
| Graders.ContainerGradeIgnoresOwnMimetype | dpres_file_formats/graders.py:127-129 | the grade depends only on the streams, not on the object's own mimetype and version |
| Graders.ContainerGradeIgnoresCase | dpres_file_formats/graders.py:134-147 | stream maps that agree up to lower-casing of mimetypes get the same result |
| Graders.RepeatedStreamCollapses | dpres_file_formats/graders.py:134-138 | adding a stream equal to an existing one up to lower-casing does not change the result |
| ReadFileFormats.SelectFormat | dpres_file_formats/read_file_formats.py:24-49 | a format is kept iff it keeps some version, and then its versions become exactly the kept ones in order |
| ReadFileFormats.SelectFormatSpec | dpres_file_formats/read_file_formats.py:30-49 | kept iff some version is (deprecated or active) and (unofficial or non-empty `added_in_dps_spec`); other keys unchanged; versions are exactly the kept ones |
| ReadFileFormats.SelectedShape | dpres_file_formats/read_file_formats.py:24-49 | every selected format has a version list, and it is non-empty |
| ReadFileFormats.SelectedAppend | dpres_file_formats/read_file_formats.py:73-77 | selection distributes over concatenation, so kept formats keep their relative order |
| ReadFileFormats.SelectedMembers | dpres_file_formats/read_file_formats.py:73-77 | a record is selected iff it is the selection of some input format |
| ReadFileFormats.SelectedHoldsKeptVersions | dpres_file_formats/read_file_formats.py:73-83 | the selected formats hold exactly as many versions as are kept over the whole input |
| ReadFileFormats.KeptVersionsMonotone | dpres_file_formats/read_file_formats.py:36-41 | turning `deprecated` or `unofficial` on never drops a version kept with it off |
| ReadFileFormats.SelectionMonotone | dpres_file_formats/read_file_formats.py:36-41 | turning the flags on never selects fewer formats nor keeps fewer versions |
| ReadFileFormats.OverlayKeys | dpres_file_formats/read_file_formats.py:56-68 | a key is in a flattened dict iff the format or one of the versions so far holds it, so keys of earlier versions persist |
| ReadFileFormats.OverlayLastWins | dpres_file_formats/read_file_formats.py:65-68 | a key takes its value from the latest version so far that holds it |
| ReadFileFormats.OverlayBase | dpres_file_formats/read_file_formats.py:56-68 | a key of the format that no version so far holds keeps the format's value |
| ReadFileFormats.Flattened | dpres_file_formats/read_file_formats.py:51-68 | one dict per version; the k-th is the format base overlaid by versions 0..k |
| ReadFileFormats.FlattenAllCount | dpres_file_formats/read_file_formats.py:79-83 | flattening yields one dict per version of the flattened formats |
| ReadFileFormats.FileFormatsSeparateCount | dpres_file_formats/read_file_formats.py:79-83 | with `versions_separately` the output length is the number of kept versions |
| ReadFileFormats.SelectFormatAndVersions | dpres_file_formats/read_file_formats.py:24-49 | the loop's include flag and reduced format agree with the selection specification |
| ReadFileFormats.FlattenFormatVersions | dpres_file_formats/read_file_formats.py:51-68 | the loop's output equals the flattening specification |
| ReadFileFormats.SelectAll | dpres_file_formats/read_file_formats.py:73-77 | the first loop collects exactly the selection specification of the input, in order |
| ReadFileFormats.FlattenAllFormats | dpres_file_formats/read_file_formats.py:79-83 | the second loop concatenates the flattened dicts of every format, format after format |
| ReadFileFormats.FileFormats | dpres_file_formats/read_file_formats.py:9-85 | the output equals selection, then flattening when `versions_separately` is set |
| ReadFileFormats.ActiveGradesKeys | dpres_file_formats/read_file_formats.py:104-110 | `format_versions` has a key for a version string iff an active version carries it |
| ReadFileFormats.ActiveGradesLastWins | dpres_file_formats/read_file_formats.py:108-110 | for a repeated version string, the grade of the last active version wins |
| ReadFileFormats.GradingMimetypes | dpres_file_formats/read_file_formats.py:104-124 | a mimetype is in the grading iff some format with that mimetype has an active version (and charsets in text mode) |
| ReadFileFormats.GradingVersions | dpres_file_formats/read_file_formats.py:113-124 | the versions under a mimetype are exactly the active versions of its contributing formats |
| ReadFileFormats.GradingLastWins | dpres_file_formats/read_file_formats.py:119-124 | among formats sharing a mimetype, the last one naming a version decides its grade |
| ReadFileFormats.TextGradingIsFiltered | dpres_file_formats/read_file_formats.py:115-117 | text mode grades exactly the formats with a non-empty charset list |
| ReadFileFormats.MimetypesGrading | dpres_file_formats/read_file_formats.py:102-126 | the outer loop over the formats computes the grading specification |
| ReadFileFormats.FormatVersionsGrading | dpres_file_formats/read_file_formats.py:105-110 | the inner loop collects the grade of every active version by its name, the last one winning |
| ReadFileFormats.PairsOf | dpres_file_formats/read_file_formats.py:147-151 | the stream set holds exactly the (mimetype, version) of each stream record |
| ReadFileFormats.ContainersGradingSpec | dpres_file_formats/read_file_formats.py:136-164 | fails iff two selected containers share a mimetype; otherwise maps each selected mimetype to its audio and video pairs |
| ReadFileFormats.AddContainerSpec | dpres_file_formats/read_file_formats.py:144-160 | one iteration keeps the grading correct: it fails iff the new container repeats a selected mimetype, else adds exactly that container's pairs |
| ReadFileFormats.ContainersFailureSticks | dpres_file_formats/read_file_formats.py:158-162 | once a prefix fails, the whole input fails the same way |
| ReadFileFormats.CollectPairs | dpres_file_formats/read_file_formats.py:147-151 | the loop adds exactly the pairs of the stream records |
| ReadFileFormats.ContainerStreams | dpres_file_formats/read_file_formats.py:146-151 | the stream set of a container is the pairs of its audio and video streams |
| ReadFileFormats.ContainersStreamsGrading | dpres_file_formats/read_file_formats.py:129-164 | the loop computes the container grading specification, failing on a repeated mimetype |
| ReadFileFormats.PairsOfAppend | dpres_file_formats/read_file_formats.py:147-151 | the pairs of audio then video streams are the union of both |
| ReadFileFormatsExamples.ConftestKept | tests/read_file_formats_test.py:18-25 | on the fixture's flags the four formats keep 1+d+u, 1, d and 1 versions |
| ReadFileFormatsExamples.ConftestSelected | tests/read_file_formats_test.py:18-21 | 3 formats are kept, 4 with `deprecated`; the first output is the first format |
| ReadFileFormatsExamples.ConftestTotalKept | tests/read_file_formats_test.py:22-25 | 3 + 2d + u versions are kept |
| ReadFileFormatsExamples.ConftestFileFormats | tests/read_file_formats_test.py:18-25 | format counts 3+d, first format's versions 1+d+u, flattened counts 3+2d+u, as in the test table |
| UpdateFileFormats.FormatIdInjective | dpres_file_formats/update_file_formats.py:15 | a format id determines its short name and running number |
| UpdateFileFormats.LastWithId | dpres_file_formats/update_file_formats.py:155-158 | the lookup finds the last format with the id, or reports that none has it |
| UpdateFileFormats.NewFormatFields | dpres_file_formats/update_file_formats.py:45-51 | the new record has the given id and short name, the allowed charsets iff requested, and empty relations and versions |
| UpdateFileFormats.NewFormatNotListed | dpres_file_formats/update_file_formats.py:76-78 | a newly added format has no versions, so `file_formats` does not list it |
| UpdateFileFormats.AddFormatKeepsNumbered | dpres_file_formats/update_file_formats.py:58-80 | appending the new record keeps every id equal to `FI_DPRES_{short}_{n}` with n counted over the records before it |
| UpdateFileFormats.NumberedIdsDistinct | dpres_file_formats/update_file_formats.py:58-66 | in a table built by `add_format`, no two formats share an id |
| UpdateFileFormats.FirstFormatId | tests/update_file_formats_test.py:24-35 | with no format of that short name the id is `FI_DPRES_{short}_1`, e.g. `FI_DPRES_XYZ_1` |
| UpdateFileFormats.InitialSources | dpres_file_formats/update_file_formats.py:143-150 | the new version has exactly one source iff a source pid is given, otherwise none |
| UpdateFileFormats.AddedVersionSpec | dpres_file_formats/update_file_formats.py:155-186 | fails with a missing format iff no format has the id; fails with a duplicate version iff the version string is a substring of a version of the last format with the id; on success exactly that last format changes, gaining the version at the end of its versions |
| UpdateFileFormats.NewVersionFields | dpres_file_formats/update_file_formats.py:132-135 | the id is `{format_id}_{version}` or `{format_id}_UNAP`; the version is stored or `(:unap)`; one source iff a pid is given |
| UpdateFileFormats.AddedVersionTwiceFails | dpres_file_formats/update_file_formats.py:163-167 | adding the same version again raises the duplicate error |
| UpdateFileFormats.LastWithIdFrame | dpres_file_formats/update_file_formats.py:155-158 | changing a format without changing its id leaves the lookup result unchanged |
| UpdateFileFormats.AddedVersionListed | dpres_file_formats/update_file_formats.py:172-186 | `file_formats` lists the added version after the others iff it is (active or deprecated wanted) and (has a spec version or unofficial wanted) |
| UpdateFileFormats.KeptWithVersion | dpres_file_formats/update_file_formats.py:183-186 | appending a version keeps the format's kept versions and adds the new one at the end iff it is kept |
| UpdateFileFormats.NewVersionKept | dpres_file_formats/update_file_formats.py:172-182 | a new version is listed iff (active or deprecated wanted) and (a spec version is given or unofficial wanted) |
| UpdateFileFormats.DeprecatedVersions | dpres_file_formats/update_file_formats.py:247-251 | every version is deprecated in place, keeping order and count |
| UpdateFileFormats.DeprecatedVersionSpec | dpres_file_formats/update_file_formats.py:247-251 | a deprecated version is inactive, unsupported, unacceptable and removed in the spec version, with its other keys unchanged |
| UpdateFileFormats.ReplacedVersions | dpres_file_formats/update_file_formats.py:235-251 | the superseded format's versions become its versions deprecated |
| UpdateFileFormats.ReplacedDeprecates | dpres_file_formats/update_file_formats.py:245-251 | after replacement no version of the superseded format is listed without `deprecated`, and none of its versions contributes a grade |
| UpdateFileFormats.NoneKept | dpres_file_formats/read_file_formats.py:36-43 | inactive versions are never kept without `deprecated` |
| UpdateFileFormats.NoActiveGrades | dpres_file_formats/read_file_formats.py:108-110 | inactive versions contribute no grades |
| UpdateFileFormats.ReplacedRelations | dpres_file_formats/update_file_formats.py:235-260 | the superseded format's relations end with the "is superseded by" relation, the superseding format's with the "supersedes" relation, and other formats are unchanged |
| UpdateFileFormats.ReplaceRelationFields | dpres_file_formats/update_file_formats.py:219-256 | "is superseded by" points at the found superseding id and "supersedes" at the found superseded id (empty when missing); both carry the specification version and the same description "MIME type changed from A to B" |
| UpdateFileFormats.FirstWithId | dpres_file_formats/update_file_formats.py:291-297 | the inner loop stops at the first version with the id, or finds none |
| UpdateFileFormats.SourcedSpec | dpres_file_formats/update_file_formats.py:284-297 | in each format the first version with the id gains the source at the end; every other version, and every format without the id, is unchanged |
| UpdateFileFormats.DeprecateVersions | dpres_file_formats/update_file_formats.py:247-251 | the version loop computes the deprecated versions |
| UpdateFileFormats.FindReplaceFormats | dpres_file_formats/update_file_formats.py:219-225 | the first loop finds each id, empty when absent, and the mimetype of the last format having it |
| UpdateFileFormats.ReplaceOne | dpres_file_formats/update_file_formats.py:235-260 | one format gains the "superseded by" relation and deprecated versions if superseded, and the "supersedes" relation if superseding |
| UpdateFileFormats.Registry.AddFormat | dpres_file_formats/update_file_formats.py:20-86 | returns `FI_DPRES_{short}_{1+count}` and appends exactly the new record, earlier records unchanged; keeps ids numbered |
| UpdateFileFormats.Registry.AddVersionToFormat | dpres_file_formats/update_file_formats.py:92-190 | fails for a missing format or a substring-duplicate version with the table unchanged, otherwise applies the version addition |
| UpdateFileFormats.Registry.ReplaceFormat | dpres_file_formats/update_file_formats.py:193-264 | the table becomes the replacement specification of the old table |
| UpdateFileFormats.Registry.AddSourceToFormat | dpres_file_formats/update_file_formats.py:267-301 | the table becomes the source-addition specification of the old table |
| FileFormats.StampSpec | dpres_file_formats/file_formats.py:18-25 | a stamped version has its format's seven parent values, keeps its other keys, and stamping twice is stamping once |
| FileFormats.ListedSpec | dpres_file_formats/file_formats.py:16-27 | fails iff the first format has no versions; otherwise one dict per format, its last version stamped, or a repeat of the previous dict for a format without versions |
| FileFormats.LatestVersionBound | dpres_file_formats/file_formats.py:18-26 | the loop variable is unbound iff no format so far had a version |
| FileFormats.StampedSpec | dpres_file_formats/file_formats.py:17-25 | every version of every format gains the parent keys; the format's other keys and the number of versions are unchanged |
| FileFormats.ListingRepeatable | dpres_file_formats/file_formats.py:12-27 | a second call changes nothing more and returns the same list |
| FileFormats.StampedLast | dpres_file_formats/file_formats.py:18-26 | stamping keeps the number of versions and the stamped last version |
| FileFormats.LatestOfStamped | dpres_file_formats/file_formats.py:18-26 | the loop variable ends the same over the stamped table |
| FileFormats.ListedOfStamped | dpres_file_formats/file_formats.py:16-27 | listing the stamped table gives the same result |
| FileFormats.FormatTable.SupportedFileFormats | dpres_file_formats/file_formats.py:7-9 | returns the table itself |
| FileFormats.StampVersions | dpres_file_formats/file_formats.py:18-25 | the inner loop stamps every version of a format with the format's seven parent values, keeping their order, and leaves the loop variable at the last one |
| FileFormats.FormatTable.SupportedFileFormatsVersions | dpres_file_formats/file_formats.py:12-27 | returns the listing specification; on success every version is stamped in place, on failure the table is unchanged |

## Left out

- Reading and writing the JSON files (dpres_file_formats/json_handler.py) is not part of this model. The table is a parameter for the reading functions and a class field for the editing and listing functions.
- The `serialize_supported_file_formats*` functions are thin JSON-dump wrappers and are not modelled.
- `av_container_grading` (imported by dpres_file_formats/graders.py and dpres_file_formats/__init__.py) and the package-level `grade` are not part of this model; no modelled file defines them.
- The constant data of dpres_file_formats/file_formats_list.py and the file paths in dpres_file_formats/defaults.py are not modelled. The controlled vocabularies are datatypes, so the source's `Enum[name]` lookup with an unknown name, which raises KeyError, has no counterpart.
- The graders' tables are class attributes computed at import time in the source (`file_formats()` and `av_container_grading()`). Here they are explicit parameters of typed entries: one per (mimetype, version) with its grade and charsets, and one per container tier. How those entries are derived from the registry records is not modelled.
- Streams are records with a mimetype, a version and a charset. A stream dict lacking one of those keys, which raises KeyError in the source, is not modelled.
- `str.lower()` is modelled on ASCII letters only. Unicode case mapping is out of scope.
- Graders.ContainerGrade: ghost, because the source iterates a Python set whose order is unspecified. Only the length and the minimum of the result depend on it, and those are order-independent.
- In-place mutation and aliasing are not modelled; the model reassigns values instead. The source mutates the format dicts it reads: `file_formats` overwrites `versions`, and the editing functions append to lists inside records. The dicts returned by `supported_file_formats_versions` are the same objects as the table's versions, so a later change to one shows in the other; the model returns copies.
- Where the source would crash on a malformed record (a missing `_id`, a non-list `versions`, a non-string mimetype), the model states the needed shape as a precondition of the methods rather than modelling the exception. The specification functions of `file_formats` are total and read a `versions` value that is not a list of objects as an empty list, a case the methods' preconditions exclude.
- UpdateFileFormats.Registry.AddVersionToFormat: requires a string `version` in every version of the last format with the id. The source reads those versions only up to the first one that contains the new version string, where it raises, so a malformed version after that point does not crash it.
- UpdateFileFormats.Registry.AddSourceToFormat: requires every version record to carry `_id`. The source stops reading a format's versions at the first match.
- An absent `version` argument (None) of `add_version_to_format` is represented by the empty string; both are falsy and become `(:unap)`.
- An absent `typical_extensions` (None) is the empty list, and an absent `required_metadata` is `None` of an option type. Both are stored as the source stores them (`[]` and `""`).
