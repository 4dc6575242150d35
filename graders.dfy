/**
 * Grading of digital objects: from a mimetype, a version and streams to a grade.
 *
 * Each grader is constructed from the mimetype, version and stream map of
 * the file to grade (BaseGrader.__init__), answers `is_supported` for a
 * mimetype and computes a grade. The tables the graders consult are loaded
 * at import time in the source; here they are explicit, read-only
 * parameters: a format table for MIMEGrader and TextGrader and a container
 * table for ContainerStreamsGrader.
 */
module Graders {
  import opened Wrappers
  import opened Defaults
  import opened Text
  import Seqs

  /** One graded (mimetype, version) entry of the format table, with its allowed charsets. */
  datatype FormatEntry = FormatEntry(mimetype: string, version: string, grade: Grade, charsets: seq<string>)

  /** A (mimetype, version) a container tier lists as an allowed audio or video stream. */
  datatype StreamRef = StreamRef(mimetype: string, version: string)

  /** One tier of a container: the streams it may hold for the container to get `grade`. */
  datatype ContainerEntry = ContainerEntry(
    mimetype: string,
    version: string,
    grade: Grade,
    audioStreams: seq<StreamRef>,
    videoStreams: seq<StreamRef>)

  /** One stream of the file under evaluation. */
  datatype Stream = Stream(mimetype: string, version: string, charset: string)

  /**
   * What a grader is constructed with and reads back through its
   * `mimetype`, `version` and `streams` properties.
   */
  datatype FileInfo = FileInfo(mimetype: string, version: string, streams: map<int, Stream>)

  /** Why ContainerStreamsGrader.grade raises instead of returning a grade. */
  datatype GraderError =
    | MissingContainerStream  // `self.streams[0]` raises KeyError
    | NoContainedGrades       // `min` over an empty sequence raises ValueError

  // ---------------------------------------------------------------------------
  // MIMEGrader
  // ---------------------------------------------------------------------------

  /** MIMEGrader.is_supported: the mimetype is, case-sensitively, that of some entry. */
  function MimeIsSupported(formats: seq<FormatEntry>, mimetype: string): (r: bool)
    ensures r <==> exists i :: 0 <= i < |formats| && formats[i].mimetype == mimetype
  {
    var mimetypes := Seqs.Map(formats, (f: FormatEntry) => f.mimetype);
    assert forall i :: 0 <= i < |formats| ==> mimetypes[i] == formats[i].mimetype;
    mimetype in mimetypes
  }

  /** An entry for exactly the file's mimetype and version (both compared case-sensitively). */
  predicate MimeMatches(f: FormatEntry, file: FileInfo)
  {
    f.mimetype == file.mimetype && f.version == file.version
  }

  /** Entry `i` is the first entry for the file's mimetype and version. */
  predicate IsFirstMimeMatch(formats: seq<FormatEntry>, file: FileInfo, i: int)
  {
    0 <= i < |formats| && MimeMatches(formats[i], file) &&
    forall j :: 0 <= j < i ==> !MimeMatches(formats[j], file)
  }

  /**
   * MIMEGrader.grade: the grade of the first entry for the file's mimetype
   * and version, or UNACCEPTABLE when there is none.
   */
  function MimeGrade(formats: seq<FormatEntry>, file: FileInfo): (g: Grade)
    ensures (forall i :: 0 <= i < |formats| ==> !MimeMatches(formats[i], file)) ==> g == Unacceptable
    ensures forall i :: IsFirstMimeMatch(formats, file, i) ==> g == formats[i].grade
  {
    var matches := (f: FormatEntry) => MimeMatches(f, file);
    var grades := Seqs.Filter(formats, matches);
    assert forall i :: IsFirstMimeMatch(formats, file, i) ==> |grades| > 0 && grades[0] == formats[i] by {
      forall i | IsFirstMimeMatch(formats, file, i) ensures |grades| > 0 && grades[0] == formats[i] {
        Seqs.FilterFirst(formats, matches, i);
      }
    }
    assert |grades| > 0 ==> grades[0] in grades;
    if |grades| == 0 then Unacceptable else grades[0].grade
  }

  /** Mimetypes are compared case-sensitively: an upper-case spelling is not supported and grades UNACCEPTABLE. */
  lemma MimeGraderIsCaseSensitive()
    ensures var formats := [FormatEntry("application/pdf", "A-1a", Recommended, [])];
      !MimeIsSupported(formats, "APPLICATION/PDF") &&
      MimeGrade(formats, FileInfo("APPLICATION/PDF", "A-1a", map[])) == Unacceptable &&
      MimeGrade(formats, FileInfo("application/pdf", "A-1a", map[])) == Recommended
  {
    var formats := [FormatEntry("application/pdf", "A-1a", Recommended, [])];
    assert "APPLICATION/PDF"[0] != "application/pdf"[0];
  }

  /** The grading of a PDF table as the unit tests expect it: A-1a, 1.2 and an unknown version. */
  lemma MimeGradePdfExamples(streams: map<int, Stream>)
    ensures var formats := [
        FormatEntry("application/pdf", "1.2", Acceptable, []),
        FormatEntry("application/pdf", "A-1a", Recommended, [])];
      MimeGrade(formats, FileInfo("application/pdf", "A-1a", streams)) == Recommended &&
      MimeGrade(formats, FileInfo("application/pdf", "1.2", streams)) == Acceptable &&
      MimeGrade(formats, FileInfo("application/pdf", "foo", streams)) == Unacceptable
  {
    var formats := [
        FormatEntry("application/pdf", "1.2", Acceptable, []),
        FormatEntry("application/pdf", "A-1a", Recommended, [])];
    assert "A-1a"[0] != "1.2"[0];
    assert IsFirstMimeMatch(formats, FileInfo("application/pdf", "A-1a", streams), 1);
    assert IsFirstMimeMatch(formats, FileInfo("application/pdf", "1.2", streams), 0);
    assert "foo"[0] != "1.2"[0] && "foo"[0] != "A-1a"[0];
    assert forall i :: 0 <= i < |formats| ==> !MimeMatches(formats[i], FileInfo("application/pdf", "foo", streams));
  }

  // ---------------------------------------------------------------------------
  // TextGrader
  // ---------------------------------------------------------------------------

  /** TextGrader.is_supported: some entry has this exact mimetype and a non-empty charset list. */
  function TextIsSupported(formats: seq<FormatEntry>, mimetype: string): (r: bool)
    ensures r <==> exists i :: 0 <= i < |formats| && formats[i].mimetype == mimetype && formats[i].charsets != []
  {
    var textual := Seqs.Filter(formats, (f: FormatEntry) => f.mimetype == mimetype && f.charsets != []);
    assert |textual| > 0 ==> textual[0] in textual;
    assert forall i :: 0 <= i < |formats| && formats[i].mimetype == mimetype && formats[i].charsets != [] ==>
      formats[i] in textual;
    |textual| > 0
  }

  /** Some stream, whichever it is, declares a charset the entry allows. */
  predicate AllowsSomeStream(f: FormatEntry, streams: map<int, Stream>)
  {
    exists s :: s in streams.Values && s.charset in f.charsets
  }

  /** `does_match`: the entry is for the file's mimetype and version and allows some stream's charset. */
  predicate TextMatches(f: FormatEntry, file: FileInfo)
  {
    f.mimetype == file.mimetype && f.version == file.version && AllowsSomeStream(f, file.streams)
  }

  /** Entry `i` is the first entry that text-matches the file. */
  predicate IsFirstTextMatch(formats: seq<FormatEntry>, file: FileInfo, i: int)
  {
    0 <= i < |formats| && TextMatches(formats[i], file) &&
    forall j :: 0 <= j < i ==> !TextMatches(formats[j], file)
  }

  /**
   * TextGrader.grade: the grade of the first entry that text-matches the
   * file, or UNACCEPTABLE when there is none.
   */
  function TextGrade(formats: seq<FormatEntry>, file: FileInfo): (g: Grade)
    ensures (forall i :: 0 <= i < |formats| ==> !TextMatches(formats[i], file)) ==> g == Unacceptable
    ensures forall i :: IsFirstTextMatch(formats, file, i) ==> g == formats[i].grade
  {
    var matches := (f: FormatEntry) => TextMatches(f, file);
    var grades := Seqs.Filter(formats, matches);
    assert forall i :: IsFirstTextMatch(formats, file, i) ==> |grades| > 0 && grades[0] == formats[i] by {
      forall i | IsFirstTextMatch(formats, file, i) ensures |grades| > 0 && grades[0] == formats[i] {
        Seqs.FilterFirst(formats, matches, i);
      }
    }
    assert |grades| > 0 ==> grades[0] in grades;
    if |grades| == 0 then Unacceptable else grades[0].grade
  }

  /** Without any stream no charset can be allowed, so the text grade is UNACCEPTABLE. */
  lemma TextGradeWithoutStreams(formats: seq<FormatEntry>, mimetype: string, version: string)
    ensures TextGrade(formats, FileInfo(mimetype, version, map[])) == Unacceptable
  {
  }

  /**
   * One stream with an allowed charset is enough: when the first entry for
   * the file's mimetype and version allows the charset of some stream, the
   * file gets that entry's grade whatever charsets the other streams declare.
   */
  lemma {:induction false} TextGradeOneAllowedCharsetSuffices(formats: seq<FormatEntry>, file: FileInfo, i: nat, k: int)
    requires i < |formats| && MimeMatches(formats[i], file)
    requires forall j :: 0 <= j < i ==> !MimeMatches(formats[j], file)
    requires k in file.streams && file.streams[k].charset in formats[i].charsets
    ensures TextGrade(formats, file) == formats[i].grade
  {
    assert file.streams[k] in file.streams.Values;
    assert IsFirstTextMatch(formats, file, i);
  }

  /** The unit-test scenario widened: a disallowed charset beside an allowed one does not downgrade. */
  lemma TextGradeCsvExamples()
    ensures var formats := [FormatEntry("text/csv", UNAP, Recommended, ALLOWED_CHARSETS)];
      TextGrade(formats, FileInfo("text/csv", UNAP, map[0 := Stream("", "", "UTF-8")])) == Recommended &&
      TextGrade(formats, FileInfo("text/csv", "foo", map[0 := Stream("", "", "UTF-8")])) == Unacceptable &&
      TextGrade(formats, FileInfo("text/csv", UNAP, map[0 := Stream("", "", "foo")])) == Unacceptable &&
      TextGrade(formats, FileInfo("text/csv", UNAP,
        map[0 := Stream("", "", "Shift-JIS"), 1 := Stream("", "", "UTF-8")])) == Recommended
  {
    var formats := [FormatEntry("text/csv", UNAP, Recommended, ALLOWED_CHARSETS)];
    assert "foo"[0] != UNAP[0];
    assert "foo" !in ALLOWED_CHARSETS by {
      assert forall c :: c in ALLOWED_CHARSETS ==> c[0] != 'f';
    }
    var both := map[0 := Stream("", "", "Shift-JIS"), 1 := Stream("", "", "UTF-8")];
    TextGradeOneAllowedCharsetSuffices(formats, FileInfo("text/csv", UNAP, both), 0, 1);
    var good := map[0 := Stream("", "", "UTF-8")];
    TextGradeOneAllowedCharsetSuffices(formats, FileInfo("text/csv", UNAP, good), 0, 0);
    var bad := map[0 := Stream("", "", "foo")];
    assert bad.Values == {Stream("", "", "foo")};
    assert !TextMatches(formats[0], FileInfo("text/csv", UNAP, bad));
  }

  /**
   * When the table holds at most one entry per (mimetype, version), the
   * text grade is either the MIME grade or UNACCEPTABLE: the charset test
   * can only take a grade away.
   */
  lemma TextGradeRefinesMimeGrade(formats: seq<FormatEntry>, file: FileInfo)
    requires forall i, j ::
      0 <= i < |formats| && 0 <= j < |formats| && MimeMatches(formats[i], file) && MimeMatches(formats[j], file) ==> i == j
    ensures TextGrade(formats, file) == MimeGrade(formats, file) || TextGrade(formats, file) == Unacceptable
  {
    if i :| 0 <= i < |formats| && MimeMatches(formats[i], file) {
      assert IsFirstMimeMatch(formats, file, i);
      if TextMatches(formats[i], file) {
        assert IsFirstTextMatch(formats, file, i);
      } else {
        assert forall j :: 0 <= j < |formats| ==> !TextMatches(formats[j], file);
      }
    }
  }

  // ---------------------------------------------------------------------------
  // ContainerStreamsGrader
  // ---------------------------------------------------------------------------

  /** Python's `a and b` on strings: `a` when it is empty (falsy), `b` otherwise. */
  function PyAnd(a: string, b: string): string
  {
    if a == "" then a else b
  }

  /** A non-empty container mimetype puts the VERSION in the list; an empty one puts "". */
  predicate ListsUnderAnd(c: ContainerEntry, mimetype: string)
  {
    (c.mimetype != "" && c.version == mimetype) || (c.mimetype == "" && mimetype == "")
  }

  /**
   * ContainerStreamsGrader.is_supported: membership among the values of
   * `container["mimetype"] and container["version"]`, which for a non-empty
   * mimetype is the container's VERSION. The given mimetype is therefore
   * compared with container versions.
   */
  function ContainerIsSupported(containers: seq<ContainerEntry>, mimetype: string): (r: bool)
    ensures r <==> exists i :: 0 <= i < |containers| && ListsUnderAnd(containers[i], mimetype)
  {
    var keys := Seqs.Map(containers, (c: ContainerEntry) => PyAnd(c.mimetype, c.version));
    assert forall i :: 0 <= i < |containers| ==> keys[i] == PyAnd(containers[i].mimetype, containers[i].version);
    mimetype in keys
  }

  /** A container's own mimetype is not recognised, but its version string is. */
  lemma ContainerIsSupportedMatchesVersions(grade: Grade)
    ensures var containers := [ContainerEntry("video/mp4", UNAP, grade, [], [])];
      !ContainerIsSupported(containers, "video/mp4") && ContainerIsSupported(containers, UNAP)
  {
    var containers := [ContainerEntry("video/mp4", UNAP, grade, [], [])];
    assert "video/mp4"[0] != UNAP[0];
    assert ListsUnderAnd(containers[0], UNAP) && !ListsUnderAnd(containers[0], "video/mp4");
  }

  /** A (lower-cased mimetype, version) pair. */
  type Pair = (string, string)

  /** `contained_formats`: the distinct (lower-cased mimetype, version) pairs of the streams other than 0. */
  function ContainedFormats(streams: map<int, Stream>): set<Pair>
  {
    set k | k in streams && k != 0 :: (Lower(streams[k].mimetype), streams[k].version)
  }

  /** A tier is relevant when its lower-cased mimetype and exact version are those of the container stream. */
  predicate IsRelevant(c: ContainerEntry, container: Stream)
  {
    Lower(c.mimetype) == Lower(container.mimetype) && c.version == container.version
  }

  /** One entry of `grading_criteria`: a tier's grade and its allowed streams as pairs. */
  datatype Criterion = Criterion(grade: Grade, streams: seq<Pair>)

  /** `transform_streams`: a tier's audio streams then video streams, as lower-cased pairs. */
  function TransformStreams(c: ContainerEntry): seq<Pair>
  {
    Seqs.Map(c.audioStreams + c.videoStreams, (s: StreamRef) => (Lower(s.mimetype), s.version))
  }

  /** `grading_criteria`: the relevant tiers, in table order, transformed. */
  function GradingCriteria(containers: seq<ContainerEntry>, container: Stream): seq<Criterion>
  {
    Seqs.Map(
      Seqs.Filter(containers, (c: ContainerEntry) => IsRelevant(c, container)),
      (c: ContainerEntry) => Criterion(c.grade, TransformStreams(c)))
  }

  /** The grading criteria of a file, selected by its stream 0. */
  function Criteria(containers: seq<ContainerEntry>, file: FileInfo): seq<Criterion>
    requires 0 in file.streams
  {
    GradingCriteria(containers, file.streams[0])
  }

  /** The criteria are exactly the relevant tiers of the table. */
  lemma CriteriaAreRelevantTiers(containers: seq<ContainerEntry>, file: FileInfo)
    requires 0 in file.streams
    ensures forall cr :: cr in Criteria(containers, file) <==>
      exists c :: c in containers && IsRelevant(c, file.streams[0]) && cr == Criterion(c.grade, TransformStreams(c))
  {
    var relevant := Seqs.Filter(containers, (c: ContainerEntry) => IsRelevant(c, file.streams[0]));
    var criteria := Criteria(containers, file);
    forall cr ensures cr in criteria <==>
      exists c :: c in containers && IsRelevant(c, file.streams[0]) && cr == Criterion(c.grade, TransformStreams(c))
    {
      if cr in criteria {
        var i :| 0 <= i < |criteria| && criteria[i] == cr;
        assert relevant[i] in relevant;
      }
      if c :| c in containers && IsRelevant(c, file.streams[0]) && cr == Criterion(c.grade, TransformStreams(c)) {
        assert c in relevant;
        var i :| 0 <= i < |relevant| && relevant[i] == c;
        assert criteria[i] == cr;
      }
    }
  }

  /** `numeric_grades`: the rank of each grade, RECOMMENDED 4 down to UNACCEPTABLE 0. */
  function NumericGrade(g: Grade): (n: nat)
    ensures n < |InverseNumericGrades| && InverseNumericGrades[n] == g
  {
    match g
    case Recommended => 4
    case Acceptable => 3
    case WithRecommended => 2
    case BitLevel => 1
    case Unacceptable => 0
  }

  /** `inverse_numeric_grades`: the grade of each rank. */
  const InverseNumericGrades: seq<Grade> := [Unacceptable, BitLevel, WithRecommended, Acceptable, Recommended]

  /** The two tables are inverse to each other in both directions. */
  lemma NumericGradesInverse()
    ensures forall g: Grade :: InverseNumericGrades[NumericGrade(g)] == g
    ensures forall n :: 0 <= n < |InverseNumericGrades| ==> NumericGrade(InverseNumericGrades[n]) == n
  {
  }

  /** The least element of a non-empty list. */
  function MinOf(s: seq<nat>): (m: nat)
    requires |s| > 0
    ensures m in s && forall k :: k in s ==> m <= k
  {
    if |s| == 1 then s[0]
    else
      var rest := MinOf(s[1..]);
      assert forall k :: k in s ==> k == s[0] || k in s[1..];
      if s[0] <= rest then s[0] else rest
  }

  /** `inverse_numeric_grades[min(map(numeric_grades, grades))]`: the weakest grade of a non-empty list. */
  function Weakest(grades: seq<Grade>): (w: Grade)
    requires |grades| > 0
    ensures w in grades && forall g :: g in grades ==> NumericGrade(w) <= NumericGrade(g)
  {
    var ranks := Seqs.Map(grades, NumericGrade);
    var m := MinOf(ranks);
    var i :| 0 <= i < |ranks| && ranks[i] == m;
    assert InverseNumericGrades[m] == grades[i];
    assert forall g :: g in grades ==> NumericGrade(g) in ranks by {
      forall g | g in grades ensures NumericGrade(g) in ranks {
        var j :| 0 <= j < |grades| && grades[j] == g;
        assert ranks[j] == NumericGrade(g);
      }
    }
    InverseNumericGrades[m]
  }

  /** `[y["grade"] for y in grading_criteria if x in y["streams"]]` for one contained pair `x`. */
  function TierGrades(x: Pair, criteria: seq<Criterion>): seq<Grade>
  {
    if criteria == [] then []
    else (if x in criteria[0].streams then [criteria[0].grade] else []) + TierGrades(x, criteria[1..])
  }

  /** A grade is among a pair's tier grades exactly when some tier listing the pair has that grade. */
  lemma {:induction false} TierGradesMembers(x: Pair, criteria: seq<Criterion>, g: Grade)
    ensures g in TierGrades(x, criteria) <==>
      exists i :: 0 <= i < |criteria| && x in criteria[i].streams && criteria[i].grade == g
  {
    if criteria != [] {
      TierGradesMembers(x, criteria[1..], g);
      if exists i :: 0 <= i < |criteria| && x in criteria[i].streams && criteria[i].grade == g {
        var i :| 0 <= i < |criteria| && x in criteria[i].streams && criteria[i].grade == g;
        if i > 0 {
          assert criteria[1..][i - 1] == criteria[i];
        }
      }
      if g in TierGrades(x, criteria[1..]) {
        var i :| 0 <= i < |criteria[1..]| && x in criteria[1..][i].streams && criteria[1..][i].grade == g;
        assert criteria[i + 1] == criteria[1..][i];
      }
    }
  }

  /**
   * `grades` (graders.py:182-184): for each contained pair, in the set's
   * iteration order, the grades of the criteria listing it. Python leaves
   * that order unspecified; the model fixes an arbitrary one, and only the
   * list's length and minimum are used, which do not depend on it.
   */
  ghost function CollectGrades(contained: set<Pair>, criteria: seq<Criterion>): seq<Grade>
    decreases contained
  {
    if contained == {} then []
    else
      var x :| x in contained;
      TierGrades(x, criteria) + CollectGrades(contained - {x}, criteria)
  }

  /** The collected grades are, as a multiset, one pair's grades plus those of the other pairs, whatever the order. */
  lemma {:induction false} CollectGradesSplit(contained: set<Pair>, criteria: seq<Criterion>, x: Pair)
    requires x in contained
    ensures multiset(CollectGrades(contained, criteria)) ==
      multiset(TierGrades(x, criteria)) + multiset(CollectGrades(contained - {x}, criteria))
    decreases contained
  {
    var y :| y in contained && CollectGrades(contained, criteria) ==
      TierGrades(y, criteria) + CollectGrades(contained - {y}, criteria);
    if y != x {
      CollectGradesSplit(contained - {y}, criteria, x);
      CollectGradesSplit(contained - {x}, criteria, y);
      assert contained - {y} - {x} == contained - {x} - {y};
    }
  }

  /** A grade is collected exactly when some contained pair has it among its tier grades. */
  lemma {:induction false} CollectGradesMembers(contained: set<Pair>, criteria: seq<Criterion>, g: Grade)
    ensures g in CollectGrades(contained, criteria) <==> exists x :: x in contained && g in TierGrades(x, criteria)
    decreases contained
  {
    if contained != {} {
      var x :| x in contained && CollectGrades(contained, criteria) ==
        TierGrades(x, criteria) + CollectGrades(contained - {x}, criteria);
      CollectGradesMembers(contained - {x}, criteria, g);
    }
  }

  /** When every pair is listed by exactly one criterion, one grade is collected per pair. */
  lemma {:induction false} CollectGradesOnePerPair(contained: set<Pair>, criteria: seq<Criterion>)
    requires forall x :: x in contained ==> |TierGrades(x, criteria)| == 1
    ensures |CollectGrades(contained, criteria)| == |contained|
    decreases contained
  {
    if contained != {} {
      var x :| x in contained && CollectGrades(contained, criteria) ==
        TierGrades(x, criteria) + CollectGrades(contained - {x}, criteria);
      CollectGradesOnePerPair(contained - {x}, criteria);
    }
  }

  /**
   * ContainerStreamsGrader.grade. The tiers are chosen by stream 0's
   * lower-cased mimetype and exact version; the object's own mimetype and
   * version play no part. When the number of (pair, listing tier) hits
   * differs from the number of distinct pairs the grade is UNACCEPTABLE;
   * otherwise it is the weakest grade hit. It raises when stream 0 is
   * missing, and when no stream besides 0 exists (`min` of nothing).
   */
  ghost function ContainerGrade(containers: seq<ContainerEntry>, file: FileInfo): (r: Result<Grade, GraderError>)
    ensures r == Failure(MissingContainerStream) <==> 0 !in file.streams
    ensures r == Failure(NoContainedGrades) <==> 0 in file.streams && ContainedFormats(file.streams) == {}
    ensures r.Success? || r == Failure(MissingContainerStream) || r == Failure(NoContainedGrades)
  {
    if 0 !in file.streams then Failure(MissingContainerStream)
    else
      var contained := ContainedFormats(file.streams);
      var grades := CollectGrades(contained, Criteria(containers, file));
      if |grades| != |contained| then Success(Unacceptable)
      else if |grades| == 0 then Failure(NoContainedGrades)
      else Success(Weakest(grades))
  }

  /**
   * Whenever a grade results, it is UNACCEPTABLE or the grade of a relevant
   * tier that lists some contained pair, and it is never stronger than any
   * relevant tier that lists a contained pair.
   */
  lemma ContainerGradeBounds(containers: seq<ContainerEntry>, file: FileInfo)
    requires ContainerGrade(containers, file).Success?
    ensures var g := ContainerGrade(containers, file).value;
      var criteria := Criteria(containers, file);
      var contained := ContainedFormats(file.streams);
      && (g == Unacceptable ||
          exists x, i :: x in contained && 0 <= i < |criteria| && x in criteria[i].streams && criteria[i].grade == g)
      && (forall x, i :: x in contained && 0 <= i < |criteria| && x in criteria[i].streams ==>
            NumericGrade(g) <= NumericGrade(criteria[i].grade))
  {
    var g := ContainerGrade(containers, file).value;
    var criteria := Criteria(containers, file);
    var contained := ContainedFormats(file.streams);
    var grades := CollectGrades(contained, criteria);
    if |grades| == |contained| {
      assert g == Weakest(grades);
      CollectGradesMembers(contained, criteria, g);
      var x :| x in contained && g in TierGrades(x, criteria);
      TierGradesMembers(x, criteria, g);
      forall x, i | x in contained && 0 <= i < |criteria| && x in criteria[i].streams
        ensures NumericGrade(g) <= NumericGrade(criteria[i].grade)
      {
        TierGradesMembers(x, criteria, criteria[i].grade);
        CollectGradesMembers(contained, criteria, criteria[i].grade);
      }
    } else {
      assert NumericGrade(g) == 0;
    }
  }

  /**
   * When every distinct contained pair is listed by exactly one relevant
   * tier, the grade is that of a tier hit and no tier hit is weaker: the
   * container is graded by its weakest stream.
   */
  lemma ExactlyOneTierPerPair(containers: seq<ContainerEntry>, file: FileInfo)
    requires 0 in file.streams
    requires ContainedFormats(file.streams) != {}
    requires forall x :: x in ContainedFormats(file.streams) ==> |TierGrades(x, Criteria(containers, file))| == 1
    ensures ContainerGrade(containers, file).Success?
    ensures var g := ContainerGrade(containers, file).value;
      var criteria := Criteria(containers, file);
      && (exists x :: x in ContainedFormats(file.streams) && g == TierGrades(x, criteria)[0])
      && (forall x :: x in ContainedFormats(file.streams) ==> NumericGrade(g) <= NumericGrade(TierGrades(x, criteria)[0]))
  {
    var criteria := Criteria(containers, file);
    var contained := ContainedFormats(file.streams);
    CollectGradesOnePerPair(contained, criteria);
    var g := ContainerGrade(containers, file).value;
    assert g == Weakest(CollectGrades(contained, criteria));
    CollectGradesMembers(contained, criteria, g);
    var x :| x in contained && g in TierGrades(x, criteria);
    assert g == TierGrades(x, criteria)[0];
    forall y | y in contained ensures NumericGrade(g) <= NumericGrade(TierGrades(y, criteria)[0]) {
      CollectGradesMembers(contained, criteria, TierGrades(y, criteria)[0]);
    }
  }

  /**
   * One contained pair that no relevant tier lists, while every other pair
   * is listed exactly once, makes the hit count fall short: UNACCEPTABLE.
   */
  lemma UnlistedPairIsUnacceptable(containers: seq<ContainerEntry>, file: FileInfo, x0: Pair)
    requires 0 in file.streams
    requires x0 in ContainedFormats(file.streams) && TierGrades(x0, Criteria(containers, file)) == []
    requires forall x :: x in ContainedFormats(file.streams) - {x0} ==> |TierGrades(x, Criteria(containers, file))| == 1
    ensures ContainerGrade(containers, file) == Success(Unacceptable)
  {
    var criteria := Criteria(containers, file);
    var contained := ContainedFormats(file.streams);
    CollectGradesSplit(contained, criteria, x0);
    CollectGradesOnePerPair(contained - {x0}, criteria);
    assert |CollectGrades(contained, criteria)| == |multiset(CollectGrades(contained, criteria))|;
    assert |contained - {x0}| == |contained| - 1;
  }

  /**
   * The "every stream found" test counts hits instead of checking each pair:
   * an unlisted pair goes unnoticed when another pair is listed by two tiers,
   * and the grade is then the weaker of those two tiers' grades.
   */
  lemma HitCountIsNotPerPair(containers: seq<ContainerEntry>, file: FileInfo, unlisted: Pair, twice: Pair)
    requires 0 in file.streams
    requires ContainedFormats(file.streams) == {unlisted, twice} && unlisted != twice
    requires TierGrades(unlisted, Criteria(containers, file)) == []
    requires |TierGrades(twice, Criteria(containers, file))| == 2
    ensures ContainerGrade(containers, file) == Success(Weakest(TierGrades(twice, Criteria(containers, file))))
  {
    var criteria := Criteria(containers, file);
    var contained := ContainedFormats(file.streams);
    var tg := TierGrades(twice, criteria);
    CollectGradesSplit(contained, criteria, unlisted);
    assert contained - {unlisted} == {twice};
    assert CollectGrades({twice}, criteria) == tg + CollectGrades({}, criteria);
    var grades := CollectGrades(contained, criteria);
    assert multiset(grades) == multiset(tg);
    assert |grades| == 2;
    var w, w' := Weakest(grades), Weakest(tg);
    assert w in multiset(tg) && w' in multiset(grades);
    assert NumericGrade(w) == NumericGrade(w') by {
      forall g | g in tg ensures g in grades {
        assert g in multiset(tg);
      }
      forall g | g in grades ensures g in tg {
        assert g in multiset(grades);
      }
    }
    assert InverseNumericGrades[NumericGrade(w)] == w;
  }

  /** The object's own mimetype and version do not affect the container grade. */
  lemma ContainerGradeIgnoresOwnMimetype(containers: seq<ContainerEntry>, streams: map<int, Stream>,
                                         m1: string, v1: string, m2: string, v2: string)
    ensures ContainerGrade(containers, FileInfo(m1, v1, streams)) == ContainerGrade(containers, FileInfo(m2, v2, streams))
  {
  }

  /**
   * Stream mimetypes are compared case-insensitively: two stream maps with
   * the same indices, the same versions and mimetypes equal up to case grade alike.
   */
  lemma ContainerGradeIgnoresCase(containers: seq<ContainerEntry>, file1: FileInfo, file2: FileInfo)
    requires file1.streams.Keys == file2.streams.Keys
    requires forall k :: k in file1.streams ==>
      Lower(file1.streams[k].mimetype) == Lower(file2.streams[k].mimetype) &&
      file1.streams[k].version == file2.streams[k].version
    ensures ContainerGrade(containers, file1) == ContainerGrade(containers, file2)
  {
    var s1, s2 := file1.streams, file2.streams;
    assert ContainedFormats(s1) == ContainedFormats(s2) by {
      forall p | p in ContainedFormats(s1) ensures p in ContainedFormats(s2) {
        var k :| k in s1 && k != 0 && p == (Lower(s1[k].mimetype), s1[k].version);
        assert p == (Lower(s2[k].mimetype), s2[k].version);
      }
      forall p | p in ContainedFormats(s2) ensures p in ContainedFormats(s1) {
        var k :| k in s2 && k != 0 && p == (Lower(s2[k].mimetype), s2[k].version);
        assert p == (Lower(s1[k].mimetype), s1[k].version);
      }
    }
    if 0 in s1 {
      var relevant1 := (c: ContainerEntry) => IsRelevant(c, s1[0]);
      var relevant2 := (c: ContainerEntry) => IsRelevant(c, s2[0]);
      assert Seqs.Filter(containers, relevant1) == Seqs.Filter(containers, relevant2) by {
        FilterSamePredicate(containers, relevant1, relevant2);
      }
    }
  }

  /** Filtering with two predicates that agree on every element gives the same list. */
  lemma {:induction false} FilterSamePredicate<T(!new)>(s: seq<T>, p: T -> bool, q: T -> bool)
    requires forall x :: p(x) == q(x)
    ensures Seqs.Filter(s, p) == Seqs.Filter(s, q)
  {
    if s != [] {
      FilterSamePredicate(s[1..], p, q);
    }
  }

  /**
   * Streams whose (lower-cased mimetype, version) pairs coincide count once:
   * adding a stream at a new index that repeats an existing contained pair
   * does not change the grade.
   */
  lemma RepeatedStreamCollapses(containers: seq<ContainerEntry>, file: FileInfo, k: int, k': int, s: Stream)
    requires k' in file.streams && k' != 0
    requires k !in file.streams && k != 0
    requires Lower(s.mimetype) == Lower(file.streams[k'].mimetype) && s.version == file.streams[k'].version
    ensures ContainerGrade(containers, FileInfo(file.mimetype, file.version, file.streams[k := s])) ==
            ContainerGrade(containers, file)
  {
    var s1, s2 := file.streams, file.streams[k := s];
    assert ContainedFormats(s1) == ContainedFormats(s2) by {
      forall p | p in ContainedFormats(s2) ensures p in ContainedFormats(s1) {
        var j :| j in s2 && j != 0 && p == (Lower(s2[j].mimetype), s2[j].version);
        if j == k {
          assert p == (Lower(s1[k'].mimetype), s1[k'].version);
        } else {
          assert p == (Lower(s1[j].mimetype), s1[j].version);
        }
      }
      forall p | p in ContainedFormats(s1) ensures p in ContainedFormats(s2) {
        var j :| j in s1 && j != 0 && p == (Lower(s1[j].mimetype), s1[j].version);
        assert s2[j] == s1[j];
      }
    }
  }
}
