/** `RequirementChecker.GetCourseMeritPoints`: one merit entry per configured
    course for the average, with the list of configured courses given as a
    parameter (`None` where the configuration was not found). */
module MeritTable {
  import opened Wrappers
  import opened Text
  import opened GradeScale
  import opened Records
  import opened Evaluation
  import opened Scan

  /** The codes an entry answers to: its own code, then its alternatives' codes. */
  function CodesOf(cfg: CourseForAverage): (codes: seq<string>)
    ensures |codes| == |cfg.alternativeCourses| + 1
    ensures codes[0] == cfg.code
    ensures forall k :: 0 <= k < |cfg.alternativeCourses| ==> codes[k + 1] == cfg.alternativeCourses[k].code
  {
    [cfg.code] + seq(|cfg.alternativeCourses|, k requires 0 <= k < |cfg.alternativeCourses| => cfg.alternativeCourses[k].code)
  }

  /** `Contains` with the ordinal case-insensitive comparer. */
  predicate ListsCode(codes: seq<string>, code: string) {
    exists k :: 0 <= k < |codes| && EqualsIgnoreCase(codes[k], code)
  }

  /** A transcript line whose trimmed course code is one of the entry's codes. */
  predicate LineMatches(cfg: CourseForAverage, s: StudentSubject) {
    ListsCode(CodesOf(cfg), Trim(s.courseCode))
  }

  /** The first transcript line the entry matches (the scan stops there). */
  function FirstMatchingLine(cfg: CourseForAverage, xs: seq<StudentSubject>): (r: Option<nat>)
    ensures r.Some? ==> r.value < |xs| && LineMatches(cfg, xs[r.value])
    ensures r.Some? ==> forall j {:trigger LineMatches(cfg, xs[j])} :: 0 <= j < r.value ==> !LineMatches(cfg, xs[j])
    ensures r.None? <==> forall j {:trigger LineMatches(cfg, xs[j])} :: 0 <= j < |xs| ==> !LineMatches(cfg, xs[j])
  {
    FirstFrom(xs, s => LineMatches(cfg, s), 0)
  }

  /** Line `i` is the first line the entry matches. */
  predicate IsFirstMatching(cfg: CourseForAverage, xs: seq<StudentSubject>, i: int) {
    && 0 <= i < |xs|
    && LineMatches(cfg, xs[i])
    && forall j {:trigger LineMatches(cfg, xs[j])} :: 0 <= j < i ==> !LineMatches(cfg, xs[j])
  }

  /** The names of the entry's alternatives, in order. */
  function AlternativeNames(cfg: CourseForAverage): (names: seq<string>)
    ensures |names| == |cfg.alternativeCourses|
    ensures forall k :: 0 <= k < |names| ==> names[k] == cfg.alternativeCourses[k].name
  {
    seq(|cfg.alternativeCourses|, k requires 0 <= k < |cfg.alternativeCourses| => cfg.alternativeCourses[k].name)
  }

  /** The name of the entry's first alternative, if it has one. */
  function FirstAlternativeName(cfg: CourseForAverage): Option<string> {
    if cfg.alternativeCourses == [] then None else Some(cfg.alternativeCourses[0].name)
  }

  /** The key and the record one configured entry stores: the first matching
      line under that line's subject name, or a placeholder under the entry's
      own name. */
  function Entry(cfg: CourseForAverage, xs: seq<StudentSubject>): (string, MeritPointResult) {
    match FirstMatchingLine(cfg, xs)
    case Some(i) =>
      (xs[i].subjectName,
       MeritPointResult(xs[i].subjectName, xs[i].grade, GradeOf(xs[i]), cfg.name,
                        FirstAlternativeName(cfg), AlternativeNames(cfg)))
    case None =>
      (cfg.name,
       MeritPointResult(cfg.name, NotAvailable, 0.0, cfg.name,
                        FirstAlternativeName(cfg), AlternativeNames(cfg)))
  }

  function Entries(cfgs: seq<CourseForAverage>, xs: seq<StudentSubject>): (es: seq<(string, MeritPointResult)>)
    ensures |es| == |cfgs|
    ensures forall i :: 0 <= i < |cfgs| ==> es[i] == Entry(cfgs[i], xs)
  {
    seq(|cfgs|, i requires 0 <= i < |cfgs| => Entry(cfgs[i], xs))
  }

  /** Stores the entries in order; a later key overwrites an equal earlier one. */
  function Store<V>(es: seq<(string, V)>): map<string, V> {
    if es == [] then map[]
    else Store(es[..|es| - 1])[es[|es| - 1].0 := es[|es| - 1].1]
  }

  /** The whole operation: no configuration gives an empty table. */
  function MeritPoints(xs: seq<StudentSubject>, configured: Option<seq<CourseForAverage>>)
    : map<string, MeritPointResult>
  {
    match configured
    case None => map[]
    case Some(cfgs) => Store(Entries(cfgs, xs))
  }

  // ---------------------------------------------------------------------------
  // Facts

  /** An entry that matches no line is stored under its own name, as not
      available and worth 0. */
  lemma UnmatchedEntry(cfg: CourseForAverage, xs: seq<StudentSubject>)
    requires forall i :: 0 <= i < |xs| ==> !LineMatches(cfg, xs[i])
    ensures Entry(cfg, xs).0 == cfg.name
    ensures Entry(cfg, xs).1.courseName == cfg.name
    ensures Entry(cfg, xs).1.studentGrade == NotAvailable
    ensures Entry(cfg, xs).1.meritPoint == 0.0
  {
  }

  /** An entry that matches is stored under the name of the first line whose
      trimmed code it lists, and is worth that line's grade value. */
  lemma MatchedEntry(cfg: CourseForAverage, xs: seq<StudentSubject>, i: nat)
    requires IsFirstMatching(cfg, xs, i)
    ensures Entry(cfg, xs).0 == xs[i].subjectName
    ensures Entry(cfg, xs).1.courseName == xs[i].subjectName
    ensures Entry(cfg, xs).1.studentGrade == xs[i].grade
    ensures Entry(cfg, xs).1.meritPoint == GradeValue(Trim(xs[i].grade))
    ensures Entry(cfg, xs).1.originalCourseGrade == cfg.name
  {
    assert FirstMatchingLine(cfg, xs) == Some(i);
  }

  /** A line carrying the entry's own code, or one of its alternatives' codes,
      makes the entry a match. */
  lemma ListedCodeMatches(cfg: CourseForAverage, s: StudentSubject, k: nat)
    requires k < |CodesOf(cfg)|
    requires EqualsIgnoreCase(CodesOf(cfg)[k], Trim(s.courseCode))
    ensures LineMatches(cfg, s)
  {
  }

  /** Every stored value is on the grade scale. */
  lemma EntryOnScale(cfg: CourseForAverage, xs: seq<StudentSubject>)
    ensures IsGradeValue(Entry(cfg, xs).1.meritPoint)
  {
  }

  lemma StoreStep<V>(es: seq<(string, V)>, e: (string, V))
    ensures Store(es + [e]) == Store(es)[e.0 := e.1]
  {
    assert (es + [e])[..|es|] == es;
  }

  /** Every key is stored, and every stored pair is one of the entries. */
  lemma {:induction false} StoreFrom<V>(es: seq<(string, V)>)
    ensures forall i :: 0 <= i < |es| ==> es[i].0 in Store(es)
    ensures forall k :: k in Store(es) ==> exists i :: 0 <= i < |es| && es[i] == (k, Store(es)[k])
  {
    if es != [] {
      var init := es[..|es| - 1];
      StoreFrom(init);
      assert forall i :: 0 <= i < |init| ==> init[i] == es[i];
      forall k | k in Store(es) ensures exists i :: 0 <= i < |es| && es[i] == (k, Store(es)[k]) {
        if k == es[|es| - 1].0 {
          assert es[|es| - 1] == (k, Store(es)[k]);
        } else {
          var i :| 0 <= i < |init| && init[i] == (k, Store(init)[k]);
          assert es[i] == (k, Store(es)[k]);
        }
      }
    }
  }

  /** The value of a key is that of the last entry with the key. */
  lemma {:induction false} StoreLastWins<V>(es: seq<(string, V)>, i: nat)
    requires i < |es|
    requires forall j :: i < j < |es| ==> es[j].0 != es[i].0
    ensures es[i].0 in Store(es) && Store(es)[es[i].0] == es[i].1
  {
    var init := es[..|es| - 1];
    if i < |es| - 1 {
      assert forall j :: i < j < |init| ==> init[j] == es[j];
      StoreLastWins(init, i);
    }
  }

  /** The table holds the entry of every configured course, and nothing else. */
  lemma TableEntries(xs: seq<StudentSubject>, cfgs: seq<CourseForAverage>)
    ensures forall i :: 0 <= i < |cfgs| ==> Entry(cfgs[i], xs).0 in MeritPoints(xs, Some(cfgs))
    ensures forall k :: k in MeritPoints(xs, Some(cfgs)) ==>
      exists i :: 0 <= i < |cfgs| && Entry(cfgs[i], xs) == (k, MeritPoints(xs, Some(cfgs))[k])
  {
    var es := Entries(cfgs, xs);
    StoreFrom(es);
  }

  /** Every merit point in the table is a grade value. */
  lemma TableOnScale(xs: seq<StudentSubject>, configured: Option<seq<CourseForAverage>>)
    ensures forall k :: k in MeritPoints(xs, configured) ==> IsGradeValue(MeritPoints(xs, configured)[k].meritPoint)
  {
    if configured.Some? {
      var cfgs := configured.value;
      TableEntries(xs, cfgs);
      forall k | k in MeritPoints(xs, configured) ensures IsGradeValue(MeritPoints(xs, configured)[k].meritPoint) {
        var i :| 0 <= i < |cfgs| && Entry(cfgs[i], xs) == (k, MeritPoints(xs, configured)[k]);
        EntryOnScale(cfgs[i], xs);
      }
    }
  }

  /** The entry of a configured course whose key no later course shares is
      the one in the table. */
  lemma TableHoldsLastEntry(xs: seq<StudentSubject>, cfgs: seq<CourseForAverage>, i: nat)
    requires i < |cfgs|
    requires forall j :: i < j < |cfgs| ==> Entry(cfgs[j], xs).0 != Entry(cfgs[i], xs).0
    ensures Entry(cfgs[i], xs).0 in MeritPoints(xs, Some(cfgs))
    ensures MeritPoints(xs, Some(cfgs))[Entry(cfgs[i], xs).0] == Entry(cfgs[i], xs).1
  {
    StoreLastWins(Entries(cfgs, xs), i);
  }

  // ---------------------------------------------------------------------------
  // The loops

  lemma EntriesAppend(cfgs: seq<CourseForAverage>, cfg: CourseForAverage, xs: seq<StudentSubject>)
    ensures Entries(cfgs + [cfg], xs) == Entries(cfgs, xs) + [Entry(cfg, xs)]
  {
    assert forall i :: 0 <= i < |cfgs| ==> (cfgs + [cfg])[i] == cfgs[i];
  }

  /** The scan of the transcript for one configured course. */
  method MeritEntry(cfg: CourseForAverage, xs: seq<StudentSubject>) returns (key: string, result: MeritPointResult)
    ensures (key, result) == Entry(cfg, xs)
  {
    var codes := CodesOf(cfg);
    for i := 0 to |xs|
      invariant forall j :: 0 <= j < i ==> !LineMatches(cfg, xs[j])
    {
      var s := xs[i];
      if ListsCode(codes, Trim(s.courseCode)) {
        assert LineMatches(cfg, xs[i]);
        assert FirstMatchingLine(cfg, xs) == Some(i);
        var value := GradeValue(Trim(s.grade));
        result := MeritPointResult(s.subjectName, s.grade, value, cfg.name,
                                   FirstAlternativeName(cfg), AlternativeNames(cfg));
        return s.subjectName, result;
      }
    }
    result := MeritPointResult(cfg.name, NotAvailable, 0.0, cfg.name,
                               FirstAlternativeName(cfg), AlternativeNames(cfg));
    key := cfg.name;
  }

  method GetCourseMeritPoints(document: GraduationDocument, configured: Option<seq<CourseForAverage>>)
      returns (table: map<string, MeritPointResult>)
    ensures configured.None? ==> table == map[]
    ensures table == MeritPoints(document.subjects, configured)
  {
    table := map[];
    if configured.None? {
      return;
    }
    var cfgs := configured.value;
    var xs := document.subjects;
    for n := 0 to |cfgs|
      invariant table == Store(Entries(cfgs[..n], xs))
    {
      var key, result := MeritEntry(cfgs[n], xs);
      assert cfgs[..n + 1] == cfgs[..n] + [cfgs[n]];
      EntriesAppend(cfgs[..n], cfgs[n], xs);
      StoreStep(Entries(cfgs[..n], xs), (key, result));
      table := table[key := result];
    }
    assert cfgs[..|cfgs|] == cfgs;
  }
}
