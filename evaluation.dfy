/** The verdict on one required course: the transcript scan inside
    `RequirementChecker.DoesStudentMeetRequirement` and the report built from it. */
module Evaluation {
  import opened Wrappers
  import opened Text
  import opened GradeScale
  import opened Records

  // ---------------------------------------------------------------------------
  // Matching a transcript line

  /** A direct match: the trimmed subject name or course code equals the
      requirement's name, ignoring case (the name itself is not trimmed). */
  predicate IsDirect(s: StudentSubject, name: string) {
    EqualsIgnoreCase(Trim(s.subjectName), name) || EqualsIgnoreCase(Trim(s.courseCode), name)
  }

  /** A transcript line answers to an equivalence entry by name or by code. */
  predicate EquivalentMatches(e: Equivalent, s: StudentSubject) {
    EqualsIgnoreCase(e.name, Trim(s.subjectName)) || EqualsIgnoreCase(e.code, Trim(s.courseCode))
  }

  /** The first equivalence entry the line answers to (the inner loop stops there). */
  function FirstMatchingEquivalent(eqs: seq<Equivalent>, s: StudentSubject): (r: Option<nat>)
    ensures r.Some? ==> r.value < |eqs| && EquivalentMatches(eqs[r.value], s)
    ensures r.Some? ==> forall j {:trigger EquivalentMatches(eqs[j], s)} :: 0 <= j < r.value ==> !EquivalentMatches(eqs[j], s)
    ensures r.None? <==> forall j {:trigger EquivalentMatches(eqs[j], s)} :: 0 <= j < |eqs| ==> !EquivalentMatches(eqs[j], s)
  {
    if eqs == [] then None
    else if EquivalentMatches(eqs[0], s) then Some(0)
    else match FirstMatchingEquivalent(eqs[1..], s)
      case None => None
      case Some(j) => Some(j + 1)
  }

  /** How a transcript line relates to the requirement. */
  datatype Match = NoMatch | Direct | ByEquivalent(entry: Equivalent)

  /** A direct match takes precedence; otherwise the first answering entry. */
  function Classify(s: StudentSubject, name: string, eqs: seq<Equivalent>): (m: Match)
    ensures m.Direct? <==> IsDirect(s, name)
    ensures m.NoMatch? <==> !IsDirect(s, name) && forall j {:trigger EquivalentMatches(eqs[j], s)} :: 0 <= j < |eqs| ==> !EquivalentMatches(eqs[j], s)
    ensures m.ByEquivalent? ==> m.entry in eqs && EquivalentMatches(m.entry, s)
    ensures m.ByEquivalent? ==>
      exists k :: 0 <= k < |eqs| && m.entry == eqs[k]
        && forall j {:trigger EquivalentMatches(eqs[j], s)} :: 0 <= j < k ==> !EquivalentMatches(eqs[j], s)
  {
    if IsDirect(s, name) then Direct
    else match FirstMatchingEquivalent(eqs, s)
      case None => NoMatch
      case Some(k) => ByEquivalent(eqs[k])
  }

  /** The value of a transcript line's trimmed grade. */
  function GradeOf(s: StudentSubject): real {
    GradeValue(Trim(s.grade))
  }

  /** A transcript line as the scan sees it: how it matches and the value of
      its grade, each worked out once. */
  datatype Line = Line(m: Match, v: real, s: StudentSubject)

  function LineOf(s: StudentSubject, name: string, eqs: seq<Equivalent>): Line {
    Line(Classify(s, name, eqs), GradeOf(s), s)
  }

  function Lines(xs: seq<StudentSubject>, name: string, eqs: seq<Equivalent>): (ls: seq<Line>)
    ensures |ls| == |xs|
    ensures forall i :: 0 <= i < |xs| ==> ls[i] == LineOf(xs[i], name, eqs)
  {
    seq(|xs|, i requires 0 <= i < |xs| => LineOf(xs[i], name, eqs))
  }

  /** A grade passes when it reaches the required value and is not a fail. */
  predicate Passes(v: real, required: real) {
    v >= required && v > 0.0
  }

  // ---------------------------------------------------------------------------
  // The scan: the local variables of the loop over the transcript

  datatype Scan = Scan(
    met: bool,
    studentGrade: string,
    metByAlternative: bool,
    metByHigher: bool,
    fulfilling: string,
    higherName: Option<string>,
    higherGrade: Option<string>,
    others: seq<string>,
    failed: bool)

  /** The grade reported for a course the transcript does not mention. */
  const NotAvailable: string := "N/A"

  /** The grade reported for a failed course. */
  const FailGrade: string := "F"

  /** The separator of a note's subject name and grade. */
  const NoteSeparator: string := ": "

  /** The variables before the first transcript line. */
  function Initial(name: string): Scan {
    Scan(false, NotAvailable, false, false, name, None, None, [], false)
  }

  /** The note kept for an equivalent course that did not pass. */
  function Note(s: StudentSubject): string {
    s.subjectName + NoteSeparator + s.grade
  }

  /** What a requirement course contributes to the scan: its name, the value
      of its required grade and its level. */
  datatype Target = Target(name: string, required: real, level: int)

  function TargetOf(course: Course): Target {
    Target(course.name, GradeValue(course.requiredGrade), course.level)
  }

  /** The effect of one transcript line on the variables. */
  function Step(st: Scan, l: Line, t: Target): Scan {
    match l.m
    case NoMatch => st
    case Direct =>
      if Passes(l.v, t.required) then st.(met := true, studentGrade := Trim(l.s.grade), fulfilling := t.name)
      else if l.v == 0.0 then st.(failed := true, studentGrade := Trim(l.s.grade), fulfilling := t.name)
      else st
    case ByEquivalent(e) =>
      if Passes(l.v, t.required) then
        if e.level == t.level then
          st.(metByAlternative := true, studentGrade := l.s.grade, fulfilling := e.name, met := true)
        else if e.level > t.level then
          st.(metByHigher := true, higherGrade := Some(l.s.grade), higherName := Some(e.name))
        else st
      else if l.v == 0.0 then st.(failed := true, others := st.others + [Note(l.s)])
      else st.(others := st.others + [Note(l.s)])
  }

  /** The variables after scanning the lines `ls` in order. */
  function ScanAll(ls: seq<Line>, t: Target): Scan {
    if ls == [] then Initial(t.name)
    else Step(ScanAll(ls[..|ls| - 1], t), ls[|ls| - 1], t)
  }

  // ---------------------------------------------------------------------------
  // What a single line does

  /** A line that fails: any match whose grade value is 0. */
  predicate Fails(l: Line) {
    !l.m.NoMatch? && l.v == 0.0
  }

  /** A line that meets the requirement by an equivalent at the required level. */
  predicate QualifiesByEquivalent(l: Line, t: Target) {
    Passes(l.v, t.required) && l.m.ByEquivalent? && l.m.entry.level == t.level
  }

  /** A line that meets the requirement: a direct pass or a pass by an
      equivalent at the required level. */
  predicate Qualifies(l: Line, t: Target) {
    (Passes(l.v, t.required) && l.m.Direct?) || QualifiesByEquivalent(l, t)
  }

  /** A pass by an equivalent above the required level. */
  predicate PassesHigher(l: Line, t: Target) {
    Passes(l.v, t.required) && l.m.ByEquivalent? && l.m.entry.level > t.level
  }

  // ---------------------------------------------------------------------------
  // The report

  /** The first entry whose name equals the given one, ignoring case
      (`equivalentCourses.First(...)`). */
  function FirstNamed(eqs: seq<Equivalent>, name: string): (r: Option<nat>)
    ensures r.Some? ==> r.value < |eqs| && EqualsIgnoreCase(eqs[r.value].name, name)
    ensures r.Some? ==> forall j {:trigger EqualsIgnoreCase(eqs[j].name, name)} :: 0 <= j < r.value ==> !EqualsIgnoreCase(eqs[j].name, name)
    ensures r.None? <==> forall j {:trigger EqualsIgnoreCase(eqs[j].name, name)} :: 0 <= j < |eqs| ==> !EqualsIgnoreCase(eqs[j].name, name)
  {
    if eqs == [] then None
    else if EqualsIgnoreCase(eqs[0].name, name) then Some(0)
    else match FirstNamed(eqs[1..], name)
      case None => None
      case Some(j) => Some(j + 1)
  }

  /** The result record; the optional fields are present only under their flag. */
  function Report(st: Scan, courseName: string, isMet: bool, grade: string, requiredGrade: string): RequirementResult {
    RequirementResult(
      courseName, requiredGrade, isMet, grade,
      st.metByAlternative,
      if st.metByAlternative then Some(courseName) else None,
      if st.metByAlternative then Some(grade) else None,
      st.metByHigher,
      if st.metByHigher then st.higherName else None,
      if st.metByHigher then st.higherGrade else None,
      st.others)
  }

  /** The failure override, then the report; looking up the fulfilling name
      among the entries fails when none carries it. */
  function Finish(st: Scan, eqs: seq<Equivalent>, requiredGrade: string): Result<RequirementResult> {
    var isMet := st.met && !st.failed;
    var grade := if st.failed then FailGrade else st.studentGrade;
    if isMet && st.metByAlternative then
      match FirstNamed(eqs, st.fulfilling)
      case None => Err(NoMatchingElement)
      case Some(k) => Ok(Report(st, eqs[k].name, isMet, grade, requiredGrade))
    else Ok(Report(st, st.fulfilling, isMet, grade, requiredGrade))
  }

  /** The verdict on `course` for the transcript lines `xs`, given the
      course's equivalence entries. */
  function Evaluate(course: Course, xs: seq<StudentSubject>, eqs: seq<Equivalent>): Result<RequirementResult> {
    Finish(ScanAll(Lines(xs, course.name, eqs), TargetOf(course)), eqs, course.requiredGrade)
  }

  // ---------------------------------------------------------------------------
  // Facts about the scan, one variable at a time

  lemma {:induction false} ScanFailed(ls: seq<Line>, t: Target)
    ensures ScanAll(ls, t).failed <==> exists i :: 0 <= i < |ls| && Fails(ls[i])
  {
    if ls != [] {
      var init := ls[..|ls| - 1];
      ScanFailed(init, t);
      assert forall i :: 0 <= i < |init| ==> init[i] == ls[i];
    }
  }

  lemma {:induction false} ScanMet(ls: seq<Line>, t: Target)
    ensures ScanAll(ls, t).met <==> exists i :: 0 <= i < |ls| && Qualifies(ls[i], t)
  {
    if ls != [] {
      var init := ls[..|ls| - 1];
      ScanMet(init, t);
      assert forall i :: 0 <= i < |init| ==> init[i] == ls[i];
    }
  }

  lemma {:induction false} ScanAlternative(ls: seq<Line>, t: Target)
    ensures ScanAll(ls, t).metByAlternative <==> exists i :: 0 <= i < |ls| && QualifiesByEquivalent(ls[i], t)
  {
    if ls != [] {
      var init := ls[..|ls| - 1];
      ScanAlternative(init, t);
      assert forall i :: 0 <= i < |init| ==> init[i] == ls[i];
    }
  }

  /** The higher-level name and grade are set exactly when the flag is. */
  predicate HigherConsistent(st: Scan) {
    st.higherName.Some? == st.metByHigher && st.higherGrade.Some? == st.metByHigher
  }

  lemma {:induction false} ScanHigher(ls: seq<Line>, t: Target)
    ensures HigherConsistent(ScanAll(ls, t))
    ensures ScanAll(ls, t).metByHigher <==> exists i :: 0 <= i < |ls| && PassesHigher(ls[i], t)
  {
    if ls != [] {
      var init := ls[..|ls| - 1];
      ScanHigher(init, t);
      assert forall i :: 0 <= i < |init| ==> init[i] == ls[i];
    }
  }

  /** The fulfilling name is the requirement's own or that of an entry. */
  predicate FulfilledFrom(st: Scan, name: string, eqs: seq<Equivalent>) {
    st.fulfilling == name || exists k :: 0 <= k < |eqs| && eqs[k].name == st.fulfilling
  }

  /** Every equivalence match names an entry of `eqs`. */
  predicate EntriesFrom(ls: seq<Line>, eqs: seq<Equivalent>) {
    forall i :: 0 <= i < |ls| && ls[i].m.ByEquivalent? ==> ls[i].m.entry in eqs
  }

  lemma {:induction false} ScanFulfilling(ls: seq<Line>, t: Target, eqs: seq<Equivalent>)
    requires EntriesFrom(ls, eqs)
    ensures FulfilledFrom(ScanAll(ls, t), t.name, eqs)
  {
    if ls != [] {
      var init, last := ls[..|ls| - 1], ls[|ls| - 1];
      assert EntriesFrom(init, eqs);
      ScanFulfilling(init, t, eqs);
      if last.m.ByEquivalent? {
        var k :| 0 <= k < |eqs| && eqs[k] == last.m.entry;
      }
    }
  }

  lemma {:induction false} ScanUntouched(ls: seq<Line>, t: Target)
    requires forall i :: 0 <= i < |ls| ==> ls[i].m.NoMatch?
    ensures ScanAll(ls, t) == Initial(t.name)
  {
    if ls != [] {
      var init := ls[..|ls| - 1];
      assert forall i :: 0 <= i < |init| ==> init[i] == ls[i];
      ScanUntouched(init, t);
    }
  }

  lemma EntriesOfLines(xs: seq<StudentSubject>, name: string, eqs: seq<Equivalent>)
    ensures EntriesFrom(Lines(xs, name, eqs), eqs)
  {
  }

  /** Higher-level name recorded is that of an entry above the required level. */
  predicate HigherFrom(st: Scan, t: Target, eqs: seq<Equivalent>) {
    st.higherName.Some? ==> exists k :: 0 <= k < |eqs| && eqs[k].name == st.higherName.value && eqs[k].level > t.level
  }

  lemma {:induction false} ScanHigherName(ls: seq<Line>, t: Target, eqs: seq<Equivalent>)
    requires EntriesFrom(ls, eqs)
    ensures HigherFrom(ScanAll(ls, t), t, eqs)
  {
    if ls != [] {
      var init, last := ls[..|ls| - 1], ls[|ls| - 1];
      assert EntriesFrom(init, eqs);
      ScanHigherName(init, t, eqs);
      if last.m.ByEquivalent? {
        var k :| 0 <= k < |eqs| && eqs[k] == last.m.entry;
      }
    }
  }

  // ---------------------------------------------------------------------------
  // Facts about the verdict

  /** Any matching line with grade value 0, direct or by an equivalent at any
      level, forces "not met" with grade "F", whatever passed before or after. */
  lemma FailureOverrides(course: Course, xs: seq<StudentSubject>, eqs: seq<Equivalent>)
    requires exists i :: 0 <= i < |xs| && Fails(LineOf(xs[i], course.name, eqs))
    ensures Evaluate(course, xs, eqs).Ok?
    ensures !Evaluate(course, xs, eqs).value.isMet
    ensures Evaluate(course, xs, eqs).value.studentGrade == FailGrade
  {
    ScanFailed(Lines(xs, course.name, eqs), TargetOf(course));
  }

  /** A course is met exactly when some line qualifies (a direct pass, or a
      pass by an equivalent at the required level) and no line fails. */
  lemma MetExactly(course: Course, xs: seq<StudentSubject>, eqs: seq<Equivalent>)
    requires Evaluate(course, xs, eqs).Ok?
    ensures Evaluate(course, xs, eqs).value.isMet
        <==> (exists i :: 0 <= i < |xs| && Qualifies(LineOf(xs[i], course.name, eqs), TargetOf(course)))
             && !(exists i :: 0 <= i < |xs| && Fails(LineOf(xs[i], course.name, eqs)))
  {
    var ls := Lines(xs, course.name, eqs);
    ScanMet(ls, TargetOf(course));
    ScanFailed(ls, TargetOf(course));
  }

  /** Without a qualifying line the course is not met, and the lookup of the
      fulfilling name is never reached: a pass above the required level on
      its own does not meet the course. */
  lemma HigherAloneNeverMeets(course: Course, xs: seq<StudentSubject>, eqs: seq<Equivalent>)
    requires forall i :: 0 <= i < |xs| ==> !Qualifies(LineOf(xs[i], course.name, eqs), TargetOf(course))
    ensures Evaluate(course, xs, eqs).Ok?
    ensures !Evaluate(course, xs, eqs).value.isMet
  {
    ScanMet(Lines(xs, course.name, eqs), TargetOf(course));
  }

  /** The higher-level flag is set exactly by a pass above the required level;
      its name and grade are present exactly under the flag, and the name is
      that of an entry above the required level. */
  lemma HigherReported(course: Course, xs: seq<StudentSubject>, eqs: seq<Equivalent>)
    requires Evaluate(course, xs, eqs).Ok?
    ensures var r := Evaluate(course, xs, eqs).value;
      && (r.metByHigherLevelCourse <==> exists i :: 0 <= i < |xs| && PassesHigher(LineOf(xs[i], course.name, eqs), TargetOf(course)))
      && (r.higherLevelCourseName.Some? <==> r.metByHigherLevelCourse)
      && (r.higherLevelCourseGrade.Some? <==> r.metByHigherLevelCourse)
      && (r.higherLevelCourseName.Some? ==>
            exists k :: 0 <= k < |eqs| && eqs[k].name == r.higherLevelCourseName.value && eqs[k].level > course.level)
  {
    var ls := Lines(xs, course.name, eqs);
    ScanHigher(ls, TargetOf(course));
    EntriesOfLines(xs, course.name, eqs);
    ScanHigherName(ls, TargetOf(course), eqs);
  }

  /** The alternative flag is set exactly by a pass by an equivalent at the
      required level; its name and grade are present exactly under the flag,
      and when the course is met that way the name is the name of an entry. */
  lemma AlternativeReported(course: Course, xs: seq<StudentSubject>, eqs: seq<Equivalent>)
    requires Evaluate(course, xs, eqs).Ok?
    ensures var r := Evaluate(course, xs, eqs).value;
      && (r.metByAlternativeCourse <==> exists i :: 0 <= i < |xs| && QualifiesByEquivalent(LineOf(xs[i], course.name, eqs), TargetOf(course)))
      && (r.alternativeCourseName.Some? <==> r.metByAlternativeCourse)
      && (r.alternativeCourseGrade.Some? <==> r.metByAlternativeCourse)
      && (r.isMet && r.metByAlternativeCourse ==>
            r.alternativeCourseName == Some(r.courseName) && exists k :: 0 <= k < |eqs| && eqs[k].name == r.courseName)
  {
    ScanAlternative(Lines(xs, course.name, eqs), TargetOf(course));
  }

  /** A transcript with no line matching the course, directly or by any
      entry, gives the untouched report: not met, "N/A", the course's name. */
  lemma UnmatchedReport(course: Course, xs: seq<StudentSubject>, eqs: seq<Equivalent>)
    requires forall i :: 0 <= i < |xs| ==>
      !IsDirect(xs[i], course.name) && forall j :: 0 <= j < |eqs| ==> !EquivalentMatches(eqs[j], xs[i])
    ensures Evaluate(course, xs, eqs)
         == Ok(RequirementResult(course.name, course.requiredGrade, false, NotAvailable, false, None, None, false, None, None, []))
  {
    ScanUntouched(Lines(xs, course.name, eqs), TargetOf(course));
  }

  /** The lookup of the fulfilling name fails only when the course was met by
      an equivalent, a later direct pass put the requirement's own name back,
      and no entry carries that name. */
  lemma EvaluateFailsOnlyWhenNameUnlisted(course: Course, xs: seq<StudentSubject>, eqs: seq<Equivalent>)
    ensures Evaluate(course, xs, eqs).Err? ==>
      && (exists i :: 0 <= i < |xs| && QualifiesByEquivalent(LineOf(xs[i], course.name, eqs), TargetOf(course)))
      && !(exists i :: 0 <= i < |xs| && Fails(LineOf(xs[i], course.name, eqs)))
      && forall k :: 0 <= k < |eqs| ==> !EqualsIgnoreCase(eqs[k].name, course.name)
  {
    var ls := Lines(xs, course.name, eqs);
    ScanAlternative(ls, TargetOf(course));
    ScanFailed(ls, TargetOf(course));
    EntriesOfLines(xs, course.name, eqs);
    ScanFulfilling(ls, TargetOf(course), eqs);
    var st := ScanAll(ls, TargetOf(course));
    if Evaluate(course, xs, eqs).Err? && st.fulfilling != course.name {
      var k :| 0 <= k < |eqs| && eqs[k].name == st.fulfilling;
      assert EqualsIgnoreCase(eqs[k].name, st.fulfilling);
    }
  }

  // ---------------------------------------------------------------------------
  // The loops

  /** One pass of the loop over the transcript: the direct test, otherwise
      the loop over the entries, which stops at the first one the line
      answers to. */
  method ScanLine(st: Scan, s: StudentSubject, eqs: seq<Equivalent>, t: Target) returns (next: Scan)
    ensures next == Step(st, LineOf(s, t.name, eqs), t)
  {
    next := st;
    if IsDirect(s, t.name) {
      var grade := Trim(s.grade);
      var v := GradeValue(grade);
      if Passes(v, t.required) {
        next := next.(met := true, studentGrade := grade, fulfilling := t.name);
      } else if v == 0.0 {
        next := next.(failed := true, studentGrade := grade, fulfilling := t.name);
      }
    } else {
      var k := 0;
      while k < |eqs|
        invariant 0 <= k <= |eqs|
        invariant forall j :: 0 <= j < k ==> !EquivalentMatches(eqs[j], s)
        invariant next == st
      {
        var e := eqs[k];
        if EquivalentMatches(e, s) {
          assert FirstMatchingEquivalent(eqs, s) == Some(k);
          var v := GradeValue(Trim(s.grade));
          if Passes(v, t.required) {
            if e.level == t.level {
              next := next.(metByAlternative := true, studentGrade := s.grade, fulfilling := e.name, met := true);
            } else if e.level > t.level {
              next := next.(metByHigher := true, higherGrade := Some(s.grade), higherName := Some(e.name));
            }
          } else if v == 0.0 {
            next := next.(failed := true, others := next.others + [Note(s)]);
          } else {
            next := next.(others := next.others + [Note(s)]);
          }
          break;
        }
        k := k + 1;
      }
    }
  }

  lemma LinesStep(xs: seq<StudentSubject>, i: nat, name: string, eqs: seq<Equivalent>)
    requires i < |xs|
    ensures Lines(xs[..i + 1], name, eqs) == Lines(xs[..i], name, eqs) + [LineOf(xs[i], name, eqs)]
  {
    assert Lines(xs[..i + 1], name, eqs)[..i] == Lines(xs[..i], name, eqs);
  }

  /** The verdict on one required course: the scan of the whole transcript,
      then the report. */
  method EvaluateRequirement(course: Course, xs: seq<StudentSubject>, eqs: seq<Equivalent>)
      returns (r: Result<RequirementResult>)
    ensures r == Evaluate(course, xs, eqs)
  {
    var t := TargetOf(course);
    var st := Initial(course.name);
    var i := 0;
    while i < |xs|
      invariant 0 <= i <= |xs|
      invariant st == ScanAll(Lines(xs[..i], course.name, eqs), t)
    {
      st := ScanLine(st, xs[i], eqs, t);
      LinesStep(xs, i, course.name, eqs);
      i := i + 1;
    }
    assert xs[..i] == xs;
    r := Finish(st, eqs, course.requiredGrade);
  }
}
