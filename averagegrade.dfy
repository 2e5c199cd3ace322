/** `RequirementChecker.CalculateAverageGrade`: the credit-weighted mean grade
    over the courses of the requirement tree that are flagged for the average. */
module AverageGrade {
  import opened Wrappers
  import opened Text
  import opened Numbers
  import opened GradeScale
  import opened Records
  import opened Equivalence
  import opened Evaluation
  import opened Requirements
  import opened Weighted
  import opened Scan

  /** The line answers to some entry of the equivalence list. */
  predicate AnswersAny(eqs: seq<Equivalent>, s: StudentSubject) {
    exists j :: 0 <= j < |eqs| && EquivalentMatches(eqs[j], s)
  }

  /** The first transcript line that answers to the list (the scan stops there). */
  function FirstAnsweringLine(xs: seq<StudentSubject>, eqs: seq<Equivalent>): (r: Option<nat>)
    ensures r.Some? ==> r.value < |xs| && AnswersAny(eqs, xs[r.value])
    ensures r.Some? ==> forall j {:trigger AnswersAny(eqs, xs[j])} :: 0 <= j < r.value ==> !AnswersAny(eqs, xs[j])
    ensures r.None? <==> forall j {:trigger AnswersAny(eqs, xs[j])} :: 0 <= j < |xs| ==> !AnswersAny(eqs, xs[j])
  {
    FirstFrom(xs, s => AnswersAny(eqs, s), 0)
  }

  /** Line `i` is the first line answering to the list. */
  predicate IsFirstAnswering(xs: seq<StudentSubject>, eqs: seq<Equivalent>, i: int) {
    && 0 <= i < |xs|
    && AnswersAny(eqs, xs[i])
    && forall j {:trigger AnswersAny(eqs, xs[j])} :: 0 <= j < i ==> !AnswersAny(eqs, xs[j])
  }

  /** The share of a counted line: the value of its trimmed grade and its
      points read by `int.Parse`, which throws on text that is not a number. */
  function LineShare(s: StudentSubject): Result<Share> {
    match ParseInt32(s.gymnasiumPoints)
    case None => Err(InvalidFormat)
    case Some(p) => Ok(Share(GradeOf(s), p))
  }

  /** What one course of the tree adds to the sums: nothing when it is not
      flagged or no line answers to its equivalents, else the first answering
      line's share. */
  function Contribution(course: Course, xs: seq<StudentSubject>, subjects: seq<Subject>): Result<Option<Share>> {
    if !course.includeInAverage then Ok(None)
    else match FirstAnsweringLine(xs, Equivalents(course.name, subjects))
      case None => Ok(None)
      case Some(i) =>
        match LineShare(xs[i])
        case Err(e) => Err(e)
        case Ok(share) => Ok(Some(share))
  }

  function Contributions(reqs: seq<Course>, xs: seq<StudentSubject>, subjects: seq<Subject>)
    : (cs: seq<Result<Option<Share>>>)
    ensures |cs| == |reqs|
    ensures forall i :: 0 <= i < |reqs| ==> cs[i] == Contribution(reqs[i], xs, subjects)
  {
    seq(|reqs|, i requires 0 <= i < |reqs| => Contribution(reqs[i], xs, subjects))
  }

  /** The running sums after the contributions in order; the first failed
      one aborts. */
  function Total(cs: seq<Result<Option<Share>>>): Result<Totals> {
    if cs == [] then Ok(Zero)
    else
      match Total(cs[..|cs| - 1])
      case Err(e) => Err(e)
      case Ok(t) =>
        match cs[|cs| - 1]
        case Err(e) => Err(e)
        case Ok(None) => Ok(t)
        case Ok(Some(share)) => Ok(Add(t, share))
  }

  /** The mean of the sums, rounded to two decimals; 0 when no points were counted. */
  function MeanGrade(t: Totals): real {
    if t.points == 0 then 0.0 else Round2(t.weighted / t.points as real)
  }

  /** The whole operation: a missing subject list is refused. */
  function AverageOf(document: GraduationDocument, equivalents: CourseEquivalents): Result<real> {
    match equivalents.subjects
    case None => Err(MissingConfiguration)
    case Some(subjects) =>
      match Total(Contributions(AllCourses(subjects), document.subjects, subjects))
      case Err(e) => Err(e)
      case Ok(t) => Ok(MeanGrade(t))
  }

  // ---------------------------------------------------------------------------
  // Facts

  /** What a course contributes: nothing exactly when it is not flagged or no
      line answers; otherwise the share of the first answering line, or a
      format error when that line's points are not a number. */
  lemma ContributionMeaning(course: Course, xs: seq<StudentSubject>, subjects: seq<Subject>, eqs: seq<Equivalent>)
    requires eqs == Equivalents(course.name, subjects)
    ensures Contribution(course, xs, subjects) == Ok(None)
        <==> !course.includeInAverage || forall i :: 0 <= i < |xs| ==> !AnswersAny(eqs, xs[i])
    ensures var c := Contribution(course, xs, subjects);
      c.Ok? && c.value.Some? ==>
        && course.includeInAverage
        && exists i :: IsFirstAnswering(xs, eqs, i)
             && ParseInt32(xs[i].gymnasiumPoints) == Some(c.value.value.points)
             && c.value.value.value == GradeOf(xs[i])
    ensures var c := Contribution(course, xs, subjects);
      c.Err? ==>
        && c == Err(InvalidFormat)
        && course.includeInAverage
        && exists i :: IsFirstAnswering(xs, eqs, i) && ParseInt32(xs[i].gymnasiumPoints).None?
  {
    if course.includeInAverage {
      match FirstAnsweringLine(xs, eqs)
      case None =>
      case Some(i) =>
        assert IsFirstAnswering(xs, eqs, i);
    }
  }

  /** A counted share lies on the grade scale when its points are not negative. */
  lemma ContributionInScale(course: Course, xs: seq<StudentSubject>, subjects: seq<Subject>)
    requires forall i :: 0 <= i < |xs| && ParseInt32(xs[i].gymnasiumPoints).Some? ==>
      ParseInt32(xs[i].gymnasiumPoints).value >= 0
    requires Contribution(course, xs, subjects).Ok? && Contribution(course, xs, subjects).value.Some?
    ensures InScale(Contribution(course, xs, subjects).value.value)
  {
    ContributionMeaning(course, xs, subjects, Equivalents(course.name, subjects));
  }

  lemma TotalStep(cs: seq<Result<Option<Share>>>, c: Result<Option<Share>>)
    ensures Total(cs + [c])
         == match Total(cs)
            case Err(e) => Err(e)
            case Ok(t) =>
              match c
              case Err(e) => Err(e)
              case Ok(None) => Ok(t)
              case Ok(Some(share)) => Ok(Add(t, share))
  {
    assert (cs + [c])[..|cs|] == cs;
  }

  /** An abort is final. */
  lemma {:induction false} TotalErrSticks(a: seq<Result<Option<Share>>>, b: seq<Result<Option<Share>>>)
    requires a <= b
    requires Total(a).Err?
    ensures Total(b) == Total(a)
  {
    if |b| == |a| {
      assert a == b;
    } else {
      var init := b[..|b| - 1];
      assert a <= init;
      TotalErrSticks(a, init);
    }
  }

  /** The sums exist exactly when every contribution does. */
  lemma {:induction false} TotalOkExactly(cs: seq<Result<Option<Share>>>)
    ensures Total(cs).Ok? <==> forall i :: 0 <= i < |cs| ==> cs[i].Ok?
  {
    if cs != [] {
      var init := cs[..|cs| - 1];
      TotalOkExactly(init);
      assert forall i :: 0 <= i < |init| ==> init[i] == cs[i];
    }
  }

  /** Contributions of nothing leave the sums at zero. */
  lemma {:induction false} TotalOfNothing(cs: seq<Result<Option<Share>>>)
    requires forall i :: 0 <= i < |cs| ==> cs[i] == Ok(None)
    ensures Total(cs) == Ok(Zero)
  {
    if cs != [] {
      var init := cs[..|cs| - 1];
      assert forall i :: 0 <= i < |init| ==> init[i] == cs[i];
      TotalOfNothing(init);
    }
  }

  /** Shares on the scale give sums on the scale. */
  lemma {:induction false} TotalWithinScale(cs: seq<Result<Option<Share>>>)
    requires forall i :: 0 <= i < |cs| && cs[i].Ok? && cs[i].value.Some? ==> InScale(cs[i].value.value)
    requires Total(cs).Ok?
    ensures TotalsInScale(Total(cs).value)
  {
    if cs != [] {
      var init := cs[..|cs| - 1];
      assert forall i :: 0 <= i < |init| ==> init[i] == cs[i];
      TotalWithinScale(init);
      var last := cs[|cs| - 1];
      if last.Ok? && last.value.Some? {
        AddWithinScale(Total(init).value, last.value.value);
      }
    }
  }

  /** The average exists exactly when no counted line has points that are not a number. */
  lemma AverageOkExactly(document: GraduationDocument, equivalents: CourseEquivalents)
    requires equivalents.subjects.Some?
    ensures AverageOf(document, equivalents).Ok?
        <==> forall c :: c in AllCourses(equivalents.subjects.value) ==>
               Contribution(c, document.subjects, equivalents.subjects.value).Ok?
  {
    var subjects := equivalents.subjects.value;
    var reqs := AllCourses(subjects);
    var cs := Contributions(reqs, document.subjects, subjects);
    TotalOkExactly(cs);
    if !Total(cs).Ok? {
      var i :| 0 <= i < |cs| && !cs[i].Ok?;
      assert reqs[i] in reqs;
    }
  }

  /** With no flagged course answered on the transcript the average is 0. */
  lemma ZeroWhenNothingCounts(document: GraduationDocument, equivalents: CourseEquivalents)
    requires equivalents.subjects.Some?
    requires forall c :: c in AllCourses(equivalents.subjects.value) ==>
      !c.includeInAverage
      || forall i :: 0 <= i < |document.subjects| ==>
           !AnswersAny(Equivalents(c.name, equivalents.subjects.value), document.subjects[i])
    ensures AverageOf(document, equivalents) == Ok(0.0)
  {
    var subjects := equivalents.subjects.value;
    var reqs := AllCourses(subjects);
    var cs := Contributions(reqs, document.subjects, subjects);
    forall i | 0 <= i < |cs| ensures cs[i] == Ok(None) {
      assert reqs[i] in reqs;
      ContributionMeaning(reqs[i], document.subjects, subjects, Equivalents(reqs[i].name, subjects));
    }
    TotalOfNothing(cs);
  }

  /** With no negative points on the transcript the average lies on the grade scale. */
  lemma AverageWithinScale(document: GraduationDocument, equivalents: CourseEquivalents)
    requires equivalents.subjects.Some?
    requires forall i :: 0 <= i < |document.subjects| && ParseInt32(document.subjects[i].gymnasiumPoints).Some? ==>
      ParseInt32(document.subjects[i].gymnasiumPoints).value >= 0
    requires AverageOf(document, equivalents).Ok?
    ensures 0.0 <= AverageOf(document, equivalents).value <= 20.0
  {
    var subjects := equivalents.subjects.value;
    var reqs := AllCourses(subjects);
    var cs := Contributions(reqs, document.subjects, subjects);
    forall i | 0 <= i < |cs| && cs[i].Ok? && cs[i].value.Some? ensures InScale(cs[i].value.value) {
      ContributionInScale(reqs[i], document.subjects, subjects);
    }
    TotalWithinScale(cs);
    var t := Total(cs).value;
    if t.points != 0 {
      MeanWithinScale(t);
    }
  }

  // ---------------------------------------------------------------------------
  // The loops

  lemma ContributionsAppend(reqs: seq<Course>, c: Course, xs: seq<StudentSubject>, subjects: seq<Subject>)
    ensures Contributions(reqs + [c], xs, subjects)
         == Contributions(reqs, xs, subjects) + [Contribution(c, xs, subjects)]
  {
    assert forall i :: 0 <= i < |reqs| ==> (reqs + [c])[i] == reqs[i];
  }

  lemma ContributionsPrefix(a: seq<Course>, b: seq<Course>, xs: seq<StudentSubject>, subjects: seq<Subject>)
    requires a <= b
    ensures Contributions(a, xs, subjects) <= Contributions(b, xs, subjects)
  {
    assert forall i :: 0 <= i < |a| ==> a[i] == b[i];
  }

  /** A counted course whose first answering line is `i` contributes that line's share. */
  lemma AnsweredAt(course: Course, xs: seq<StudentSubject>, subjects: seq<Subject>, eqs: seq<Equivalent>, i: nat)
    requires course.includeInAverage && eqs == Equivalents(course.name, subjects)
    requires IsFirstAnswering(xs, eqs, i)
    ensures Contribution(course, xs, subjects)
         == match LineShare(xs[i])
            case Err(e) => Err(e)
            case Ok(share) => Ok(Some(share))
  {
    assert FirstAnsweringLine(xs, eqs) == Some(i);
  }

  /** A counted course no line answers to contributes nothing. */
  lemma NothingAnswers(course: Course, xs: seq<StudentSubject>, subjects: seq<Subject>, eqs: seq<Equivalent>)
    requires eqs == Equivalents(course.name, subjects)
    requires forall j :: 0 <= j < |xs| ==> !AnswersAny(eqs, xs[j])
    ensures Contribution(course, xs, subjects) == Ok(None)
  {
  }

  /** The contributions of a subject's courses, one course further. */
  lemma ContributionsNext(done: seq<Course>, courses: seq<Course>, j: nat, xs: seq<StudentSubject>, subjects: seq<Subject>)
    requires j < |courses|
    ensures Contributions(done + courses[..j + 1], xs, subjects)
         == Contributions(done + courses[..j], xs, subjects) + [Contribution(courses[j], xs, subjects)]
  {
    assert done + courses[..j + 1] == (done + courses[..j]) + [courses[j]];
    ContributionsAppend(done + courses[..j], courses[j], xs, subjects);
  }

  /** A failed contribution aborts the rest of the subject. */
  lemma AccumulateAbort(done: seq<Course>, courses: seq<Course>, j: nat, xs: seq<StudentSubject>, subjects: seq<Subject>)
    requires j < |courses|
    requires Total(Contributions(done + courses[..j + 1], xs, subjects)).Err?
    ensures Total(Contributions(done + courses, xs, subjects)) == Total(Contributions(done + courses[..j + 1], xs, subjects))
  {
    ContributionsPrefix(done + courses[..j + 1], done + courses, xs, subjects);
    TotalErrSticks(Contributions(done + courses[..j + 1], xs, subjects), Contributions(done + courses, xs, subjects));
  }

  /** The transcript scan for one course: its share, or nothing. */
  method CourseShare(course: Course, xs: seq<StudentSubject>, equivalents: CourseEquivalents)
      returns (c: Result<Option<Share>>)
    requires equivalents.subjects.Some?
    ensures c == Contribution(course, xs, equivalents.subjects.value)
  {
    if !course.includeInAverage {
      return Ok(None);
    }
    var found := GetEquivalentCourses(course.name, equivalents);
    var eqs := found.value;
    for i := 0 to |xs|
      invariant forall j :: 0 <= j < i ==> !AnswersAny(eqs, xs[j])
    {
      var s := xs[i];
      if AnswersAny(eqs, s) {
        AnsweredAt(course, xs, equivalents.subjects.value, eqs, i);
        var value := GradeValue(Trim(s.grade));
        var points := ParseInt32(s.gymnasiumPoints);
        if points.None? {
          return Err(InvalidFormat);
        }
        return Ok(Some(Share(value, points.value)));
      }
    }
    NothingAnswers(course, xs, equivalents.subjects.value, eqs);
    return Ok(None);
  }

  /** The inner loop: the courses of one subject added to the sums so far;
      the first failed parse aborts. */
  method AccumulateCourses(courses: seq<Course>, xs: seq<StudentSubject>, equivalents: CourseEquivalents,
                           ghost done: seq<Course>, totals: Totals)
      returns (r: Result<Totals>)
    requires equivalents.subjects.Some?
    requires Total(Contributions(done, xs, equivalents.subjects.value)) == Ok(totals)
    ensures r == Total(Contributions(done + courses, xs, equivalents.subjects.value))
  {
    ghost var subjects := equivalents.subjects.value;
    var acc := totals;
    assert done + courses[..0] == done;
    for j := 0 to |courses|
      invariant Total(Contributions(done + courses[..j], xs, subjects)) == Ok(acc)
    {
      var c := CourseShare(courses[j], xs, equivalents);
      ContributionsNext(done, courses, j, xs, subjects);
      TotalStep(Contributions(done + courses[..j], xs, subjects), c);
      if c.Err? {
        AccumulateAbort(done, courses, j, xs, subjects);
        return Err(c.error);
      }
      if c.value.Some? {
        acc := Add(acc, c.value.value);
      }
    }
    assert courses[..|courses|] == courses;
    r := Ok(acc);
  }

  /** The outer loop over the subjects of the tree, then the rounded mean. */
  method CalculateAverageGrade(document: GraduationDocument, equivalents: CourseEquivalents)
      returns (r: Result<real>)
    ensures equivalents.subjects.None? ==> r == Err(MissingConfiguration)
    ensures r == AverageOf(document, equivalents)
  {
    if equivalents.subjects.None? {
      return Err(MissingConfiguration);
    }
    var subjects := equivalents.subjects.value;
    var xs := document.subjects;
    var totals := Zero;
    for i := 0 to |subjects|
      invariant Total(Contributions(AllCourses(subjects[..i]), xs, subjects)) == Ok(totals)
    {
      AllCoursesStep(subjects, i);
      var summed := AccumulateCourses(subjects[i].courses, xs, equivalents, AllCourses(subjects[..i]), totals);
      if summed.Err? {
        AllCoursesPrefix(subjects, i + 1);
        ContributionsPrefix(AllCourses(subjects[..i + 1]), AllCourses(subjects), xs, subjects);
        TotalErrSticks(Contributions(AllCourses(subjects[..i + 1]), xs, subjects), Contributions(AllCourses(subjects), xs, subjects));
        return Err(summed.error);
      }
      totals := summed.value;
    }
    assert subjects[..|subjects|] == subjects;
    if totals.points == 0 {
      return Ok(0.0);
    }
    return Ok(Round2(totals.weighted / totals.points as real));
  }
}
