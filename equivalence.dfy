/** Course-equivalence resolution: `RequirementChecker.GetEquivalentCourses`. */
module Equivalence {
  import opened Wrappers
  import opened Text
  import opened Records
  import opened Scan

  /** `string.Equals(a?.Trim(), b?.Trim(), StringComparison.OrdinalIgnoreCase)`. */
  predicate SameTrimmed(a: string, b: string) {
    EqualsIgnoreCase(Trim(a), Trim(b))
  }

  predicate AlternativeAnswers(a: AlternativeCourse, query: string) {
    SameTrimmed(a.name, query) || SameTrimmed(a.code, query)
  }

  /** A course answers to a query by its name, its code, or the name or the
      code of one of its alternatives. */
  predicate CourseAnswers(c: Course, query: string) {
    || SameTrimmed(c.name, query)
    || SameTrimmed(c.code, query)
    || exists k :: 0 <= k < |c.alternatives| && AlternativeAnswers(c.alternatives[k], query)
  }

  /** `subject.Courses.FirstOrDefault(...)`: the first course answering the query. */
  function FirstAnswering(courses: seq<Course>, query: string): (r: Option<nat>)
    ensures r.Some? ==> r.value < |courses| && CourseAnswers(courses[r.value], query)
    ensures r.Some? ==> forall j {:trigger CourseAnswers(courses[j], query)} :: 0 <= j < r.value ==> !CourseAnswers(courses[j], query)
    ensures r.None? <==> forall j {:trigger CourseAnswers(courses[j], query)} :: 0 <= j < |courses| ==> !CourseAnswers(courses[j], query)
  {
    FirstFrom(courses, c => CourseAnswers(c, query), 0)
  }

  /** A subject answers to a query when one of its courses does. */
  predicate SubjectAnswers(s: Subject, query: string) {
    FirstAnswering(s.courses, query).Some?
  }

  /** The first subject of the tree holding a course that answers the query. */
  function FirstAnsweringSubject(subjects: seq<Subject>, query: string): (r: Option<nat>)
    ensures r.Some? ==> r.value < |subjects| && SubjectAnswers(subjects[r.value], query)
    ensures r.Some? ==> forall i :: 0 <= i < r.value ==> !SubjectAnswers(subjects[i], query)
    ensures r.None? <==> forall i :: 0 <= i < |subjects| ==> !SubjectAnswers(subjects[i], query)
  {
    FirstFrom(subjects, s => SubjectAnswers(s, query), 0)
  }

  /** The entry a course contributes for itself. */
  function EntryOf(c: Course): Equivalent {
    Equivalent(c.name, c.code, c.level)
  }

  /** The alternatives of a course, each at the level given (its parent's). */
  function AlternativeEntries(alternatives: seq<AlternativeCourse>, level: int): (r: seq<Equivalent>)
    ensures |r| == |alternatives|
    ensures forall k :: 0 <= k < |r| ==> r[k] == Equivalent(alternatives[k].name, alternatives[k].code, level)
  {
    seq(|alternatives|, k requires 0 <= k < |alternatives| => Equivalent(alternatives[k].name, alternatives[k].code, level))
  }

  /** A kept course immediately followed by its alternatives. */
  function Block(c: Course): seq<Equivalent> {
    [EntryOf(c)] + AlternativeEntries(c.alternatives, c.level)
  }

  /** The blocks of the courses whose level is at least the pivot, in order. */
  function Expand(courses: seq<Course>, pivot: int): seq<Equivalent> {
    if courses == [] then []
    else
      var last := courses[|courses| - 1];
      Expand(courses[..|courses| - 1], pivot) + (if last.level >= pivot then Block(last) else [])
  }

  /** The entry used when no subject answers the query. */
  function Fallback(query: string): Equivalent {
    Equivalent(query, query, 0)
  }

  /** What `GetEquivalentCourses` returns for a tree with subjects. */
  function Equivalents(query: string, subjects: seq<Subject>): (r: seq<Equivalent>)
    ensures |r| > 0
  {
    var found :=
      match FirstAnsweringSubject(subjects, query)
      case None => []
      case Some(i) =>
        var courses := subjects[i].courses;
        Expand(courses, courses[FirstAnswering(courses, query).value].level);
    if |found| == 0 then [Fallback(query)] else found
  }

  // ---------------------------------------------------------------------------
  // The implementation

  /** `GetEquivalentCourses`: scans the subjects in order; in the first one that
      holds an answering course it appends every course of level at least that
      course's level, each followed by its alternatives, and stops. */
  method GetEquivalentCourses(query: string, equivalents: CourseEquivalents) returns (r: Result<seq<Equivalent>>)
    ensures equivalents.subjects.None? ==> r == Err(MissingConfiguration)
    ensures equivalents.subjects.Some? ==> r == Ok(Equivalents(query, equivalents.subjects.value))
  {
    if equivalents.subjects.None? {
      return Err(MissingConfiguration);
    }
    var subjects := equivalents.subjects.value;
    var result: seq<Equivalent> := [];
    var i := 0;
    while i < |subjects|
      invariant 0 <= i <= |subjects|
      invariant forall i' :: 0 <= i' < i ==> !SubjectAnswers(subjects[i'], query)
      invariant result == []
    {
      var courses := subjects[i].courses;
      var required := FirstAnswering(courses, query);
      if required.Some? {
        result := AppendHigherOrEqual(result, courses, courses[required.value].level);
        EquivalentsOfSubject(query, subjects, i, required.value);
        assert result == Equivalents(query, subjects) && |result| > 0;
        break;
      }
      i := i + 1;
    }
    if |result| == 0 {
      EquivalentsWithoutAnswer(query, subjects);
      result := [Fallback(query)];
    }
    r := Ok(result);
  }

  /** The inner loops of `GetEquivalentCourses`: appends each course of level at
      least `requiredLevel`, then its alternatives at that course's level. */
  method AppendHigherOrEqual(prefix: seq<Equivalent>, courses: seq<Course>, requiredLevel: int)
    returns (result: seq<Equivalent>)
    ensures result == prefix + Expand(courses, requiredLevel)
  {
    result := prefix;
    var j := 0;
    while j < |courses|
      invariant 0 <= j <= |courses|
      invariant result == prefix + Expand(courses[..j], requiredLevel)
    {
      ghost var before := result;
      if courses[j].level >= requiredLevel {
        result := AppendBlock(result, courses[j]);
      }
      ExpandExtend(prefix, courses, j, requiredLevel, before, result);
      j := j + 1;
    }
    assert courses[..j] == courses;
  }

  /** One course of the inner loops: the course, then its alternatives at its level. */
  method AppendBlock(prefix: seq<Equivalent>, c: Course) returns (result: seq<Equivalent>)
    ensures result == prefix + Block(c)
  {
    result := prefix + [EntryOf(c)];
    var k := 0;
    while k < |c.alternatives|
      invariant 0 <= k <= |c.alternatives|
      invariant result == prefix + ([EntryOf(c)] + AlternativeEntries(c.alternatives[..k], c.level))
    {
      var alt := c.alternatives[k];
      AlternativeEntriesStep(c.alternatives, k, c.level);
      result := result + [Equivalent(alt.name, alt.code, c.level)];
      k := k + 1;
    }
    assert c.alternatives[..k] == c.alternatives;
  }

  /** One turn of the outer loop keeps `result == prefix + Expand(courses[..j], pivot)`. */
  lemma ExpandExtend(prefix: seq<Equivalent>, courses: seq<Course>, j: nat, pivot: int,
                     before: seq<Equivalent>, after: seq<Equivalent>)
    requires j < |courses|
    requires before == prefix + Expand(courses[..j], pivot)
    requires after == if courses[j].level >= pivot then before + Block(courses[j]) else before
    ensures after == prefix + Expand(courses[..j + 1], pivot)
  {
    ExpandStep(courses, j, pivot);
    var e := Expand(courses[..j], pivot);
    if courses[j].level >= pivot {
      AppendAssociates(prefix, e, Block(courses[j]));
    } else {
      assert e + [] == e;
    }
  }

  lemma AppendAssociates<T>(a: seq<T>, b: seq<T>, c: seq<T>)
    ensures (a + b) + c == a + (b + c)
  {
  }

  lemma ExpandStep(courses: seq<Course>, j: nat, pivot: int)
    requires j < |courses|
    ensures Expand(courses[..j + 1], pivot) ==
      Expand(courses[..j], pivot) + (if courses[j].level >= pivot then Block(courses[j]) else [])
  {
    assert courses[..j + 1][..j] == courses[..j];
  }

  lemma AlternativeEntriesStep(alternatives: seq<AlternativeCourse>, k: nat, level: int)
    requires k < |alternatives|
    ensures AlternativeEntries(alternatives[..k + 1], level) ==
      AlternativeEntries(alternatives[..k], level) + [Equivalent(alternatives[k].name, alternatives[k].code, level)]
  {
  }

  /** The list for a query that subject `i` is the first to answer, first at
      its course `j`. */
  lemma EquivalentsOfSubject(query: string, subjects: seq<Subject>, i: nat, j: nat)
    requires i < |subjects| && FirstAnswering(subjects[i].courses, query) == Some(j)
    requires forall i' :: 0 <= i' < i ==> !SubjectAnswers(subjects[i'], query)
    ensures Expand(subjects[i].courses, subjects[i].courses[j].level) != []
    ensures Equivalents(query, subjects) == [] + Expand(subjects[i].courses, subjects[i].courses[j].level)
  {
    var courses := subjects[i].courses;
    FirstAnsweringSubjectIs(query, subjects, i);
    ExpandKeepsPivot(courses, j);
  }

  lemma FirstAnsweringSubjectIs(query: string, subjects: seq<Subject>, i: nat)
    requires i < |subjects| && SubjectAnswers(subjects[i], query)
    requires forall i' :: 0 <= i' < i ==> !SubjectAnswers(subjects[i'], query)
    ensures FirstAnsweringSubject(subjects, query) == Some(i)
  {
  }

  /** The course whose level is the pivot is always kept. */
  lemma ExpandKeepsPivot(courses: seq<Course>, j: nat)
    requires j < |courses|
    ensures Expand(courses, courses[j].level) != []
    ensures [] + Expand(courses, courses[j].level) == Expand(courses, courses[j].level)
  {
    ExpandMembership(courses, courses[j].level, EntryOf(courses[j]));
  }

  /** The list for a query no subject answers. */
  lemma EquivalentsWithoutAnswer(query: string, subjects: seq<Subject>)
    requires forall i :: 0 <= i < |subjects| ==> !SubjectAnswers(subjects[i], query)
    ensures Equivalents(query, subjects) == [Fallback(query)]
  {
  }

  // ---------------------------------------------------------------------------
  // Properties

  /** When no course of any subject answers the query, the list is exactly the
      query itself, as name and code, at level 0. */
  lemma FallbackWhenUnmatched(query: string, subjects: seq<Subject>)
    requires forall i, j :: 0 <= i < |subjects| && 0 <= j < |subjects[i].courses| ==>
      !CourseAnswers(subjects[i].courses[j], query)
    ensures Equivalents(query, subjects) == [Equivalent(query, query, 0)]
  {
    assert FirstAnsweringSubject(subjects, query).None?;
  }

  /** When subject `i` is the first to hold an answering course and course `j`
      is the first such course in it, the list is that subject's expansion
      around course `j`'s level; it is never the fallback. */
  lemma ResolvedByFirstMatch(query: string, subjects: seq<Subject>, i: nat, j: nat)
    requires i < |subjects| && j < |subjects[i].courses|
    requires CourseAnswers(subjects[i].courses[j], query)
    requires forall j' :: 0 <= j' < j ==> !CourseAnswers(subjects[i].courses[j'], query)
    requires forall i', j' :: 0 <= i' < i && 0 <= j' < |subjects[i'].courses| ==>
      !CourseAnswers(subjects[i'].courses[j'], query)
    ensures Equivalents(query, subjects) == Expand(subjects[i].courses, subjects[i].courses[j].level)
    ensures EntryOf(subjects[i].courses[j]) in Equivalents(query, subjects)
  {
    var courses := subjects[i].courses;
    assert FirstAnswering(courses, query) == Some(j);
    forall i' | 0 <= i' < i ensures !SubjectAnswers(subjects[i'], query) {
    }
    EquivalentsOfSubject(query, subjects, i, j);
    ExpandMembership(courses, courses[j].level, EntryOf(courses[j]));
  }

  /** An entry is in the expansion exactly when it is a kept course (level at
      least the pivot) or an alternative of a kept course, carrying that
      course's level. */
  lemma {:induction false} ExpandMembership(courses: seq<Course>, pivot: int, e: Equivalent)
    ensures e in Expand(courses, pivot) <==>
      exists j :: 0 <= j < |courses| && courses[j].level >= pivot && e in Block(courses[j])
  {
    if courses != [] {
      var init := courses[..|courses| - 1];
      ExpandMembership(init, pivot, e);
      if e in Expand(courses, pivot) {
        if e !in Expand(init, pivot) {
          assert e in Block(courses[|courses| - 1]);
        } else {
          var j :| 0 <= j < |init| && init[j].level >= pivot && e in Block(init[j]);
          assert courses[j] == init[j];
        }
      }
      if exists j :: 0 <= j < |courses| && courses[j].level >= pivot && e in Block(courses[j]) {
        var j :| 0 <= j < |courses| && courses[j].level >= pivot && e in Block(courses[j]);
        if j < |init| {
          assert init[j] == courses[j];
        }
      }
    }
  }

  /** Every entry of a block is the course or one of its alternatives, at the
      course's own level. */
  lemma BlockEntries(c: Course, e: Equivalent)
    requires e in Block(c)
    ensures e.level == c.level
    ensures e == EntryOf(c) ||
      exists k :: 0 <= k < |c.alternatives| && e == Equivalent(c.alternatives[k].name, c.alternatives[k].code, c.level)
  {
  }

  /** When a subject answers, every entry comes from that subject, at a level
      no lower than the answering course's, and alternatives carry their parent
      course's level. */
  lemma EntriesComeFromMatchedSubject(query: string, subjects: seq<Subject>, i: nat, j: nat, e: Equivalent)
    requires i < |subjects| && j < |subjects[i].courses|
    requires CourseAnswers(subjects[i].courses[j], query)
    requires forall j' :: 0 <= j' < j ==> !CourseAnswers(subjects[i].courses[j'], query)
    requires forall i', j' :: 0 <= i' < i && 0 <= j' < |subjects[i'].courses| ==>
      !CourseAnswers(subjects[i'].courses[j'], query)
    requires e in Equivalents(query, subjects)
    ensures e.level >= subjects[i].courses[j].level
    ensures exists c :: c in subjects[i].courses && e.level == c.level && e in Block(c)
  {
    ResolvedByFirstMatch(query, subjects, i, j);
    ExpandMembership(subjects[i].courses, subjects[i].courses[j].level, e);
    var k :| 0 <= k < |subjects[i].courses| && subjects[i].courses[k].level >= subjects[i].courses[j].level
      && e in Block(subjects[i].courses[k]);
    BlockEntries(subjects[i].courses[k], e);
  }

  lemma {:induction false} ExpandConcat(xs: seq<Course>, ys: seq<Course>, pivot: int)
    ensures Expand(xs + ys, pivot) == Expand(xs, pivot) + Expand(ys, pivot)
  {
    if ys != [] {
      var yl := ys[..|ys| - 1];
      assert (xs + ys)[..|xs + ys| - 1] == xs + yl;
      ExpandConcat(xs, yl, pivot);
    } else {
      assert xs + ys == xs;
    }
  }

  /** Each kept course appears immediately before its alternatives: its block
      sits, whole, right after the entries of the courses before it. */
  lemma ExpandLayout(courses: seq<Course>, pivot: int, j: nat)
    requires j < |courses| && courses[j].level >= pivot
    ensures Expand(courses, pivot) ==
      Expand(courses[..j], pivot) + Block(courses[j]) + Expand(courses[j + 1..], pivot)
  {
    assert courses == courses[..j] + [courses[j]] + courses[j + 1..];
    ExpandConcat(courses[..j] + [courses[j]], courses[j + 1..], pivot);
    ExpandConcat(courses[..j], [courses[j]], pivot);
    assert Expand([courses[j]], pivot) == Block(courses[j]) by {
      assert [courses[j]][..0] == [];
    }
  }

  /** A course of the tree always answers its own name, so resolving it never
      falls back, and the answering subject is its own or an earlier one. */
  lemma TreeCourseResolves(subjects: seq<Subject>, i: nat, j: nat)
    requires i < |subjects| && j < |subjects[i].courses|
    ensures FirstAnsweringSubject(subjects, subjects[i].courses[j].name).Some?
    ensures FirstAnsweringSubject(subjects, subjects[i].courses[j].name).value <= i
  {
    var c := subjects[i].courses[j];
    assert CourseAnswers(c, c.name);
    assert SubjectAnswers(subjects[i], c.name);
  }
}
