/** `RequirementChecker.DoesStudentMeetRequirement`: the verdict on every
    course of the requirement tree, collected in a case-insensitive dictionary
    keyed by the course's name.

    The dictionary is a map from the case-folded key to the pair of the key
    as the dictionary holds it and the value: writing under a key that is
    already present (ignoring case) replaces the value and keeps the spelling
    of the first write, as the .NET indexer does. */
module Requirements {
  import opened Wrappers
  import opened Text
  import opened Records
  import opened Equivalence
  import opened Evaluation

  /** Every course of the tree, subject by subject, in order. */
  function AllCourses(subjects: seq<Subject>): seq<Course> {
    if subjects == [] then []
    else AllCourses(subjects[..|subjects| - 1]) + subjects[|subjects| - 1].courses
  }

  /** The folded key of a course name: names that are equal ignoring case
      share one entry. */
  function KeyOf(name: string): string {
    Upper(name)
  }

  /** The verdict on one course of the tree, against that course's equivalents. */
  function Verdict(course: Course, xs: seq<StudentSubject>, subjects: seq<Subject>): Result<RequirementResult> {
    Evaluate(course, xs, Equivalents(course.name, subjects))
  }

  /** Each course's name paired with its verdict, in order. */
  function Verdicts(reqs: seq<Course>, xs: seq<StudentSubject>, subjects: seq<Subject>)
    : (vs: seq<(string, Result<RequirementResult>)>)
    ensures |vs| == |reqs|
  {
    if reqs == [] then []
    else
      var last := reqs[|reqs| - 1];
      Verdicts(reqs[..|reqs| - 1], xs, subjects) + [(last.name, Verdict(last, xs, subjects))]
  }

  /** `dictionary[name] = v` on a case-insensitive dictionary: a new key is
      stored as spelled; a present one keeps its spelling and takes the value. */
  function Put<V>(m: map<string, (string, V)>, name: string, v: V): map<string, (string, V)> {
    var k := KeyOf(name);
    m[k := (if k in m then m[k].0 else name, v)]
  }

  /** Stores the verdicts under their names in order: a later name equal
      ignoring case overwrites the value, and the first failed verdict aborts. */
  function Gather<V>(vs: seq<(string, Result<V>)>): Result<map<string, (string, V)>> {
    if vs == [] then Ok(map[])
    else
      var last := vs[|vs| - 1];
      match Gather(vs[..|vs| - 1])
      case Err(e) => Err(e)
      case Ok(m) =>
        match last.1
        case Err(e) => Err(e)
        case Ok(v) => Ok(Put(m, last.0, v))
  }

  /** The whole operation: a missing subject list is refused. */
  function RequirementsMet(document: GraduationDocument, equivalents: CourseEquivalents)
    : Result<map<string, (string, RequirementResult)>>
  {
    match equivalents.subjects
    case None => Err(MissingConfiguration)
    case Some(subjects) => Gather(Verdicts(AllCourses(subjects), document.subjects, subjects))
  }

  // ---------------------------------------------------------------------------
  // Facts

  /** The courses of the tree are exactly the courses of its subjects. */
  lemma {:induction false} AllCoursesMembership(subjects: seq<Subject>, c: Course)
    ensures c in AllCourses(subjects) <==> exists i :: 0 <= i < |subjects| && c in subjects[i].courses
  {
    if subjects != [] {
      var init := subjects[..|subjects| - 1];
      AllCoursesMembership(init, c);
      assert forall i :: 0 <= i < |init| ==> init[i] == subjects[i];
    }
  }

  lemma AllCoursesStep(subjects: seq<Subject>, i: nat)
    requires i < |subjects|
    ensures AllCourses(subjects[..i + 1]) == AllCourses(subjects[..i]) + subjects[i].courses
  {
    assert subjects[..i + 1][..i] == subjects[..i];
  }

  lemma {:induction false} AllCoursesPrefix(subjects: seq<Subject>, k: nat)
    requires k <= |subjects|
    ensures AllCourses(subjects[..k]) <= AllCourses(subjects)
    decreases |subjects| - k
  {
    if k < |subjects| {
      AllCoursesPrefix(subjects, k + 1);
      AllCoursesStep(subjects, k);
    } else {
      assert subjects[..k] == subjects;
    }
  }

  lemma {:induction false} NameAt(reqs: seq<Course>, i: nat, xs: seq<StudentSubject>, subjects: seq<Subject>)
    requires i < |reqs|
    ensures Verdicts(reqs, xs, subjects)[i].0 == reqs[i].name
  {
    if i < |reqs| - 1 {
      NameAt(reqs[..|reqs| - 1], i, xs, subjects);
    }
  }

  lemma {:induction false} VerdictAt(reqs: seq<Course>, i: nat, xs: seq<StudentSubject>, subjects: seq<Subject>)
    requires i < |reqs|
    ensures Verdicts(reqs, xs, subjects)[i].1 == Verdict(reqs[i], xs, subjects)
  {
    if i < |reqs| - 1 {
      VerdictAt(reqs[..|reqs| - 1], i, xs, subjects);
    }
  }

  lemma {:induction false} VerdictsPrefix(a: seq<Course>, b: seq<Course>, xs: seq<StudentSubject>, subjects: seq<Subject>)
    requires a <= b
    ensures Verdicts(a, xs, subjects) <= Verdicts(b, xs, subjects)
  {
    if |a| < |b| {
      var init := b[..|b| - 1];
      assert a <= init;
      VerdictsPrefix(a, init, xs, subjects);
    } else {
      assert a == b;
    }
  }

  /** An abort is final: no later entry undoes it. */
  lemma {:induction false} GatherErrSticks<V>(a: seq<(string, Result<V>)>, b: seq<(string, Result<V>)>)
    requires a <= b
    requires Gather(a).Err?
    ensures Gather(b) == Gather(a)
  {
    if |b| == |a| {
      assert a == b;
    } else {
      var init := b[..|b| - 1];
      assert a <= init;
      GatherErrSticks(a, init);
    }
  }

  /** Gathering succeeds exactly when every verdict does. */
  lemma {:induction false} GatherOkExactly<V>(vs: seq<(string, Result<V>)>)
    ensures Gather(vs).Ok? <==> forall i :: 0 <= i < |vs| ==> vs[i].1.Ok?
  {
    if vs != [] {
      var init := vs[..|vs| - 1];
      GatherOkExactly(init);
      assert forall i :: 0 <= i < |init| ==> init[i] == vs[i];
    }
  }

  /** One entry per distinct folded key. */
  lemma {:induction false} GatherKeys<V>(vs: seq<(string, Result<V>)>)
    requires Gather(vs).Ok?
    ensures forall i :: 0 <= i < |vs| ==> KeyOf(vs[i].0) in Gather(vs).value
    ensures forall k :: k in Gather(vs).value ==> exists i :: 0 <= i < |vs| && KeyOf(vs[i].0) == k
  {
    if vs != [] {
      var init := vs[..|vs| - 1];
      GatherKeys(init);
      assert forall i :: 0 <= i < |init| ==> init[i] == vs[i];
    }
  }

  /** The entry of a key holds the last verdict with that key. */
  lemma {:induction false} GatherLastWins<V>(vs: seq<(string, Result<V>)>, i: nat)
    requires Gather(vs).Ok?
    requires i < |vs|
    requires forall j :: i < j < |vs| ==> KeyOf(vs[j].0) != KeyOf(vs[i].0)
    ensures KeyOf(vs[i].0) in Gather(vs).value
    ensures vs[i].1 == Ok(Gather(vs).value[KeyOf(vs[i].0)].1)
  {
    var init := vs[..|vs| - 1];
    if i < |vs| - 1 {
      assert forall j :: i < j < |init| ==> init[j] == vs[j];
      GatherLastWins(init, i);
    }
  }

  /** The entry of a key is spelled as the first name with that key. */
  lemma {:induction false} GatherFirstSpelling<V>(vs: seq<(string, Result<V>)>, i: nat)
    requires Gather(vs).Ok?
    requires i < |vs|
    requires forall j :: 0 <= j < i ==> KeyOf(vs[j].0) != KeyOf(vs[i].0)
    ensures KeyOf(vs[i].0) in Gather(vs).value
    ensures Gather(vs).value[KeyOf(vs[i].0)].0 == vs[i].0
  {
    var init := vs[..|vs| - 1];
    assert forall j :: 0 <= j < |init| ==> init[j] == vs[j];
    if i < |vs| - 1 {
      GatherFirstSpelling(init, i);
    } else {
      // no earlier name has the key, so the last write is the first
      GatherKeys(init);
    }
  }

  /** The result exists exactly when every course's verdict does. */
  lemma ResultOkExactly(document: GraduationDocument, equivalents: CourseEquivalents)
    requires equivalents.subjects.Some?
    ensures RequirementsMet(document, equivalents).Ok?
        <==> forall c :: c in AllCourses(equivalents.subjects.value) ==>
               Verdict(c, document.subjects, equivalents.subjects.value).Ok?
  {
    var subjects := equivalents.subjects.value;
    var xs := document.subjects;
    var reqs := AllCourses(subjects);
    var vs := Verdicts(reqs, xs, subjects);
    GatherOkExactly(vs);
    if Gather(vs).Ok? {
      forall c | c in reqs ensures Verdict(c, xs, subjects).Ok? {
        var i :| 0 <= i < |reqs| && reqs[i] == c;
        VerdictAt(reqs, i, xs, subjects);
      }
    } else {
      var i :| 0 <= i < |vs| && !vs[i].1.Ok?;
      VerdictAt(reqs, i, xs, subjects);
      assert reqs[i] in reqs;
    }
  }

  /** The result has one entry per distinct course name of the tree, ignoring case. */
  lemma ResultKeys(document: GraduationDocument, equivalents: CourseEquivalents)
    requires equivalents.subjects.Some?
    requires RequirementsMet(document, equivalents).Ok?
    ensures forall c :: c in AllCourses(equivalents.subjects.value) ==>
      KeyOf(c.name) in RequirementsMet(document, equivalents).value
    ensures forall k :: k in RequirementsMet(document, equivalents).value ==>
      exists c :: c in AllCourses(equivalents.subjects.value) && KeyOf(c.name) == k
  {
    var subjects := equivalents.subjects.value;
    var xs := document.subjects;
    var reqs := AllCourses(subjects);
    var vs := Verdicts(reqs, xs, subjects);
    GatherKeys(vs);
    forall c | c in reqs ensures KeyOf(c.name) in Gather(vs).value {
      var i :| 0 <= i < |reqs| && reqs[i] == c;
      NameAt(reqs, i, xs, subjects);
    }
    forall k | k in Gather(vs).value ensures exists c :: c in reqs && KeyOf(c.name) == k {
      var i :| 0 <= i < |vs| && KeyOf(vs[i].0) == k;
      NameAt(reqs, i, xs, subjects);
      assert reqs[i] in reqs;
    }
  }

  /** The entry of a course's name holds the verdict on the last course of
      the tree with that name (ignoring case). */
  lemma ResultHoldsLastVerdict(document: GraduationDocument, equivalents: CourseEquivalents, i: nat)
    requires equivalents.subjects.Some?
    requires RequirementsMet(document, equivalents).Ok?
    requires i < |AllCourses(equivalents.subjects.value)|
    requires var reqs := AllCourses(equivalents.subjects.value);
      forall j :: i < j < |reqs| ==> !EqualsIgnoreCase(reqs[j].name, reqs[i].name)
    ensures var reqs := AllCourses(equivalents.subjects.value);
      && KeyOf(reqs[i].name) in RequirementsMet(document, equivalents).value
      && Ok(RequirementsMet(document, equivalents).value[KeyOf(reqs[i].name)].1)
         == Verdict(reqs[i], document.subjects, equivalents.subjects.value)
  {
    var subjects := equivalents.subjects.value;
    var reqs := AllCourses(subjects);
    var vs := Verdicts(reqs, document.subjects, subjects);
    forall j | i < j < |vs| ensures KeyOf(vs[j].0) != KeyOf(vs[i].0) {
      NameAt(reqs, i, document.subjects, subjects);
      NameAt(reqs, j, document.subjects, subjects);
    }
    GatherLastWins(vs, i);
    NameAt(reqs, i, document.subjects, subjects);
    VerdictAt(reqs, i, document.subjects, subjects);
  }

  /** The key of a course's name is spelled as the first course of the tree
      with that name (ignoring case) spells it: later writes keep the spelling. */
  lemma ResultKeepsFirstSpelling(document: GraduationDocument, equivalents: CourseEquivalents, i: nat)
    requires equivalents.subjects.Some?
    requires RequirementsMet(document, equivalents).Ok?
    requires i < |AllCourses(equivalents.subjects.value)|
    requires var reqs := AllCourses(equivalents.subjects.value);
      forall j :: 0 <= j < i ==> !EqualsIgnoreCase(reqs[j].name, reqs[i].name)
    ensures var reqs := AllCourses(equivalents.subjects.value);
      && KeyOf(reqs[i].name) in RequirementsMet(document, equivalents).value
      && RequirementsMet(document, equivalents).value[KeyOf(reqs[i].name)].0 == reqs[i].name
  {
    var subjects := equivalents.subjects.value;
    var reqs := AllCourses(subjects);
    var vs := Verdicts(reqs, document.subjects, subjects);
    forall j | 0 <= j < i ensures KeyOf(vs[j].0) != KeyOf(vs[i].0) {
      NameAt(reqs, i, document.subjects, subjects);
      NameAt(reqs, j, document.subjects, subjects);
    }
    GatherFirstSpelling(vs, i);
    NameAt(reqs, i, document.subjects, subjects);
  }

  // ---------------------------------------------------------------------------
  // The loops

  /** Storing the verdict on the next course of a subject. */
  lemma GatherNext(done: seq<Course>, courses: seq<Course>, j: nat, xs: seq<StudentSubject>, subjects: seq<Subject>)
    requires j < |courses|
    ensures Gather(Verdicts(done + courses[..j + 1], xs, subjects))
         == match Gather(Verdicts(done + courses[..j], xs, subjects))
            case Err(e) => Err(e)
            case Ok(m) =>
              match Verdict(courses[j], xs, subjects)
              case Err(e) => Err(e)
              case Ok(v) => Ok(Put(m, courses[j].name, v))
  {
    var before := done + courses[..j];
    assert done + courses[..j + 1] == before + [courses[j]];
    VerdictsSnoc(before, courses[j], xs, subjects);
    GatherSnoc(Verdicts(before, xs, subjects), (courses[j].name, Verdict(courses[j], xs, subjects)));
  }

  lemma VerdictsSnoc(reqs: seq<Course>, c: Course, xs: seq<StudentSubject>, subjects: seq<Subject>)
    ensures Verdicts(reqs + [c], xs, subjects) == Verdicts(reqs, xs, subjects) + [(c.name, Verdict(c, xs, subjects))]
  {
    assert (reqs + [c])[..|reqs|] == reqs;
  }

  lemma GatherSnoc<V>(vs: seq<(string, Result<V>)>, e: (string, Result<V>))
    ensures Gather(vs + [e])
         == match Gather(vs)
            case Err(err) => Err(err)
            case Ok(m) =>
              match e.1
              case Err(err) => Err(err)
              case Ok(v) => Ok(Put(m, e.0, v))
  {
    assert (vs + [e])[..|vs|] == vs;
  }

  /** A failed verdict on a course of a subject aborts the rest of the subject. */
  lemma GatherAbort(done: seq<Course>, courses: seq<Course>, j: nat, xs: seq<StudentSubject>, subjects: seq<Subject>)
    requires j < |courses|
    requires Gather(Verdicts(done + courses[..j + 1], xs, subjects)).Err?
    ensures Gather(Verdicts(done + courses, xs, subjects)) == Gather(Verdicts(done + courses[..j + 1], xs, subjects))
  {
    assert done + courses[..j + 1] <= done + courses;
    VerdictsPrefix(done + courses[..j + 1], done + courses, xs, subjects);
    GatherErrSticks(Verdicts(done + courses[..j + 1], xs, subjects), Verdicts(done + courses, xs, subjects));
  }

  /** The body of the inner loop: the course's equivalents, then its verdict. */
  method CourseVerdict(course: Course, xs: seq<StudentSubject>, equivalents: CourseEquivalents)
      returns (verdict: Result<RequirementResult>)
    requires equivalents.subjects.Some?
    ensures verdict == Verdict(course, xs, equivalents.subjects.value)
  {
    var found := GetEquivalentCourses(course.name, equivalents);
    verdict := EvaluateRequirement(course, xs, found.value);
  }

  /** The inner loop: the verdicts on the courses of one subject, stored
      after those already gathered; the first failed verdict aborts. */
  method GatherCourses(courses: seq<Course>, xs: seq<StudentSubject>, equivalents: CourseEquivalents,
                       ghost done: seq<Course>, results: map<string, (string, RequirementResult)>)
      returns (r: Result<map<string, (string, RequirementResult)>>)
    requires equivalents.subjects.Some?
    requires Gather(Verdicts(done, xs, equivalents.subjects.value)) == Ok(results)
    ensures r == Gather(Verdicts(done + courses, xs, equivalents.subjects.value))
  {
    ghost var subjects := equivalents.subjects.value;
    var acc := results;
    assert done + courses[..0] == done;
    for j := 0 to |courses|
      invariant Gather(Verdicts(done + courses[..j], xs, subjects)) == Ok(acc)
    {
      var course := courses[j];
      var verdict := CourseVerdict(course, xs, equivalents);
      GatherNext(done, courses, j, xs, subjects);
      if verdict.Err? {
        GatherAbort(done, courses, j, xs, subjects);
        return Err(verdict.error);
      }
      acc := Put(acc, course.name, verdict.value);
    }
    assert courses[..|courses|] == courses;
    r := Ok(acc);
  }

  /** The outer loop over the subjects of the tree. */
  method DoesStudentMeetRequirement(document: GraduationDocument, equivalents: CourseEquivalents)
      returns (r: Result<map<string, (string, RequirementResult)>>)
    ensures equivalents.subjects.None? ==> r == Err(MissingConfiguration)
    ensures r == RequirementsMet(document, equivalents)
  {
    if equivalents.subjects.None? {
      return Err(MissingConfiguration);
    }
    var subjects := equivalents.subjects.value;
    var xs := document.subjects;
    var results: map<string, (string, RequirementResult)> := map[];
    for i := 0 to |subjects|
      invariant Gather(Verdicts(AllCourses(subjects[..i]), xs, subjects)) == Ok(results)
    {
      AllCoursesStep(subjects, i);
      var gathered := GatherCourses(subjects[i].courses, xs, equivalents, AllCourses(subjects[..i]), results);
      if gathered.Err? {
        AllCoursesPrefix(subjects, i + 1);
        VerdictsPrefix(AllCourses(subjects[..i + 1]), AllCourses(subjects), xs, subjects);
        GatherErrSticks(Verdicts(AllCourses(subjects[..i + 1]), xs, subjects), Verdicts(AllCourses(subjects), xs, subjects));
        return gathered;
      }
      results := gathered.value;
    }
    assert subjects[..|subjects|] == subjects;
    r := Ok(results);
  }
}
