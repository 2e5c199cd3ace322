/** `HomeController.CalculateAverageMeritPoints`: the credit-weighted mean of
    the grade values of the courses configured for the merit average, with
    the configuration and the course catalog given as parameters. */
module MeritAverage {
  import opened Wrappers
  import opened Text
  import opened Numbers
  import opened GradeScale
  import opened Records
  import opened Evaluation
  import opened MeritTable
  import opened Weighted
  import opened Scan

  // ---------------------------------------------------------------------------
  // The catalog

  /** The catalog key of a code: trimmed, compared ignoring case. */
  function CatalogKey(code: string): string {
    Upper(Trim(code))
  }

  /** A catalog course the dictionary takes: one with a non-empty code. */
  predicate Listed(c: CourseDetail) {
    c.courseCode != ""
  }

  /** `ToDictionary` over the listed catalog courses: a course whose key is
      already present throws. */
  function Catalog(courses: seq<CourseDetail>): Result<map<string, CourseDetail>> {
    if courses == [] then Ok(map[])
    else
      match Catalog(courses[..|courses| - 1])
      case Err(e) => Err(e)
      case Ok(m) =>
        var c := courses[|courses| - 1];
        if !Listed(c) then Ok(m)
        else if CatalogKey(c.courseCode) in m then Err(DuplicateKey)
        else Ok(m[CatalogKey(c.courseCode) := c])
  }

  /** Two listed courses share a key. */
  predicate HasDuplicate(courses: seq<CourseDetail>) {
    exists i, j :: 0 <= i < j < |courses| && Listed(courses[i]) && Listed(courses[j])
      && CatalogKey(courses[i].courseCode) == CatalogKey(courses[j].courseCode)
  }

  /** The first of the codes whose trimmed form the catalog holds. */
  function FirstCatalogued(codes: seq<string>, catalog: map<string, CourseDetail>): (r: Option<nat>)
    ensures r.Some? ==> r.value < |codes| && CatalogKey(codes[r.value]) in catalog
    ensures r.Some? ==> forall k {:trigger codes[k]} :: 0 <= k < r.value ==> CatalogKey(codes[k]) !in catalog
    ensures r.None? <==> forall k {:trigger codes[k]} :: 0 <= k < |codes| ==> CatalogKey(codes[k]) !in catalog
  {
    FirstFrom(codes, code => CatalogKey(code) in catalog, 0)
  }

  // ---------------------------------------------------------------------------
  // The shares

  /** What one configured entry adds to the sums: the first transcript line
      it matches, with its points read by `int.TryParse` (0 when they are not
      a number); else grade 0 with the nominal points of the first of its
      codes the catalog holds; else nothing. */
  function MeritShare(cfg: CourseForAverage, xs: seq<StudentSubject>, catalog: map<string, CourseDetail>): Option<Share> {
    match FirstMatchingLine(cfg, xs)
    case Some(i) => Some(Share(GradeOf(xs[i]), ParseInt32(xs[i].gymnasiumPoints).GetOr(0)))
    case None =>
      var codes := CodesOf(cfg);
      match FirstCatalogued(codes, catalog)
      case Some(k) => Some(Share(0.0, catalog[CatalogKey(codes[k])].points.GetOr(0)))
      case None => None
  }

  function MeritShares(cfgs: seq<CourseForAverage>, xs: seq<StudentSubject>, catalog: map<string, CourseDetail>)
    : (os: seq<Option<Share>>)
    ensures |os| == |cfgs|
    ensures forall i :: 0 <= i < |cfgs| ==> os[i] == MeritShare(cfgs[i], xs, catalog)
  {
    seq(|cfgs|, i requires 0 <= i < |cfgs| => MeritShare(cfgs[i], xs, catalog))
  }

  /** A share added to the sums; a skipped entry adds nothing. */
  function AddShare(t: Totals, o: Option<Share>): Totals {
    match o
    case None => t
    case Some(share) => Add(t, share)
  }

  /** The running sums over the shares. */
  function SumShares(os: seq<Option<Share>>): Totals {
    if os == [] then Zero
    else AddShare(SumShares(os[..|os| - 1]), os[|os| - 1])
  }

  /** The mean of the sums rounded to two decimals, when points were counted. */
  function MeanIfPositive(t: Totals): real {
    if t.points > 0 then Round2(t.weighted / t.points as real) else 0.0
  }

  /** The whole operation: no configuration gives 0, before the catalog is read. */
  function AverageMeritPoints(document: GraduationDocument, configured: Option<seq<CourseForAverage>>,
                              catalogCourses: seq<CourseDetail>): Result<real>
  {
    match configured
    case None => Ok(0.0)
    case Some(cfgs) =>
      match Catalog(catalogCourses)
      case Err(e) => Err(e)
      case Ok(catalog) => Ok(MeanIfPositive(SumShares(MeritShares(cfgs, document.subjects, catalog))))
  }

  // ---------------------------------------------------------------------------
  // Facts about the catalog

  /** The catalog is built exactly when no two listed courses share a key. */
  lemma {:induction false} CatalogOkExactly(courses: seq<CourseDetail>)
    ensures Catalog(courses).Ok? <==> !HasDuplicate(courses)
  {
    if courses != [] {
      var init := courses[..|courses| - 1];
      var c := courses[|courses| - 1];
      CatalogOkExactly(init);
      assert init + [c] == courses;
      if HasDuplicate(init) {
        DuplicateKept(init, c);
      } else if Listed(c) && CatalogKey(c.courseCode) in Catalog(init).value {
        DuplicateOfKnownKey(init, c);
      } else {
        NoDuplicateAfterNewKey(init, c);
      }
    }
  }

  lemma DuplicateKept(init: seq<CourseDetail>, c: CourseDetail)
    requires HasDuplicate(init)
    ensures HasDuplicate(init + [c])
  {
    var i, j :| 0 <= i < j < |init| && Listed(init[i]) && Listed(init[j])
      && CatalogKey(init[i].courseCode) == CatalogKey(init[j].courseCode);
    assert (init + [c])[i] == init[i] && (init + [c])[j] == init[j];
  }

  /** A listed course whose key the built catalog holds is a duplicate. */
  lemma DuplicateOfKnownKey(init: seq<CourseDetail>, c: CourseDetail)
    requires Catalog(init).Ok? && Listed(c) && CatalogKey(c.courseCode) in Catalog(init).value
    ensures HasDuplicate(init + [c])
  {
    CatalogFrom(init);
    var i :| 0 <= i < |init| && Listed(init[i]) && CatalogKey(init[i].courseCode) == CatalogKey(c.courseCode);
    assert (init + [c])[i] == init[i] && (init + [c])[|init|] == c;
  }

  /** A course whose key the built catalog lacks adds no duplicate. */
  lemma NoDuplicateAfterNewKey(init: seq<CourseDetail>, c: CourseDetail)
    requires Catalog(init).Ok? && !HasDuplicate(init)
    requires Listed(c) ==> CatalogKey(c.courseCode) !in Catalog(init).value
    ensures !HasDuplicate(init + [c])
  {
    var courses := init + [c];
    forall i, j | 0 <= i < j < |courses| && Listed(courses[i]) && Listed(courses[j])
      ensures CatalogKey(courses[i].courseCode) != CatalogKey(courses[j].courseCode)
    {
      assert init[i] == courses[i];
      if j < |init| {
        assert init[j] == courses[j];
      } else {
        CatalogHolds(init);
      }
    }
  }

  /** A built catalog holds every listed course under its key. */
  lemma {:induction false} CatalogHolds(courses: seq<CourseDetail>)
    requires Catalog(courses).Ok?
    ensures forall i :: 0 <= i < |courses| && Listed(courses[i]) ==>
      CatalogKey(courses[i].courseCode) in Catalog(courses).value
      && Catalog(courses).value[CatalogKey(courses[i].courseCode)] == courses[i]
  {
    if courses != [] {
      var init := courses[..|courses| - 1];
      CatalogHolds(init);
      forall i | 0 <= i < |init| ensures init[i] == courses[i] {}
    }
  }

  /** Every key of a built catalog is that of a listed course. */
  lemma {:induction false} CatalogFrom(courses: seq<CourseDetail>)
    requires Catalog(courses).Ok?
    ensures forall k :: k in Catalog(courses).value ==>
      exists i :: 0 <= i < |courses| && Listed(courses[i]) && CatalogKey(courses[i].courseCode) == k
  {
    if courses != [] {
      var init := courses[..|courses| - 1];
      var c := courses[|courses| - 1];
      CatalogFrom(init);
      forall k | k in Catalog(courses).value
        ensures exists i :: 0 <= i < |courses| && Listed(courses[i]) && CatalogKey(courses[i].courseCode) == k
      {
        if !(Listed(c) && k == CatalogKey(c.courseCode)) {
          var i :| 0 <= i < |init| && Listed(init[i]) && CatalogKey(init[i].courseCode) == k;
          assert courses[i] == init[i];
        }
      }
    }
  }

  // ---------------------------------------------------------------------------
  // Facts about the shares

  /** An entry found on the transcript adds the first matching line's grade
      value and its points, or 0 points when they are not a number. */
  lemma MatchedShare(cfg: CourseForAverage, xs: seq<StudentSubject>, catalog: map<string, CourseDetail>, i: nat)
    requires IsFirstMatching(cfg, xs, i)
    ensures MeritShare(cfg, xs, catalog).Some?
    ensures MeritShare(cfg, xs, catalog).value.value == GradeValue(Trim(xs[i].grade))
    ensures ParseInt32(xs[i].gymnasiumPoints).None? ==> MeritShare(cfg, xs, catalog).value.points == 0
    ensures ParseInt32(xs[i].gymnasiumPoints).Some? ==>
      MeritShare(cfg, xs, catalog).value.points == ParseInt32(xs[i].gymnasiumPoints).value
  {
    assert FirstMatchingLine(cfg, xs) == Some(i);
  }

  /** An entry absent from the transcript whose code `k` is the first the
      catalog holds adds grade 0 with that course's points (0 when it has none). */
  lemma CataloguedShare(cfg: CourseForAverage, xs: seq<StudentSubject>, catalog: map<string, CourseDetail>, k: nat)
    requires forall i :: 0 <= i < |xs| ==> !LineMatches(cfg, xs[i])
    requires k < |CodesOf(cfg)| && CatalogKey(CodesOf(cfg)[k]) in catalog
    requires forall j :: 0 <= j < k ==> CatalogKey(CodesOf(cfg)[j]) !in catalog
    ensures MeritShare(cfg, xs, catalog)
         == Some(Share(0.0, catalog[CatalogKey(CodesOf(cfg)[k])].points.GetOr(0)))
  {
    var codes := CodesOf(cfg);
    assert codes[k] == CodesOf(cfg)[k];
    assert FirstCatalogued(codes, catalog) == Some(k);
  }

  /** An entry found neither on the transcript nor in the catalog is skipped. */
  lemma SkippedShare(cfg: CourseForAverage, xs: seq<StudentSubject>, catalog: map<string, CourseDetail>)
    requires forall i :: 0 <= i < |xs| ==> !LineMatches(cfg, xs[i])
    requires forall k :: 0 <= k < |CodesOf(cfg)| ==> CatalogKey(CodesOf(cfg)[k]) !in catalog
    ensures MeritShare(cfg, xs, catalog).None?
  {
  }

  /** The sums of the shares of two runs of entries add up. */
  lemma {:induction false} SumSharesConcat(a: seq<Option<Share>>, b: seq<Option<Share>>)
    ensures SumShares(a + b).weighted == SumShares(a).weighted + SumShares(b).weighted
    ensures SumShares(a + b).points == SumShares(a).points + SumShares(b).points
  {
    if b == [] {
      assert a + b == a;
    } else {
      var init := b[..|b| - 1];
      assert (a + b)[..|a + b| - 1] == a + init;
      SumSharesConcat(a, init);
    }
  }

  /** A skipped entry changes neither sum: dropping it gives the same sums. */
  lemma SkipChangesNothing(os: seq<Option<Share>>, i: nat)
    requires i < |os| && os[i].None?
    ensures SumShares(os) == SumShares(os[..i] + os[i + 1..])
  {
    assert os == os[..i] + ([os[i]] + os[i + 1..]);
    SumSharesConcat(os[..i], [os[i]] + os[i + 1..]);
    SumSharesConcat([os[i]], os[i + 1..]);
    assert ([os[i]] + os[i + 1..])[..0] == [];
    SumSharesConcat(os[..i], os[i + 1..]);
  }

  /** Sums over nothing but skipped entries are zero. */
  lemma {:induction false} SumOfSkipped(os: seq<Option<Share>>)
    requires forall i :: 0 <= i < |os| ==> os[i].None?
    ensures SumShares(os) == Zero
  {
    if os != [] {
      var init := os[..|os| - 1];
      assert forall i :: 0 <= i < |init| ==> init[i] == os[i];
      SumOfSkipped(init);
    }
  }

  /** Shares on the scale give sums on the scale. */
  lemma {:induction false} SumWithinScale(os: seq<Option<Share>>)
    requires forall i :: 0 <= i < |os| && os[i].Some? ==> InScale(os[i].value)
    ensures TotalsInScale(SumShares(os))
  {
    if os != [] {
      var init := os[..|os| - 1];
      assert forall i :: 0 <= i < |init| ==> init[i] == os[i];
      SumWithinScale(init);
      if os[|os| - 1].Some? {
        AddWithinScale(SumShares(init), os[|os| - 1].value);
      }
    }
  }

  // ---------------------------------------------------------------------------
  // Facts about the average

  /** Without a configuration the average is 0, whatever the catalog. */
  lemma NoConfigurationGivesZero(document: GraduationDocument, catalogCourses: seq<CourseDetail>)
    ensures AverageMeritPoints(document, None, catalogCourses) == Ok(0.0)
  {
  }

  /** The average is refused exactly when the catalog holds two listed
      courses with one key, and only when there is a configuration. */
  lemma AverageOkExactly(document: GraduationDocument, configured: Option<seq<CourseForAverage>>,
                         catalogCourses: seq<CourseDetail>)
    ensures AverageMeritPoints(document, configured, catalogCourses).Err?
        <==> configured.Some? && HasDuplicate(catalogCourses)
  {
    CatalogOkExactly(catalogCourses);
  }

  /** When every configured entry is found neither on the transcript nor in
      the catalog, no points are counted and the average is 0, not an error. */
  lemma AllSkippedGivesZero(document: GraduationDocument, cfgs: seq<CourseForAverage>, catalogCourses: seq<CourseDetail>)
    requires Catalog(catalogCourses).Ok?
    requires forall n, i :: 0 <= n < |cfgs| && 0 <= i < |document.subjects| ==>
      !LineMatches(cfgs[n], document.subjects[i])
    requires forall n, k :: 0 <= n < |cfgs| && 0 <= k < |CodesOf(cfgs[n])| ==>
      CatalogKey(CodesOf(cfgs[n])[k]) !in Catalog(catalogCourses).value
    ensures AverageMeritPoints(document, Some(cfgs), catalogCourses) == Ok(0.0)
  {
    var catalog := Catalog(catalogCourses).value;
    var os := MeritShares(cfgs, document.subjects, catalog);
    forall n | 0 <= n < |os| ensures os[n].None? {
      SkippedShare(cfgs[n], document.subjects, catalog);
    }
    SumOfSkipped(os);
  }

  /** Sums over one share among skipped entries are that share's. */
  lemma SumOfSingle(os: seq<Option<Share>>, n: nat, share: Share)
    requires n < |os| && os[n] == Some(share)
    requires forall j :: 0 <= j < |os| && j != n ==> os[j].None?
    ensures SumShares(os) == Add(Zero, share)
  {
    assert os == os[..n] + ([os[n]] + os[n + 1..]);
    SumSharesConcat(os[..n], [os[n]] + os[n + 1..]);
    SumSharesConcat([os[n]], os[n + 1..]);
    assert ([os[n]] + os[n + 1..])[..0] == [];
    SumOfSkipped(os[..n]);
    SumOfSkipped(os[n + 1..]);
  }

  lemma QuotientOfMultiple(v: real, p: int)
    requires p > 0
    ensures (0.0 + v * p as real) / (0 + p) as real == v
  {
  }

  /** One contributing entry with the top grade value and positive points,
      all others skipped, gives exactly 20. */
  lemma SingleTopGrade(document: GraduationDocument, cfgs: seq<CourseForAverage>, catalogCourses: seq<CourseDetail>,
                       n: nat, p: int)
    requires Catalog(catalogCourses).Ok?
    requires n < |cfgs|
    requires MeritShare(cfgs[n], document.subjects, Catalog(catalogCourses).value) == Some(Share(20.0, p))
    requires p > 0
    requires forall j :: 0 <= j < |cfgs| && j != n ==>
      MeritShare(cfgs[j], document.subjects, Catalog(catalogCourses).value).None?
    ensures AverageMeritPoints(document, Some(cfgs), catalogCourses) == Ok(20.0)
  {
    var os := MeritShares(cfgs, document.subjects, Catalog(catalogCourses).value);
    SumOfSingle(os, n, Share(20.0, p));
    TopMean(p);
  }

  /** The mean of a single top-grade share is the top grade. */
  lemma TopMean(p: int)
    requires p > 0
    ensures MeanIfPositive(Add(Zero, Share(20.0, p))) == 20.0
  {
    var t := Add(Zero, Share(20.0, p));
    assert t.weighted / t.points as real == 20.0 by {
      QuotientOfMultiple(20.0, p);
    }
    Round2KeepsCents(2000);
    assert 2000 as real / 100.0 == 20.0;
  }

  /** A top-grade line found first for an entry yields a top-grade share. */
  lemma TopGradeLine(cfg: CourseForAverage, xs: seq<StudentSubject>, catalog: map<string, CourseDetail>, i: nat, p: int)
    requires IsFirstMatching(cfg, xs, i)
    requires Upper(Trim(xs[i].grade)) == "A"
    requires ParseInt32(xs[i].gymnasiumPoints) == Some(p)
    ensures MeritShare(cfg, xs, catalog) == Some(Share(20.0, p))
  {
    MatchedShare(cfg, xs, catalog, i);
    TrimIdempotent(xs[i].grade);
    TopLetterGrade(Trim(xs[i].grade));
  }

  /** With no negative points on the transcript or in the catalog the
      average lies on the grade scale. */
  lemma AverageWithinScale(document: GraduationDocument, configured: Option<seq<CourseForAverage>>,
                           catalogCourses: seq<CourseDetail>)
    requires forall i :: 0 <= i < |document.subjects| && ParseInt32(document.subjects[i].gymnasiumPoints).Some? ==>
      ParseInt32(document.subjects[i].gymnasiumPoints).value >= 0
    requires forall i :: 0 <= i < |catalogCourses| && catalogCourses[i].points.Some? ==>
      catalogCourses[i].points.value >= 0
    requires AverageMeritPoints(document, configured, catalogCourses).Ok?
    ensures 0.0 <= AverageMeritPoints(document, configured, catalogCourses).value <= 20.0
  {
    if configured.Some? {
      var cfgs := configured.value;
      var xs := document.subjects;
      var catalog := Catalog(catalogCourses).value;
      CatalogHolds(catalogCourses);
      CatalogFrom(catalogCourses);
      var os := MeritShares(cfgs, xs, catalog);
      forall i | 0 <= i < |os| && os[i].Some? ensures InScale(os[i].value) {
        var cfg := cfgs[i];
        match FirstMatchingLine(cfg, xs)
        case Some(n) =>
          assert ParseInt32(xs[n].gymnasiumPoints).GetOr(0) >= 0;
        case None =>
          var codes := CodesOf(cfg);
          var k := FirstCatalogued(codes, catalog).value;
          var key := CatalogKey(codes[k]);
          var j :| 0 <= j < |catalogCourses| && Listed(catalogCourses[j]) && CatalogKey(catalogCourses[j].courseCode) == key;
          assert catalog[key] == catalogCourses[j];
      }
      SumWithinScale(os);
      var t := SumShares(os);
      if t.points > 0 {
        MeanWithinScale(t);
      }
    }
  }

  // ---------------------------------------------------------------------------
  // The loops

  lemma CatalogStep(courses: seq<CourseDetail>, i: nat)
    requires i < |courses|
    ensures Catalog(courses[..i + 1])
         == match Catalog(courses[..i])
            case Err(e) => Err(e)
            case Ok(m) =>
              if !Listed(courses[i]) then Ok(m)
              else if CatalogKey(courses[i].courseCode) in m then Err(DuplicateKey)
              else Ok(m[CatalogKey(courses[i].courseCode) := courses[i]])
  {
    assert courses[..i + 1][..i] == courses[..i];
  }

  lemma {:induction false} CatalogErrSticks(courses: seq<CourseDetail>, i: nat)
    requires i <= |courses|
    requires Catalog(courses[..i]).Err?
    ensures Catalog(courses) == Catalog(courses[..i])
    decreases |courses| - i
  {
    if i == |courses| {
      assert courses[..i] == courses;
    } else {
      CatalogStep(courses, i);
      CatalogErrSticks(courses, i + 1);
    }
  }

  /** `ToDictionary`, one catalog course at a time. */
  method BuildCatalog(courses: seq<CourseDetail>) returns (r: Result<map<string, CourseDetail>>)
    ensures r == Catalog(courses)
  {
    var m: map<string, CourseDetail> := map[];
    for i := 0 to |courses|
      invariant Catalog(courses[..i]) == Ok(m)
    {
      var c := courses[i];
      CatalogStep(courses, i);
      if c.courseCode != "" {
        var key := Upper(Trim(c.courseCode));
        if key in m {
          CatalogErrSticks(courses, i + 1);
          return Err(DuplicateKey);
        }
        m := m[key := c];
      }
    }
    assert courses[..|courses|] == courses;
    r := Ok(m);
  }

  /** The sums over one more entry. */
  lemma SumSharesStep(os: seq<Option<Share>>, n: nat)
    requires n < |os|
    ensures SumShares(os[..n + 1]) == AddShare(SumShares(os[..n]), os[n])
  {
    assert os[..n + 1][..n] == os[..n];
  }

  /** One turn of the loop, in its own terms: the entry's share added when
      it was found, nothing when it was skipped. */
  lemma FoundStep(os: seq<Option<Share>>, n: nat, t: Totals, found: bool, gradeValue: real, points: int)
    requires n < |os| && t == SumShares(os[..n])
    requires found <==> os[n].Some?
    requires found ==> os[n] == Some(Share(gradeValue, points))
    ensures found ==> SumShares(os[..n + 1]) == Add(t, Share(gradeValue, points))
    ensures !found ==> SumShares(os[..n + 1]) == t
  {
    SumSharesStep(os, n);
  }

  /** The body of the loop: what one entry adds, or `found` false when it is skipped. */
  method EntryShare(cfg: CourseForAverage, xs: seq<StudentSubject>, catalog: map<string, CourseDetail>)
      returns (found: bool, gradeValue: real, points: int)
    ensures found <==> MeritShare(cfg, xs, catalog).Some?
    ensures found ==> MeritShare(cfg, xs, catalog) == Some(Share(gradeValue, points))
  {
    var codes := CodesOf(cfg);
    var matching := FirstMatchingLine(cfg, xs);
    points, gradeValue := 0, 0.0;
    if matching.Some? {
      var subject := xs[matching.value];
      gradeValue := GradeValue(Trim(subject.grade));
      points := ParseInt32(subject.gymnasiumPoints).GetOr(0);
      return true, gradeValue, points;
    }
    var foundCourse := FirstCatalogued(codes, catalog);
    if foundCourse.None? {
      return false, gradeValue, points;
    }
    gradeValue := 0.0;
    points := catalog[CatalogKey(codes[foundCourse.value])].points.GetOr(0);
    found := true;
  }

  /** The loop of `CalculateAverageMeritPoints`: the running sums over the
      configured entries, skipping the entries that contribute nothing. */
  method SumEntries(cfgs: seq<CourseForAverage>, xs: seq<StudentSubject>, catalog: map<string, CourseDetail>)
      returns (totalWeightedGradePoints: real, totalCoursePoints: int)
    ensures Totals(totalWeightedGradePoints, totalCoursePoints) == SumShares(MeritShares(cfgs, xs, catalog))
  {
    ghost var os := MeritShares(cfgs, xs, catalog);
    totalWeightedGradePoints := 0.0;
    totalCoursePoints := 0;
    for n := 0 to |cfgs|
      invariant Totals(totalWeightedGradePoints, totalCoursePoints) == SumShares(os[..n])
    {
      var found, gradeValue, points := EntryShare(cfgs[n], xs, catalog);
      FoundStep(os, n, Totals(totalWeightedGradePoints, totalCoursePoints), found, gradeValue, points);
      if !found {
        continue;
      }
      // totalWeightedGradePoints += gradeValue * points; totalCoursePoints += points
      var next := Add(Totals(totalWeightedGradePoints, totalCoursePoints), Share(gradeValue, points));
      totalWeightedGradePoints, totalCoursePoints := next.weighted, next.points;
    }
    assert os[..|cfgs|] == os;
  }

  method CalculateAverageMeritPoints(document: GraduationDocument, configured: Option<seq<CourseForAverage>>,
                                     catalogCourses: seq<CourseDetail>)
      returns (r: Result<real>)
    ensures configured.None? ==> r == Ok(0.0)
    ensures r == AverageMeritPoints(document, configured, catalogCourses)
  {
    if configured.None? {
      return Ok(0.0);
    }
    var cfgs := configured.value;
    var xs := document.subjects;
    var built := BuildCatalog(catalogCourses);
    if built.Err? {
      return Err(built.error);
    }
    var catalog := built.value;
    var totalWeightedGradePoints, totalCoursePoints := SumEntries(cfgs, xs, catalog);
    if totalCoursePoints > 0 {
      return Ok(Round2(totalWeightedGradePoints / totalCoursePoints as real));
    }
    return Ok(0.0);
  }
}
