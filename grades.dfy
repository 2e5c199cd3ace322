/** The grade table of `RequirementChecker`: three grading systems mapped into
    one range, 0 to 20. */
module GradeScale {
  import opened Text

  /** `GradeMappings`: the letter scale A–F, the word scale MVG/VG/G/IG and the
      numeral scale 5–0. */
  const GradeMappings: map<string, real> := map[
    "A" := 20.0, "B" := 17.5, "C" := 15.0, "D" := 12.5, "E" := 10.0, "F" := 0.0,
    "MVG" := 20.0, "VG" := 15.0, "G" := 10.0, "IG" := 0.0,
    "5" := 20.0, "4" := 17.5, "3" := 15.0, "2" := 12.5, "1" := 10.0, "0" := 0.0
  ]

  /** The values a grade can take. */
  predicate IsGradeValue(v: real) {
    v == 0.0 || v == 10.0 || v == 12.5 || v == 15.0 || v == 17.5 || v == 20.0
  }

  /** `GetGradeValue`: the table value of the trimmed, upper-cased token, and 0
      for a token the table does not hold (the empty token included). */
  function GradeValue(grade: string): (v: real)
    ensures IsGradeValue(v) && 0.0 <= v <= 20.0
    ensures Upper(Trim(grade)) !in GradeMappings ==> v == 0.0
    ensures Upper(Trim(grade)) in GradeMappings ==> v == GradeMappings[Upper(Trim(grade))]
  {
    var key := Upper(Trim(grade));
    if key in GradeMappings then GradeMappings[key] else 0.0
  }

  /** The table's keys are already upper case, so the case-insensitive comparer
      of the dictionary finds exactly the keys the upper-cased token equals. */
  lemma TableKeysAreUpperCase()
    ensures forall k :: k in GradeMappings ==> Upper(k) == k
  {
  }

  /** The lookup ignores case and surrounding white space: tokens that agree
      under case-insensitive comparison, padded in any way, get one value. */
  lemma GradeValueIgnoresCaseAndPadding(g: string, h: string, w1: string, w2: string)
    requires EqualsIgnoreCase(g, h)
    requires AllWhite(w1) && AllWhite(w2)
    ensures GradeValue(w1 + g + w2) == GradeValue(h)
  {
    TrimIgnoresPadding(w1, g, w2);
    UpperTrimCommute(g);
    UpperTrimCommute(h);
  }

  /** Lower-case and upper-case spellings of a grade are worth the same. */
  lemma GradeValueOfLowerCase(g: string)
    ensures GradeValue(Lower(g)) == GradeValue(g)
  {
    UpperOfLower(g);
    GradeValueIgnoresCaseAndPadding(Lower(g), g, [], []);
    assert [] + Lower(g) + [] == Lower(g);
  }

  /** A token spelled as in the table is worth its table value. */
  lemma ValueOfTableToken(k: string)
    requires k in GradeMappings && Trimmed(k)
    ensures GradeValue(k) == GradeMappings[k]
  {
    TrimUnique([], k, []);
    assert [] + k + [] == k;
    TableKeysAreUpperCase();
  }

  /** The top letter grade, in any case and padding, is worth 20. */
  lemma TopLetterGrade(g: string)
    requires Upper(Trim(g)) == "A"
    ensures GradeValue(g) == 20.0
  {
    assert "A" in GradeMappings;
  }
}
