/** `int.Parse` / `int.TryParse` on 32-bit integers and `Math.Round(x, 2)`,
    over exact numbers. */
module Numbers {
  import opened Wrappers
  import opened Text

  const Int32Min: int := -0x8000_0000
  const Int32Max: int := 0x7fff_ffff

  predicate IsDigit(c: char) {
    '0' <= c <= '9'
  }

  predicate AllDigits(s: string) {
    forall i :: 0 <= i < |s| ==> IsDigit(s[i])
  }

  /** The value of a string of decimal digits, most significant first. */
  function DigitsValue(ds: string): nat
    requires AllDigits(ds)
  {
    if ds == [] then 0
    else DigitsValue(ds[..|ds| - 1]) * 10 + (ds[|ds| - 1] as int - '0' as int)
  }

  /** `int.Parse(s)` with the default integer style: white padding, an optional
      leading sign and at least one decimal digit; `None` where `int.Parse`
      throws and `int.TryParse` returns false. */
  function ParseInt32(s: string): (r: Option<int>)
    ensures r.Some? ==> Int32Min <= r.value <= Int32Max
  {
    var t := Trim(s);
    var signed := |t| > 0 && (t[0] == '-' || t[0] == '+');
    var digits := if signed then t[1..] else t;
    if |digits| == 0 || !AllDigits(digits) then None
    else
      var magnitude: int := DigitsValue(digits);
      var v: int := if signed && t[0] == '-' then -magnitude else magnitude;
      if Int32Min <= v <= Int32Max then Some(v) else None
  }

  /** The decimal text of a natural number, as `int.ToString()` writes it. */
  function NatText(n: nat): (s: string)
    ensures |s| > 0 && AllDigits(s)
  {
    if n < 10 then [('0' as int + n) as char]
    else NatText(n / 10) + [('0' as int + n % 10) as char]
  }

  lemma {:induction false} DigitsValueOfNatText(n: nat)
    ensures DigitsValue(NatText(n)) == n
  {
    if n >= 10 {
      var s := NatText(n);
      assert s[..|s| - 1] == NatText(n / 10);
      DigitsValueOfNatText(n / 10);
    }
  }

  /** Parsing inverts printing, for every value a 32-bit integer can hold,
      also with white padding around the text. */
  lemma ParseInt32OfText(n: int, w1: string, w2: string)
    requires 0 <= n <= Int32Max
    requires AllWhite(w1) && AllWhite(w2)
    ensures ParseInt32(w1 + NatText(n) + w2) == Some(n)
  {
    var t := NatText(n);
    assert Trimmed(t);
    TrimUnique(w1, t, w2);
    DigitsValueOfNatText(n);
    assert t[0] != '-' && t[0] != '+';
  }

  lemma ParseInt32OfNegativeText(n: int, w1: string, w2: string)
    requires Int32Min <= n < 0
    requires AllWhite(w1) && AllWhite(w2)
    ensures ParseInt32(w1 + ("-" + NatText(-n)) + w2) == Some(n)
  {
    var u := NatText(-n);
    var t := "-" + u;
    assert t[0] == '-' && t[1..] == u && t[|t| - 1] == u[|u| - 1];
    TrimUnique(w1, t, w2);
    DigitsValueOfNatText(-n);
    assert DigitsValue(Trim(w1 + t + w2)[1..]) == -n;
  }

  // ---------------------------------------------------------------------------
  // Rounding

  /** Rounding to the nearest integer, halves to the even neighbour
      (`MidpointRounding.ToEven`, the default of `Math.Round`). */
  function RoundHalfEven(x: real): (n: int)
    ensures x - 0.5 <= n as real <= x + 0.5
    ensures (n as real - x == 0.5 || x - n as real == 0.5) ==> n % 2 == 0
    ensures x == x.Floor as real ==> n == x.Floor
  {
    var f := x.Floor;
    var d := x - f as real;
    if d < 0.5 then f
    else if d > 0.5 then f + 1
    else if f % 2 == 0 then f
    else f + 1
  }

  /** `Math.Round(x, 2)` on an exact value. */
  function Round2(x: real): (r: real)
    ensures x - 0.005 <= r <= x + 0.005
  {
    RoundHalfEven(x * 100.0) as real / 100.0
  }

  /** A value that already has at most two decimals is left as it is. */
  lemma Round2KeepsCents(c: int)
    ensures Round2(c as real / 100.0) == c as real / 100.0
  {
    var x := c as real / 100.0;
    assert x * 100.0 == c as real;
    assert (x * 100.0).Floor == c;
  }

  /** Rounding keeps a value inside the grade range [0, 20]. */
  lemma Round2WithinGradeRange(x: real)
    requires 0.0 <= x <= 20.0
    ensures 0.0 <= Round2(x) <= 20.0
  {
    var y := x * 100.0;
    assert 0.0 <= y <= 2000.0;
    var n := RoundHalfEven(y);
    assert 0 <= y.Floor <= 2000;
    if y.Floor == 2000 {
      assert y == 2000.0;
    }
    assert 0 <= n <= 2000;
  }
}
