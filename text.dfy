/** The string operations the checker relies on: `Trim`, `ToUpper`, `ToLower`
    and ordinal case-insensitive equality, over ASCII. */
module Text {

  /** The characters `string.Trim()` removes in this model: space and U+0009..U+000D. */
  predicate IsWhite(c: char) {
    c == ' ' || '\t' <= c <= '\r'
  }

  predicate AllWhite(s: string) {
    forall i :: 0 <= i < |s| ==> IsWhite(s[i])
  }

  /** Neither end of `s` is a white character. */
  predicate Trimmed(s: string) {
    s == [] || (!IsWhite(s[0]) && !IsWhite(s[|s| - 1]))
  }

  function TrimStart(s: string): (r: string)
    ensures |r| <= |s|
  {
    if |s| > 0 && IsWhite(s[0]) then TrimStart(s[1..]) else s
  }

  function TrimEnd(s: string): (r: string)
    ensures |r| <= |s|
  {
    if |s| > 0 && IsWhite(s[|s| - 1]) then TrimEnd(s[..|s| - 1]) else s
  }

  /** `string.Trim()`: drops the white characters at both ends. */
  function Trim(s: string): (r: string)
    ensures |r| <= |s|
  {
    TrimEnd(TrimStart(s))
  }

  function UpperChar(c: char): char {
    if 'a' <= c <= 'z' then (c as int - 'a' as int + 'A' as int) as char else c
  }

  function LowerChar(c: char): char {
    if 'A' <= c <= 'Z' then (c as int - 'A' as int + 'a' as int) as char else c
  }

  /** `ToUpper()` / `ToUpperInvariant()` restricted to ASCII letters. */
  function Upper(s: string): string {
    seq(|s|, i requires 0 <= i < |s| => UpperChar(s[i]))
  }

  /** `ToLower()` restricted to ASCII letters. */
  function Lower(s: string): string {
    seq(|s|, i requires 0 <= i < |s| => LowerChar(s[i]))
  }

  /** `string.Equals(a, b, StringComparison.OrdinalIgnoreCase)`. */
  predicate EqualsIgnoreCase(a: string, b: string) {
    Upper(a) == Upper(b)
  }

  // ---------------------------------------------------------------------------
  // Trim

  /** `Trim` is the one way to strip white padding: whatever white characters
      surround a trimmed core, `Trim` returns exactly that core. */
  lemma {:induction false} TrimUnique(a: string, t: string, b: string)
    requires AllWhite(a) && AllWhite(b) && Trimmed(t)
    ensures Trim(a + t + b) == t
  {
    if t == [] {
      assert a + t + b == a + b;
      AllWhiteTrimsToEmpty(a + b);
    } else {
      TrimStartDropsWhite(a, t + b);
      assert a + t + b == a + (t + b);
      assert (t + b)[0] == t[0];
      TrimEndDropsWhite(t, b);
    }
  }

  lemma {:induction false} TrimStartDropsWhite(a: string, u: string)
    requires AllWhite(a) && (u == [] || !IsWhite(u[0]))
    ensures TrimStart(a + u) == u
  {
    if a != [] {
      assert (a + u)[1..] == a[1..] + u;
      TrimStartDropsWhite(a[1..], u);
    }
  }

  lemma {:induction false} TrimEndDropsWhite(t: string, b: string)
    requires AllWhite(b) && (t == [] || !IsWhite(t[|t| - 1]))
    ensures TrimEnd(t + b) == t
  {
    if b != [] {
      assert (t + b)[..|t + b| - 1] == t + b[..|b| - 1];
      TrimEndDropsWhite(t, b[..|b| - 1]);
    } else {
      assert t + b == t;
    }
  }

  /** `TrimStart` drops a white prefix and stops at a non-white character. */
  lemma {:induction false} TrimStartShape(s: string)
    ensures TrimStart(s) == s[|s| - |TrimStart(s)|..]
    ensures TrimStart(s) == [] || !IsWhite(TrimStart(s)[0])
    ensures AllWhite(s[..|s| - |TrimStart(s)|])
  {
    if |s| > 0 && IsWhite(s[0]) {
      TrimStartShape(s[1..]);
      assert s[..|s| - |TrimStart(s)|] == [s[0]] + s[1..][..|s| - 1 - |TrimStart(s)|];
    }
  }

  /** `TrimEnd` drops a white suffix and stops at a non-white character. */
  lemma {:induction false} TrimEndShape(s: string)
    ensures TrimEnd(s) == s[..|TrimEnd(s)|]
    ensures TrimEnd(s) == [] || !IsWhite(TrimEnd(s)[|TrimEnd(s)| - 1])
    ensures AllWhite(s[|TrimEnd(s)|..])
  {
    if |s| > 0 && IsWhite(s[|s| - 1]) {
      TrimEndShape(s[..|s| - 1]);
      assert s[|TrimEnd(s)|..] == s[..|s| - 1][|TrimEnd(s)|..] + [s[|s| - 1]];
    }
  }

  /** Trimming twice is trimming once. */
  lemma TrimIdempotent(s: string)
    ensures Trim(Trim(s)) == Trim(s)
  {
    TrimIsTrimmed(s);
    TrimUnique([], Trim(s), []);
    assert [] + Trim(s) + [] == Trim(s);
  }

  /** The result of `Trim` has no white character at either end. */
  lemma TrimIsTrimmed(s: string)
    ensures Trimmed(Trim(s))
  {
    var u := TrimStart(s);
    TrimStartShape(s);
    TrimEndShape(u);
    var r := TrimEnd(u);
    if r != [] {
      assert r[0] == u[0];
    }
  }

  lemma AllWhiteTrimsToEmpty(s: string)
    requires AllWhite(s)
    ensures TrimStart(s) == [] && Trim(s) == []
  {
    TrimStartShape(s);
  }

  lemma AllWhiteConcat(x: string, y: string)
    requires AllWhite(x) && AllWhite(y)
    ensures AllWhite(x + y)
  {
  }

  lemma SeqAssoc5(p: string, q: string, r: string, s: string, t: string)
    ensures p + (q + r + s) + t == (p + q) + r + (s + t)
  {
  }

  /** Every string is its trimmed form with white padding around it. */
  lemma TrimSplit(s: string) returns (a: string, b: string)
    ensures AllWhite(a) && AllWhite(b) && s == a + Trim(s) + b
    ensures Trimmed(Trim(s))
  {
    TrimIsTrimmed(s);
    var u := TrimStart(s);
    var r := TrimEnd(u);
    TrimStartShape(s);
    TrimEndShape(u);
    a, b := s[..|s| - |u|], u[|r|..];
    SuffixThenPrefix(s, u, r);
  }

  /** A prefix `r` of a suffix `u` of `s` splits `s` into three parts. */
  lemma SuffixThenPrefix(s: string, u: string, r: string)
    requires |u| <= |s| && u == s[|s| - |u|..]
    requires |r| <= |u| && r == u[..|r|]
    ensures s == s[..|s| - |u|] + r + u[|r|..]
  {
    assert u == r + u[|r|..];
    assert s == s[..|s| - |u|] + u;
  }

  /** Trimming is idempotent and ignores any extra white padding. */
  lemma TrimIgnoresPadding(w1: string, s: string, w2: string)
    requires AllWhite(w1) && AllWhite(w2)
    ensures Trim(w1 + s + w2) == Trim(s)
    ensures Trim(Trim(s)) == Trim(s)
  {
    var a, b := TrimSplit(s);
    var t := Trim(s);
    assert w1 + s + w2 == (w1 + a) + t + (b + w2) by {
      assert s == a + t + b;
      SeqAssoc5(w1, a, t, b, w2);
    }
    AllWhiteConcat(w1, a);
    AllWhiteConcat(b, w2);
    TrimUnique(w1 + a, t, b + w2);
    assert [] + t + [] == t;
    TrimUnique([], t, []);
  }

  // ---------------------------------------------------------------------------
  // Case folding

  lemma UpperDistributes(a: string, b: string)
    ensures Upper(a + b) == Upper(a) + Upper(b)
  {
    assert forall i :: 0 <= i < |a + b| ==> Upper(a + b)[i] == (Upper(a) + Upper(b))[i];
  }

  /** Upper-casing changes no white character into a non-white one or back. */
  lemma UpperKeepsWhite(s: string)
    ensures AllWhite(s) ==> AllWhite(Upper(s))
    ensures Trimmed(s) ==> Trimmed(Upper(s))
  {
  }

  /** Trimming and upper-casing commute. */
  lemma UpperTrimCommute(s: string)
    ensures Upper(Trim(s)) == Trim(Upper(s))
  {
    var a, b := TrimSplit(s);
    UpperDistributes(a, Trim(s));
    UpperDistributes(a + Trim(s), b);
    UpperKeepsWhite(a);
    UpperKeepsWhite(b);
    UpperKeepsWhite(Trim(s));
    TrimUnique(Upper(a), Upper(Trim(s)), Upper(b));
  }

  lemma UpperOfLower(s: string)
    ensures Upper(Lower(s)) == Upper(s)
  {
  }

  /** Two keys that were lower-cased first are equal under the ordinal
      case-insensitive comparer exactly when they are equal. */
  lemma LoweredKeysCompareExactly(a: string, b: string)
    ensures EqualsIgnoreCase(Lower(a), Lower(b)) <==> Lower(a) == Lower(b)
  {
    if EqualsIgnoreCase(Lower(a), Lower(b)) {
      assert forall i :: 0 <= i < |a| ==> LowerChar(UpperChar(LowerChar(a[i]))) == LowerChar(a[i]);
      assert Lower(Upper(Lower(a))) == Lower(a);
      assert Lower(Upper(Lower(b))) == Lower(b);
    }
  }
}
