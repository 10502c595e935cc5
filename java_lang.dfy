/**
 * The few pieces of the Java platform that the scheduler's code leans on:
 * 32-bit int arithmetic, truncating division, Integer.toString / Integer.parseInt,
 * String.indexOf / compareTo / equalsIgnoreCase and java.util.StringTokenizer.
 */
module JavaLang {
  import opened Wrappers

  const IntMin: int := -0x8000_0000
  const IntMax: int := 0x7fff_ffff
  const TwoTo32: int := 0x1_0000_0000

  predicate IsInt32(x: int) { IntMin <= x <= IntMax }

  /** The value a Java `int` expression yields for the mathematical value x (two's complement wrap-around). */
  function Int32(x: int): (r: int)
    ensures IsInt32(r)
    ensures (x - r) % TwoTo32 == 0
    ensures IsInt32(x) ==> r == x
  {
    (x - IntMin) % TwoTo32 + IntMin
  }

  function Abs(x: int): nat { if x < 0 then -x else x }

  /** Java's integer `/`: the quotient truncated toward zero (Dafny's own `/` is Euclidean). */
  function Div(a: int, b: int): (q: int)
    requires b != 0
    ensures Abs(a - b * q) < Abs(b)
    ensures a - b * q == 0 || (a - b * q < 0) == (a < 0)
  {
    if a >= 0 && b > 0 then a / b
    else if a >= 0 then -(a / -b)
    else if b > 0 then -((-a) / b)
    else (-a) / (-b)
  }

  // ---------------------------------------------------------------- decimal text

  predicate IsDigit(c: char) { '0' <= c <= '9' }

  predicate AllDigits(s: string) { forall i | 0 <= i < |s| :: IsDigit(s[i]) }

  function DigitValue(c: char): int
    requires IsDigit(c)
  {
    c as int - '0' as int
  }

  function DigitChar(d: int): (c: char)
    requires 0 <= d < 10
    ensures IsDigit(c) && DigitValue(c) == d
  {
    (d + '0' as int) as char
  }

  /** The number a string of decimal digits denotes. */
  function DigitsValue(s: string): nat
    requires AllDigits(s)
  {
    if s == [] then 0 else DigitsValue(s[..|s| - 1]) * 10 + DigitValue(s[|s| - 1])
  }

  /** Integer.toString of a non-negative number: shortest decimal text, no sign. */
  function NatToString(n: nat): (s: string)
    ensures 0 < |s| && AllDigits(s)
    ensures DigitsValue(s) == n
    ensures n < 10 <==> |s| == 1
    ensures s[0] != '0' || n == 0
  {
    if n < 10 then [DigitChar(n)]
    else
      var prefix := NatToString(n / 10);
      var s := prefix + [DigitChar(n % 10)];
      assert s[..|s| - 1] == prefix;
      s
  }

  /** Integer.toString: a leading '-' for negative values. */
  function IntToString(n: int): (s: string)
    ensures 0 < |s|
    ensures forall i | 0 <= i < |s| :: IsDigit(s[i]) || s[i] == '-'
  {
    if n < 0 then "-" + NatToString(-n) else NatToString(n)
  }

  /**
   * Integer.parseInt(s) in radix 10: an optional sign, then at least one digit, and a
   * value within the int range; None stands for NumberFormatException.
   */
  function ParseInt(s: string): (r: Option<int>)
    ensures r.Some? ==> IsInt32(r.value)
    ensures r.Some? ==> 0 < |s|
  {
    if |s| == 0 then None
    else
      var negative := s[0] == '-';
      var digits := if s[0] == '-' || s[0] == '+' then s[1..] else s;
      if |digits| == 0 || !AllDigits(digits) then None
      else
        var d: int := DigitsValue(digits);
        var v := if negative then -d else d;
        if IsInt32(v) then Some(v) else None
  }

  /** Leading zeros do not change the value of a digit string. */
  lemma {:induction false} LeadingZero(s: string)
    requires AllDigits(s)
    ensures AllDigits("0" + s) && DigitsValue("0" + s) == DigitsValue(s)
  {
    var t := "0" + s;
    assert AllDigits(t) by {
      forall i | 0 <= i < |t| ensures IsDigit(t[i]) {
        if i > 0 { assert t[i] == s[i - 1]; }
      }
    }
    if s != [] {
      var init := s[..|s| - 1];
      LeadingZero(init);
      assert t[..|t| - 1] == "0" + init;
      assert t[|t| - 1] == s[|s| - 1];
    }
  }

  /** parseInt reads back what toString prints, over the whole int range. */
  lemma ParseIntToString(n: int)
    requires IsInt32(n)
    ensures ParseInt(IntToString(n)) == Some(n)
  {
    var s := IntToString(n);
    if n < 0 {
      assert s[1..] == NatToString(-n);
    } else {
      var t := NatToString(n);
      assert t[0] != '-' && t[0] != '+' by { assert IsDigit(t[0]); }
    }
  }

  /** parseInt of a digit string with one leading zero; used for zero-padded fields. */
  lemma ParsePadded(n: nat)
    requires n <= IntMax
    ensures ParseInt("0" + NatToString(n)) == Some(n)
  {
    LeadingZero(NatToString(n));
  }

  /** parseInt of a digit string with two leading zeros. */
  lemma ParseDoublePadded(n: nat)
    requires n <= IntMax
    ensures ParseInt("00" + NatToString(n)) == Some(n)
  {
    var s := NatToString(n);
    LeadingZero(s);
    LeadingZero("0" + s);
    assert "00" + s == "0" + ("0" + s);
  }

  // ---------------------------------------------------------------- strings

  /** String.indexOf(c, from): first position at or after `from` holding c, or -1. */
  function IndexOf(s: string, c: char, from: int): (i: int)
    ensures -1 <= i < |s| && (i >= 0 ==> from <= i)
    decreases |s| - from
  {
    if from < 0 then IndexOf(s, c, 0)
    else if from >= |s| then -1
    else if s[from] == c then from
    else IndexOf(s, c, from + 1)
  }

  /** indexOf finds the first c at or after `from`, and -1 exactly when there is none. */
  lemma {:induction false} IndexOfFirst(s: string, c: char, from: int)
    ensures var i := IndexOf(s, c, from);
      (i >= 0 ==> from <= i && s[i] == c && forall j | from <= j < i && 0 <= j :: s[j] != c) &&
      (i == -1 ==> forall j | from <= j < |s| && 0 <= j :: s[j] != c)
    decreases |s| - from
  {
    if from < 0 {
      IndexOfFirst(s, c, 0);
    } else if from < |s| && s[from] != c {
      IndexOfFirst(s, c, from + 1);
    }
  }

  /**
   * Character.toUpperCase on the characters whose case mapping reaches an ASCII letter: the
   * ASCII letters, the long s (U+017F), whose upper case is S, and the dotless i (U+0131),
   * whose upper case is I.
   */
  function ToUpperChar(c: char): char
  {
    if 'a' <= c <= 'z' then (c as int - 'a' as int + 'A' as int) as char
    else if c == '\U{017F}' then 'S'
    else if c == '\U{0131}' then 'I'
    else c
  }

  /**
   * Character.toLowerCase on the characters whose case mapping reaches an ASCII letter: the
   * ASCII letters, the capital I with dot above (U+0130), whose lower case is i, and the
   * Kelvin sign (U+212A), whose lower case is k.
   */
  function ToLowerChar(c: char): char
  {
    if 'A' <= c <= 'Z' then (c as int - 'A' as int + 'a' as int) as char
    else if c == '\U{0130}' then 'i'
    else if c == '\U{212A}' then 'k'
    else c
  }

  /**
   * The character test of String.equalsIgnoreCase: the two are equal, or equal in upper case,
   * or equal in the lower case of their upper case.
   */
  predicate CharsEqualIgnoreCase(c: char, d: char)
  {
    c == d || ToUpperChar(c) == ToUpperChar(d) || ToLowerChar(ToUpperChar(c)) == ToLowerChar(ToUpperChar(d))
  }

  /** String.equalsIgnoreCase: the same length, and the characters pairwise equal ignoring case. */
  predicate EqualsIgnoreCase(a: string, b: string)
  {
    |a| == |b| && forall i | 0 <= i < |a| :: CharsEqualIgnoreCase(a[i], b[i])
  }

  /**
   * A lower-case ASCII letter equals a character ignoring case exactly when the character is
   * that letter, its capital, or one of the non-ASCII characters Java maps onto it (long s,
   * dotless i, capital I with dot above, Kelvin sign).
   */
  lemma LetterEqualsIgnoreCase(l: char, c: char)
    requires 'a' <= l <= 'z'
    ensures CharsEqualIgnoreCase(l, c) <==>
      c == l || c == ToUpperChar(l) || (l == 's' && c == '\U{017F}') ||
      (l == 'i' && (c == '\U{0131}' || c == '\U{0130}')) || (l == 'k' && c == '\U{212A}')
  {
  }

  /** String.compareTo: difference of the first differing characters, else of the lengths. */
  function CompareStrings(a: string, b: string): (r: int)
    ensures r == 0 <==> a == b
  {
    if a == [] || b == [] then |a| - |b|
    else if a[0] != b[0] then a[0] as int - b[0] as int
    else
      var r := CompareStrings(a[1..], b[1..]);
      assert r == 0 ==> a == [a[0]] + a[1..] == [b[0]] + b[1..] == b;
      r
  }

  /** String.compareTo is antisymmetric: swapping the operands negates the result. */
  lemma {:induction false} CompareStringsAntisymmetric(a: string, b: string)
    ensures CompareStrings(a, b) == -CompareStrings(b, a)
  {
    if a != [] && b != [] && a[0] == b[0] {
      CompareStringsAntisymmetric(a[1..], b[1..]);
    }
  }

  /** String.compareTo is a transitive order. */
  lemma {:induction false} CompareStringsTransitive(a: string, b: string, c: string)
    requires CompareStrings(a, b) < 0 && CompareStrings(b, c) < 0
    ensures CompareStrings(a, c) < 0
  {
    if a != [] && b != [] && c != [] && a[0] == b[0] && b[0] == c[0] {
      CompareStringsTransitive(a[1..], b[1..], c[1..]);
    }
  }

  // ---------------------------------------------------------------- StringTokenizer

  predicate NoneOf(s: string, delims: set<char>)
  {
    forall i | 0 <= i < |s| :: s[i] !in delims
  }

  predicate AllOf(s: string, delims: set<char>)
  {
    forall i | 0 <= i < |s| :: s[i] in delims
  }

  /** Length of the longest delimiter-free prefix of s. */
  function RunLength(s: string, delims: set<char>): (n: nat)
    ensures n <= |s|
    ensures NoneOf(s[..n], delims)
    ensures n < |s| ==> s[n] in delims
  {
    if s == [] || s[0] in delims then 0
    else
      var n := 1 + RunLength(s[1..], delims);
      assert s[..n] == [s[0]] + s[1..][..n - 1];
      n
  }

  /**
   * The tokens a java.util.StringTokenizer hands out for s: the maximal non-empty runs of
   * characters outside `delims`, in order (countTokens() is their number).
   */
  function Tokens(s: string, delims: set<char>): (ts: seq<string>)
    ensures forall k | 0 <= k < |ts| :: 0 < |ts[k]| && NoneOf(ts[k], delims)
    decreases |s|
  {
    if s == [] then []
    else if s[0] in delims then Tokens(s[1..], delims)
    else
      var n := RunLength(s, delims);
      [s[..n]] + Tokens(s[n..], delims)
  }

  /** The parts, with `sep` between neighbours (StringBuffer appends in a loop). */
  function Join(parts: seq<string>, sep: string): string
  {
    if |parts| == 0 then ""
    else if |parts| == 1 then parts[0]
    else parts[0] + sep + Join(parts[1..], sep)
  }

  /** Join from position i on: the part at i, the separator, then the rest joined. */
  lemma JoinStep(parts: seq<string>, i: nat, sep: string)
    requires i + 1 < |parts|
    ensures Join(parts[i..], sep) == parts[i] + sep + Join(parts[i + 1..], sep)
  {
    assert parts[i..][1..] == parts[i + 1..];
  }

  lemma AppendThree(a: string, b: string, c: string, d: string)
    ensures a + b + c + d == a + (b + c + d)
  {
  }

  lemma {:induction false} TokensSkip(d: string, x: string, delims: set<char>)
    requires AllOf(d, delims)
    ensures Tokens(d + x, delims) == Tokens(x, delims)
  {
    if d != [] {
      assert (d + x)[0] == d[0] && d[0] in delims;
      assert (d + x)[1..] == d[1..] + x;
      assert Tokens(d + x, delims) == Tokens((d + x)[1..], delims);
      TokensSkip(d[1..], x, delims);
    } else {
      assert d + x == x;
    }
  }

  lemma {:induction false} RunLengthOf(p: string, rest: string, delims: set<char>)
    requires NoneOf(p, delims)
    requires rest == [] || rest[0] in delims
    ensures RunLength(p + rest, delims) == |p|
  {
    if p != [] {
      assert (p + rest)[1..] == p[1..] + rest;
      RunLengthOf(p[1..], rest, delims);
    }
  }

  /** Splitting the joined text on the separator's characters gives the parts back. */
  lemma {:induction false} TokensOfJoin(parts: seq<string>, sep: string, delims: set<char>)
    requires 0 < |sep| && AllOf(sep, delims)
    requires forall k | 0 <= k < |parts| :: 0 < |parts[k]| && NoneOf(parts[k], delims)
    ensures Tokens(Join(parts, sep), delims) == parts
  {
    if |parts| == 1 {
      var p := parts[0];
      RunLengthOf(p, [], delims);
      assert p + [] == p;
      assert p[..|p|] == p;
    } else if |parts| > 1 {
      var p := parts[0];
      var rest := sep + Join(parts[1..], sep);
      assert Join(parts, sep) == p + rest;
      RunLengthOf(p, rest, delims);
      assert (p + rest)[..|p|] == p;
      assert (p + rest)[|p|..] == rest;
      TokensSkip(sep, Join(parts[1..], sep), delims);
      TokensOfJoin(parts[1..], sep, delims);
      assert parts == [p] + parts[1..];
    }
  }
}
