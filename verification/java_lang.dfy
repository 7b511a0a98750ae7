/**
 * The pieces of the Java platform that the keep-alive rule relies on:
 * 64-bit `long` arithmetic, `Long.parseLong` and `String.equalsIgnoreCase`.
 * Strings are sequences of characters; a Java `char` is a UTF-16 code unit,
 * here a Unicode scalar value, which makes no difference to the ASCII text
 * the rule inspects.
 */
module JavaLang {
  import opened Wrappers

  // ---------------------------------------------------------------------
  // long: 64-bit two's complement integers
  // ---------------------------------------------------------------------

  const MinInt64: int := -0x8000_0000_0000_0000
  const MaxInt64: int := 0x7FFF_FFFF_FFFF_FFFF
  const TwoTo64: int := 0x1_0000_0000_0000_0000

  /** Java's `long`. */
  newtype int64 = x: int | MinInt64 <= x <= MaxInt64

  predicate InInt64Range(x: int) {
    MinInt64 <= x <= MaxInt64
  }

  /**
   * The `long` that Java's arithmetic leaves when the exact result is `x`:
   * the one value of the range congruent to `x` modulo 2^64.
   */
  function WrapInt64(x: int): (r: int64)
    ensures (r as int - x) % TwoTo64 == 0
    ensures InInt64Range(x) ==> r as int == x
  {
    var m := (x - MinInt64) % TwoTo64;
    assert x - MinInt64 == TwoTo64 * ((x - MinInt64) / TwoTo64) + m;
    (m + MinInt64) as int64
  }

  /** `a * b` on two `long`s, which wraps silently on overflow. */
  function MultiplyInt64(a: int64, b: int64): (r: int64)
    ensures InInt64Range(a as int * b as int) ==> r as int == a as int * b as int
    ensures (r as int - a as int * b as int) % TwoTo64 == 0
  {
    WrapInt64(a as int * b as int)
  }

  // ---------------------------------------------------------------------
  // Long.parseLong(String) in radix 10
  // ---------------------------------------------------------------------

  predicate IsDigit(c: char) {
    '0' <= c <= '9'
  }

  predicate AllDigits(s: string) {
    forall i :: 0 <= i < |s| ==> IsDigit(s[i])
  }

  function DigitValue(c: char): nat
    requires IsDigit(c)
  {
    c as int - '0' as int
  }

  /** The number a string of decimal digits denotes, most significant first. */
  function DigitsValue(s: string): nat
    requires AllDigits(s)
  {
    if s == [] then 0 else DigitsValue(s[..|s| - 1]) * 10 + DigitValue(s[|s| - 1])
  }

  /** The characters after an optional leading sign. */
  function Unsigned(s: string): string {
    if s != [] && (s[0] == '-' || s[0] == '+') then s[1..] else s
  }

  /**
   * `Long.parseLong(s)`: an optional `+` or `-`, then at least one decimal
   * digit, denoting a value of the `long` range. Anything else (the empty
   * string, a lone sign, a blank, a second sign, a decimal point, a value
   * out of range) makes Java throw `NumberFormatException`, here `None`.
   */
  function ParseInt64(s: string): (r: Option<int64>)
    ensures r.Some? ==> Unsigned(s) != [] && AllDigits(Unsigned(s))
    ensures r.Some? && s[0] == '-' ==> r.value as int == 0 - DigitsValue(Unsigned(s)) as int
    ensures r.Some? && s[0] != '-' ==> r.value as int == DigitsValue(Unsigned(s))
    ensures (s != [] && s[0] != '-' && AllDigits(Unsigned(s)) && DigitsValue(Unsigned(s)) > MaxInt64)
            ==> r == None
    ensures (s != [] && s[0] == '-' && AllDigits(Unsigned(s)) && DigitsValue(Unsigned(s)) > -MinInt64)
            ==> r == None
    ensures (Unsigned(s) != [] && AllDigits(Unsigned(s))
             && InInt64Range(if s[0] == '-' then 0 - DigitsValue(Unsigned(s)) as int else DigitsValue(Unsigned(s)) as int))
            ==> r.Some?
  {
    var digits := Unsigned(s);
    if digits == [] || !AllDigits(digits) then None
    else
      var magnitude: int := DigitsValue(digits);
      var v := if s[0] == '-' then -magnitude else magnitude;
      if InInt64Range(v) then Some(v as int64) else None
  }

  // ---------------------------------------------------------------------
  // Long.toString(long), the inverse of parseLong
  // ---------------------------------------------------------------------

  function DigitChar(d: nat): (c: char)
    requires d < 10
    ensures IsDigit(c) && DigitValue(c) == d
  {
    ('0' as int + d) as char
  }

  /** The decimal digits of `n`, without leading zeros. */
  function Digits(n: nat): (s: string)
    ensures s != [] && AllDigits(s)
  {
    if n < 10 then [DigitChar(n)] else Digits(n / 10) + [DigitChar(n % 10)]
  }

  /** `Long.toString(n)`: a `-` for negative values, then the digits of |n|. */
  function FormatInt64(n: int64): string {
    if n < 0 then "-" + Digits(-(n as int)) else Digits(n as int)
  }

  lemma {:induction false} DigitsValueOfDigits(n: nat)
    ensures DigitsValue(Digits(n)) == n
  {
    if n >= 10 {
      var s := Digits(n);
      assert s[..|s| - 1] == Digits(n / 10);
      DigitsValueOfDigits(n / 10);
    }
  }

  /** Every `long` printed in decimal parses back to itself. */
  lemma ParseFormatRoundTrip(n: int64)
    ensures ParseInt64(FormatInt64(n)) == Some(n)
  {
    if n < 0 {
      var s := FormatInt64(n);
      assert Unsigned(s) == Digits(-(n as int));
      DigitsValueOfDigits(-(n as int));
    } else {
      var s := FormatInt64(n);
      assert Unsigned(s) == s;
      DigitsValueOfDigits(n as int);
    }
  }

  // ---------------------------------------------------------------------
  // String.equalsIgnoreCase(String)
  // ---------------------------------------------------------------------

  /**
   * `Character.toUpperCase` on the characters it matters for: the ASCII
   * letters, and the dotless i (U+0131), whose upper case is `I`.
   */
  function ToUpperCase(c: char): char {
    if 'a' <= c <= 'z' then (c as int - 32) as char
    else if c == '\U{0131}' then 'I'
    else c
  }

  /**
   * `Character.toLowerCase` on the characters it matters for: the ASCII
   * letters, and the dotted capital I (U+0130), whose lower case is `i`.
   */
  function ToLowerCase(c: char): char {
    if 'A' <= c <= 'Z' then (c as int + 32) as char
    else if c == '\U{0130}' then 'i'
    else c
  }

  /**
   * Two characters are equal ignoring case when they are the same, when
   * their upper cases are the same, or when the lower cases of their upper
   * cases are the same: the three tests `String.regionMatches` makes.
   */
  predicate CharEqualsIgnoreCase(c1: char, c2: char) {
    c1 == c2
    || ToUpperCase(c1) == ToUpperCase(c2)
    || ToLowerCase(ToUpperCase(c1)) == ToLowerCase(ToUpperCase(c2))
  }

  /**
   * `a.equalsIgnoreCase(b)` for a non-null `b`: same length, and equal
   * ignoring case character by character, which is to say with the same
   * case key at every position.
   */
  predicate EqualsIgnoreCase(a: string, b: string): (r: bool)
    ensures a == b ==> r
    ensures r <==> |a| == |b| && forall i :: 0 <= i < |a| ==> CaseKey(a[i]) == CaseKey(b[i])
  {
    |a| == |b| && forall i :: 0 <= i < |a| ==> CharEqualsIgnoreCase(a[i], b[i])
  }

  /** The key under which characters equal ignoring case coincide. */
  function CaseKey(c: char): char {
    ToLowerCase(ToUpperCase(c))
  }

  /** A string with every character replaced by its case key. */
  function FoldCase(s: string): (r: string)
    ensures |r| == |s|
  {
    if s == [] then [] else FoldCase(s[..|s| - 1]) + [CaseKey(s[|s| - 1])]
  }

  lemma {:induction false} FoldCaseAt(s: string, i: nat)
    requires i < |s|
    ensures FoldCase(s)[i] == CaseKey(s[i])
  {
    if i < |s| - 1 {
      FoldCaseAt(s[..|s| - 1], i);
    }
  }

  /**
   * `equalsIgnoreCase` is equality of case-folded strings; in particular it
   * is reflexive, symmetric and transitive.
   */
  lemma EqualsIgnoreCaseIffSameFold(a: string, b: string)
    ensures EqualsIgnoreCase(a, b) <==> FoldCase(a) == FoldCase(b)
  {
    if EqualsIgnoreCase(a, b) {
      forall i | 0 <= i < |a|
        ensures FoldCase(a)[i] == FoldCase(b)[i]
      {
        FoldCaseAt(a, i);
        FoldCaseAt(b, i);
      }
    }
    if FoldCase(a) == FoldCase(b) {
      forall i | 0 <= i < |a|
        ensures CharEqualsIgnoreCase(a[i], b[i])
      {
        FoldCaseAt(a, i);
        FoldCaseAt(b, i);
      }
    }
  }
}
