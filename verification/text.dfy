/**
 * Character classes and small string helpers shared by the result display and the
 * expression preprocessor. Python's `\d`, `str.isdigit` and `str.isalpha` are modelled on
 * ASCII (plus the letter 'π'); whitespace is the full set Python's `str.isspace` accepts.
 */
module Text {
  import opened Wrappers

  function Max(a: int, b: int): int { if a < b then b else a }
  function Min(a: int, b: int): int { if a < b then a else b }
  function Abs(a: int): nat { if a < 0 then -a else a }

  predicate IsDigit(c: char) { '0' <= c <= '9' }
  predicate IsAsciiLetter(c: char) { 'a' <= c <= 'z' || 'A' <= c <= 'Z' }

  /**
   * The characters Python's `str.isspace` (and so `str.strip()` and regex `\s`) accept: the
   * ASCII controls from tab to carriage return and from file to unit separator, the space, and
   * the Unicode separators.
   */
  predicate IsSpace(c: char)
  {
    c == ' ' || '\t' <= c <= '\r' || '\U{1C}' <= c <= '\U{1F}' || c == '\U{85}' || c == '\U{A0}'
    || c == '\U{1680}' || '\U{2000}' <= c <= '\U{200A}' || c == '\U{2028}' || c == '\U{2029}'
    || c == '\U{202F}' || c == '\U{205F}' || c == '\U{3000}'
  }

  predicate AllDigits(s: string) { forall i :: 0 <= i < |s| ==> IsDigit(s[i]) }

  // ---------------------------------------------------------------------------------------
  // Stripping whitespace (Python's str.strip())

  function StripLeft(s: string): (r: string)
    ensures |r| <= |s| && r == s[|s| - |r|..]
    ensures r == [] || !IsSpace(r[0])
    ensures forall i :: 0 <= i < |s| - |r| ==> IsSpace(s[i])
  {
    if s != [] && IsSpace(s[0]) then StripLeft(s[1..]) else s
  }

  function StripRight(s: string): (r: string)
    ensures |r| <= |s| && r == s[..|r|]
    ensures r == [] || !IsSpace(r[|r| - 1])
    ensures forall i :: |r| <= i < |s| ==> IsSpace(s[i])
  {
    if s != [] && IsSpace(s[|s| - 1]) then StripRight(s[..|s| - 1]) else s
  }

  /** Python's `s.strip()`: the text without leading and trailing whitespace. */
  function Strip(s: string): string
  {
    StripRight(StripLeft(s))
  }

  /** `not s or not s.strip()`: the text is empty or consists of whitespace only. */
  predicate IsBlank(s: string) { forall i :: 0 <= i < |s| ==> IsSpace(s[i]) }

  lemma {:induction false} StripEmptyIffBlank(s: string)
    ensures Strip(s) == [] <==> IsBlank(s)
  {
    var l := StripLeft(s);
    if l != [] {
      assert !IsSpace(s[|s| - |l|]);
    }
  }

  /** Stripping only looks at the ends: a text that neither starts nor ends with whitespace is kept. */
  lemma StripKeeps(s: string)
    requires s != [] && !IsSpace(s[0]) && !IsSpace(s[|s| - 1])
    ensures Strip(s) == s
  {
  }

  // ---------------------------------------------------------------------------------------
  // Decimal digits of natural numbers

  function DigitChar(d: nat): (c: char)
    requires d < 10
    ensures IsDigit(c)
  {
    ('0' as int + d) as char
  }

  function DigitValue(c: char): (d: nat)
    requires IsDigit(c)
    ensures d < 10 && DigitChar(d) == c
  {
    c as int - '0' as int
  }

  /** The number of decimal digits of `n`. */
  function NumDigits(n: nat): (r: nat)
    ensures r >= 1
  {
    if n < 10 then 1 else 1 + NumDigits(n / 10)
  }

  /** Python's `str(n)` for a natural number. */
  function NatToString(n: nat): (s: string)
    ensures |s| == NumDigits(n) && AllDigits(s)
  {
    if n < 10 then [DigitChar(n)] else NatToString(n / 10) + [DigitChar(n % 10)]
  }

  /** The value of a string of decimal digits (the empty string counts as 0). */
  function ParseNat(s: string): nat
    requires AllDigits(s)
  {
    if s == [] then 0 else ParseNat(s[..|s| - 1]) * 10 + DigitValue(s[|s| - 1])
  }

  lemma {:induction false} ParseNatToString(n: nat)
    ensures ParseNat(NatToString(n)) == n
  {
    var s := NatToString(n);
    if n >= 10 {
      ParseNatToString(n / 10);
      assert s[..|s| - 1] == NatToString(n / 10);
    }
  }

  function Pow10(k: nat): (p: nat)
    ensures p >= 1
  {
    if k == 0 then 1 else 10 * Pow10(k - 1)
  }

  lemma {:induction false} Pow10Monotone(a: nat, b: nat)
    requires a <= b
    ensures Pow10(a) <= Pow10(b)
  {
    if a < b { Pow10Monotone(a, b - 1); }
  }

  /** `n` has exactly NumDigits(n) digits: it lies between the two neighbouring powers of ten. */
  lemma {:induction false} NumDigitsBounds(n: nat)
    ensures n < Pow10(NumDigits(n))
    ensures NumDigits(n) >= 2 ==> Pow10(NumDigits(n) - 1) <= n
  {
    if n >= 10 {
      NumDigitsBounds(n / 10);
    }
  }

  lemma NumDigitsMonotone(a: nat, b: nat)
    requires a <= b
    ensures NumDigits(a) <= NumDigits(b)
  {
    NumDigitsBounds(a);
    NumDigitsBounds(b);
    Pow10Monotone(NumDigits(b), Max(NumDigits(b), NumDigits(a) - 1));
  }

  /** Within a window of seventeen consecutive numbers the digit count grows by at most one. */
  lemma NumDigitsSmallStep(a: nat, b: nat)
    requires a <= b <= a + 17
    ensures NumDigits(b) <= NumDigits(a) + 1
  {
    NumDigitsBounds(a);
    NumDigitsBounds(b);
    var na, nb := NumDigits(a), NumDigits(b);
    Pow10Monotone(na + 1, Max(na + 1, nb - 1));
    Pow10Monotone(1, na);
    assert Pow10(na + 1) == 10 * Pow10(na);
  }

  /** Python's `str(10**k)`: a one followed by `k` zeros. */
  lemma {:induction false} NatToStringPow10(k: nat)
    ensures NatToString(Pow10(k)) == "1" + Zeros(k)
  {
    if k > 0 {
      NatToStringPow10(k - 1);
      assert Pow10(k) / 10 == Pow10(k - 1) && Pow10(k) % 10 == 0;
      assert Zeros(k) == Zeros(k - 1) + "0";
    }
  }

  /** `n` is never shorter than the number of its own digits. */
  lemma NumDigitsAtMost(n: nat)
    requires n >= 1
    ensures NumDigits(n) <= n
  {
    if n >= 10 {
      NumDigitsAtMost(n / 10);
    }
  }

  // ---------------------------------------------------------------------------------------
  // Signed integers: `f"e{exponent:+d}"` and `int(text)`

  /** The length of the exponent suffix of `e`: the marker, the sign and the digits. */
  function ExpWidth(e: int): (r: nat)
    ensures r >= 3
  {
    2 + NumDigits(Abs(e))
  }

  /** Python's `f"e{exponent:+d}"`: the exponent suffix of a scientific rendering. */
  function ExpText(e: int): (r: string)
    ensures |r| == ExpWidth(e)
  {
    "e" + (if e < 0 then "-" else "+") + NatToString(Abs(e))
  }

  /** The suffix is the marker 'e', the sign of the exponent, then digits only. */
  lemma ExpTextShape(e: int)
    ensures var r := ExpText(e);
      r[0] == 'e' && r[1] == (if e < 0 then '-' else '+')
      && (forall i :: 2 <= i < |r| ==> IsDigit(r[i]))
      && r[2..] == NatToString(Abs(e))
  {
    var r := ExpText(e);
    assert r[2..] == NatToString(Abs(e));
  }

  /** Python's `int(text)` on the forms `[+-]?\d+`; any other text raises (None). */
  function ParseSignedInt(s: string): Option<int>
  {
    if s == [] then None
    else
      var negative := s[0] == '-';
      var body := if s[0] == '+' || s[0] == '-' then s[1..] else s;
      if body == [] || !AllDigits(body) then None
      else
        var magnitude: int := ParseNat(body);
        Some(if negative then -magnitude else magnitude)
  }

  /** The exponent suffix reads back as the exponent it was printed from. */
  lemma ExpTextRoundTrip(e: int)
    ensures ParseSignedInt(ExpText(e)[1..]) == Some(e)
  {
    var t := ExpText(e)[1..];
    assert t[1..] == NatToString(Abs(e));
    ParseNatToString(Abs(e));
  }

  // ---------------------------------------------------------------------------------------
  // Searching and counting

  /** The last index holding `c` (Python's `str.rfind`, with None for -1). */
  function LastIndexOf(s: string, c: char): (r: Option<nat>)
    ensures r.Some? ==> r.value < |s| && s[r.value] == c
                        && forall k :: r.value < k < |s| ==> s[k] != c
    ensures r.None? ==> forall k :: 0 <= k < |s| ==> s[k] != c
  {
    if s == [] then None
    else if s[|s| - 1] == c then Some(|s| - 1)
    else LastIndexOf(s[..|s| - 1], c)
  }

  /** The first index holding a character of `cs`. */
  function FirstIndexIn(s: string, cs: string): (r: Option<nat>)
    ensures r.Some? ==> r.value < |s| && s[r.value] in cs
                        && forall k :: 0 <= k < r.value ==> s[k] !in cs
    ensures r.None? ==> forall k :: 0 <= k < |s| ==> s[k] !in cs
  {
    if s == [] then None
    else if s[0] in cs then Some(0)
    else match FirstIndexIn(s[1..], cs)
      case None => None
      case Some(k) => Some(k + 1)
  }

  /** How many times `c` occurs in `s`. */
  function Count(s: string, c: char): nat
  {
    if s == [] then 0 else (if s[0] == c then 1 else 0) + Count(s[1..], c)
  }

  lemma {:induction false} CountAppend(a: string, b: string, c: char)
    ensures Count(a + b, c) == Count(a, c) + Count(b, c)
  {
    if a != [] {
      assert (a + b)[0] == a[0] && (a + b)[1..] == a[1..] + b;
      CountAppend(a[1..], b, c);
    } else {
      assert a + b == b;
    }
  }

  lemma {:induction false} CountAbsent(s: string, c: char)
    requires forall i :: 0 <= i < |s| ==> s[i] != c
    ensures Count(s, c) == 0
  {
    if s != [] { CountAbsent(s[1..], c); }
  }

  // ---------------------------------------------------------------------------------------
  // Zeros

  /** `"0" * n`. */
  function Zeros(n: nat): (r: string)
    ensures |r| == n
  {
    seq(n, _ => '0')
  }

  /**
   * The number of trailing '0' characters of `s`: the last `r` characters are '0' and the
   * one before them, if any, is not.
   */
  function TrailingZeros(s: string): (r: nat)
    ensures r <= |s|
    ensures forall i :: |s| - r <= i < |s| ==> s[i] == '0'
    ensures r == |s| || s[|s| - 1 - r] != '0'
  {
    if s != [] && s[|s| - 1] == '0' then 1 + TrailingZeros(s[..|s| - 1]) else 0
  }
}
