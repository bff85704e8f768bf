/**
 * Reading a result string into the (sign, digits, exponent) triple the result display scrolls
 * over, and writing the initial scientific rendering of such a triple.
 *
 * A triple stands for the number sign · 0.d0d1d2… · 10^(exponent + 1), that is the first digit
 * sits at the place 10^exponent and digit i at the place 10^(exponent - i).
 */
module ResultText {
  import opened Wrappers
  import opened Text

  /** Number of characters the result field shows. */
  const VisibleChars: nat := 17

  datatype Scientific = Scientific(sign: string, digits: string, exponent: int)

  predicate IsSignText(s: string) { s == "" || s == "+" || s == "-" }

  /** The optional leading `[+-]` of a stripped result string. */
  function SignPrefix(t: string): (r: string)
    ensures IsSignText(r) && |r| <= |t| && r == t[..|r|]
  {
    if t != [] && (t[0] == '+' || t[0] == '-') then t[..1] else ""
  }

  // ---------------------------------------------------------------------------------------
  // `_SCI_RE`: ^[+-]?\d(\.\d+)?[eE][+-]?\d+$

  /** The mantissa part `\d(\.\d+)?` of the scientific pattern. */
  predicate IsSciMantissa(m: string)
  {
    (|m| == 1 && IsDigit(m[0]))
    || (|m| >= 3 && IsDigit(m[0]) && m[1] == '.' && AllDigits(m[2..]))
  }

  /** The digits a scientific mantissa stands for: the integer digit then the fraction. */
  function MantissaDigits(m: string): (r: string)
    requires IsSciMantissa(m)
    ensures |r| >= 1 && AllDigits(r) && r[0] == m[0]
  {
    if |m| == 1 then m else [m[0]] + m[2..]
  }

  /**
   * `_parse_scientific`: the stripped text must match the scientific pattern in full; the digits
   * are the integer digit followed by the fraction and the exponent is read as a signed integer.
   */
  function ParseScientific(text: string): (r: Option<Scientific>)
    ensures r.Some? ==> IsSignText(r.value.sign) && |r.value.digits| >= 1 && AllDigits(r.value.digits)
  {
    var t := Strip(text);
    var sign := SignPrefix(t);
    ParseSciBody(sign, t[|sign|..])
  }

  /** The scientific pattern after its sign: the mantissa up to the first marker, then the exponent. */
  function ParseSciBody(sign: string, rest: string): (r: Option<Scientific>)
    requires IsSignText(sign)
    ensures r.Some? ==> r.value.sign == sign && |r.value.digits| >= 1 && AllDigits(r.value.digits)
  {
    match FirstIndexIn(rest, "eE")
    case None => None
    case Some(k) =>
      var mantissa := rest[..k];
      if !IsSciMantissa(mantissa) then None
      else match ParseSignedInt(rest[k + 1..])
        case None => None
        case Some(e) => Some(Scientific(sign, MantissaDigits(mantissa), e))
  }

  /** The text `sign d[.frac]e±NN` that a scientific rendering of these parts has. */
  function SciText(sign: string, d: char, frac: string, e: int): string
  {
    sign + [d] + (if frac == [] then "" else "." + frac) + ExpText(e)
  }

  /** The first exponent marker of `m + x` is the head of `x` when `m` holds none. */
  lemma {:induction false} FirstMarkerAfter(m: string, x: string)
    requires x != [] && x[0] == 'e'
    requires forall i :: 0 <= i < |m| ==> m[i] != 'e' && m[i] != 'E'
    ensures FirstIndexIn(m + x, "eE") == Some(|m|)
  {
    if m != [] {
      assert (m + x)[1..] == m[1..] + x;
      FirstMarkerAfter(m[1..], x);
    }
  }

  /** A signed text that starts with a digit and ends with a non-space is read without stripping. */
  lemma ParseScientificOfSigned(sign: string, body: string)
    requires IsSignText(sign) && body != [] && IsDigit(body[0]) && !IsSpace(body[|body| - 1])
    ensures ParseScientific(sign + body) == ParseSciBody(sign, body)
  {
    var s := sign + body;
    SignedTextEnds(sign, body);
    StripKeeps(s);
    SignedTextParts(sign, body);
  }

  /** A signed text that starts with a digit and ends with a non-space has no space at either end. */
  lemma SignedTextEnds(sign: string, body: string)
    requires IsSignText(sign) && body != [] && IsDigit(body[0]) && !IsSpace(body[|body| - 1])
    ensures !IsSpace((sign + body)[0]) && !IsSpace((sign + body)[|sign + body| - 1])
  {
    var s := sign + body;
    assert s[0] == (if sign == "" then body[0] else sign[0]);
    assert s[|s| - 1] == body[|body| - 1];
  }

  /** The sign of a signed text starting with a digit is read off as the sign, leaving the body. */
  lemma SignedTextParts(sign: string, body: string)
    requires IsSignText(sign) && body != [] && IsDigit(body[0])
    ensures SignPrefix(sign + body) == sign && (sign + body)[|sign|..] == body
  {
    var s := sign + body;
    assert s[0] == (if sign == "" then body[0] else sign[0]);
  }

  /** After the sign, a mantissa without markers followed by an exponent suffix reads as both. */
  lemma ParseSciBodyOfMantissa(sign: string, m: string, e: int)
    requires IsSignText(sign)
    requires forall i :: 0 <= i < |m| ==> m[i] != 'e' && m[i] != 'E'
    ensures ParseSciBody(sign, m + ExpText(e))
            == if IsSciMantissa(m) then Some(Scientific(sign, MantissaDigits(m), e)) else None
  {
    var x := ExpText(e);
    var rest := m + x;
    FirstMarkerAfter(m, x);
    assert rest[..|m|] == m;
    assert rest[|m| + 1..] == x[1..];
    ExpTextRoundTrip(e);
    assert ParseSignedInt(rest[|m| + 1..]) == Some(e);
  }

  /**
   * How `_parse_scientific` reads a signed mantissa followed by an exponent suffix: the text
   * parses exactly when the mantissa has the form `d` or `d.ddd`.
   */
  lemma ParseSignedMantissa(sign: string, m: string, e: int)
    requires IsSignText(sign) && m != [] && IsDigit(m[0])
    requires forall i :: 0 <= i < |m| ==> m[i] != 'e' && m[i] != 'E'
    ensures ParseScientific(sign + m + ExpText(e))
            == if IsSciMantissa(m) then Some(Scientific(sign, MantissaDigits(m), e)) else None
  {
    var x := ExpText(e);
    assert sign + m + x == sign + (m + x);
    assert (m + x)[|m + x| - 1] == x[|x| - 1];
    ParseScientificOfSigned(sign, m + x);
    ParseSciBodyOfMantissa(sign, m, e);
  }

  /** A scientific rendering reads back as the sign, digits and exponent it was written from. */
  lemma ParseSciText(sign: string, d: char, frac: string, e: int)
    requires IsSignText(sign) && IsDigit(d) && AllDigits(frac)
    ensures ParseScientific(SciText(sign, d, frac, e)) == Some(Scientific(sign, [d] + frac, e))
  {
    var m := [d] + (if frac == [] then "" else "." + frac);
    assert SciText(sign, d, frac, e) == sign + m + ExpText(e);
    SciMantissaShape(d, frac);
    ParseSignedMantissa(sign, m, e);
  }

  /** The mantissa `d[.frac]` of a rendering is a scientific mantissa standing for `d` and `frac`. */
  lemma SciMantissaShape(d: char, frac: string)
    requires IsDigit(d) && AllDigits(frac)
    ensures var m := [d] + (if frac == [] then "" else "." + frac);
      m[0] == d && (forall i :: 0 <= i < |m| ==> m[i] != 'e' && m[i] != 'E')
      && IsSciMantissa(m) && MantissaDigits(m) == [d] + frac
  {
    var m := [d] + (if frac == [] then "" else "." + frac);
    assert forall i :: 0 <= i < |m| ==> m[i] == '.' || IsDigit(m[i]);
    if frac != [] {
      assert m[2..] == frac;
    }
  }

  // ---------------------------------------------------------------------------------------
  // `_DEC_RE`: ^[+-]?(\d+(\.\d*)?|\.\d+)$

  /** The length of the longest prefix of `s` made of digits. */
  function DigitRun(s: string): (n: nat)
    ensures n <= |s| && AllDigits(s[..n]) && (n == |s| || !IsDigit(s[n]))
  {
    if s == [] || !IsDigit(s[0]) then 0
    else
      var n := 1 + DigitRun(s[1..]);
      assert s[..n] == [s[0]] + s[1..][..n - 1];
      n
  }

  /** The groups of a decimal match: the sign, the integer digits (or "0") and the fraction. */
  datatype DecimalParts = DecimalParts(sign: string, intPart: string, fracPart: string)

  /**
   * The match of the decimal pattern on the stripped text, with `int` defaulting to "0" and the
   * fraction taken from the `frac` or the `only_frac` group (or "").
   */
  function MatchDecimal(text: string): (r: Option<DecimalParts>)
    ensures r.Some? ==> IsSignText(r.value.sign) && |r.value.intPart| >= 1
                        && AllDigits(r.value.intPart) && AllDigits(r.value.fracPart)
  {
    var t := Strip(text);
    var sign := SignPrefix(t);
    var rest := t[|sign|..];
    var n := DigitRun(rest);
    if n > 0 then
      if n == |rest| then
        assert rest[..n] == rest;
        Some(DecimalParts(sign, rest, ""))
      else if rest[n] == '.' && AllDigits(rest[n + 1..]) then Some(DecimalParts(sign, rest[..n], rest[n + 1..]))
      else None
    else if |rest| >= 2 && rest[0] == '.' && AllDigits(rest[1..]) then Some(DecimalParts(sign, "0", rest[1..]))
    else None
  }

  predicate AllZeros(s: string) { forall i :: 0 <= i < |s| ==> s[i] == '0' }

  /** The index of the first character of `s` that is not '0'. */
  function FirstNonZero(s: string): (r: Option<nat>)
    ensures r.Some? ==> r.value < |s| && s[r.value] != '0' && AllZeros(s[..r.value])
    ensures r.None? ==> AllZeros(s)
  {
    if s == [] then None
    else if s[0] != '0' then Some(0)
    else match FirstNonZero(s[1..])
      case None => None
      case Some(k) =>
        assert s[..k + 1] == [s[0]] + s[1..][..k];
        Some(k + 1)
  }

  /** The normalisation step of `_parse_decimal_as_scientific`. */
  function NormalizeDecimal(p: DecimalParts): Scientific
  {
    if AllZeros(p.intPart) && AllZeros(p.fracPart) then Scientific(p.sign, "0", 0)
    else match FirstNonZero(p.intPart)
      case Some(i) => Scientific(p.sign, p.intPart[i..] + p.fracPart, |p.intPart| - i - 1)
      case None =>
        match FirstNonZero(p.fracPart)
        case None => Scientific(p.sign, "0", 0)
        case Some(j) => Scientific(p.sign, p.fracPart[j..], -(j + 1))
  }

  /**
   * `_parse_decimal_as_scientific`: a plain decimal (optionally signed, with an optional
   * fraction, or a fraction alone) as a normalised triple.
   */
  function ParseDecimalAsScientific(text: string): Option<Scientific>
  {
    match MatchDecimal(text)
    case None => None
    case Some(p) => Some(NormalizeDecimal(p))
  }

  /** Appending a digit scales the value of a concatenation place by place. */
  lemma ShiftDigit(x: int, p: int, y: int)
    ensures (x * p + y) * 10 == x * (10 * p) + y * 10
  {
  }

  lemma {:induction false} ParseNatAppend(a: string, b: string)
    requires AllDigits(a) && AllDigits(b)
    ensures ParseNat(a + b) == ParseNat(a) * Pow10(|b|) + ParseNat(b)
  {
    if b != [] {
      var b' := b[..|b| - 1];
      var last := DigitValue(b[|b| - 1]);
      assert (a + b)[..|a + b| - 1] == a + b' && (a + b)[|a + b| - 1] == b[|b| - 1];
      ParseNatAppend(a, b');
      assert ParseNat(a + b) == (ParseNat(a) * Pow10(|b'|) + ParseNat(b')) * 10 + last;
      assert ParseNat(b) == ParseNat(b') * 10 + last;
      assert Pow10(|b|) == 10 * Pow10(|b'|);
      ShiftDigit(ParseNat(a), Pow10(|b'|), ParseNat(b'));
    } else {
      assert a + b == a;
    }
  }

  lemma {:induction false} ParseNatZeros(s: string)
    requires AllZeros(s)
    ensures AllDigits(s) && ParseNat(s) == 0
  {
    if s != [] {
      ParseNatZeros(s[..|s| - 1]);
    }
  }

  /** Leading zeros do not change the value of a digit string. */
  lemma ParseNatDropZeros(s: string, k: nat)
    requires AllDigits(s) && k <= |s| && AllZeros(s[..k])
    ensures ParseNat(s[k..]) == ParseNat(s)
  {
    assert s == s[..k] + s[k..];
    ParseNatAppend(s[..k], s[k..]);
    ParseNatZeros(s[..k]);
  }

  /** The value-zero case of the normalisation. */
  lemma NormalizeZeroValue(p: DecimalParts)
    requires AllZeros(p.intPart) && AllZeros(p.fracPart)
    ensures NormalizeDecimal(p) == Scientific(p.sign, "0", 0)
    ensures AllDigits(p.intPart + p.fracPart) && ParseNat(p.intPart + p.fracPart) == 0
  {
    assert AllZeros(p.intPart + p.fracPart);
    ParseNatZeros(p.intPart + p.fracPart);
  }

  /** Dropping the zeros in front of the first significant digit, wherever it is, keeps the value. */
  lemma NormalizeLeadValue(p: DecimalParts, lead: nat)
    requires AllDigits(p.intPart) && AllDigits(p.fracPart)
    requires lead < |p.intPart| + |p.fracPart|
    requires AllZeros((p.intPart + p.fracPart)[..lead])
    ensures ParseNat((p.intPart + p.fracPart)[lead..]) == ParseNat(p.intPart + p.fracPart)
  {
    ParseNatDropZeros(p.intPart + p.fracPart, lead);
  }

  /**
   * Normalisation keeps the value: the digits spell the same number as the integer and fraction
   * digits together, and unless the value is zero they start with a non-zero digit and their
   * last digit sits at the place of the fraction's last digit.
   */
  lemma NormalizeDecimalValue(p: DecimalParts)
    requires |p.intPart| >= 1 && AllDigits(p.intPart) && AllDigits(p.fracPart)
    ensures var r := NormalizeDecimal(p);
      r.sign == p.sign && |r.digits| >= 1 && AllDigits(r.digits)
      && ParseNat(r.digits) == ParseNat(p.intPart + p.fracPart)
      && (if AllZeros(p.intPart) && AllZeros(p.fracPart)
          then r.digits == "0" && r.exponent == 0
          else r.digits[0] != '0' && r.exponent - (|r.digits| - 1) == -|p.fracPart|)
  {
    var s := p.intPart + p.fracPart;
    if AllZeros(p.intPart) && AllZeros(p.fracPart) {
      NormalizeZeroValue(p);
    } else {
      match FirstNonZero(p.intPart)
      case Some(i) =>
        assert s[..i] == p.intPart[..i];
        assert s[i..] == p.intPart[i..] + p.fracPart;
        NormalizeLeadValue(p, i);
      case None =>
        var j := FirstNonZero(p.fracPart).value;
        assert s[..|p.intPart| + j] == p.intPart + p.fracPart[..j];
        assert AllZeros(s[..|p.intPart| + j]);
        assert s[|p.intPart| + j..] == p.fracPart[j..];
        NormalizeLeadValue(p, |p.intPart| + j);
    }
  }

  /** A parsed decimal has a non-empty digit string that is "0" or starts with a non-zero digit. */
  lemma ParseDecimalNormalised(text: string)
    requires ParseDecimalAsScientific(text).Some?
    ensures var r := ParseDecimalAsScientific(text).value;
      IsSignText(r.sign) && |r.digits| >= 1 && AllDigits(r.digits)
      && (r.digits == "0" ==> r.exponent == 0)
      && (r.digits != "0" ==> r.digits[0] != '0')
  {
    NormalizeDecimalValue(MatchDecimal(text).value);
  }

  // ---------------------------------------------------------------------------------------
  // `_format_initial_scientific`

  /** The room left for the mantissa once the sign and the exponent suffix are written. */
  function MantissaBudget(sign: string, e: int): (b: nat)
    ensures b >= 1
  {
    Max(1, VisibleChars - |sign| - ExpWidth(e))
  }

  /**
   * `_format_initial_scientific` as written: one digit for a budget of one, the first two digits
   * side by side (no decimal point) for a budget of two, otherwise `d.fff` with as many fraction
   * digits as fit.
   */
  function FormatInitialScientificAsWritten(sign: string, digits: string, e: int): (r: string)
    requires |digits| >= 1
    ensures |r| <= |sign| + MantissaBudget(sign, e) + ExpWidth(e)
  {
    sign + MantissaAsWritten(digits, MantissaBudget(sign, e)) + ExpText(e)
  }

  /** The mantissa `_format_initial_scientific` writes for a given budget. */
  function MantissaAsWritten(digits: string, budget: nat): (m: string)
    requires |digits| >= 1 && budget >= 1
    ensures |m| <= budget
  {
    if budget == 1 then digits[..1]
    else if budget == 2 then (if |digits| >= 2 then digits[..2] else digits[..1])
    else
      var frac := digits[1..Min(|digits|, budget - 1)];
      if frac == [] then digits[..1] else digits[..1] + "." + frac
  }

  /** The fraction digits that fit a mantissa budget: none for a budget of two or less. */
  function InitialFraction(digits: string, budget: nat): (r: string)
    requires |digits| >= 1
    ensures |r| <= |digits| - 1 && r == digits[1..1 + |r|]
    ensures budget >= 2 ==> |r| <= budget - 2
  {
    if budget <= 2 then "" else digits[1..Min(|digits|, budget - 1)]
  }

  /**
   * The initial scientific text with the budget-two case showing the first digit alone: every
   * rendering is `sign d[.fff]e±NN` for a prefix of the digits.
   */
  function FormatInitialScientific(sign: string, digits: string, e: int): (r: string)
    requires |digits| >= 1
    ensures |r| <= |sign| + MantissaBudget(sign, e) + ExpWidth(e)
  {
    SciText(sign, digits[0], InitialFraction(digits, MantissaBudget(sign, e)), e)
  }

  /** The initial text fits the visible field whenever the sign and exponent leave room for a digit. */
  lemma FormatInitialScientificFits(sign: string, digits: string, e: int)
    requires |digits| >= 1 && |sign| + ExpWidth(e) < VisibleChars
    ensures |FormatInitialScientific(sign, digits, e)| <= VisibleChars
  {
  }

  /** The initial text always reads back as the sign, a prefix of the digits and the exponent. */
  lemma FormatInitialScientificReads(sign: string, digits: string, e: int)
    requires |digits| >= 1 && IsSignText(sign) && AllDigits(digits)
    ensures exists k :: (1 <= k <= |digits| &&
      ParseScientific(FormatInitialScientific(sign, digits, e)) == Some(Scientific(sign, digits[..k], e)))
  {
    var frac := InitialFraction(digits, MantissaBudget(sign, e));
    var text := FormatInitialScientific(sign, digits, e);
    assert text == SciText(sign, digits[0], frac, e);
    SciTextOfPrefix(sign, digits, frac, e);
    assert ParseScientific(text) == Some(Scientific(sign, digits[..1 + |frac|], e));
  }

  /** A rendering of the first digit and the next ones as its fraction reads back as that prefix. */
  lemma SciTextOfPrefix(sign: string, digits: string, frac: string, e: int)
    requires |digits| >= 1 && IsSignText(sign) && AllDigits(digits)
    requires |frac| <= |digits| - 1 && frac == digits[1..1 + |frac|]
    ensures ParseScientific(SciText(sign, digits[0], frac, e)) == Some(Scientific(sign, digits[..1 + |frac|], e))
  {
    assert [digits[0]] + frac == digits[..1 + |frac|];
    assert forall i :: 0 <= i < |frac| ==> frac[i] == digits[i + 1];
    ParseSciText(sign, digits[0], frac, e);
  }

  /**
   * As written, a budget of two puts two digits side by side without a decimal point: with no
   * sign and the exponent 10^12, whose suffix `e+1000000000000` takes fifteen characters, the
   * digits "25" (the value 2.5e+1000000000000) are shown as `25e+1000000000000`, a value ten
   * times larger that no longer reads as a scientific rendering; the corrected text is
   * `2e+1000000000000`.
   */
  lemma FormatInitialScientificTwoDigitBudget()
    ensures FormatInitialScientificAsWritten("", "25", Pow10(12)) == "25" + ExpText(Pow10(12))
    ensures ParseScientific(FormatInitialScientificAsWritten("", "25", Pow10(12))).None?
    ensures FormatInitialScientific("", "25", Pow10(12)) == "2" + ExpText(Pow10(12))
  {
    var e := Pow10(12);
    NatToStringPow10(12);
    assert ExpWidth(e) == 15;
    assert MantissaBudget("", e) == 2;
    TwoDigitBudgetTexts(e);
  }

  /**
   * The two formatters disagree exactly in the case above: a budget of two with at least two
   * digits. Everywhere else the corrected text is the text the code writes.
   */
  lemma FormatInitialScientificAgreement(sign: string, digits: string, e: int)
    requires |digits| >= 1
    ensures FormatInitialScientificAsWritten(sign, digits, e) == FormatInitialScientific(sign, digits, e)
      <==> !(MantissaBudget(sign, e) == 2 && |digits| >= 2)
  {
    var b := MantissaBudget(sign, e);
    var frac := InitialFraction(digits, b);
    var corrected := [digits[0]] + (if frac == [] then "" else "." + frac);
    assert FormatInitialScientific(sign, digits, e) == sign + corrected + ExpText(e);
    MantissaAgreement(digits, b);
    ConcatCancel(sign, MantissaAsWritten(digits, b), corrected, ExpText(e));
  }

  /** The mantissas of the two formatters agree except for a budget of two and two digits or more. */
  lemma MantissaAgreement(digits: string, b: nat)
    requires |digits| >= 1 && b >= 1
    ensures var frac := InitialFraction(digits, b);
      MantissaAsWritten(digits, b) == [digits[0]] + (if frac == [] then "" else "." + frac)
      <==> !(b == 2 && |digits| >= 2)
  {
    assert digits[..1] == [digits[0]];
  }

  /** Concatenations with the same head and tail are equal exactly when their middles are. */
  lemma ConcatCancel(a: string, m1: string, m2: string, x: string)
    ensures a + m1 + x == a + m2 + x <==> m1 == m2
  {
    if a + m1 + x == a + m2 + x {
      assert |m1| == |m2|;
      assert m1 == (a + m1 + x)[|a|..|a| + |m1|];
      assert m2 == (a + m2 + x)[|a|..|a| + |m2|];
    }
  }

  lemma TwoDigitBudgetTexts(e: int)
    requires MantissaBudget("", e) == 2
    ensures FormatInitialScientificAsWritten("", "25", e) == "25" + ExpText(e)
    ensures ParseScientific(FormatInitialScientificAsWritten("", "25", e)).None?
    ensures FormatInitialScientific("", "25", e) == "2" + ExpText(e)
  {
    assert MantissaAsWritten("25", 2) == "25";
    assert FormatInitialScientificAsWritten("", "25", e) == "25" + ExpText(e);
    TwoDigitsDoNotParse("25", e);
    assert InitialFraction("25", 2) == "";
    assert FormatInitialScientific("", "25", e) == SciText("", '2', "", e);
    assert SciText("", '2', "", e) == "" + "2" + "" + ExpText(e);
  }

  /** Two digits side by side before the exponent suffix are no scientific rendering. */
  lemma TwoDigitsDoNotParse(m: string, e: int)
    requires |m| == 2 && IsDigit(m[0]) && IsDigit(m[1])
    ensures ParseScientific(m + ExpText(e)).None?
  {
    ParseSignedMantissa("", m, e);
    assert "" + m + ExpText(e) == m + ExpText(e);
  }
}
