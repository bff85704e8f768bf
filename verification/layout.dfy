/**
 * What the result field shows for a scrolled number, as pure functions of the scrolled value and
 * the scroll position ("shift"). The shift counts how many leading digits have scrolled out on
 * the left; position 0 shows the initial text.
 *
 * Digit i of the value sits at the place 10^(exponent - i); the "virtual digits" are the digits,
 * extended with the integer's trailing zeros when the value is an integer whose tail is short
 * enough to be shown in plain form.
 */
module Layout {
  import opened Wrappers
  import opened Text
  import opened ResultText

  /** Shifted renderings whose exponent stays below this are shown as plain digits. */
  const PlainTailLastExponent: int := 4

  /** An integer whose tail holds more zeros than this is never shown in plain form. */
  const ZeroThreshold: nat := VisibleChars / 2

  /** The rounds the mantissa-width fixed point is given. */
  const FitRounds: nat := 4

  /** Where the scrolled value came from: `_sci_source_kind` (None, "scientific" or "decimal"). */
  datatype SourceKind = NoSource | ScientificSource | DecimalSource

  /**
   * The scrolled value: `_sci_sign`, `_sci_digits`, `_sci_exponent`, `_sci_source_kind` and
   * `_sci_initial_text`.
   */
  datatype SciValue = SciValue(sign: string, digits: string, exponent: int, kind: SourceKind, initial: string)

  /** What the two result parsers produce: a sign and a non-empty digit string. */
  predicate WellFormed(v: SciValue)
  {
    IsSignText(v.sign) && |v.digits| >= 1 && AllDigits(v.digits)
  }

  /**
   * `_effective_shift`: a decimal below one starts with the dot, so its first scroll step only
   * hides the leading "0" and moves no digit.
   */
  function EffectiveShift(v: SciValue, shift: nat): (r: nat)
    ensures r <= shift <= r + 1
    ensures r < shift <==> (shift > 0 && v.kind == DecimalSource && v.exponent < 0)
  {
    if v.kind == DecimalSource && v.exponent < 0 then Max(0, shift - 1) else shift
  }

  // ---------------------------------------------------------------------------------------
  // Trailing zeros of the integer part

  /** The place of the last digit: `_sci_exponent - (len(digits) - 1)`. */
  function Scale(v: SciValue): int
  {
    v.exponent - (|v.digits| - 1)
  }

  /** Some digit sits at a negative place and is not zero: the value is not an integer. */
  predicate HasFractionalDigit(v: SciValue)
  {
    exists i :: 0 <= i < |v.digits| && v.exponent < i && v.digits[i] != '0'
  }

  /** The digit string of the integer part: the digits padded with zeros up to the units place. */
  function IntegerDigits(v: SciValue): string
  {
    if Scale(v) >= 0 then v.digits + Zeros(Scale(v)) else v.digits[..Max(0, |v.digits| + Scale(v))]
  }

  /**
   * `_integer_trailing_zeros`: how many zeros end the integer, or None when the value has a
   * non-zero fractional digit.
   */
  function IntegerTrailingZeros(v: SciValue): Option<nat>
  {
    if v.digits == [] then Some(0)
    else
      var trailing := TrailingZeros(v.digits);
      var scale := Scale(v);
      if scale < 0 && trailing < -scale then None else Some(Max(0, trailing + scale))
  }

  lemma TrailingZerosAppendZeros(s: string, n: nat)
    ensures TrailingZeros(s + Zeros(n)) == TrailingZeros(s) + n
  {
    var t := s + Zeros(n);
    var k := TrailingZeros(s) + n;
    assert forall i :: |t| - k <= i < |t| ==> t[i] == '0' by {
      forall i | |t| - k <= i < |t| ensures t[i] == '0' {
        if i >= |s| { assert t[i] == Zeros(n)[i - |s|]; }
      }
    }
    if k < |t| {
      assert t[|t| - 1 - k] == s[|s| - 1 - TrailingZeros(s)];
    }
    TrailingZerosUnique(t, k);
  }

  lemma {:induction false} TrailingZerosPrefix(s: string, m: nat)
    requires m <= |s| && TrailingZeros(s) >= |s| - m
    ensures TrailingZeros(s[..m]) == TrailingZeros(s) - (|s| - m)
    decreases |s|
  {
    if m < |s| {
      var u := s[..|s| - 1];
      assert TrailingZeros(s) == 1 + TrailingZeros(u);
      assert u[..m] == s[..m];
      TrailingZerosPrefix(u, m);
    } else {
      assert s[..m] == s;
    }
  }

  /** The count of trailing zeros is the only count whose zeros are preceded by a non-zero. */
  lemma TrailingZerosUnique(s: string, k: nat)
    requires k <= |s| && forall i :: |s| - k <= i < |s| ==> s[i] == '0'
    requires k == |s| || s[|s| - 1 - k] != '0'
    ensures TrailingZeros(s) == k
  {
  }

  /**
   * The integer trailing-zero count is undefined exactly when some fractional digit is non-zero
   * (for normalised digits, which start with a non-zero digit); when it is defined it is the
   * number of zeros that end the integer's digit string.
   */
  lemma IntegerTrailingZerosMeaning(v: SciValue)
    requires |v.digits| >= 1
    ensures HasFractionalDigit(v) ==> IntegerTrailingZeros(v).None?
    ensures IntegerTrailingZeros(v).None? && v.digits[0] != '0' ==> HasFractionalDigit(v)
    ensures IntegerTrailingZeros(v).Some? ==> IntegerTrailingZeros(v).value == TrailingZeros(IntegerDigits(v))
  {
    if HasFractionalDigit(v) {
      FractionalDigitExcludesZeros(v);
    }
    if IntegerTrailingZeros(v).None? && v.digits[0] != '0' {
      NoZerosHasFractionalDigit(v);
    }
    if IntegerTrailingZeros(v).Some? {
      IntegerTrailingZerosCount(v);
    }
  }

  lemma FractionalDigitExcludesZeros(v: SciValue)
    requires |v.digits| >= 1 && HasFractionalDigit(v)
    ensures IntegerTrailingZeros(v).None?
  {
    var d := v.digits;
    var i :| 0 <= i < |d| && v.exponent < i && d[i] != '0';
    assert TrailingZeros(d) <= |d| - 1 - i;
  }

  lemma NoZerosHasFractionalDigit(v: SciValue)
    requires |v.digits| >= 1 && v.digits[0] != '0' && IntegerTrailingZeros(v).None?
    ensures HasFractionalDigit(v)
  {
    var d := v.digits;
    var t := TrailingZeros(d);
    assert t < |d|;
    assert v.exponent < |d| - 1 - t && d[|d| - 1 - t] != '0';
  }

  lemma IntegerTrailingZerosCount(v: SciValue)
    requires |v.digits| >= 1 && IntegerTrailingZeros(v).Some?
    ensures IntegerTrailingZeros(v).value == TrailingZeros(IntegerDigits(v))
  {
    var scale := Scale(v);
    var t := TrailingZeros(v.digits);
    if scale >= 0 {
      assert IntegerDigits(v) == v.digits + Zeros(scale);
      assert IntegerTrailingZeros(v).value == t + scale;
      TrailingZerosAppendZeros(v.digits, scale);
    } else {
      assert IntegerDigits(v) == v.digits[..|v.digits| + scale];
      assert IntegerTrailingZeros(v).value == t + scale;
      TrailingZerosPrefix(v.digits, |v.digits| + scale);
    }
  }

  /**
   * `_can_render_plain_tail`: the value is an integer whose trailing zeros number at most half
   * the field.
   */
  function CanRenderPlainTail(v: SciValue): bool
  {
    match IntegerTrailingZeros(v)
    case None => false
    case Some(zeros) => zeros <= ZeroThreshold
  }

  /**
   * For normalised digits, the plain tail is allowed exactly for an integer that ends in at most
   * eight zeros.
   */
  lemma CanRenderPlainTailIff(v: SciValue)
    requires |v.digits| >= 1 && v.digits[0] != '0'
    ensures CanRenderPlainTail(v) <==> !HasFractionalDigit(v) && TrailingZeros(IntegerDigits(v)) <= 8
  {
    IntegerTrailingZerosMeaning(v);
  }

  // ---------------------------------------------------------------------------------------
  // Virtual digits

  /**
   * `_virtual_digits_for_shifting`: the digits, followed by the zeros up to the units place when
   * the value is an integer that may be shown in plain form.
   */
  function VirtualDigits(v: SciValue): (r: string)
    ensures |r| >= |v.digits|
  {
    if v.digits == [] then ""
    else
      var scale := Max(0, Scale(v));
      if scale <= 0 then v.digits
      else if !CanRenderPlainTail(v) then v.digits
      else v.digits + Zeros(scale)
  }

  /**
   * The virtual digits are the digits themselves, or, for an integer with a short zero tail
   * that ends above the units place, the digits padded with zeros so that the last one is the
   * units digit.
   */
  lemma VirtualDigitsShape(v: SciValue)
    requires |v.digits| >= 1
    ensures var r := VirtualDigits(v);
      (r == v.digits && (Scale(v) <= 0 || !CanRenderPlainTail(v)))
      || (Scale(v) > 0 && CanRenderPlainTail(v) && r == IntegerDigits(v) && v.exponent - (|r| - 1) == 0)
  {
  }

  /** The virtual digits start with the digits, and are digits when those are. */
  lemma VirtualDigitsExtend(v: SciValue)
    ensures VirtualDigits(v)[..|v.digits|] == v.digits
    ensures AllDigits(v.digits) ==> AllDigits(VirtualDigits(v))
  {
  }

  /** The furthest shift: the last virtual digit at the left edge. */
  function MaxShift(v: SciValue): nat
  {
    Max(0, |VirtualDigits(v)| - 1)
  }

  /** The effective shift clamped to the virtual digits. */
  function ClampedShift(v: SciValue, shift: nat): (r: nat)
    ensures r <= EffectiveShift(v, shift) && r <= MaxShift(v)
    ensures |v.digits| >= 1 ==> r < |VirtualDigits(v)|
  {
    Min(Max(0, EffectiveShift(v, shift)), Max(0, |VirtualDigits(v)| - 1))
  }

  /** The characters left for the core once the sign is written. */
  function CoreBudget(v: SciValue): (r: nat)
    ensures 1 <= r <= VisibleChars
  {
    Max(1, VisibleChars - |v.sign|)
  }

  // ---------------------------------------------------------------------------------------
  // The scientific rendering at a shift

  /** One round of the mantissa fit: the digits left once the exponent suffix is written. */
  function FitRound(exponent: int, start: nat, budget: nat, mantissa: nat): (r: nat)
    ensures 1 <= r && (budget >= 1 ==> r <= budget)
  {
    Max(1, budget - ExpWidth(exponent - (start + mantissa - 1)))
  }

  /**
   * The mantissa width after at most `rounds` rounds of the fit, stopping at a fixed point.
   */
  function FitMantissa(exponent: int, start: nat, budget: nat, mantissa: nat, rounds: nat): (r: nat)
    requires 1 <= mantissa <= budget
    ensures 1 <= r <= budget
    decreases rounds
  {
    if rounds == 0 then mantissa
    else
      var next := FitRound(exponent, start, budget, mantissa);
      if next == mantissa then mantissa else FitMantissa(exponent, start, budget, next, rounds - 1)
  }

  /** After at least one round the width is the outcome of a round on some width of the budget. */
  lemma {:induction false} FitMantissaIsRound(exponent: int, start: nat, budget: nat, mantissa: nat, rounds: nat)
    returns (p: nat)
    requires 1 <= mantissa <= budget && rounds >= 1
    ensures 1 <= p <= budget
    ensures FitMantissa(exponent, start, budget, mantissa, rounds) == FitRound(exponent, start, budget, p)
    decreases rounds
  {
    var next := FitRound(exponent, start, budget, mantissa);
    if next == mantissa || rounds == 1 {
      p := mantissa;
      if next != mantissa {
        assert FitMantissa(exponent, start, budget, next, 0) == next;
      }
    } else {
      p := FitMantissaIsRound(exponent, start, budget, next, rounds - 1);
    }
  }

  /** The number of mantissa digits shown and the exponent of the last one. */
  datatype SciParts = SciParts(shown: nat, exponent: int)

  /**
   * The number of mantissa digits shown from `start` on: fit the width, keep it within the
   * digits left, then shrink it once more if the exponent of that width needs more room.
   */
  function ShownDigits(exponent: int, start: nat, budget: nat, available: nat): (r: nat)
    requires 1 <= budget && 1 <= available
    ensures 1 <= r <= available
  {
    var fitted := FitMantissa(exponent, start, budget, budget, FitRounds);
    var shown := Min(available, fitted);
    var maxShown := Max(1, budget - ExpWidth(exponent - (start + shown - 1)));
    Min(shown, maxShown)
  }

  /**
   * The mantissa layout of `_build_shifted_scientific_text`: the digits shown from the clamped
   * shift on and the exponent of the last of them.
   */
  function SciLayout(v: SciValue, shift: nat): (r: SciParts)
    requires |v.digits| >= 1
    ensures 1 <= r.shown && ClampedShift(v, shift) + r.shown <= |VirtualDigits(v)|
    ensures r.exponent == v.exponent - (ClampedShift(v, shift) + r.shown - 1)
  {
    var start := ClampedShift(v, shift);
    var shown := ShownDigits(v.exponent, start, CoreBudget(v), Max(1, |VirtualDigits(v)| - start));
    SciParts(shown, v.exponent - (start + shown - 1))
  }

  /**
   * The terminal plain tail: the digits from the shift on, moved back so that a full core is
   * shown when there are enough digits, and cut to the core budget from the right.
   */
  function PlainTailText(v: SciValue, shift: nat): (r: (string, bool))
    requires |v.digits| >= 1
  {
    var digits := VirtualDigits(v);
    var start := ClampedShift(v, shift);
    var budget := CoreBudget(v);
    var coreFull := digits[start..];
    var start2 := if |coreFull| < budget && start > 0 then Max(0, start - (budget - |coreFull|)) else start;
    var coreFull2 := digits[start2..];
    if |coreFull2| >= budget then (v.sign + "…" + coreFull2[|coreFull2| - budget..], true)
    else (v.sign + "…" + coreFull2, false)
  }

  /**
   * The plain tail always shows the last virtual digits, as many as the core holds, and is full
   * width exactly when there are enough of them.
   */
  lemma PlainTailShowsLastDigits(v: SciValue, shift: nat)
    requires |v.digits| >= 1
    ensures var digits := VirtualDigits(v);
      var k := Min(CoreBudget(v), |digits|);
      PlainTailText(v, shift) == (v.sign + "…" + digits[|digits| - k..], |digits| >= CoreBudget(v))
  {
  }

  /**
   * `_build_shifted_scientific_text`: with `preferPlainTail` and a plain-tail integer the terminal
   * plain tail; otherwise the mantissa digits from the shift on followed by the exponent of the
   * last one. The flag says whether the core fills the budget.
   */
  function ShiftedScientificText(v: SciValue, shift: nat, preferPlainTail: bool): (r: (string, bool))
  {
    if v.digits == [] then ("0", false)
    else if preferPlainTail && CanRenderPlainTail(v) then PlainTailText(v, shift)
    else (v.sign + "…" + SciCore(v, shift), |SciCore(v, shift)| >= CoreBudget(v))
  }

  /**
   * The scientific rendering at the shift fills the core budget: the shown digits and the
   * exponent suffix take at least the budget (the flag of the rendering, by FullWidthIsFlag).
   */
  predicate FullWidth(v: SciValue, shift: nat)
  {
    |v.digits| >= 1 && SciLayout(v, shift).shown + ExpWidth(SciLayout(v, shift).exponent) >= CoreBudget(v)
  }

  /** The core of a scientific rendering: the mantissa digits and the exponent suffix. */
  function SciCore(v: SciValue, shift: nat): string
    requires |v.digits| >= 1
  {
    CoreText(VirtualDigits(v), ClampedShift(v, shift), SciLayout(v, shift).shown, v.exponent)
  }

  /**
   * `shown` digits from `start` on, followed by the exponent that puts the last of them at its
   * place when the first digit sits at the place 10^exponent.
   */
  function CoreText(digits: string, start: nat, shown: nat, exponent: int): (r: string)
    requires start + shown <= |digits|
    ensures |r| == shown + ExpWidth(exponent - (start + shown - 1))
  {
    digits[start..start + shown] + ExpText(exponent - (start + shown - 1))
  }

  /** The layout shows the digit count the fit arrives at from the clamped shift. */
  lemma SciLayoutShown(v: SciValue, shift: nat)
    requires |v.digits| >= 1
    ensures SciLayout(v, shift).shown
            == ShownDigits(v.exponent, ClampedShift(v, shift), CoreBudget(v), Max(1, |VirtualDigits(v)| - ClampedShift(v, shift)))
  {
  }

  /** SciLayoutShown, with the clamped shift and the available digit count named. */
  lemma SciLayoutShownAt(v: SciValue, shift: nat, start: nat, available: nat)
    requires |v.digits| >= 1
    requires start == ClampedShift(v, shift) && available == Max(1, |VirtualDigits(v)| - start)
    ensures available >= 1
    ensures SciLayout(v, shift).shown == ShownDigits(v.exponent, start, CoreBudget(v), available)
  {
    SciLayoutShown(v, shift);
  }

  /** The core written out from the clamped shift and the shown-digit count. */
  lemma SciCoreParts(v: SciValue, shift: nat, start: nat, shown: nat)
    requires |v.digits| >= 1
    requires start == ClampedShift(v, shift) && shown == SciLayout(v, shift).shown
    ensures start + shown <= |VirtualDigits(v)|
    ensures SciCore(v, shift) == CoreText(VirtualDigits(v), start, shown, v.exponent)
  {
  }

  /**
   * A scientific rendering is the sign, the ellipsis and the digits that follow the shift, with
   * the exponent that puts the last of them at its true place.
   */
  lemma ShiftedScientificShape(v: SciValue, shift: nat)
    requires |v.digits| >= 1
    ensures var start := ClampedShift(v, shift);
      var shown := SciLayout(v, shift).shown;
      ShiftedScientificText(v, shift, false) == (v.sign + "…" + SciCore(v, shift), |SciCore(v, shift)| >= CoreBudget(v))
      && start + shown <= |VirtualDigits(v)|
      && SciCore(v, shift) == CoreText(VirtualDigits(v), start, shown, v.exponent)
  {
    SciCoreParts(v, shift, ClampedShift(v, shift), SciLayout(v, shift).shown);
  }

  /**
   * `_shifted_exponent`: the exponent of the last mantissa digit of the scientific rendering, or
   * None for a value without digits. The source reads it back from the rendered text after its
   * last 'e'; ShiftedExponentReadsText shows that this reading gives the same value.
   */
  function ShiftedExponent(v: SciValue, shift: nat): Option<int>
  {
    if v.digits == [] then None else Some(SciLayout(v, shift).exponent)
  }

  /** The integer after the last 'e' of a text, or None when there is no 'e' or no integer. */
  function ReadExponent(text: string): Option<int>
  {
    match LastIndexOf(text, 'e')
    case None => None
    case Some(marker) => ParseSignedInt(text[marker + 1..])
  }

  /** The last 'e' of a text that ends with an exponent suffix is the suffix's own. */
  lemma {:induction false} LastMarkerOfSuffix(prefix: string, e: int)
    ensures LastIndexOf(prefix + ExpText(e), 'e') == Some(|prefix|)
  {
    var x := ExpText(e);
    var text := prefix + x;
    assert text[|prefix|] == 'e';
    forall k | |prefix| < k < |text| ensures text[k] != 'e' {
      assert text[k] == x[k - |prefix|];
    }
  }

  /** The exponent read after the last 'e' of a text ending in an exponent suffix is that exponent. */
  lemma ReadExponentSuffix(prefix: string, e: int)
    ensures ReadExponent(prefix + ExpText(e)) == Some(e)
  {
    var text := prefix + ExpText(e);
    LastMarkerOfSuffix(prefix, e);
    assert text[|prefix| + 1..] == ExpText(e)[1..];
    ExpTextRoundTrip(e);
  }

  /** The exponent read back from the rendering after its last 'e' is the layout's exponent. */
  lemma ShiftedExponentReadsLayout(v: SciValue, shift: nat)
    requires |v.digits| >= 1
    ensures ReadExponent(ShiftedScientificText(v, shift, false).0) == Some(SciLayout(v, shift).exponent)
  {
    var prefix := ShiftedTextSuffix(v, shift);
    ReadExponentSuffix(prefix, SciLayout(v, shift).exponent);
  }

  /** The scientific rendering ends with the exponent suffix of the layout's exponent. */
  lemma ShiftedTextSuffix(v: SciValue, shift: nat) returns (prefix: string)
    requires |v.digits| >= 1
    ensures ShiftedScientificText(v, shift, false).0 == prefix + ExpText(SciLayout(v, shift).exponent)
  {
    var start, shown := ClampedShift(v, shift), SciLayout(v, shift).shown;
    ShiftedScientificShape(v, shift);
    prefix := CoreTextSuffix(v.sign + "…", VirtualDigits(v), start, shown, v.exponent);
  }

  /** A text ending in a core ends with the exponent suffix of the core's last digit. */
  lemma CoreTextSuffix(head: string, digits: string, start: nat, shown: nat, exponent: int) returns (prefix: string)
    requires start + shown <= |digits|
    ensures head + CoreText(digits, start, shown, exponent) == prefix + ExpText(exponent - (start + shown - 1))
  {
    prefix := head + digits[start..start + shown];
  }

  /**
   * `_shifted_exponent` as the source computes it: reading the integer after the last 'e' of
   * the scientific rendering gives the shifted exponent, and nothing for the rendering "0" of a
   * value without digits.
   */
  lemma ShiftedExponentReadsText(v: SciValue, shift: nat)
    ensures ShiftedExponent(v, shift) == ReadExponent(ShiftedScientificText(v, shift, false).0)
  {
    if v.digits == [] {
      assert ShiftedScientificText(v, shift, false).0 == "0";
      assert LastIndexOf("0", 'e') == None;
    } else {
      ShiftedExponentReadsLayout(v, shift);
    }
  }

  /** The core is the shown digits followed by the exponent suffix. */
  lemma SciCoreLength(v: SciValue, shift: nat)
    requires |v.digits| >= 1
    ensures |SciCore(v, shift)| == SciLayout(v, shift).shown + ExpWidth(SciLayout(v, shift).exponent)
  {
    SciCoreParts(v, shift, ClampedShift(v, shift), SciLayout(v, shift).shown);
  }

  /** FullWidth is the flag `_build_shifted_scientific_text` returns with the plain tail off. */
  lemma FullWidthIsFlag(v: SciValue, shift: nat)
    ensures FullWidth(v, shift) == ShiftedScientificText(v, shift, false).1
  {
    if |v.digits| >= 1 {
      ShiftedScientificShape(v, shift);
      SciCoreLength(v, shift);
    }
  }

  // ---------------------------------------------------------------------------------------
  // Plain renderings

  /**
   * `_should_render_plain_tail`: past the start, for a plain-tail integer, once the scientific
   * exponent at the shift has dropped below the plain-tail limit (or cannot be read).
   */
  function ShouldRenderPlainTail(v: SciValue, shift: nat): bool
  {
    if shift <= 0 then false
    else if !CanRenderPlainTail(v) then false
    else match ShiftedExponent(v, shift)
      case None => true
      case Some(exponent) => exponent <= PlainTailLastExponent - 1
  }

  /** `_is_exact_integer_scientific_value`: no digit sits below the units place. */
  function IsExactInteger(v: SciValue): bool
  {
    |v.digits| >= 1 && v.exponent >= |v.digits| - 1
  }

  /** The dot's index within the digits after the effective shift (the decimal index minus it). */
  function DotPosition(v: SciValue, shift: nat): int
  {
    v.exponent + 1 - EffectiveShift(v, shift)
  }

  /**
   * `_should_render_plain_decimal_window`: past the start, for a value with a fractional part,
   * once the scientific exponent has dropped below the plain-tail limit and the dot has not yet
   * scrolled out on the left.
   */
  function ShouldRenderPlainDecimalWindow(v: SciValue, shift: nat): bool
  {
    if shift <= 0 then false
    else if IsExactInteger(v) then false
    else match ShiftedExponent(v, shift)
      case None => false
      case Some(exponent) =>
        if exponent > PlainTailLastExponent - 1 then false
        else DotPosition(v, shift) >= 0
  }

  /** The digits a plain decimal window takes: a full body when the dot is out of view, else one less. */
  function WindowDigits(bodyWidth: nat, dot: int): nat
  {
    if dot >= bodyWidth then bodyWidth else Max(1, bodyWidth - 1)
  }

  /**
   * `_build_plain_decimal_window_text`: the digits from the clamped shift on, with the decimal
   * point inserted where the units digit ends, behind the ellipsis; the flag says whether the
   * core fills the body width.
   */
  function PlainDecimalWindowText(v: SciValue, shift: nat): (r: Option<(string, bool)>)
    ensures r.Some? ==> ShouldRenderPlainDecimalWindow(v, shift)
  {
    if !ShouldRenderPlainDecimalWindow(v, shift) then None else PlainDecimalWindow(v, shift)
  }

  /** The plain decimal window at a shift, once the window is due. */
  function PlainDecimalWindow(v: SciValue, shift: nat): Option<(string, bool)>
  {
    match WindowCoreAt(v, shift)
    case None => None
    case Some(core) => Some((v.sign + "…" + core, |core| >= CoreBudget(v)))
  }

  /** The window core of the virtual digits from the clamped shift on. */
  function WindowCoreAt(v: SciValue, shift: nat): Option<string>
  {
    var digits := VirtualDigits(v);
    if digits == [] then None
    else
      var start := ClampedShift(v, shift);
      WindowCore(digits, start, CoreBudget(v), v.exponent + 1 - start)
  }

  /**
   * The core of a plain decimal window: the digits from `start` on, as many as the window takes,
   * with the point inserted at `dot` when the dot falls inside the body.
   */
  function WindowCore(digits: string, start: nat, bodyWidth: nat, dot: int): Option<string>
    requires start <= |digits|
  {
    var chunk := digits[start..Min(|digits|, start + WindowDigits(bodyWidth, dot))];
    if chunk == [] then None
    else if dot >= bodyWidth then Some(chunk)
    else Some(InsertPoint(chunk, dot))
  }

  /**
   * A window core never exceeds a body of two or more characters, and when the dot falls within
   * it the point follows exactly the digits before the dot.
   */
  lemma WindowCoreShape(digits: string, start: nat, bodyWidth: nat, dot: int)
    requires start < |digits| && bodyWidth >= 2
    ensures WindowCore(digits, start, bodyWidth, dot).Some?
    ensures var core := WindowCore(digits, start, bodyWidth, dot).value;
      |core| <= bodyWidth && |core| <= |digits| - start + 1
      && (0 <= dot < |core| ==> start + dot <= |digits| && core[dot] == '.' && core[..dot] == digits[start..start + dot])
  {
    var chunk := digits[start..Min(|digits|, start + WindowDigits(bodyWidth, dot))];
    if 0 <= dot < bodyWidth && dot <= |chunk| {
      assert forall i :: 0 <= i < dot ==> chunk[i] == digits[start + i];
      assert chunk[..dot] == digits[start..start + dot];
    }
  }

  /**
   * `_plain_decimal_right_edge`: the index just past the last digit the plain decimal window
   * shows.
   */
  function PlainDecimalRightEdge(v: SciValue, shift: nat): (r: Option<int>)
    ensures r.Some? ==> ShouldRenderPlainDecimalWindow(v, shift)
  {
    if !ShouldRenderPlainDecimalWindow(v, shift) then None
    else
      var digits := VirtualDigits(v);
      if digits == [] then None
      else
        var start := ClampedShift(v, shift);
        var dot := v.exponent + 1 - start;
        Some(Min(|digits|, start + WindowDigits(CoreBudget(v), dot)))
  }

  /** `_plain_decimal_dot_position`: where the dot stands in a plain decimal window. */
  function PlainDecimalDotPosition(v: SciValue, shift: nat): (r: Option<int>)
    ensures r.Some? <==> ShouldRenderPlainDecimalWindow(v, shift)
    ensures r.Some? ==> r.value >= 0
  {
    if !ShouldRenderPlainDecimalWindow(v, shift) then None else Some(DotPosition(v, shift))
  }

  /** The chunk with the point inserted at `at`, clamped into the chunk. */
  function InsertPoint(chunk: string, at: int): (r: string)
    ensures |r| == |chunk| + 1
    ensures 0 <= at <= |chunk| ==> r[at] == '.' && r[..at] == chunk[..at] && r[at + 1..] == chunk[at..]
  {
    var insertAt := Min(Max(0, at), |chunk|);
    chunk[..insertAt] + "." + chunk[insertAt..]
  }

  /**
   * A plain decimal window shows the digits that follow the shift, in order, with the point
   * placed right after the units digit when that digit is in view, and it never exceeds the
   * body width.
   */
  lemma PlainDecimalWindowShape(v: SciValue, shift: nat)
    requires WellFormed(v)
    ensures WindowCoreAt(v, shift).Some?
    ensures var digits := VirtualDigits(v);
      var start := ClampedShift(v, shift);
      var dot := v.exponent + 1 - start;
      var core := WindowCoreAt(v, shift).value;
      PlainDecimalWindow(v, shift) == Some((v.sign + "…" + core, |core| >= CoreBudget(v)))
      && |core| <= CoreBudget(v) && |core| <= |digits| - start + 1
      && (0 <= dot < |core| ==> core[dot] == '.' && core[..dot] == digits[start..v.exponent + 1])
  {
    var digits := VirtualDigits(v);
    var start := ClampedShift(v, shift);
    WindowCoreShape(digits, start, CoreBudget(v), v.exponent + 1 - start);
  }

  /** `_allow_underfull_progress`: a plain-tail integer may scroll onto shorter renderings. */
  function AllowUnderfullProgress(v: SciValue, shift: nat): bool
  {
    shift > 0 && CanRenderPlainTail(v)
  }

  // ---------------------------------------------------------------------------------------
  // The initial text

  /**
   * `_initial_visible_text`: the initial text, cut to the visible characters when it is a long
   * plain decimal.
   */
  function InitialVisibleText(v: SciValue): (r: string)
    ensures v.kind == DecimalSource ==> |r| <= VisibleChars && |r| <= |v.initial| && r == v.initial[..|r|]
    ensures v.kind != DecimalSource ==> r == v.initial
  {
    if v.kind != DecimalSource then v.initial
    else if |v.initial| <= VisibleChars then v.initial
    else v.initial[..VisibleChars]
  }

  /**
   * `_initial_text_fits_visible_window`: a plain decimal whose stripped text fits the field (or
   * is blank).
   */
  function InitialTextFits(v: SciValue): (r: bool)
    ensures r <==> v.kind == DecimalSource && |Strip(v.initial)| <= VisibleChars
  {
    if v.kind != DecimalSource then false
    else
      var text := Strip(v.initial);
      if text == [] then true else |text| <= VisibleChars
  }

  /**
   * `_is_plain_decimal_dot_start_state`: a plain decimal window whose dot stands first.
   */
  function IsPlainDecimalDotStart(v: SciValue, shift: nat): (r: bool)
    ensures r ==> shift > 0 && ShouldRenderPlainDecimalWindow(v, shift) && DotPosition(v, shift) == 0
  {
    if !ShouldRenderPlainDecimalWindow(v, shift) then false
    else PlainDecimalDotPosition(v, shift) == Some(0)
  }

  // ---------------------------------------------------------------------------------------
  // Preview and rendering

  /**
   * Whether the shift is the last reachable one: for a plain-tail integer once the plain tail
   * is due, otherwise when the next shift would no longer fill the field.
   */
  function AtTerminalShift(v: SciValue, shift: nat): bool
  {
    if CanRenderPlainTail(v) then ShouldRenderPlainTail(v, shift)
    else !FullWidth(v, shift + 1)
  }

  /**
   * `_preview_scientific_text`: the text a shift would show: the initial text at the start, a
   * plain decimal window when one is due, otherwise the shifted rendering (in plain form at the
   * terminal shift).
   */
  function PreviewText(v: SciValue, shift: nat): string
  {
    if shift <= 0 then v.initial
    else match PlainDecimalWindowText(v, shift)
      case Some(window) => window.0
      case None => ShiftedScientificText(v, shift, AtTerminalShift(v, shift)).0
  }

  /** Whether each shift's scientific rendering fills the field. */
  function FullWidthAt(v: SciValue): nat -> bool
  {
    (k: nat) => FullWidth(v, k)
  }

  /** `full` tells, at every shift, whether the scientific rendering of `v` fills the field. */
  ghost predicate TracksFullWidth(full: nat -> bool, v: SciValue)
  {
    forall k: nat {:trigger FullWidth(v, k)} :: full(k) == FullWidth(v, k)
  }

  lemma FullWidthAtTracks(v: SciValue)
    ensures TracksFullWidth(FullWidthAt(v), v)
  {
  }

  /** The largest shift at or below `shift` that satisfies `full`, or 0. */
  function LastAtOrBelow(full: nat -> bool, shift: nat): (r: nat)
    ensures r <= shift
    ensures r == 0 || full(r)
  {
    if shift == 0 then 0
    else if full(shift) then shift
    else LastAtOrBelow(full, shift - 1)
  }

  /** The backward search stops at once at a shift that satisfies `full`. */
  lemma LastAtOrBelowStops(full: nat -> bool, shift: nat)
    requires shift > 0 && full(shift)
    ensures LastAtOrBelow(full, shift) == shift
  {
  }

  /** The backward search passes over a shift that fails `full`. */
  lemma LastAtOrBelowSteps(full: nat -> bool, shift: nat)
    requires shift > 0 && !full(shift)
    ensures LastAtOrBelow(full, shift) == LastAtOrBelow(full, shift - 1)
  {
  }

  /** Every shift the backward search passes over fails `full`. */
  lemma {:induction false} LastAtOrBelowSkips(full: nat -> bool, shift: nat, k: nat)
    requires LastAtOrBelow(full, shift) < k <= shift
    ensures !full(k)
  {
    if k < shift {
      LastAtOrBelowSkips(full, shift - 1, k);
    }
  }

  /**
   * The shift `_render_scientific` settles on: kept when under-full progress or a plain decimal
   * window is allowed there, otherwise moved back to the last full-width shift.
   */
  function RenderShift(v: SciValue, shift: nat): nat
  {
    if AllowUnderfullProgress(v, shift) || ShouldRenderPlainDecimalWindow(v, shift) then shift
    else LastAtOrBelow(FullWidthAt(v), shift)
  }

  /**
   * Rendering never scrolls forward, and it settles on a shift that is the start, fills the
   * field, allows under-full progress or shows a plain decimal window; a shift it moves back
   * from, and every one in between, would not fill the field.
   */
  lemma RenderShiftSettles(v: SciValue, shift: nat)
    ensures var r := RenderShift(v, shift);
      r <= shift
      && (r == 0 || FullWidth(v, r) || AllowUnderfullProgress(v, r) || ShouldRenderPlainDecimalWindow(v, r))
      && (forall k :: r < k <= shift ==> !FullWidth(v, k))
  {
    var r := RenderShift(v, shift);
    forall k | r < k <= shift ensures !FullWidth(v, k) {
      LastAtOrBelowSkips(FullWidthAt(v), shift, k);
    }
  }

  /** Rendering again at the settled shift stays there. */
  lemma RenderShiftIdempotent(v: SciValue, shift: nat)
    ensures RenderShift(v, RenderShift(v, shift)) == RenderShift(v, shift)
  {
    var r := RenderShift(v, shift);
    if !(AllowUnderfullProgress(v, shift) || ShouldRenderPlainDecimalWindow(v, shift)) && r > 0 {
      assert FullWidthAt(v)(r);
    }
  }

  /**
   * The text `_render_scientific` shows at a settled shift: the visible initial text at the
   * start, else the plain decimal window unless the scientific form is forced, else the shifted
   * rendering (plain at the terminal shift).
   */
  function RenderText(v: SciValue, shift: nat, forceScientific: bool): string
  {
    if shift == 0 then InitialVisibleText(v)
    else match PlainDecimalWindowText(v, shift)
      case Some(window) =>
        if !forceScientific then window.0
        else ShiftedScientificText(v, shift, AtTerminalShift(v, shift)).0
      case None => ShiftedScientificText(v, shift, AtTerminalShift(v, shift)).0
  }

  /** Past the start, an unforced rendering shows exactly the preview of its shift. */
  lemma RenderTextIsPreview(v: SciValue, shift: nat)
    requires shift > 0
    ensures RenderText(v, shift, false) == PreviewText(v, shift)
  {
  }

  // ---------------------------------------------------------------------------------------
  // Scrolling forward

  /**
   * A candidate shift the forward scan may stop at: it fills the field, shows a plain decimal
   * window or plain tail, or allows under-full progress.
   */
  predicate Eligible(v: SciValue, candidate: nat)
  {
    FullWidth(v, candidate) || ShouldRenderPlainDecimalWindow(v, candidate)
    || ShouldRenderPlainTail(v, candidate) || AllowUnderfullProgress(v, candidate)
  }

  /**
   * The scan stops without moving when both the current and the candidate shift show a plain
   * decimal window with the dot in view and the candidate would not reveal a further digit.
   */
  predicate Blocked(v: SciValue, shift: nat, candidate: nat)
  {
    var currentEdge := PlainDecimalRightEdge(v, shift);
    var currentDot := PlainDecimalDotPosition(v, shift);
    var candidateEdge := PlainDecimalRightEdge(v, candidate);
    var candidateDot := PlainDecimalDotPosition(v, candidate);
    var bodyWidth := CoreBudget(v);
    ShouldRenderPlainDecimalWindow(v, candidate)
    && currentEdge.Some? && candidateEdge.Some? && currentDot.Some? && candidateDot.Some?
    && currentDot.value < bodyWidth && candidateDot.value < bodyWidth
    && candidateEdge.value <= currentEdge.value
  }

  /**
   * The candidate scan of `_advance_scientific` over abstract tests: from `candidate` up to
   * `maxShift`, stop without a shift at an eligible candidate that is blocked, and with it at an
   * eligible candidate whose preview differs from the shown text.
   */
  function ScanFrom(eligible: nat -> bool, blocked: nat -> bool, differs: nat -> bool, maxShift: nat,
                    candidate: nat): (r: Option<nat>)
    ensures r.Some? ==> candidate <= r.value <= maxShift && r.value > 0
    decreases maxShift + 1 - candidate
  {
    if !(candidate > 0 && candidate <= maxShift) then None
    else if eligible(candidate) && blocked(candidate) then None
    else if eligible(candidate) && differs(candidate) then Some(candidate)
    else ScanFrom(eligible, blocked, differs, maxShift, candidate + 1)
  }

  /**
   * The scan stops at an eligible candidate that is not blocked and whose preview differs, and
   * every candidate it passed over was not eligible, or neither blocked nor showing a new text.
   */
  lemma {:induction false} ScanFromFinds(eligible: nat -> bool, blocked: nat -> bool, differs: nat -> bool,
                                         maxShift: nat, candidate: nat)
    requires ScanFrom(eligible, blocked, differs, maxShift, candidate).Some?
    ensures var c := ScanFrom(eligible, blocked, differs, maxShift, candidate).value;
      eligible(c) && !blocked(c) && differs(c)
      && forall k :: candidate <= k < c ==> !eligible(k) || (!blocked(k) && !differs(k))
    decreases maxShift + 1 - candidate
  {
    if !(eligible(candidate) && differs(candidate)) {
      ScanFromFinds(eligible, blocked, differs, maxShift, candidate + 1);
    }
  }

  function EligibleAt(v: SciValue): nat -> bool { (k: nat) => Eligible(v, k) }
  function BlockedAt(v: SciValue, shift: nat): nat -> bool { (k: nat) => Blocked(v, shift, k) }
  function DiffersAt(v: SciValue, shown: string): nat -> bool { (k: nat) => PreviewText(v, k) != shown }

  /** `eligible` tells, at every candidate, whether the value may stop there. */
  ghost predicate TracksEligible(eligible: nat -> bool, v: SciValue)
  {
    forall k: nat {:trigger Eligible(v, k)} :: eligible(k) == Eligible(v, k)
  }

  /** `blocked` tells, at every candidate, whether a plain decimal window stops the scan there. */
  ghost predicate TracksBlocked(blocked: nat -> bool, v: SciValue, shift: nat)
  {
    forall k: nat {:trigger Blocked(v, shift, k)} :: blocked(k) == Blocked(v, shift, k)
  }

  /** `differs` tells, at every candidate, whether its preview differs from the shown text. */
  ghost predicate TracksDiffers(differs: nat -> bool, v: SciValue, shown: string)
  {
    forall k: nat {:trigger PreviewText(v, k)} :: differs(k) == (PreviewText(v, k) != shown)
  }

  lemma ScanTestsTrack(v: SciValue, shift: nat, shown: string)
    ensures TracksEligible(EligibleAt(v), v) && TracksBlocked(BlockedAt(v, shift), v, shift)
    ensures TracksDiffers(DiffersAt(v, shown), v, shown)
  {
  }

  /**
   * The candidate loop of `_advance_scientific` from `candidate` on: the first candidate past
   * the start where the value may stop and whose preview differs from `shown`, unless a plain
   * decimal window that would not move right comes first.
   */
  function ScanForward(v: SciValue, shift: nat, shown: string, candidate: nat): (r: Option<nat>)
  {
    ScanFrom(EligibleAt(v), BlockedAt(v, shift), DiffersAt(v, shown), MaxShift(v), candidate)
  }


  /**
   * A shift the scan moves to is one rendering keeps, and rendering it shows a text that
   * differs from the one shown before: a forward step that moves always changes the display.
   */
  lemma ScanForwardMoves(v: SciValue, shift: nat, shown: string, candidate: nat)
    requires ScanForward(v, shift, shown, candidate).Some?
    ensures var c := ScanForward(v, shift, shown, candidate).value;
      1 <= c <= MaxShift(v) && Eligible(v, c) && RenderShift(v, c) == c
      && RenderText(v, c, false) == PreviewText(v, c) && PreviewText(v, c) != shown
  {
    ScanFromFinds(EligibleAt(v), BlockedAt(v, shift), DiffersAt(v, shown), MaxShift(v), candidate);
    EligibleSettles(v, ScanForward(v, shift, shown, candidate).value);
  }

  /** Rendering stays at an eligible shift past the start and shows its preview there. */
  lemma EligibleSettles(v: SciValue, c: nat)
    requires 1 <= c && Eligible(v, c)
    ensures RenderShift(v, c) == c && RenderText(v, c, false) == PreviewText(v, c)
  {
  }


  /** The first candidate of a forward step: one past the shift, clamped to the furthest shift. */
  function FirstCandidate(v: SciValue, shift: nat): nat
  {
    Min(shift + 1, MaxShift(v))
  }

  /**
   * The shift a scroll step asks to render, with the flag forcing the scientific form: at the
   * dot-start of a plain decimal window a forward step first shows the scientific form of the
   * same shift; otherwise it moves to the scan's shift (or stays); a backward step moves one
   * back.
   */
  function AdvanceTarget(v: SciValue, shift: nat, shown: string, direction: int): (nat, bool)
  {
    if direction > 0 then
      if IsPlainDecimalDotStart(v, shift) && ShiftedScientificText(v, shift, false).0 != shown then (shift, true)
      else match ScanForward(v, shift, shown, FirstCandidate(v, shift))
        case Some(c) => (c, false)
        case None => (shift, false)
    else if direction < 0 then (Max(0, shift - 1), false)
    else (shift, false)
  }

  /** A forward step from the start of a plain decimal that fits the field only re-renders. */
  predicate AdvanceSkipped(v: SciValue, shift: nat, direction: int)
  {
    direction > 0 && shift == 0 && InitialTextFits(v)
  }

  /**
   * Scroll bounds: a forward step stays within the furthest shift or where it was, a backward
   * step moves back by one at most and never below the start.
   */
  lemma AdvanceTargetBounds(v: SciValue, shift: nat, shown: string, direction: int)
    ensures var t := AdvanceTarget(v, shift, shown, direction).0;
      (direction > 0 ==> t == shift || (1 <= t <= MaxShift(v) && t >= FirstCandidate(v, shift)))
      && (direction < 0 ==> t == Max(0, shift - 1))
      && (direction == 0 ==> t == shift)
  {
  }

  /**
   * A forward step that asks for the scientific form of the current shift asks for a shift
   * past the start that rendering keeps.
   */
  lemma AdvanceForcedSettles(v: SciValue, shift: nat, shown: string, direction: int)
    requires AdvanceTarget(v, shift, shown, direction).1
    ensures var t := AdvanceTarget(v, shift, shown, direction).0;
      t == shift && t > 0 && RenderShift(v, t) == t
  {
  }

  /** A forward step that the candidate scan carries to a new shift. */
  predicate AdvanceMoves(v: SciValue, shift: nat, shown: string, direction: int)
  {
    direction > 0 && !AdvanceSkipped(v, shift, direction)
    && !(IsPlainDecimalDotStart(v, shift) && ShiftedScientificText(v, shift, false).0 != shown)
    && ScanForward(v, shift, shown, FirstCandidate(v, shift)).Some?
  }

  /**
   * A forward step that the scan carries lands past the start, within the furthest shift, on a
   * shift rendering keeps, and shows a text other than the one shown before.
   */
  lemma AdvanceMovesShowsNew(v: SciValue, shift: nat, shown: string, direction: int)
    requires AdvanceMoves(v, shift, shown, direction)
    ensures var t := AdvanceTarget(v, shift, shown, direction);
      !t.1 && 1 <= t.0 <= MaxShift(v) && RenderShift(v, t.0) == t.0 && RenderText(v, t.0, false) != shown
  {
    ScanForwardMoves(v, shift, shown, FirstCandidate(v, shift));
  }

  // ---------------------------------------------------------------------------------------
  // Prefetching more digits

  /** Digits kept in reserve to the right of the shift before more precision is requested. */
  const FractionWindow: nat := 30
  const PrefetchMargin: nat := 15

  /**
   * `_maybe_request_more_scientific`: a forward step asks for more digits when precision is not
   * exhausted, the value does not fit the field at the start, a callback is installed, no
   * request is in flight, and at most the margin of digits remain past the window.
   */
  function PrefetchFires(v: SciValue, shift: nat, direction: int, exhausted: bool, hasCallback: bool,
                         loading: bool): bool
  {
    if direction <= 0 then false
    else if exhausted then false
    else if shift == 0 && InitialTextFits(v) then false
    else if !hasCallback then false
    else if loading then false
    else
      var remaining := |v.digits| - 1 - (shift + FractionWindow);
      remaining <= PrefetchMargin
  }

  /**
   * A request fires only on a forward step with precision not exhausted, a callback and no
   * request in flight, and it fires exactly when fewer than 47 digits lie from the shift on.
   */
  lemma PrefetchFiresIff(v: SciValue, shift: nat, direction: int, exhausted: bool, hasCallback: bool,
                         loading: bool)
    ensures PrefetchFires(v, shift, direction, exhausted, hasCallback, loading) <==>
      direction > 0 && !exhausted && hasCallback && !loading && !(shift == 0 && InitialTextFits(v))
      && |v.digits| <= shift + FractionWindow + PrefetchMargin + 1
  {
  }
}
