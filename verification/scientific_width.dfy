/**
 * The width bound of the shifted scientific rendering: the fitted mantissa and its exponent
 * suffix never take more than the core budget, so the rendered text is never wider than the
 * field plus its ellipsis.
 */
module ScientificWidth {
  import opened Text
  import opened ResultText
  import opened Layout

  /** The number of digits in the exponent suffix `e±d…` of `e`. */
  function ExpDigits(e: int): (r: nat)
    ensures r >= 1 && ExpWidth(e) == 2 + r
  {
    NumDigits(Abs(e))
  }

  lemma NumDigitsBelowHundred(n: nat)
    requires n < 100
    ensures NumDigits(n) <= 2
    ensures n >= 10 ==> NumDigits(n) == 2
  {
    assert NumDigits(99) == 2;
    NumDigitsMonotone(n, 99);
    if n >= 10 {
      assert NumDigits(10) == 2;
      NumDigitsMonotone(10, n);
    }
  }

  /**
   * A non-negative exponent that lies at most sixteen above a number with one digit fewer is
   * not at the last number of its digit count, so one more keeps the count.
   */
  lemma NoCarry(a: nat, q: nat)
    requires q <= a <= q + 16 && NumDigits(q) + 1 == NumDigits(a)
    ensures NumDigits(a + 1) <= NumDigits(a)
  {
    var n := NumDigits(a);
    NumDigitsBounds(q);
    Pow10Monotone(1, n - 1);
    assert Pow10(n) == 10 * Pow10(n - 1);
    NumDigitsBounds(a + 1);
    Pow10Monotone(n, Max(n, NumDigits(a + 1) - 1));
  }

  /** Raising a negative exponent by fewer than its own digit count never lengthens it. */
  lemma NegativeShrink(a: int, g: nat)
    requires a < 0 && 1 <= g < ExpDigits(a)
    ensures ExpDigits(a + g) <= ExpDigits(a)
  {
    NumDigitsAtMost(Abs(a));
    NumDigitsMonotone(Abs(a + g), Abs(a));
  }

  /**
   * Raising a non-negative exponent `a` by at most the digit-count gap to a nearby smaller
   * exponent `q` never lengthens it.
   */
  lemma NonNegativeShrink(a: int, q: int, g: nat)
    requires 0 <= a && a - 16 <= q <= a
    requires ExpDigits(a) > ExpDigits(q) && 1 <= g <= ExpDigits(a) - ExpDigits(q)
    ensures ExpDigits(a + g) <= ExpDigits(a)
  {
    if q >= 0 {
      NumDigitsSmallStep(q, a);
      NoCarry(a, q);
    } else {
      NumDigitsBelowHundred(a);
      NumDigitsBelowHundred(a + g);
    }
  }

  /**
   * The final shrink of the mantissa when it is needed: `shown` digits came out of a round of
   * the fit on width `p` (whose last digit has exponent `q`), the exponent `a` of the shown
   * width asks for more room, and the mantissa is cut to what `a`'s suffix leaves; the exponent
   * of the cut mantissa needs no more digits than `a`.
   */
  lemma ShrinkKeepsSuffix(a: int, q: int, budget: nat, shown: nat, p: nat)
    requires 1 <= budget <= VisibleChars && 1 <= p <= budget
    requires q == a + shown - p
    requires 1 <= shown <= Max(1, budget - (2 + ExpDigits(q)))
    requires 1 < budget - (2 + ExpDigits(a)) < shown
    ensures ExpDigits(a + (shown - (budget - (2 + ExpDigits(a))))) <= ExpDigits(a)
  {
    var g: nat := shown - (budget - (2 + ExpDigits(a)));
    if a >= 0 && p < shown {
      NumDigitsMonotone(Abs(a), Abs(q));
    } else if a >= 0 {
      NonNegativeShrink(a, q, g);
    } else {
      NegativeShrink(a, g);
    }
  }

  /**
   * One fit outcome: once the fit has settled on the outcome `fitted` of a round, the digits
   * shown and the final exponent suffix stay within the budget, unless the suffix alone leaves
   * no room for a digit, in which case one digit is shown.
   */
  lemma RoundFits(exponent: int, start: nat, budget: nat, available: nat, p: nat, fitted: nat)
    requires 1 <= budget <= VisibleChars && available >= 1 && 1 <= p <= budget
    requires fitted == FitRound(exponent, start, budget, p)
    ensures var shown := Min(available, fitted);
      var maxShown := Max(1, budget - ExpWidth(exponent - (start + shown - 1)));
      var shown2 := Min(shown, maxShown);
      var suffix := ExpWidth(exponent - (start + shown2 - 1));
      shown2 + suffix <= Max(budget, 1 + suffix)
  {
    var shown := Min(available, fitted);
    var a := exponent - (start + shown - 1);
    if 1 < budget - ExpWidth(a) < shown {
      ShrinkKeepsSuffix(a, exponent - (start + p - 1), budget, shown, p);
    }
  }

  /**
   * The mantissa fit of `_build_shifted_scientific_text`: the shown digits and the final
   * exponent suffix stay within the budget, unless the suffix alone leaves no room for a digit,
   * in which case one digit is shown.
   */
  lemma MantissaFits(exponent: int, start: nat, budget: nat, available: nat)
    requires 1 <= budget <= VisibleChars && available >= 1
    ensures var shown := ShownDigits(exponent, start, budget, available);
      var suffix := ExpWidth(exponent - (start + shown - 1));
      shown + suffix <= Max(budget, 1 + suffix)
  {
    var fitted := FitMantissa(exponent, start, budget, budget, FitRounds);
    var p := FitMantissaIsRound(exponent, start, budget, budget, FitRounds);
    RoundFits(exponent, start, budget, available, p, fitted);
    var shown := Min(available, fitted);
    assert ShownDigits(exponent, start, budget, available)
        == Min(shown, Max(1, budget - ExpWidth(exponent - (start + shown - 1))));
  }

  /**
   * The core of a scientific rendering (mantissa digits and exponent suffix) fits the budget,
   * unless the exponent suffix alone leaves no room for a digit, in which case it is one digit
   * and the suffix.
   */
  lemma SciCoreFits(v: SciValue, shift: nat)
    requires |v.digits| >= 1
    ensures var suffix := ExpWidth(SciLayout(v, shift).exponent);
      |SciCore(v, shift)| <= Max(CoreBudget(v), 1 + suffix)
  {
    LayoutFits(v, shift);
    SciCoreLength(v, shift);
  }

  /** The layout's shown digits and exponent suffix fit the budget, or are one digit and the suffix. */
  lemma LayoutFits(v: SciValue, shift: nat)
    requires |v.digits| >= 1
    ensures var parts := SciLayout(v, shift);
      parts.shown + ExpWidth(parts.exponent) <= Max(CoreBudget(v), 1 + ExpWidth(parts.exponent))
  {
    var start := ClampedShift(v, shift);
    var available := Max(1, |VirtualDigits(v)| - start);
    var parts := SciLayout(v, shift);
    SciLayoutShown(v, shift);
    assert parts.shown == ShownDigits(v.exponent, start, CoreBudget(v), available);
    assert parts.exponent == v.exponent - (start + parts.shown - 1);
    MantissaFits(v.exponent, start, CoreBudget(v), available);
  }

  /** A well-formed sign and the core budget together fill exactly the visible characters. */
  lemma SignAndBudget(v: SciValue)
    requires WellFormed(v)
    ensures |v.sign| + CoreBudget(v) == VisibleChars
  {
  }

  /**
   * The widest a rendering past the start may be: the visible characters plus the ellipsis, or
   * the sign, ellipsis, one digit and the exponent suffix when that suffix alone fills the core.
   */
  function RenderWidthBound(v: SciValue, shift: nat): nat
    requires |v.digits| >= 1
  {
    Max(VisibleChars + 1, |v.sign| + 2 + ExpWidth(SciLayout(v, shift).exponent))
  }

  /** The shifted rendering, in either form, stays within the width bound. */
  lemma ShiftedTextWidth(v: SciValue, shift: nat, preferPlainTail: bool)
    requires WellFormed(v)
    ensures |ShiftedScientificText(v, shift, preferPlainTail).0| <= RenderWidthBound(v, shift)
  {
    SignAndBudget(v);
    if preferPlainTail && CanRenderPlainTail(v) {
      PlainTailShowsLastDigits(v, shift);
    } else {
      ShiftedScientificShape(v, shift);
      SciCoreFits(v, shift);
    }
  }

  /** A plain decimal window stays within the visible characters plus the ellipsis. */
  lemma WindowWidth(v: SciValue, shift: nat)
    requires WellFormed(v) && PlainDecimalWindowText(v, shift).Some?
    ensures |PlainDecimalWindowText(v, shift).value.0| <= VisibleChars + 1
  {
    SignAndBudget(v);
    PlainDecimalWindowShape(v, shift);
  }

  /**
   * Width bound of the display: past the start, whatever `_render_scientific` shows takes at
   * most the visible characters plus the ellipsis, unless the exponent suffix alone fills the
   * core.
   */
  lemma RenderTextWidth(v: SciValue, shift: nat, forceScientific: bool)
    requires WellFormed(v) && shift > 0
    ensures |RenderText(v, shift, forceScientific)| <= RenderWidthBound(v, shift)
  {
    if PlainDecimalWindowText(v, shift).Some? && !forceScientific {
      WindowWidth(v, shift);
    } else {
      ShiftedTextWidth(v, shift, AtTerminalShift(v, shift));
    }
  }

  /**
   * At the start the display shows the initial text: a plain decimal cut to the visible
   * characters, or a scientific rendering that fits them whenever the sign and exponent leave
   * room for a digit.
   */
  lemma InitialTextWidth(v: SciValue)
    requires WellFormed(v)
    requires v.kind == ScientificSource ==> v.initial == FormatInitialScientific(v.sign, v.digits, v.exponent)
    requires v.kind == ScientificSource ==> |v.sign| + ExpWidth(v.exponent) < VisibleChars
    ensures v.kind != NoSource ==> |RenderText(v, 0, false)| <= VisibleChars
  {
    if v.kind == ScientificSource {
      FormatInitialScientificFits(v.sign, v.digits, v.exponent);
    }
  }
}
