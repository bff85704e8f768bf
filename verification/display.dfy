/**
 * The result field of the calculator (`ResultDisplay` in calculator_ui.py) without its widget:
 * the text it shows, the scrolled value, the scroll position and the flags that drive requests
 * for more digits. The rendering decisions are the functions of module Layout; the methods here
 * update the fields as the source does and are proved against those functions.
 */
module Display {
  import opened Wrappers
  import opened Text
  import opened ResultText
  import opened Layout

  /**
   * What `set_text` makes of a result string: a scientific value when the scientific pattern
   * matches, else a decimal value when the decimal pattern matches, else nothing. A scientific
   * value starts from its formatted initial text, a decimal one from the text as given.
   */
  function ParsedValue(t: string): (r: Option<SciValue>)
    ensures r.Some? ==> WellFormed(r.value) && r.value.kind != NoSource
    ensures r.Some? && r.value.kind == ScientificSource ==>
      r.value.initial == FormatInitialScientific(r.value.sign, r.value.digits, r.value.exponent)
  {
    match ParseScientific(t)
    case Some(s) =>
      Some(SciValue(s.sign, s.digits, s.exponent, ScientificSource, FormatInitialScientific(s.sign, s.digits, s.exponent)))
    case None =>
      match ParseDecimalAsScientific(t)
      case None => None
      case Some(d) =>
        ParseDecimalNormalised(t);
        Some(SciValue(d.sign, d.digits, d.exponent, DecimalSource, t))
  }

  /**
   * A text is shown as it is exactly when neither pattern matches; a decimal value keeps the
   * text as its initial text, and the scientific pattern wins when both match.
   */
  lemma ParsedValueCases(t: string)
    ensures ParsedValue(t).None? <==> ParseScientific(t).None? && ParseDecimalAsScientific(t).None?
    ensures ParsedValue(t).Some? && ParsedValue(t).value.kind == ScientificSource <==> ParseScientific(t).Some?
    ensures ParsedValue(t).Some? && ParsedValue(t).value.kind == DecimalSource ==> ParsedValue(t).value.initial == t
  {
  }

  class ResultDisplay {
    /** The text the field shows (`_var`). */
    var text: string
    /** Whether a `request_more_callback` was given. */
    var hasCallback: bool
    var loadingMore: bool
    var precisionExhausted: bool
    var forceScientific: bool
    var sciMode: bool
    var sciSign: string
    var sciDigits: string
    var sciExponent: int
    var sciShift: nat
    var sciInitialText: string
    var sciSourceKind: SourceKind

    /** The scrolled value the fields hold. */
    function Value(): SciValue
      reads this`sciSign, this`sciDigits, this`sciExponent, this`sciSourceKind, this`sciInitialText
    {
      SciValue(sciSign, sciDigits, sciExponent, sciSourceKind, sciInitialText)
    }

    /**
     * Between calls: scrolling mode goes with a source kind and a well-formed value, the shift
     * is one rendering keeps (every update ends in a render), a scientific source starts from
     * its formatted initial text, and the scientific form is never left forced.
     */
    predicate Valid()
      reads this
    {
      (sciMode <==> sciSourceKind != NoSource)
      && (sciMode ==> WellFormed(Value()) && RenderShift(Value(), sciShift) == sciShift)
      && (sciSourceKind == ScientificSource ==>
            |sciDigits| >= 1 && sciInitialText == FormatInitialScientific(sciSign, sciDigits, sciExponent))
      && !forceScientific
    }

    /** A field showing "0", not scrolling, with no request in flight. */
    constructor(hasCallback: bool)
      ensures Valid()
      ensures this.hasCallback == hasCallback && text == "0" && !sciMode && sciShift == 0
      ensures !loadingMore && !precisionExhausted
    {
      text := "0";
      this.hasCallback := hasCallback;
      loadingMore := false;
      precisionExhausted := false;
      forceScientific := false;
      sciMode := false;
      sciSign := "";
      sciDigits := "";
      sciExponent := 0;
      sciShift := 0;
      sciInitialText := "0";
      sciSourceKind := NoSource;
    }

    /**
     * `set_text`: a fresh result resets the exhaustion flag, the forced form and the shift; a
     * refined one (`preserveView`) keeps them. A numeric result is scrolled and rendered, any
     * other text is shown as it is.
     */
    method SetText(t: string, preserveView: bool)
      requires Valid()
      modifies this`precisionExhausted, this`sciMode, this`sciSign, this`sciDigits, this`sciExponent,
               this`sciSourceKind, this`sciShift, this`sciInitialText, this`text, this`forceScientific
      ensures Valid()
      ensures hasCallback == old(hasCallback) && loadingMore == old(loadingMore)
      ensures precisionExhausted == (preserveView && old(precisionExhausted))
      ensures ParsedValue(t).None? ==> !sciMode && text == t && sciShift == old(sciShift)
      ensures ParsedValue(t).Some? ==>
        var v := ParsedValue(t).value;
        sciMode && Value() == v
        && sciShift == RenderShift(v, if preserveView then old(sciShift) else 0)
        && text == RenderText(v, sciShift, false)
    {
      var parsed := ParseResult(t);
      ShowParsed(parsed, t, preserveView);
    }

    /** `set_text` once the text is parsed: reset the flags, then show the value or the text. */
    method ShowParsed(parsed: Option<SciValue>, t: string, preserveView: bool)
      requires Valid()
      requires parsed.Some? ==> WellFormed(parsed.value) && parsed.value.kind != NoSource
      requires parsed.Some? && parsed.value.kind == ScientificSource ==>
        parsed.value.initial == FormatInitialScientific(parsed.value.sign, parsed.value.digits, parsed.value.exponent)
      modifies this`precisionExhausted, this`sciMode, this`sciSign, this`sciDigits, this`sciExponent,
               this`sciSourceKind, this`sciShift, this`sciInitialText, this`text, this`forceScientific
      ensures Valid()
      ensures precisionExhausted == (preserveView && old(precisionExhausted))
      ensures parsed.None? ==> !sciMode && text == t && sciShift == old(sciShift)
      ensures parsed.Some? ==>
        sciMode && Value() == parsed.value
        && sciShift == RenderShift(parsed.value, if preserveView then old(sciShift) else 0)
        && text == RenderText(parsed.value, sciShift, false)
    {
      if !preserveView {
        precisionExhausted := false;
        forceScientific := false;
      }
      if parsed.Some? {
        ShowValue(parsed.value, preserveView);
        RenderShiftIdempotent(parsed.value, if preserveView then old(sciShift) else 0);
        return;
      }
      sciMode := false;
      sciSourceKind := NoSource;
      text := t;
    }

    /**
     * The two parses of `set_text`: the scientific pattern first, with the formatted initial
     * text, then the decimal pattern, with the text as given.
     */
    static method ParseResult(t: string) returns (parsed: Option<SciValue>)
      ensures parsed == ParsedValue(t)
    {
      var scientific := ParseScientific(t);
      if scientific.Some? {
        var s := scientific.value;
        return Some(SciValue(s.sign, s.digits, s.exponent, ScientificSource,
                             FormatInitialScientific(s.sign, s.digits, s.exponent)));
      }
      var decimal := ParseDecimalAsScientific(t);
      if decimal.Some? {
        var d := decimal.value;
        return Some(SciValue(d.sign, d.digits, d.exponent, DecimalSource, t));
      }
      return None;
    }

    /**
     * The numeric branches of `set_text`: scroll the parsed value (from the start unless the
     * view is preserved) and render it.
     */
    method ShowValue(v: SciValue, preserveView: bool)
      requires WellFormed(v) && v.kind != NoSource && !forceScientific
      requires v.kind == ScientificSource ==> v.initial == FormatInitialScientific(v.sign, v.digits, v.exponent)
      modifies this`sciMode, this`sciSign, this`sciDigits, this`sciExponent, this`sciSourceKind,
               this`sciShift, this`sciInitialText, this`text, this`forceScientific
      ensures sciMode && Value() == v && !forceScientific
      ensures sciShift == RenderShift(v, if preserveView then old(sciShift) else 0)
      ensures text == RenderText(v, sciShift, false)
    {
      sciMode := true;
      sciSign := v.sign;
      sciDigits := v.digits;
      sciExponent := v.exponent;
      sciSourceKind := v.kind;
      if !preserveView {
        sciShift := 0;
      }
      sciInitialText := v.initial;
      Render();
    }

    /**
     * `_count_trailing_zeros`: walks the text from its end and stops at the first character
     * that is not '0'.
     */
    static method CountTrailingZeros(s: string) returns (count: nat)
      ensures count <= |s|
      ensures forall i :: |s| - count <= i < |s| ==> s[i] == '0'
      ensures count == |s| || s[|s| - 1 - count] != '0'
      ensures count == TrailingZeros(s)
    {
      count := 0;
      var k := |s|;
      while k > 0
        invariant 0 <= k <= |s| && count == |s| - k
        invariant forall i :: k <= i < |s| ==> s[i] == '0'
      {
        if s[k - 1] != '0' {
          break;
        }
        count := count + 1;
        k := k - 1;
      }
      TrailingZerosUnique(s, count);
    }

    /**
     * The mantissa fit of `_build_shifted_scientific_text`: start from the whole budget and
     * take what the exponent suffix leaves, for at most four rounds or until it settles.
     */
    static method FitMantissaDigits(exponent: int, start: nat, budget: nat) returns (mantissa: nat)
      requires budget >= 1
      ensures mantissa == FitMantissa(exponent, start, budget, budget, FitRounds)
    {
      mantissa := budget;
      var round := 0;
      while round < FitRounds
        invariant 0 <= round <= FitRounds && 1 <= mantissa <= budget
        invariant FitMantissa(exponent, start, budget, mantissa, FitRounds - round)
                  == FitMantissa(exponent, start, budget, budget, FitRounds)
      {
        var next := Max(1, budget - |ExpText(exponent - (start + mantissa - 1))|);
        if next == mantissa {
          break;
        }
        mantissa := next;
        round := round + 1;
      }
    }

    /**
     * `_build_shifted_scientific_text` on the scrolled value: the plain tail when it is preferred
     * and allowed, otherwise the fitted mantissa digits from the shift on and the exponent of
     * the last one.
     */
    static method BuildShiftedScientificText(v: SciValue, shift: nat, preferPlainTail: bool)
      returns (rendered: string, isFullWidth: bool)
      ensures (rendered, isFullWidth) == ShiftedScientificText(v, shift, preferPlainTail)
    {
      if v.digits == [] {
        return "0", false;
      }
      if preferPlainTail && CanRenderPlainTail(v) {
        rendered, isFullWidth := PlainTailText(v, shift).0, PlainTailText(v, shift).1;
        return;
      }
      rendered, isFullWidth := BuildScientificCore(v, shift);
      ShiftedScientificShape(v, shift);
    }

    /** The scientific branch of `_build_shifted_scientific_text`. */
    static method BuildScientificCore(v: SciValue, shift: nat) returns (rendered: string, isFullWidth: bool)
      requires |v.digits| >= 1
      ensures rendered == v.sign + "…" + SciCore(v, shift) && isFullWidth == (|SciCore(v, shift)| >= CoreBudget(v))
    {
      var start, shown := ScientificLayout(v, shift);
      SciCoreParts(v, shift, start, shown);
      var core := BuildCore(VirtualDigits(v), start, shown, v.exponent);
      rendered := v.sign + "…" + core;
      isFullWidth := |core| >= CoreBudget(v);
    }

    /** The mantissa digits from `start` on and the exponent suffix of the last of them. */
    static method BuildCore(digits: string, start: nat, shown: nat, exponent: int) returns (core: string)
      requires start + shown <= |digits|
      ensures core == CoreText(digits, start, shown, exponent)
    {
      var lastExponent := exponent - (start + shown - 1);
      core := digits[start..start + shown] + ExpText(lastExponent);
    }

    /** Where the mantissa starts and how many digits it shows. */
    static method ScientificLayout(v: SciValue, shift: nat) returns (start: nat, shown: nat)
      requires |v.digits| >= 1
      ensures start == ClampedShift(v, shift) && shown == SciLayout(v, shift).shown
    {
      start := ClampedShift(v, shift);
      var available := Max(1, |VirtualDigits(v)| - start);
      SciLayoutShownAt(v, shift, start, available);
      shown := CountShownDigits(v.exponent, start, CoreBudget(v), available);
    }

    /**
     * The digit count of `_build_shifted_scientific_text`: the fitted mantissa width, cut to the
     * digits available and then to what the exponent of the last shown digit leaves.
     */
    static method CountShownDigits(exponent: int, start: nat, budget: nat, available: nat) returns (shown: nat)
      requires 1 <= budget && 1 <= available
      ensures shown == ShownDigits(exponent, start, budget, available)
    {
      var mantissa := FitMantissaDigits(exponent, start, budget);
      shown := Min(available, mantissa);
      var lastExponent := exponent - (start + shown - 1);
      shown := Min(shown, Max(1, budget - |ExpText(lastExponent)|));
    }

    /** Whether a shift is the last reachable one (how `_render_scientific` picks the plain form). */
    static method AtTerminal(v: SciValue, shift: nat) returns (terminal: bool)
      ensures terminal == AtTerminalShift(v, shift)
    {
      if CanRenderPlainTail(v) {
        terminal := ShouldRenderPlainTail(v, shift);
      } else {
        var _, nextIsFullWidth := BuildShiftedScientificText(v, shift + 1, false);
        FullWidthIsFlag(v, shift + 1);
        terminal := !nextIsFullWidth;
      }
    }

    /** `_preview_scientific_text`: the text a shift would show. */
    static method PreviewScientificText(v: SciValue, shift: nat) returns (preview: string)
      ensures preview == PreviewText(v, shift)
    {
      if shift == 0 {
        return v.initial;
      }
      var plainDecimal := PlainDecimalWindowText(v, shift);
      if plainDecimal.Some? {
        return plainDecimal.value.0;
      }
      var terminal := AtTerminal(v, shift);
      var isFullWidth;
      preview, isFullWidth := BuildShiftedScientificText(v, shift, terminal);
    }

    /**
     * The first half of `_render_scientific`: keep the shift when under-full progress or a plain
     * decimal window is allowed there, otherwise step back to the last full-width shift, or 0.
     */
    static method SettleShift(v: SciValue, from: nat) returns (shift: nat)
      ensures shift == RenderShift(v, from)
    {
      if AllowUnderfullProgress(v, from) || ShouldRenderPlainDecimalWindow(v, from) {
        shift := from;
      } else {
        FullWidthAtTracks(v);
        shift := LastFullWidthShift(v, from, FullWidthAt(v));
      }
    }

    /**
     * The decrement loop of `_render_scientific`: back to the last full-width shift, or 0.
     * The test `full` names the full-width test of `v` without spelling it out.
     */
    static method LastFullWidthShift(v: SciValue, from: nat, full: nat -> bool) returns (shift: nat)
      requires TracksFullWidth(full, v)
      ensures shift == LastAtOrBelow(full, from)
    {
      shift := from;
      while shift > 0
        invariant LastAtOrBelow(full, shift) == LastAtOrBelow(full, from)
      {
        var isFullWidth := IsFullWidth(v, shift, full);
        if isFullWidth {
          LastAtOrBelowStops(full, shift);
          break;
        }
        LastAtOrBelowSteps(full, shift);
        shift := shift - 1;
      }
    }

    /** The full-width flag of the scientific rendering at a shift. */
    static method IsFullWidth(v: SciValue, shift: nat, full: nat -> bool) returns (isFullWidth: bool)
      requires TracksFullWidth(full, v)
      ensures isFullWidth == full(shift)
    {
      var _, flag := BuildShiftedScientificText(v, shift, false);
      FullWidthIsFlag(v, shift);
      isFullWidth := flag;
    }

    /**
     * The second half of `_render_scientific` at a settled shift: the visible initial text at
     * the start, the plain decimal window unless the scientific form is forced, otherwise the
     * shifted rendering, after which the forced form is dropped.
     */
    static method ShowAt(v: SciValue, shift: nat, forceScientific: bool) returns (shown: string, force: bool)
      ensures shown == RenderText(v, shift, forceScientific)
      ensures force == (forceScientific && shift == 0)
    {
      if shift == 0 {
        return InitialVisibleText(v), forceScientific;
      }
      var plainDecimal := PlainDecimalWindowText(v, shift);
      if plainDecimal.Some? && !forceScientific {
        return plainDecimal.value.0, forceScientific;
      }
      var terminal := AtTerminal(v, shift);
      var isFullWidth;
      shown, isFullWidth := BuildShiftedScientificText(v, shift, terminal);
      force := false;
    }

    /**
     * `_render_scientific`: settle the shift, then show what belongs there. A value without
     * digits shows "0".
     */
    method Render()
      modifies this`text, this`sciShift, this`forceScientific
      ensures sciDigits == [] ==> text == "0" && sciShift == old(sciShift) && forceScientific == old(forceScientific)
      ensures sciDigits != [] ==>
        sciShift == RenderShift(Value(), old(sciShift))
        && text == RenderText(Value(), sciShift, old(forceScientific))
        && forceScientific == (old(forceScientific) && sciShift == 0)
    {
      if sciDigits == [] {
        text := "0";
        return;
      }
      var v := Value();
      var shift := SettleShift(v, sciShift);
      sciShift := shift;
      text, forceScientific := ShowAt(v, shift, forceScientific);
    }

    /**
     * `_advance_scientific`: one scroll step. A forward step from the start of a decimal that
     * fits only re-renders. Otherwise the step picks its target shift (and whether to force the
     * scientific form there), renders, and may ask for more digits.
     */
    method AdvanceScientific(direction: int) returns (requested: bool)
      requires Valid() && sciMode
      modifies this`sciShift, this`text, this`forceScientific, this`loadingMore
      ensures Valid() && sciMode && Value() == old(Value())
      ensures AdvanceSkipped(Value(), old(sciShift), direction) ==>
        sciShift == RenderShift(Value(), old(sciShift)) && text == RenderText(Value(), sciShift, false)
        && !requested && loadingMore == old(loadingMore)
      ensures !AdvanceSkipped(Value(), old(sciShift), direction) ==>
        var target := AdvanceTarget(Value(), old(sciShift), old(text), direction);
        sciShift == RenderShift(Value(), target.0) && text == RenderText(Value(), sciShift, target.1)
        && requested == PrefetchFires(Value(), sciShift, direction, precisionExhausted, hasCallback, old(loadingMore))
        && loadingMore == (old(loadingMore) || requested)
      ensures AdvanceMoves(Value(), old(sciShift), old(text), direction) ==> text != old(text)
      ensures AdvanceSkipped(Value(), old(sciShift), direction)
              || AdvanceTarget(Value(), old(sciShift), old(text), direction) == (old(sciShift), false) ==>
        sciShift == old(sciShift) && (old(text) == RenderText(Value(), old(sciShift), false) ==> text == old(text))
    {
      var v := Value();
      if direction > 0 && sciShift == 0 && InitialTextFits(v) {
        assert !AdvanceMoves(v, sciShift, text, direction);
        Refresh();
        return false;
      }
      requested := ScrollTo(direction);
    }

    /** `Render` between calls: the shift is already settled, so only the text is rebuilt. */
    method Refresh()
      requires Valid() && sciMode
      modifies this`text, this`sciShift, this`forceScientific
      ensures Valid() && sciMode && Value() == old(Value()) && sciShift == old(sciShift)
      ensures text == RenderText(Value(), sciShift, false)
    {
      Render();
    }

    /** A scroll step that is not skipped: move to the target, render, maybe prefetch. */
    method ScrollTo(direction: int) returns (requested: bool)
      requires Valid() && sciMode && !AdvanceSkipped(Value(), sciShift, direction)
      modifies this`sciShift, this`text, this`loadingMore
      ensures Valid() && sciMode && Value() == old(Value())
      ensures var target := AdvanceTarget(Value(), old(sciShift), old(text), direction);
        sciShift == RenderShift(Value(), target.0) && text == RenderText(Value(), sciShift, target.1)
        && requested == PrefetchFires(Value(), sciShift, direction, precisionExhausted, hasCallback, old(loadingMore))
        && loadingMore == (old(loadingMore) || requested)
      ensures AdvanceMoves(Value(), old(sciShift), old(text), direction) ==> text != old(text)
    {
      var shift, shown := ScrollStep(Value(), sciShift, text, direction);
      sciShift, text := shift, shown;
      requested := MaybeRequestMoreScientific(direction);
    }

    /**
     * The shift and text a step lands on: the target, settled and rendered as `Render` does,
     * in the scientific form when the step forces it. A forced form is only ever asked for
     * past the start, so the flag is clear again afterwards.
     */
    static method ScrollStep(v: SciValue, from: nat, before: string, direction: int) returns (shift: nat, shown: string)
      ensures var target := AdvanceTarget(v, from, before, direction);
        shift == RenderShift(v, target.0) && shown == RenderText(v, shift, target.1)
      ensures RenderShift(v, shift) == shift
      ensures AdvanceMoves(v, from, before, direction) ==> shown != before
    {
      var target, force := AdvanceStep(v, from, before, direction);
      shift := SettleShift(v, target);
      RenderShiftIdempotent(v, target);
      var forced;
      shown, forced := ShowAt(v, shift, force);
    }

    /**
     * The target of a scroll step: at the dot-start of a plain decimal window a forward step
     * first forces the scientific form of the same shift when that shows something new;
     * otherwise it scans the candidates; a backward step moves one back.
     */
    static method AdvanceStep(v: SciValue, shift: nat, shown: string, direction: int) returns (target: nat, force: bool)
      ensures (target, force) == AdvanceTarget(v, shift, shown, direction)
      ensures force ==> target > 0 && RenderShift(v, target) == target
      ensures AdvanceMoves(v, shift, shown, direction) ==>
        !force && RenderShift(v, target) == target && RenderText(v, target, false) != shown
    {
      if AdvanceTarget(v, shift, shown, direction).1 {
        AdvanceForcedSettles(v, shift, shown, direction);
      }
      if AdvanceMoves(v, shift, shown, direction) {
        AdvanceMovesShowsNew(v, shift, shown, direction);
      }
      if direction > 0 {
        var dotStart := IsPlainDecimalDotStart(v, shift);
        if dotStart {
          var scientificCurrent, _ := BuildShiftedScientificText(v, shift, false);
          if scientificCurrent != shown {
            return shift, true;
          }
        }
        var found := ScanCandidates(v, shift, shown);
        if found.Some? {
          return found.value, false;
        }
        return shift, false;
      } else if direction < 0 {
        return Max(0, shift - 1), false;
      }
      return shift, false;
    }

    /** The candidate loop of `_advance_scientific`, from one past the shift. */
    static method ScanCandidates(v: SciValue, shift: nat, shown: string) returns (found: Option<nat>)
      ensures found == ScanForward(v, shift, shown, FirstCandidate(v, shift))
    {
      var virtualDigits := VirtualDigits(v);
      var maxShift := Max(0, |virtualDigits| - 1);
      ScanTestsTrack(v, shift, shown);
      found := ScanLoop(v, shift, shown, maxShift, EligibleAt(v), BlockedAt(v, shift), DiffersAt(v, shown));
    }

    /**
     * The candidate loop proper. The tests passed in name the candidate checks without spelling
     * them out, so the loop is proved against the abstract scan.
     */
    static method ScanLoop(v: SciValue, shift: nat, shown: string, maxShift: nat,
                           eligible: nat -> bool, blocked: nat -> bool, differs: nat -> bool)
      returns (found: Option<nat>)
      requires TracksEligible(eligible, v) && TracksBlocked(blocked, v, shift) && TracksDiffers(differs, v, shown)
      ensures found == ScanFrom(eligible, blocked, differs, maxShift, Min(shift + 1, maxShift))
    {
      var candidate := Min(shift + 1, maxShift);
      var currentEdge := PlainDecimalRightEdge(v, shift);
      var currentDot := PlainDecimalDotPosition(v, shift);
      while candidate > 0 && candidate <= maxShift
        invariant ScanFrom(eligible, blocked, differs, maxShift, candidate)
                  == ScanFrom(eligible, blocked, differs, maxShift, Min(shift + 1, maxShift))
        decreases maxShift + 1 - candidate
      {
        var isEligible, plainDecimal := CandidateTests(v, shift, candidate, eligible, blocked);
        if isEligible {
          if plainDecimal {
            var isBlocked := IsBlocked(v, shift, candidate, currentEdge, currentDot, blocked);
            if isBlocked {
              return None;
            }
          }
          var isNew := PreviewDiffers(v, candidate, shown, differs);
          if isNew {
            return Some(candidate);
          }
        }
        candidate := candidate + 1;
      }
      return None;
    }

    /**
     * The tests on a candidate: whether the value may stop there (full width, plain decimal
     * window, plain tail or under-full progress), and whether a plain decimal window is due.
     */
    static method CandidateTests(v: SciValue, shift: nat, candidate: nat, eligible: nat -> bool,
                                 blocked: nat -> bool)
      returns (isEligible: bool, plainDecimal: bool)
      requires TracksEligible(eligible, v) && TracksBlocked(blocked, v, shift)
      ensures isEligible == eligible(candidate) && (!plainDecimal ==> !blocked(candidate))
    {
      var _, isFullWidth := BuildShiftedScientificText(v, candidate, false);
      FullWidthIsFlag(v, candidate);
      plainDecimal := ShouldRenderPlainDecimalWindow(v, candidate);
      var allowUnderfull := AllowUnderfullProgress(v, candidate);
      isEligible := isFullWidth || plainDecimal || ShouldRenderPlainTail(v, candidate) || allowUnderfull;
      assert isEligible == Eligible(v, candidate);
      assert !plainDecimal ==> !Blocked(v, shift, candidate);
    }

    /**
     * A plain decimal window at the candidate stops the scan when both windows have their dot in
     * view and the candidate's right edge is not past the current one (the source asks only
     * once the window is known to be due).
     */
    static method IsBlocked(v: SciValue, shift: nat, candidate: nat, currentEdge: Option<int>,
                            currentDot: Option<int>, blocked: nat -> bool)
      returns (isBlocked: bool)
      requires TracksBlocked(blocked, v, shift)
      requires currentEdge == PlainDecimalRightEdge(v, shift) && currentDot == PlainDecimalDotPosition(v, shift)
      ensures isBlocked == blocked(candidate)
    {
      var plainDecimal := ShouldRenderPlainDecimalWindow(v, candidate);
      var candidateEdge := PlainDecimalRightEdge(v, candidate);
      var candidateDot := PlainDecimalDotPosition(v, candidate);
      var bodyWidth := CoreBudget(v);
      isBlocked := plainDecimal && currentEdge.Some? && candidateEdge.Some? && currentDot.Some? && candidateDot.Some?
        && currentDot.value < bodyWidth && candidateDot.value < bodyWidth
        && candidateEdge.value <= currentEdge.value;
      assert isBlocked == Blocked(v, shift, candidate);
    }

    /** Whether the candidate's preview differs from the shown text. */
    static method PreviewDiffers(v: SciValue, candidate: nat, shown: string, differs: nat -> bool)
      returns (isNew: bool)
      requires TracksDiffers(differs, v, shown)
      ensures isNew == differs(candidate)
    {
      var candidateText := PreviewScientificText(v, candidate);
      isNew := candidateText != shown;
    }

    /**
     * `_maybe_request_more_scientific`: mark a request in flight (and ask for more digits) when
     * the prefetch rule fires.
     */
    method MaybeRequestMoreScientific(direction: int) returns (requested: bool)
      modifies this`loadingMore
      ensures requested == PrefetchFires(Value(), sciShift, direction, precisionExhausted, hasCallback, old(loadingMore))
      ensures loadingMore == (old(loadingMore) || requested)
      ensures Value() == old(Value()) && sciShift == old(sciShift) && text == old(text)
      ensures sciMode == old(sciMode) && forceScientific == old(forceScientific)
      ensures hasCallback == old(hasCallback) && precisionExhausted == old(precisionExhausted)
    {
      requested := PrefetchFires(Value(), sciShift, direction, precisionExhausted, hasCallback, loadingMore);
      if requested {
        loadingMore := true;
      }
    }

    /** `finish_loading_more`: the request in flight has been answered. */
    method FinishLoadingMore()
      modifies this
      ensures !loadingMore
      ensures Value() == old(Value()) && sciShift == old(sciShift) && text == old(text)
      ensures sciMode == old(sciMode) && forceScientific == old(forceScientific)
      ensures hasCallback == old(hasCallback) && precisionExhausted == old(precisionExhausted)
    {
      loadingMore := false;
    }

    /** `mark_precision_exhausted`: no more digits will come. */
    method MarkPrecisionExhausted()
      modifies this
      ensures precisionExhausted
      ensures Value() == old(Value()) && sciShift == old(sciShift) && text == old(text)
      ensures sciMode == old(sciMode) && forceScientific == old(forceScientific)
      ensures hasCallback == old(hasCallback) && loadingMore == old(loadingMore)
    {
      precisionExhausted := true;
    }

    /** `reset_precision_exhausted`. */
    method ResetPrecisionExhausted()
      modifies this
      ensures !precisionExhausted
      ensures Value() == old(Value()) && sciShift == old(sciShift) && text == old(text)
      ensures sciMode == old(sciMode) && forceScientific == old(forceScientific)
      ensures hasCallback == old(hasCallback) && loadingMore == old(loadingMore)
    {
      precisionExhausted := false;
    }
  }

  /**
   * A fraction written `0.` followed by digits is a plain decimal and not a scientific text, and
   * its first rendering shows at most seventeen of its characters.
   */
  lemma PlainFractionFirstView(d: string)
    requires d != [] && AllDigits(d)
    ensures var t := "0." + d;
      ParsedValue(t).Some? && ParsedValue(t).value.kind == DecimalSource
      && RenderText(ParsedValue(t).value, 0, false) == t[..Min(|t|, VisibleChars)]
  {
    var t := "0." + d;
    PlainFractionNotScientific(d);
    PlainFractionIsDecimal(d);
    ParsedValueCases(t);
    DecimalFirstView(ParsedValue(t).value);
  }

  /** A plain decimal's first rendering is its initial text, cut to the visible width. */
  lemma DecimalFirstView(v: SciValue)
    requires v.kind == DecimalSource
    ensures RenderText(v, 0, false) == v.initial[..Min(|v.initial|, VisibleChars)]
  {
  }

  /** `0.` followed by digits does not match the scientific pattern: it has no exponent marker. */
  lemma PlainFractionNotScientific(d: string)
    requires d != [] && AllDigits(d)
    ensures ParseScientific("0." + d).None?
  {
    var t := "0." + d;
    assert t[0] == '0' && t[|t| - 1] == d[|d| - 1];
    StripKeeps(t);
    assert SignPrefix(t) == "";
    forall i | 0 <= i < |t| ensures t[i] !in "eE" {
      if i >= 2 { assert t[i] == d[i - 2]; }
    }
    assert FirstIndexIn(t, "eE").None?;
  }

  /** `0.` followed by digits matches the decimal pattern. */
  lemma PlainFractionIsDecimal(d: string)
    requires d != [] && AllDigits(d)
    ensures MatchDecimal("0." + d) == Some(DecimalParts("", "0", d))
  {
    var t := "0." + d;
    assert t[0] == '0' && t[1] == '.' && t[2..] == d && t[|t| - 1] == d[|d| - 1];
    StripKeeps(t);
    assert SignPrefix(t) == "" && t[|""|..] == t;
    assert DigitRun(t) == 1 by { assert t[1..][0] == '.'; }
    assert t[..1] == "0";
  }

  /**
   * The first view of the result of 1/3 at sixteen digits: the eighteen characters
   * "0.3333333333333333" show as seventeen.
   */
  lemma ThirdFirstView()
    ensures var t := "0." + seq(16, _ => '3');
      ParsedValue(t).Some? && |RenderText(ParsedValue(t).value, 0, false)| == VisibleChars
  {
    PlainFractionFirstView(seq(16, _ => '3'));
  }

  /**
   * What the application does with the answer to a request for more digits: an engine failure
   * is ignored; a refined result equal to the last one marks precision exhausted; any other is
   * remembered and shown with the view preserved. The request is finished in every case.
   * `lastResult` is the application's `_last_engine_result`.
   */
  method ApplyRefinement(display: ResultDisplay, lastResult: Option<string>, outcome: Result<string, string>)
    returns (newLast: Option<string>)
    requires display.Valid()
    modifies display
    ensures display.Valid() && !display.loadingMore && display.hasCallback == old(display.hasCallback)
    ensures outcome.Failure? || lastResult == Some(outcome.value) ==>
      newLast == lastResult && display.text == old(display.text) && display.sciShift == old(display.sciShift)
      && display.Value() == old(display.Value()) && display.sciMode == old(display.sciMode)
    ensures outcome.Failure? ==> display.precisionExhausted == old(display.precisionExhausted)
    ensures outcome.Success? && lastResult == Some(outcome.value) ==> display.precisionExhausted
    ensures outcome.Success? && lastResult != Some(outcome.value) ==>
      var updated := outcome.value;
      newLast == Some(updated) && display.precisionExhausted == old(display.precisionExhausted)
      && (ParsedValue(updated).None? ==> !display.sciMode && display.text == updated)
      && (ParsedValue(updated).Some? ==>
            var v := ParsedValue(updated).value;
            display.sciMode && display.Value() == v && display.sciShift == RenderShift(v, old(display.sciShift))
            && display.text == RenderText(v, display.sciShift, false))
  {
    newLast := lastResult;
    if outcome.Success? {
      var updated := outcome.value;
      if lastResult.Some? && updated == lastResult.value {
        display.MarkPrecisionExhausted();
      } else {
        newLast := Some(updated);
        display.SetText(updated, true);
      }
    }
    display.FinishLoadingMore();
  }
}
