# CalculadoraPy result display, expression preprocessor and precision engine in Dafny

This project models the logic core of CalculadoraPy, a desktop calculator, and proves
properties of that model. The core has three parts.

- **The scrolling result field** (`ResultDisplay` in `calculator_ui.py`). A result string is
  parsed into a sign, a digit string and an exponent. For each scroll position (`shift`) the
  field shows one of three texts: the initial text, a plain decimal window with its point, or
  an ellipsis followed by a scientific mantissa (or, at the end of an integer, its plain tail).
  A scroll step moves the shift. Moving forward, it probes candidates until the text changes.
  Near the end of the known digits, it asks the application for more digits. `ResultDisplay`
  is a class whose methods update its fields. Everything it computes from those fields is a
  pure function in module `Layout`. The application's handling of a refined result
  (`_request_more_precision`) is the method `Display.ApplyRefinement`.
- **The expression preprocessor** (`FormulaEvaluator` in `formula_evaluator.py`). It runs these
  steps in order:
  - the character whitelist;
  - glyph mapping;
  - the right-to-left rewrite of postfix `!` into `factorial(...)`, which splices a character
    list in place;
  - percent expansion to a fixed point;
  - the eight implicit-multiplication rewrites;
  - identifier validation.

  Each regular expression is written as an explicit scanner. Each loop of the rewrites
  (`_replace_factorial`, `_replace_percentage` and `_insert_implicit_mult`) is a method proved
  equal to a function. The three `for` loops of `_validate_identifiers` are modelled by the
  recursive function `FirstWhere`, which returns the first name that breaks a rule.
- **The precision engine** (`ArbitraryPrecisionCalculatorEngine` in
  `arbitrary_precision_engine.py`). It keeps the working digits and the last expression. It
  computes the guard precision and promotes numeric literals on the token stream. Python's
  tokenizer, untokenizer and the mpmath evaluation are an uninterpreted `Host` parameter.

Modules, one per file:
- `Wrappers`: Option, Result, Outcome.
- `Text`: character classes, `strip`, `str(n)`/`int(s)`, the exponent suffix `e±N`, counting.
- `ResultText`: the two result parsers and `_format_initial_scientific`.
- `Layout`: the per-shift view functions of `ResultDisplay`.
- `ScientificWidth`: the width bounds.
- `Display`: the class `ResultDisplay` and `ApplyRefinement`.
- `Formula`: the preprocessor.
- `Engine`: literal promotion and the class `PrecisionEngine`.

Where the code and its design description disagree, the model follows the code:
- The description promises chained factorials. The code rewrites only the first `!` of `5!!`.
  Scanning from the right, the last `!` follows a `!`, which is no operand, so it is kept; the
  first `!` then wraps the `5`. The result is `factorial(5)!`. See
  `Formula.ChainedFactorialKeepsLastBang`.
- The code never rescans its output: `(3!)!` becomes `factorial((3!))`.
- The description bounds the rendered text by the visible width. The code renders
  `sign + "…" + core` with the core within `17 - |sign|` characters, that is up to 18
  characters with the ellipsis (the widget is `VISIBLE_CHARS + 1` wide). When the exponent
  suffix alone fills the core, the code shows one digit and the suffix, which is wider still.
  `ScientificWidth.RenderTextWidth` states exactly this bound.

One place departs from the code on purpose: `_format_initial_scientific` is wrong for a mantissa
budget of two (see "## Findings"). The class uses the corrected formatter.
`ResultText.FormatInitialScientificAgreement` proves that the two agree on every other input.

## Model

| member | source | states |
|---|---|---|
| Text.StripEmptyIffBlank | formula_evaluator.py:99-100 | `strip()` gives the empty text exactly when the text is empty or all whitespace |
| Text.ExpTextRoundTrip | calculator_ui.py:505-513 | the exponent suffix `e{exponent:+d}` reads back with `int()` as the exponent it was printed from |
| Text.NatToStringPow10 | calculator_ui.py:404 | `str(10**k)` is a one and k zeros |
| ResultText.ParseScientific | calculator_ui.py:687-695 | `_parse_scientific` accepts only the full pattern; the result has a sign, a non-empty digit string and an integer exponent |
| ResultText.ParseSciText | calculator_ui.py:687-695 | a rendering `sign d[.fff]e±N` parses back to exactly its sign, its digits and its exponent |
| ResultText.ParseSignedMantissa | calculator_ui.py:687-695 | a signed mantissa plus an exponent suffix parses exactly when the mantissa has the form `d` or `d.ddd` |
| ResultText.MatchDecimal | calculator_ui.py:697-705 | the decimal pattern yields a sign, non-empty integer digits (defaulting to "0") and fraction digits |
| ResultText.NormalizeDecimalValue | calculator_ui.py:706-722 | normalisation keeps the value of the digits; an all-zero input gives `(sign, "0", 0)`; otherwise the digits start with a non-zero digit and the last one sits at the place of the last fraction digit |
| ResultText.ParseDecimalNormalised | calculator_ui.py:697-722 | a parsed decimal has non-empty digits that are "0" with exponent 0 or start with a non-zero digit |
| ResultText.FormatInitialScientificAsWritten | calculator_ui.py:402-417 | `_format_initial_scientific` as written stays within the sign, the mantissa budget and the exponent suffix |
| ResultText.FormatInitialScientific | calculator_ui.py:402-417 | the corrected initial text stays within the sign, the mantissa budget and the exponent suffix |
| ResultText.FormatInitialScientificFits | calculator_ui.py:402-417 | the initial scientific text fits the 17 visible characters whenever the sign and exponent leave room for a digit |
| ResultText.FormatInitialScientificReads | calculator_ui.py:402-417 | the corrected initial text always parses back to the sign, a prefix of the digits and the exponent |
| ResultText.FormatInitialScientificAgreement | calculator_ui.py:402-417 | the corrected initial text equals the text as written exactly when the mantissa budget is not two or there is only one digit |
| ResultText.FormatInitialScientificTwoDigitBudget | calculator_ui.py:409-411 | with the budget two, "25" at exponent 10^12 is written `25e+1000000000000` as written (which does not parse), and `2e+1000000000000` corrected |
| Layout.EffectiveShift | calculator_ui.py:422-425 | the effective shift is one less than the shift exactly for a decimal below one past the start, otherwise the shift |
| Layout.IntegerTrailingZerosMeaning | calculator_ui.py:460-471 | `_integer_trailing_zeros` is None exactly when some fractional digit is non-zero; otherwise it is the number of zeros ending the integer's digits |
| Layout.IntegerTrailingZerosCount | calculator_ui.py:460-471 | a defined count equals the trailing zeros of the integer's digit string padded to the units place |
| Layout.CanRenderPlainTailIff | calculator_ui.py:473-479 | the plain tail is allowed exactly for an integer whose digits end in at most `VISIBLE_CHARS // 2` zeros |
| Layout.VirtualDigitsShape | calculator_ui.py:427-439 | the virtual digits are the digits, or for a plain-tail integer ending above the units place the digits followed by exactly the zeros up to it |
| Layout.VirtualDigitsExtend | calculator_ui.py:427-439 | the virtual digits start with the digits and are digits |
| Layout.ClampedShift | calculator_ui.py:627-628 | the mantissa start is at most the effective shift and the last virtual digit |
| Layout.FitMantissa | calculator_ui.py:657-666 | the fitted mantissa width lies between one and the budget |
| Layout.ShownDigits | calculator_ui.py:668-676 | the shown digit count lies between one and the digits available |
| Layout.SciLayout | calculator_ui.py:668-682 | the mantissa fits the virtual digits from the start, and its exponent is `sci_exponent - (start + shown - 1)` |
| Layout.ShiftedScientificShape | calculator_ui.py:668-685 | a scientific rendering is `sign + "…" + mantissa + e±N`, with the mantissa the shown virtual digits from the clamped shift and the flag telling whether the core fills the budget |
| Layout.PlainTailShowsLastDigits | calculator_ui.py:634-646 | the plain tail shows the last virtual digits, as many as the core holds, and is full width exactly when there are enough |
| Layout.ShiftedExponentReadsText | calculator_ui.py:505-513 | reading the integer after the last 'e' of the rendering gives the layout's exponent (nothing for a value without digits) |
| Layout.FullWidthIsFlag | calculator_ui.py:619-685 | the full-width test is the flag `_build_shifted_scientific_text` returns |
| Layout.PlainDecimalWindowText | calculator_ui.py:553-584 | a plain decimal window is produced only when `_should_render_plain_decimal_window` holds |
| Layout.PlainDecimalWindowShape | calculator_ui.py:553-584 | the window shows the digits after the shift in order, within the core budget, with the point right after the units digit when that digit is in view |
| Layout.PlainDecimalRightEdge | calculator_ui.py:586-606 | a right edge exists only when the window is due |
| Layout.PlainDecimalDotPosition | calculator_ui.py:608-614 | a dot position exists exactly when the window is due, and it is never negative |
| Layout.InsertPoint | calculator_ui.py:580-581 | inserting the point adds one character and leaves the digits before and after it in place |
| Layout.InitialVisibleText | calculator_ui.py:384-393 | a decimal's initial view is a prefix of its text of at most 17 characters; a scientific one is the formatted text |
| Layout.InitialTextFits | calculator_ui.py:441-449 | the initial text fits exactly for a decimal whose stripped text has at most 17 characters |
| Layout.IsPlainDecimalDotStart | calculator_ui.py:395-400 | the dot-start state implies a due plain decimal window whose dot stands first |
| Layout.RenderShiftSettles | calculator_ui.py:345-356 | rendering never moves forward, settles on the start, a full-width shift, an under-full-progress shift or a plain decimal window, and every shift it passes back over is not full width |
| Layout.RenderShiftIdempotent | calculator_ui.py:345-356 | rendering again at the settled shift stays there |
| Layout.LastAtOrBelowSkips | calculator_ui.py:350-354 | the decrement loop skips only shifts that fail the test |
| Layout.ScanFromFinds | calculator_ui.py:261-291 | a shift the candidate scan returns is eligible, not blocked, and differs from the shown text; every candidate passed over was not eligible, or neither blocked nor showing a new text |
| Layout.ScanForwardMoves | calculator_ui.py:255-291 | a shift the forward scan moves to is one rendering keeps, and its text differs from the text shown before |
| Layout.AdvanceTargetBounds | calculator_ui.py:255-294 | a forward step stays put or moves to a shift in `[1, len(virtual) - 1]` no lower than the first candidate `min(shift + 1, len(virtual) - 1)`; a backward step goes to `max(0, shift - 1)`; direction 0 stays |
| Layout.AdvanceMovesShowsNew | calculator_ui.py:255-291 | a forward step carried by the scan lands within bounds on a shift rendering keeps and shows a new text |
| ScientificWidth.MantissaFits | calculator_ui.py:657-676 | the shown digits and the final exponent suffix fit the budget, or are one digit and the suffix when the suffix alone fills it |
| ScientificWidth.LayoutFits | calculator_ui.py:668-685 | the layout's digits and suffix fit the core budget, or are one digit and the suffix |
| ScientificWidth.SignAndBudget | calculator_ui.py:630-631 | the sign and the core budget together are the 17 visible characters |
| ScientificWidth.ShiftedTextWidth | calculator_ui.py:619-685 | the shifted rendering, in either form, is within the width bound |
| ScientificWidth.WindowWidth | calculator_ui.py:565-584 | a plain decimal window is at most 17 characters plus the ellipsis |
| ScientificWidth.RenderTextWidth | calculator_ui.py:339-382 | past the start, the rendered text is within 17 characters plus the ellipsis unless the exponent suffix alone fills the core |
| ScientificWidth.InitialTextWidth | calculator_ui.py:384-417 | at the start, the text shown fits the 17 visible characters (for a scientific value, when its sign and exponent leave room) |
| Display.ParsedValue | calculator_ui.py:70-95 | a parsed result is well formed, and a scientific one starts from its formatted initial text |
| Display.ParsedValueCases | calculator_ui.py:70-98 | the text is shown as it is exactly when neither pattern matches; the scientific pattern wins; a decimal keeps its own text as the initial text |
| Display.ResultDisplay.constructor | calculator_ui.py:39-57 | the field starts showing "0", not scrolling, at shift 0, with no load in flight and precision not exhausted |
| Display.ResultDisplay.SetText | calculator_ui.py:65-105 | a fresh result clears the exhaustion flag and starts at shift 0; a refined one keeps the flag and the shift; a numeric result is scrolled and rendered, any other text is shown as it is |
| Display.ResultDisplay.ParseResult | calculator_ui.py:70-95 | the two parses in their order give the parsed value |
| Display.ResultDisplay.CountTrailingZeros | calculator_ui.py:451-458 | the loop counts exactly the trailing '0' characters |
| Display.ResultDisplay.FitMantissaDigits | calculator_ui.py:657-666 | the bounded fit loop computes the fitted mantissa width |
| Display.ResultDisplay.BuildScientificCore | calculator_ui.py:668-685 | the scientific branch builds `sign + "…" + core` and its full-width flag |
| Display.ResultDisplay.CountShownDigits | calculator_ui.py:668-676 | the shown digit count of the layout |
| Display.ResultDisplay.PreviewScientificText | calculator_ui.py:319-337 | the preview of a shift |
| Display.ResultDisplay.LastFullWidthShift | calculator_ui.py:350-354 | the decrement loop stops at the last full-width shift at or below the start point, or 0 |
| Display.ResultDisplay.Render | calculator_ui.py:339-382 | rendering settles the shift, shows the text that belongs there and drops the forced form past the start; a value without digits shows "0" |
| Display.ResultDisplay.Refresh | calculator_ui.py:339-382 | re-rendering a field in its settled state keeps the value and the shift and shows the unforced text of that shift |
| Display.ResultDisplay.AdvanceScientific | calculator_ui.py:234-297 | a scroll step renders its target shift, keeps the value and a settled shift, prefetches by the prefetch rule, and changes the text whenever the scan moves; a step whose target is the current shift unforced (a forward step with no candidate left) keeps the shift, and keeps the text when it shows the unforced rendering |
| Display.ResultDisplay.AdvanceStep | calculator_ui.py:243-294 | the step's target and forced flag, a forced target rendering keeps, and a moved target showing a new text |
| Display.ResultDisplay.ScrollTo | calculator_ui.py:242-297 | a step that is not skipped lands on the rendered target, keeps the value and the class invariant, prefetches by the prefetch rule, and shows a new text whenever the scan moves |
| Display.ResultDisplay.ScrollStep | calculator_ui.py:242-296 | the shift a step settles on and the text rendered there, in the scientific form when the step forces it; a step the scan carries shows a text other than the one before |
| Display.ResultDisplay.ScanCandidates | calculator_ui.py:255-291 | the candidate while-loop computes the forward scan |
| Display.ResultDisplay.MaybeRequestMoreScientific | calculator_ui.py:299-317 | the loading flag is set exactly when the prefetch rule fires, and nothing else changes |
| Display.ResultDisplay.FinishLoadingMore | calculator_ui.py:217-218 | clears the loading flag and nothing else |
| Display.ResultDisplay.MarkPrecisionExhausted | calculator_ui.py:220-221 | sets the exhaustion flag and nothing else |
| Display.ResultDisplay.ResetPrecisionExhausted | calculator_ui.py:223-224 | clears the exhaustion flag and nothing else |
| Display.PlainFractionFirstView | calculator_ui.py:384-393 | `0.` followed by digits is a plain decimal whose first view is its first `min(len, 17)` characters |
| Display.ThirdFirstView | regression_scroll_checks.py:152-156 | the 18-character result `0.3333333333333333` first shows 17 characters |
| Display.ApplyRefinement | calculator_ui.py:1044-1062 | an engine failure changes nothing shown; a refinement equal to the last result marks precision exhausted; any other is remembered and shown with the view preserved; loading always finishes |
| Formula.ValidateRawExpression | formula_evaluator.py:113-117 | the raw check passes exactly when every character is whitelisted, and otherwise fails as invalid characters |
| Formula.WhitelistExcludesForbidden | formula_evaluator.py:113-117 | a whitelisted text holds no `__` and none of `[]{};:`, so the second check never fires |
| Formula.ReplaceChar | formula_evaluator.py:122-124 | a single-character replace changes exactly the occurrences of that character |
| Formula.ReplaceAllRemoves | formula_evaluator.py:127-128 | replacing a character by a text without it leaves no occurrence |
| Formula.MapGlyphs | formula_evaluator.py:122-124 | after the mapping no `×`, `÷` or `−` is left and the length is kept |
| Formula.OperandStart | formula_evaluator.py:144-179 | the operand of a `!` starts before it; there is none exactly when the `!` starts the text or follows a character other than `)`, a digit, a dot, a letter or `π`; after a digit or dot it is the maximal run of digits and dots ending there, after a letter the maximal run of letters and `π` |
| Formula.GroupStartBalanced | formula_evaluator.py:146-155 | the depth scan stops at the `(` whose group, up to the given end, balances, with every later start leaving a `)` open; when no `(` balances, it stops at the start of the text |
| Formula.OperandStartGroup | formula_evaluator.py:146-156 | after a `)`, the operand is the balanced group that this `)` closes, or the whole text before the `!` when no `(` balances it |
| Formula.NestedGroupOperand | formula_evaluator.py:146-156 | in `2*(3+(4))!` the operand is the outer group `(3+(4))` |
| Formula.RunStart | formula_evaluator.py:161-179 | the run of digits and dots, or of letters and π, is maximal to the left |
| Formula.OperandStartPrefix | formula_evaluator.py:144-179 | the operand of a `!` depends only on the text up to it |
| Formula.FactorialRewriteNoBang | formula_evaluator.py:135-183 | a text without `!` is left as it is |
| Formula.FactorialRewriteAppend | formula_evaluator.py:135-183 | text after the last `!` is copied unchanged |
| Formula.FactorialRewriteCount | formula_evaluator.py:135-183 | the rewrite never adds a `!` |
| Formula.FactorialOfNumber | formula_evaluator.py:161-170 | `2+3!` becomes `2+factorial(3)` |
| Formula.ChainedFactorialKeepsLastBang | formula_evaluator.py:144-181 | `5!!` becomes `factorial(5)!` |
| Formula.FactorialOfGroup | formula_evaluator.py:146-159 | `(3!)!` becomes `factorial((3!))`: the group is taken whole and not rescanned |
| Formula.ReplaceFactorial | formula_evaluator.py:135-183 | the in-place splicing loop computes the factorial rewrite |
| Formula.FindOperand | formula_evaluator.py:146-179 | the depth-counting and run loops find the operand start |
| Formula.PercentAt | formula_evaluator.py:187-196 | a match ends at a `%` past its start |
| Formula.PercentAtMatches | formula_evaluator.py:187-196 | what a match spans before its `%` is a number literal `(\d+(\.\d*)?\|\.\d+)([eE][+-]?\d+)?` for the literal pattern, and `(`, non-parenthesis characters, `)` for the group pattern |
| Formula.PercentAtComplete | formula_evaluator.py:187-196 | conversely, a number literal or an innermost group before a `%` is matched there, so a match is found exactly where the regular expression matches |
| Formula.PercentPassCount | formula_evaluator.py:186-196 | a pass never adds a `%`, and a pass that removes none changes nothing |
| Formula.PercentFixpointIsFixed | formula_evaluator.py:192-196 | the group loop stops at a text the group rewrite no longer changes |
| Formula.PercentRewriteCount | formula_evaluator.py:185-196 | the percent rewrite never adds a `%`, and leaves a text without `%` as it is |
| Formula.PercentOfNumber | formula_evaluator.py:187-191 | `50%` becomes the replacement `(50*0.01)` of `50` |
| Formula.ReplacePercentage | formula_evaluator.py:185-196 | the fixed-point loop computes the percent rewrite and ends at a fixed point of the group pass |
| Formula.StarsInsertedTrans | formula_evaluator.py:198-211 | inserting stars into a text that already has stars inserted is again an insertion of stars into the first text |
| Formula.MovedStarIsNoInsertion | formula_evaluator.py:198-211 | moving an existing `*` (`2*3` to `23*`) is not an insertion of stars |
| Formula.InsertFromOnlyStars | formula_evaluator.py:198-211 | one pass gives its input with `*` inserted between characters, every original character kept in place and order |
| Formula.ApplyRulesOnlyStars | formula_evaluator.py:198-211 | the rules in order give their input with `*` inserted, and never shorten it |
| Formula.InsertImplicitMult | formula_evaluator.py:198-211 | the pattern loop computes the eight rewrites in order, and its result is the input with `*` inserted |
| Formula.ApplyRulesNoMatch | formula_evaluator.py:198-211 | the rules leave alone a text where none matches |
| Formula.DigitBeforeGroup | formula_evaluator.py:201 | `2(3)` becomes `2*(3)` |
| Formula.ExponentLiteralKept | formula_evaluator.py:199-208 | `2e5` is not split |
| Formula.NameRuns | formula_evaluator.py:214 | the runs of letters found are non-empty |
| Formula.NameRunsSpans | formula_evaluator.py:214 | the runs found are, in order and without overlap, the maximal runs of letters and `π` of the text, and every letter lies in one of them |
| Formula.NameRunsOfProduct | formula_evaluator.py:214 | `pi*xy` gives the runs `pi` and `xy` |
| Formula.FirstWhere | formula_evaluator.py:214-224 | None exactly when no name satisfies the test, otherwise a name that does and that no earlier name does |
| Formula.UnknownName | formula_evaluator.py:214-216 | None exactly when every run of letters is a known identifier, otherwise the first run that is not one |
| Formula.UncalledFunction | formula_evaluator.py:218-220 | None exactly when every function name is followed by `(`, otherwise one that is not |
| Formula.CalledConstant | formula_evaluator.py:222-224 | None exactly when no constant is followed by `(`, otherwise one that is |
| Formula.ValidateIdentifiers | formula_evaluator.py:213-224 | passes exactly when all three rules hold; a failure names the offending identifier, and an unknown one is the first unknown run in `findall` order; a function or constant error comes only when no name is unknown, and a constant error only when every function is called |
| Formula.FirstUnknownReported | formula_evaluator.py:214-216 | `x+y` fails on `x`, the first of its two unknown names |
| Formula.UnknownBeforeUncalled | formula_evaluator.py:213-220 | `x+sin 2` fails on the unknown `x`, not on the uncalled `sin` |
| Formula.UnknownLetterReported | formula_evaluator.py:214-216 | `2x` fails on the unknown `x` |
| Formula.FunctionWithoutCallReported | formula_evaluator.py:218-220 | `sin 2` fails on `sin` without its parenthesis |
| Formula.PreprocessExpression | formula_evaluator.py:119-133 | `_preprocess` step by step gives the preprocessed text, which passes the identifier check; it fails only on an identifier |
| Formula.PreprocessFailsOnIdentifiers | formula_evaluator.py:119-133 | `_preprocess` fails only on an identifier |
| Formula.PrepareFormulaEmpty | formula_evaluator.py:99-100 | the evaluator refuses a text as empty exactly when it is blank |
| Formula.PrepareFormulaInvalid | formula_evaluator.py:99-102 | the evaluator refuses a text as invalid exactly when it is not blank and holds a character outside the whitelist |
| Formula.PrepareFormulaAccepts | formula_evaluator.py:98-103 | an accepted text is whitelisted and preprocessed |
| Formula.Prepare | formula_evaluator.py:98-103 | the evaluator's checks step by step give the prepared text |
| Engine.PromoteToken | arbitrary_precision_engine.py:158-166 | a non-imaginary number is rewritten as `mpf("…")` unless it is an integer after `**`; every other token is kept |
| Engine.PromoteAt | arbitrary_precision_engine.py:155-170 | each promoted token is its input token rewritten after the promoted tokens before it |
| Engine.PromoteKeepsShape | arbitrary_precision_engine.py:155-170 | promotion keeps the length and kinds and changes only real number literals |
| Engine.PromotePowerExample | arbitrary_precision_engine.py:159-165 | in `2**3` the base is promoted and the exponent stays exact |
| Engine.PromoteNumericLiterals | arbitrary_precision_engine.py:152-170 | the token loop computes the promotion |
| Engine.GuardDigits | arbitrary_precision_engine.py:135 | the guard precision is at least 40 and above the digits |
| Engine.EvaluationRejects | arbitrary_precision_engine.py:134-150 | the engine refuses exactly what the preprocessor refuses, with the same error, and a blank expression as empty |
| Engine.Evaluated | arbitrary_precision_engine.py:137-150 | a refusal of the preprocessor is passed on, and only such a refusal is reported as one |
| Engine.EvaluateWithDigits | arbitrary_precision_engine.py:134-150 | the evaluation at given digits is the engine's outcome for them |
| Engine.CanExpandWeakerThanRequest | arbitrary_precision_engine.py:120-125 | every state a request accepts can expand, and a recorded empty expression can expand but is refused |
| Engine.PrecisionEngine.constructor | arbitrary_precision_engine.py:95-104 | both settings are clamped to at least 8 and the working digits start at the initial value |
| Engine.PrecisionEngine.Evaluate | arbitrary_precision_engine.py:114-118 | the expression is recorded and the digits reset before the evaluation, whose outcome is returned |
| Engine.PrecisionEngine.CanExpandPrecision | arbitrary_precision_engine.py:120-121 | true exactly when an expression is recorded |
| Engine.PrecisionEngine.RequestMorePrecision | arbitrary_precision_engine.py:123-132 | without a recorded non-empty expression it fails and keeps the digits; otherwise the digits grow by exactly the step and the expression is evaluated again from scratch |

## Left out

- The tkinter widget plumbing is not modelled: `Entry` and `StringVar`, bindings, wheel and drag handlers, `after`/`after_cancel`, `xview`, `_restore_view`, `_scroll_to_start` and the pixel-based `_maybe_request_more` for text that is not scrolled.
- `CalculatorApp` is modelled only in its handling of a refinement, `Display.ApplyRefinement`. Buttons, fonts, toggles and the clipboard are left out. The daemon thread and the `after(0, …)` callbacks are modelled as running in order, one after another. The `hasattr` test is left out because the engine always has the method.
- Display.ApplyRefinement: an exception raised inside the thread is modelled as an engine failure, which is ignored.
- SetText (`Display.ResultDisplay.SetText`, and `ShowParsed` and `ShowValue` below it): a scientific result starts from the corrected initial text. For a mantissa budget of two with two or more digits, the code stores and shows two digits with no point instead (see "## Findings"). `ResultText.FormatInitialScientificAgreement` shows this is the only difference.
- ParsedValue (`Display.ParsedValue`) and ParseResult (`Display.ResultDisplay.ParseResult`): the scientific value's initial text is the corrected formatter's, with the same single difference.
- InitialTextWidth (`ScientificWidth.InitialTextWidth`): the bound is proved for the corrected initial text. `ResultText.FormatInitialScientificAsWritten` carries the same width bound for the text as written.
- After a forced step at the dot-start, the text is the forced scientific form. A further forward step with no candidate left re-renders the plain window, as the code does, so that step is not a no-op.
- Python's tokenizer and untokenizer and the `eval` of the promoted text under mpmath are the uninterpreted `Host` functions. `Host.tokenize` is total, so the `TokenError` that `tokenize.generate_tokens` raises on unbalanced text (an unclosed `(`) is not modelled. `_format_result`, `_last_value`, the angle mode and the math providers are numerics and formatting, not logic.
- Python's default arguments are not modelled: every caller passes them. `Engine.PrecisionEngine.constructor` takes both settings (the defaults are `initial_digits=18` and `precision_step=24`), and `Display.ResultDisplay.SetText` takes `preserveView` (the default is `preserve_view=False`).
- calculator_engine.py (a float-formatting wrapper) and main.py (start-up only) are not part of this model.
- Python's `\d`, `\w`, `isdigit` and `isalpha` are modelled on ASCII letters and digits plus `π`. Other Unicode letters and digits are not modelled.
- `_validate_identifiers` iterates over Python sets. The model visits the names in a fixed order, so when several names break a rule the one reported may differ from the source's.
- `_minimum_shifted_exponent` and `_has_full_plain_tail_at_shift` are never called, so they are not modelled. The branches under `SHOW_SHIFTED_SEPARATOR` are dead (the constant is False).
- Display.ThirdFirstView: proves only the first of the 1/3 expectations (the first view has 17 characters). The second, that after one forward step 17 characters remain besides the ellipsis, is not proved.
- The other scroll expectations (walking forward ends at `…389053.3447265625` for 8881784197001252323389053.3447265625 and at `…69596115894272e+9` for 40!) are not proved. Each needs dozens of concrete scroll steps over 25- and 48-digit values, which is too costly to unfold in the verifier.
- `get_copy_text` has no definition in calculator_ui.py, so the copy checks and the `3e-30` checks that rely on it and on mpmath output have nothing to model.

## Findings

| source | as written | input that shows it | evidently intended | confidence | as-written member | corrected member |
|---|---|---|---|---|---|---|
| calculator_ui.py:409-411 | with a mantissa budget of two, `_format_initial_scientific` writes the first two digits side by side with no decimal point | sign "", digits "25", exponent 10^12 (the suffix `e+1000000000000` leaves two characters): it gives `25e+1000000000000`, ten times the value, and `_parse_scientific` no longer accepts it | show the first digit alone, `2e+1000000000000`, which reads back as a prefix of the digits | not executed | ResultText.FormatInitialScientificAsWritten, ResultText.FormatInitialScientificTwoDigitBudget | ResultText.FormatInitialScientific, ResultText.FormatInitialScientificReads |
