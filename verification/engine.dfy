/**
 * The arbitrary-precision engine (`ArbitraryPrecisionCalculatorEngine` in
 * arbitrary_precision_engine.py): it remembers the last expression, evaluates it at a working
 * number of digits, and on request raises the digits by a fixed step and evaluates it again.
 * Before evaluation the numeric literals of the preprocessed expression are promoted to
 * arbitrary-precision numbers. The host side (Python's tokenizer, `eval` under mpmath and the
 * formatting of the value) is a parameter.
 */
module Engine {
  import opened Wrappers
  import opened Text
  import opened Formula

  // ---------------------------------------------------------------------------------------
  // Literal promotion

  /** The token types `_promote_numeric_literals` looks at; `Other` stands for all the rest. */
  datatype TokenKind = Number | Operator | Name | StringLiteral | Other

  datatype Token = Token(kind: TokenKind, text: string)

  /** `tok.string.lower().endswith("j")`: an imaginary literal. */
  predicate IsImaginary(text: string)
  {
    text != [] && (text[|text| - 1] == 'j' || text[|text| - 1] == 'J')
  }

  /** The tokens that count as the previous token: operators, numbers, names and strings. */
  predicate IsSignificant(t: Token)
  {
    t.kind == Number || t.kind == Operator || t.kind == Name || t.kind == StringLiteral
  }

  /** `re.fullmatch(r"\d+", text)`: a plain integer literal. */
  predicate IsIntegerLiteral(text: string)
  {
    text != [] && AllDigits(text)
  }

  /** The text of a promoted literal: `mpf("text")`. */
  function Promoted(text: string): (r: string)
    ensures r != "**" && r != text
  {
    assert |"mpf(\"" + text + "\")"| == |text| + 7;
    "mpf(\"" + text + "\")"
  }

  /**
   * The rewrite of one token, given the text of the previous significant token: a real number
   * literal becomes `mpf("…")`, except an integer literal right after `**`, which stays so that
   * integer powers stay exact.
   */
  function PromoteToken(t: Token, previous: string): (r: Token)
    ensures r.kind == t.kind
    ensures t.kind != Number || IsImaginary(t.text) ==> r == t
    ensures t.kind == Number && !IsImaginary(t.text) ==>
      (r == t <==> IsIntegerLiteral(t.text) && previous == "**")
      && (r != t ==> r.text == Promoted(t.text))
  {
    if t.kind == Number && !IsImaginary(t.text) then
      if IsIntegerLiteral(t.text) && previous == "**" then t else Token(Number, Promoted(t.text))
    else t
  }

  /** The text of the last significant token, or "" when there is none. */
  function LastSignificant(ts: seq<Token>): string
  {
    if ts == [] then ""
    else if IsSignificant(ts[|ts| - 1]) then ts[|ts| - 1].text
    else LastSignificant(ts[..|ts| - 1])
  }

  /**
   * `_promote_numeric_literals` on the token stream: every token is rewritten with the text of
   * the previous significant token of the rewritten stream (PromoteAt).
   */
  function Promote(tokens: seq<Token>): (r: seq<Token>)
    ensures |r| == |tokens|
  {
    if tokens == [] then []
    else
      var n := |tokens| - 1;
      var head := Promote(tokens[..n]);
      head + [PromoteToken(tokens[n], LastSignificant(head))]
  }

  /** Token `i` of the promoted stream is token `i` rewritten after the promoted tokens before it. */
  lemma {:induction false} PromoteAt(tokens: seq<Token>, i: nat)
    requires i < |tokens|
    ensures Promote(tokens)[i] == PromoteToken(tokens[i], LastSignificant(Promote(tokens)[..i]))
  {
    var n := |tokens| - 1;
    var head := Promote(tokens[..n]);
    var r := Promote(tokens);
    assert r == head + [PromoteToken(tokens[n], LastSignificant(head))];
    if i < n {
      PromoteAt(tokens[..n], i);
      assert r[..i] == head[..i] && r[i] == head[i] && tokens[..n][i] == tokens[i];
    } else {
      assert r[..i] == head;
    }
  }

  /** Promotion keeps the stream's length and token kinds, and changes only number literals. */
  lemma PromoteKeepsShape(tokens: seq<Token>)
    ensures |Promote(tokens)| == |tokens|
    ensures forall i :: 0 <= i < |tokens| ==> Promote(tokens)[i].kind == tokens[i].kind
    ensures forall i :: 0 <= i < |tokens| && (tokens[i].kind != Number || IsImaginary(tokens[i].text)) ==>
      Promote(tokens)[i] == tokens[i]
  {
    forall i | 0 <= i < |tokens|
      ensures Promote(tokens)[i] == PromoteToken(tokens[i], LastSignificant(Promote(tokens)[..i]))
    {
      PromoteAt(tokens, i);
    }
  }

  /** The integer power in "2**3" stays exact while the base is promoted. */
  lemma PromotePowerExample()
    ensures Promote([Token(Number, "2"), Token(Operator, "**"), Token(Number, "3")])
         == [Token(Number, Promoted("2")), Token(Operator, "**"), Token(Number, "3")]
  {
    var ts := [Token(Number, "2"), Token(Operator, "**"), Token(Number, "3")];
    var r := Promote(ts);
    assert IsIntegerLiteral("2") && IsIntegerLiteral("3");
    PromoteAt(ts, 0);
    PromoteAt(ts, 1);
    PromoteAt(ts, 2);
    assert r[..0] == [];
    assert r[..2] == [r[0], r[1]];
    assert LastSignificant(r[..2]) == "**";
  }

  /**
   * `_promote_numeric_literals`: walks the tokens, rewrites the real number literals and
   * remembers the text of the last significant token written.
   */
  method PromoteNumericLiterals(tokens: seq<Token>) returns (out: seq<Token>)
    ensures out == Promote(tokens)
  {
    out := [];
    var previous := "";
    for i := 0 to |tokens|
      invariant out == Promote(tokens[..i])
      invariant previous == LastSignificant(out)
    {
      var tok := tokens[i];
      if tok.kind == Number && !IsImaginary(tok.text) {
        var promoted := if IsIntegerLiteral(tok.text) && previous == "**" then tok.text else Promoted(tok.text);
        tok := Token(tok.kind, promoted);
      }
      assert tok == PromoteToken(tokens[i], previous);
      PromoteStep(tokens, i);
      LastSignificantStep(out, tok);
      out := out + [tok];
      if IsSignificant(tok) {
        previous := tok.text;
      }
    }
    assert tokens[..|tokens|] == tokens;
  }

  /** One more token of input adds its own rewrite to the promoted stream. */
  lemma PromoteStep(tokens: seq<Token>, i: nat)
    requires i < |tokens|
    ensures Promote(tokens[..i + 1])
         == Promote(tokens[..i]) + [PromoteToken(tokens[i], LastSignificant(Promote(tokens[..i])))]
  {
    assert tokens[..i + 1][..i] == tokens[..i];
  }

  lemma LastSignificantStep(ts: seq<Token>, t: Token)
    ensures LastSignificant(ts + [t]) == if IsSignificant(t) then t.text else LastSignificant(ts)
  {
    assert (ts + [t])[..|ts|] == ts;
  }

  // ---------------------------------------------------------------------------------------
  // Evaluation

  /**
   * The host side of an evaluation: Python's tokenizer and untokenizer, and the evaluation of
   * the promoted text under mpmath at a guard precision followed by the formatting of the value
   * at the working digits (an error message when either fails).
   */
  datatype Host = Host(
    tokenize: string -> seq<Token>,
    untokenize: seq<Token> -> string,
    run: (string, nat, nat) -> Result<string, string>)

  /** Why the engine gives no result. */
  datatype EngineError =
    | Rejected(input: InputError)   // refused by the preprocessor
    | NoPreviousCalculation         // a refinement was asked for before any expression
    | HostError(message: string)    // the evaluation of the promoted text failed

  /** The least number of digits the engine works with. */
  const MinimumDigits: nat := 8

  /** `max(40, digits * 2 + 10)`: the precision the evaluation runs at. */
  function GuardDigits(digits: nat): (r: nat)
    ensures r > digits && r >= 40
  {
    Max(40, digits * 2 + 10)
  }

  /** The outcome of `_evaluate_with_digits`. */
  function EvaluationOutcome(host: Host, expression: string, digits: nat): Result<string, EngineError>
  {
    Evaluated(host, PrepareFormula(expression), digits)
  }

  /**
   * The engine refuses exactly what the preprocessor refuses, with the same error; in
   * particular a blank expression.
   */
  lemma EvaluationRejects(host: Host, expression: string, digits: nat)
    ensures var r := EvaluationOutcome(host, expression, digits);
      (r.Failure? && r.error.Rejected? <==> PrepareFormula(expression).Failure?)
      && (PrepareFormula(expression).Failure? ==> r == Failure(Rejected(PrepareFormula(expression).error)))
      && (IsBlank(expression) ==> r == Failure(Rejected(EmptyExpression)))
  {
  }

  /** The evaluation of a preprocessed expression, or the preprocessor's refusal. */
  function Evaluated(host: Host, prepared: Result<string, InputError>, digits: nat): (r: Result<string, EngineError>)
    ensures prepared.Failure? ==> r == Failure(Rejected(prepared.error))
    ensures r.Failure? && r.error.Rejected? ==> prepared == Failure(r.error.input)
  {
    match prepared
    case Failure(error) => Failure(Rejected(error))
    case Success(processed) =>
      var promoted := host.untokenize(Promote(host.tokenize(processed)));
      match host.run(promoted, GuardDigits(digits), digits)
      case Failure(message) => Failure(HostError(message))
      case Success(text) => Success(text)
  }

  /**
   * `_evaluate_with_digits`: the guard precision, then the blank check, the raw check and the
   * preprocessing (the same steps as `FormulaEvaluator.evaluate`), then the literal promotion
   * and the evaluation at the guard precision.
   */
  method EvaluateWithDigits(host: Host, expression: string, digits: nat, outcome: (string, nat) -> Result<string, EngineError>)
    returns (r: Result<string, EngineError>)
    requires TracksOutcome(outcome, host)
    ensures r == outcome(expression, digits)
  {
    var guard := GuardDigits(digits);
    var prepared := Prepare(expression);
    if prepared.Failure? {
      r := Failure(Rejected(prepared.error));
      assert r == EvaluationOutcome(host, expression, digits);
      return;
    }
    var promoted := PromoteNumericLiterals(host.tokenize(prepared.value));
    var value := host.run(host.untokenize(promoted), guard, digits);
    if value.Failure? {
      r := Failure(HostError(value.error));
    } else {
      r := Success(value.value);
    }
    assert r == EvaluationOutcome(host, expression, digits);
  }

  /** The evaluation outcomes of one host, as a value. */
  function OutcomeOf(host: Host): (string, nat) -> Result<string, EngineError>
  {
    (expression: string, digits: nat) => EvaluationOutcome(host, expression, digits)
  }

  /** `outcome` gives the evaluation outcomes of `host`. */
  ghost predicate TracksOutcome(outcome: (string, nat) -> Result<string, EngineError>, host: Host)
  {
    forall expression: string, digits: nat {:trigger EvaluationOutcome(host, expression, digits)} ::
      outcome(expression, digits) == EvaluationOutcome(host, expression, digits)
  }

  lemma OutcomeOfTracks(host: Host)
    ensures TracksOutcome(OutcomeOf(host), host)
  {
  }

  /** `can_expand_precision`: an expression has been recorded. */
  predicate CanExpand(last: Option<string>)
  {
    last.Some?
  }

  /** The guard of `request_more_precision`: a recorded expression that is not empty. */
  predicate RequestAllowed(last: Option<string>)
  {
    last.Some? && last.value != []
  }

  /**
   * `can_expand_precision` is weaker than the guard of `request_more_precision`: every state a
   * request accepts answers yes, and a recorded empty expression answers yes but is refused.
   */
  lemma CanExpandWeakerThanRequest(last: Option<string>)
    ensures RequestAllowed(last) ==> CanExpand(last)
    ensures CanExpand(Some([])) && !RequestAllowed(Some([]))
  {
  }

  /** The precision state of the engine. */
  class PrecisionEngine {
    const host: Host
    /** The outcomes of `_evaluate_with_digits` on this host: EvaluationOutcome(host, ·, ·). */
    const outcome: (string, nat) -> Result<string, EngineError>
    var initialDigits: nat
    var precisionStep: nat
    var workingDigits: nat
    var lastExpression: Option<string>

    /** The digits start at the initial value, are raised by the step and reset to the start. */
    ghost predicate Valid()
      reads this
    {
      TracksOutcome(outcome, host)
      && initialDigits >= MinimumDigits && precisionStep >= MinimumDigits && workingDigits >= initialDigits
    }

    /** `__init__`: both settings are raised to at least eight digits. */
    constructor(initial: int, step: int, host: Host)
      ensures Valid()
      ensures initialDigits == Max(MinimumDigits, initial) && precisionStep == Max(MinimumDigits, step)
      ensures workingDigits == initialDigits && lastExpression == None && this.host == host
    {
      this.host := host;
      outcome := OutcomeOf(host);
      OutcomeOfTracks(host);
      initialDigits := Max(MinimumDigits, initial);
      precisionStep := Max(MinimumDigits, step);
      workingDigits := Max(MinimumDigits, initial);
      lastExpression := None;
    }

    /**
     * `evaluate`: the expression is recorded and the digits reset before the evaluation, so a
     * failing expression is recorded too.
     */
    method Evaluate(expression: string) returns (r: Result<string, EngineError>)
      requires Valid()
      modifies this`lastExpression, this`workingDigits
      ensures Valid()
      ensures lastExpression == Some(expression) && workingDigits == initialDigits
      ensures r == outcome(expression, initialDigits)
    {
      lastExpression := Some(expression);
      workingDigits := initialDigits;
      r := EvaluateWithDigits(host, expression, workingDigits, outcome);
    }

    /** `can_expand_precision`. */
    function CanExpandPrecision(): (b: bool)
      reads this
      ensures b <==> CanExpand(lastExpression)
    {
      lastExpression != None
    }

    /**
     * `request_more_precision`: without a recorded non-empty expression it fails and changes
     * nothing; otherwise the digits grow by exactly the step and the recorded expression is
     * evaluated again from scratch at the new digits.
     */
    method RequestMorePrecision() returns (r: Result<string, EngineError>)
      requires Valid()
      modifies this`workingDigits
      ensures Valid()
      ensures !RequestAllowed(lastExpression) ==>
        r == Failure(NoPreviousCalculation) && workingDigits == old(workingDigits)
      ensures RequestAllowed(lastExpression) ==>
        workingDigits == old(workingDigits) + precisionStep
        && r == outcome(lastExpression.value, workingDigits)
    {
      if lastExpression.None? || lastExpression.value == [] {
        return Failure(NoPreviousCalculation);
      }
      workingDigits := workingDigits + precisionStep;
      r := EvaluateWithDigits(host, lastExpression.value, workingDigits, outcome);
    }
  }
}
