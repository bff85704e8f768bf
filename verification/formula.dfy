/**
 * The expression preprocessor of the calculator (`FormulaEvaluator` in formula_evaluator.py):
 * the raw character check, then the rewrites that turn the text typed on the keypad into an
 * expression for the host evaluator (operator glyphs, postfix factorial, percent, implicit
 * multiplication), then the identifier check. The regular expressions of the source are written
 * out as scanners; the evaluation itself is not part of this model.
 */
module Formula {
  import opened Wrappers
  import opened Text

  /** Why an expression is refused before it is evaluated (the evaluator's `ValueError`s). */
  datatype InputError =
    | EmptyExpression
    | InvalidCharacters
    | ForbiddenOperators
    | UnknownIdentifier(name: string)
    | MissingParenthesis(name: string)
    | ConstantNotCallable(name: string)

  // ---------------------------------------------------------------------------------------
  // Raw validation

  /** The characters `_ALLOWED_CHARS` admits. */
  predicate IsAllowedChar(c: char)
  {
    IsDigit(c) || IsSpace(c) || c in "+-*/^().,!%" || c == 'π' || IsAsciiLetter(c) || c in "×÷−√"
  }

  predicate AllAllowed(s: string) { forall i :: 0 <= i < |s| ==> IsAllowedChar(s[i]) }

  /** The text holds "__" or one of `[]{};:`. */
  predicate HasForbiddenOperator(s: string)
  {
    (exists i :: 0 <= i < |s| - 1 && s[i] == '_' && s[i + 1] == '_')
    || (exists i :: 0 <= i < |s| && s[i] in "[]{};:")
  }

  /**
   * `_validate_raw_expression`: every character must be in the whitelist, and the text must
   * not hold "__" or any of `[]{};:`.
   */
  function ValidateRawExpression(s: string): (r: Outcome<InputError>)
    ensures r == Pass <==> AllAllowed(s)
    ensures r.Fail? ==> r.error == InvalidCharacters
  {
    if !AllAllowed(s) then Fail(InvalidCharacters)
    else if HasForbiddenOperator(s) then
      WhitelistExcludesForbidden(s);
      Fail(ForbiddenOperators)
    else Pass
  }

  /**
   * The second check of `_validate_raw_expression` can never fire: none of the characters it
   * looks for is in the whitelist.
   */
  lemma WhitelistExcludesForbidden(s: string)
    requires AllAllowed(s)
    ensures !HasForbiddenOperator(s)
  {
    forall i | 0 <= i < |s| ensures s[i] != '_' && s[i] !in "[]{};:" {
      assert IsAllowedChar(s[i]);
    }
  }

  // ---------------------------------------------------------------------------------------
  // Python's str.replace

  /** `s.replace(a, b)` for single characters. */
  function ReplaceChar(s: string, a: char, b: char): (r: string)
    ensures |r| == |s|
    ensures forall i :: 0 <= i < |s| ==> r[i] == (if s[i] == a then b else s[i])
  {
    if s == [] then [] else [if s[0] == a then b else s[0]] + ReplaceChar(s[1..], a, b)
  }

  /** `s.replace(pat, rep)`: the non-overlapping occurrences of `pat`, from the left, become `rep`. */
  function ReplaceAll(s: string, pat: string, rep: string): string
    requires |pat| >= 1
    decreases |s|
  {
    if |s| < |pat| then s
    else if s[..|pat|] == pat then rep + ReplaceAll(s[|pat|..], pat, rep)
    else [s[0]] + ReplaceAll(s[1..], pat, rep)
  }

  /** Replacing a character by a text without it leaves no occurrence of it. */
  lemma {:induction false} ReplaceAllRemoves(s: string, c: char, rep: string)
    requires c !in rep
    ensures forall i :: 0 <= i < |ReplaceAll(s, [c], rep)| ==> ReplaceAll(s, [c], rep)[i] != c
    decreases |s|
  {
    if |s| >= 1 {
      ReplaceAllRemoves(s[1..], c, rep);
      var rest := ReplaceAll(s[1..], [c], rep);
      if s[..1] == [c] {
        assert ReplaceAll(s, [c], rep) == rep + rest;
      } else {
        assert s[0] != c;
        assert ReplaceAll(s, [c], rep) == [s[0]] + rest;
      }
    }
  }

  /** `pat` occurs in `s` at index `k`. */
  predicate OccursAt(s: string, pat: string, k: nat)
  {
    k + |pat| <= |s| && s[k..k + |pat|] == pat
  }

  /** A text without the pattern is left as it is. */
  lemma {:induction false} ReplaceAllAbsent(s: string, pat: string, rep: string)
    requires |pat| >= 1
    requires forall k: nat :: !OccursAt(s, pat, k)
    ensures ReplaceAll(s, pat, rep) == s
    decreases |s|
  {
    if |s| >= |pat| {
      assert !OccursAt(s, pat, 0);
      assert s[0..|pat|] == s[..|pat|];
      forall k: nat ensures !OccursAt(s[1..], pat, k) {
        if k + |pat| <= |s[1..]| {
          assert s[1..][k..k + |pat|] == s[k + 1..k + 1 + |pat|];
          assert !OccursAt(s, pat, k + 1);
        }
      }
      ReplaceAllAbsent(s[1..], pat, rep);
      assert [s[0]] + s[1..] == s;
    }
  }

  // ---------------------------------------------------------------------------------------
  // Postfix factorial

  /** Characters of a numeric operand: digits and the dot. */
  predicate IsNumberChar(c: char) { IsDigit(c) || c == '.' }

  /** Characters of a name operand: letters and 'π'. */
  predicate IsNameChar(c: char) { IsAsciiLetter(c) || c == 'π' }

  /**
   * The start of the run of characters of class `cls` that ends at `start`: step left while the
   * character before is of the class.
   */
  function RunStart(s: string, start: nat, cls: char -> bool): (r: nat)
    requires start < |s|
    ensures r <= start
    ensures forall k :: r <= k < start ==> cls(s[k])
    ensures r == 0 || !cls(s[r - 1])
  {
    if start > 0 && cls(s[start - 1]) then RunStart(s, start - 1, cls) else start
  }

  /**
   * The depth scan of the balanced group that ends before a '!': from index `j` leftwards, a
   * ')' opens one more level and a '(' closes one; the scan stops once the depth is back to 0
   * or the text is used up, and the group starts one past where it stopped.
   */
  function GroupStart(s: string, j: int, depth: nat): (r: nat)
    requires -1 <= j < |s|
    ensures r <= j + 1
    decreases j + 1
  {
    if j >= 0 && depth > 0 then
      GroupStart(s, j - 1, if s[j] == ')' then depth + 1 else if s[j] == '(' then depth - 1 else depth)
    else j + 1
  }

  /**
   * Where the operand of the '!' at index `i` starts: the balanced group ending at a ')' just
   * before it, else the run of digits and dots, else the run of letters and 'π'; None when the
   * '!' starts the text or follows any other character.
   */
  function OperandStart(s: string, i: nat): (r: Option<nat>)
    requires i < |s|
    ensures r.Some? ==> r.value < i
    ensures r.None? <==> i == 0 || (s[i - 1] != ')' && !IsNumberChar(s[i - 1]) && !IsNameChar(s[i - 1]))
    ensures r.Some? && i > 0 && IsNumberChar(s[i - 1]) ==>
      (forall k :: r.value <= k < i ==> IsNumberChar(s[k])) && (r.value == 0 || !IsNumberChar(s[r.value - 1]))
    ensures r.Some? && i > 0 && s[i - 1] != ')' && !IsNumberChar(s[i - 1]) ==>
      (forall k :: r.value <= k < i ==> IsNameChar(s[k])) && (r.value == 0 || !IsNameChar(s[r.value - 1]))
  {
    if i == 0 then None
    else if s[i - 1] == ')' then Some(GroupStart(s, i - 2, 1))
    else if IsNumberChar(s[i - 1]) then Some(RunStart(s, i - 1, IsNumberChar))
    else if IsNameChar(s[i - 1]) then Some(RunStart(s, i - 1, IsNameChar))
    else None
  }

  /**
   * `_replace_factorial` as a function: scanning from the right, each '!' with an operand
   * becomes `factorial(operand)` and the scan goes on left of the operand, so the rewritten
   * text is never scanned again.
   */
  function FactorialRewrite(s: string): string
    decreases |s|
  {
    if s == [] then []
    else
      var i := |s| - 1;
      if s[i] != '!' then FactorialRewrite(s[..i]) + [s[i]]
      else match OperandStart(s, i)
        case None => FactorialRewrite(s[..i]) + "!"
        case Some(start) => FactorialRewrite(s[..start]) + Wrapped(s[start..i])
  }

  /** The call that replaces an operand and its '!'. */
  function Wrapped(operand: string): (r: string)
    ensures |r| == |operand| + 11
  {
    "factorial(" + operand + ")"
  }

  lemma {:induction false} RunStartPrefix(s: string, t: string, start: nat, cls: char -> bool)
    requires start < |s| && start < |t| && s[..start + 1] == t[..start + 1]
    ensures RunStart(s, start, cls) == RunStart(t, start, cls)
    decreases start
  {
    if start > 0 {
      assert s[start - 1] == s[..start + 1][start - 1] && t[start - 1] == t[..start + 1][start - 1];
      if cls(s[start - 1]) {
        assert s[..start] == s[..start + 1][..start] && t[..start] == t[..start + 1][..start];
        RunStartPrefix(s, t, start - 1, cls);
      }
    }
  }

  lemma {:induction false} GroupStartPrefix(s: string, t: string, j: int, depth: nat)
    requires -1 <= j < |s| && j < |t| && s[..j + 1] == t[..j + 1]
    ensures GroupStart(s, j, depth) == GroupStart(t, j, depth)
    decreases j + 1
  {
    if j >= 0 && depth > 0 {
      assert s[j] == s[..j + 1][j] && t[j] == t[..j + 1][j];
      assert s[..j] == s[..j + 1][..j] && t[..j] == t[..j + 1][..j];
      GroupStartPrefix(s, t, j - 1, if s[j] == ')' then depth + 1 else if s[j] == '(' then depth - 1 else depth);
    }
  }

  /** The operand of a '!' depends only on the text up to the '!'. */
  lemma OperandStartPrefix(s: string, t: string, i: nat)
    requires i < |s| && i < |t| && s[..i + 1] == t[..i + 1]
    ensures OperandStart(s, i) == OperandStart(t, i)
  {
    if i > 0 {
      assert s[i - 1] == s[..i + 1][i - 1] && t[i - 1] == t[..i + 1][i - 1];
      if s[i - 1] == ')' {
        if i >= 2 {
          assert s[..i - 1] == s[..i + 1][..i - 1] && t[..i - 1] == t[..i + 1][..i - 1];
        }
        GroupStartPrefix(s, t, i - 2, 1);
      } else {
        RunStartPrefix(s, t, i - 1, IsNumberChar);
        RunStartPrefix(s, t, i - 1, IsNameChar);
      }
    }
  }

  /** How many levels a text closes: its ')' count minus its '(' count. */
  function Depth(t: string): int
  {
    Count(t, ')') - Count(t, '(')
  }

  /** Taking one more character on the left changes the depth by that character's step. */
  lemma DepthCons(s: string, j: nat, i: nat)
    requires j < i <= |s|
    ensures Depth(s[j..i]) == Depth(s[j + 1..i]) + (if s[j] == ')' then 1 else if s[j] == '(' then -1 else 0)
  {
    assert s[j..i][0] == s[j] && s[j..i][1..] == s[j + 1..i];
  }

  /**
   * The depth scan from `j` with depth `d`, where `d` is the depth of `s[j + 1..i]` and every
   * proper suffix of it is still open, stops at the '(' that balances `s[..i]`, or at the start
   * of the text when no '(' does.
   */
  lemma {:induction false} GroupStartBalanced(s: string, j: int, d: nat, i: nat)
    requires -1 <= j < i <= |s|
    requires Depth(s[j + 1..i]) == d
    requires d == 0 ==> j + 1 < i && s[j + 1] == '('
    requires forall m :: j + 1 < m < i ==> Depth(s[m..i]) > 0
    ensures forall m :: GroupStart(s, j, d) < m < i ==> Depth(s[m..i]) > 0
    ensures GroupStart(s, j, d) < i
    ensures (s[GroupStart(s, j, d)] == '(' && Depth(s[GroupStart(s, j, d)..i]) == 0)
         || (GroupStart(s, j, d) == 0 && Depth(s[..i]) > 0)
    decreases j + 1
  {
    if j >= 0 && d > 0 {
      var d' := if s[j] == ')' then d + 1 else if s[j] == '(' then d - 1 else d;
      DepthCons(s, j, i);
      GroupStartBalanced(s, j - 1, d', i);
    } else if j == -1 {
      assert s[j + 1..i] == s[..i];
    }
  }

  /**
   * The operand of a '!' after a ')' is the group that this ')' closes: from its start, the
   * parentheses balance, and every later start leaves some ')' open. When no '(' balances it,
   * the operand is the whole text before the '!'.
   */
  lemma OperandStartGroup(s: string, i: nat)
    requires 0 < i < |s| && s[i - 1] == ')'
    ensures OperandStart(s, i).Some?
    ensures forall m :: OperandStart(s, i).value < m < i ==> Depth(s[m..i]) > 0
    ensures (s[OperandStart(s, i).value] == '(' && Depth(s[OperandStart(s, i).value..i]) == 0)
         || (OperandStart(s, i).value == 0 && Depth(s[..i]) > 0)
  {
    assert OperandStart(s, i) == Some(GroupStart(s, i - 2, 1));
    CloseDepth(s, i);
    GroupStartBalanced(s, i - 2, 1, i);
  }

  /** A single ')' closes one level. */
  lemma CloseDepth(s: string, i: nat)
    requires 0 < i <= |s| && s[i - 1] == ')'
    ensures Depth(s[i - 1..i]) == 1
  {
    assert s[i - 1..i] == [')'];
    assert Count([')'][1..], '(') == 0;
  }

  /** The group closed by the last ')' of "2*(3+(4))!" starts at its first '('. */
  lemma NestedGroupOperand()
    ensures OperandStart("2*(3+(4))!", 9) == Some(2)
  {
  }

  /** The last character is kept when it is not a '!' with an operand. */
  lemma FactorialRewriteKeeps(p: string)
    requires p != [] && (p[|p| - 1] != '!' || OperandStart(p, |p| - 1).None?)
    ensures FactorialRewrite(p) == FactorialRewrite(p[..|p| - 1]) + [p[|p| - 1]]
  {
  }

  /** A last '!' with an operand wraps that operand. */
  lemma FactorialRewriteWraps(p: string, start: nat)
    requires p != [] && p[|p| - 1] == '!' && OperandStart(p, |p| - 1) == Some(start)
    ensures FactorialRewrite(p) == FactorialRewrite(p[..start]) + Wrapped(p[start..|p| - 1])
  {
  }

  /** A text without '!' is left as it is. */
  lemma {:induction false} FactorialRewriteNoBang(s: string)
    requires forall k :: 0 <= k < |s| ==> s[k] != '!'
    ensures FactorialRewrite(s) == s
    decreases |s|
  {
    if s != [] {
      var u := s[..|s| - 1];
      FactorialRewriteNoBang(u);
      FactorialRewriteKeeps(s);
      assert u + [s[|s| - 1]] == s;
    }
  }

  /** Text after the last '!' is copied unchanged. */
  lemma {:induction false} FactorialRewriteAppend(s: string, t: string)
    requires forall k :: 0 <= k < |t| ==> t[k] != '!'
    ensures FactorialRewrite(s + t) == FactorialRewrite(s) + t
    decreases |t|
  {
    if t == [] {
      assert s + t == s;
    } else {
      var u := t[..|t| - 1];
      var whole := s + t;
      assert whole[..|whole| - 1] == s + u;
      assert whole[|whole| - 1] == t[|t| - 1];
      FactorialRewriteKeeps(whole);
      FactorialRewriteAppend(s, u);
      assert u + [t[|t| - 1]] == t;
    }
  }

  /** Wrapping an operand copies its '!' characters and drops the one after it. */
  lemma WrapCount(head: string, operand: string)
    ensures Count(head + Wrapped(operand), '!') == Count(head, '!') + Count(operand, '!')
  {
    CountAppend(head, Wrapped(operand), '!');
    CountAppend("factorial(" + operand, ")", '!');
    CountAppend("factorial(", operand, '!');
    assert Count("factorial(", '!') == 0;
    assert Count(")", '!') == 0;
  }

  /** The rewrite removes one '!' per operand it wraps and copies the others. */
  lemma {:induction false} FactorialRewriteCount(s: string)
    ensures Count(FactorialRewrite(s), '!') <= Count(s, '!')
    decreases |s|
  {
    if s != [] {
      var i := |s| - 1;
      var u := s[..i];
      assert s == u + [s[i]];
      CountAppend(u, [s[i]], '!');
      if s[i] != '!' || OperandStart(s, i).None? {
        FactorialRewriteKeeps(s);
        FactorialRewriteCount(u);
        CountAppend(FactorialRewrite(u), [s[i]], '!');
      } else {
        var start := OperandStart(s, i).value;
        FactorialRewriteWraps(s, start);
        FactorialRewriteCount(s[..start]);
        assert u == s[..start] + s[start..i];
        CountAppend(s[..start], s[start..i], '!');
        WrapCount(FactorialRewrite(s[..start]), s[start..i]);
      }
    }
  }

  /** A number operand: "2+3!" becomes "2+factorial(3)". */
  lemma FactorialOfNumber()
    ensures FactorialRewrite("2+3!") == "2+factorial(3)"
  {
    var s := "2+3!";
    assert RunStart(s, 2, IsNumberChar) == 2;
    assert s[..2] == "2+" && s[2..3] == "3";
    FactorialRewriteWraps(s, 2);
    assert FactorialRewrite("2+") == "2+" by { FactorialRewriteNoBang("2+"); }
  }

  /**
   * Chained factorials are not nested: in "5!!" the last '!' has no operand (it follows a '!'),
   * so only the first one is rewritten.
   */
  lemma ChainedFactorialKeepsLastBang()
    ensures FactorialRewrite("5!!") == "factorial(5)!"
  {
    var s := "5!!";
    assert OperandStart(s, 2).None?;
    FactorialRewriteKeeps(s);
    var u := "5!";
    assert s[..2] == u;
    assert RunStart(u, 0, IsNumberChar) == 0;
    FactorialRewriteWraps(u, 0);
    assert u[..0] == [] && u[0..1] == "5";
  }

  /** A group operand is taken whole, with the '!' inside it left as text: "(3!)!". */
  lemma FactorialOfGroup()
    ensures FactorialRewrite("(3!)!") == "factorial((3!))"
  {
    var s := "(3!)!";
    assert GroupStart(s, 2, 1) == 0;
    FactorialRewriteWraps(s, 0);
    assert s[..0] == [] && s[0..4] == "(3!)";
  }

  /** One step of the scan over a character that is kept: the result grows by that character. */
  lemma FactorialKeepStep(expr: string, chars: string, i: nat)
    requires i < |chars| && i < |expr| && chars[..i + 1] == expr[..i + 1]
    requires FactorialRewrite(expr[..i + 1]) + chars[i + 1..] == FactorialRewrite(expr)
    requires chars[i] != '!' || OperandStart(chars, i).None?
    ensures chars[..i] == expr[..i]
    ensures FactorialRewrite(expr[..i]) + chars[i..] == FactorialRewrite(expr)
  {
    var p := expr[..i + 1];
    PrefixFacts(expr, chars, i);
    OperandStartPrefix(chars, p, i);
    FactorialRewriteKeeps(p);
    ConsTail(FactorialRewrite(expr[..i]), chars, i);
  }

  /** Facts about the common prefix of the text and the scan's characters. */
  lemma PrefixFacts(expr: string, chars: string, i: nat)
    requires i < |chars| && i < |expr| && chars[..i + 1] == expr[..i + 1]
    ensures var p := expr[..i + 1];
      |p| == i + 1 && p[i] == chars[i] && p[..i] == expr[..i] && chars[..i] == expr[..i]
      && forall start :: 0 <= start <= i ==> p[..start] == expr[..start] && p[start..i] == chars[start..i]
  {
    var p := expr[..i + 1];
    assert p[i] == chars[..i + 1][i];
    forall start | 0 <= start <= i ensures p[..start] == expr[..start] && p[start..i] == chars[start..i] {
      assert p[start..i] == chars[..i + 1][start..i];
    }
    assert chars[..i] == chars[..i + 1][..i];
  }

  /** Moving the scan's character at `i` from the unread part to the result. */
  lemma ConsTail(head: string, chars: string, i: nat)
    requires i < |chars|
    ensures head + [chars[i]] + chars[i + 1..] == head + chars[i..]
  {
    assert chars[i..] == [chars[i]] + chars[i + 1..];
  }

  /** One splice of the scan: the operand and its '!' become the factorial call. */
  lemma FactorialSpliceStep(expr: string, chars: string, i: nat, start: nat)
    requires i < |chars| && i < |expr| && chars[..i + 1] == expr[..i + 1]
    requires FactorialRewrite(expr[..i + 1]) + chars[i + 1..] == FactorialRewrite(expr)
    requires chars[i] == '!' && OperandStart(chars, i) == Some(start)
    ensures var spliced := chars[..start] + Wrapped(chars[start..i]) + chars[i + 1..];
      start < |spliced| && spliced[..start] == expr[..start]
      && FactorialRewrite(expr[..start]) + spliced[start..] == FactorialRewrite(expr)
  {
    var p := expr[..i + 1];
    PrefixFacts(expr, chars, i);
    OperandStartPrefix(chars, p, i);
    FactorialRewriteWraps(p, start);
    SpliceParts(chars[..start], Wrapped(chars[start..i]), chars[i + 1..], FactorialRewrite(expr[..start]));
    assert chars[..start] == chars[..i + 1][..start];
  }

  /** Splitting a spliced text at the end of its head. */
  lemma SpliceParts(head: string, middle: string, tail: string, done: string)
    ensures |head| <= |head + middle + tail|
    ensures (head + middle + tail)[..|head|] == head
    ensures done + (head + middle + tail)[|head|..] == done + middle + tail
  {
    assert (head + middle + tail)[|head|..] == middle + tail;
  }

  /**
   * `_replace_factorial`: walks the characters from the right and splices each operand with
   * its '!' into a `factorial(...)` call, resuming left of the operand.
   */
  method ReplaceFactorial(expr: string) returns (r: string)
    ensures r == FactorialRewrite(expr)
  {
    var chars := expr;
    var i: int := |chars| - 1;
    assert expr[..|expr|] == expr;
    while i >= 0
      invariant FactorialProgress(expr, chars, i)
      decreases i + 1
    {
      chars, i := FactorialStep(expr, chars, i);
    }
    assert expr[..0] == [];
    r := chars;
  }

  /**
   * The state of the walk of `_replace_factorial` at index `i`: the text up to `i` is still
   * the input's, and rewriting it in front of the text already done gives the whole rewrite.
   */
  ghost predicate FactorialProgress(expr: string, chars: string, i: int)
  {
    -1 <= i < |chars| && i < |expr| && chars[..i + 1] == expr[..i + 1]
    && FactorialRewrite(expr[..i + 1]) + chars[i + 1..] == FactorialRewrite(expr)
  }

  /**
   * One round of `_replace_factorial` at index `i`: a character other than '!', or a '!'
   * without an operand, is passed over; otherwise the operand is spliced and the walk resumes
   * left of it.
   */
  method FactorialStep(expr: string, chars: string, i: int) returns (next: string, j: int)
    requires i >= 0 && FactorialProgress(expr, chars, i)
    ensures j < i && FactorialProgress(expr, next, j)
  {
    if chars[i] != '!' {
      FactorialKeepStep(expr, chars, i);
      return chars, i - 1;
    }
    var start := FindOperand(chars, i);
    if start.None? {
      FactorialKeepStep(expr, chars, i);
      return chars, i - 1;
    }
    next := SpliceOperand(expr, chars, i, start.value);
    j := start.value as int - 1;
  }

  /** The splice of `_replace_factorial`: the operand and its '!' give way to the call. */
  method SpliceOperand(expr: string, chars: string, i: nat, start: nat) returns (spliced: string)
    requires i < |chars| && i < |expr| && chars[..i + 1] == expr[..i + 1]
    requires FactorialRewrite(expr[..i + 1]) + chars[i + 1..] == FactorialRewrite(expr)
    requires chars[i] == '!' && OperandStart(chars, i) == Some(start)
    ensures spliced == chars[..start] + Wrapped(chars[start..i]) + chars[i + 1..]
    ensures start < |spliced| && spliced[..start] == expr[..start]
    ensures FactorialRewrite(expr[..start]) + spliced[start..] == FactorialRewrite(expr)
  {
    FactorialSpliceStep(expr, chars, i, start);
    spliced := chars[..start] + Wrapped(chars[start..i]) + chars[i + 1..];
  }

  /**
   * The operand scan of `_replace_factorial` for the '!' at index `i`: the depth-counting walk
   * over a parenthesised group, or the walk over a run of digits and dots or of letters.
   */
  method FindOperand(chars: string, i: nat) returns (start: Option<nat>)
    requires i < |chars|
    ensures start == OperandStart(chars, i)
  {
    var j := i - 1;
    if j >= 0 && chars[j] == ')' {
      var depth: nat := 1;
      j := j - 1;
      while j >= 0 && depth > 0
        invariant -1 <= j < i - 1
        invariant GroupStart(chars, j, depth) == GroupStart(chars, i - 2, 1)
        decreases j + 1
      {
        if chars[j] == ')' {
          depth := depth + 1;
        } else if chars[j] == '(' {
          depth := depth - 1;
        }
        j := j - 1;
      }
      return Some(j + 1);
    }
    if j >= 0 && IsNumberChar(chars[j]) {
      var k := j;
      while k > 0 && IsNumberChar(chars[k - 1])
        invariant 0 <= k <= j
        invariant RunStart(chars, k, IsNumberChar) == RunStart(chars, j, IsNumberChar)
      {
        k := k - 1;
      }
      return Some(k);
    }
    if j >= 0 && IsNameChar(chars[j]) {
      var k := j;
      while k > 0 && IsNameChar(chars[k - 1])
        invariant 0 <= k <= j
        invariant RunStart(chars, k, IsNameChar) == RunStart(chars, j, IsNameChar)
      {
        k := k - 1;
      }
      return Some(k);
    }
    return None;
  }

  // ---------------------------------------------------------------------------------------
  // Percent

  /** The first index from `k` on that is not a digit. */
  function DigitsEnd(s: string, k: nat): (r: nat)
    requires k <= |s|
    ensures k <= r <= |s| && (r == |s| || !IsDigit(s[r]))
    ensures forall m :: k <= m < r ==> IsDigit(s[m])
    decreases |s| - k
  {
    if k < |s| && IsDigit(s[k]) then DigitsEnd(s, k + 1) else k
  }

  /** The end of the mantissa `\d+(?:\.\d*)?|\.\d+` that starts at `p`, if one starts there. */
  function MantissaEnd(s: string, p: nat): (r: Option<nat>)
    requires p <= |s|
    ensures r.Some? ==> p < r.value <= |s|
  {
    if p < |s| && IsDigit(s[p]) then
      var e := DigitsEnd(s, p);
      Some(if e < |s| && s[e] == '.' then DigitsEnd(s, e + 1) else e)
    else if p + 1 < |s| && s[p] == '.' && IsDigit(s[p + 1]) then Some(DigitsEnd(s, p + 1))
    else None
  }

  /**
   * The end of the optional exponent `(?:[eE][+\-]?\d+)?` after a mantissa that ends at `m`: it
   * is taken only when digits follow the marker and its sign.
   */
  function ExponentEnd(s: string, m: nat): (r: nat)
    requires m <= |s|
    ensures m <= r <= |s|
  {
    if m < |s| && (s[m] == 'e' || s[m] == 'E') then
      var q := if m + 1 < |s| && (s[m + 1] == '+' || s[m + 1] == '-') then m + 2 else m + 1;
      if q < |s| && IsDigit(s[q]) then DigitsEnd(s, q) else m
    else m
  }

  /** The two rewrites of `_replace_percentage`. */
  datatype PercentPattern =
    | LiteralPercent  // a number literal followed by '%'
    | GroupPercent    // a parenthesised group without inner parentheses, followed by '%'

  /** The first index from `k` on that holds a parenthesis. */
  function ParenEnd(s: string, k: nat): (r: nat)
    requires k <= |s|
    ensures k <= r <= |s| && (r == |s| || s[r] == '(' || s[r] == ')')
    ensures forall m :: k <= m < r ==> s[m] != '(' && s[m] != ')'
    decreases |s| - k
  {
    if k < |s| && s[k] != '(' && s[k] != ')' then ParenEnd(s, k + 1) else k
  }

  /**
   * Whether the pattern matches at `p`, and then the index of the '%' that ends the match. The
   * regular expressions are deterministic here: the number literal is the longest one at `p`
   * and the group is '(' with the run of non-parenthesis characters after it.
   */
  function PercentAt(pattern: PercentPattern, s: string, p: nat): (r: Option<nat>)
    requires p <= |s|
    ensures r.Some? ==> p < r.value < |s| && s[r.value] == '%'
  {
    match pattern
      case LiteralPercent =>
        (match MantissaEnd(s, p)
          case None => None
          case Some(m) =>
            var e := ExponentEnd(s, m);
            if e < |s| && s[e] == '%' then Some(e) else None)
      case GroupPercent =>
        if p < |s| && s[p] == '(' then
          var q := ParenEnd(s, p + 1);
          if p + 1 < q && q + 1 < |s| && s[q] == ')' && s[q + 1] == '%' then Some(q + 1) else None
        else None
  }

  /** `\d+`: a non-empty run of digits. */
  predicate IsDigitRun(t: string) { t != [] && AllDigits(t) }

  /** `\d+(?:\.\d*)?|\.\d+`: digits with an optional fraction, or a dot and digits. */
  predicate IsMantissa(t: string)
  {
    IsDigitRun(t) || exists k :: 0 <= k < |t| && DotAt(t, k)
  }

  /** `t` is digits, the dot at `k`, digits, with a digit on at least one side of the dot. */
  predicate DotAt(t: string, k: nat)
  {
    0 <= k < |t| && t[k] == '.' && AllDigits(t[..k]) && AllDigits(t[k + 1..]) && (k > 0 || k + 1 < |t|)
  }

  /** `(?:[eE][+\-]?\d+)?`: nothing, or a marker, an optional sign and digits. */
  predicate IsExponent(t: string)
  {
    t == []
    || (|t| >= 2 && (t[0] == 'e' || t[0] == 'E')
        && (IsDigitRun(t[1..]) || ((t[1] == '+' || t[1] == '-') && IsDigitRun(t[2..]))))
  }

  /** `(?:\d+(?:\.\d*)?|\.\d+)(?:[eE][+\-]?\d+)?`: a mantissa and an optional exponent. */
  predicate IsNumberLiteral(t: string)
  {
    exists m :: 0 <= m <= |t| && SplitAt(t, m)
  }

  /** `t[..m]` is the mantissa and `t[m..]` the exponent. */
  predicate SplitAt(t: string, m: nat)
    requires m <= |t|
  {
    IsMantissa(t[..m]) && IsExponent(t[m..])
  }

  /** `\([^()]+\)`: a parenthesised group with no parenthesis inside. */
  predicate IsInnermostGroup(t: string)
  {
    |t| >= 3 && t[0] == '(' && t[|t| - 1] == ')' && forall k :: 0 < k < |t| - 1 ==> t[k] != '(' && t[k] != ')'
  }

  /** A run of digits that ends at a non-digit is where DigitsEnd stops. */
  lemma {:induction false} DigitsEndAt(s: string, k: nat, e: nat)
    requires k <= e <= |s| && (e == |s| || !IsDigit(s[e]))
    requires forall m :: k <= m < e ==> IsDigit(s[m])
    ensures DigitsEnd(s, k) == e
    decreases e - k
  {
    if k < e {
      DigitsEndAt(s, k + 1, e);
    }
  }

  /** The digits `s[k..DigitsEnd(s, k)]`. */
  lemma DigitsEndDigits(s: string, k: nat)
    requires k <= |s|
    ensures AllDigits(s[k..DigitsEnd(s, k)])
  {
    var e := DigitsEnd(s, k);
    assert forall m :: 0 <= m < e - k ==> s[k..e][m] == s[k + m];
  }

  /** What MantissaEnd takes is a mantissa. */
  lemma MantissaEndSpans(s: string, p: nat)
    requires p <= |s| && MantissaEnd(s, p).Some?
    ensures IsMantissa(s[p..MantissaEnd(s, p).value])
  {
    var m := MantissaEnd(s, p).value;
    var t := s[p..m];
    if p < |s| && IsDigit(s[p]) {
      var e := DigitsEnd(s, p);
      DigitsEndDigits(s, p);
      if e < |s| && s[e] == '.' {
        DigitsEndDigits(s, e + 1);
        var k := e - p;
        assert t[..k] == s[p..e] && t[k + 1..] == s[e + 1..m] && t[k] == '.';
        assert DotAt(t, k);
      } else {
        assert t == s[p..e];
      }
    } else {
      DigitsEndDigits(s, p + 1);
      assert t[..0] == [] && t[1..] == s[p + 1..m] && t[0] == '.';
      assert DotAt(t, 0);
    }
  }

  /** What ExponentEnd takes is an exponent, possibly the empty one. */
  lemma ExponentEndSpans(s: string, m: nat)
    requires m <= |s|
    ensures IsExponent(s[m..ExponentEnd(s, m)])
  {
    var e := ExponentEnd(s, m);
    var t := s[m..e];
    if e > m {
      var q := if m + 1 < |s| && (s[m + 1] == '+' || s[m + 1] == '-') then m + 2 else m + 1;
      DigitsEndDigits(s, q);
      assert t[q - m..] == s[q..e];
    }
  }

  /**
   * A match of a percent pattern at `p` spans what the pattern's regular expression describes:
   * a number literal, or an innermost group, followed by the '%' at the returned index.
   */
  lemma PercentAtMatches(pattern: PercentPattern, s: string, p: nat)
    requires p <= |s| && PercentAt(pattern, s, p).Some?
    ensures pattern.LiteralPercent? ==> IsNumberLiteral(s[p..PercentAt(pattern, s, p).value])
    ensures pattern.GroupPercent? ==> IsInnermostGroup(s[p..PercentAt(pattern, s, p).value])
  {
    var e := PercentAt(pattern, s, p).value;
    var t := s[p..e];
    if pattern.LiteralPercent? {
      var m := MantissaEnd(s, p).value;
      MantissaEndSpans(s, p);
      ExponentEndSpans(s, m);
      assert t[..m - p] == s[p..m] && t[m - p..] == s[m..e];
      assert SplitAt(t, m - p);
    } else {
      var q := ParenEnd(s, p + 1);
      assert e == q + 1;
      assert forall k :: 0 < k < |t| - 1 ==> t[k] == s[p + k];
    }
  }

  /** A run without parentheses that ends at a parenthesis is where ParenEnd stops. */
  lemma {:induction false} ParenEndAt(s: string, k: nat, e: nat)
    requires k <= e < |s| && (s[e] == '(' || s[e] == ')')
    requires forall m :: k <= m < e ==> s[m] != '(' && s[m] != ')'
    ensures ParenEnd(s, k) == e
    decreases e - k
  {
    if k < e {
      ParenEndAt(s, k + 1, e);
    }
  }

  /** The digits of a slice are digits of the text. */
  lemma DigitsIn(s: string, a: nat, b: nat)
    requires a <= b <= |s| && AllDigits(s[a..b])
    ensures forall m :: a <= m < b ==> IsDigit(s[m])
  {
    forall m | a <= m < b
      ensures IsDigit(s[m])
    {
      assert s[a..b][m - a] == s[m];
    }
  }

  /** A mantissa `s[p..m]` followed by a character that continues no mantissa is where MantissaEnd stops. */
  lemma MantissaEndAt(s: string, p: nat, m: nat)
    requires p <= m < |s| && IsMantissa(s[p..m]) && !IsDigit(s[m]) && s[m] != '.'
    ensures MantissaEnd(s, p) == Some(m)
  {
    if IsDigitRun(s[p..m]) {
      DigitsIn(s, p, m);
      DigitsEndAt(s, p, m);
    } else {
      var k :| DotAt(s[p..m], k);
      DotMantissaEnd(s, p, k, m);
    }
  }

  /** The case of MantissaEndAt with a dot at `p + k`. */
  lemma DotMantissaEnd(s: string, p: nat, k: nat, m: nat)
    requires p <= m < |s| && DotAt(s[p..m], k) && !IsDigit(s[m])
    ensures MantissaEnd(s, p) == Some(m)
  {
    var u := s[p..m];
    assert u[..k] == s[p..p + k] && u[k + 1..] == s[p + k + 1..m] && s[p + k] == u[k];
    DigitsIn(s, p, p + k);
    DigitsIn(s, p + k + 1, m);
    DigitsEndAt(s, p + k + 1, m);
    if k > 0 {
      DottedMantissaEnd(s, p, p + k, m);
    } else {
      assert !IsDigit(s[p]) && IsDigit(s[p + 1]);
    }
  }

  /** Digits up to the dot at `d`, then digits up to `m`: the first branch of MantissaEnd with a fraction. */
  lemma DottedMantissaEnd(s: string, p: nat, d: nat, m: nat)
    requires p < d < m <= |s| && s[d] == '.' && DigitsEnd(s, d + 1) == m
    requires forall j :: p <= j < d ==> IsDigit(s[j])
    ensures MantissaEnd(s, p) == Some(m)
  {
    DigitsEndAt(s, p, d);
  }

  /** An exponent `s[m..e]` followed by a non-digit is where ExponentEnd stops. */
  lemma ExponentEndAt(s: string, m: nat, e: nat)
    requires m <= e < |s| && IsExponent(s[m..e]) && !IsDigit(s[e]) && s[e] != 'e' && s[e] != 'E'
    ensures ExponentEnd(s, m) == e
  {
    var t := s[m..e];
    if t != [] {
      assert t[0] == s[m] && t[1] == s[m + 1];
      var q := if s[m + 1] == '+' || s[m + 1] == '-' then m + 2 else m + 1;
      assert t[q - m..] == s[q..e];
      DigitsIn(s, q, e);
      DigitsEndAt(s, q, e);
    }
  }

  /** A number literal before a '%' is matched by the literal pattern. */
  lemma LiteralPercentComplete(s: string, p: nat, e: nat)
    requires p < e < |s| && s[e] == '%' && IsNumberLiteral(s[p..e])
    ensures PercentAt(LiteralPercent, s, p) == Some(e)
  {
    var t := s[p..e];
    var m :| 0 <= m <= |t| && SplitAt(t, m);
    assert t[..m] == s[p..p + m] && t[m..] == s[p + m..e];
    LiteralPercentAt(s, p, p + m, e);
  }

  /** The literal pattern matches a mantissa `s[p..m]` and an exponent `s[m..e]` before a '%'. */
  lemma LiteralPercentAt(s: string, p: nat, m: nat, e: nat)
    requires p <= m <= e < |s| && s[e] == '%' && IsMantissa(s[p..m]) && IsExponent(s[m..e])
    ensures PercentAt(LiteralPercent, s, p) == Some(e)
  {
    assert m < e ==> s[m] == s[m..e][0];
    MantissaEndAt(s, p, m);
    ExponentEndAt(s, m, e);
  }

  /** An innermost group before a '%' is matched by the group pattern. */
  lemma GroupPercentComplete(s: string, p: nat, e: nat)
    requires p < e < |s| && s[e] == '%' && IsInnermostGroup(s[p..e])
    ensures PercentAt(GroupPercent, s, p) == Some(e)
  {
    var t := s[p..e];
    assert forall k :: 0 <= k < |t| ==> t[k] == s[p + k];
    ParenEndAt(s, p + 1, e - 1);
  }

  /**
   * Conversely, wherever the pattern's regular expression matches at `p`, up to a '%' at `e`,
   * PercentAt finds that match: the two are the same relation.
   */
  lemma PercentAtComplete(pattern: PercentPattern, s: string, p: nat, e: nat)
    requires p < e < |s| && s[e] == '%'
    requires pattern.LiteralPercent? ==> IsNumberLiteral(s[p..e])
    requires pattern.GroupPercent? ==> IsInnermostGroup(s[p..e])
    ensures PercentAt(pattern, s, p) == Some(e)
  {
    if pattern.LiteralPercent? {
      LiteralPercentComplete(s, p, e);
    } else {
      GroupPercentComplete(s, p, e);
    }
  }

  /**
   * One `re.sub` of a percent pattern over `s[p..]`: at each position, from the left, a match
   * `x%` becomes `(x*0.01)` and the scan goes on after the '%'; other characters are copied.
   */
  function PercentPass(pattern: PercentPattern, s: string, p: nat): string
    requires p <= |s|
    decreases |s| - p
  {
    if p == |s| then []
    else
      var r := PercentAt(pattern, s, p);
      if r.Some? then Percented(s[p..r.value]) + PercentPass(pattern, s, r.value + 1)
      else [s[p]] + PercentPass(pattern, s, p + 1)
  }

  /** Each rewrite removes a '%': a pass never adds one, and a pass that removes none changes nothing. */
  lemma PercentPassCount(pattern: PercentPattern, s: string, p: nat)
    requires p <= |s|
    ensures Count(PercentPass(pattern, s, p), '%') <= Count(s[p..], '%')
    ensures Count(PercentPass(pattern, s, p), '%') == Count(s[p..], '%') ==> PercentPass(pattern, s, p) == s[p..]
  {
    PassShrinksFrom(pattern, s, p);
  }

  /** The two facts of PercentPassCount about the pass over `s[p..]`. */
  ghost predicate PassShrinks(pattern: PercentPattern, s: string, p: nat)
    requires p <= |s|
  {
    Count(PercentPass(pattern, s, p), '%') <= Count(s[p..], '%')
    && (Count(PercentPass(pattern, s, p), '%') == Count(s[p..], '%') ==> PercentPass(pattern, s, p) == s[p..])
  }

  lemma {:induction false} PassShrinksFrom(pattern: PercentPattern, s: string, p: nat)
    requires p <= |s|
    ensures PassShrinks(pattern, s, p)
    decreases |s| - p
  {
    if p == |s| {
      assert s[p..] == [];
    } else {
      var q := PassShrinksStep(pattern, s, p);
      PassShrinksFrom(pattern, s, q);
    }
  }

  /** Where the pass over `s[p..]` goes on, and that the count facts carry back from there. */
  lemma PassShrinksStep(pattern: PercentPattern, s: string, p: nat) returns (q: nat)
    requires p < |s|
    ensures p < q <= |s|
    ensures PassShrinks(pattern, s, q) ==> PassShrinks(pattern, s, p)
  {
    if PercentAt(pattern, s, p).Some? {
      q := MatchedPassCount(pattern, s, p);
    } else {
      q := CopiedPassCount(pattern, s, p);
    }
  }

  /** The count step of PassShrinksFrom over a match: the pass goes on after the '%'. */
  lemma MatchedPassCount(pattern: PercentPattern, s: string, p: nat) returns (q: nat)
    requires p < |s| && PercentAt(pattern, s, p).Some?
    ensures p < q <= |s|
    ensures PassShrinks(pattern, s, q) ==> PassShrinks(pattern, s, p)
  {
    var e := PercentAt(pattern, s, p).value;
    q := e + 1;
    PercentPassMatched(pattern, s, p, e);
    CountAroundPercent(s, p, e);
    if PassShrinks(pattern, s, q) {
      MatchedCount(s[p..e], PercentPass(pattern, s, q), s[q..], s[p..]);
    }
  }

  /** The count step of PassShrinksFrom over a copied character: the pass goes on after it. */
  lemma CopiedPassCount(pattern: PercentPattern, s: string, p: nat) returns (q: nat)
    requires p < |s| && PercentAt(pattern, s, p).None?
    ensures p < q <= |s|
    ensures PassShrinks(pattern, s, q) ==> PassShrinks(pattern, s, p)
  {
    q := p + 1;
    PercentPassCopies(pattern, s, p);
    if PassShrinks(pattern, s, q) {
      CopiedCount(s[p], PercentPass(pattern, s, q), s[q..]);
      assert s[p..] == [s[p]] + s[q..];
    }
  }

  /** Counting over a match: the replacement drops the '%'. */
  lemma MatchedCount(x: string, rest: string, tail: string, whole: string)
    requires Count(rest, '%') <= Count(tail, '%')
    requires Count(whole, '%') == Count(x, '%') + 1 + Count(tail, '%')
    ensures Count(Percented(x) + rest, '%') < Count(whole, '%')
  {
    ReplacementCount(x, rest);
  }

  /** Counting over a copied character. */
  lemma CopiedCount(c: char, rest: string, tail: string)
    requires Count(rest, '%') <= Count(tail, '%')
    requires Count(rest, '%') == Count(tail, '%') ==> rest == tail
    ensures Count([c] + rest, '%') <= Count([c] + tail, '%')
    ensures Count([c] + rest, '%') == Count([c] + tail, '%') ==> [c] + rest == [c] + tail
  {
    CountAppend([c], rest, '%');
    CountAppend([c], tail, '%');
  }

  lemma PercentPassMatched(pattern: PercentPattern, s: string, p: nat, e: nat)
    requires p < |s| && PercentAt(pattern, s, p) == Some(e)
    ensures PercentPass(pattern, s, p) == Percented(s[p..e]) + PercentPass(pattern, s, e + 1)
  {
  }

  lemma PercentPassCopies(pattern: PercentPattern, s: string, p: nat)
    requires p < |s| && PercentAt(pattern, s, p).None?
    ensures PercentPass(pattern, s, p) == [s[p]] + PercentPass(pattern, s, p + 1)
  {
  }

  /** The '%' at `e` splits the count of `s[p..]`. */
  lemma CountAroundPercent(s: string, p: nat, e: nat)
    requires p <= e < |s| && s[e] == '%'
    ensures Count(s[p..], '%') == Count(s[p..e], '%') + 1 + Count(s[e + 1..], '%')
  {
    assert s[p..] == s[p..e] + ([s[e]] + s[e + 1..]);
    CountAppend(s[p..e], [s[e]] + s[e + 1..], '%');
  }

  /** The replacement of a match `x%`. */
  function Percented(x: string): string
  {
    "(" + x + "*0.01)"
  }

  /** The replacement `(x*0.01)` holds as many '%' as `x`. */
  lemma ReplacementCount(x: string, rest: string)
    ensures Count(Percented(x) + rest, '%') == Count(x, '%') + Count(rest, '%')
  {
    CountAppend(Percented(x), rest, '%');
    CountAppend("(" + x, "*0.01)", '%');
    CountAppend("(", x, '%');
    assert Count("(", '%') == 0;
    assert Count("*0.01)", '%') == 0;
  }

  /** The group rewrite repeated until a pass changes nothing. */
  function PercentFixpoint(s: string): string
    decreases Count(s, '%')
  {
    var u := PercentPass(GroupPercent, s, 0);
    if u == s then s
    else
      PercentPassCount(GroupPercent, s, 0);
      assert s[0..] == s;
      PercentFixpoint(u)
  }

  /** `_replace_percentage` as a function: one literal pass, then group passes to a fixed point. */
  function PercentRewrite(s: string): string
  {
    PercentFixpoint(PercentPass(LiteralPercent, s, 0))
  }

  /** The group passes stop at a text the group rewrite no longer changes. */
  lemma {:induction false} PercentFixpointIsFixed(s: string)
    ensures PercentPass(GroupPercent, PercentFixpoint(s), 0) == PercentFixpoint(s)
    decreases Count(s, '%')
  {
    var u := PercentPass(GroupPercent, s, 0);
    if u != s {
      PercentPassCount(GroupPercent, s, 0);
      assert s[0..] == s;
      PercentFixpointIsFixed(u);
    }
  }

  /** The group passes never add a '%'. */
  lemma {:induction false} PercentFixpointCount(s: string)
    ensures Count(PercentFixpoint(s), '%') <= Count(s, '%')
    decreases Count(s, '%')
  {
    var u := PercentPass(GroupPercent, s, 0);
    PercentPassCount(GroupPercent, s, 0);
    assert s[0..] == s;
    if u != s {
      PercentFixpointCount(u);
    }
  }

  /** The percent rewrite never adds a '%', and leaves a text without '%' as it is. */
  lemma PercentRewriteCount(s: string)
    ensures Count(PercentRewrite(s), '%') <= Count(s, '%')
    ensures Count(s, '%') == 0 ==> PercentRewrite(s) == s
  {
    var u := PercentPass(LiteralPercent, s, 0);
    PercentPassCount(LiteralPercent, s, 0);
    assert s[0..] == s;
    PercentFixpointCount(u);
    if Count(s, '%') == 0 {
      PercentPassCount(GroupPercent, s, 0);
    }
  }

  /** The group passes leave a text without '%' as it is. */
  lemma PercentFixpointNoPercent(u: string)
    requires Count(u, '%') == 0
    ensures PercentFixpoint(u) == u
  {
    PercentPassCount(GroupPercent, u, 0);
    assert u[0..] == u;
  }

  /** The literal pass over "50%". */
  lemma LiteralPassOfFifty()
    ensures PercentPass(LiteralPercent, "50%", 0) == Percented("50")
  {
    var s := "50%";
    assert DigitsEnd(s, 0) == 2;
    assert MantissaEnd(s, 0) == Some(2);
    assert ExponentEnd(s, 2) == 2;
    PercentPassMatched(LiteralPercent, s, 0, 2);
    assert s[0..2] == "50";
  }

  /** A number literal: "50%" becomes "(50*0.01)". */
  lemma PercentOfNumber()
    ensures PercentRewrite("50%") == Percented("50")
  {
    var u := Percented("50");
    LiteralPassOfFifty();
    ReplacementCount("50", []);
    assert u + [] == u;
    assert Count("50", '%') == 0;
    PercentFixpointNoPercent(u);
  }

  /**
   * `_replace_percentage`: one pass of the literal rewrite, then the group rewrite again and
   * again until it changes nothing; every pass that changes the text removes a '%', so the loop
   * ends.
   */
  method ReplacePercentage(expr: string) returns (r: string)
    ensures r == PercentRewrite(expr)
    ensures PercentPass(GroupPercent, r, 0) == r
  {
    var e := PercentPass(LiteralPercent, expr, 0);
    while true
      invariant PercentFixpoint(e) == PercentRewrite(expr)
      decreases Count(e, '%')
    {
      var updated := PercentPass(GroupPercent, e, 0);
      if updated == e {
        return e;
      }
      PercentPassCount(GroupPercent, e, 0);
      assert e[0..] == e;
      e := updated;
    }
  }

  // ---------------------------------------------------------------------------------------
  // Implicit multiplication

  /**
   * The eight rewrites of `_insert_implicit_mult`, in the order they run. Each inserts '*'
   * between two neighbouring characters of given classes.
   */
  datatype MultRule =
    | CloseOpen       // ")(" becomes ")*("
    | DigitOpen       // a digit before '('
    | CloseDigit      // ')' before a digit or 'π'
    | DigitPi         // a digit before 'π'
    | ConstantBefore  // 'π', or an 'e' not after a digit, before a digit or '('
    | DigitLetter     // a digit before a lower-case letter other than 'e'
    | DigitBareE      // a digit before an 'e' that starts no exponent
    | CloseLetter     // ')' before a lower-case letter or 'π'

  const MultRules: seq<MultRule> :=
    [CloseOpen, DigitOpen, CloseDigit, DigitPi, ConstantBefore, DigitLetter, DigitBareE, CloseLetter]

  predicate IsLowerLetter(c: char) { 'a' <= c <= 'z' }

  /**
   * The rule's pattern matches across the boundary before index `k`: `s[k - 1]` is of its first
   * class and `s[k]` of its second, with the look-behind and look-ahead of the pattern.
   */
  predicate RuleMatches(rule: MultRule, s: string, k: nat)
    requires 1 <= k < |s|
  {
    var a, b := s[k - 1], s[k];
    match rule
      case CloseOpen => a == ')' && b == '('
      case DigitOpen => IsDigit(a) && b == '('
      case CloseDigit => a == ')' && (IsDigit(b) || b == 'π')
      case DigitPi => IsDigit(a) && b == 'π'
      case ConstantBefore =>
        (a == 'π' || (a == 'e' && !(k >= 2 && IsDigit(s[k - 2])))) && (IsDigit(b) || b == '(')
      case DigitLetter => IsDigit(a) && IsLowerLetter(b) && b != 'e'
      case DigitBareE =>
        IsDigit(a) && b == 'e' && !(k + 1 < |s| && (s[k + 1] == '+' || s[k + 1] == '-' || IsDigit(s[k + 1])))
      case CloseLetter => a == ')' && (IsLowerLetter(b) || b == 'π')
  }

  /**
   * One `re.sub` of a rule over `s[k..]`. No character is of both classes of a rule, so two
   * matches never share a character, and the pass inserts '*' at every boundary where the rule
   * matches in the text it started from.
   */
  function InsertFrom(rule: MultRule, s: string, k: nat): (r: string)
    requires k <= |s|
    ensures |r| >= |s| - k
    decreases |s| - k
  {
    if k == |s| then []
    else (if k >= 1 && RuleMatches(rule, s, k) then "*" else []) + [s[k]] + InsertFrom(rule, s, k + 1)
  }

  function InsertPass(rule: MultRule, s: string): string
  {
    InsertFrom(rule, s, 0)
  }

  /** The rules applied one after the other. */
  function ApplyRules(rules: seq<MultRule>, s: string): string
    decreases |rules|
  {
    if rules == [] then s else ApplyRules(rules[1..], InsertPass(rules[0], s))
  }

  /**
   * `r` is `s` with some '*' characters inserted: deleting some of the '*' of `r` gives back
   * `s`, every other character kept in its order.
   */
  predicate StarsInserted(s: string, r: string)
    decreases |r|
  {
    if r == [] then s == []
    else (s != [] && r[0] == s[0] && StarsInserted(s[1..], r[1..])) || (r[0] == '*' && StarsInserted(s, r[1..]))
  }

  /** Inserting no star at all. */
  lemma {:induction false} StarsInsertedRefl(s: string)
    ensures StarsInserted(s, s)
    decreases |s|
  {
    if s != [] {
      StarsInsertedRefl(s[1..]);
    }
  }

  /** Stars inserted into a text with stars inserted are stars inserted into the first. */
  lemma {:induction false} StarsInsertedTrans(a: string, b: string, c: string)
    requires StarsInserted(a, b) && StarsInserted(b, c)
    ensures StarsInserted(a, c)
    decreases |c|
  {
    if c != [] {
      if c[0] == '*' && StarsInserted(b, c[1..]) {
        StarsInsertedTrans(a, b, c[1..]);
      } else {
        assert b != [] && c[0] == b[0] && StarsInserted(b[1..], c[1..]);
        if a != [] && b[0] == a[0] && StarsInserted(a[1..], b[1..]) {
          StarsInsertedTrans(a[1..], b[1..], c[1..]);
        } else {
          assert b[0] == '*' && StarsInserted(a, b[1..]);
          StarsInsertedTrans(a, b[1..], c[1..]);
        }
      }
    }
  }

  /** Stars inserted never shorten the text. */
  lemma {:induction false} StarsInsertedLength(s: string, r: string)
    requires StarsInserted(s, r)
    ensures |r| >= |s|
    decreases |r|
  {
    if r != [] {
      if s != [] && r[0] == s[0] && StarsInserted(s[1..], r[1..]) {
        StarsInsertedLength(s[1..], r[1..]);
      } else {
        StarsInsertedLength(s, r[1..]);
      }
    }
  }

  /** Moving a '*' is no insertion: "23*" is not "2*3" with stars inserted. */
  lemma MovedStarIsNoInsertion()
    ensures !StarsInserted("2*3", "23*")
  {
    var s, r := "2*3", "23*";
    assert r[1..] == "3*" && s[1..] == "*3";
    assert !StarsInserted("*3", "3*") by {
      var u, w := "*3", "3*";
      assert w[0] != u[0] && w[0] != '*';
    }
  }

  /** A pass only inserts '*': the rest of the text from `k` on, with stars inserted. */
  lemma {:induction false} InsertFromOnlyStars(rule: MultRule, s: string, k: nat)
    requires k <= |s|
    ensures StarsInserted(s[k..], InsertFrom(rule, s, k))
    decreases |s| - k
  {
    if k < |s| {
      var star := if k >= 1 && RuleMatches(rule, s, k) then "*" else [];
      var rest := InsertFrom(rule, s, k + 1);
      InsertFromStep(rule, s, k, star);
      InsertFromOnlyStars(rule, s, k + 1);
      CopyStep(s[k..], rest);
      StarStep(s[k..], star, [s[k]] + rest);
    }
  }

  /** An optional '*' in front keeps StarsInserted. */
  lemma StarStep(t: string, star: string, rest: string)
    requires star == "*" || star == []
    requires StarsInserted(t, rest)
    ensures StarsInserted(t, star + rest)
  {
    if star != [] {
      var u := star + rest;
      assert u[0] == '*' && u[1..] == rest;
    } else {
      assert star + rest == rest;
    }
  }

  lemma InsertFromStep(rule: MultRule, s: string, k: nat, star: string)
    requires k < |s| && star == (if k >= 1 && RuleMatches(rule, s, k) then "*" else [])
    ensures InsertFrom(rule, s, k) == star + [s[k]] + InsertFrom(rule, s, k + 1)
  {
  }

  /** Copying the first character keeps the stars-inserted relation. */
  lemma CopyStep(t: string, rest: string)
    requires t != [] && StarsInserted(t[1..], rest)
    ensures StarsInserted(t, [t[0]] + rest)
  {
    var u := [t[0]] + rest;
    assert u[0] == t[0] && u[1..] == rest;
  }

  /** A pass over a text where the rule matches nowhere leaves it as it is. */
  lemma {:induction false} InsertFromNoMatch(rule: MultRule, s: string, k: nat)
    requires k <= |s|
    requires forall m :: Max(k, 1) <= m < |s| ==> !RuleMatches(rule, s, m)
    ensures InsertFrom(rule, s, k) == s[k..]
    decreases |s| - k
  {
    if k < |s| {
      InsertFromNoMatch(rule, s, k + 1);
      assert s[k..] == [s[k]] + s[k + 1..];
    }
  }

  /** A pass inserts a '*' where the rule matches: "2(3)" becomes "2*(3)" under DigitOpen. */
  lemma DigitBeforeGroup()
    ensures InsertPass(DigitOpen, "2(3)") == "2*(3)"
  {
    var s := "2(3)";
    InsertFromNoMatch(DigitOpen, s, 2);
    assert s[2..] == "3)";
    assert RuleMatches(DigitOpen, s, 1);
  }

  /** `_insert_implicit_mult` as a function: the eight rules in their order. */
  function ImplicitMult(s: string): string
  {
    ApplyRules(MultRules, s)
  }

  /** Implicit multiplication only inserts '*', so it never shortens the text. */
  lemma {:induction false} ApplyRulesOnlyStars(rules: seq<MultRule>, s: string)
    ensures StarsInserted(s, ApplyRules(rules, s))
    ensures |ApplyRules(rules, s)| >= |s|
    decreases |rules|
  {
    if rules == [] {
      StarsInsertedRefl(s);
    } else {
      var u := InsertPass(rules[0], s);
      InsertFromOnlyStars(rules[0], s, 0);
      assert s[0..] == s;
      ApplyRulesOnlyStars(rules[1..], u);
      StarsInsertedTrans(s, u, ApplyRules(rules[1..], u));
    }
    StarsInsertedLength(s, ApplyRules(rules, s));
  }

  /** `_insert_implicit_mult`: runs the rules over the text one after the other. */
  method InsertImplicitMult(expr: string) returns (r: string)
    ensures r == ImplicitMult(expr)
    ensures StarsInserted(expr, r)
  {
    r := expr;
    for i := 0 to |MultRules|
      invariant ApplyRules(MultRules[i..], r) == ImplicitMult(expr)
    {
      assert MultRules[i..][1..] == MultRules[i + 1..];
      r := InsertPass(MultRules[i], r);
    }
    assert MultRules[|MultRules|..] == [];
    ApplyRulesOnlyStars(MultRules, expr);
  }

  /** The rules leave a text alone when none of them matches anywhere in it. */
  lemma {:induction false} ApplyRulesNoMatch(rules: seq<MultRule>, s: string)
    requires forall i, k :: 0 <= i < |rules| && 1 <= k < |s| ==> !RuleMatches(rules[i], s, k)
    ensures ApplyRules(rules, s) == s
    decreases |rules|
  {
    if rules != [] {
      InsertFromNoMatch(rules[0], s, 0);
      assert s[0..] == s;
      forall i, k | 0 <= i < |rules[1..]| && 1 <= k < |s| ensures !RuleMatches(rules[1..][i], s, k) {
        assert rules[1..][i] == rules[i + 1];
      }
      ApplyRulesNoMatch(rules[1..], s);
    }
  }

  /** A number in scientific notation is not split: "2e5" stays as it is. */
  lemma ExponentLiteralKept()
    ensures ImplicitMult("2e5") == "2e5"
  {
    var s := "2e5";
    forall i, k | 0 <= i < |MultRules| && 1 <= k < |s| ensures !RuleMatches(MultRules[i], s, k) {
      assert k == 1 || k == 2;
    }
    ApplyRulesNoMatch(MultRules, s);
  }

  // ---------------------------------------------------------------------------------------
  // Identifier check

  /** `_FUNCTION_IDENTIFIERS`, in the order the check visits them here. */
  const FunctionNames: seq<string> :=
    ["sin", "cos", "tan", "asin", "acos", "atan", "ln", "log", "sqrt", "factorial", "exp", "abs"]

  /** `_CONSTANT_IDENTIFIERS`, in the order the check visits them here. */
  const ConstantNames: seq<string> := ["pi", "e", "π"]

  /** `_ALLOWED_IDENTIFIERS`: the function names and the constants. */
  predicate IsAllowedIdentifier(name: string)
  {
    name in FunctionNames || name in ConstantNames
  }

  /** The first index from `k` on that does not hold a letter or 'π'. */
  function NameEnd(s: string, k: nat): (r: nat)
    requires k <= |s|
    ensures k <= r <= |s| && (r == |s| || !IsNameChar(s[r]))
    ensures forall m :: k <= m < r ==> IsNameChar(s[m])
    decreases |s| - k
  {
    if k < |s| && IsNameChar(s[k]) then NameEnd(s, k + 1) else k
  }

  /** `re.findall(r"[A-Za-zπ]+", s[k..])`: the maximal runs of letters, from the left. */
  function NameRuns(s: string, k: nat): (r: seq<string>)
    requires k <= |s|
    ensures forall i :: 0 <= i < |r| ==> r[i] != []
    decreases |s| - k
  {
    if k == |s| then []
    else if IsNameChar(s[k]) then
      var e := NameEnd(s, k);
      [s[k..e]] + NameRuns(s, e)
    else NameRuns(s, k + 1)
  }

  /** `s[a..b]` is a run of letters and 'π' that cannot be extended on either side. */
  predicate IsNameRunAt(s: string, a: nat, b: nat)
  {
    a < b <= |s| && (forall m :: a <= m < b ==> IsNameChar(s[m]))
    && (a == 0 || !IsNameChar(s[a - 1])) && (b == |s| || !IsNameChar(s[b]))
  }

  /**
   * `runs` are, in order and without overlap, the maximal runs of letters `s[starts[i]..ends[i]]`
   * of `s[k..]`, and every letter from `k` on is in one of them.
   */
  ghost predicate RunsSpan(s: string, k: nat, runs: seq<string>, starts: seq<nat>, ends: seq<nat>)
  {
    |starts| == |ends| == |runs| && RunsAreMaximal(s, k, runs, starts, ends)
    && RunsInOrder(starts, ends) && RunsCover(s, k, starts, ends)
  }

  /** Each `runs[i]` is the maximal run `s[starts[i]..ends[i]]`, from `k` on. */
  ghost predicate RunsAreMaximal(s: string, k: nat, runs: seq<string>, starts: seq<nat>, ends: seq<nat>)
    requires |starts| == |ends| == |runs|
  {
    forall i :: 0 <= i < |starts| ==> k <= starts[i] && IsNameRunAt(s, starts[i], ends[i]) && runs[i] == s[starts[i]..ends[i]]
  }

  /** Each run ends before the next one starts. */
  ghost predicate RunsInOrder(starts: seq<nat>, ends: seq<nat>)
    requires |starts| == |ends|
  {
    forall i :: 0 <= i < |starts| - 1 ==> ends[i] < starts[i + 1]
  }

  /** Every letter of `s[k..]` lies in some run. */
  ghost predicate RunsCover(s: string, k: nat, starts: seq<nat>, ends: seq<nat>)
    requires |starts| == |ends|
  {
    forall m :: k <= m < |s| && IsNameChar(s[m]) ==> exists i :: 0 <= i < |starts| && starts[i] <= m < ends[i]
  }

  /**
   * What `re.findall` returns: NameRuns lists the maximal runs of letters of `s[k..]` in
   * order, when the scan starts outside a run.
   */
  lemma {:induction false} NameRunsSpans(s: string, k: nat) returns (starts: seq<nat>, ends: seq<nat>)
    requires k <= |s|
    requires !(0 < k < |s| && IsNameChar(s[k - 1]) && IsNameChar(s[k]))
    ensures RunsSpan(s, k, NameRuns(s, k), starts, ends)
    decreases |s| - k
  {
    if k == |s| {
      starts, ends := [], [];
    } else if IsNameChar(s[k]) {
      var e := NameEnd(s, k);
      var st, en := NameRunsSpans(s, e);
      assert NameRuns(s, k) == [s[k..e]] + NameRuns(s, e);
      RunsSpanCons(s, k, e, NameRuns(s, e), st, en);
      starts, ends := [k] + st, [e] + en;
    } else {
      starts, ends := NameRunsSpans(s, k + 1);
      RunsSpanSkip(s, k, NameRuns(s, k + 1), starts, ends);
    }
  }

  /** A maximal run at `k` followed by the runs from its end. */
  lemma RunsSpanCons(s: string, k: nat, e: nat, runs: seq<string>, st: seq<nat>, en: seq<nat>)
    requires IsNameRunAt(s, k, e) && RunsSpan(s, e, runs, st, en)
    ensures RunsSpan(s, k, [s[k..e]] + runs, [k] + st, [e] + en)
  {
    RunsMaximalCons(s, k, e, runs, st, en);
    RunsInOrderCons(s, k, e, runs, st, en);
    RunsCoverCons(s, k, e, st, en);
  }

  /** The maximality part of RunsSpanCons. */
  lemma RunsMaximalCons(s: string, k: nat, e: nat, runs: seq<string>, st: seq<nat>, en: seq<nat>)
    requires IsNameRunAt(s, k, e) && |st| == |en| == |runs| && RunsAreMaximal(s, e, runs, st, en)
    ensures RunsAreMaximal(s, k, [s[k..e]] + runs, [k] + st, [e] + en)
  {
    var starts, ends, rs := [k] + st, [e] + en, [s[k..e]] + runs;
    forall i | 0 <= i < |starts|
      ensures k <= starts[i] && IsNameRunAt(s, starts[i], ends[i]) && rs[i] == s[starts[i]..ends[i]]
    {
      if i > 0 {
        assert starts[i] == st[i - 1] && ends[i] == en[i - 1] && rs[i] == runs[i - 1];
      }
    }
  }

  /** The order part of RunsSpanCons: the run at `k` ends before the next run starts. */
  lemma RunsInOrderCons(s: string, k: nat, e: nat, runs: seq<string>, st: seq<nat>, en: seq<nat>)
    requires IsNameRunAt(s, k, e) && |st| == |en| == |runs| && RunsAreMaximal(s, e, runs, st, en) && RunsInOrder(st, en)
    ensures RunsInOrder([k] + st, [e] + en)
  {
    var starts, ends := [k] + st, [e] + en;
    forall i | 0 <= i < |starts| - 1
      ensures ends[i] < starts[i + 1]
    {
      if i == 0 {
        assert IsNameRunAt(s, st[0], en[0]);
      } else {
        assert ends[i] == en[i - 1] && starts[i + 1] == st[i];
      }
    }
  }

  /** The coverage part of RunsSpanCons. */
  lemma RunsCoverCons(s: string, k: nat, e: nat, st: seq<nat>, en: seq<nat>)
    requires IsNameRunAt(s, k, e) && |st| == |en| && RunsCover(s, e, st, en)
    ensures RunsCover(s, k, [k] + st, [e] + en)
  {
    var starts, ends := [k] + st, [e] + en;
    forall m | k <= m < |s| && IsNameChar(s[m])
      ensures exists i :: 0 <= i < |starts| && starts[i] <= m < ends[i]
    {
      if m < e {
        assert starts[0] <= m < ends[0];
      } else {
        var i :| 0 <= i < |st| && st[i] <= m < en[i];
        assert starts[i + 1] <= m < ends[i + 1];
      }
    }
  }

  /** A character that is no letter starts no run. */
  lemma RunsSpanSkip(s: string, k: nat, runs: seq<string>, starts: seq<nat>, ends: seq<nat>)
    requires k < |s| && !IsNameChar(s[k]) && RunsSpan(s, k + 1, runs, starts, ends)
    ensures RunsSpan(s, k, runs, starts, ends)
  {
  }

  /** Letters split by other characters give one run each: "pi*xy" holds "pi" and "xy". */
  lemma NameRunsOfProduct()
    ensures NameRuns("pi*xy", 0) == ["pi", "xy"]
  {
    var s := "pi*xy";
    assert NameEnd(s, 0) == 2 && s[0..2] == "pi";
    assert NameEnd(s, 3) == 5 && s[3..5] == "xy";
    assert NameRuns(s, 0) == ["pi"] + NameRuns(s, 2);
    assert NameRuns(s, 2) == NameRuns(s, 3) == ["xy"] + NameRuns(s, 5);
  }

  /** Python's `\w`: letters, digits and the underscore. */
  predicate IsWordChar(c: char) { IsDigit(c) || IsAsciiLetter(c) || c == '_' || c == 'π' }

  /**
   * `\b{name}\b` matches at `k`: the name sits there with no word character on either side
   * (every name starts and ends with a word character).
   */
  predicate WordAt(s: string, name: string, k: nat)
  {
    k + |name| <= |s| && s[k..k + |name|] == name
    && (k == 0 || !IsWordChar(s[k - 1]))
    && (k + |name| == |s| || !IsWordChar(s[k + |name|]))
  }

  /** The first index from `k` on that does not hold whitespace. */
  function SpaceEnd(s: string, k: nat): (r: nat)
    requires k <= |s|
    ensures k <= r <= |s| && (r == |s| || !IsSpace(s[r]))
    ensures forall m :: k <= m < r ==> IsSpace(s[m])
    decreases |s| - k
  {
    if k < |s| && IsSpace(s[k]) then SpaceEnd(s, k + 1) else k
  }

  /** `\s*\(` matches at `j`: after any whitespace comes '('. */
  predicate CallFollows(s: string, j: nat)
    requires j <= |s|
  {
    var m := SpaceEnd(s, j);
    m < |s| && s[m] == '('
  }

  /** `re.search(rf"\b{name}\b(?!\s*\()", s)`: the function name appears somewhere without its call. */
  predicate MissingCall(s: string, name: string)
  {
    exists k: nat :: k <= |s| && WordAt(s, name, k) && !CallFollows(s, k + |name|)
  }

  /** `re.search(rf"\b{name}\b\s*\(", s)`: the constant appears somewhere as a call. */
  predicate ConstantCall(s: string, name: string)
  {
    exists k: nat :: k <= |s| && WordAt(s, name, k) && CallFollows(s, k + |name|)
  }

  /** The first name of the list that satisfies `p`. */
  function FirstWhere(names: seq<string>, p: string -> bool): (r: Option<string>)
    ensures r.None? <==> forall i {:trigger names[i]} :: 0 <= i < |names| ==> !p(names[i])
    ensures r.Some? ==> r.value in names && p(r.value)
    ensures r.Some? ==> exists i :: 0 <= i < |names| && names[i] == r.value && forall j :: 0 <= j < i ==> !p(names[j])
  {
    if names == [] then None
    else if p(names[0]) then Some(names[0])
    else
      var r := FirstWhere(names[1..], p);
      assert forall i :: 1 <= i < |names| ==> names[i] == names[1..][i - 1];
      if r.Some? then
        var i :| 0 <= i < |names[1..]| && names[1..][i] == r.value && forall j :: 0 <= j < i ==> !p(names[1..][j]);
        assert names[i + 1] == r.value && forall j :: 0 <= j < i + 1 ==> !p(names[j]);
        r
      else r
  }

  predicate IsUnknownIdentifier(name: string) { !IsAllowedIdentifier(name) }

  /** The first run of letters that is not a known identifier. */
  function UnknownName(s: string): (r: Option<string>)
    ensures r.None? <==> forall i :: 0 <= i < |NameRuns(s, 0)| ==> IsAllowedIdentifier(NameRuns(s, 0)[i])
    ensures r.Some? ==> r.value in NameRuns(s, 0) && !IsAllowedIdentifier(r.value)
    ensures r.Some? ==> exists i :: (0 <= i < |NameRuns(s, 0)| && NameRuns(s, 0)[i] == r.value
      && forall j :: 0 <= j < i ==> IsAllowedIdentifier(NameRuns(s, 0)[j]))
  {
    var runs := NameRuns(s, 0);
    var r := FirstWhere(runs, IsUnknownIdentifier);
    assert (forall i :: 0 <= i < |runs| ==> IsAllowedIdentifier(runs[i])) ==> r.None? by {
      if forall i :: 0 <= i < |runs| ==> IsAllowedIdentifier(runs[i]) {
        forall i | 0 <= i < |runs| ensures !IsUnknownIdentifier(runs[i]) {
        }
      }
    }
    r
  }

  /** The first function name that appears without its call. */
  function UncalledFunction(s: string): (r: Option<string>)
    ensures r.None? <==> forall i :: 0 <= i < |FunctionNames| ==> !MissingCall(s, FunctionNames[i])
    ensures r.Some? ==> r.value in FunctionNames && MissingCall(s, r.value)
  {
    FirstWhere(FunctionNames, name => MissingCall(s, name))
  }

  /** The first constant that appears as a call. */
  function CalledConstant(s: string): (r: Option<string>)
    ensures r.None? <==> forall i :: 0 <= i < |ConstantNames| ==> !ConstantCall(s, ConstantNames[i])
    ensures r.Some? ==> r.value in ConstantNames && ConstantCall(s, r.value)
  {
    FirstWhere(ConstantNames, name => ConstantCall(s, name))
  }

  /** The identifier error `e` names a run of letters of `s` that breaks the rule `e` stands for. */
  predicate IdentifierErrorHolds(s: string, e: InputError)
  {
    match e
    case UnknownIdentifier(name) => name in NameRuns(s, 0) && !IsAllowedIdentifier(name)
    case MissingParenthesis(name) => name in FunctionNames && MissingCall(s, name)
    case ConstantNotCallable(name) => name in ConstantNames && ConstantCall(s, name)
    case _ => false
  }

  /**
   * `_validate_identifiers`: every run of letters must be a known identifier, every function
   * name must be followed by '(' and no constant may be; a name that breaks a rule is reported,
   * the unknown ones first, then the functions, then the constants.
   */
  function ValidateIdentifiers(s: string): (r: Outcome<InputError>)
    ensures r == Pass <==> UnknownName(s).None? && UncalledFunction(s).None? && CalledConstant(s).None?
    ensures r.Fail? ==> IdentifierErrorHolds(s, r.error)
    ensures r.Fail? && !r.error.UnknownIdentifier? ==> UnknownName(s).None?
    ensures r.Fail? && r.error.ConstantNotCallable? ==> UncalledFunction(s).None?
    ensures r.Fail? && r.error.UnknownIdentifier? ==> Some(r.error.name) == UnknownName(s)
  {
    match UnknownName(s)
    case Some(name) => Fail(UnknownIdentifier(name))
    case None =>
      match UncalledFunction(s)
      case Some(name) => Fail(MissingParenthesis(name))
      case None =>
        match CalledConstant(s)
        case Some(name) => Fail(ConstantNotCallable(name))
        case None => Pass
  }

  /** Of two unknown names the first is reported: "x+y" fails on "x". */
  lemma FirstUnknownReported()
    ensures ValidateIdentifiers("x+y") == Fail(UnknownIdentifier("x"))
  {
    var s := "x+y";
    assert NameEnd(s, 0) == 1 && s[0..1] == "x" && !IsAllowedIdentifier("x");
    assert NameRuns(s, 0) == ["x"] + NameRuns(s, 1);
    assert UnknownName(s) == Some("x");
  }

  /** A letter that is no identifier is reported: "2x" fails on "x". */
  lemma UnknownLetterReported()
    ensures ValidateIdentifiers("2x") == Fail(UnknownIdentifier("x"))
  {
    var s := "2x";
    assert NameEnd(s, 1) == 2;
    assert s[1..2] == "x";
    assert NameRuns(s, 2) == [];
    assert NameRuns(s, 1) == ["x"];
    assert NameRuns(s, 0) == ["x"];
    assert !IsAllowedIdentifier("x");
  }

  /** Unknown names come first: "x+sin 2" fails on "x", not on the uncalled "sin". */
  lemma UnknownBeforeUncalled()
    ensures ValidateIdentifiers("x+sin 2") == Fail(UnknownIdentifier("x"))
  {
    var s := "x+sin 2";
    assert NameEnd(s, 0) == 1;
    assert s[0..1] == "x";
    assert !IsAllowedIdentifier("x");
    assert NameRuns(s, 0) == ["x"] + NameRuns(s, 1);
    assert UnknownName(s) == Some("x");
  }

  /** A function name without its call is reported: "sin 2" fails on "sin". */
  lemma FunctionWithoutCallReported()
    ensures ValidateIdentifiers("sin 2") == Fail(MissingParenthesis("sin"))
  {
    var s := "sin 2";
    assert NameEnd(s, 0) == 3;
    assert s[0..3] == "sin";
    assert NameRuns(s, 5) == [];
    assert NameRuns(s, 4) == [];
    assert NameRuns(s, 3) == [];
    assert NameRuns(s, 0) == ["sin"];
    assert IsAllowedIdentifier("sin");
    assert UnknownName(s).None?;
    assert WordAt(s, "sin", 0);
    assert SpaceEnd(s, 3) == 4;
    assert MissingCall(s, "sin");
  }

  // ---------------------------------------------------------------------------------------
  // The pipeline

  /** The operator glyphs of the keypad ('×', '÷', '−') become Python's operators. */
  function MapGlyphs(s: string): (r: string)
    ensures |r| == |s|
    ensures forall i :: 0 <= i < |r| ==> r[i] != '×' && r[i] != '÷' && r[i] != '−'
  {
    ReplaceChar(ReplaceChar(ReplaceChar(s, '×', '*'), '÷', '/'), '−', '-')
  }

  /**
   * `_preprocess` as a function: strip the text, map the glyphs, rewrite factorials, then
   * powers and square roots, then percents, insert the implicit products and check the
   * identifiers.
   */
  function Preprocess(expr: string): Result<string, InputError>
  {
    var glyphs := MapGlyphs(Strip(expr));
    var factorials := FactorialRewrite(glyphs);
    var powers := ReplaceAll(factorials, "^", "**");
    var roots := ReplaceAll(powers, "√(", "sqrt(");
    var percents := PercentRewrite(roots);
    var product := ImplicitMult(percents);
    match ValidateIdentifiers(product)
    case Fail(error) => Failure(error)
    case Pass => Success(product)
  }

  /**
   * `_preprocess`: the same steps, with the factorial, percent and implicit-product rewrites
   * done by their loops.
   */
  method PreprocessExpression(expr: string) returns (r: Result<string, InputError>)
    ensures r == Preprocess(expr)
    ensures r.Success? ==> ValidateIdentifiers(r.value) == Pass
    ensures r.Failure? ==> r.error.UnknownIdentifier? || r.error.MissingParenthesis? || r.error.ConstantNotCallable?
  {
    var text := Strip(expr);
    text := MapGlyphs(text);
    text := ReplaceFactorial(text);
    text := ReplaceAll(text, "^", "**");
    text := ReplaceAll(text, "√(", "sqrt(");
    text := ReplacePercentage(text);
    text := InsertImplicitMult(text);
    var check := ValidateIdentifiers(text);
    if check.Fail? {
      return Failure(check.error);
    }
    return Success(text);
  }

  /**
   * `FormulaEvaluator.evaluate` up to the call of the host evaluator: a blank text is refused,
   * then the raw check, then the preprocessing.
   */
  function PrepareFormula(expression: string): Result<string, InputError>
  {
    if expression == [] || Strip(expression) == [] then Failure(EmptyExpression)
    else match ValidateRawExpression(expression)
      case Fail(error) => Failure(error)
      case Pass => Preprocess(expression)
  }

  /** `_preprocess` fails only on an identifier. */
  lemma PreprocessFailsOnIdentifiers(expr: string)
    ensures Preprocess(expr).Failure? ==>
      (Preprocess(expr).error.UnknownIdentifier? || Preprocess(expr).error.MissingParenthesis?
       || Preprocess(expr).error.ConstantNotCallable?)
  {
  }

  /** Only a blank text is refused as empty. */
  lemma PrepareFormulaEmpty(expression: string)
    ensures PrepareFormula(expression) == Failure(EmptyExpression) <==> IsBlank(expression)
  {
    StripEmptyIffBlank(expression);
    if !IsBlank(expression) {
      assert expression != [] && Strip(expression) != [];
      if AllAllowed(expression) {
        assert PrepareFormula(expression) == Preprocess(expression);
        PreprocessFailsOnIdentifiers(expression);
      }
    }
  }

  /** Only a text with a character outside the whitelist is refused as invalid. */
  lemma PrepareFormulaInvalid(expression: string)
    ensures PrepareFormula(expression) == Failure(InvalidCharacters) <==> !IsBlank(expression) && !AllAllowed(expression)
  {
    StripEmptyIffBlank(expression);
    PreprocessFailsOnIdentifiers(expression);
  }

  /** An accepted text is whitelisted and is the preprocessed one. */
  lemma PrepareFormulaAccepts(expression: string)
    ensures PrepareFormula(expression).Success? ==> AllAllowed(expression) && Preprocess(expression) == PrepareFormula(expression)
  {
  }

  /**
   * `FormulaEvaluator.evaluate` up to the host evaluator, step by step: the blank check, the raw
   * check and `_preprocess`.
   */
  method Prepare(expression: string) returns (r: Result<string, InputError>)
    ensures r == PrepareFormula(expression)
  {
    if expression == [] || Strip(expression) == [] {
      return Failure(EmptyExpression);
    }
    var raw := ValidateRawExpression(expression);
    if raw.Fail? {
      return Failure(raw.error);
    }
    r := PreprocessExpression(expression);
  }
}
