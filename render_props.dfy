/**
 * What the printers of src/render.rs promise: which trees they accept, and
 * that each printed text, read word by word by a stack machine, computes the
 * value of the tree it was printed from: postfix from left to right, the
 * s-expression, once its parentheses are dropped, from right to left.
 */
module RenderProperties {

  import opened Wrappers
  import opened Chars
  import Tokens
  import opened Ast
  import opened Interpreter
  import opened InterpreterProperties
  import opened Render

  /** A number prints in both forms as the shortest decimal spelling of its value. */
  lemma {:induction false} NumberRendersDecimal(t: Token, value: u32)
    ensures ToPostfix(Number(t, value)) == ToSExpr(Number(t, value))
    ensures var s := ToPostfix(Number(t, value)).value;
      AllDigits(s) && DigitsValue(s) == value && (|s| > 1 ==> s[0] != '0')
  {
    DecimalRoundTrip(value);
  }

  // ------------------------------------------------- postfix as a program

  /** The words of a text, split at every space. */
  function Words(s: string): (w: seq<string>)
    ensures |w| >= 1
  {
    if s == [] then [""]
    else
      var rest := Words(s[1..]);
      if s[0] == ' ' then [""] + rest else [[s[0]] + rest[0]] + rest[1..]
  }

  predicate NoSpace(s: string) {
    forall i :: 0 <= i < |s| ==> s[i] != ' '
  }

  /** A text without spaces is one word. */
  lemma {:induction false} OneWord(s: string)
    requires NoSpace(s)
    ensures Words(s) == [s]
  {
    if s != [] {
      OneWord(s[1..]);
      assert [s[0]] + s[1..] == s;
    }
  }

  /** Splitting at a joining space splits the two sides apart. */
  lemma {:induction false} WordsJoin(x: string, y: string)
    ensures Words(x + " " + y) == Words(x) + Words(y)
  {
    if x == [] {
      assert x + " " + y == [' '] + y;
      assert ([' '] + y)[1..] == y;
    } else {
      assert (x + " " + y)[0] == x[0];
      assert (x + " " + y)[1..] == x[1..] + " " + y;
      WordsJoin(x[1..], y);
    }
  }

  /**
   * A stack machine for postfix text: a numeral pushes the value `interpret`
   * gives that literal, `neg` negates the top, and an operator replaces the
   * top two values by their exact result, failing on a zero divisor.
   */
  function Run(words: seq<string>, stack: seq<int>): Option<seq<int>>
    decreases |words|
  {
    if words == [] then Some(stack)
    else
      var next := PostfixStep(words[0], stack);
      if next.None? then None else Run(words[1..], next.value)
  }

  function PostfixStep(w: string, stack: seq<int>): Option<seq<int>> {
    if |w| > 0 && AllDigits(w) && DigitsValue(w) <= U32Max then
      Some(stack + [AsI32(DigitsValue(w)) as int])
    else if w == "neg" && |stack| >= 1 then
      Some(stack[..|stack| - 1] + [-stack[|stack| - 1]])
    else if |stack| >= 2 && (w == "+" || w == "-" || w == "*" || w == "/") then
      var x, y, below := stack[|stack| - 2], stack[|stack| - 1], stack[..|stack| - 2];
      if w == "+" then Some(below + [x + y])
      else if w == "-" then Some(below + [x - y])
      else if w == "*" then Some(below + [x * y])
      else if y == 0 then None
      else Some(below + [TruncDiv(x, y)])
    else None
  }

  lemma {:induction false} RunAppend(u: seq<string>, v: seq<string>, stack: seq<int>)
    ensures Run(u + v, stack) == (var mid := Run(u, stack); if mid.None? then None else Run(v, mid.value))
    decreases |u|
  {
    if u == [] {
      assert u + v == v;
    } else {
      assert (u + v)[0] == u[0];
      assert (u + v)[1..] == u[1..] + v;
      var next := PostfixStep(u[0], stack);
      if next.Some? {
        RunAppend(u[1..], v, next.value);
      }
    }
  }

  /** The words of an arithmetic tree's postfix text, operands before their operator. */
  function PostfixWords(a: AST): seq<string>
    requires Arithmetic(a)
  {
    match a
    case Number(_, value) => [DecimalString(value)]
    case UnaryOp(_, uop, expr) =>
      if uop == UnaryOperator.Plus then PostfixWords(expr) else PostfixWords(expr) + ["neg"]
    case BinaryOp(_, lhs, op, rhs) => PostfixWords(lhs) + PostfixWords(rhs) + [OpText(op)]
  }

  /** The postfix text splits at its spaces into exactly those words. */
  lemma {:induction false} PostfixSplits(a: AST)
    requires Arithmetic(a)
    ensures Words(ToPostfix(a).value) == PostfixWords(a)
  {
    match a
    case Number(_, value) =>
      OneWord(DecimalString(value));
    case UnaryOp(_, uop, expr) =>
      PostfixSplits(expr);
      if uop == UnaryOperator.Minus {
        NegWords(ToPostfix(expr).value);
      }
    case BinaryOp(_, lhs, op, rhs) =>
      PostfixSplits(lhs);
      PostfixSplits(rhs);
      OperatorWords(ToPostfix(lhs).value, ToPostfix(rhs).value, op);
  }

  lemma {:induction false} NegWords(e: string)
    ensures Words(e + " neg") == Words(e) + ["neg"]
  {
    assert e + " neg" == e + " " + "neg";
    WordsJoin(e, "neg");
    OneWord("neg");
  }

  lemma {:induction false} OperatorWords(l: string, r: string, op: BinaryOperator)
    ensures Words(l + " " + r + " " + OpText(op)) == Words(l) + Words(r) + [OpText(op)]
  {
    assert l + " " + r + " " + OpText(op) == l + " " + (r + " " + OpText(op));
    WordsJoin(l, r + " " + OpText(op));
    WordsJoin(r, OpText(op));
    OneWord(OpText(op));
  }

  /**
   * Run on any stack, the words of a tree push its exact value, and fail
   * exactly when the tree divides by zero.
   */
  lemma {:induction false} RunPostfixWords(a: AST, stack: seq<int>)
    requires Arithmetic(a)
    ensures Run(PostfixWords(a), stack) == (if Exact(a).None? then None else Some(stack + [Exact(a).value]))
  {
    match a
    case Number(_, value) =>
      RunOne(DecimalString(value), stack);
      StepNumeral(value, stack);
    case UnaryOp(_, uop, expr) =>
      RunPostfixWords(expr, stack);
      if uop == UnaryOperator.Minus {
        RunNegated(PostfixWords(expr), stack, Exact(expr));
      }
    case BinaryOp(_, lhs, op, rhs) =>
      RunPostfixWords(lhs, stack);
      if Exact(lhs).Some? {
        RunPostfixWords(rhs, stack + [Exact(lhs).value]);
      }
      RunCombined(PostfixWords(lhs), PostfixWords(rhs), op, stack, Exact(lhs), Exact(rhs));
  }

  /** The words of an operand followed by `neg`. */
  lemma {:induction false} RunNegated(w: seq<string>, stack: seq<int>, x: Option<int>)
    requires Run(w, stack) == (if x.None? then None else Some(stack + [x.value]))
    ensures Run(w + ["neg"], stack) == (if x.None? then None else Some(stack + [-x.value]))
  {
    RunAppend(w, ["neg"], stack);
    if x.Some? {
      RunNeg(stack, x.value);
    }
  }

  /** The words of two operands followed by an operator. */
  lemma {:induction false} RunCombined(lw: seq<string>, rw: seq<string>, op: BinaryOperator, stack: seq<int>, x: Option<int>, y: Option<int>)
    requires Run(lw, stack) == (if x.None? then None else Some(stack + [x.value]))
    requires x.Some? ==> Run(rw, stack + [x.value]) == (if y.None? then None else Some(stack + [x.value] + [y.value]))
    ensures Run(lw + rw + [OpText(op)], stack)
      == (if x.None? || y.None? then None
          else var v := Combine(op, x.value, y.value); if v.None? then None else Some(stack + [v.value]))
  {
    RunAppend(lw + rw, [OpText(op)], stack);
    RunAppend(lw, rw, stack);
    if x.Some? && y.Some? {
      RunOne(OpText(op), stack + [x.value] + [y.value]);
      StepOperator(op, stack, x.value, y.value);
    }
  }

  lemma {:induction false} StepNumeral(value: u32, stack: seq<int>)
    ensures PostfixStep(DecimalString(value), stack) == Some(stack + [AsI32(value) as int])
  {
    DecimalRoundTrip(value);
  }

  lemma {:induction false} RunNeg(stack: seq<int>, x: int)
    ensures Run(["neg"], stack + [x]) == Some(stack + [-x])
  {
    RunOne("neg", stack + [x]);
    StepNeg(stack, x);
  }

  lemma {:induction false} StepNeg(stack: seq<int>, x: int)
    ensures PostfixStep("neg", stack + [x]) == Some(stack + [-x])
  {
    assert !IsDigit('n');
    assert (stack + [x])[..|stack|] == stack;
  }

  lemma {:induction false} StepOperator(op: BinaryOperator, stack: seq<int>, x: int, y: int)
    ensures PostfixStep(OpText(op), stack + [x] + [y])
      == (var v := Combine(op, x, y); if v.None? then None else Some(stack + [v.value]))
  {
    var top := stack + [x] + [y];
    assert top[..|top| - 2] == stack;
    assert !IsDigit(OpText(op)[0]);
  }

  lemma {:induction false} RunOne(w: string, stack: seq<int>)
    ensures Run([w], stack) == PostfixStep(w, stack)
  {
    assert [w][1..] == [];
  }

  /**
   * The postfix text of an arithmetic tree is a program for the stack
   * machine that leaves the tree's exact value on the stack, and it fails
   * exactly when the tree divides by zero.
   */
  lemma {:induction false} PostfixComputesValue(a: AST)
    requires Arithmetic(a)
    ensures Run(Words(ToPostfix(a).value), []) == (if Exact(a).None? then None else Some([Exact(a).value]))
  {
    PostfixSplits(a);
    RunPostfixWords(a, []);
    if Exact(a).Some? {
      assert [] + [Exact(a).value] == [Exact(a).value];
    }
  }

  // ------------------------------------------- s-expressions as a program

  /** The text with every parenthesis removed. */
  function StripParens(s: string): (t: string)
    ensures NoParens(t)
  {
    if s == [] then []
    else if s[0] == '(' || s[0] == ')' then StripParens(s[1..])
    else [s[0]] + StripParens(s[1..])
  }

  lemma {:induction false} StripAppend(x: string, y: string)
    ensures StripParens(x + y) == StripParens(x) + StripParens(y)
  {
    if x == [] {
      assert x + y == y;
    } else {
      assert (x + y)[0] == x[0];
      assert (x + y)[1..] == x[1..] + y;
      StripAppend(x[1..], y);
    }
  }

  lemma {:induction false} StripFlat(s: string)
    requires NoParens(s)
    ensures StripParens(s) == s
  {
    if s != [] {
      StripFlat(s[1..]);
      assert [s[0]] + s[1..] == s;
    }
  }

  /** The words of an arithmetic tree's s-expression, operator before its operands. */
  function PrefixWords(a: AST): seq<string>
    requires Arithmetic(a)
  {
    match a
    case Number(_, value) => [DecimalString(value)]
    case UnaryOp(_, uop, expr) =>
      if uop == UnaryOperator.Plus then PrefixWords(expr) else ["neg"] + PrefixWords(expr)
    case BinaryOp(_, lhs, op, rhs) => [OpText(op)] + PrefixWords(lhs) + PrefixWords(rhs)
  }

  /** Without its parentheses, the s-expression splits at its spaces into exactly those words. */
  lemma {:induction false} SExprSplits(a: AST)
    requires Arithmetic(a)
    ensures Words(StripParens(ToSExpr(a).value)) == PrefixWords(a)
  {
    match a
    case Number(_, value) =>
      NumeralWords(DecimalString(value));
    case UnaryOp(_, uop, expr) =>
      SExprSplits(expr);
      if uop == UnaryOperator.Minus {
        NegatedWords(ToSExpr(expr).value);
      }
    case BinaryOp(_, lhs, op, rhs) =>
      SExprSplits(lhs);
      SExprSplits(rhs);
      OperatorListWords(OpText(op), ToSExpr(lhs).value, ToSExpr(rhs).value);
  }

  lemma {:induction false} NumeralWords(s: string)
    requires AllDigits(s)
    ensures Words(StripParens(s)) == [s]
  {
    DigitsHaveNoParens(s);
    StripFlat(s);
    OneWord(s);
  }

  lemma {:induction false} NegatedWords(e: string)
    ensures Words(StripParens("(" + ("neg " + e) + ")")) == ["neg"] + Words(StripParens(e))
  {
    StripNegated(e);
    NegPrefixWords(StripParens(e));
  }

  lemma {:induction false} StripNegated(e: string)
    ensures StripParens("(" + ("neg " + e) + ")") == "neg " + StripParens(e)
  {
    StripWrapped("neg " + e);
    StripAppend("neg ", e);
    StripFlat("neg ");
  }

  lemma {:induction false} NegPrefixWords(x: string)
    ensures Words("neg " + x) == ["neg"] + Words(x)
  {
    assert "neg " + x == "neg" + " " + x;
    WordsJoin("neg", x);
    OneWord("neg");
  }

  lemma {:induction false} OperatorListWords(o: string, l: string, r: string)
    requires |o| == 1 && o[0] != '(' && o[0] != ')' && o[0] != ' '
    ensures Words(StripParens("(" + (o + " " + l + " " + r) + ")")) == [o] + Words(StripParens(l)) + Words(StripParens(r))
  {
    StripOperatorList(o, l, r);
    PrefixOperatorWords(o, StripParens(l), StripParens(r));
  }

  lemma {:induction false} StripWrapped(s: string)
    ensures StripParens("(" + s + ")") == StripParens(s)
  {
    StripAppend("(" + s, ")");
    StripAppend("(", s);
  }

  lemma {:induction false} StripOperatorList(o: string, l: string, r: string)
    requires |o| == 1 && NoParens(o)
    ensures StripParens("(" + (o + " " + l + " " + r) + ")") == o + " " + StripParens(l) + " " + StripParens(r)
  {
    StripWrapped(o + " " + l + " " + r);
    StripAppend(o + " " + l + " ", r);
    StripAppend(o + " " + l, " ");
    StripAppend(o + " ", l);
    StripFlat(o + " ");
    StripFlat(" ");
  }

  lemma {:induction false} PrefixOperatorWords(o: string, l: string, r: string)
    requires NoSpace(o)
    ensures Words(o + " " + l + " " + r) == [o] + Words(l) + Words(r)
  {
    assert o + " " + l + " " + r == o + " " + (l + " " + r);
    WordsJoin(o, l + " " + r);
    WordsJoin(l, r);
    OneWord(o);
  }

  /**
   * A stack machine for prefix words, run from the last word to the first:
   * the operands of an operator are then on the stack, the left one on top.
   */
  function RunPrefix(words: seq<string>, stack: seq<int>): Option<seq<int>>
    decreases |words|
  {
    if words == [] then Some(stack)
    else
      var after := RunPrefix(words[1..], stack);
      if after.None? then None else PrefixStep(words[0], after.value)
  }

  /** One prefix word: the postfix step, with the two operands of an operator taken in the other order. */
  function PrefixStep(w: string, stack: seq<int>): Option<seq<int>> {
    if |stack| >= 2 && (w == "+" || w == "-" || w == "*" || w == "/") then
      PostfixStep(w, stack[..|stack| - 2] + [stack[|stack| - 1], stack[|stack| - 2]])
    else PostfixStep(w, stack)
  }

  lemma {:induction false} RunPrefixAppend(u: seq<string>, v: seq<string>, stack: seq<int>)
    ensures RunPrefix(u + v, stack) == (var mid := RunPrefix(v, stack); if mid.None? then None else RunPrefix(u, mid.value))
    decreases |u|
  {
    if u == [] {
      assert u + v == v;
    } else {
      assert (u + v)[0] == u[0];
      assert (u + v)[1..] == u[1..] + v;
      RunPrefixAppend(u[1..], v, stack);
    }
  }

  lemma {:induction false} RunPrefixOne(w: string, stack: seq<int>)
    ensures RunPrefix([w], stack) == PrefixStep(w, stack)
  {
    assert [w][1..] == [];
  }

  /**
   * Run on any stack, the prefix words of a tree push its exact value, and
   * fail exactly when the tree divides by zero.
   */
  lemma {:induction false} RunPrefixWords(a: AST, stack: seq<int>)
    requires Arithmetic(a)
    ensures RunPrefix(PrefixWords(a), stack) == (if Exact(a).None? then None else Some(stack + [Exact(a).value]))
  {
    match a
    case Number(_, value) =>
      RunPrefixOne(DecimalString(value), stack);
      StepNumeral(value, stack);
    case UnaryOp(_, uop, expr) =>
      RunPrefixWords(expr, stack);
      if uop == UnaryOperator.Minus {
        RunPrefixNegated(PrefixWords(expr), stack, Exact(expr));
      }
    case BinaryOp(_, lhs, op, rhs) =>
      RunPrefixWords(rhs, stack);
      if Exact(rhs).Some? {
        RunPrefixWords(lhs, stack + [Exact(rhs).value]);
      }
      RunPrefixCombined(PrefixWords(lhs), PrefixWords(rhs), op, stack, Exact(lhs), Exact(rhs));
  }

  /** `neg` followed by the words of an operand. */
  lemma {:induction false} RunPrefixNegated(w: seq<string>, stack: seq<int>, x: Option<int>)
    requires RunPrefix(w, stack) == (if x.None? then None else Some(stack + [x.value]))
    ensures RunPrefix(["neg"] + w, stack) == (if x.None? then None else Some(stack + [-x.value]))
  {
    RunPrefixAppend(["neg"], w, stack);
    if x.Some? {
      RunPrefixOne("neg", stack + [x.value]);
      StepNeg(stack, x.value);
    }
  }

  /** An operator followed by the words of its two operands. */
  lemma {:induction false} RunPrefixCombined(lw: seq<string>, rw: seq<string>, op: BinaryOperator, stack: seq<int>, x: Option<int>, y: Option<int>)
    requires RunPrefix(rw, stack) == (if y.None? then None else Some(stack + [y.value]))
    requires y.Some? ==> RunPrefix(lw, stack + [y.value]) == (if x.None? then None else Some(stack + [y.value] + [x.value]))
    ensures RunPrefix([OpText(op)] + lw + rw, stack)
      == (if x.None? || y.None? then None
          else var v := Combine(op, x.value, y.value); if v.None? then None else Some(stack + [v.value]))
  {
    assert [OpText(op)] + lw + rw == [OpText(op)] + (lw + rw);
    RunPrefixAppend([OpText(op)], lw + rw, stack);
    RunPrefixAppend(lw, rw, stack);
    if x.Some? && y.Some? {
      RunPrefixOperator(op, stack, x.value, y.value);
    }
  }

  /** An operator word, with its left operand on top of its right one. */
  lemma {:induction false} RunPrefixOperator(op: BinaryOperator, stack: seq<int>, x: int, y: int)
    ensures RunPrefix([OpText(op)], stack + [y] + [x])
      == (var v := Combine(op, x, y); if v.None? then None else Some(stack + [v.value]))
  {
    var top := stack + [y] + [x];
    RunPrefixOne(OpText(op), top);
    assert top[..|top| - 2] + [top[|top| - 1], top[|top| - 2]] == stack + [x] + [y];
    StepOperator(op, stack, x, y);
  }

  /**
   * The s-expression of an arithmetic tree, with its parentheses dropped, is
   * a program for the prefix stack machine that leaves the tree's exact
   * value on the stack, and it fails exactly when the tree divides by zero.
   */
  lemma {:induction false} SExprComputesValue(a: AST)
    requires Arithmetic(a)
    ensures RunPrefix(Words(StripParens(ToSExpr(a).value)), []) == (if Exact(a).None? then None else Some([Exact(a).value]))
  {
    SExprSplits(a);
    RunPrefixWords(a, []);
    if Exact(a).Some? {
      assert [] + [Exact(a).value] == [Exact(a).value];
    }
  }
}
