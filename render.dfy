/**
 * The two printers of src/render.rs. Each accepts the arithmetic node kinds
 * only; any other node is the source's "not implemented" panic, here `None`.
 */
module Render {

  import opened Wrappers
  import opened Chars
  import opened Ast

  /** The string has no parentheses. */
  predicate NoParens(s: string) {
    forall i :: 0 <= i < |s| ==> s[i] != '(' && s[i] != ')'
  }

  /** Opening minus closing parentheses. */
  function Depth(s: string): int {
    if s == [] then 0
    else (if s[0] == '(' then 1 else if s[0] == ')' then -1 else 0) + Depth(s[1..])
  }

  /** Every `)` closes an earlier `(` and none is left open. */
  predicate Balanced(s: string) {
    Depth(s) == 0 && forall k :: 0 <= k <= |s| ==> Depth(s[..k]) >= 0
  }

  /** `to_postfix`: operands first, operator last, `neg` for unary minus. */
  function ToPostfix(a: AST): (r: Option<string>)
    ensures r.Some? <==> Arithmetic(a)
    ensures r.Some? ==> NoParens(r.value)
  {
    match a
    case Number(_, value) =>
      DigitsHaveNoParens(DecimalString(value));
      Some(DecimalString(value))
    case UnaryOp(_, uop, expr) =>
      var e := ToPostfix(expr);
      if e.None? then None
      else if uop == UnaryOperator.Plus then e
      else Some(e.value + " neg")
    case BinaryOp(_, lhs, op, rhs) =>
      var l, r := ToPostfix(lhs), ToPostfix(rhs);
      if l.None? || r.None? then None
      else Some(l.value + " " + r.value + " " + OpText(op))
    case _ => None
  }

  /** `to_s_expr`: a parenthesised prefix form, `(neg x)` for unary minus. */
  function ToSExpr(a: AST): (r: Option<string>)
    ensures r.Some? <==> Arithmetic(a)
    ensures r.Some? ==> Balanced(r.value)
  {
    match a
    case Number(_, value) =>
      DigitsHaveNoParens(DecimalString(value));
      FlatIsBalanced(DecimalString(value));
      Some(DecimalString(value))
    case UnaryOp(_, uop, expr) =>
      var e := ToSExpr(expr);
      if e.None? then None
      else if uop == UnaryOperator.Plus then e
      else
        FlatIsBalanced("neg ");
        BalancedJoin("neg ", e.value);
        BalancedWrap("neg " + e.value);
        Some("(" + ("neg " + e.value) + ")")
    case BinaryOp(_, lhs, op, rhs) =>
      var l, r := ToSExpr(lhs), ToSExpr(rhs);
      if l.None? || r.None? then None
      else
        FlatIsBalanced(OpText(op) + " ");
        FlatIsBalanced(" ");
        BalancedJoin(OpText(op) + " ", l.value);
        BalancedJoin(OpText(op) + " " + l.value, " ");
        BalancedJoin(OpText(op) + " " + l.value + " ", r.value);
        BalancedWrap(OpText(op) + " " + l.value + " " + r.value);
        Some("(" + (OpText(op) + " " + l.value + " " + r.value) + ")")
    case _ => None
  }

  lemma DigitsHaveNoParens(s: string)
    requires AllDigits(s)
    ensures NoParens(s)
  {
  }

  lemma {:induction false} DepthAppend(a: string, b: string)
    ensures Depth(a + b) == Depth(a) + Depth(b)
  {
    if a != [] {
      assert (a + b)[1..] == a[1..] + b;
      DepthAppend(a[1..], b);
    } else {
      assert a + b == b;
    }
  }

  lemma {:induction false} FlatDepth(s: string)
    requires NoParens(s)
    ensures Depth(s) == 0
  {
    if s != [] {
      FlatDepth(s[1..]);
    }
  }

  lemma FlatIsBalanced(s: string)
    requires NoParens(s)
    ensures Balanced(s)
  {
    FlatDepth(s);
    forall k | 0 <= k <= |s| ensures Depth(s[..k]) >= 0 {
      FlatDepth(s[..k]);
    }
  }

  lemma BalancedJoin(a: string, b: string)
    requires Balanced(a) && Balanced(b)
    ensures Balanced(a + b)
  {
    DepthAppend(a, b);
    forall k | 0 <= k <= |a + b| ensures Depth((a + b)[..k]) >= 0 {
      if k <= |a| {
        assert (a + b)[..k] == a[..k];
      } else {
        assert (a + b)[..k] == a + b[..k - |a|];
        DepthAppend(a, b[..k - |a|]);
      }
    }
  }

  lemma BalancedWrap(s: string)
    requires Balanced(s)
    ensures Balanced("(" + s + ")")
  {
    var w := "(" + s + ")";
    DepthAppend("(" + s, ")");
    DepthAppend("(", s);
    forall k | 0 <= k <= |w| ensures Depth(w[..k]) >= 0 {
      if k == 0 {
        assert w[..k] == [];
      } else if k <= |s| + 1 {
        assert w[..k] == "(" + s[..k - 1];
        DepthAppend("(", s[..k - 1]);
      } else {
        assert w[..k] == w;
      }
    }
  }
}
