/**
 * What `interpret` promises: Rust's division, evaluation order, which rule
 * writes the scope, the value of a `Compound`, and the agreement of `i32`
 * evaluation with exact integer arithmetic.
 */
module InterpreterProperties {

  import opened Wrappers
  import opened Chars
  import Tokens
  import opened Ast
  import opened Interpreter

  lemma MulMonotone(x: nat, y: nat, z: nat)
    requires y <= z
    ensures x * y <= x * z
  {
  }

  /** Rust's `/` rounds toward zero: the remainder is smaller than the divisor and has the dividend's sign. */
  lemma TruncDivRoundsTowardZero(a: int, b: int)
    requires b != 0
    ensures var q := TruncDiv(a, b); var m := a - q * b;
      Abs(m) < Abs(b) && (m == 0 || (m < 0 <==> a < 0)) && Abs(q) <= Abs(a)
  {
    var q := TruncDiv(a, b);
    var Q, R, p := QuotientParts(a, b);
    RemainderSign(a, b, q, q * b, Q, R, p);
  }

  /** The quotient and remainder of the magnitudes, and the product `q * b` as a signed copy of `Q * |b|`. */
  lemma QuotientParts(a: int, b: int) returns (Q: int, R: int, p: int)
    requires b != 0
    ensures Abs(a) == p + R && 0 <= R < Abs(b) && 0 <= Q <= Abs(a)
    ensures TruncDiv(a, b) == Q || TruncDiv(a, b) == -Q
    ensures a >= 0 ==> TruncDiv(a, b) * b == p
    ensures a < 0 ==> TruncDiv(a, b) * b == -p
  {
    var B := Abs(b);
    Q, R := MagnitudeParts(Abs(a), B);
    p := Q * B;
    ProductSign(a, b, TruncDiv(a, b), Q, B, p);
  }

  /** `q * b` for `q` a signed copy of `Q`: the sign follows the dividend's. */
  lemma ProductSign(a: int, b: int, q: int, Q: int, B: int, p: int)
    requires b != 0 && B == Abs(b) && p == Q * B
    requires q == (if (a < 0) == (b < 0) then Q else -Q)
    ensures a >= 0 ==> q * b == p
    ensures a < 0 ==> q * b == -p
  {
    if a >= 0 && b > 0 {
    } else if a >= 0 {
      NegTimesNeg(Q, B);
    } else if b > 0 {
      NegTimes(Q, B);
    } else {
      TimesNeg(Q, B);
    }
  }

  lemma RemainderSign(a: int, b: int, q: int, qb: int, Q: int, R: int, p: int)
    requires b != 0 && Abs(a) == p + R && 0 <= R < Abs(b) && 0 <= Q <= Abs(a)
    requires q == Q || q == -Q
    requires a >= 0 ==> qb == p
    requires a < 0 ==> qb == -p
    ensures var m := a - qb; Abs(m) < Abs(b) && (m == 0 || (m < 0 <==> a < 0)) && Abs(q) <= Abs(a)
  {
  }

  /** Quotient and remainder of two magnitudes. */
  lemma MagnitudeParts(A: nat, B: nat) returns (Q: nat, R: nat)
    requires B > 0
    ensures Q == A / B && R == A % B
    ensures A == Q * B + R && 0 <= R < B && Q <= A
  {
    Q, R := A / B, A % B;
    MulMonotone(Q, 1, B);
  }

  lemma NegTimes(x: int, y: int)
    ensures (-x) * y == -(x * y)
  {
  }

  lemma TimesNeg(x: int, y: int)
    ensures x * (-y) == -(x * y)
  {
  }

  lemma NegTimesNeg(x: int, y: int)
    ensures (-x) * (-y) == x * y
  {
  }

  /** On a non-negative dividend and a positive divisor Rust's and Dafny's division agree. */
  lemma TruncDivOfNatural(a: int, b: int)
    requires a >= 0 && b > 0
    ensures TruncDiv(a, b) == a / b
  {
  }

  /** An `i32` division by a non-zero divisor overflows exactly for the minimum divided by -1. */
  lemma DivisionOverflow(l: i32, r: i32)
    requires r != 0
    ensures Apply(BinaryOperator.Divide, l, r) == Err(Overflow) <==> l == I32Min && r == -1
  {
    QuotientInRange(l, r);
  }

  lemma QuotientInRange(l: i32, r: i32)
    requires r != 0
    ensures I32Min <= TruncDiv(l, r) <= I32Max <==> !(l == I32Min && r == -1)
  {
    if r == -1 {
      assert Abs(l) / 1 == Abs(l);
    } else if r == 1 {
      assert Abs(l) / 1 == Abs(l);
    } else {
      HalvedQuotient(Abs(l), Abs(r));
    }
  }

  lemma HalvedQuotient(A: nat, B: nat)
    requires B >= 2
    ensures 2 * (A / B) <= A
  {
    var Q, R := MagnitudeParts(A, B);
    MulMonotone(Q, 2, B);
  }

  // ---------------------------------------------------------------- the scope

  /** The names a tree's `Assign` nodes may bind. */
  function Assigns(a: AST): set<string>
    decreases a, 1
  {
    match a
    case Compound(children) => AssignsAll(children)
    case Assign(_, left, right) => {left} + Assigns(right)
    case UnaryOp(_, _, expr) => Assigns(expr)
    case BinaryOp(_, lhs, _, rhs) => Assigns(lhs) + Assigns(rhs)
    case _ => {}
  }

  function AssignsAll(children: seq<AST>): set<string>
    decreases children, 0
  {
    if children == [] then {} else Assigns(children[0]) + AssignsAll(children[1..])
  }

  /**
   * `after` keeps every binding of `before` and binds no name outside
   * `written` differently from `before`.
   */
  predicate Keeps(before: Env, after: Env, written: set<string>) {
    before.Keys <= after.Keys &&
    forall n :: n in after && n !in written ==> n in before && after[n] == before[n]
  }

  lemma KeepsTrans(a: Env, b: Env, c: Env, w1: set<string>, w2: set<string>)
    requires Keeps(a, b, w1) && Keeps(b, c, w2)
    ensures Keeps(a, c, w1 + w2)
  {
  }

  /**
   * `Assign` is the only rule that writes the scope: evaluation, faulting or
   * not, keeps every existing binding and changes or adds only names the
   * tree assigns.
   */
  lemma {:induction false} OnlyAssignWrites(a: AST, env: Env)
    ensures Keeps(env, Eval(a, env).scope, Assigns(a))
    decreases a, 1
  {
    match a
    case Compound(children) => OnlyAssignWritesAll(children, env, 0);
    case Assign(_, left, right) =>
      OnlyAssignWrites(right, env);
    case UnaryOp(_, _, expr) =>
      OnlyAssignWrites(expr, env);
    case BinaryOp(_, lhs, _, rhs) =>
      var l := Eval(lhs, env);
      OnlyAssignWrites(lhs, env);
      if l.value.Ok? {
        OnlyAssignWrites(rhs, l.scope);
        KeepsTrans(env, l.scope, Eval(rhs, l.scope).scope, Assigns(lhs), Assigns(rhs));
      }
    case Number(_, _) =>
    case Variable(_, _) =>
  }

  lemma {:induction false} OnlyAssignWritesAll(children: seq<AST>, env: Env, last: i32)
    ensures Keeps(env, EvalSeq(children, env, last).scope, AssignsAll(children))
    decreases children, 0
  {
    if children != [] {
      var first := Eval(children[0], env);
      OnlyAssignWrites(children[0], env);
      if first.value.Ok? {
        OnlyAssignWritesAll(children[1..], first.scope, first.value.value);
        KeepsTrans(env, first.scope, EvalSeq(children[1..], first.scope, first.value.value).scope,
          Assigns(children[0]), AssignsAll(children[1..]));
      }
    }
  }

  /** A tree of numbers and operators, the only trees the parser builds, leaves the scope as it was. */
  lemma {:induction false} ArithmeticKeepsScope(a: AST, env: Env)
    requires Arithmetic(a)
    ensures Eval(a, env).scope == env
  {
    match a
    case UnaryOp(_, _, expr) => ArithmeticKeepsScope(expr, env);
    case BinaryOp(_, lhs, _, rhs) =>
      ArithmeticKeepsScope(lhs, env);
      ArithmeticKeepsScope(rhs, env);
    case Number(_, _) =>
  }

  /** `name := right` has the value `right` had, binds the name to it, and a read of the name right after gives it back. */
  lemma AssignThenRead(t: Token, name: string, right: AST, v: Token, env: Env)
    requires Eval(right, env).value.Ok?
    ensures Eval(Assign(t, name, right), env).value == Eval(right, env).value
    ensures Lookup(Eval(Assign(t, name, right), env).scope, name) == Eval(right, env).value
    ensures Eval(Compound([Assign(t, name, right), Variable(v, name)]), env).value == Eval(right, env).value
  {
    var r := Eval(right, env);
    var scope := r.scope[name := r.value.value];
    assert Eval(Assign(t, name, right), env) == Evaluated(r.value, scope);
    assert Eval(Variable(v, name), scope) == Evaluated(r.value, scope);
    assert [Assign(t, name, right), Variable(v, name)][1..] == [Variable(v, name)];
    SingleChild(Variable(v, name), scope, r.value.value);
  }

  /** `assign` then `get`: the name reads the new value and every other name reads what it read before. */
  lemma AssignThenGet(env: Env, name: string, value: i32, other: string)
    ensures Lookup(env[name := value], name) == Ok(value)
    ensures other != name ==> Lookup(env[name := value], other) == Lookup(env, other)
  {
  }

  /** Reading a name never assigned is a fault. */
  lemma UnboundNameFaults(t: Token, name: string, env: Env)
    requires name !in env
    ensures Eval(Variable(t, name), env) == Evaluated(Err(Unbound(name)), env)
  {
  }

  // ------------------------------------------------------------- compound

  /** A `Compound` with no children evaluates to 0. */
  lemma EmptyCompound(env: Env)
    ensures Eval(Compound([]), env) == Evaluated(Ok(0), env)
  {
  }

  /**
   * Children run in order, threading the scope: a child appended to a
   * compound runs after all the others, in the scope they leave, and its
   * value is the compound's.
   */
  lemma CompoundSnoc(children: seq<AST>, c: AST, env: Env)
    ensures Eval(Compound(children + [c]), env)
      == (var before := Eval(Compound(children), env);
          if before.value.Err? then before else Eval(c, before.scope))
  {
    EvalSeqSnoc(children, c, env, 0);
  }

  lemma {:induction false} EvalSeqSnoc(children: seq<AST>, c: AST, env: Env, last: i32)
    ensures EvalSeq(children + [c], env, last)
      == (var before := EvalSeq(children, env, last);
          if before.value.Err? then before else EvalSeq([c], before.scope, before.value.value))
    decreases children
  {
    if children == [] {
      assert children + [c] == [c];
    } else {
      assert (children + [c])[0] == children[0];
      assert (children + [c])[1..] == children[1..] + [c];
      var first := Eval(children[0], env);
      if first.value.Ok? {
        EvalSeqSnoc(children[1..], c, first.scope, first.value.value);
      }
    }
  }

  lemma SingleChild(c: AST, env: Env, last: i32)
    ensures EvalSeq([c], env, last) == Eval(c, env)
  {
    assert [c][1..] == [];
  }

  // ------------------------------------------------------------ order

  /**
   * A binary node runs its operands as a `Compound` of the two would: the
   * left one first, the right one in the scope the left one leaves, and the
   * first fault ends it. When both succeed the operator combines the values.
   */
  lemma {:induction false} LeftOperandFirst(t: Token, lhs: AST, op: BinaryOperator, rhs: AST, env: Env)
    ensures var node := Eval(BinaryOp(t, lhs, op, rhs), env);
      var both := Eval(Compound([lhs, rhs]), env);
      node.scope == both.scope &&
      (both.value.Err? ==> node == both) &&
      (both.value.Ok? ==> Eval(lhs, env).value.Ok? && node.value == Apply(op, Eval(lhs, env).value.value, both.value.value))
  {
    var l := Eval(lhs, env);
    if l.value.Ok? {
      assert [lhs, rhs][1..] == [rhs];
      SingleChild(rhs, l.scope, l.value.value);
    }
  }

  /** `(x := 1) + x` is 2: the right operand reads the binding the left one made. Alone, `x` would be unbound. */
  lemma LeftAssignmentVisibleToRight(t: Token)
    ensures Eval(BinaryOp(Tokens.Plus, Assign(t, "x", Number(Tokens.IntegerLiteral(1), 1)), BinaryOperator.Plus,
                          Variable(Tokens.Identifier("x"), "x")), map[])
      == Evaluated(Ok(2), map["x" := 1])
    ensures Eval(Variable(Tokens.Identifier("x"), "x"), map[]).value.Err?
  {
    var one := Number(Tokens.IntegerLiteral(1), 1);
    assert Eval(one, map[]) == Evaluated(Ok(1), map[]);
    assert Eval(Assign(t, "x", one), map[]) == Evaluated(Ok(1), map["x" := 1]);
    assert Eval(Variable(Tokens.Identifier("x"), "x"), map["x" := 1]) == Evaluated(Ok(1), map["x" := 1]);
    assert Apply(BinaryOperator.Plus, 1, 1) == Ok(2);
  }

  /** `x := 2; y := x * 10 + 5` leaves `x` bound to 2 and `y` to 25. */
  lemma AssignmentProgram(t: Token)
    ensures Eval(Compound([
        Assign(t, "x", Number(Tokens.IntegerLiteral(2), 2)),
        Assign(t, "y", BinaryOp(Tokens.Plus,
          BinaryOp(Tokens.Multiply, Variable(Tokens.Identifier("x"), "x"), BinaryOperator.Multiply,
                   Number(Tokens.IntegerLiteral(10), 10)),
          BinaryOperator.Plus, Number(Tokens.IntegerLiteral(5), 5)))
      ]), map[])
      == Evaluated(Ok(25), map["x" := 2, "y" := 25])
  {
    var assignX := Assign(t, "x", Number(Tokens.IntegerLiteral(2), 2));
    var product := BinaryOp(Tokens.Multiply, Variable(Tokens.Identifier("x"), "x"), BinaryOperator.Multiply,
                            Number(Tokens.IntegerLiteral(10), 10));
    var sum := BinaryOp(Tokens.Plus, product, BinaryOperator.Plus, Number(Tokens.IntegerLiteral(5), 5));
    var assignY := Assign(t, "y", sum);
    CompoundSnoc([assignX], assignY, map[]);
    assert [assignX] + [assignY] == [assignX, assignY];
    SingleChild(assignX, map[], 0);
    assert Eval(Compound([assignX]), map[]) == Evaluated(Ok(2), map["x" := 2]);
    assert Eval(product, map["x" := 2]).value == Ok(20);
    assert Eval(sum, map["x" := 2]).value == Ok(25);
  }

  // ------------------------------------------------------ exact arithmetic

  /**
   * The value of an arithmetic tree in unbounded integers, with Rust's
   * rounding of division; `None` for a zero divisor.
   */
  function Exact(a: AST): Option<int>
    requires Arithmetic(a)
  {
    match a
    case Number(_, value) => Some(AsI32(value) as int)
    case UnaryOp(_, uop, expr) =>
      var e := Exact(expr);
      if e.None? then None
      else if uop == UnaryOperator.Plus then e
      else Some(-e.value)
    case BinaryOp(_, lhs, op, rhs) =>
      var l, r := Exact(lhs), Exact(rhs);
      if l.None? || r.None? then None else Combine(op, l.value, r.value)
  }

  /** A binary operator on unbounded integers; `None` for a zero divisor. */
  function Combine(op: BinaryOperator, x: int, y: int): Option<int> {
    match op
    case Plus => Some(x + y)
    case Minus => Some(x - y)
    case Multiply => Some(x * y)
    case Divide => if y == 0 then None else Some(TruncDiv(x, y))
  }

  /** Every node of `a` has an exact value, and each of them fits in an `i32`. */
  predicate Fits(a: AST)
    requires Arithmetic(a)
  {
    Exact(a).Some? && I32Min <= Exact(a).value <= I32Max &&
    match a
    case UnaryOp(_, _, expr) => Fits(expr)
    case BinaryOp(_, lhs, _, rhs) => Fits(lhs) && Fits(rhs)
    case Number(_, _) => true
  }

  /**
   * `i32` evaluation of an arithmetic tree succeeds exactly when no node
   * divides by zero or leaves the `i32` range, and then it yields the exact
   * integer value.
   */
  lemma {:induction false} EvalIsExact(a: AST, env: Env)
    requires Arithmetic(a)
    ensures Eval(a, env).value.Ok? <==> Fits(a)
    ensures Eval(a, env).value.Ok? ==> Eval(a, env).value.value == Exact(a).value
  {
    match a
    case Number(_, _) =>
    case UnaryOp(_, _, expr) =>
      EvalIsExact(expr, env);
    case BinaryOp(_, lhs, op, rhs) =>
      EvalIsExact(lhs, env);
      ArithmeticKeepsScope(lhs, env);
      EvalIsExact(rhs, env);
  }
}
