/**
 * The tree-walking evaluator (src/interpreter.rs). `Eval` states what
 * `interpret` computes from a tree and the bindings before it; the `Scope`
 * class holds the bindings and `Interpret` is proved to compute `Eval`.
 *
 * Where the source panics (an unbound name, a zero divisor, an `i32`
 * overflow) the model returns a `Fault` and evaluation stops there.
 */
module Interpreter {

  import opened Wrappers
  import opened Chars
  import Ast

  const I32Min: int := -0x8000_0000
  const I32Max: int := 0x7FFF_FFFF

  type i32 = x: int | I32Min <= x <= I32Max

  /** Why evaluation stopped: the source panics in each of these cases. */
  datatype Fault = Unbound(name: string) | DivideByZero | Overflow

  /** The symbol table of a `Scope`. */
  type Env = map<string, i32>

  /** The value of a tree, or the fault it stopped at, with the bindings left after it. */
  datatype Evaluated = Evaluated(value: Result<i32, Fault>, scope: Env)

  /** `*value as i32`: the literal's 32 bits read as a two's-complement number. */
  function AsI32(v: u32): (r: i32)
    ensures (v - r) % 0x1_0000_0000 == 0
    ensures r >= 0 <==> v <= I32Max
  {
    if v <= I32Max then v else v - 0x1_0000_0000
  }

  /** An exact result, or `Overflow` when it does not fit in an `i32`. */
  function Checked(x: int): (r: Result<i32, Fault>)
    ensures r.Ok? <==> I32Min <= x <= I32Max
    ensures r.Ok? ==> r.value == x
    ensures r.Err? ==> r.error == Overflow
  {
    if I32Min <= x <= I32Max then Ok(x) else Err(Overflow)
  }

  function Abs(x: int): nat {
    if x < 0 then -x else x
  }

  /** Rust's integer `/`: the quotient rounded toward zero. */
  function TruncDiv(a: int, b: int): (q: int)
    requires b != 0
    ensures Abs(q) == Abs(a) / Abs(b)
    ensures q < 0 ==> (a < 0) != (b < 0)
    ensures q > 0 ==> (a < 0) == (b < 0)
  {
    var m: int := MagnitudeQuotient(Abs(a), Abs(b));
    if (a < 0) == (b < 0) then m else -m
  }

  /** The quotient of two magnitudes, itself a magnitude. */
  function MagnitudeQuotient(A: nat, B: nat): nat
    requires B > 0
  {
    A / B
  }

  /** `-expr_value`. */
  function Negate(v: i32): (r: Result<i32, Fault>)
    ensures r.Ok? ==> r.value == -(v as int)
    ensures r.Err? <==> v == I32Min
  {
    Checked(-(v as int))
  }

  /** The `i32` arithmetic of a binary node. */
  function Apply(op: Ast.BinaryOperator, l: i32, r: i32): (v: Result<i32, Fault>)
    ensures v == Err(DivideByZero) <==> op == Ast.BinaryOperator.Divide && r == 0
    ensures op == Ast.BinaryOperator.Plus ==> v == Checked(l + r)
    ensures op == Ast.BinaryOperator.Minus ==> v == Checked(l - r)
    ensures op == Ast.BinaryOperator.Multiply ==> v == Checked(l * r)
    ensures op == Ast.BinaryOperator.Divide && r != 0 ==> v == Checked(TruncDiv(l, r))
  {
    match op
    case Plus => Checked(l + r)
    case Minus => Checked(l - r)
    case Multiply => Checked(l * r)
    case Divide => if r == 0 then Err(DivideByZero) else Checked(TruncDiv(l, r))
  }

  /** `Scope::get`: the binding of `name`, which must exist. */
  function Lookup(env: Env, name: string): (r: Result<i32, Fault>)
    ensures r.Ok? <==> name in env
    ensures r.Ok? ==> r.value == env[name]
    ensures r.Err? ==> r.error == Unbound(name)
  {
    if name in env then Ok(env[name]) else Err(Unbound(name))
  }

  /**
   * `interpret`: the value of `a` evaluated with bindings `env`, and the
   * bindings after it. Operands are evaluated left to right, each seeing the
   * bindings the one before it left; the first fault ends evaluation.
   */
  function Eval(a: Ast.AST, env: Env): (r: Evaluated)
    ensures env.Keys <= r.scope.Keys
    decreases a, 1
  {
    match a
    case Compound(children) => EvalSeq(children, env, 0)
    case Assign(_, left, right) =>
      var rhs := Eval(right, env);
      if rhs.value.Err? then rhs
      else Evaluated(rhs.value, rhs.scope[left := rhs.value.value])
    case UnaryOp(_, uop, expr) =>
      var operand := Eval(expr, env);
      if operand.value.Err? then operand
      else if uop == Ast.UnaryOperator.Plus then operand
      else Evaluated(Negate(operand.value.value), operand.scope)
    case BinaryOp(_, lhs, op, rhs) =>
      var l := Eval(lhs, env);
      if l.value.Err? then l
      else
        var r := Eval(rhs, l.scope);
        if r.value.Err? then r
        else Evaluated(Apply(op, l.value.value, r.value.value), r.scope)
    case Number(_, value) => Evaluated(Ok(AsI32(value)), env)
    case Variable(_, name) => Evaluated(Lookup(env, name), env)
  }

  /** The fold of `Compound` over `children` from the value `last`: each child's value replaces `last`. */
  function EvalSeq(children: seq<Ast.AST>, env: Env, last: i32): (r: Evaluated)
    ensures env.Keys <= r.scope.Keys
    decreases children, 0
  {
    if children == [] then Evaluated(Ok(last), env)
    else
      var first := Eval(children[0], env);
      if first.value.Err? then first
      else EvalSeq(children[1..], first.scope, first.value.value)
  }

  /** `Scope`: the symbol table `interpret` reads and writes. */
  class Scope {
    var symbols: Env

    /** `Scope::new`: no bindings. */
    constructor ()
      ensures symbols == map[]
    {
      symbols := map[];
    }

    /** `assign`: binds `name` to `value`, replacing any earlier binding. */
    method Assign(name: string, value: i32)
      modifies this
      ensures symbols == old(symbols)[name := value]
    {
      symbols := symbols[name := value];
    }

    /** `get`: the binding of `name`; an unbound name is a fault. */
    function Get(name: string): Result<i32, Fault>
      reads this
    {
      Lookup(symbols, name)
    }
  }

  /** `interpret`, updating `scope` in place. */
  method Interpret(a: Ast.AST, scope: Scope) returns (r: Result<i32, Fault>)
    modifies scope
    ensures Evaluated(r, scope.symbols) == Eval(a, old(scope.symbols))
    decreases a
  {
    match a
    case Compound(children) =>
      ghost var start := scope.symbols;
      var last: i32 := 0;
      var i := 0;
      while i < |children|
        invariant 0 <= i <= |children|
        invariant EvalSeq(children[i..], scope.symbols, last) == EvalSeq(children, start, 0)
      {
        assert children[i..][1..] == children[i + 1..];
        var v := Interpret(children[i], scope);
        if v.Err? {
          return v;
        }
        last := v.value;
        i := i + 1;
      }
      return Ok(last);
    case Assign(_, left, right) =>
      var v :- Interpret(right, scope);
      scope.Assign(left, v);
      return Ok(v);
    case UnaryOp(_, uop, expr) =>
      var v :- Interpret(expr, scope);
      if uop == Ast.UnaryOperator.Plus {
        return Ok(v);
      }
      return Negate(v);
    case BinaryOp(_, lhs, op, rhs) =>
      var l :- Interpret(lhs, scope);
      var rv :- Interpret(rhs, scope);
      return Apply(op, l, rv);
    case Number(_, value) =>
      return Ok(AsI32(value));
    case Variable(_, name) =>
      return scope.Get(name);
  }
}
