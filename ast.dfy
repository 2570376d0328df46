/**
 * The syntax tree (src/ast.rs), with the three node kinds the interpreter
 * also walks: `Variable`, `Assign` and `Compound` (src/interpreter.rs).
 */
module Ast {

  import opened Chars
  import Tokens

  type Token = Tokens.Token

  datatype UnaryOperator = Plus | Minus

  datatype BinaryOperator = Plus | Minus | Multiply | Divide

  /**
   * A node keeps the token it was built from. The operator of a unary node is
   * `uop` and a variable's name is `name`: one destructor name may not carry
   * two types across the constructors of one datatype.
   */
  datatype AST =
    | UnaryOp(token: Token, uop: UnaryOperator, expr: AST)
    | BinaryOp(token: Token, lhs: AST, op: BinaryOperator, rhs: AST)
    | Number(token: Token, value: u32)
    | Variable(token: Token, name: string)
    | Assign(token: Token, left: string, right: AST)
    | Compound(children: seq<AST>)

  /** `Display for BinaryOp`. */
  function OpText(op: BinaryOperator): (s: string)
    ensures |s| == 1
    ensures !IsAlphanumeric(s[0]) && !IsWhitespace(s[0]) && s[0] != '(' && s[0] != ')'
  {
    match op
    case Plus => "+"
    case Minus => "-"
    case Multiply => "*"
    case Divide => "/"
  }

  /** The four operators display as four distinct symbols. */
  lemma OpTextInjective(a: BinaryOperator, b: BinaryOperator)
    ensures OpText(a) == OpText(b) <==> a == b
  {
    if a != b {
      assert OpText(a)[0] != OpText(b)[0];
    }
  }

  predicate IsUnaryToken(t: Token) {
    t == Tokens.Plus || t == Tokens.Minus
  }

  /** The binary operator tokens; the source's `Token::Divide` is the lexer's `RealDivide`. */
  predicate IsBinaryToken(t: Token) {
    t == Tokens.Plus || t == Tokens.Minus || t == Tokens.Multiply || t == Tokens.RealDivide
  }

  /** The unary operator a token stands for. */
  function UnaryOperatorOf(t: Token): UnaryOperator
    requires IsUnaryToken(t)
  {
    if t == Tokens.Plus then UnaryOperator.Plus else UnaryOperator.Minus
  }

  /** The binary operator a token stands for. */
  function BinaryOperatorOf(t: Token): BinaryOperator
    requires IsBinaryToken(t)
  {
    match t
    case Plus => BinaryOperator.Plus
    case Minus => BinaryOperator.Minus
    case Multiply => BinaryOperator.Multiply
    case RealDivide => BinaryOperator.Divide
  }

  /**
   * Every operator and number node carries the token it was built from, as
   * the constructors below build them: an operator node's operator is the one
   * its token stands for, and a number's token is the literal of its value.
   */
  predicate WellTokened(a: AST) {
    match a
    case UnaryOp(token, uop, expr) => IsUnaryToken(token) && uop == UnaryOperatorOf(token) && WellTokened(expr)
    case BinaryOp(token, lhs, op, rhs) =>
      IsBinaryToken(token) && op == BinaryOperatorOf(token) && WellTokened(lhs) && WellTokened(rhs)
    case Number(token, value) => token == Tokens.IntegerLiteral(value)
    case _ => false
  }

  /** A tree of the node kinds `ast.rs` declares: numbers under unary and binary operators. */
  predicate Arithmetic(a: AST) {
    match a
    case UnaryOp(_, _, expr) => Arithmetic(expr)
    case BinaryOp(_, lhs, _, rhs) => Arithmetic(lhs) && Arithmetic(rhs)
    case Number(_, _) => true
    case _ => false
  }

  /** Every tree the constructors below build is arithmetic. */
  lemma {:induction false} WellTokenedIsArithmetic(a: AST)
    requires WellTokened(a)
    ensures Arithmetic(a)
  {
    match a
    case UnaryOp(_, _, expr) => WellTokenedIsArithmetic(expr);
    case BinaryOp(_, lhs, _, rhs) =>
      WellTokenedIsArithmetic(lhs);
      WellTokenedIsArithmetic(rhs);
    case Number(_, _) =>
  }

  /** `AST::unary_op`: a `Plus` or `Minus` token and the operand; any other token panics. */
  function UnaryNode(token: Token, expr: AST): (r: AST)
    requires IsUnaryToken(token)
    ensures r.UnaryOp? && r.token == token && r.expr == expr
    ensures r.uop == UnaryOperator.Plus <==> token == Tokens.Plus
    ensures WellTokened(r) <==> WellTokened(expr)
  {
    UnaryOp(token, UnaryOperatorOf(token), expr)
  }

  /** `AST::binary_op`: one of the four operator tokens between two operands; any other token panics. */
  function BinaryNode(lhs: AST, token: Token, rhs: AST): (r: AST)
    requires IsBinaryToken(token)
    ensures r.BinaryOp? && r.token == token && r.lhs == lhs && r.rhs == rhs
    ensures OpText(r.op) == Tokens.Display(token)
    ensures WellTokened(r) <==> WellTokened(lhs) && WellTokened(rhs)
  {
    BinaryOp(token, lhs, BinaryOperatorOf(token), rhs)
  }

  /** `AST::number`. */
  function NumberNode(token: Token, value: u32): (r: AST)
    ensures r.Number? && r.token == token && r.value == value
    ensures WellTokened(r) <==> token == Tokens.IntegerLiteral(value)
  {
    Number(token, value)
  }

  /** Distinct operator tokens build distinct operators, each displayed with its token's own text. */
  lemma BinaryOperatorOfInjective(s: Token, t: Token)
    requires IsBinaryToken(s) && IsBinaryToken(t)
    ensures BinaryOperatorOf(s) == BinaryOperatorOf(t) <==> s == t
    ensures OpText(BinaryOperatorOf(s)) == Tokens.Display(s)
  {
  }
}
