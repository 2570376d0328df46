/**
 * What the parser promises: precedence and left associativity, stated as a
 * round trip through a printer that writes the fewest parentheses those
 * rules allow, and the parser's quirks (a sign takes a whole expression, a
 * parse stops at the first token no rule continues with).
 */
module ParserProperties {

  import opened Wrappers
  import opened Tokens
  import opened Lexing
  import opened LexerProperties
  import opened Parsing
  import Ast

  predicate IsAdditive(a: Ast.AST) {
    a.BinaryOp? && (a.op == Ast.BinaryOperator.Plus || a.op == Ast.BinaryOperator.Minus)
  }

  predicate IsMultiplicative(a: Ast.AST) {
    a.BinaryOp? && (a.op == Ast.BinaryOperator.Multiply || a.op == Ast.BinaryOperator.Divide)
  }

  /** Ranks that order the printer's (and the round trip's) three levels on one node. */
  function ExprRank(a: Ast.AST): nat {
    if IsAdditive(a) then 0 else if IsMultiplicative(a) then 1 else 2
  }

  function TermRank(a: Ast.AST): nat {
    if IsAdditive(a) then 2 else if IsMultiplicative(a) then 0 else 1
  }

  function AtomRank(a: Ast.AST): nat {
    if IsAdditive(a) then 1 else if IsMultiplicative(a) then 2 else 0
  }

  predicate AllSpellable(ts: seq<Token>) {
    forall i :: 0 <= i < |ts| ==> Spellable(ts[i])
  }

  lemma SpellableJoin(a: seq<Token>, b: seq<Token>)
    requires AllSpellable(a) && AllSpellable(b)
    ensures AllSpellable(a + b)
  {
    forall i | 0 <= i < |a + b| ensures Spellable((a + b)[i]) {
      if i >= |a| {
        assert (a + b)[i] == b[i - |a|];
      }
    }
  }

  /**
   * The tokens of an expression with parentheses only where precedence or
   * left associativity demands them: around an additive right operand of a
   * binary operator, around any binary right operand of `*` or `/`, and
   * around every signed operand.
   */
  function UnparseExpr(a: Ast.AST): (ts: seq<Token>)
    requires Ast.WellTokened(a)
    ensures |ts| > 0 && AllSpellable(ts)
    decreases a, ExprRank(a)
  {
    if IsAdditive(a) then
      var l := UnparseExpr(a.lhs);
      var r := UnparseTerm(a.rhs);
      SpellableJoin(l, [a.token]);
      SpellableJoin(l + [a.token], r);
      l + [a.token] + r
    else UnparseTerm(a)
  }

  function UnparseTerm(a: Ast.AST): (ts: seq<Token>)
    requires Ast.WellTokened(a)
    ensures |ts| > 0 && AllSpellable(ts)
    decreases a, TermRank(a)
  {
    if IsMultiplicative(a) then
      var l := UnparseTerm(a.lhs);
      var r := UnparseAtom(a.rhs);
      SpellableJoin(l, [a.token]);
      SpellableJoin(l + [a.token], r);
      l + [a.token] + r
    else UnparseAtom(a)
  }

  function UnparseAtom(a: Ast.AST): (ts: seq<Token>)
    requires Ast.WellTokened(a)
    ensures |ts| > 0 && AllSpellable(ts)
    decreases a, AtomRank(a)
  {
    match a
    case Number(token, _) => [token]
    case UnaryOp(token, _, e) =>
      var inner := UnparseExpr(e);
      SpellableJoin([OpenParen, token], inner);
      SpellableJoin([OpenParen, token] + inner, [CloseParen]);
      [OpenParen, token] + inner + [CloseParen]
    case BinaryOp(_, _, _, _) =>
      var inner := UnparseExpr(a);
      SpellableJoin([OpenParen], inner);
      SpellableJoin([OpenParen] + inner, [CloseParen]);
      [OpenParen] + inner + [CloseParen]
  }

  lemma OksAppend(a: seq<Token>, b: seq<Token>)
    ensures Oks(a + b) == Oks(a) + Oks(b)
  {
  }

  /** Spellable tokens in front of a parser stream make a parser stream. */
  lemma {:induction false} OksReady(ts: seq<Token>, rest: seq<Lexed>)
    requires AllSpellable(ts) && Ready(rest)
    ensures Ready(Oks(ts) + rest)
  {
    var s := Oks(ts) + rest;
    forall i | 0 <= i < |s| - 1 ensures s[i].Ok? && s[i].value != Eof {
      if i >= |ts| {
        assert s[i] == rest[i - |ts|];
      }
    }
  }

  /** `rest` holds no `*` or `/` at its head, so the loop of `term` stops there. */
  predicate NoMultiplicative(rest: seq<Lexed>)
    requires Ready(rest)
  {
    rest[0].value != Multiply && rest[0].value != RealDivide
  }

  /** `rest` holds no binary operator at its head, so both loops stop there. */
  predicate NoOperator(rest: seq<Lexed>)
    requires Ready(rest)
  {
    NoMultiplicative(rest) && rest[0].value != Plus && rest[0].value != Minus
  }

  lemma TermTailStops(node: Ast.AST, rest: seq<Lexed>)
    requires Ready(rest) && NoMultiplicative(rest)
    ensures TermTail(node, rest) == Ok(Parsed(node, rest))
  {
  }

  lemma ExprTailStops(node: Ast.AST, rest: seq<Lexed>)
    requires Ready(rest) && NoOperator(rest)
    ensures ExprTail(node, rest) == Ok(Parsed(node, rest))
  {
  }

  /** The tokens of a factor parse back, by `factor`, to the same tree, whatever follows them. */
  lemma {:induction false} FactorRoundTrip(a: Ast.AST, rest: seq<Lexed>)
    requires Ast.WellTokened(a) && Ready(rest)
    ensures Ready(Oks(UnparseAtom(a)) + rest)
    ensures ParseFactor(Oks(UnparseAtom(a)) + rest) == Ok(Parsed(a, rest))
    decreases a, AtomRank(a)
  {
    match a
    case Number(token, value) =>
      assert Oks(UnparseAtom(a)) + rest == [Ok(token)] + rest;
      NumberStep(token, value, rest);
    case UnaryOp(token, _, e) =>
      var closed := [Ok(CloseParen)] + rest;
      ConsReady(CloseParen, rest);
      SignedRoundTrip(token, e, closed);
      UnaryRegroup(token, UnparseExpr(e), rest);
      ParenStep([Ok(token)] + Oks(UnparseExpr(e)) + closed, a, rest);
    case BinaryOp(_, _, _, _) =>
      var closed := [Ok(CloseParen)] + rest;
      ConsReady(CloseParen, rest);
      ExprRoundTrip(a, closed);
      ExprTailStops(a, closed);
      BinaryRegroup(UnparseExpr(a), rest);
      ParenStep(Oks(UnparseExpr(a)) + closed, a, rest);
  }

  lemma NumberStep(token: Token, value: Chars.u32, rest: seq<Lexed>)
    requires token == IntegerLiteral(value) && Ready(rest)
    ensures Ready([Ok(token)] + rest)
    ensures ParseFactor([Ok(token)] + rest) == Ok(Parsed(Ast.NumberNode(token, value), rest))
  {
    AdvanceCons(token, rest);
  }

  /** `advance` over a token in front of a parser stream returns it and leaves that stream. */
  lemma AdvanceCons(t: Token, rest: seq<Lexed>)
    requires t != Eof && Ready(rest)
    ensures Ready([Ok(t)] + rest)
    ensures AdvanceOn([Ok(t)] + rest) == Ok(Parsed(t, rest))
  {
    ConsReady(t, rest);
    assert ([Ok(t)] + rest)[1..] == rest;
  }

  lemma UnaryRegroup(sign: Token, body: seq<Token>, rest: seq<Lexed>)
    ensures Oks([OpenParen, sign] + body + [CloseParen]) + rest
      == [Ok(OpenParen)] + ([Ok(sign)] + Oks(body) + ([Ok(CloseParen)] + rest))
  {
    OksAppend([OpenParen, sign] + body, [CloseParen]);
    OksAppend([OpenParen, sign], body);
  }

  lemma BinaryRegroup(body: seq<Token>, rest: seq<Lexed>)
    ensures Oks([OpenParen] + body + [CloseParen]) + rest == [Ok(OpenParen)] + (Oks(body) + ([Ok(CloseParen)] + rest))
  {
    OksAppend([OpenParen] + body, [CloseParen]);
    OksAppend([OpenParen], body);
  }

  /** `factor` on `(`: whatever `expr` parses next, which must be followed by `)`. */
  lemma {:induction false} ParenStep(inner: seq<Lexed>, a: Ast.AST, rest: seq<Lexed>)
    requires Ready(inner) && Ready(rest)
    requires ParseExpr(inner) == Ok(Parsed(a, [Ok(CloseParen)] + rest))
    ensures Ready([Ok(OpenParen)] + inner)
    ensures ParseFactor([Ok(OpenParen)] + inner) == Ok(Parsed(a, rest))
  {
    AdvanceCons(OpenParen, inner);
    CloseStep(rest);
    var ts := [Ok(OpenParen)] + inner;
    assert ts[0] == Ok(OpenParen);
  }

  lemma CloseStep(rest: seq<Lexed>)
    requires Ready(rest)
    ensures Ready([Ok(CloseParen)] + rest)
    ensures EatOn([Ok(CloseParen)] + rest, CloseParen) == Ok(Parsed((), rest))
  {
    AdvanceCons(CloseParen, rest);
  }

  /** `factor` on a sign: the sign applied to whatever `expr` parses next. */
  lemma SignStep(sign: Token, inner: seq<Lexed>, e: Ast.AST, rest: seq<Lexed>)
    requires Ast.IsUnaryToken(sign) && Ready(inner) && ParseExpr(inner) == Ok(Parsed(e, rest))
    ensures Ready([Ok(sign)] + inner)
    ensures ParseFactor([Ok(sign)] + inner) == Ok(Parsed(Ast.UnaryNode(sign, e), rest))
  {
    AdvanceCons(sign, inner);
    assert ([Ok(sign)] + inner)[0] == Ok(sign);
  }

  /** Five one-element sequences joined either way are the five elements in a row. */
  lemma FiveInARow<T>(a: T, b: T, c: T, d: T, e: T)
    ensures [a] + [b] + ([c] + [d] + [e]) == [a, b, c, d, e]
    ensures [a] + [b] + [c] + [d] + [e] == [a, b, c, d, e]
  {
  }

  /** Joining a one-element sequence to two others is associative. */
  lemma ConsAssociates<T>(x: T, b: seq<T>, c: seq<T>)
    ensures [x] + b + c == [x] + (b + c)
  {
  }

  /** A factor followed by no operator is a whole expression. */
  lemma FactorAlone(ts: seq<Lexed>, a: Ast.AST, rest: seq<Lexed>)
    requires Ready(ts) && ParseFactor(ts) == Ok(Parsed(a, rest)) && Ready(rest) && NoOperator(rest)
    ensures ParseExpr(ts) == Ok(Parsed(a, rest))
  {
    TermTailStops(a, rest);
    ExprTailStops(a, rest);
  }

  /**
   * A sign followed by the tokens of an expression: `factor` takes the whole
   * expression as the operand, as far as the next token no loop continues with.
   */
  lemma {:induction false} SignedRoundTrip(sign: Token, e: Ast.AST, rest: seq<Lexed>)
    requires Ast.IsUnaryToken(sign) && Ast.WellTokened(e) && Ready(rest) && NoOperator(rest)
    ensures Ready([Ok(sign)] + Oks(UnparseExpr(e)) + rest)
    ensures ParseExpr([Ok(sign)] + Oks(UnparseExpr(e)) + rest) == Ok(Parsed(Ast.UnaryNode(sign, e), rest))
    decreases e, 3
  {
    var inner := Oks(UnparseExpr(e)) + rest;
    OksReady(UnparseExpr(e), rest);
    ExprRoundTrip(e, rest);
    ExprTailStops(e, rest);
    SignStep(sign, inner, e, rest);
    var ts := [Ok(sign)] + inner;
    ConsAssociates(Ok(sign), Oks(UnparseExpr(e)), rest);
    FactorAlone(ts, Ast.UnaryNode(sign, e), rest);
  }

  /** The tokens of a term parse, by `term`, to the same tree followed by whatever the loop of `term` makes of the rest. */
  lemma {:induction false} TermRoundTrip(a: Ast.AST, rest: seq<Lexed>)
    requires Ast.WellTokened(a) && Ready(rest)
    ensures Ready(Oks(UnparseTerm(a)) + rest)
    ensures ParseTerm(Oks(UnparseTerm(a)) + rest) == TermTail(a, rest)
    decreases a, TermRank(a)
  {
    OksReady(UnparseTerm(a), rest);
    if IsMultiplicative(a) {
      var right := Oks(UnparseAtom(a.rhs)) + rest;
      FactorRoundTrip(a.rhs, rest);
      var after := [Ok(a.token)] + right;
      ConsReady(a.token, right);
      Regroup(UnparseTerm(a.lhs), a.token, UnparseAtom(a.rhs), rest);
      TermRoundTrip(a.lhs, after);
      TermStep(a.lhs, a.token, right, a.rhs, rest);
      assert Ast.BinaryNode(a.lhs, a.token, a.rhs) == a;
    } else {
      FactorRoundTrip(a, rest);
    }
  }

  /** The tokens of an expression parse, by `expr`, to the same tree followed by whatever the loop of `expr` makes of the rest. */
  lemma {:induction false} ExprRoundTrip(a: Ast.AST, rest: seq<Lexed>)
    requires Ast.WellTokened(a) && Ready(rest) && NoMultiplicative(rest)
    ensures Ready(Oks(UnparseExpr(a)) + rest)
    ensures ParseExpr(Oks(UnparseExpr(a)) + rest) == ExprTail(a, rest)
    decreases a, ExprRank(a)
  {
    OksReady(UnparseExpr(a), rest);
    if IsAdditive(a) {
      var l, r := UnparseExpr(a.lhs), UnparseTerm(a.rhs);
      assert UnparseExpr(a) == l + [a.token] + r;
      var right := Oks(r) + rest;
      TermRoundTrip(a.rhs, rest);
      TermTailStops(a.rhs, rest);
      var after := [Ok(a.token)] + right;
      ConsReady(a.token, right);
      Regroup(l, a.token, r, rest);
      ExprRoundTrip(a.lhs, after);
      ExprStep(a.lhs, a.token, right, a.rhs, rest);
      assert Ast.BinaryNode(a.lhs, a.token, a.rhs) == a;
    } else {
      TermRoundTrip(a, rest);
      TermTailStops(a, rest);
    }
  }

  lemma Regroup(l: seq<Token>, t: Token, r: seq<Token>, rest: seq<Lexed>)
    ensures Oks(l + [t] + r) + rest == Oks(l) + ([Ok(t)] + (Oks(r) + rest))
  {
    OksAppend(l + [t], r);
    OksAppend(l, [t]);
  }

  /** One round of the loop of `term`: an operator, then a factor that parses to `r`. */
  lemma TermStep(node: Ast.AST, op: Token, right: seq<Lexed>, r: Ast.AST, rest: seq<Lexed>)
    requires (op == Multiply || op == RealDivide) && Ready(right) && Ready(rest)
    requires ParseFactor(right) == Ok(Parsed(r, rest))
    ensures Ready([Ok(op)] + right)
    ensures TermTail(node, [Ok(op)] + right) == TermTail(Ast.BinaryNode(node, op, r), rest)
  {
    AdvanceCons(op, right);
  }

  /** One round of the loop of `expr`: an operator, then a term that parses to `r`. */
  lemma ExprStep(node: Ast.AST, op: Token, right: seq<Lexed>, r: Ast.AST, rest: seq<Lexed>)
    requires (op == Plus || op == Minus) && Ready(right) && Ready(rest)
    requires ParseTerm(right) == Ok(Parsed(r, rest))
    ensures Ready([Ok(op)] + right)
    ensures ExprTail(node, [Ok(op)] + right) == ExprTail(Ast.BinaryNode(node, op, r), rest)
  {
    AdvanceCons(op, right);
  }

  /**
   * `parse` stops after the longest expression: the tokens of any
   * expression, followed by a token no loop continues with, parse to that
   * expression and leave that token unread.
   */
  lemma StopsBeforeTrailingTokens(a: Ast.AST, rest: seq<Lexed>)
    requires Ast.WellTokened(a) && Ready(rest) && NoOperator(rest)
    ensures Ready(Oks(UnparseExpr(a)) + rest)
    ensures ParseExpr(Oks(UnparseExpr(a)) + rest) == Ok(Parsed(a, rest))
  {
    ExprRoundTrip(a, rest);
    ExprTailStops(a, rest);
  }

  /** Every tree the parser can build is parsed back from its printed tokens. */
  lemma ParseUnparseTokens(a: Ast.AST)
    requires Ast.WellTokened(a)
    ensures WellFormedStream(Oks(UnparseExpr(a)) + [Ok(Eof)])
    ensures ParseTokens(Oks(UnparseExpr(a)) + [Ok(Eof)]) == Ok(a)
  {
    StopsBeforeTrailingTokens(a, [Ok(Eof)]);
  }

  /** Every tree the parser can build is parsed back from its printed text: lexing and parsing invert the printer. */
  lemma ParseUnparseText(a: Ast.AST)
    requires Ast.WellTokened(a)
    ensures ParseText(Spell(UnparseExpr(a))) == Ok(a)
  {
    SpelledTokensLexBack(UnparseExpr(a));
    ParseUnparseTokens(a);
  }

  /** Tokens after a complete expression that no loop continues with are never read: the text still parses. */
  lemma TrailingTokensIgnored(a: Ast.AST, t: Token)
    requires Ast.WellTokened(a) && Spellable(t)
    requires t != Plus && t != Minus && t != Multiply && t != RealDivide
    ensures ParseText(Spell(UnparseExpr(a) + [t])) == Ok(a)
  {
    var ts := UnparseExpr(a);
    SpellableJoin(ts, [t]);
    OksAppend(ts, [t]);
    var stream := Oks(ts) + ([Ok(t)] + [Ok(Eof)]);
    assert Oks(ts + [t]) + [Ok(Eof)] == stream;
    ConsReady(t, [Ok(Eof)]);
    StopsBeforeTrailingTokens(a, [Ok(t)] + [Ok(Eof)]);
    ParsesWhole(stream, a);
    ParseSpelled(ts + [t], a);
  }

  /** A factor must start with a sign, `(` or an integer literal; anything else fails with `ExpectedInteger`. */
  lemma NonOperandFails(ts: seq<Lexed>)
    requires Ready(ts)
    requires ts[0].value != Plus && ts[0].value != Minus && ts[0].value != OpenParen && !ts[0].value.IntegerLiteral?
    ensures ParseFactor(ts) == Err(ExpectedInteger)
    ensures ParseExpr(ts) == Err(ExpectedInteger)
  {
  }

  /** A parenthesised expression not followed by `)` fails with `Expected(CloseParen)`. */
  lemma MissingCloseParen(inner: seq<Lexed>, a: Ast.AST, rest: seq<Lexed>)
    requires Ready(inner) && ParseExpr(inner) == Ok(Parsed(a, rest))
    requires rest[0].value != CloseParen
    ensures Ready([Ok(OpenParen)] + inner)
    ensures ParseFactor([Ok(OpenParen)] + inner) == Err(Expected(CloseParen))
  {
    AdvanceCons(OpenParen, inner);
  }

  function Literal(value: Chars.u32): Ast.AST {
    Ast.NumberNode(IntegerLiteral(value), value)
  }

  lemma LiteralTokens(value: Chars.u32)
    ensures Ast.WellTokened(Literal(value))
    ensures UnparseExpr(Literal(value)) == UnparseTerm(Literal(value)) == UnparseAtom(Literal(value)) == [IntegerLiteral(value)]
  {
  }

  /**
   * A sign applies to the whole expression after it, not to its first
   * factor: the sign's tokens followed by an expression's parse to the
   * signed expression.
   */
  lemma SignTakesWholeExpression(sign: Token, e: Ast.AST)
    requires Ast.IsUnaryToken(sign) && Ast.WellTokened(e)
    ensures AllSpellable([sign] + UnparseExpr(e))
    ensures ParseText(Spell([sign] + UnparseExpr(e))) == Ok(Ast.UnaryNode(sign, e))
  {
    SpellableJoin([sign], UnparseExpr(e));
    SignedStream(sign, UnparseExpr(e));
    SignedRoundTrip(sign, e, [Ok(Eof)]);
    ParsesWhole([Ok(sign)] + Oks(UnparseExpr(e)) + [Ok(Eof)], Ast.UnaryNode(sign, e));
    ParseSpelled([sign] + UnparseExpr(e), Ast.UnaryNode(sign, e));
  }

  lemma SignedStream(sign: Token, body: seq<Token>)
    ensures Oks([sign] + body) + [Ok(Eof)] == [Ok(sign)] + Oks(body) + [Ok(Eof)]
  {
    OksAppend([sign], body);
    assert Oks([sign]) == [Ok(sign)];
  }

  /** Spelled tokens parse as text exactly as they parse as a stream. */
  lemma ParseSpelled(ts: seq<Token>, a: Ast.AST)
    requires AllSpellable(ts)
    requires WellFormedStream(Oks(ts) + [Ok(Eof)]) && ParseTokens(Oks(ts) + [Ok(Eof)]) == Ok(a)
    ensures ParseText(Spell(ts)) == Ok(a)
  {
    SpelledTokensLexBack(ts);
  }

  /** `parse` returns whatever `expr` parses from the head of the stream. */
  lemma ParsesWhole(stream: seq<Lexed>, a: Ast.AST)
    requires Ready(stream) && ParseExpr(stream).Ok? && ParseExpr(stream).value.value == a
    ensures ParseTokens(stream) == Ok(a)
  {
  }

  /** The printed tokens of a sum or difference: the left operand's, the operator, the right operand's as a term. */
  lemma AdditiveTokens(l: Ast.AST, t: Token, r: Ast.AST)
    requires (t == Plus || t == Minus) && Ast.WellTokened(l) && Ast.WellTokened(r)
    ensures Ast.WellTokened(Ast.BinaryNode(l, t, r))
    ensures UnparseExpr(Ast.BinaryNode(l, t, r)) == UnparseExpr(l) + [t] + UnparseTerm(r)
  {
  }

  /** The printed tokens of a product or quotient, which print the same as an expression and as a term. */
  lemma MultiplicativeTokens(l: Ast.AST, t: Token, r: Ast.AST)
    requires (t == Multiply || t == RealDivide) && Ast.WellTokened(l) && Ast.WellTokened(r)
    ensures Ast.WellTokened(Ast.BinaryNode(l, t, r))
    ensures UnparseExpr(Ast.BinaryNode(l, t, r)) == UnparseTerm(Ast.BinaryNode(l, t, r)) == UnparseTerm(l) + [t] + UnparseAtom(r)
  {
  }

  /** The text of the tokens printed for `a` parses to `a`. */
  lemma ParsesBack(ts: seq<Token>, a: Ast.AST)
    requires Ast.WellTokened(a) && UnparseExpr(a) == ts
    ensures AllSpellable(ts) && ParseText(Spell(ts)) == Ok(a)
  {
    ParseUnparseText(a);
  }

  /** So `- x + y` parses as `-(x + y)`. */
  lemma {:induction false} SignTakesWholeSum(x: Chars.u32, y: Chars.u32)
    ensures ParseText(Spell([Minus, IntegerLiteral(x), Plus, IntegerLiteral(y)]))
      == Ok(Ast.UnaryNode(Minus, Ast.BinaryNode(Literal(x), Plus, Literal(y))))
  {
    var sum := Ast.BinaryNode(Literal(x), Plus, Literal(y));
    SumTokens(x, y);
    SignTakesWholeExpression(Minus, sum);
  }

  lemma {:induction false} SumTokens(x: Chars.u32, y: Chars.u32)
    ensures Ast.WellTokened(Ast.BinaryNode(Literal(x), Plus, Literal(y)))
    ensures [Minus, IntegerLiteral(x), Plus, IntegerLiteral(y)] == [Minus] + UnparseExpr(Ast.BinaryNode(Literal(x), Plus, Literal(y)))
  {
    LiteralTokens(x);
    LiteralTokens(y);
    AdditiveTokens(Literal(x), Plus, Literal(y));
  }

  /** `*` binds tighter than `+`: `x + y * z` parses as `x + (y * z)`. */
  lemma {:induction false} ProductBindsTighter(x: Chars.u32, y: Chars.u32, z: Chars.u32)
    ensures ParseText(Spell([IntegerLiteral(x), Plus, IntegerLiteral(y), Multiply, IntegerLiteral(z)]))
      == Ok(Ast.BinaryNode(Literal(x), Plus, Ast.BinaryNode(Literal(y), Multiply, Literal(z))))
  {
    var tree := Ast.BinaryNode(Literal(x), Plus, Ast.BinaryNode(Literal(y), Multiply, Literal(z)));
    ProductTokens(x, y, z);
    ParsesBack([IntegerLiteral(x), Plus, IntegerLiteral(y), Multiply, IntegerLiteral(z)], tree);
  }

  lemma {:induction false} ProductTokens(x: Chars.u32, y: Chars.u32, z: Chars.u32)
    ensures var tree := Ast.BinaryNode(Literal(x), Plus, Ast.BinaryNode(Literal(y), Multiply, Literal(z)));
      Ast.WellTokened(tree) && UnparseExpr(tree) == [IntegerLiteral(x), Plus, IntegerLiteral(y), Multiply, IntegerLiteral(z)]
  {
    var product := Ast.BinaryNode(Literal(y), Multiply, Literal(z));
    LiteralTokens(x);
    LiteralTokens(y);
    LiteralTokens(z);
    MultiplicativeTokens(Literal(y), Multiply, Literal(z));
    AdditiveTokens(Literal(x), Plus, product);
    FiveInARow(IntegerLiteral(x), Plus, IntegerLiteral(y), Multiply, IntegerLiteral(z));
  }

  /** `-` groups to the left: `x - y - z` parses as `(x - y) - z`. */
  lemma {:induction false} DifferenceGroupsLeft(x: Chars.u32, y: Chars.u32, z: Chars.u32)
    ensures ParseText(Spell([IntegerLiteral(x), Minus, IntegerLiteral(y), Minus, IntegerLiteral(z)]))
      == Ok(Ast.BinaryNode(Ast.BinaryNode(Literal(x), Minus, Literal(y)), Minus, Literal(z)))
  {
    var tree := Ast.BinaryNode(Ast.BinaryNode(Literal(x), Minus, Literal(y)), Minus, Literal(z));
    DifferenceTokens(x, y, z);
    ParsesBack([IntegerLiteral(x), Minus, IntegerLiteral(y), Minus, IntegerLiteral(z)], tree);
  }

  lemma {:induction false} DifferenceTokens(x: Chars.u32, y: Chars.u32, z: Chars.u32)
    ensures var tree := Ast.BinaryNode(Ast.BinaryNode(Literal(x), Minus, Literal(y)), Minus, Literal(z));
      Ast.WellTokened(tree) && UnparseExpr(tree) == [IntegerLiteral(x), Minus, IntegerLiteral(y), Minus, IntegerLiteral(z)]
  {
    var difference := Ast.BinaryNode(Literal(x), Minus, Literal(y));
    LiteralTokens(x);
    LiteralTokens(y);
    LiteralTokens(z);
    AdditiveTokens(Literal(x), Minus, Literal(y));
    AdditiveTokens(difference, Minus, Literal(z));
    FiveInARow(IntegerLiteral(x), Minus, IntegerLiteral(y), Minus, IntegerLiteral(z));
  }
}
