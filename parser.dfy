/**
 * The recursive-descent parser (src/parser.rs). The functions below state
 * what each parser method computes from the token stream still ahead of it;
 * the `Parser` class is proved to compute exactly that.
 */
module Parsing {

  import opened Wrappers
  import opened Tokens
  import opened Lexing
  import Ast

  /** A lexer failure met while advancing, an `eat` of the wrong token, or a factor that starts with no operand. */
  datatype ParseError = Lexical(cause: LexError) | Expected(token: Token) | ExpectedInteger

  /** A value and the token stream left after it. */
  datatype Parsed<+T> = Parsed(value: T, rest: seq<Lexed>)

  /**
   * The stream seen by a parser: `current_token` first, then what the lexer
   * will return; it is never empty and its head is a token.
   */
  predicate Ready(ts: seq<Lexed>) {
    WellFormedStream(ts) && ts[0].Ok?
  }

  /** Pairs a method's result with the stream it leaves behind. */
  function With<T>(r: Result<T, ParseError>, rest: seq<Lexed>): Result<Parsed<T>, ParseError> {
    match r
    case Ok(v) => Ok(Parsed(v, rest))
    case Err(e) => Err(e)
  }

  /**
   * `advance`: the current token is returned and the lexer's next result
   * becomes current; at `Eof` the lexer returns `Eof` again.
   */
  function AdvanceOn(ts: seq<Lexed>): (r: Result<Parsed<Token>, ParseError>)
    requires Ready(ts)
    ensures r.Ok? ==> r.value.value == ts[0].value && Ready(r.value.rest)
    ensures r.Ok? && ts[0].value != Eof ==> r.value.rest == ts[1..]
    ensures ts[0].value == Eof ==> r == Ok(Parsed(Eof, ts))
    ensures r.Err? <==> |ts| > 1 && ts[1].Err?
    ensures r.Err? ==> r.error == Lexical(ts[1].error)
  {
    if |ts| == 1 then Ok(Parsed(ts[0].value, ts))
    else if ts[1].Err? then Err(Lexical(ts[1].error))
    else Ok(Parsed(ts[0].value, ts[1..]))
  }

  /** `eat`: advances past `t` when it is the current token, and otherwise fails. */
  function EatOn(ts: seq<Lexed>, t: Token): (r: Result<Parsed<()>, ParseError>)
    requires Ready(ts)
    ensures r.Ok? ==> ts[0].value == t && Ready(r.value.rest) && |r.value.rest| <= |ts|
    ensures r.Ok? && t != Eof ==> r.value.rest == ts[1..]
    ensures ts[0].value != t ==> r == Err(Expected(t))
  {
    if ts[0].value == t then
      var next :- AdvanceOn(ts);
      Ok(Parsed((), next.rest))
    else Err(Expected(t))
  }

  /**
   * `factor`: a signed expression, a parenthesised expression or an integer
   * literal. It consumes at least one token and builds a tree of operator
   * and number nodes, each carrying its own token.
   */
  function ParseFactor(ts: seq<Lexed>): (r: Result<Parsed<Ast.AST>, ParseError>)
    requires Ready(ts)
    ensures r.Ok? ==> Ready(r.value.rest) && |r.value.rest| < |ts| && Ast.WellTokened(r.value.value)
    decreases |ts|, 0, 1
  {
    match ts[0].value
    case Plus | Minus =>
      var sign :- AdvanceOn(ts);
      var operand :- ParseExpr(sign.rest);
      Ok(Parsed(Ast.UnaryNode(sign.value, operand.value), operand.rest))
    case OpenParen =>
      var open :- AdvanceOn(ts);
      var inner :- ParseExpr(open.rest);
      var close :- EatOn(inner.rest, CloseParen);
      Ok(Parsed(inner.value, close.rest))
    case IntegerLiteral(value) =>
      var literal :- AdvanceOn(ts);
      Ok(Parsed(Ast.NumberNode(literal.value, value), literal.rest))
    case _ => Err(ExpectedInteger)
  }

  /** Once the sign is read, the sign arm of `factor` is `expr` on the rest, under that sign. */
  lemma SignedFactor(ts: seq<Lexed>, sign: Parsed<Token>)
    requires Ready(ts) && (ts[0].value == Plus || ts[0].value == Minus) && AdvanceOn(ts) == Ok(sign)
    ensures ParseFactor(ts)
      == (var operand :- ParseExpr(sign.rest); Ok(Parsed(Ast.UnaryNode(sign.value, operand.value), operand.rest)))
  {
  }

  /** `term`: a factor, then the loop over `*` and `/`. */
  function ParseTerm(ts: seq<Lexed>): (r: Result<Parsed<Ast.AST>, ParseError>)
    requires Ready(ts)
    ensures r.Ok? ==> Ready(r.value.rest) && |r.value.rest| < |ts| && Ast.WellTokened(r.value.value)
    decreases |ts|, 1, 0
  {
    var first :- ParseFactor(ts);
    TermTail(first.value, first.rest)
  }

  /** The loop of `term` with `node` built so far: each `*` or `/` and the factor after it extend `node` on the right. */
  function TermTail(node: Ast.AST, ts: seq<Lexed>): (r: Result<Parsed<Ast.AST>, ParseError>)
    requires Ready(ts)
    ensures r.Ok? ==> Ready(r.value.rest) && |r.value.rest| <= |ts|
    ensures r.Ok? && Ast.WellTokened(node) ==> Ast.WellTokened(r.value.value)
    decreases |ts|, 1, 0
  {
    if ts[0].value == Multiply || ts[0].value == RealDivide then
      var op :- AdvanceOn(ts);
      var rhs :- ParseFactor(op.rest);
      TermTail(Ast.BinaryNode(node, op.value, rhs.value), rhs.rest)
    else Ok(Parsed(node, ts))
  }

  /** `expr`: a term, then the loop over `+` and `-`. */
  function ParseExpr(ts: seq<Lexed>): (r: Result<Parsed<Ast.AST>, ParseError>)
    requires Ready(ts)
    ensures r.Ok? ==> Ready(r.value.rest) && |r.value.rest| < |ts| && Ast.WellTokened(r.value.value)
    decreases |ts|, 2, 0
  {
    var first :- ParseTerm(ts);
    ExprTail(first.value, first.rest)
  }

  /** The loop of `expr` with `node` built so far: each `+` or `-` and the term after it extend `node` on the right. */
  function ExprTail(node: Ast.AST, ts: seq<Lexed>): (r: Result<Parsed<Ast.AST>, ParseError>)
    requires Ready(ts)
    ensures r.Ok? ==> Ready(r.value.rest) && |r.value.rest| <= |ts|
    ensures r.Ok? && Ast.WellTokened(node) ==> Ast.WellTokened(r.value.value)
    decreases |ts|, 2, 0
  {
    if ts[0].value == Plus || ts[0].value == Minus then
      var op :- AdvanceOn(ts);
      var rhs :- ParseTerm(op.rest);
      ExprTail(Ast.BinaryNode(node, op.value, rhs.value), rhs.rest)
    else Ok(Parsed(node, ts))
  }

  /**
   * `Parser::new` followed by `parse` on a whole lexer stream: the first
   * lexer failure, or the expression `parse` returns. Tokens after that
   * expression are left unread.
   */
  function ParseTokens(ts: seq<Lexed>): (r: Result<Ast.AST, ParseError>)
    requires WellFormedStream(ts)
    ensures r.Ok? ==> Ast.WellTokened(r.value)
    ensures ts[0].Err? ==> r == Err(Lexical(ts[0].error))
  {
    if ts[0].Err? then Err(Lexical(ts[0].error))
    else
      var e :- ParseExpr(ts);
      Ok(e.value)
  }

  /** Lexing and parsing one input text. */
  function ParseText(text: string): Result<Ast.AST, ParseError> {
    ParseTokens(TokenStream(text, 0))
  }

  /** A non-`Eof` token in front of a well-formed stream is again a well-formed stream. */
  lemma ConsReady(t: Token, ts: seq<Lexed>)
    requires t != Eof && WellFormedStream(ts)
    ensures Ready([Ok(t)] + ts)
  {
    var s := [Ok(t)] + ts;
    forall i | 0 <= i < |s| - 1 ensures s[i].Ok? && s[i].value != Eof {
      if i > 0 {
        assert s[i] == ts[i - 1];
      }
    }
  }

  /**
   * `Parser`: the lexer it reads from and one token of lookahead. The stream
   * it sees is `current_token` followed by every result the lexer would still
   * return.
   */
  class Parser {
    const lexer: Lexer
    var currentToken: Token

    ghost predicate Valid()
      reads this, lexer
    {
      lexer.Valid() && (currentToken == Eof ==> lexer.pos == |lexer.text|)
    }

    ghost function Stream(): (ts: seq<Lexed>)
      reads this, lexer
      requires Valid()
      ensures Ready(ts) && ts[0] == Ok(currentToken)
    {
      if currentToken == Eof then [Ok(Eof)]
      else
        ConsReady(currentToken, TokenStream(lexer.text, lexer.pos));
        [Ok(currentToken)] + TokenStream(lexer.text, lexer.pos)
    }

    constructor Init(lexer: Lexer, token: Token)
      ensures this.lexer == lexer && currentToken == token
    {
      this.lexer := lexer;
      currentToken := token;
    }

    /** `Parser::new`: reads the first token, or fails with the lexer's error. */
    static method New(lexer: Lexer) returns (r: Result<Parser, ParseError>)
      requires lexer.Valid()
      modifies lexer
      ensures old(Lex(lexer.text, lexer.pos)).result.Err? ==> r == Err(Lexical(old(Lex(lexer.text, lexer.pos)).result.error))
      ensures old(Lex(lexer.text, lexer.pos)).result.Ok? ==>
        r.Ok? && fresh(r.value) && r.value.lexer == lexer && r.value.Valid() &&
        r.value.Stream() == old(TokenStream(lexer.text, lexer.pos))
    {
      var first := lexer.NextToken();
      if first.Err? {
        return Err(Lexical(first.error));
      }
      var p := new Parser.Init(lexer, first.value);
      return Ok(p);
    }

    /** `advance`. */
    method Advance() returns (r: Result<Token, ParseError>)
      requires Valid()
      modifies this, lexer
      ensures Valid()
      ensures With(r, Stream()) == AdvanceOn(old(Stream()))
    {
      var token := currentToken;
      var next := lexer.NextToken();
      if next.Err? {
        return Err(Lexical(next.error));
      }
      currentToken := next.value;
      return Ok(token);
    }

    /** `eat`: a mismatch fails before anything is read, so the parser is left as it was. */
    method Eat(t: Token) returns (r: Result<(), ParseError>)
      requires Valid()
      modifies this, lexer
      ensures Valid()
      ensures With(r, Stream()) == EatOn(old(Stream()), t)
      ensures old(currentToken) != t ==> currentToken == old(currentToken) && lexer.pos == old(lexer.pos)
    {
      if currentToken != t {
        return Err(Expected(t));
      }
      var token :- Advance();
      return Ok(());
    }

    /** `factor`: dispatches on the current token. */
    method Factor() returns (r: Result<Ast.AST, ParseError>)
      requires Valid()
      modifies this, lexer
      ensures Valid()
      ensures With(r, Stream()) == ParseFactor(old(Stream()))
      decreases |Stream()|, 0, 1
    {
      match currentToken
      case Plus | Minus =>
        r := Signed();
      case OpenParen =>
        r := Parenthesised();
      case IntegerLiteral(_) =>
        r := Literal();
      case _ =>
        return Err(ExpectedInteger);
    }

    /** The integer arm of `factor`: a number node for the literal. */
    method Literal() returns (r: Result<Ast.AST, ParseError>)
      requires Valid() && currentToken.IntegerLiteral?
      modifies this, lexer
      ensures Valid()
      ensures With(r, Stream()) == ParseFactor(old(Stream()))
    {
      var value := currentToken.value;
      var literal :- Advance();
      return Ok(Ast.NumberNode(literal, value));
    }

    /** The sign arm of `factor`: the sign applies to the whole expression after it. */
    method Signed() returns (r: Result<Ast.AST, ParseError>)
      requires Valid() && (currentToken == Plus || currentToken == Minus)
      modifies this, lexer
      ensures Valid()
      ensures With(r, Stream()) == ParseFactor(old(Stream()))
      decreases |Stream()|, 0, 0
    {
      ghost var before := Stream();
      var sign :- Advance();
      SignedFactor(before, Parsed(sign, Stream()));
      var operand :- Expr();
      return Ok(Ast.UnaryNode(sign, operand));
    }

    /** The parenthesis arm of `factor`: an expression, then `)` must follow. */
    method Parenthesised() returns (r: Result<Ast.AST, ParseError>)
      requires Valid() && currentToken == OpenParen
      modifies this, lexer
      ensures Valid()
      ensures With(r, Stream()) == ParseFactor(old(Stream()))
      decreases |Stream()|, 0, 0
    {
      var open :- Advance();
      var inner :- Expr();
      var close :- Eat(CloseParen);
      return Ok(inner);
    }

    method Term() returns (r: Result<Ast.AST, ParseError>)
      requires Valid()
      modifies this, lexer
      ensures Valid()
      ensures With(r, Stream()) == ParseTerm(old(Stream()))
      decreases |Stream()|, 1, 0
    {
      ghost var start := Stream();
      var node :- Factor();
      while true
        invariant Valid() && |Stream()| < |start|
        invariant TermTail(node, Stream()) == ParseTerm(start)
        decreases |Stream()|
      {
        if currentToken == Multiply || currentToken == RealDivide {
          var op :- Advance();
          var rhs :- Factor();
          node := Ast.BinaryNode(node, op, rhs);
        } else {
          return Ok(node);
        }
      }
    }

    method Expr() returns (r: Result<Ast.AST, ParseError>)
      requires Valid()
      modifies this, lexer
      ensures Valid()
      ensures With(r, Stream()) == ParseExpr(old(Stream()))
      decreases |Stream()|, 2, 0
    {
      ghost var start := Stream();
      var node :- Term();
      while true
        invariant Valid() && |Stream()| < |start|
        invariant ExprTail(node, Stream()) == ParseExpr(start)
        decreases |Stream()|
      {
        if currentToken == Plus || currentToken == Minus {
          var op :- Advance();
          var rhs :- Term();
          node := Ast.BinaryNode(node, op, rhs);
        } else {
          return Ok(node);
        }
      }
    }

    /** `parse`: one expression; whatever follows it is not looked at. */
    method Parse() returns (r: Result<Ast.AST, ParseError>)
      requires Valid()
      modifies this, lexer
      ensures Valid()
      ensures With(r, Stream()) == ParseExpr(old(Stream()))
    {
      r := Expr();
    }
  }
}
