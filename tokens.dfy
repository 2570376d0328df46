/** The lexer's tokens, its keyword tables and the `Display` text of a token (src/lexer.rs). */
module Tokens {

  import opened Chars

  datatype Token =
    | IntegerLiteral(value: u32)
    | RealLiteral(text: string)  // a real literal keeps its source text
    | Identifier(name: string)   // spelling as written, case preserved
    | Program
    | Var
    | Begin
    | End
    | Dot
    | Colon
    | Comma
    | Integer
    | Real
    | Plus
    | Minus
    | Multiply
    | IntegerDivide
    | RealDivide
    | OpenParen
    | CloseParen
    | Assign
    | EndStatement
    | Eof

  /** `KEYWORD_TOKENS`: upper-case spelling to keyword token. */
  const KeywordTokens: map<string, Token> :=
    map[
      "PROGRAM" := Program,
      "VAR" := Var,
      "BEGIN" := Begin,
      "END" := End,
      "INTEGER" := Integer,
      "REAL" := Real,
      "DIV" := IntegerDivide
    ]

  /** `KEYWORD_STRINGS`: the same table read backwards. */
  const KeywordStrings: map<Token, string> :=
    map[
      Program := "PROGRAM",
      Var := "VAR",
      Begin := "BEGIN",
      End := "END",
      Integer := "INTEGER",
      Real := "REAL",
      IntegerDivide := "DIV"
    ]

  /** The text a keyword token is looked up by: a non-empty run of upper-case letters, which the other table maps back to the token. */
  lemma KeywordSpelling(t: Token)
    requires t in KeywordStrings
    ensures KeywordStrings[t] in KeywordTokens && KeywordTokens[KeywordStrings[t]] == t
    ensures UpperCaseWord(KeywordStrings[t])
  {
    match t
    case Program =>
    case Var =>
    case Begin =>
    case End =>
    case Integer =>
    case Real =>
    case IntegerDivide =>
  }

  /** Every key of the keyword table is a non-empty run of upper-case letters, and the other table maps its token back to it. */
  lemma KeywordKey(k: string)
    requires k in KeywordTokens
    ensures KeywordTokens[k] in KeywordStrings && KeywordStrings[KeywordTokens[k]] == k
    ensures UpperCaseWord(k)
  {
    if k == "PROGRAM" {
    } else if k == "VAR" {
    } else if k == "BEGIN" {
    } else if k == "END" {
    } else if k == "INTEGER" {
    } else if k == "REAL" {
    } else {
      assert k == "DIV";
    }
  }

  /** The two tables are inverse to each other. */
  lemma KeywordTablesInverse()
    ensures forall k :: k in KeywordTokens ==> KeywordStrings[KeywordTokens[k]] == k
    ensures forall t :: t in KeywordStrings ==> KeywordStrings[t] in KeywordTokens && KeywordTokens[KeywordStrings[t]] == t
  {
    forall k | k in KeywordTokens ensures KeywordStrings[KeywordTokens[k]] == k {
      KeywordKey(k);
    }
    forall t | t in KeywordStrings ensures KeywordStrings[t] in KeywordTokens && KeywordTokens[KeywordStrings[t]] == t {
      KeywordSpelling(t);
    }
  }

  predicate UpperCaseWord(k: string) {
    |k| > 0 && forall i :: 0 <= i < |k| ==> 'A' <= k[i] <= 'Z'
  }

  /** `Display` panics on `Colon` and `Comma`, the only tokens it has no text for. */
  predicate HasDisplay(t: Token) {
    !t.Colon? && !t.Comma?
  }

  /** `Display for Token`: the keyword table first, then a fixed text per token. */
  function Display(t: Token): (s: string)
    requires HasDisplay(t)
    ensures t in KeywordStrings ==> UpperCaseWord(s) && s in KeywordTokens && KeywordTokens[s] == t
    ensures t.IntegerLiteral? ==> AllDigits(s) && DigitsValue(s) == t.value
    ensures t.Identifier? ==> s == t.name
    ensures t == Eof ==> s == ""
  {
    if t in KeywordStrings then
      KeywordSpelling(t);
      KeywordStrings[t]
    else match t
      case IntegerLiteral(value) =>
        DecimalRoundTrip(value);
        DecimalString(value)
      case RealLiteral(text) => text
      case Identifier(name) => name
      case Dot => "."
      case Plus => "+"
      case Minus => "-"
      case Multiply => "*"
      case RealDivide => "/"
      case OpenParen => "("
      case CloseParen => ")"
      case Assign => ":="
      case EndStatement => ";"
      case Eof => ""
      case _ => assert false; ""
  }

  /**
   * Tokens whose `Display` text the lexer reads back as the same token: the
   * keywords, the punctuation with a text and the integer literals.
   */
  predicate Spellable(t: Token) {
    HasDisplay(t) && t != Eof && (t in KeywordStrings || t.IntegerLiteral? ||
    t in {Dot, Plus, Minus, Multiply, RealDivide, OpenParen, CloseParen, Assign, EndStatement})
  }
}
