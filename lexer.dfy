/**
 * The lexer of src/lexer.rs. `Lex` says what one call of `next_token` returns
 * and where it leaves the cursor; the class `Lexer` is the cursor itself, and
 * each of its methods is proved to do what the corresponding function says.
 */
module Lexing {

  import opened Wrappers
  import opened Chars
  import opened Tokens

  /** Why `next_token` gave up: a character that starts no token, or a literal beyond `u32` (an `unwrap` panic in the source). */
  datatype LexError = InvalidCharacter(c: char) | IntegerOverflow(digits: string)

  /** What one call of `next_token` returns: a token or the error that stopped it. */
  type Lexed = Result<Token, LexError>

  /** What one call of `next_token` returns, and the position of the cursor afterwards. */
  datatype Step = Step(result: Result<Token, LexError>, next: nat)

  /** The first position at or after `i` that is not whitespace. */
  function WhitespaceEnd(text: string, i: nat): (e: nat)
    requires i <= |text|
    ensures i <= e <= |text|
    ensures forall k :: i <= k < e ==> IsWhitespace(text[k])
    ensures e == |text| || !IsWhitespace(text[e])
    decreases |text| - i
  {
    if i < |text| && IsWhitespace(text[i]) then WhitespaceEnd(text, i + 1) else i
  }

  /** The first `}` at or after `i`, or the end of the text when the comment is not closed. */
  function CommentEnd(text: string, i: nat): (e: nat)
    requires i <= |text|
    ensures i <= e <= |text|
    ensures forall k :: i <= k < e ==> text[k] != '}'
    ensures e == |text| || text[e] == '}'
    decreases |text| - i
  {
    if i < |text| && text[i] != '}' then CommentEnd(text, i + 1) else i
  }

  /** The end of the run of decimal digits that starts at `i`. */
  function DigitsEnd(text: string, i: nat): (e: nat)
    requires i <= |text|
    ensures i <= e <= |text|
    ensures forall k :: i <= k < e ==> IsDigit(text[k])
    ensures e == |text| || !IsDigit(text[e])
    decreases |text| - i
  {
    if i < |text| && IsDigit(text[i]) then DigitsEnd(text, i + 1) else i
  }

  /** The end of the run of letters and digits that starts at `i`. */
  function AlphanumericEnd(text: string, i: nat): (e: nat)
    requires i <= |text|
    ensures i <= e <= |text|
    ensures forall k :: i <= k < e ==> IsAlphanumeric(text[k])
    ensures e == |text| || !IsAlphanumeric(text[e])
    decreases |text| - i
  {
    if i < |text| && IsAlphanumeric(text[i]) then AlphanumericEnd(text, i + 1) else i
  }

  /** Where `identifier` stops: one leading letter or `_`, then letters and digits only. */
  function IdentifierEnd(text: string, i: nat): (e: nat)
    requires i <= |text|
    ensures i <= e <= |text|
    ensures e == |text| || !IsAlphanumeric(text[e])
    ensures i < |text| && IsIdentifierStart(text[i]) ==> i < e
    ensures forall k :: i < k < e ==> IsAlphanumeric(text[k])
  {
    if i < |text| && IsIdentifierStart(text[i]) then AlphanumericEnd(text, i + 1) else AlphanumericEnd(text, i)
  }

  /** A word is a keyword when its upper-case form is in the table; otherwise it is an identifier spelt as written. */
  function KeywordOrIdentifier(word: string): Token {
    var upper := Uppercase(word);
    if upper in KeywordTokens then KeywordTokens[upper] else Identifier(word)
  }

  /** `number`: a digit run is an integer literal, unless a `.` follows, which makes it a real literal kept as text. */
  function LexNumber(text: string, p: nat): (st: Step)
    requires p < |text| && IsDigit(text[p])
    ensures p < st.next <= |text|
    ensures st.result.Ok? ==> st.result.value.IntegerLiteral? || st.result.value.RealLiteral?
    ensures st.result.Err? ==> st.result.error.IntegerOverflow?
  {
    var e := DigitsEnd(text, p);
    if e < |text| && text[e] == '.' then
      var f := DigitsEnd(text, e + 1);
      Step(Ok(RealLiteral(text[p..f])), f)
    else
      var digits := text[p..e];
      match FromDecimal(digits)
      case Some(value) => Step(Ok(IntegerLiteral(value)), e)
      case None => Step(Err(IntegerOverflow(digits)), e)
  }

  /** `next_token` started with the cursor at `pos`: skip whitespace, then dispatch on the character reached. */
  function Lex(text: string, pos: nat): (st: Step)
    requires pos <= |text|
    ensures pos <= st.next <= |text|
    ensures st.result == Ok(Eof) ==> st.next == |text|
    ensures st.result.Ok? && st.result.value != Eof ==> pos < st.next
    decreases |text| - pos, 1
  {
    Dispatch(text, WhitespaceEnd(text, pos))
  }

  /**
   * The `match` of `next_token` on the character at `p`, which is not
   * whitespace. A `{` skips up to (not past) the next `}` and starts over.
   */
  function Dispatch(text: string, p: nat): (st: Step)
    requires p <= |text|
    ensures p <= st.next <= |text|
    ensures st.result == Ok(Eof) ==> st.next == |text|
    ensures st.result.Ok? && st.result.value != Eof ==> p < st.next
    decreases |text| - p, 0
  {
    if p == |text| then Step(Ok(Eof), p)
    else
      match text[p]
      case '{' => Lex(text, CommentEnd(text, p + 1))
      case '.' => Step(Ok(Dot), p + 1)
      case ',' => Step(Ok(Comma), p + 1)
      case '+' => Step(Ok(Plus), p + 1)
      case '-' => Step(Ok(Minus), p + 1)
      case '*' => Step(Ok(Multiply), p + 1)
      case '/' => Step(Ok(RealDivide), p + 1)
      case '(' => Step(Ok(OpenParen), p + 1)
      case ')' => Step(Ok(CloseParen), p + 1)
      case ';' => Step(Ok(EndStatement), p + 1)
      case ':' =>
        if p + 1 < |text| && text[p + 1] == '=' then Step(Ok(Assign), p + 2) else Step(Ok(Colon), p + 1)
      case c =>
        if IsDigit(c) then LexNumber(text, p)
        else if IsIdentifierStart(c) then
          var e := IdentifierEnd(text, p);
          Step(Ok(KeywordOrIdentifier(text[p..e])), e)
        else Step(Err(InvalidCharacter(c)), p)
  }

  /**
   * A stream of `next_token` results as a caller that stops at the first
   * `Eof` or error sees it: tokens other than `Eof`, ending in `Eof` or an error.
   */
  predicate WellFormedStream(ts: seq<Lexed>) {
    && |ts| > 0
    && (forall i :: 0 <= i < |ts| - 1 ==> ts[i].Ok? && ts[i].value != Eof)
    && (ts[|ts| - 1].Ok? ==> ts[|ts| - 1].value == Eof)
  }

  /** The results of calling `next_token` repeatedly from `pos` up to the first `Eof` or error. */
  function TokenStream(text: string, pos: nat): (ts: seq<Lexed>)
    requires pos <= |text|
    ensures WellFormedStream(ts)
    ensures ts[0] == Lex(text, pos).result
    decreases |text| - pos
  {
    var st := Lex(text, pos);
    if st.result.Ok? && st.result.value != Eof then [st.result] + TokenStream(text, st.next) else [st.result]
  }

  /** Each token wrapped as a successful `next_token` result. */
  function Oks(ts: seq<Token>): seq<Lexed>
  {
    seq(|ts|, i requires 0 <= i < |ts| => Ok(ts[i]))
  }

  lemma SliceExtend(s: string, i: nat, j: nat)
    requires i <= j < |s|
    ensures s[i..j + 1] == s[i..j] + [s[j]]
  {
  }

  /**
   * `Lexer`: the input and a cursor into it. `Current()` is the source's one
   * character of lookahead, `current`; the characters after it are what the
   * source's `Peekable<Chars>` still holds.
   */
  class Lexer {
    const text: string
    var pos: nat

    ghost predicate Valid()
      reads this
    {
      pos <= |text|
    }

    /** `current`: the character under the cursor, if any is left. */
    function Current(): (c: Option<char>)
      reads this
      requires Valid()
    {
      if pos < |text| then Some(text[pos]) else None
    }

    /** `new`: the first character becomes `current`. */
    constructor (input: string)
      ensures Valid() && text == input && pos == 0
    {
      text := input;
      pos := 0;
    }

    /** `advance`: returns `current` and moves one character on (the source's `unwrap` demands a current character). */
    method Advance() returns (c: char)
      requires Valid() && Current().Some?
      modifies this
      ensures Valid()
      ensures c == old(Current()).value && pos == old(pos) + 1
    {
      c := text[pos];
      pos := pos + 1;
    }

    /** `peek`: whether the character after `current` is `c`. */
    function Peek(c: char): (b: bool)
      reads this
      requires Valid()
      ensures b ==> Current().Some?
      ensures b <==> |text[pos..]| >= 2 && text[pos..][1] == c
    {
      pos + 1 < |text| && text[pos + 1] == c
    }

    method SkipWhitespace()
      requires Valid()
      modifies this
      ensures Valid()
      ensures pos == WhitespaceEnd(text, old(pos))
    {
      while Current().Some? && IsWhitespace(Current().value)
        invariant Valid() && old(pos) <= pos
        invariant WhitespaceEnd(text, pos) == WhitespaceEnd(text, old(pos))
        decreases |text| - pos
      {
        var _ := Advance();
      }
    }

    /** `skip_comment`: stops at the closing brace without consuming it. */
    method SkipComment()
      requires Valid()
      modifies this
      ensures Valid()
      ensures pos == CommentEnd(text, old(pos))
    {
      while Current().Some? && Current().value != '}'
        invariant Valid() && old(pos) <= pos
        invariant CommentEnd(text, pos) == CommentEnd(text, old(pos))
        decreases |text| - pos
      {
        var _ := Advance();
      }
    }

    /** The digit-collecting loop of `number`: consumes a run of digits and returns it. */
    method Digits() returns (run: string)
      requires Valid()
      modifies this
      ensures Valid()
      ensures pos == DigitsEnd(text, old(pos)) && run == text[old(pos)..pos]
    {
      ghost var start := pos;
      run := "";
      while Current().Some? && IsDigit(Current().value)
        invariant Valid() && start <= pos
        invariant DigitsEnd(text, pos) == DigitsEnd(text, start)
        invariant run == text[start..pos]
        decreases |text| - pos
      {
        SliceExtend(text, start, pos);
        var c := Advance();
        run := run + [c];
      }
    }

    method Number() returns (r: Result<Token, LexError>)
      requires Valid() && Current().Some? && IsDigit(Current().value)
      modifies this
      ensures Valid()
      ensures Step(r, pos) == LexNumber(text, old(pos))
    {
      ghost var start := pos;
      var value := Digits();
      if Current().Some? && Current().value == '.' {
        ghost var dot := pos;
        var c := Advance();
        var fraction := Digits();
        assert text[start..pos] == text[start..dot] + [text[dot]] + text[dot + 1..pos];
        value := value + [c] + fraction;
        r := Ok(RealLiteral(value));
      } else {
        assert AllDigits(value) by {
          forall k | 0 <= k < |value| ensures IsDigit(value[k]) {
            assert value[k] == text[start + k];
          }
        }
        match FromDecimal(value)
        case Some(v) =>
          r := Ok(IntegerLiteral(v));
        case None =>
          r := Err(IntegerOverflow(value));
      }
    }

    method Identifier() returns (id: string)
      requires Valid()
      modifies this
      ensures Valid()
      ensures pos == IdentifierEnd(text, old(pos)) && id == text[old(pos)..pos]
    {
      ghost var start := pos;
      id := "";
      if Current().Some? && IsIdentifierStart(Current().value) {
        SliceExtend(text, start, pos);
        var c := Advance();
        id := id + [c];
      }
      ghost var body := pos;
      while Current().Some? && IsAlphanumeric(Current().value)
        invariant Valid() && body <= pos
        invariant AlphanumericEnd(text, pos) == AlphanumericEnd(text, body)
        invariant id == text[start..pos]
        decreases |text| - pos
      {
        SliceExtend(text, start, pos);
        var c := Advance();
        id := id + [c];
      }
    }

    method NextToken() returns (r: Result<Token, LexError>)
      requires Valid()
      modifies this
      ensures Valid()
      ensures Step(r, pos) == Lex(text, old(pos))
      decreases |text| - pos
    {
      SkipWhitespace();
      match Current()
      case None =>
        r := Ok(Eof);
      case Some(c) =>
        match c
        case '{' =>
          var _ := Advance();
          SkipComment();
          r := NextToken();
        case '.' =>
          var _ := Advance();
          r := Ok(Dot);
        case ',' =>
          var _ := Advance();
          r := Ok(Comma);
        case '+' =>
          var _ := Advance();
          r := Ok(Plus);
        case '-' =>
          var _ := Advance();
          r := Ok(Minus);
        case '*' =>
          var _ := Advance();
          r := Ok(Multiply);
        case '/' =>
          var _ := Advance();
          r := Ok(RealDivide);
        case '(' =>
          var _ := Advance();
          r := Ok(OpenParen);
        case ')' =>
          var _ := Advance();
          r := Ok(CloseParen);
        case ';' =>
          var _ := Advance();
          r := Ok(EndStatement);
        case ':' =>
          if Peek('=') {
            var _ := Advance();
            var _ := Advance();
            r := Ok(Assign);
          } else {
            var _ := Advance();
            r := Ok(Colon);
          }
        case _ =>
          if IsDigit(c) {
            r := Number();
          } else if IsIdentifierStart(c) {
            var id := Identifier();
            r := Ok(KeywordOrIdentifier(id));
          } else {
            r := Err(InvalidCharacter(c));
          }
    }
  }
}
