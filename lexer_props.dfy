/** What one call of `next_token` promises, stated over `Lex` and `TokenStream`. */
module LexerProperties {

  import opened Wrappers
  import opened Chars
  import opened Tokens
  import opened Lexing

  /** `w` is a real literal's spelling: digits, a dot, then any digits. */
  predicate IsRealSpelling(w: string) {
    exists j :: 0 < j < |w| && RealSpellingAt(w, j)
  }

  /** `w` is a real literal's spelling with its dot at `j`. */
  predicate RealSpellingAt(w: string, j: int) {
    0 < j < |w| && w[j] == '.' && AllDigits(w[..j]) && AllDigits(w[j + 1..])
  }

  /** `w` is an identifier-shaped word: a letter or `_`, then letters and digits only. */
  predicate IsWord(w: string) {
    |w| > 0 && IsIdentifierStart(w[0]) && forall i :: 0 < i < |w| ==> IsAlphanumeric(w[i])
  }

  /** `w` is a source spelling of token `t`. */
  predicate Spells(t: Token, w: string) {
    if t.IntegerLiteral? then |w| > 0 && AllDigits(w) && DigitsValue(w) == t.value
    else if t.RealLiteral? then t.text == w && IsRealSpelling(w)
    else if t.Identifier? then t.name == w && IsWord(w) && Uppercase(w) !in KeywordTokens
    else if t in KeywordStrings then IsWord(w) && Uppercase(w) == KeywordStrings[t]
    else if HasDisplay(t) then w == Display(t)
    else w == (if t == Colon then ":" else ",")
  }

  /** A run that stops exactly at `e` ends there: `WhitespaceEnd` is determined by its contract. */
  lemma {:induction false} WhitespaceRun(text: string, i: nat, e: nat)
    requires i <= e <= |text| && forall k :: i <= k < e ==> IsWhitespace(text[k])
    requires e == |text| || !IsWhitespace(text[e])
    ensures WhitespaceEnd(text, i) == e
  {
  }

  lemma {:induction false} DigitsRun(text: string, i: nat, e: nat)
    requires i <= e <= |text| && forall k :: i <= k < e ==> IsDigit(text[k])
    requires e == |text| || !IsDigit(text[e])
    ensures DigitsEnd(text, i) == e
  {
  }

  lemma {:induction false} AlphanumericRun(text: string, i: nat, e: nat)
    requires i <= e <= |text| && forall k :: i <= k < e ==> IsAlphanumeric(text[k])
    requires e == |text| || !IsAlphanumeric(text[e])
    ensures AlphanumericEnd(text, i) == e
  {
  }

  /** `next_token` on a letter or `_`: the identifier-shaped word that starts there, looked up in the keyword table. */
  lemma {:induction false} LexWordAt(text: string, pos: nat)
    requires pos <= |text|
    requires WhitespaceEnd(text, pos) < |text| && IsIdentifierStart(text[WhitespaceEnd(text, pos)])
    ensures var p := WhitespaceEnd(text, pos); var e := IdentifierEnd(text, p);
      Lex(text, pos) == Step(Ok(KeywordOrIdentifier(text[p..e])), e)
  {
  }

  /** `next_token` on a digit: `number`. */
  lemma {:induction false} LexDigitsAt(text: string, pos: nat)
    requires pos <= |text|
    requires WhitespaceEnd(text, pos) < |text| && IsDigit(text[WhitespaceEnd(text, pos)])
    ensures Lex(text, pos) == LexNumber(text, WhitespaceEnd(text, pos))
  {
  }

  /** A whole identifier-shaped input is one word: the keyword it spells, or an identifier. */
  lemma {:induction false} LexWholeWord(w: string)
    requires IsWord(w)
    ensures Lex(w, 0) == Step(Ok(KeywordOrIdentifier(w)), |w|)
  {
    WhitespaceRun(w, 0, 0);
    AlphanumericRun(w, 1, |w|);
    assert w[0..|w|] == w;
    LexWordAt(w, 0);
  }

  /** A whitespace character before the token changes nothing but where skipping starts. */
  lemma {:induction false} LexSkipsWhitespace(text: string, q: nat)
    requires q < |text| && IsWhitespace(text[q])
    ensures Lex(text, q) == Lex(text, q + 1)
    ensures TokenStream(text, q) == TokenStream(text, q + 1)
  {
    assert WhitespaceEnd(text, q) == WhitespaceEnd(text, q + 1);
  }

  /**
   * Every token other than `Eof` is spelt by the characters the call consumed
   * last: keywords in any letter case, identifiers exactly as written, integer
   * literals by their decimal value, real literals by their exact text.
   */
  lemma {:induction false} LexedTokenIsSpelled(text: string, pos: nat)
    requires pos <= |text|
    ensures var st := Lex(text, pos);
      st.result.Ok? && st.result.value != Eof ==>
        exists s :: pos <= s < st.next && Spells(st.result.value, text[s..st.next])
    decreases |text| - pos, 1
  {
    DispatchedTokenIsSpelled(text, WhitespaceEnd(text, pos));
  }

  /** `LexedTokenIsSpelled` after the whitespace: the same promise for the dispatch at `p`. */
  lemma {:induction false} DispatchedTokenIsSpelled(text: string, p: nat)
    requires p <= |text|
    ensures var st := Dispatch(text, p);
      st.result.Ok? && st.result.value != Eof ==>
        exists s :: p <= s < st.next && Spells(st.result.value, text[s..st.next])
    decreases |text| - p, 0
  {
    var st := Dispatch(text, p);
    if p < |text| && st.result.Ok? && st.result.value != Eof {
      var c := text[p];
      if c == '{' {
        var q := CommentEnd(text, p + 1);
        assert st == Lex(text, q);
        LexedTokenIsSpelled(text, q);
      } else {
        SingleDispatchIsSpelled(text, p);
      }
    }
  }

  /** The dispatch arms other than a comment: the token is spelt by the characters from `p` on. */
  lemma {:induction false} SingleDispatchIsSpelled(text: string, p: nat)
    requires p < |text| && text[p] != '{'
    ensures var st := Dispatch(text, p);
      st.result.Ok? && st.result.value != Eof ==> p < st.next && Spells(st.result.value, text[p..st.next])
  {
    var c := text[p];
    if IsDigit(c) {
      DispatchDigit(text, p);
      NumberIsSpelled(text, p);
    } else if IsIdentifierStart(c) {
      DispatchWord(text, p);
      WordIsSpelled(text, p);
    } else {
      PunctuationIsSpelled(text, p);
    }
  }

  lemma {:induction false} DispatchDigit(text: string, p: nat)
    requires p < |text| && IsDigit(text[p])
    ensures Dispatch(text, p) == LexNumber(text, p)
  {
  }

  lemma {:induction false} DispatchWord(text: string, p: nat)
    requires p < |text| && IsIdentifierStart(text[p])
    ensures var e := IdentifierEnd(text, p); Dispatch(text, p) == Step(Ok(KeywordOrIdentifier(text[p..e])), e)
  {
  }

  lemma PunctuationIsSpelled(text: string, p: nat)
    requires p < |text| && text[p] != '{' && !IsDigit(text[p]) && !IsIdentifierStart(text[p])
    ensures var st := Dispatch(text, p);
      st.result.Ok? ==> p < st.next && Spells(st.result.value, text[p..st.next])
  {
    var c := text[p];
    if c == ':' {
      if p + 1 < |text| && text[p + 1] == '=' {
        assert text[p..p + 2] == ":=";
      } else {
        assert text[p..p + 1] == ":";
      }
    } else if Dispatch(text, p).result.Ok? {
      DispatchOneChar(text, p);
      OneCharSpells(c);
      assert text[p..p + 1] == [c];
    }
  }

  /** Apart from `{`, `:`, digits and identifiers, a token the dispatch returns is a one-character punctuation token. */
  lemma DispatchOneChar(text: string, p: nat)
    requires p < |text| && text[p] != '{' && text[p] != ':' && !IsDigit(text[p]) && !IsIdentifierStart(text[p])
    requires Dispatch(text, p).result.Ok?
    ensures OneChar(text[p]) && Dispatch(text, p) == Step(Ok(OneCharToken(text[p])), p + 1)
  {
  }

  /** Each one-character punctuation token is spelt by its character. */
  lemma OneCharSpells(c: char)
    requires OneChar(c)
    ensures Spells(OneCharToken(c), [c])
  {
  }

  predicate OneChar(c: char) {
    c == '.' || c == ',' || c == '+' || c == '-' || c == '*' || c == '/' || c == '(' || c == ')' || c == ';'
  }

  function OneCharToken(c: char): Token {
    match c
    case '.' => Dot
    case ',' => Comma
    case '+' => Plus
    case '-' => Minus
    case '*' => Multiply
    case '/' => RealDivide
    case '(' => OpenParen
    case ')' => CloseParen
    case _ => EndStatement
  }

  lemma {:induction false} NumberIsSpelled(text: string, p: nat)
    requires p < |text| && IsDigit(text[p])
    ensures var st := LexNumber(text, p);
      st.result.Ok? ==> p < st.next && Spells(st.result.value, text[p..st.next])
  {
    var st := LexNumber(text, p);
    var e := DigitsEnd(text, p);
    var w := text[p..st.next];
    if e < |text| && text[e] == '.' {
      var j := e - p;
      assert w[j] == '.' && w[..j] == text[p..e] && w[j + 1..] == text[e + 1..st.next];
      assert RealSpellingAt(w, j);
    } else if st.result.Ok? {
      assert AllDigits(w) by {
        forall k | 0 <= k < |w| ensures IsDigit(w[k]) {
          assert w[k] == text[p + k];
        }
      }
    }
  }

  lemma {:induction false} WordIsSpelled(text: string, p: nat)
    requires p < |text| && IsIdentifierStart(text[p])
    ensures var e := IdentifierEnd(text, p);
      Spells(KeywordOrIdentifier(text[p..e]), text[p..e])
  {
    var e := IdentifierEnd(text, p);
    var w := text[p..e];
    assert IsWord(w) by {
      assert w[0] == text[p];
      forall i | 0 < i < |w| ensures IsAlphanumeric(w[i]) {
        assert w[i] == text[p + i];
      }
    }
    if Uppercase(w) in KeywordTokens {
      KeywordKey(Uppercase(w));
    }
  }

  /** Once nothing but whitespace is left, `next_token` returns `Eof`; and after an `Eof` every later call returns `Eof` again. */
  lemma {:induction false} EofIsFinal(text: string, pos: nat)
    requires pos <= |text|
    ensures WhitespaceEnd(text, pos) == |text| ==> Lex(text, pos) == Step(Ok(Eof), |text|)
    ensures Lex(text, pos).result == Ok(Eof) ==> Lex(text, Lex(text, pos).next) == Step(Ok(Eof), |text|)
  {
  }

  /** `:=` is one `Assign` token; a `:` not followed by `=` is a `Colon` that consumes the colon alone. */
  lemma {:induction false} ColonOrAssign(text: string, pos: nat)
    requires pos <= |text|
    requires WhitespaceEnd(text, pos) < |text| && text[WhitespaceEnd(text, pos)] == ':'
    ensures var p := WhitespaceEnd(text, pos);
      Lex(text, pos) ==
        if p + 1 < |text| && text[p + 1] == '=' then Step(Ok(Assign), p + 2) else Step(Ok(Colon), p + 1)
  {
  }

  /** Every spelling of a keyword, in any mix of letter cases, lexes as that keyword. */
  lemma {:induction false} KeywordsInAnyCase(w: string)
    requires Uppercase(w) in KeywordTokens
    ensures Lex(w, 0) == Step(Ok(KeywordTokens[Uppercase(w)]), |w|)
  {
    var k := Uppercase(w);
    KeywordKey(k);
    assert IsWord(w) by {
      forall i | 0 <= i < |w| ensures IsAlphabetic(w[i]) {
        assert 'A' <= k[i] <= 'Z';
      }
    }
    LexWholeWord(w);
  }

  /** A word that is no keyword lexes as an identifier with exactly its own spelling. */
  lemma {:induction false} IdentifierKeepsSpelling(w: string)
    requires IsWord(w) && Uppercase(w) !in KeywordTokens
    ensures Lex(w, 0) == Step(Ok(Identifier(w)), |w|)
  {
    LexWholeWord(w);
  }

  /** Only the first character of an identifier may be `_`: `a_b` lexes as `a`, then `_b`. */
  lemma {:induction false} UnderscoreEndsIdentifier()
    ensures Lex("a_b", 0) == Step(Ok(Identifier("a")), 1)
    ensures Lex("a_b", 1) == Step(Ok(Identifier("_b")), 3)
  {
    var text := "a_b";
    assert AlphanumericEnd(text, 1) == 1;
    assert AlphanumericEnd(text, 2) == 3;
    assert text[0..1] == "a" && text[1..3] == "_b";
    assert Uppercase("a") == "A" && Uppercase("_b") == "_B";
  }

  /**
   * A digit run that no `.` follows is an integer literal of exactly its
   * value when that value fits in a `u32`, and otherwise the overflow failure
   * on the run's text: a value above `u32::MAX` never wraps.
   */
  lemma {:induction false} LiteralAboveU32Overflows(text: string, p: nat)
    requires p < |text| && IsDigit(text[p])
    requires var e := DigitsEnd(text, p); e == |text| || text[e] != '.'
    ensures var e := DigitsEnd(text, p);
      AllDigits(text[p..e]) &&
      (DigitsValue(text[p..e]) <= U32Max ==> LexNumber(text, p) == Step(Ok(IntegerLiteral(DigitsValue(text[p..e]))), e)) &&
      (DigitsValue(text[p..e]) > U32Max ==> LexNumber(text, p) == Step(Err(IntegerOverflow(text[p..e])), e))
  {
  }

  /** The decimal spelling of any number above `u32::MAX`, lexed on its own, is the overflow failure. */
  lemma {:induction false} DecimalAboveU32Overflows(n: nat)
    requires n > U32Max
    ensures Lex(DecimalString(n), 0) == Step(Err(IntegerOverflow(DecimalString(n))), |DecimalString(n)|)
  {
    var s := DecimalString(n);
    DecimalRoundTrip(n);
    assert DigitsEnd(s, 0) == |s|;
    assert s[0..|s|] == s;
    LiteralAboveU32Overflows(s, 0);
  }

  /** A digit run followed by a `.` is a real literal whose text is exactly the characters consumed. */
  lemma {:induction false} RealLiteralKeepsText(text: string, pos: nat)
    requires pos <= |text|
    requires var p := WhitespaceEnd(text, pos);
      p < |text| && IsDigit(text[p]) && DigitsEnd(text, p) < |text| && text[DigitsEnd(text, p)] == '.'
    ensures var p := WhitespaceEnd(text, pos);
      Lex(text, pos) == Step(Ok(RealLiteral(text[p..Lex(text, pos).next])), Lex(text, pos).next)
    ensures var p := WhitespaceEnd(text, pos);
      IsRealSpelling(text[p..Lex(text, pos).next])
  {
    var p := WhitespaceEnd(text, pos);
    LexDigitsAt(text, pos);
    var e := DigitsEnd(text, p);
    var f := DigitsEnd(text, e + 1);
    var w := text[p..f];
    var j := e - p;
    assert w[j] == '.' && w[..j] == text[p..e] && w[j + 1..] == text[e + 1..f];
    assert RealSpellingAt(w, j);
  }

  /**
   * A comment stops before its `}`, which the next round then meets as an
   * invalid character; a comment that is never closed runs to `Eof`.
   */
  lemma {:induction false} CommentLeavesCloseBrace(text: string, pos: nat)
    requires pos <= |text|
    requires WhitespaceEnd(text, pos) < |text| && text[WhitespaceEnd(text, pos)] == '{'
    ensures var q := CommentEnd(text, WhitespaceEnd(text, pos) + 1);
      Lex(text, pos) == if q < |text| then Step(Err(InvalidCharacter('}')), q) else Step(Ok(Eof), |text|)
  {
    var q := CommentEnd(text, WhitespaceEnd(text, pos) + 1);
    assert Lex(text, pos) == Lex(text, q);
    WhitespaceRun(text, q, q);
  }

  /** Any other character that starts no token is an invalid character, and the cursor stays on it. */
  lemma {:induction false} InvalidCharacterFails(text: string, pos: nat)
    requires pos <= |text|
    requires var p := WhitespaceEnd(text, pos);
      p < |text| && text[p] !in "{.,+-*/();:" && !IsDigit(text[p]) && !IsIdentifierStart(text[p])
    ensures var p := WhitespaceEnd(text, pos);
      Lex(text, pos) == Step(Err(InvalidCharacter(text[p])), p)
  {
  }

  /**
   * Where the `Display` text of a spellable token stands in the input,
   * followed by whitespace or the end, `next_token` returns that token and
   * consumes exactly that text.
   */
  lemma {:induction false} LexSpelledToken(text: string, pos: nat, t: Token)
    requires Spellable(t)
    requires pos + |Display(t)| <= |text| && text[pos..pos + |Display(t)|] == Display(t)
    requires pos + |Display(t)| == |text| || IsWhitespace(text[pos + |Display(t)|])
    ensures Lex(text, pos) == Step(Ok(t), pos + |Display(t)|)
  {
    if t in KeywordStrings {
      LexSpelledKeyword(text, pos, t);
    } else if t.IntegerLiteral? {
      LexSpelledInteger(text, pos, t.value);
    } else {
      LexSpelledPunctuation(text, pos, t);
    }
  }

  lemma {:induction false} LexSpelledPunctuation(text: string, pos: nat, t: Token)
    requires Spellable(t) && t !in KeywordStrings && !t.IntegerLiteral?
    requires pos + |Display(t)| <= |text| && text[pos..pos + |Display(t)|] == Display(t)
    requires pos + |Display(t)| == |text| || IsWhitespace(text[pos + |Display(t)|])
    ensures Lex(text, pos) == Step(Ok(t), pos + |Display(t)|)
  {
    var d := Display(t);
    assert text[pos] == d[0];
    WhitespaceRun(text, pos, pos);
    if t == Assign {
      assert text[pos + 1] == d[1];
    }
  }

  lemma {:induction false} LexSpelledKeyword(text: string, pos: nat, t: Token)
    requires t in KeywordStrings
    requires var d := KeywordStrings[t];
      pos + |d| <= |text| && text[pos..pos + |d|] == d && (pos + |d| == |text| || IsWhitespace(text[pos + |d|]))
    ensures Lex(text, pos) == Step(Ok(t), pos + |KeywordStrings[t]|)
  {
    var d := KeywordStrings[t];
    var e := pos + |d|;
    KeywordSpelling(t);
    forall i | 0 <= i < |d| ensures IsAlphabetic(text[pos + i]) && ToUpper(d[i]) == d[i] {
      assert text[pos + i] == d[i];
      assert 'A' <= d[i] <= 'Z';
    }
    assert text[pos] == d[0];
    WhitespaceRun(text, pos, pos);
    AlphanumericRun(text, pos + 1, e);
    LexWordAt(text, pos);
    assert Uppercase(d) == d;
  }

  lemma {:induction false} LexSpelledInteger(text: string, pos: nat, n: u32)
    requires var d := DecimalString(n);
      pos + |d| <= |text| && text[pos..pos + |d|] == d && (pos + |d| == |text| || IsWhitespace(text[pos + |d|]))
    ensures Lex(text, pos) == Step(Ok(IntegerLiteral(n)), pos + |DecimalString(n)|)
  {
    var d := DecimalString(n);
    var e := pos + |d|;
    DecimalRoundTrip(n);
    forall i | pos <= i < e ensures IsDigit(text[i]) {
      assert text[i] == d[i - pos];
    }
    WhitespaceRun(text, pos, pos);
    DigitsRun(text, pos, e);
    LexDigitsAt(text, pos);
  }

  /** The `Display` text of a spellable token, or the empty text of `Eof`, lexes back to the same token. */
  lemma {:induction false} LexDisplay(t: Token)
    requires Spellable(t) || t == Eof
    ensures Lex(Display(t), 0) == Step(Ok(t), |Display(t)|)
  {
    if t != Eof {
      LexSpelledToken(Display(t), 0, t);
    }
  }

  /** Spellable tokens written out one after another, each followed by a space. */
  function Spell(ts: seq<Token>): string
    requires forall i :: 0 <= i < |ts| ==> Spellable(ts[i])
  {
    if ts == [] then ""
    else
      assert Spellable(ts[0]);
      Display(ts[0]) + " " + Spell(ts[1..])
  }

  /** Where `d`, a space and `rest` follow `pos`, each of the three pieces is found where expected. */
  lemma {:induction false} SplitSpelling(text: string, pos: nat, d: string, rest: string)
    requires pos <= |text| && text[pos..] == d + " " + rest
    ensures pos + |d| < |text| && text[pos..pos + |d|] == d
    ensures text[pos + |d|] == ' ' && text[pos + |d| + 1..] == rest
  {
    var s := text[pos..];
    assert text[pos..pos + |d|] == s[..|d|];
    assert text[pos + |d|] == s[|d|];
    assert text[pos + |d| + 1..] == s[|d| + 1..];
  }

  lemma {:induction false} LexSpelledPrefix(text: string, pos: nat, t: Token, rest: string)
    requires Spellable(t) && pos <= |text| && text[pos..] == Display(t) + " " + rest
    ensures Lex(text, pos) == Step(Ok(t), pos + |Display(t)|)
  {
    SplitSpelling(text, pos, Display(t), rest);
    LexSpelledToken(text, pos, t);
  }

  lemma {:induction false} StreamSkipsSpace(text: string, q: nat, tail: seq<Lexed>)
    requires q < |text| && IsWhitespace(text[q])
    requires TokenStream(text, q + 1) == tail
    ensures TokenStream(text, q) == tail
  {
    LexSkipsWhitespace(text, q);
  }

  /** A token other than `Eof` is the head of the stream that continues where it stopped. */
  lemma {:induction false} StreamCons(text: string, pos: nat, t: Token, q: nat, tail: seq<Lexed>)
    requires pos <= |text| && t != Eof
    requires Lex(text, pos) == Step(Ok(t), q)
    requires TokenStream(text, q) == tail
    ensures TokenStream(text, pos) == [Ok(t)] + tail
  {
  }

  /** `next_token` at `p` returns `t` and stops on a whitespace character, just before `n`. */
  ghost predicate LexedBefore(text: string, p: nat, t: Token, n: nat) {
    p <= |text| && t != Eof && 0 < n <= |text| && Lex(text, p) == Step(Ok(t), n - 1) && IsWhitespace(text[n - 1])
  }

  /**
   * The positions `ps` where `next_token` is called when the input spells `ts`:
   * the call at `ps[i]` returns `ts[i]` and the next starts after the
   * whitespace that follows it; after the last only whitespace is left.
   */
  lemma {:induction false} SpelledPositions(text: string, pos: nat, ts: seq<Token>) returns (ps: seq<nat>)
    requires forall i :: 0 <= i < |ts| ==> Spellable(ts[i])
    requires pos <= |text| && text[pos..] == Spell(ts)
    ensures |ps| == |ts| + 1 && ps[0] == pos && ps[|ts|] <= |text|
    ensures forall i :: 0 <= i < |ts| ==> LexedBefore(text, ps[i], ts[i], ps[i + 1])
    ensures WhitespaceEnd(text, ps[|ts|]) == |text|
    decreases ts
  {
    if ts == [] {
      SpelledNothing(text, pos);
      ps := [pos];
    } else {
      var t := ts[0];
      SpellCons(ts);
      var rest := Spell(ts[1..]);
      FirstLexedBefore(text, pos, t, rest);
      var tail := SpelledPositions(text, pos + |Display(t)| + 1, ts[1..]);
      ps := [pos] + tail;
      ConsPositions(text, pos, ts, tail, ps);
    }
  }

  lemma {:induction false} SpelledNothing(text: string, pos: nat)
    requires pos <= |text| && text[pos..] == Spell([])
    ensures WhitespaceEnd(text, pos) == |text|
  {
    assert pos == |text|;
    WhitespaceRun(text, pos, pos);
  }

  lemma {:induction false} SpellCons(ts: seq<Token>)
    requires forall i :: 0 <= i < |ts| ==> Spellable(ts[i])
    requires ts != []
    ensures Spellable(ts[0]) && Spell(ts) == Display(ts[0]) + " " + Spell(ts[1..])
  {
  }

  /** Positions for the tokens after the first, behind the position of the first. */
  lemma {:induction false} ConsPositions(text: string, pos: nat, ts: seq<Token>, tail: seq<nat>, ps: seq<nat>)
    requires ts != [] && |tail| == |ts| && ps == [pos] + tail
    requires LexedBefore(text, pos, ts[0], tail[0])
    requires forall i :: 0 <= i < |ts| - 1 ==> LexedBefore(text, tail[i], ts[1..][i], tail[i + 1])
    ensures |ps| == |ts| + 1 && ps[0] == pos && ps[|ts|] == tail[|ts| - 1]
    ensures forall i :: 0 <= i < |ts| ==> LexedBefore(text, ps[i], ts[i], ps[i + 1])
  {
    forall i | 0 <= i < |ts| ensures LexedBefore(text, ps[i], ts[i], ps[i + 1]) {
      if i > 0 {
        assert ps[i] == tail[i - 1] && ps[i + 1] == tail[i] && ts[i] == ts[1..][i - 1];
      }
    }
  }

  /** The first token of a spelling is lexed just before the space that follows it. */
  lemma {:induction false} FirstLexedBefore(text: string, pos: nat, t: Token, rest: string)
    requires Spellable(t) && pos <= |text| && text[pos..] == Display(t) + " " + rest
    ensures var n := pos + |Display(t)| + 1; LexedBefore(text, pos, t, n) && n <= |text| && text[n..] == rest
  {
    LexSpelledPrefix(text, pos, t, rest);
    SplitSpelling(text, pos, Display(t), rest);
  }

  lemma {:induction false} PositionStep(text: string, p: nat, t: Token, n: nat, tail: seq<Lexed>)
    requires LexedBefore(text, p, t, n) && TokenStream(text, n) == tail
    ensures TokenStream(text, p) == [Ok(t)] + tail
  {
    StreamSkipsSpace(text, n - 1, tail);
    StreamCons(text, p, t, n - 1, tail);
  }

  /** The results `Ok(ts[k])`, ..., then `Ok(Eof)`. */
  function OksFrom(ts: seq<Token>, k: nat): (r: seq<Lexed>)
    requires k <= |ts|
    ensures |r| == |ts| - k + 1
    decreases |ts| - k
  {
    if k == |ts| then [Ok(Eof)] else [Ok(ts[k])] + OksFrom(ts, k + 1)
  }

  lemma {:induction false} OksFromIsOks(ts: seq<Token>, k: nat)
    requires k <= |ts|
    ensures OksFrom(ts, k) == Oks(ts[k..]) + [Ok(Eof)]
    decreases |ts| - k
  {
    if k < |ts| {
      OksFromIsOks(ts, k + 1);
      assert ts[k..] == [ts[k]] + ts[k + 1..];
      assert Oks(ts[k..]) == [Ok(ts[k])] + Oks(ts[k + 1..]);
    }
  }

  /** Calls at the positions `ps[k..]` make up the rest of the token stream. */
  lemma {:induction false} PositionsStream(text: string, ps: seq<nat>, ts: seq<Token>, k: nat)
    requires |ps| == |ts| + 1 && k <= |ts| && ps[|ts|] <= |text|
    requires forall i :: 0 <= i < |ts| ==> LexedBefore(text, ps[i], ts[i], ps[i + 1])
    requires WhitespaceEnd(text, ps[|ts|]) == |text|
    ensures ps[k] <= |text| && TokenStream(text, ps[k]) == OksFrom(ts, k)
    decreases |ts| - k
  {
    if k == |ts| {
      EofIsFinal(text, ps[k]);
    } else {
      PositionsStream(text, ps, ts, k + 1);
      PositionStep(text, ps[k], ts[k], ps[k + 1], OksFrom(ts, k + 1));
    }
  }

  /** Lexing spelt-out tokens to the end yields exactly those tokens, then `Eof`. */
  lemma {:induction false} SpelledStream(text: string, pos: nat, ts: seq<Token>)
    requires forall i :: 0 <= i < |ts| ==> Spellable(ts[i])
    requires pos <= |text| && text[pos..] == Spell(ts)
    ensures TokenStream(text, pos) == Oks(ts) + [Ok(Eof)]
  {
    var ps := SpelledPositions(text, pos, ts);
    PositionsStream(text, ps, ts, 0);
    OksFromIsOks(ts, 0);
    assert ts[0..] == ts;
  }

  /** The whole input `Spell(ts)` lexes as `ts` followed by `Eof`. */
  lemma {:induction false} SpelledTokensLexBack(ts: seq<Token>)
    requires forall i :: 0 <= i < |ts| ==> Spellable(ts[i])
    ensures TokenStream(Spell(ts), 0) == Oks(ts) + [Ok(Eof)]
  {
    var text := Spell(ts);
    assert text[0..] == text;
    SpelledStream(text, 0, ts);
  }
}
