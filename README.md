# A verified model of a tutorial arithmetic interpreter

This project models the core of a small interpreter for a Pascal-like
arithmetic language, written in Rust. The interpreter is a pipeline:

- **Lexer** (`src/lexer.rs`): a cursor over the input characters. Each call returns the next token.
- **Parser** (`src/parser.rs`): recursive descent with one token of lookahead. It builds a syntax tree (`src/ast.rs`).
- **Interpreter** (`src/interpreter.rs`): walks the tree and computes a signed 32-bit value. It reads and writes a scope of named variables.
- **Renderers** (`src/render.rs`): print an arithmetic tree in postfix or as an s-expression.

The model follows the program's structure:

| file | module | what it holds |
|---|---|---|
| `wrappers.dfy` | `Wrappers` | `Option` and `Result` |
| `chars.dfy` | `Chars` | ASCII character classes and decimal numerals |
| `tokens.dfy` | `Tokens` | `Token`, the two keyword tables and `Display` |
| `lexer.dfy` | `Lexing` | `Lex`, the specification of one `next_token` call; the `Lexer` class, whose methods are proved to compute it |
| `lexer_props.dfy` | `LexerProperties` | what one call of `next_token` promises, and the round trip from tokens to text and back |
| `ast.dfy` | `Ast` | the tree and its three constructors |
| `parser.dfy` | `Parsing` | one function per parser method, over the token stream ahead; the `Parser` class, proved to compute them |
| `parser_props.dfy` | `ParserProperties` | precedence, associativity, the sign quirk, errors, and printing a tree and parsing it back |
| `interpreter.dfy` | `Interpreter` | `Eval`; the `Scope` class; the `Interpret` method, proved to compute `Eval` |
| `interpreter_props.dfy` | `InterpreterProperties` | Rust's division, evaluation order, which rule writes the scope, `Compound`, exact arithmetic |
| `render.dfy`, `render_props.dfy` | `Render`, `RenderProperties` | the two printers; stack machines that run the postfix text and the s-expression text |
| `pipeline.dfy` | `Pipeline` | one line of the read-evaluate loop of `src/main.rs` |

Two layers carry the proofs:

- **Imperative layer.** `Lexer` and `Parser` are classes with mutable fields, as in the source. `Scope` holds a map the methods reassign. Each method's `ensures` ties its result and its new state to a function of the old state: `Lex` for the lexer, `AdvanceOn` … `ParseExpr` for the parser, `Eval` for the interpreter.
- **Property layer.** The lemmas prove what the source promises about those functions.

### Reconciliations

The source files are out of step with each other. The model reconciles them as follows:

- `parser.rs:46` matches `Token::Integer { value }`. The literal token is `IntegerLiteral { value }` (`lexer.rs:11`), so the parser reads `IntegerLiteral`.
- `parser.rs:60` and `ast.rs:56` use `Token::Divide`. The character `/` lexes to `RealDivide` (`lexer.rs:182-185`), so `RealDivide` is the division token.
- `interpreter.rs` evaluates `Compound`, `Assign` and `Variable` nodes, which `ast.rs:31-35` does not declare. They are added to `Ast.AST`.
- Two fields are renamed, because one Dafny destructor name cannot have two types in one datatype:
  - the unary operator is `uop`;
  - a variable's name is `name` (the Rust field is `value`).

### Behaviour kept as the code has it

- An integer literal above `u32::MAX` makes `unwrap` fail (`lexer.rs:132`). It does not wrap around.
- An identifier may start with `_`, but every later character must be a letter or digit (`lexer.rs:139-143`).
- Variable names are used as spelled. Only the keyword lookup upper-cases a word (`lexer.rs:213`); the identifier token keeps the original text (`lexer.rs:215`), and `assign` and `get` key the scope by the name exactly as given (`interpreter.rs:17-23`).
- `parse` returns after the longest expression and never checks for `Eof` (`parser.rs:86-88`). The parser covers expressions only.

## Model

| member | source | states |
|---|---|---|
| Chars.ToUpper | src/lexer.rs:213 | Upper-casing keeps letters letters, maps exactly the letters into `A`–`Z`, moves each lower-case letter 32 code points down to its capital, and leaves every other character unchanged |
| Chars.DecimalRoundTrip | src/lexer.rs:63 | The decimal spelling `to_string` gives a number reads back as that number |
| Tokens.KeywordTablesInverse | src/lexer.rs:35-55 | `KEYWORD_STRINGS` is exactly the inverse of `KEYWORD_TOKENS`, in both directions |
| Tokens.Display | src/lexer.rs:58-80 | A keyword displays as its upper-case word, which the keyword table maps back to it; an integer literal as a decimal numeral of its value; an identifier as its exact name; `Eof` as nothing. `LexDisplay` proves that lexing the text gives the token back |
| Tokens.KeywordSpelling | src/lexer.rs:48-54 | A keyword token's string is an upper-case word that the keyword table maps back to that token |
| Lexing.WhitespaceEnd | src/lexer.rs:108-112 | Skipping whitespace stops at the first character that is not whitespace, or at the end |
| Lexing.CommentEnd | src/lexer.rs:114-118 | A comment runs up to, but not over, the first `}`, or to the end of the input |
| Lexing.DigitsEnd | src/lexer.rs:122-124 | A digit run stops at the first non-digit |
| Lexing.IdentifierEnd | src/lexer.rs:137-146 | An identifier takes one letter or `_`, then letters and digits only, and stops at the first other character |
| Lexing.LexNumber | src/lexer.rs:120-135 | `number` consumes at least one character and yields an integer literal, a real literal or the overflow error, nothing else; `LiteralAboveU32Overflows` and `RealLiteralKeepsText` fix which one and its content |
| Lexing.Dispatch | src/lexer.rs:150-221 | The `match` on the character reached after whitespace never moves back, gives `Eof` only at the end, and consumes at least one character for every other token; `LexedTokenIsSpelled`, `ColonOrAssign`, `CommentLeavesCloseBrace` and `InvalidCharacterFails` pin its arms down |
| Lexing.Lex | src/lexer.rs:148-223 | The cursor never moves back; `Eof` comes only at the end of the input; every token other than `Eof` consumes at least one character |
| Lexing.TokenStream | src/lexer.rs:148-223 | Repeated calls give tokens up to the first `Eof` or error, starting with the first call's result |
| Lexing.Lexer.constructor | src/lexer.rs:92-96 | A new lexer stands on the first character of its input |
| Lexing.Lexer.Advance | src/lexer.rs:98-102 | `advance` returns the current character and moves one character on |
| Lexing.Lexer.Peek | src/lexer.rs:104-106 | `peek` looks at the character after `current`: it is true only when a current character exists and the next one is `c`. `NextToken` uses it for `:=` (see `ColonOrAssign`) |
| Lexing.Lexer.SkipWhitespace | src/lexer.rs:108-112 | The loop leaves the cursor where `WhitespaceEnd` says |
| Lexing.Lexer.SkipComment | src/lexer.rs:114-118 | The loop leaves the cursor where `CommentEnd` says |
| Lexing.Lexer.Digits | src/lexer.rs:122-124 | The loop consumes the digit run and returns exactly its text |
| Lexing.Lexer.Number | src/lexer.rs:120-135 | `number` returns and consumes what `LexNumber` says: an integer, a real with its text, or the overflow failure |
| Lexing.Lexer.Identifier | src/lexer.rs:137-146 | `identifier` consumes up to `IdentifierEnd` and returns exactly the text consumed |
| Lexing.Lexer.NextToken | src/lexer.rs:148-223 | `next_token` returns and consumes exactly what `Lex` says, the recursion after a comment included |
| LexerProperties.LexSkipsWhitespace | src/lexer.rs:149 | Whitespace before a token changes neither the token nor the rest of the stream |
| LexerProperties.EofIsFinal | src/lexer.rs:149-153 | Input that is all whitespace gives `Eof` and consumes it all; after `Eof` every call gives `Eof` again |
| LexerProperties.ColonOrAssign | src/lexer.rs:198-207 | `:=` is one `Assign` token of two characters; a `:` without `=` is `Colon` and consumes the colon alone |
| LexerProperties.KeywordsInAnyCase | src/lexer.rs:211-216 | Any spelling of a keyword, in any mix of cases, lexes as that keyword and consumes the whole word |
| LexerProperties.IdentifierKeepsSpelling | src/lexer.rs:211-216 | A word that is not a keyword lexes as `Identifier` with its exact original spelling |
| LexerProperties.UnderscoreEndsIdentifier | src/lexer.rs:137-146 | `a_b` lexes as identifier `a`, then identifier `_b`: a `_` is allowed only first |
| LexerProperties.LiteralAboveU32Overflows | src/lexer.rs:120-135 | At any position, a digit run that no `.` follows is an integer literal of exactly its value when that fits in a `u32`, and otherwise fails with the overflow error on the run's text, ending where the run ends: it never wraps |
| LexerProperties.DecimalAboveU32Overflows | src/lexer.rs:132 | The decimal spelling of every number above `u32::MAX`, lexed alone, fails with the overflow error |
| LexerProperties.RealLiteralKeepsText | src/lexer.rs:125-130 | Digits followed by `.` give `RealLiteral` holding exactly the text consumed: digits, dot and any digits after it |
| LexerProperties.CommentLeavesCloseBrace | src/lexer.rs:157-161 | After a comment the closing `}` is an invalid character; an unclosed comment runs to `Eof` |
| LexerProperties.InvalidCharacterFails | src/lexer.rs:218-220 | A character that starts no token fails as an invalid character, and the cursor stays on it |
| LexerProperties.LexedTokenIsSpelled | src/lexer.rs:148-223 | Every token returned, other than `Eof`, is spelled by the characters just consumed: keywords in any case, identifiers exactly, integers by value, reals by their text |
| LexerProperties.LexSpelledToken | src/lexer.rs:58-80 | Where a spellable token's `Display` text stands before whitespace or the end, `next_token` returns that token and consumes exactly that text |
| LexerProperties.LexDisplay | src/lexer.rs:58-80 | Lexing the `Display` text of a keyword, punctuation or integer-literal token gives that token back |
| LexerProperties.SpelledTokensLexBack | src/lexer.rs:58-80 | Any sequence of such tokens, each displayed and followed by a space, lexes back to exactly those tokens followed by `Eof` |
| Ast.OpText | src/ast.rs:19-28 | Each binary operator displays as one character that is no letter, digit, whitespace or parenthesis; `OpTextInjective` proves the four are distinct |
| Ast.OpTextInjective | src/ast.rs:19-28 | The four binary operators display as four distinct one-character symbols |
| Ast.UnaryNode | src/ast.rs:38-49 | `unary_op` maps `Plus` to the `Plus` operator and `Minus` to `Minus`, and keeps its token and operand |
| Ast.BinaryNode | src/ast.rs:51-65 | `binary_op` keeps its token and both operands; the operator displays with the same text as the token |
| Ast.NumberNode | src/ast.rs:67-72 | `number` keeps its token and value |
| Ast.BinaryOperatorOfInjective | src/ast.rs:51-58 | Distinct operator tokens give distinct operators, each displayed as its token is |
| Ast.WellTokenedIsArithmetic | src/ast.rs:31-72 | The constructors build only the node kinds `ast.rs` declares |
| Parsing.AdvanceOn | src/parser.rs:19-23 | `advance` returns the current token and makes the lexer's next result current; a lexer failure is returned as the error |
| Parsing.EatOn | src/parser.rs:25-32 | `eat(t)` advances only when the current token is `t`, and otherwise fails with `Expected(t)` |
| Parsing.ParseFactor | src/parser.rs:34-54 | `factor` consumes at least one token and builds a tree whose nodes each carry their own token |
| Parsing.ParseTerm | src/parser.rs:56-69 | `term` consumes at least one token and builds a well-formed tree |
| Parsing.ParseExpr | src/parser.rs:71-84 | `expr` consumes at least one token and builds a well-formed tree |
| Parsing.ParseTokens | src/parser.rs:86-88 | A first lexer failure is the parse error; otherwise `parse` returns `expr`'s tree |
| Parsing.Parser.New | src/parser.rs:11-17 | `new` reads exactly one token, or fails with the lexer's error |
| Parsing.Parser.Advance | src/parser.rs:19-23 | The method computes `AdvanceOn` on the stream it sees |
| Parsing.Parser.Eat | src/parser.rs:25-32 | The method computes `EatOn`; on a mismatch the token and the lexer are left as they were |
| Parsing.Parser.Factor | src/parser.rs:34-54 | The method computes `ParseFactor` |
| Parsing.Parser.Signed | src/parser.rs:36-39 | The sign arm computes `ParseFactor`: the sign, then a whole expression as its operand |
| Parsing.Parser.Parenthesised | src/parser.rs:40-45 | The parenthesis arm computes `ParseFactor`: `(`, an expression, then `)` must follow |
| Parsing.Parser.Literal | src/parser.rs:46-49 | The integer arm computes `ParseFactor`: a number node carrying the literal token |
| Parsing.Parser.Term | src/parser.rs:56-69 | The loop computes `ParseTerm` |
| Parsing.Parser.Expr | src/parser.rs:71-84 | The loop computes `ParseExpr` |
| Parsing.Parser.Parse | src/parser.rs:86-88 | `parse` is `expr` and leaves what follows unread |
| ParserProperties.FactorRoundTrip | src/parser.rs:34-54 | The printed tokens of a number, signed operand or parenthesised expression parse back by `factor` to the same tree |
| ParserProperties.TermRoundTrip | src/parser.rs:56-69 | The printed tokens of a product parse back by `term`, left-folded |
| ParserProperties.ExprRoundTrip | src/parser.rs:71-84 | The printed tokens of a sum parse back by `expr`, left-folded |
| ParserProperties.SignedRoundTrip | src/parser.rs:36-39 | A sign followed by any expression's tokens parses as the sign applied to the whole expression |
| ParserProperties.StopsBeforeTrailingTokens | src/parser.rs:86-88 | `parse` stops after the longest expression and leaves the token after it unread |
| ParserProperties.ParseUnparseTokens | src/parser.rs:86-88 | Every tree the parser can build is parsed back from its printed tokens |
| ParserProperties.ParseUnparseText | src/parser.rs:86-88 | Every tree the parser can build is parsed back from its printed text: lexing and parsing invert the printer |
| ParserProperties.TrailingTokensIgnored | src/parser.rs:86-88 | Text with an extra non-operator token after a complete expression still parses to that expression |
| ParserProperties.NonOperandFails | src/parser.rs:50-52 | A factor that starts with anything but a sign, `(` or an integer fails with "expected integer" |
| ParserProperties.MissingCloseParen | src/parser.rs:40-45 | A parenthesised expression not followed by `)` fails with `Expected(CloseParen)` |
| ParserProperties.SignTakesWholeExpression | src/parser.rs:36-39 | A sign's text followed by an expression's text parses as the signed expression |
| ParserProperties.SignTakesWholeSum | src/parser.rs:36-39 | `- x + y` parses as `-(x + y)` |
| ParserProperties.ProductBindsTighter | src/parser.rs:56-84 | `x + y * z` parses as `x + (y * z)` |
| ParserProperties.DifferenceGroupsLeft | src/parser.rs:71-84 | `x - y - z` parses as `(x - y) - z` |
| Interpreter.AsI32 | src/interpreter.rs:58-60 | A literal's `u32` becomes the `i32` with the same 32 bits: congruent modulo 2^32, negative exactly above `i32::MAX` |
| Interpreter.Negate | src/interpreter.rs:39-45 | Unary minus negates, and faults exactly on `i32::MIN` |
| Interpreter.TruncDiv | src/interpreter.rs:54 | Rust's `/`: the quotient's magnitude is the quotient of the magnitudes, and it is negative only when the signs differ and positive only when they agree; `TruncDivRoundsTowardZero` bounds the remainder |
| Interpreter.Apply | src/interpreter.rs:47-56 | `+`, `-` and `*` give the mathematical result when it fits in `i32` and overflow otherwise; `/` faults exactly on a zero divisor and otherwise is the checked truncating quotient |
| Interpreter.Eval | src/interpreter.rs:26-68 | `interpret` never removes a binding. `EvalIsExact` proves its value on arithmetic trees, `OnlyAssignWrites` which bindings it may change, `LeftOperandFirst` and `CompoundSnoc` its evaluation order |
| Interpreter.EvalSeq | src/interpreter.rs:28-31 | The `fold` over a `Compound`'s children never removes a binding; `EmptyCompound` and `CompoundSnoc` give its value |
| Interpreter.Lookup | src/interpreter.rs:21-23 | `get` (`Scope.Get` reads its scope through `Lookup`) succeeds exactly for a bound name, with its value; an unbound name is a fault |
| Interpreter.Scope.constructor | src/interpreter.rs:11-15 | A new scope is empty |
| Interpreter.Scope.Assign | src/interpreter.rs:17-19 | `assign` binds the name to the value and changes nothing else |
| Interpreter.Interpret | src/interpreter.rs:26-68 | `interpret` returns the value `Eval` gives and leaves the scope `Eval` gives, the `Compound` loop included |
| InterpreterProperties.TruncDivRoundsTowardZero | src/interpreter.rs:54 | Division rounds toward zero: the remainder is smaller than the divisor and has the dividend's sign, and the quotient is no larger than the dividend |
| InterpreterProperties.TruncDivOfNatural | src/interpreter.rs:54 | On a non-negative dividend and a positive divisor, it is ordinary division |
| InterpreterProperties.DivisionOverflow | src/interpreter.rs:54 | Division by a non-zero divisor overflows exactly for `i32::MIN / -1` |
| InterpreterProperties.OnlyAssignWrites | src/interpreter.rs:26-68 | Evaluation keeps every binding, and adds or changes only names the tree assigns, even when it faults |
| InterpreterProperties.ArithmeticKeepsScope | src/interpreter.rs:39-60 | A tree of numbers and operators leaves the scope unchanged |
| InterpreterProperties.AssignThenGet | src/interpreter.rs:17-23 | After `assign(n, v)`, `get(n)` is `v` and every other name reads as before |
| InterpreterProperties.AssignThenRead | src/interpreter.rs:33-37 | The value of `n := e` is `e`'s value, the scope it leaves binds `n` to that value, and reading `n` right after gives it back |
| InterpreterProperties.UnboundNameFaults | src/interpreter.rs:62-64 | A variable that was never assigned is a fault |
| InterpreterProperties.EmptyCompound | src/interpreter.rs:28-31 | A `Compound` without children is 0 |
| InterpreterProperties.CompoundSnoc | src/interpreter.rs:28-31 | Children run in order, threading the scope, and the last child's value is the compound's |
| InterpreterProperties.LeftOperandFirst | src/interpreter.rs:47-55 | For every pair of operands and scope, a binary node evaluates them as a `Compound` of the two would: left first, the right one in the scope the left one leaves, the first fault ending it with that scope; when both succeed, the operator combines their values |
| InterpreterProperties.LeftAssignmentVisibleToRight | src/interpreter.rs:47-50 | Example: `(x := 1) + x` in an empty scope is 2, while `x` alone would be unbound |
| InterpreterProperties.AssignmentProgram | src/interpreter.rs:28-37 | `x := 2; y := x * 10 + 5` leaves `x` = 2 and `y` = 25 |
| InterpreterProperties.EvalIsExact | src/interpreter.rs:39-60 | An arithmetic tree evaluates without fault exactly when no node divides by zero or leaves the `i32` range; its value is then the exact integer value |
| Render.ToPostfix | src/render.rs:2-21 | Postfix printing accepts exactly the arithmetic trees, and its output has no parentheses |
| Render.ToSExpr | src/render.rs:23-42 | S-expression printing accepts exactly the arithmetic trees, and its output has balanced parentheses |
| RenderProperties.NumberRendersDecimal | src/render.rs:4-6 | A number prints the same in both forms, as the shortest decimal spelling of its value |
| RenderProperties.PostfixComputesValue | src/render.rs:2-21 | The postfix text, split at spaces and run by a stack machine, leaves the tree's exact value, and fails exactly when the tree divides by zero |
| RenderProperties.SExprComputesValue | src/render.rs:23-42 | The s-expression text, with its parentheses dropped and split at spaces, run from the last word to the first by a prefix stack machine, leaves the tree's exact value, and fails exactly when the tree divides by zero |
| Pipeline.ParseLine | src/main.rs:17-19 | `Lexer::new`, `Parser::new` and `parse` on one line compute `ParseText` |
| Pipeline.RunLine | src/main.rs:17-21 | One line is parsed, then interpreted in a fresh empty scope |
| Pipeline.PrintedScopeIsEmpty | src/main.rs:20-22 | The parser builds no assignments, so the scope printed after a line that parses is empty |

## Left out

- **Unicode.** `is_whitespace`, `is_alphabetic`, `is_alphanumeric` and `to_uppercase` are modelled on ASCII. Unicode upper-casing can change a word's length, and the model does not capture that.
- **Iterator and table mechanics.** The `Peekable<Chars>` iterator is a string and an index. The `lazy_static` `HashMap` tables are constant maps.
- **Error values.** The text of error messages and the `io::Error` wrapper (`lexer.rs:87-89`) become typed errors (`LexError`, `ParseError`).
- **Integer literal overflow.** The `unwrap` panic on a literal above `u32::MAX` (`lexer.rs:132`) is the lexer error `IntegerOverflow`.
- **Real literals.** They are kept as text and never evaluated. The model has no floating point.
- **Panics that become preconditions.** `Display` of `Colon` or `Comma`, `unary_op` or `binary_op` on a wrong token, and `advance` with no current character each panic in the source. In the model each is a precondition.
- **Renderer panics.** `to_postfix` and `to_s_expr` panic with "not implemented" on any node that is not a number, unary or binary operation (`render.rs:19`, `render.rs:40`). In the model both printers return `None` there.
- **Interpreter panics.** An unbound name, a zero divisor and `i32::MIN / -1` panic in every build. Overflow of `+`, `-`, `*` and unary `-` panics in a debug build and wraps in a release build. The model makes each of them a `Fault` that stops evaluation, and does not model the release-build wrap.
- **Stack machines for the printed forms.** The postfix machine (`Run`, `PostfixStep`) and the prefix machine that reads an s-expression (`StripParens`, `RunPrefix`) are reference definitions added for the proofs. They are not part of the source.
- **`main.rs` I/O.** Reading stdin, printing and the loop are left out. A parse error ends `main` through `?`, and `RunLine` returns that error instead.
- **`src/number.rs`** is not part of this model. It declares an enum with no operations.
