/**
 * One pass of the read-evaluate loop of src/main.rs: the line is lexed and
 * parsed, and the tree is interpreted in a fresh, empty scope. Reading the
 * line and printing the scope are left to the caller.
 */
module Pipeline {

  import opened Wrappers
  import opened Lexing
  import opened Parsing
  import Ast
  import opened Interpreter
  import InterpreterProperties

  /** `Lexer::new`, `Parser::new` and `parse` on one line. */
  method ParseLine(line: string) returns (r: Result<Ast.AST, ParseError>)
    ensures r == ParseText(line)
  {
    var lexer := new Lexer(line);
    var parser :- Parser.New(lexer);
    r := parser.Parse();
  }

  /** What one line does: the parse error `main` returns, or the tree's evaluation in a new scope. */
  function RunText(line: string): Result<Evaluated, ParseError> {
    match ParseText(line)
    case Err(e) => Err(e)
    case Ok(a) => Ok(Eval(a, map[]))
  }

  /** The body of `main`'s loop on one line, returning the scope it would print. */
  method RunLine(line: string) returns (r: Result<Evaluated, ParseError>)
    ensures r == RunText(line)
  {
    var ast :- ParseLine(line);
    var scope := new Scope();
    var value := Interpret(ast, scope);
    return Ok(Evaluated(value, scope.symbols));
  }

  /**
   * The parser builds no assignments, so the scope `main` prints after a
   * line that parses is always empty.
   */
  lemma PrintedScopeIsEmpty(line: string)
    requires RunText(line).Ok?
    ensures RunText(line).value.scope == map[]
  {
    var a := ParseText(line).value;
    Ast.WellTokenedIsArithmetic(a);
    InterpreterProperties.ArithmeticKeepsScope(a, map[]);
  }
}
