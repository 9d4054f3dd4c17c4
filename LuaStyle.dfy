/**
 * The style fixer of fix_lua_style.py.  The text of one Lua file goes
 * through four rewrites, in this order:
 *
 *   1. `import "name"` becomes `import("name")` (one `re.sub` on the text);
 *   2. leading spaces become tabs, line by line;
 *   3. a qualified name followed by `{` gets `({` inserted, line by line;
 *   4. a line followed by a closing `}` or `)` line gets a trailing comma.
 *
 * Steps 2 to 4 split the text on `\n`, rewrite each line in a loop and
 * join the lines again; they are methods proved against the functions
 * that state what each line becomes.
 */
module LuaStyle {
  import opened Text
  import opened LuaImport
  import opened LuaIndent
  import opened LuaBraces
  import opened LuaCommas

  /**
   * `fix_string_quotes`: single quotes are left as they are, so the text
   * comes back unchanged.  `process_lua_file` does not call it.
   */
  function FixStringQuotes(content: string): (r: string)
    ensures r == content
  {
    content
  }

  /** What `process_lua_file` makes of a file's text: the four rewrites, in order. */
  function Restyle(content: string): string {
    CommaAll(BraceAll(IndentAll(FixImportSyntax(content))))
  }

  /**
   * Steps 2 to 4 keep the number of lines: only the import rewrite, whose
   * whitespace and name may span line breaks, can change it.
   */
  lemma RestyleLines(content: string)
    ensures |Split(Restyle(content), '\n')| == |Split(FixImportSyntax(content), '\n')|
  {
    var c1 := FixImportSyntax(content);
    var c2 := IndentAll(c1);
    var c3 := BraceAll(c2);
    IndentAllLines(c1);
    BraceAllLines(c2);
    CommaAllLines(c3);
  }

  /**
   * `process_lua_file` without its file access: the text is rewritten step
   * by step, and a change is reported exactly when the result differs from
   * the original (only then is the file written back).
   */
  method ProcessLuaFile(original: string) returns (content: string, changed: bool)
    ensures content == Restyle(original)
    ensures changed <==> content != original
  {
    content := original;
    content := FixImportSyntax(content);
    content := FixIndentation(content);
    content := FixFunctionCallBraces(content);
    content := FixTrailingCommas(content);
    changed := content != original;
  }
}
