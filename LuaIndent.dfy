/** Step 2 of fix_lua_style.py, `fix_indentation`. */
module LuaIndent {
  import opened Text

  // -------------------------------------------------------------------
  // Step 2: fix_indentation

  predicate IsBlank(c: char) {
    c == ' '
  }

  /** `len(line) - len(line.lstrip(' '))`: the number of leading spaces. */
  function LeadingSpaces(line: string): (n: nat)
    ensures n <= |line|
    ensures forall i {:trigger IsBlank(line[i])} :: 0 <= i < n ==> IsBlank(line[i])
    ensures n < |line| ==> !IsBlank(line[n])
  {
    Span(line, IsBlank)
  }

  /** `'\t' * n`. */
  function Tabs(n: nat): (r: string)
    ensures |r| == n && forall i :: 0 <= i < n ==> r[i] == '\t'
  {
    seq(n, _ => '\t')
  }

  /** The indentation unit the leading spaces are read in: 4 when they divide by 4, else 2. */
  function Unit(n: nat): nat {
    if n % 4 == 0 then 4 else 2
  }

  /**
   * One line of `fix_indentation`: an even, non-zero number of leading
   * spaces becomes one tab per indentation unit; other lines are kept.
   */
  function IndentLine(line: string): (r: string)
    ensures r != line <==> LeadingSpaces(line) > 0 && LeadingSpaces(line) % 2 == 0
    ensures r != line ==> var n := LeadingSpaces(line);
      Unit(n) * (|r| - (|line| - n)) == n && r == Tabs(|r| - (|line| - n)) + line[n..]
    ensures r != line ==> |r| > 0 && r[0] == '\t' && LeadingSpaces(r) == 0
    ensures '\n' !in line ==> '\n' !in r
  {
    var n := LeadingSpaces(line);
    if n > 0 && n % 4 == 0 then Tabs(n / 4) + line[n..]
    else if n > 0 && n % 2 == 0 then Tabs(n / 2) + line[n..]
    else line
  }

  /** `fix_indentation`: what the text becomes. */
  function IndentAll(content: string): string {
    Join(MapLines(IndentLine, Split(content, '\n')), '\n')
  }

  /** The lines of the result are the input's lines, each re-indented. */
  lemma IndentAllLines(content: string)
    ensures Split(IndentAll(content), '\n') == MapLines(IndentLine, Split(content, '\n'))
  {
    MapLinesJoin(IndentLine, content, '\n');
  }

  /** Re-indenting an already re-indented text changes nothing. */
  lemma IndentAllIdempotent(content: string)
    ensures IndentAll(IndentAll(content)) == IndentAll(content)
  {
    IndentAllLines(content);
    var out := MapLines(IndentLine, Split(content, '\n'));
    assert MapLines(IndentLine, out) == out;
  }

  /** The loop of `fix_indentation`: each line re-indented, in order. */
  method IndentEach(lines: seq<string>) returns (fixed: seq<string>)
    ensures fixed == MapLines(IndentLine, lines)
  {
    fixed := [];
    for i := 0 to |lines|
      invariant fixed == MapLines(IndentLine, lines[..i])
    {
      MapLinesSnoc(IndentLine, lines, i);
      var line := lines[i];
      var n := LeadingSpaces(line);
      if n > 0 {
        var tabs;
        if n % 4 == 0 {
          tabs := n / 4;
        } else if n % 2 == 0 {
          tabs := n / 2;
        } else {
          fixed := fixed + [line];
          continue;
        }
        fixed := fixed + [Tabs(tabs) + line[n..]];
      } else {
        fixed := fixed + [line];
      }
    }
    assert lines[..|lines|] == lines;
  }

  /** `fix_indentation`: split into lines, re-indent each, join. */
  method FixIndentation(content: string) returns (r: string)
    ensures r == IndentAll(content)
    ensures |Split(r, '\n')| == |Split(content, '\n')|
  {
    var fixed := IndentEach(Split(content, '\n'));
    r := Join(fixed, '\n');
    IndentAllLines(content);
  }
}
