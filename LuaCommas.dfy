/** Step 4 of fix_lua_style.py, `fix_trailing_commas`. */
module LuaCommas {
  import opened Text

  /** Line 118: the next line, stripped, starts with `}` or `)`. */
  predicate ClosesBlock(next: string) {
    var t := Strip(next);
    StartsWith(t, "}") || StartsWith(t, ")")
  }

  /**
   * Lines 120-125: a line, its trailing whitespace removed, takes a comma:
   * it is not empty, does not already end a list item or open or close a
   * bracket, and is not a comment.
   */
  predicate WantsComma(stripped: string) {
    stripped != [] &&
    !EndsWith(stripped, ",") && !EndsWith(stripped, "{") && !EndsWith(stripped, "(") && !EndsWith(stripped, "[") &&
    !StartsWith(Strip(stripped), "--") &&
    !EndsWith(stripped, "}") && !EndsWith(stripped, ")")
  }

  /**
   * Line `i` of `fix_trailing_commas`: the line without its trailing
   * whitespace, with a comma when the next line closes a block; a line
   * that is all whitespace is kept as it is.
   */
  function CommaLine(lines: seq<string>, i: nat): string
    requires i < |lines|
  {
    var stripped := RStrip(lines[i]);
    var fixed := if i < |lines| - 1 && ClosesBlock(lines[i + 1]) && WantsComma(stripped) then stripped + "," else stripped;
    if fixed != [] then fixed else lines[i]
  }

  /** The trailing whitespace of a line is gone only where something else is left. */
  lemma RStripEmpty(s: string)
    ensures RStrip(s) == [] <==> AllSpace(s)
  {
    var r := RStrip(s);
    if r != [] {
      assert s[|r| - 1] == r[|r| - 1];
    } else {
      assert s == s[|r|..];
    }
  }

  /**
   * What a line becomes: a whitespace-only line is kept, any other loses
   * its trailing whitespace and gains at most a comma; no line break is
   * introduced.
   */
  lemma CommaLineShape(lines: seq<string>, i: nat)
    requires i < |lines|
    ensures AllSpace(lines[i]) ==> CommaLine(lines, i) == lines[i]
    ensures !AllSpace(lines[i]) ==> CommaLine(lines, i) == RStrip(lines[i]) || CommaLine(lines, i) == RStrip(lines[i]) + ","
    ensures '\n' !in lines[i] ==> '\n' !in CommaLine(lines, i)
  {
    RStripEmpty(lines[i]);
    var r := RStrip(lines[i]);
    assert forall c :: c in r ==> c in lines[i];
  }

  /** A comma is appended exactly when the next line closes a block and the line wants one. */
  lemma CommaLineAdds(lines: seq<string>, i: nat)
    requires i < |lines|
    ensures CommaLine(lines, i) == RStrip(lines[i]) + "," <==>
      i + 1 < |lines| && ClosesBlock(lines[i + 1]) && WantsComma(RStrip(lines[i]))
  {
    var r := RStrip(lines[i]);
    RStripEmpty(lines[i]);
    if r == [] {
      assert !IsSpace(',');
      assert lines[i] != r + ",";
    } else {
      assert |r + ","| != |r|;
    }
  }

  /** Every line of the text, each looked at with the line after it. */
  function CommaLines(lines: seq<string>): (r: seq<string>)
    ensures |r| == |lines|
    ensures forall i :: 0 <= i < |lines| ==> r[i] == CommaLine(lines, i)
  {
    seq(|lines|, i requires 0 <= i < |lines| => CommaLine(lines, i))
  }

  /** `fix_trailing_commas`: what the text becomes. */
  function CommaAll(content: string): string {
    Join(CommaLines(Split(content, '\n')), '\n')
  }

  /** The lines of the result are the input's lines, each with its comma fix: the line count is kept. */
  lemma CommaAllLines(content: string)
    ensures Split(CommaAll(content), '\n') == CommaLines(Split(content, '\n'))
  {
    var lines := Split(content, '\n');
    var out := CommaLines(lines);
    forall i | 0 <= i < |out| ensures '\n' !in out[i] {
      assert '\n' !in lines[i];
      CommaLineShape(lines, i);
    }
    SplitJoin(out, '\n');
  }

  /** The body of the loop of `fix_trailing_commas`, for line `i`. */
  method FixLine(lines: seq<string>, i: nat) returns (r: string)
    requires i < |lines|
    ensures r == CommaLine(lines, i)
  {
    var line := lines[i];
    var stripped := RStrip(line);
    if i < |lines| - 1 {
      var nextLine := Strip(lines[i + 1]);
      if StartsWith(nextLine, "}") || StartsWith(nextLine, ")") {
        if stripped != [] && !EndsWith(stripped, ",") && !EndsWith(stripped, "{")
          && !EndsWith(stripped, "(") && !EndsWith(stripped, "[")
        {
          if !StartsWith(Strip(stripped), "--") {
            if !EndsWith(stripped, "}") && !EndsWith(stripped, ")") {
              stripped := stripped + ",";
            }
          }
        }
      }
    }
    r := if stripped != [] then stripped else line;
  }

  /** The loop of `fix_trailing_commas`: each line fixed, looking at the next one. */
  method CommaEach(lines: seq<string>) returns (fixed: seq<string>)
    ensures fixed == CommaLines(lines)
  {
    fixed := [];
    for i := 0 to |lines|
      invariant fixed == CommaLines(lines)[..i]
    {
      var line := FixLine(lines, i);
      PrefixStep(CommaLines(lines), i);
      fixed := fixed + [line];
    }
    assert CommaLines(lines)[..|lines|] == CommaLines(lines);
  }

  /** `fix_trailing_commas`: split into lines, fix each, join. */
  method FixTrailingCommas(content: string) returns (r: string)
    ensures r == CommaAll(content)
    ensures |Split(r, '\n')| == |Split(content, '\n')|
  {
    var fixed := CommaEach(Split(content, '\n'));
    r := Join(fixed, '\n');
    CommaAllLines(content);
  }
}
