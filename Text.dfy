/**
 * Character classes and the string helpers the three scripts lean on:
 * the `\s` and `\w` classes of Python's `re`, `str.strip` / `str.rstrip`,
 * `str.split('\n')`, `'\n'.join(...)` and ASCII `str.lower`.
 *
 * Python's `\s`, `\w`, `strip` and `lower` are Unicode-aware; this model
 * keeps their ASCII part: the whitespace below is exactly the ASCII
 * characters Python counts as whitespace, while non-ASCII whitespace,
 * letters and case mappings are not modelled.
 */
module Text {

  /**
   * The ASCII characters that `\s` of Python's `re` matches in a `str`
   * pattern and that `str.strip()` removes: space, tab, LF, VT, FF, CR and
   * the four separators FS, GS, RS and US.
   */
  predicate IsSpace(c: char) {
    c == ' ' || ('\t' <= c <= '\r') || ('\U{001C}' <= c <= '\U{001F}')
  }

  /** `\w` of Python's `re`: letters, digits and underscore. */
  predicate IsWordChar(c: char) {
    ('a' <= c <= 'z') || ('A' <= c <= 'Z') || ('0' <= c <= '9') || c == '_'
  }

  /** `[^\n]`, the class `.` matches. */
  predicate IsNotNewline(c: char) {
    c != '\n'
  }

  /** `[^"]`: anything but a double quote. */
  predicate IsNotQuote(c: char) {
    c != '"'
  }

  /** Every character of `s` is whitespace: what `\s*` matches. */
  predicate AllSpace(s: string) {
    forall i {:trigger IsSpace(s[i])} :: 0 <= i < |s| ==> IsSpace(s[i])
  }

  predicate StartsWith(s: string, prefix: string) {
    |prefix| <= |s| && s[..|prefix|] == prefix
  }

  predicate EndsWith(s: string, suffix: string) {
    |suffix| <= |s| && s[|s| - |suffix|..] == suffix
  }

  /**
   * The length of the longest prefix of `s` made of characters satisfying `p`:
   * what a greedy `[class]*` consumes.
   */
  function Span(s: string, p: char -> bool): (n: nat)
    ensures n <= |s|
    ensures forall i {:trigger p(s[i])} :: 0 <= i < n ==> p(s[i])
    ensures n < |s| ==> !p(s[n])
  {
    if s == [] || !p(s[0]) then 0 else 1 + Span(s[1..], p)
  }

  /** A run is determined by where it stops: the lengths Span is unique for. */
  lemma SpanIs(s: string, p: char -> bool, n: nat)
    requires n <= |s|
    requires forall i :: 0 <= i < n ==> p(s[i])
    requires n < |s| ==> !p(s[n])
    ensures Span(s, p) == n
  {
  }

  /** The run of `p`-characters at the start of `a + b` is `a` when `b` does not start with one. */
  lemma SpanConcat(a: string, b: string, p: char -> bool)
    requires forall i :: 0 <= i < |a| ==> p(a[i])
    requires b == [] || !p(b[0])
    ensures Span(a + b, p) == |a|
  {
    var s := a + b;
    assert forall i :: 0 <= i < |a| ==> s[i] == a[i];
    assert |a| < |s| ==> s[|a|] == b[0];
    SpanIs(s, p, |a|);
  }

  /** `str.lstrip()`: drop the leading whitespace. */
  function LStrip(s: string): (r: string)
    ensures |r| <= |s| && r == s[|s| - |r|..]
    ensures AllSpace(s[..|s| - |r|])
    ensures r == [] || !IsSpace(r[0])
  {
    s[Span(s, IsSpace)..]
  }

  /** `str.rstrip()`: drop the trailing whitespace. */
  function RStrip(s: string): (r: string)
    ensures |r| <= |s| && r == s[..|r|]
    ensures AllSpace(s[|r|..])
    ensures r == [] || !IsSpace(r[|r| - 1])
    decreases |s|
  {
    if s == [] || !IsSpace(s[|s| - 1]) then s
    else
      var r := RStrip(s[..|s| - 1]);
      assert s[|r|..] == s[..|s| - 1][|r|..] + [s[|s| - 1]];
      r
  }

  /** `str.strip()`: drop whitespace at both ends. */
  function Strip(s: string): (r: string)
    ensures |r| <= |s|
    ensures r == [] <==> AllSpace(s)
    ensures r == [] || (!IsSpace(r[0]) && !IsSpace(r[|r| - 1]))
    ensures exists a, b :: s == a + r + b && AllSpace(a) && AllSpace(b)
  {
    var l := LStrip(s);
    StripEmpty(s, l);
    StripParts(s, l);
    RStrip(l)
  }

  /** Stripping both ends leaves nothing exactly when the text is all whitespace. */
  lemma StripEmpty(s: string, l: string)
    requires l == LStrip(s)
    ensures RStrip(l) == [] <==> AllSpace(s)
    ensures RStrip(l) != [] ==> RStrip(l)[0] == l[0]
  {
    var r := RStrip(l);
    if r == [] {
      var a := s[..|s| - |l|];
      assert s == a + l;
      AllSpaceConcat(a, l);
    }
    if AllSpace(s) {
      SpanIs(s, IsSpace, |s|);
    }
  }

  /** Stripping both ends removes a whitespace run at each end and nothing else. */
  lemma StripParts(s: string, l: string)
    requires l == LStrip(s)
    ensures exists a, b :: s == a + RStrip(l) + b && AllSpace(a) && AllSpace(b)
  {
    var r := RStrip(l);
    var a := s[..|s| - |l|];
    var b := l[|r|..];
    assert s == a + l;
    assert l == r + b;
    Between(s, a, l, r, b);
  }

  /** Whitespace before the tail of `s`, and after `r` in that tail, leave `r` between two whitespace runs. */
  lemma Between(s: string, front: string, l: string, r: string, back: string)
    requires s == front + l && l == r + back && AllSpace(front) && AllSpace(back)
    ensures exists a, b :: s == a + r + b && AllSpace(a) && AllSpace(b)
  {
    assert s == front + r + back;
  }

  /** Two runs of whitespace make one. */
  lemma AllSpaceConcat(a: string, b: string)
    requires AllSpace(a) && AllSpace(b)
    ensures AllSpace(a + b)
  {
    assert forall i :: 0 <= i < |a + b| ==> (a + b)[i] == if i < |a| then a[i] else b[i - |a|];
  }

  /** Text that neither starts nor ends with whitespace is left alone by `strip`. */
  lemma StripSolid(s: string)
    requires s != [] && !IsSpace(s[0]) && !IsSpace(s[|s| - 1])
    ensures Strip(s) == s
  {
    assert LStrip(s) == s;
    assert RStrip(s) == s;
  }

  /** ASCII `str.lower()`. */
  function Lower(s: string): (r: string)
    ensures |r| == |s|
    ensures forall i :: 0 <= i < |s| ==> r[i] == if 'A' <= s[i] <= 'Z' then (s[i] as int + 32) as char else s[i]
  {
    seq(|s|, i requires 0 <= i < |s| => if 'A' <= s[i] <= 'Z' then (s[i] as int + 32) as char else s[i])
  }

  /** `s.split(sep)`: the pieces between separators, always at least one. */
  function Split(s: string, sep: char): (parts: seq<string>)
    ensures |parts| >= 1
    ensures forall i :: 0 <= i < |parts| ==> sep !in parts[i]
    decreases |s|
  {
    if s == [] then [""]
    else
      var rest := Split(s[1..], sep);
      if s[0] == sep then [""] + rest else [[s[0]] + rest[0]] + rest[1..]
  }

  /** `sep.join(parts)`. */
  function Join(parts: seq<string>, sep: char): string
  {
    if parts == [] then ""
    else if |parts| == 1 then parts[0]
    else parts[0] + [sep] + Join(parts[1..], sep)
  }

  /** Joining the pieces of a split gives the text back. */
  lemma {:induction false} JoinSplit(s: string, sep: char)
    ensures Join(Split(s, sep), sep) == s
    decreases |s|
  {
    if s != [] {
      var rest := Split(s[1..], sep);
      JoinSplit(s[1..], sep);
      if s[0] == sep {
        assert Split(s, sep) == [""] + rest;
        assert ([""] + rest)[1..] == rest;
        assert s == [sep] + s[1..];
      } else {
        var parts := Split(s, sep);
        assert parts == [[s[0]] + rest[0]] + rest[1..];
        if |rest| == 1 {
          assert s == [s[0]] + s[1..];
        } else {
          assert parts[1..] == rest[1..];
          assert Join(rest, sep) == rest[0] + [sep] + Join(rest[1..], sep);
          assert s == [s[0]] + s[1..];
        }
      }
    }
  }

  /** Splitting text that begins with a separator-free piece extends the first part. */
  lemma {:induction false} SplitPrefix(a: string, t: string, sep: char)
    requires sep !in a
    ensures Split(a + t, sep) == [a + Split(t, sep)[0]] + Split(t, sep)[1..]
    decreases |a|
  {
    if a == [] {
      assert a + t == t;
      var st := Split(t, sep);
      assert st == [st[0]] + st[1..];
      assert a + st[0] == st[0];
    } else {
      SplitPrefix(a[1..], t, sep);
      assert (a + t)[1..] == a[1..] + t;
      assert a + t == [a[0]] + (a[1..] + t);
      assert [a[0]] + (a[1..] + Split(t, sep)[0]) == a + Split(t, sep)[0];
    }
  }

  /** Splitting joined separator-free pieces gives the pieces back. */
  lemma {:induction false} SplitJoin(parts: seq<string>, sep: char)
    requires |parts| >= 1
    requires forall i :: 0 <= i < |parts| ==> sep !in parts[i]
    ensures Split(Join(parts, sep), sep) == parts
    decreases |parts|
  {
    if |parts| == 1 {
      SplitPrefix(parts[0], "", sep);
      assert parts[0] + "" == parts[0];
    } else {
      SplitJoin(parts[1..], sep);
      var j := Join(parts[1..], sep);
      assert Join(parts, sep) == parts[0] + ([sep] + j);
      SplitPrefix(parts[0], [sep] + j, sep);
      assert ([sep] + j)[1..] == j;
      assert Split([sep] + j, sep) == [""] + parts[1..];
      assert parts[0] + "" == parts[0];
      assert parts == [parts[0]] + parts[1..];
    }
  }

  /** `[f(line) for line in lines]`: every line rewritten by `f`, in order. */
  function MapLines(f: string -> string, lines: seq<string>): (r: seq<string>)
    ensures |r| == |lines|
    ensures forall i :: 0 <= i < |lines| ==> r[i] == f(lines[i])
  {
    seq(|lines|, i requires 0 <= i < |lines| => f(lines[i]))
  }

  /** A prefix one element longer: the step of a loop that builds a sequence element by element. */
  lemma PrefixStep<T>(r: seq<T>, i: nat)
    requires i < |r|
    ensures r[..i + 1] == r[..i] + [r[i]]
  {
  }

  /** Rewriting one more line appends its rewrite: the step of a loop that builds the list. */
  lemma MapLinesSnoc(f: string -> string, lines: seq<string>, i: nat)
    requires i < |lines|
    ensures MapLines(f, lines[..i + 1]) == MapLines(f, lines[..i]) + [f(lines[i])]
  {
  }

  /**
   * Splitting a text, rewriting each line with a rewrite that never adds
   * a separator, and joining: the lines of the result are the rewritten lines.
   */
  lemma MapLinesJoin(f: string -> string, s: string, sep: char)
    requires forall line :: sep !in line ==> sep !in f(line)
    ensures Split(Join(MapLines(f, Split(s, sep)), sep), sep) == MapLines(f, Split(s, sep))
  {
    var out := MapLines(f, Split(s, sep));
    forall i | 0 <= i < |out| ensures sep !in out[i] {
      assert sep !in Split(s, sep)[i];
    }
    SplitJoin(out, sep);
  }

  /** `'\n'.join` of pieces free of `\n`, re-split, keeps the number of lines. */
  lemma LineCountOfJoin(parts: seq<string>, sep: char)
    requires |parts| >= 1
    requires forall i :: 0 <= i < |parts| ==> sep !in parts[i]
    ensures |Split(Join(parts, sep), sep)| == |parts|
  {
    SplitJoin(parts, sep);
  }
}
