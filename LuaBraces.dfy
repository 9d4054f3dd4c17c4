/** Step 3 of fix_lua_style.py, `fix_function_call_braces`. */
module LuaBraces {
  import opened Wrappers
  import opened Text
  import opened Scanner

  // -------------------------------------------------------------------
  // Step 3: fix_function_call_braces

  /** A character that qualifies a name: `.` or `:`. */
  predicate IsNameSep(c: char) {
    c == '.' || c == ':'
  }

  /**
   * `\w+(?:\.\w+|\:\w+)+`: word characters and separators, starting and
   * ending with a word character, every separator followed by a word
   * character, and at least one separator.
   */
  predicate IsQualifiedName(d: string) {
    |d| > 0 && IsWordChar(d[0]) && IsWordChar(d[|d| - 1]) &&
    (forall i {:trigger IsWordChar(d[i])} {:trigger IsNameSep(d[i])} :: 0 <= i < |d| ==> IsWordChar(d[i]) || IsNameSep(d[i])) &&
    (forall i {:trigger IsNameSep(d[i])} :: 0 <= i < |d| - 1 && IsNameSep(d[i]) ==> IsWordChar(d[i + 1])) &&
    exists i {:trigger IsNameSep(d[i])} :: 0 <= i < |d| && IsNameSep(d[i])
  }

  /** `t` is a qualified name, optional whitespace and an opening brace. */
  ghost predicate IsBraceCall(t: string, d: string) {
    IsQualifiedName(d) && exists ws :: AllSpace(ws) && t == d + ws + "{"
  }

  /**
   * The scan of a qualified name from `i`, one word character or one
   * separator-and-word-character at a time; it stops where neither follows.
   */
  function NameEnd(s: string, i: nat): (e: nat)
    requires 0 < i <= |s| && IsWordChar(s[i - 1])
    ensures i <= e <= |s| && IsWordChar(s[e - 1])
    decreases |s| - i
  {
    if i < |s| && IsWordChar(s[i]) then NameEnd(s, i + 1)
    else if i + 1 < |s| && IsNameSep(s[i]) && IsWordChar(s[i + 1]) then NameEnd(s, i + 2)
    else i
  }

  /** The scanned stretch holds only word characters and separators. */
  lemma {:induction false} NameEndChars(s: string, i: nat)
    requires 0 < i <= |s| && IsWordChar(s[i - 1])
    ensures forall j {:trigger IsWordChar(s[j])} {:trigger IsNameSep(s[j])} :: i <= j < NameEnd(s, i) ==> IsWordChar(s[j]) || IsNameSep(s[j])
    decreases |s| - i
  {
    if i < |s| && IsWordChar(s[i]) {
      NameEndChars(s, i + 1);
    } else if i + 1 < |s| && IsNameSep(s[i]) && IsWordChar(s[i + 1]) {
      NameEndChars(s, i + 2);
    }
  }

  /** Every separator in the scanned stretch is followed by a word character inside it. */
  lemma {:induction false} NameEndSeps(s: string, i: nat)
    requires 0 < i <= |s| && IsWordChar(s[i - 1])
    ensures forall j {:trigger IsNameSep(s[j])} :: i <= j < NameEnd(s, i) && IsNameSep(s[j]) ==> j + 1 < NameEnd(s, i) && IsWordChar(s[j + 1])
    decreases |s| - i
  {
    if i < |s| && IsWordChar(s[i]) {
      NameEndSeps(s, i + 1);
    } else if i + 1 < |s| && IsNameSep(s[i]) && IsWordChar(s[i + 1]) {
      NameEndSeps(s, i + 2);
    }
  }

  /** The scan cannot be extended: neither a word character nor a separator-and-word-character follows. */
  lemma {:induction false} NameEndStops(s: string, i: nat)
    requires 0 < i <= |s| && IsWordChar(s[i - 1])
    ensures var e := NameEnd(s, i);
      e < |s| ==> !IsWordChar(s[e]) && !(e + 1 < |s| && IsNameSep(s[e]) && IsWordChar(s[e + 1]))
    decreases |s| - i
  {
    if i < |s| && IsWordChar(s[i]) {
      NameEndStops(s, i + 1);
    } else if i + 1 < |s| && IsNameSep(s[i]) && IsWordChar(s[i + 1]) {
      NameEndStops(s, i + 2);
    }
  }

  /**
   * The matcher of line 95: a qualified name, whitespace and `{` at the
   * start of `s`, replaced by `\1({\2`, that is the name and `({{`.
   */
  function CallBraceAt(s: string): (r: Option<Found<string>>)
    ensures r.Some? ==> 0 < r.value.len <= |s|
    ensures r.Some? ==> 3 <= |r.value.groups| && |r.value.groups| - 3 < r.value.len
    ensures r.Some? ==> r.value.groups == s[..|r.value.groups| - 3] + "({{"
    ensures r.Some? ==> s[r.value.len - 1] == '{'
  {
    var w := Span(s, IsWordChar);
    if w == 0 then None
    else
      var e := NameEnd(s, w);
      if e == w then None
      else
        var b := Span(s[e..], IsSpace);
        if e + b < |s| && s[e + b] == '{' then Some(Found(e + b + 1, s[..e] + "({{")) else None
  }

  /** What the matcher keeps before `({{` is a qualified name. */
  lemma NameSound(s: string, w: nat, e: nat)
    requires 0 < w == Span(s, IsWordChar) && w <= |s| && e == NameEnd(s, w) && w < e
    ensures IsQualifiedName(s[..e])
  {
    var d := s[..e];
    NameEndChars(s, w);
    NameEndSeps(s, w);
    forall j | 0 <= j < |d| ensures IsWordChar(d[j]) || IsNameSep(d[j]) {
      if j < w {
        assert IsWordChar(s[j]);
      }
    }
    assert forall j :: 0 <= j < w ==> IsWordChar(s[j]);
    forall j | 0 <= j < |d| - 1 && IsNameSep(d[j]) ensures IsWordChar(d[j + 1]) {
      assert d[j] == s[j] && d[j + 1] == s[j + 1];
    }
    assert IsNameSep(d[w]);
  }

  /** What the matcher rewrites is a qualified name, whitespace and a brace. */
  lemma CallBraceAtSound(s: string)
    requires CallBraceAt(s).Some?
    ensures var f := CallBraceAt(s).value;
      IsBraceCall(s[..f.len], s[..|f.groups| - 3])
  {
    var e, b := CallBraceAtParts(s);
    assert s[..e + b + 1] == s[..e] + s[e..e + b] + "{";
  }

  /** Where the name and the whitespace of a reported match end. */
  lemma CallBraceAtParts(s: string) returns (e: nat, b: nat)
    requires CallBraceAt(s).Some?
    ensures CallBraceAt(s).value.len == e + b + 1 && |CallBraceAt(s).value.groups| == e + 3
    ensures e + b < |s| && s[e + b] == '{'
    ensures IsQualifiedName(s[..e]) && AllSpace(s[e..e + b])
  {
    var w := Span(s, IsWordChar);
    e := NameEnd(s, w);
    b := Span(s[e..], IsSpace);
    NameSound(s, w, e);
    SoundSpaces(s, e, b);
  }

  lemma SoundSpaces(s: string, q: nat, b: nat)
    requires q <= |s| && b == Span(s[q..], IsSpace)
    ensures q + b <= |s| && AllSpace(s[q..q + b])
  {
    var t := s[q..q + b];
    forall i | 0 <= i < |t| ensures IsSpace(t[i]) {
      assert t[i] == s[q..][i];
    }
  }

  /** Scanning a qualified name `d` at the start of `s` stops at its end, when neither a word character nor a separator follows. */
  lemma {:induction false} NameEndOf(s: string, d: string, i: nat)
    requires IsQualifiedName(d) && |d| <= |s| && s[..|d|] == d
    requires |d| == |s| || (!IsWordChar(s[|d|]) && !IsNameSep(s[|d|]))
    requires 0 < i <= |d| && IsWordChar(d[i - 1])
    ensures NameEnd(s, i) == |d|
    decreases |d| - i
  {
    assert forall j :: 0 <= j < |d| ==> s[j] == d[j];
    if i < |d| {
      if IsWordChar(d[i]) {
        NameEndOf(s, d, i + 1);
      } else {
        assert IsWordChar(d[i + 1]);
        NameEndOf(s, d, i + 2);
      }
    }
  }

  /** The first word of a qualified name at the start of `s` is the first word of `s`. */
  lemma NameWordIn(s: string, d: string)
    requires IsQualifiedName(d) && |d| <= |s| && s[..|d|] == d
    ensures 0 < Span(s, IsWordChar) == Span(d, IsWordChar) < |d|
  {
    var w := Span(d, IsWordChar);
    var k :| 0 <= k < |d| && IsNameSep(d[k]);
    assert forall i :: 0 <= i < w ==> IsWordChar(d[i]);
    assert !IsWordChar(d[k]);
    forall i | 0 <= i < w ensures IsWordChar(s[i]) {
      assert s[i] == d[i];
    }
    assert s[w] == d[w];
    SpanIs(s, IsWordChar, w);
  }

  /** Where the name, the whitespace and the brace of a call at the start of `s` lie. */
  lemma CallPieces(s: string, n: nat, d: string, ws: string)
    requires n <= |s| && AllSpace(ws) && s[..n] == d + ws + "{"
    ensures n == |d| + |ws| + 1 && s[..|d|] == d
    ensures !IsWordChar(s[|d|]) && !IsNameSep(s[|d|])
    ensures Span(s[|d|..], IsSpace) == |ws| && s[|d| + |ws|] == '{'
  {
    var t := s[..n];
    assert forall i :: 0 <= i < |d| ==> s[i] == t[i] == d[i];
    assert forall i :: 0 <= i < |ws| ==> s[|d| + i] == t[|d| + i] == ws[i];
    assert s[|d| + |ws|] == t[|d| + |ws|] == '{';
    if ws != [] {
      assert IsSpace(ws[0]);
    }
    var u := s[|d|..];
    forall i | 0 <= i < |ws| ensures IsSpace(u[i]) {
      assert u[i] == s[|d| + i];
    }
    assert u[|ws|] == '{';
    SpanIs(u, IsSpace, |ws|);
  }

  /** The matcher, read off from where its three parts end. */
  lemma CallBraceAtOf(s: string, w: nat, e: nat, b: nat)
    requires 0 < w == Span(s, IsWordChar) && w < e <= |s| && e == NameEnd(s, w)
    requires e + b < |s| && b == Span(s[e..], IsSpace) && s[e + b] == '{'
    ensures CallBraceAt(s) == Some(Found(e + b + 1, s[..e] + "({{"))
  {
  }

  /** The brace matcher rewrites exactly the qualified calls, each into its name and `({{`. */
  lemma CallBraceAtIff(s: string, n: nat, d: string)
    ensures CallBraceAt(s) == Some(Found(n, d + "({{")) <==> n <= |s| && IsBraceCall(s[..n], d)
  {
    if CallBraceAt(s) == Some(Found(n, d + "({{")) {
      CallBraceAtOnly(s, n, d);
    }
    if n <= |s| && IsBraceCall(s[..n], d) {
      CallBraceAtIf(s, n, d);
    }
  }

  lemma CallBraceAtOnly(s: string, n: nat, d: string)
    requires CallBraceAt(s) == Some(Found(n, d + "({{"))
    ensures n <= |s| && IsBraceCall(s[..n], d)
  {
    CallBraceAtSound(s);
    assert s[..|d + "({{"| - 3] + "({{" == d + "({{";
    assert s[..|d|] == (d + "({{")[..|d|];
  }

  lemma CallBraceAtIf(s: string, n: nat, d: string)
    requires n <= |s| && IsBraceCall(s[..n], d)
    ensures CallBraceAt(s) == Some(Found(n, d + "({{"))
  {
    var ws :| AllSpace(ws) && s[..n] == d + ws + "{";
    CallPieces(s, n, d, ws);
    CallBraceAtNamed(s, d, |ws|);
  }

  /** The matcher at a qualified name, whitespace and a brace, stated with the name itself. */
  lemma CallBraceAtNamed(s: string, d: string, b: nat)
    requires IsQualifiedName(d) && |d| < |s| && s[..|d|] == d
    requires !IsWordChar(s[|d|]) && !IsNameSep(s[|d|])
    requires b == Span(s[|d|..], IsSpace) && |d| + b < |s| && s[|d| + b] == '{'
    ensures CallBraceAt(s) == Some(Found(|d| + b + 1, d + "({{"))
  {
    CallBraceAtName(s, d);
    CallBraceAtOf(s, Span(d, IsWordChar), |d|, b);
  }

  /** A qualified name at the start of `s`, followed by neither a word character nor a separator, is what the matcher scans. */
  lemma CallBraceAtName(s: string, d: string)
    requires IsQualifiedName(d) && |d| < |s| && s[..|d|] == d
    requires !IsWordChar(s[|d|]) && !IsNameSep(s[|d|])
    ensures var w := Span(d, IsWordChar);
      0 < w == Span(s, IsWordChar) && w < |d| && NameEnd(s, w) == |d|
  {
    NameWordIn(s, d);
    var w := Span(d, IsWordChar);
    assert IsWordChar(d[w - 1]);
    NameEndOf(s, d, w);
  }

  lemma CallBraceAtConsumes()
    ensures Consumes(CallBraceAt)
  {
  }

  /** Line 95: `re.sub` of the qualified-call pattern over one line. */
  function BraceCalls(line: string): string {
    CallBraceAtConsumes();
    Sub(line, CallBraceAt)
  }

  /** The matcher of line 89, `\w+\s*=\s*\{`, at the start of `s`. */
  function AssignAt(s: string): (r: Option<Found<()>>)
    ensures r.Some? ==> 0 < r.value.len <= |s|
  {
    var w := Span(s, IsWordChar);
    if w == 0 then None
    else
      match AssignTail(s[w..])
      case None => None
      case Some(n) => Some(Found(w + n, ()))
  }

  /** The rest of that pattern, `\s*=\s*\{`, after the word: the length it takes. */
  function AssignTail(t: string): (r: Option<nat>)
    ensures r.Some? ==> 2 <= r.value <= |t|
  {
    var a := Span(t, IsSpace);
    if a < |t| && t[a] == '=' then
      match BraceAfter(t[a + 1..])
      case None => None
      case Some(n) => Some(a + 1 + n)
    else None
  }

  /** The last part of that pattern, `\s*\{`: the length it takes. */
  function BraceAfter(u: string): (r: Option<nat>)
    ensures r.Some? ==> 1 <= r.value <= |u|
  {
    var b := Span(u, IsSpace);
    if b < |u| && u[b] == '{' then Some(b + 1) else None
  }

  /** `x` is what `\s*=\s*\{` matches: `=` and `{`, with whitespace around `=`. */
  ghost predicate IsAssignTail(x: string) {
    exists w1, w2 :: AllSpace(w1) && AllSpace(w2) && x == w1 + "=" + w2 + "{"
  }

  /** `t` is what `\w+\s*=\s*\{` matches: a word followed by such a tail. */
  ghost predicate IsAssign(t: string) {
    exists name, x :: IsWord(name) && IsAssignTail(x) && t == name + x
  }

  /** The matcher of line 89 takes `n` characters exactly when they are a table assignment. */
  lemma AssignAtIff(s: string, n: nat)
    ensures AssignAt(s) == Some(Found(n, ())) <==> n <= |s| && IsAssign(s[..n])
  {
    if AssignAt(s) == Some(Found(n, ())) {
      AssignAtOnly(s);
    }
    if n <= |s| && IsAssign(s[..n]) {
      var name, x :| IsWord(name) && IsAssignTail(x) && s[..n] == name + x;
      AssignAtOf(s, n, name, x);
    }
  }

  /** The run `Span` takes of whitespace is whitespace. */
  lemma SpanAllSpace(t: string)
    ensures AllSpace(t[..Span(t, IsSpace)])
  {
    var a := Span(t, IsSpace);
    forall i | 0 <= i < a ensures IsSpace(t[..a][i]) {
      assert t[..a][i] == t[i];
    }
  }

  // What the matcher takes has the shape of the pattern.

  /** What the matcher of line 89 takes is a table assignment. */
  lemma AssignAtOnly(s: string)
    requires AssignAt(s).Some?
    ensures AssignAt(s).value.len <= |s| && IsAssign(s[..AssignAt(s).value.len])
  {
    var w := Span(s, IsWordChar);
    AssignAtSome(s);
    var m := AssignTail(s[w..]).value;
    var w1, w2 := AssignTailOnly(s[w..]);
    var x := w1 + "=" + w2 + "{";
    SpanWord(s);
    Glue(s, w, m, x);
    AssignOf(s[..w + m], s[..w], w1, w2);
  }

  /** The run `Span` takes of word characters, when not empty, is a word. */
  lemma SpanWord(s: string)
    requires Span(s, IsWordChar) > 0
    ensures IsWord(s[..Span(s, IsWordChar)])
  {
  }

  /** A word, whitespace, `=`, whitespace and `{` make a table assignment. */
  lemma AssignOf(t: string, name: string, w1: string, w2: string)
    requires IsWord(name) && AllSpace(w1) && AllSpace(w2) && t == name + (w1 + "=" + w2 + "{")
    ensures IsAssign(t)
  {
    assert IsAssignTail(w1 + "=" + w2 + "{");
  }

  /** A match is a word and a matching tail. */
  lemma AssignAtSome(s: string)
    requires AssignAt(s).Some?
    ensures var w := Span(s, IsWordChar);
      0 < w && AssignTail(s[w..]).Some? && AssignAt(s).value.len == w + AssignTail(s[w..]).value
  {
  }

  /** The word and what follows it, put back together. */
  lemma Glue(s: string, w: nat, n: nat, x: string)
    requires w + n <= |s| && s[w..][..n] == x
    ensures s[..w + n] == s[..w] + x
  {
  }

  /** What the tail matcher takes is whitespace, `=`, whitespace and `{`. */
  lemma AssignTailOnly(t: string) returns (w1: string, w2: string)
    requires AssignTail(t).Some?
    ensures AllSpace(w1) && AllSpace(w2) && t[..AssignTail(t).value] == w1 + "=" + w2 + "{"
  {
    var a := Span(t, IsSpace);
    AssignTailSome(t);
    var u := t[a + 1..];
    var m := BraceAfter(u).value;
    w2 := BraceAfterOnly(u);
    w1 := t[..a];
    SpanAllSpace(t);
    GlueEquals(t, a, m);
  }

  /** A matching tail is a whitespace run, `=`, and a matching last part. */
  lemma AssignTailSome(t: string)
    requires AssignTail(t).Some?
    ensures var a := Span(t, IsSpace);
      a < |t| && t[a] == '=' && BraceAfter(t[a + 1..]).Some? &&
      AssignTail(t).value == a + 1 + BraceAfter(t[a + 1..]).value
  {
  }

  /** The text before `=`, the `=`, and what follows, put back together. */
  lemma GlueEquals(t: string, a: nat, m: nat)
    requires a + 1 + m <= |t| && t[a] == '='
    ensures t[..a + 1 + m] == t[..a] + "=" + t[a + 1..][..m]
  {
  }

  /** What the last part takes is whitespace and `{`. */
  lemma BraceAfterOnly(u: string) returns (w2: string)
    requires BraceAfter(u).Some?
    ensures AllSpace(w2) && u[..BraceAfter(u).value] == w2 + "{"
  {
    var b := Span(u, IsSpace);
    w2 := u[..b];
    SpanAllSpace(u);
    assert u[..b + 1] == u[..b] + [u[b]];
  }

  // Every text of that shape is taken whole.

  /** A table assignment at the start of `s` is taken whole by the matcher of line 89. */
  lemma AssignAtOf(s: string, n: nat, name: string, x: string)
    requires IsWord(name) && IsAssignTail(x)
    requires n <= |s| && s[..n] == name + x
    ensures AssignAt(s) == Some(Found(n, ()))
  {
    var w1, w2 :| AllSpace(w1) && AllSpace(w2) && x == w1 + "=" + w2 + "{";
    var w := |name|;
    PrefixSplit(s, n, name, x);
    var rest := s[w..];
    AssignTailStart(w1, w2);
    assert !IsWordChar(rest[0]);
    SpanConcat(name, rest, IsWordChar);
    AssignTailOfPieces(rest, w1, w2);
    AssignAtFrom(s, w, |x|);
  }

  /** A tail of the pattern does not start with a word character. */
  lemma AssignTailStart(w1: string, w2: string)
    requires AllSpace(w1)
    ensures !IsWordChar((w1 + "=" + w2 + "{")[0])
  {
    if w1 != [] {
      assert IsSpace(w1[0]);
    }
  }

  /** A prefix of `s` made of `a` then `b`: `s` starts with `a`, and `b` follows it. */
  lemma PrefixSplit(s: string, n: nat, a: string, b: string)
    requires n <= |s| && s[..n] == a + b
    ensures n == |a| + |b| && s == a + s[|a|..] && s[|a|..][..|b|] == b
    ensures b != [] ==> s[|a|..][0] == b[0]
  {
    assert s[..|a|] == (a + b)[..|a|] == a;
    assert s == s[..|a|] + s[|a|..];
    assert s[|a|..][..|b|] == (a + b)[|a|..];
  }

  /** The matcher of line 89 once the word and the tail are known. */
  lemma AssignAtFrom(s: string, w: nat, n: nat)
    requires 0 < w == Span(s, IsWordChar) && AssignTail(s[w..]) == Some(n)
    ensures AssignAt(s) == Some(Found(w + n, ()))
  {
  }

  /** A tail of whitespace, `=`, whitespace and `{` at the start of `t` is taken whole. */
  lemma AssignTailOfPieces(t: string, w1: string, w2: string)
    requires AllSpace(w1) && AllSpace(w2)
    requires |w1| + |w2| + 2 <= |t| && t[..|w1| + |w2| + 2] == w1 + "=" + w2 + "{"
    ensures AssignTail(t) == Some(|w1| + |w2| + 2)
  {
    var a := |w1|;
    assert w1 + "=" + w2 + "{" == w1 + ("=" + (w2 + "{"));
    PrefixSplit(t, a + |w2| + 2, w1, "=" + (w2 + "{"));
    var v := t[a..];
    SpanConcat(w1, v, IsSpace);
    PrefixSplit(v, |w2| + 2, "=", w2 + "{");
    var u := t[a + 1..];
    assert u == v[1..];
    BraceAfterOfPieces(u, w2);
    AssignTailOf(t, a, |w2| + 1);
  }

  /** The tail matcher once its first whitespace run and the last part are known. */
  lemma AssignTailOf(t: string, a: nat, n: nat)
    requires a < |t| && Span(t, IsSpace) == a && t[a] == '='
    requires BraceAfter(t[a + 1..]) == Some(n)
    ensures AssignTail(t) == Some(a + 1 + n)
  {
  }

  /** Whitespace and `{` at the start of `u` are taken whole by the last part. */
  lemma BraceAfterOfPieces(u: string, w2: string)
    requires AllSpace(w2) && |w2| < |u| && u[..|w2| + 1] == w2 + "{"
    ensures BraceAfter(u) == Some(|w2| + 1)
  {
    var b := |w2|;
    PrefixSplit(u, b + 1, w2, "{");
    SpanConcat(w2, u[b..], IsSpace);
  }

  /** A match of line 89 holds an `=` and a `{`. */
  lemma AssignAtChars(s: string)
    requires AssignAt(s).Some?
    ensures '=' in s && '{' in s
  {
    var w := Span(s, IsWordChar);
    AssignAtSome(s);
    AssignTailChars(s[w..]);
    InSuffix(s, w, '=');
    InSuffix(s, w, '{');
  }

  /** A match of the tail holds an `=` and a `{`. */
  lemma AssignTailChars(t: string)
    requires AssignTail(t).Some?
    ensures '=' in t && '{' in t
  {
    AssignTailSome(t);
    var a := Span(t, IsSpace);
    var u := t[a + 1..];
    var b := Span(u, IsSpace);
    assert u[b] == '{';
    InSuffix(t, a + 1, '{');
  }

  /**
   * One line of `fix_function_call_braces`: a line holding a table
   * assignment is kept; otherwise every qualified call is rewritten.
   */
  function BraceLine(line: string): string {
    if '=' in line && '{' in line && Search(line, AssignAt).Some? then line
    else if Search(line, CallBraceAt).Some? then BraceCalls(line)
    else line
  }

  /** Rewriting a line never introduces a line break. */
  lemma BraceLineKeepsLines(line: string)
    requires '\n' !in line
    ensures '\n' !in BraceLine(line)
  {
    if !('=' in line && '{' in line && Search(line, AssignAt).Some?) && Search(line, CallBraceAt).Some? {
      BraceCallsKeep(line);
    }
  }

  /** A rewritten call is made of characters of the text and the inserted `({`. */
  lemma CallBraceAtGroups(t: string)
    requires CallBraceAt(t).Some?
    ensures forall c :: c in CallBraceAt(t).value.groups ==> c in t || c == '(' || c == '{'
  {
    var g := CallBraceAt(t).value.groups;
    assert g == t[..|g| - 3] + "({{";
    assert forall c :: c in t[..|g| - 3] ==> c in t;
  }

  /** The call rewrite of one line never introduces a line break. */
  lemma BraceCallsKeep(line: string)
    requires '\n' !in line
    ensures '\n' !in BraceCalls(line)
  {
    CallBraceAtConsumes();
    forall i | 0 <= i < |line| && CallBraceAt(line[i..]).Some?
      ensures forall c :: c in CallBraceAt(line[i..]).value.groups ==> IsNotNewline(c)
    {
      CallBraceAtGroups(line[i..]);
      assert forall c :: c in line[i..] ==> c in line;
    }
    SubKeeps(line, CallBraceAt, IsNotNewline);
  }

  /** A line holding a table assignment anywhere is kept as it is. */
  lemma BraceLineAssignment(line: string)
    requires Search(line, AssignAt).Some?
    ensures BraceLine(line) == line
  {
    var h := Search(line, AssignAt).value;
    var t := line[h.start..];
    assert AssignAt(t).Some?;
    AssignAtChars(t);
    InSuffix(line, h.start, '=');
    InSuffix(line, h.start, '{');
  }

  /** A character of a suffix is a character of the whole. */
  lemma InSuffix(s: string, k: nat, c: char)
    requires k <= |s| && c in s[k..]
    ensures c in s
  {
    var i :| 0 <= i < |s[k..]| && s[k..][i] == c;
    assert s[k + i] == c;
  }

  /** A line in which no qualified call starts is kept as it is. */
  lemma BraceLineNoCall(line: string)
    requires forall i :: 0 <= i < |line| ==> CallBraceAt(line[i..]).None?
    ensures BraceLine(line) == line
  {
    CallBraceAtConsumes();
    SubIdentity(line, CallBraceAt);
  }

  /** A line without an opening brace is kept as it is. */
  lemma BraceLineNoBrace(line: string)
    requires '{' !in line
    ensures BraceLine(line) == line
  {
    forall i | 0 <= i < |line|
      ensures CallBraceAt(line[i..]).None?
    {
      assert forall c :: c in line[i..] ==> c in line;
    }
    BraceLineNoCall(line);
  }

  /**
   * A line without `=` that starts with a qualified call has that call
   * rewritten to the name and `({{`, and the rest of the line scanned on.
   */
  lemma BraceLineRewrites(x: string, d: string, rest: string)
    requires IsBraceCall(x, d)
    requires '=' !in x + rest
    ensures BraceLine(x + rest) == d + "({{" + BraceCalls(rest)
  {
    var line := x + rest;
    CallBraceAtConsumes();
    assert line[..|x|] == x;
    CallBraceAtIff(line, |x|, d);
    assert line[0..] == line;
    assert Search(line, CallBraceAt).Some?;
    SubAfterMatch(x, rest, d + "({{", CallBraceAt);
  }

  /** A line that is one qualified call and its brace, without `=`, becomes the name and `({{`. */
  lemma BraceLineWholeCall(x: string, d: string)
    requires IsBraceCall(x, d) && '=' !in x
    ensures BraceLine(x) == d + "({{"
  {
    assert x + "" == x;
    BraceLineRewrites(x, d, "");
    assert BraceCalls("") == "";
    assert d + "({{" + "" == d + "({{";
  }

  /** Every character of `w` is a word character: `w` is one word. */
  predicate IsWord(w: string) {
    w != [] && forall i {:trigger IsWordChar(w[i])} :: 0 <= i < |w| ==> IsWordChar(w[i])
  }

  /**
   * The first example of the function's documentation, `f:checkbox {`, for
   * any object and method name: the code gives `f:checkbox({{`, with the
   * brace doubled, where the documentation shows `f:checkbox({`.
   */
  lemma BraceLineMethodCall(obj: string, m: string)
    requires IsWord(obj) && IsWord(m)
    ensures BraceLine(obj + ":" + m + " {") == obj + ":" + m + "({{"
  {
    var d := obj + ":" + m;
    assert IsNameSep(d[|obj|]);
    forall i | 0 <= i < |d| && i != |obj| ensures IsWordChar(d[i]) {
      if i < |obj| {
        assert d[i] == obj[i];
      } else {
        assert d[i] == m[i - |obj| - 1];
      }
    }
    forall i | 0 <= i < |d| - 1 && IsNameSep(d[i]) ensures IsWordChar(d[i + 1]) {
      assert i == |obj|;
      assert d[i + 1] == m[0];
    }
    assert d[0] == obj[0] && d[|d| - 1] == m[|m| - 1];
    assert IsQualifiedName(d);
    var line := d + " " + "{";
    assert AllSpace(" ");
    assert '=' !in line by {
      assert forall i :: 0 <= i < |d| ==> d[i] != '=';
    }
    BraceLineWholeCall(line, d);
    assert obj + ":" + m + " {" == line;
  }

  /** The second example of the documentation: a call on a string is not touched. */
  lemma BraceLineMessage()
    ensures BraceLine("LrDialogs.message \"text\"") == "LrDialogs.message \"text\""
  {
    BraceLineNoBrace("LrDialogs.message \"text\"");
  }

  /** `fix_function_call_braces`: what the text becomes. */
  function BraceAll(content: string): string {
    Join(MapLines(BraceLine, Split(content, '\n')), '\n')
  }

  /** The lines of the result are the input's lines, each rewritten: the line count is kept. */
  lemma BraceAllLines(content: string)
    ensures Split(BraceAll(content), '\n') == MapLines(BraceLine, Split(content, '\n'))
  {
    forall line | '\n' !in line ensures '\n' !in BraceLine(line) {
      BraceLineKeepsLines(line);
    }
    MapLinesJoin(BraceLine, content, '\n');
  }

  /** The loop of `fix_function_call_braces`: each line rewritten, in order. */
  method BraceEach(lines: seq<string>) returns (fixed: seq<string>)
    ensures fixed == MapLines(BraceLine, lines)
  {
    fixed := [];
    for i := 0 to |lines|
      invariant fixed == MapLines(BraceLine, lines[..i])
    {
      MapLinesSnoc(BraceLine, lines, i);
      var line := lines[i];
      if '=' in line && '{' in line {
        if Search(line, AssignAt).Some? {
          fixed := fixed + [line];
          continue;
        }
      }
      if Search(line, CallBraceAt).Some? {
        line := BraceCalls(line);
      }
      fixed := fixed + [line];
    }
    assert lines[..|lines|] == lines;
  }

  /** `fix_function_call_braces`: split into lines, rewrite each, join. */
  method FixFunctionCallBraces(content: string) returns (r: string)
    ensures r == BraceAll(content)
    ensures |Split(r, '\n')| == |Split(content, '\n')|
  {
    var fixed := BraceEach(Split(content, '\n'));
    r := Join(fixed, '\n');
    BraceAllLines(content);
  }
}
