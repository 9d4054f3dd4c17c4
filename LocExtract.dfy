/**
 * The string extractor of translation.py (`extract_lightroom_strings` and
 * `format_translation`).  The text of one Lua file goes through three passes:
 *
 *   1. every `"` whitespace `..` whitespace `"` is deleted, which fuses
 *      adjacent double-quoted fragments of a Lua concatenation;
 *   2. every whitespace run that holds a newline becomes one space;
 *   3. the call sites `LOC("$$$/key=value")` / `LOC "$$$/key=value"` are
 *      found left to right, without overlap.
 *
 * Each regular expression is modelled by a matcher written for it, proved
 * against a statement of the pattern's language, and run by the scanning
 * loop of `re.sub` / `re.findall` in the Scanner module.
 */
module LocExtract {
  import opened Wrappers
  import opened Text
  import opened Scanner

  /** One `(key, value)` tuple returned by `findall`. */
  datatype Translation = Translation(key: string, value: string)

  // -------------------------------------------------------------------
  // Pass 1: re.sub(r'"\s*\.\.\s*"', '', text)

  /** `t` is a join: a quote, whitespace, `..`, whitespace, a quote. */
  ghost predicate IsJoin(t: string) {
    exists w1, w2 :: AllSpace(w1) && AllSpace(w2) && t == "\"" + w1 + ".." + w2 + "\""
  }

  /** `t` starts with the rest of a join whose opening quote precedes it. */
  ghost predicate StartsWithJoin(t: string) {
    exists w1, w2, rest :: AllSpace(w1) && AllSpace(w2) && t == w1 + ".." + w2 + "\"" + rest
  }

  /** The matcher of pass 1, in the whitespace after the opening quote: `..` is expected. */
  function JoinBefore(s: string, k: nat): (r: Option<nat>)
    ensures r.Some? ==> k < r.value <= k + |s|
    decreases |s|
  {
    if s == [] then None
    else if IsSpace(s[0]) then JoinBefore(s[1..], k + 1)
    else if |s| >= 2 && s[0] == '.' && s[1] == '.' then JoinAfter(s[2..], k + 2)
    else None
  }

  /** The matcher of pass 1, in the whitespace after `..`: the closing quote is expected. */
  function JoinAfter(s: string, k: nat): (r: Option<nat>)
    ensures r.Some? ==> k < r.value <= k + |s|
    decreases |s|
  {
    if s == [] then None
    else if IsSpace(s[0]) then JoinAfter(s[1..], k + 1)
    else if s[0] == '"' then Some(k + 1)
    else None
  }

  /** The matcher of pass 1: a join at the start of `s` is replaced by nothing. */
  function JoinAt(s: string): (r: Option<Found<string>>)
    ensures r.Some? ==> 0 < r.value.len <= |s| && r.value.groups == ""
  {
    if s != [] && s[0] == '"' then
      match JoinBefore(s[1..], 1)
      case Some(n) => Some(Found(n, ""))
      case None => None
    else None
  }

  lemma {:induction false} JoinBeforeSpaces(w: string, rest: string, k: nat)
    requires AllSpace(w)
    ensures JoinBefore(w + rest, k) == JoinBefore(rest, k + |w|)
    decreases |w|
  {
    if w != [] {
      assert (w + rest)[1..] == w[1..] + rest;
      JoinBeforeSpaces(w[1..], rest, k + 1);
    } else {
      assert w + rest == rest;
    }
  }

  lemma {:induction false} JoinAfterSpaces(w: string, rest: string, k: nat)
    requires AllSpace(w)
    ensures JoinAfter(w + rest, k) == JoinAfter(rest, k + |w|)
    decreases |w|
  {
    if w != [] {
      assert (w + rest)[1..] == w[1..] + rest;
      JoinAfterSpaces(w[1..], rest, k + 1);
    } else {
      assert w + rest == rest;
    }
  }

  /** After the opening quote, the rest of every join is recognised. */
  lemma JoinBeforeComplete(w1: string, w2: string, rest: string, k: nat)
    requires AllSpace(w1) && AllSpace(w2)
    ensures JoinBefore(w1 + ".." + w2 + "\"" + rest, k) == Some(k + |w1| + |w2| + 3)
  {
    var v := w2 + ("\"" + rest);
    var u := ".." + v;
    assert w1 + ".." + w2 + "\"" + rest == w1 + u;
    JoinBeforeSpaces(w1, u, k);
    assert u[2..] == v;
    JoinAfterSpaces(w2, "\"" + rest, k + |w1| + 2);
  }

  /** Every join is deleted, whatever follows it. */
  lemma JoinAtComplete(w1: string, w2: string, rest: string)
    requires AllSpace(w1) && AllSpace(w2)
    ensures JoinAt("\"" + w1 + ".." + w2 + "\"" + rest) == Some(Found(|w1| + |w2| + 4, ""))
  {
    var t := w1 + ".." + w2 + "\"" + rest;
    JoinRegroup(w1, w2, rest);
    assert ("\"" + t)[1..] == t;
    JoinBeforeComplete(w1, w2, rest, 1);
  }

  /** A join and what follows, grouped as the matcher reads them. */
  lemma JoinRegroup(w1: string, w2: string, rest: string)
    ensures "\"" + w1 + ".." + w2 + "\"" + rest == "\"" + (w1 + ".." + w2 + "\"" + rest)
  {
  }

  lemma {:induction false} JoinAfterSound(s: string, k: nat) returns (w: string)
    requires JoinAfter(s, k).Some?
    ensures AllSpace(w) && |w| < |s| && s[..|w| + 1] == w + "\""
    ensures JoinAfter(s, k).value == k + |w| + 1
    decreases |s|
  {
    if IsSpace(s[0]) {
      var w' := JoinAfterSound(s[1..], k + 1);
      w := [s[0]] + w';
      assert s[..|w| + 1] == [s[0]] + s[1..][..|w'| + 1];
    } else {
      w := [];
    }
  }

  lemma {:induction false} JoinBeforeSound(s: string, k: nat) returns (w1: string, w2: string)
    requires JoinBefore(s, k).Some?
    ensures AllSpace(w1) && AllSpace(w2)
    ensures |w1| + |w2| + 3 <= |s| && s[..|w1| + |w2| + 3] == w1 + ".." + w2 + "\""
    ensures JoinBefore(s, k).value == k + |w1| + |w2| + 3
    decreases |s|
  {
    if IsSpace(s[0]) {
      var a, b := JoinBeforeSound(s[1..], k + 1);
      w1, w2 := [s[0]] + a, b;
      assert s[..|w1| + |w2| + 3] == [s[0]] + s[1..][..|a| + |b| + 3];
      assert [s[0]] + (a + ".." + b + "\"") == w1 + ".." + w2 + "\"";
    } else {
      w1 := [];
      w2 := JoinAfterSound(s[2..], k + 2);
      assert s[..|w2| + 3] == ".." + s[2..][..|w2| + 1];
    }
  }

  /** What pass 1 deletes is a join. */
  lemma JoinAtSound(s: string)
    requires JoinAt(s).Some?
    ensures IsJoin(s[..JoinAt(s).value.len])
  {
    var w1, w2 := JoinBeforeSound(s[1..], 1);
    assert s[..|w1| + |w2| + 4] == "\"" + s[1..][..|w1| + |w2| + 3];
    assert "\"" + (w1 + ".." + w2 + "\"") == "\"" + w1 + ".." + w2 + "\"";
  }

  /** A quote starts a join exactly when the text after it continues one. */
  lemma JoinAtIff(t: string)
    ensures JoinAt("\"" + t).Some? <==> StartsWithJoin(t)
  {
    assert ("\"" + t)[1..] == t;
    if JoinAt("\"" + t).Some? {
      var w1, w2 := JoinBeforeSound(t, 1);
      var n := |w1| + |w2| + 3;
      assert t == t[..n] + t[n..];
    }
    if StartsWithJoin(t) {
      var w1, w2, rest :| AllSpace(w1) && AllSpace(w2) && t == w1 + ".." + w2 + "\"" + rest;
      JoinBeforeComplete(w1, w2, rest, 1);
    }
  }

  lemma JoinAtConsumes()
    ensures Consumes(JoinAt)
  {
  }

  /** Pass 1: `re.sub` deletes every join, scanning left to right. */
  function Fuse(s: string): string {
    JoinAtConsumes();
    Sub(s, JoinAt)
  }

  /** Where no join starts, pass 1 keeps the text. */
  lemma FuseKeeps(x: string, y: string)
    requires forall i :: 0 <= i < |x| ==> JoinAt(x[i..] + y).None?
    ensures Fuse(x + y) == x + Fuse(y)
  {
    JoinAtConsumes();
    SubCopies(x, y, JoinAt);
  }

  /** A join at the start is deleted and pass 1 goes on after it. */
  lemma FuseDrops(j: string, y: string)
    requires JoinAt(j + y) == Some(Found(|j|, ""))
    ensures Fuse(j + y) == Fuse(y)
  {
    JoinAtConsumes();
    SubAfterMatch(j, y, "", JoinAt);
  }

  /** Text without a double quote passes through pass 1 unchanged. */
  lemma FuseQuoteFree(x: string, y: string)
    requires '"' !in x
    ensures Fuse(x + y) == x + Fuse(y)
  {
    forall i | 0 <= i < |x|
      ensures JoinAt(x[i..] + y).None?
    {
      assert (x[i..] + y)[0] == x[i];
    }
    FuseKeeps(x, y);
  }

  /** A join `"  ..  "` is deleted whatever follows it. */
  lemma FuseJoin(w1: string, w2: string, y: string)
    requires AllSpace(w1) && AllSpace(w2)
    ensures Fuse("\"" + w1 + ".." + w2 + "\"" + y) == Fuse(y)
  {
    JoinAtComplete(w1, w2, y);
    FuseDrops("\"" + w1 + ".." + w2 + "\"", y);
  }

  // -------------------------------------------------------------------
  // Pass 2: re.sub(r'\s*\n\s*', ' ', text)

  /**
   * The matcher of pass 2.  At a position the greedy `\s*\n\s*` takes the
   * whole whitespace run starting there if that run holds a newline.
   */
  function NewlineRunAt(s: string): (r: Option<Found<string>>)
    ensures r.Some? ==> 0 < r.value.len <= |s| && r.value.groups == " "
  {
    var n := Span(s, IsSpace);
    if '\n' in s[..n] then Some(Found(n, " ")) else None
  }

  lemma NewlineRunAtConsumes()
    ensures Consumes(NewlineRunAt)
  {
  }

  /** Pass 2: `re.sub` replaces each whitespace run holding a newline by one space. */
  function Collapse(s: string): string {
    NewlineRunAtConsumes();
    Sub(s, NewlineRunAt)
  }

  /** After pass 2 the text is one line. */
  lemma CollapseRemovesNewlines(s: string)
    ensures '\n' !in Collapse(s)
  {
    NewlineRunAtConsumes();
    assert forall i :: 0 <= i < |s| && NewlineRunAt(s[i..]).None? ==> IsNotNewline(s[i]);
    SubKeeps(s, NewlineRunAt, IsNotNewline);
    assert forall c :: c in Collapse(s) ==> IsNotNewline(c);
  }

  /** Text without a newline passes through pass 2 unchanged. */
  lemma CollapseNewlineFree(s: string)
    requires '\n' !in s
    ensures Collapse(s) == s
  {
    NewlineRunAtConsumes();
    forall i | 0 <= i < |s|
      ensures NewlineRunAt(s[i..]).None?
    {
      var n := Span(s[i..], IsSpace);
      assert forall c :: c in s[i..][..n] ==> c in s;
    }
    SubIdentity(s, NewlineRunAt);
  }

  /** A newline-free piece ending in a non-space character is kept, and pass 2 restarts after it. */
  lemma CollapseAfterSolid(p: string, r: string)
    requires p != [] && '\n' !in p && !IsSpace(p[|p| - 1])
    ensures Collapse(p + r) == p + Collapse(r)
  {
    NewlineRunAtConsumes();
    forall i | 0 <= i < |p|
      ensures NewlineRunAt(p[i..] + r).None?
    {
      var x := p[i..] + r;
      var n := Span(x, IsSpace);
      assert x[|p| - 1 - i] == p[|p| - 1];
      assert n < |p| - i;
      assert forall c :: c in x[..n] ==> c in p;
    }
    SubCopies(p, r, NewlineRunAt);
  }

  /** `t` is what `\s*\n\s*` matches: whitespace holding a newline. */
  predicate IsNewlineRun(t: string) {
    AllSpace(t) && '\n' in t
  }

  /**
   * The matcher of pass 2 takes `n` characters exactly when they are a
   * whitespace run holding a newline that is not followed by more whitespace.
   */
  lemma NewlineRunAtIff(s: string, n: nat, g: string)
    ensures NewlineRunAt(s) == Some(Found(n, g)) <==>
      g == " " && n <= |s| && IsNewlineRun(s[..n]) && (n == |s| || !IsSpace(s[n]))
  {
    if g == " " && n <= |s| && IsNewlineRun(s[..n]) && (n == |s| || !IsSpace(s[n])) {
      assert forall i :: 0 <= i < n ==> s[..n][i] == s[i];
      SpanIs(s, IsSpace, n);
    }
  }

  /** `p` and `r` meet outside any whitespace run. */
  predicate Seam(p: string, r: string) {
    p == [] || r == [] || !IsSpace(p[|p| - 1]) || !IsSpace(r[0])
  }

  /** Before a seam, the matcher of pass 2 does not see what follows. */
  lemma NewlineRunSeam(p: string, r: string)
    requires p != [] && Seam(p, r)
    ensures NewlineRunAt(p + r) == NewlineRunAt(p)
  {
    var n := Span(p, IsSpace);
    var s := p + r;
    assert forall i :: 0 <= i < |p| ==> s[i] == p[i];
    if n < |p| {
      SpanIs(s, IsSpace, n);
    } else {
      assert r != [] ==> s[|p|] == r[0];
      SpanIs(s, IsSpace, |p|);
    }
    assert s[..n] == p[..n];
  }

  /** Pass 2 works on either side of a seam independently. */
  lemma {:induction false} CollapseSeam(p: string, r: string)
    requires Seam(p, r)
    ensures Collapse(p + r) == Collapse(p) + Collapse(r)
    decreases |p|
  {
    if p == [] {
      assert p + r == r;
    } else {
      NewlineRunSeam(p, r);
      var k, head := CollapseStep(p);
      var k2, head2 := CollapseStep(p + r);
      SeamSuffix(p, r, k);
      assert k2 == k && head2 == head;
      CollapseSeam(p[k..], r);
      Regroup(head, Collapse(p[k..]), Collapse(r));
    }
  }

  /** Cutting a prefix off `p` keeps the seam with `r`. */
  lemma SeamSuffix(p: string, r: string, k: nat)
    requires Seam(p, r) && 0 < k <= |p|
    ensures (p + r)[0] == p[0]
    ensures (p + r)[k..] == p[k..] + r
    ensures Seam(p[k..], r)
  {
    assert p[k..] != [] ==> p[k..][|p[k..]| - 1] == p[|p| - 1];
  }

  lemma Regroup(a: string, b: string, c: string)
    ensures a + (b + c) == (a + b) + c
  {
  }

  /** One step of pass 2: a newline run becomes a space, any other character is copied. */
  lemma CollapseStep(s: string) returns (k: nat, head: string)
    requires s != []
    ensures k == if NewlineRunAt(s).Some? then NewlineRunAt(s).value.len else 1
    ensures head == if NewlineRunAt(s).Some? then " " else [s[0]]
    ensures 0 < k <= |s|
    ensures Collapse(s) == head + Collapse(s[k..])
  {
    NewlineRunAtConsumes();
    k := if NewlineRunAt(s).Some? then NewlineRunAt(s).value.len else 1;
    head := if NewlineRunAt(s).Some? then " " else [s[0]];
  }

  /** A whitespace run holding a newline, up to the next non-space, becomes one space. */
  lemma CollapseRun(w: string, r: string)
    requires IsNewlineRun(w) && (r == [] || !IsSpace(r[0]))
    ensures Collapse(w + r) == " " + Collapse(r)
  {
    NewlineRunAtConsumes();
    NewlineRunAtIff(w + r, |w|, " ");
    assert (w + r)[..|w|] == w;
    SubAfterMatch(w, r, " ", NewlineRunAt);
  }

  /** Pass 2 on a whitespace run: one space if it holds a newline, the run itself otherwise. */
  lemma CollapseSpaces(w: string)
    requires AllSpace(w)
    ensures Collapse(w) == if '\n' in w then " " else w
    ensures AllSpace(Collapse(w)) && (Collapse(w) == [] <==> w == [])
  {
    if '\n' in w {
      CollapseRun(w, []);
      assert w + [] == w;
    } else {
      CollapseNewlineFree(w);
    }
  }

  /** Pass 2 drops nothing entirely: a non-empty text stays non-empty. */
  lemma CollapseNonEmpty(s: string)
    requires s != []
    ensures Collapse(s) != []
  {
    NewlineRunAtConsumes();
  }

  /** Pass 2 adds no quote. */
  lemma CollapseQuoteFree(s: string)
    requires '"' !in s
    ensures '"' !in Collapse(s)
  {
    NewlineRunAtConsumes();
    assert forall i :: 0 <= i < |s| ==> IsNotQuote(s[i]);
    SubKeeps(s, NewlineRunAt, IsNotQuote);
    assert forall c :: c in Collapse(s) ==> IsNotQuote(c);
  }

  // -------------------------------------------------------------------
  // Pass 3: findall(r'LOC\s*(?:\(\s*"?|\s+)"(\$\$\$/[^\s=]+)=([^"]+)"', text)

  /** `[^\s=]`: a character a key may hold after its `$$$/` prefix. */
  predicate IsKeyChar(c: char) {
    !IsSpace(c) && c != '='
  }

  /** `[^\s=]*`: every character of `s` may be part of a key. */
  predicate KeyChars(s: string)
    decreases |s|
  {
    s == [] || (IsKeyChar(s[0]) && KeyChars(s[1..]))
  }

  /** The first group: `$$$/` and at least one character that is neither whitespace nor `=`. */
  predicate IsKey(k: string) {
    |k| > 4 && k[..4] == "$$$/" && KeyChars(k[4..])
  }

  /** Key characters are never newlines nor `=`. */
  lemma {:induction false} KeyCharsNoNewline(s: string)
    requires KeyChars(s)
    ensures '\n' !in s && '=' !in s
    decreases |s|
  {
    if s != [] {
      KeyCharsNoNewline(s[1..]);
      assert s == [s[0]] + s[1..];
    }
  }

  /** A key holds no `=`, so the catalog line's first `=` ends it, and no newline. */
  lemma KeyWithoutEquals(k: string)
    requires IsKey(k)
    ensures '=' !in k && '\n' !in k
  {
    KeyCharsNoNewline(k[4..]);
    assert k == k[..4] + k[4..];
  }

  /** The second group: at least one character, none of them `"`. */
  predicate IsLocValue(v: string) {
    |v| > 0 && '"' !in v
  }

  /**
   * What `\s*(?:\(\s*"?|\s+)` can match between `LOC` and the quote that
   * opens the string: at least one space, or an opening parenthesis with
   * whitespace around it and possibly a first quote.
   */
  ghost predicate IsOpener(o: string) {
    (|o| > 0 && AllSpace(o)) ||
    exists w1, w2 :: AllSpace(w1) && AllSpace(w2) && (o == w1 + "(" + w2 || o == w1 + "(" + w2 + "\"")
  }

  /** `t` is a whole match of the pattern with groups `key` and `value`. */
  ghost predicate IsLocMatch(t: string, key: string, value: string) {
    IsKey(key) && IsLocValue(value) &&
    exists o :: IsOpener(o) && t == "LOC" + o + "\"" + key + "=" + value + "\""
  }

  /**
   * The opener scanner, in the whitespace right after `LOC`; `k` counts the
   * characters taken so far.  A `(` leads to `OpenerParen`; a quote closes
   * the `\s+` alternative when at least one space came before it.
   */
  function OpenerLead(s: string, k: nat): (r: Option<nat>)
    ensures r.Some? ==> k < r.value <= k + |s|
    decreases |s|
  {
    if s == [] then None
    else if IsSpace(s[0]) then OpenerLead(s[1..], k + 1)
    else if s[0] == '(' then OpenerParen(s[1..], k + 1)
    else if s[0] == '"' && k > 0 then Some(k + 1)
    else None
  }

  /**
   * The opener scanner after `(` and its whitespace.  When `"?` could take
   * a quote, it does, and the next quote then opens the string: a key
   * starts with `$`, never with a quote, so no other choice could lead to
   * a match.
   */
  function OpenerParen(s: string, k: nat): (r: Option<nat>)
    ensures r.Some? ==> k < r.value <= k + |s|
    decreases |s|
  {
    if s == [] then None
    else if IsSpace(s[0]) then OpenerParen(s[1..], k + 1)
    else if |s| >= 2 && s[0] == '"' && s[1] == '"' then Some(k + 2)
    else if s[0] == '"' then Some(k + 1)
    else None
  }

  lemma {:induction false} OpenerLeadSpaces(w: string, rest: string, k: nat)
    requires AllSpace(w)
    ensures OpenerLead(w + rest, k) == OpenerLead(rest, k + |w|)
    decreases |w|
  {
    if w != [] {
      assert (w + rest)[1..] == w[1..] + rest;
      OpenerLeadSpaces(w[1..], rest, k + 1);
    } else {
      assert w + rest == rest;
    }
  }

  lemma {:induction false} OpenerParenSpaces(w: string, rest: string, k: nat)
    requires AllSpace(w)
    ensures OpenerParen(w + rest, k) == OpenerParen(rest, k + |w|)
    decreases |w|
  {
    if w != [] {
      assert (w + rest)[1..] == w[1..] + rest;
      OpenerParenSpaces(w[1..], rest, k + 1);
    } else {
      assert w + rest == rest;
    }
  }

  lemma {:induction false} OpenerParenSound(s: string, k: nat) returns (w2: string, q: string)
    requires OpenerParen(s, k).Some?
    ensures AllSpace(w2) && (q == "" || q == "\"")
    ensures |w2| + |q| < |s| && s[..|w2| + |q| + 1] == w2 + q + "\""
    ensures OpenerParen(s, k).value == k + |w2| + |q| + 1
    decreases |s|
  {
    if IsSpace(s[0]) {
      var a, b := OpenerParenSound(s[1..], k + 1);
      w2, q := [s[0]] + a, b;
      assert s[..|w2| + |q| + 1] == [s[0]] + s[1..][..|a| + |b| + 1];
    } else if |s| >= 2 && s[0] == '"' && s[1] == '"' {
      w2, q := [], "\"";
      assert s[..2] == "\"" + "\"";
    } else {
      w2, q := [], "";
    }
  }

  lemma {:induction false} OpenerLeadSound(s: string, k: nat) returns (w1: string, p: string)
    requires OpenerLead(s, k).Some?
    ensures AllSpace(w1)
    ensures |w1| + |p| < |s| && s[..|w1| + |p| + 1] == w1 + p + "\""
    ensures OpenerLead(s, k).value == k + |w1| + |p| + 1
    ensures p == [] ==> k + |w1| > 0
    ensures p != [] ==> exists w2 :: AllSpace(w2) && (p == "(" + w2 || p == "(" + w2 + "\"")
    decreases |s|
  {
    if IsSpace(s[0]) {
      var a, b := OpenerLeadSound(s[1..], k + 1);
      w1, p := [s[0]] + a, b;
      assert s[..|w1| + |p| + 1] == [s[0]] + s[1..][..|a| + |b| + 1];
    } else if s[0] == '(' {
      w1 := [];
      p := OpenerParenPart(s, k);
    } else {
      w1, p := [], [];
    }
  }

  /** The parenthesised part of an opener, up to and including its last quote. */
  lemma OpenerParenPart(s: string, k: nat) returns (p: string)
    requires s != [] && s[0] == '(' && OpenerParen(s[1..], k + 1).Some?
    ensures |p| < |s| && s[..|p| + 1] == p + "\""
    ensures OpenerParen(s[1..], k + 1).value == k + |p| + 1
    ensures p != [] && exists w2 :: AllSpace(w2) && (p == "(" + w2 || p == "(" + w2 + "\"")
  {
    var w2, q := OpenerParenSound(s[1..], k + 1);
    p := "(" + w2 + q;
    assert s[..|p| + 1] == "(" + s[1..][..|w2| + |q| + 1];
    assert q == "" ==> p == "(" + w2;
  }

  /** The opener and the quote after it, at the start of `s`: their length. */
  function OpenerAt(s: string): (n: Option<nat>)
    ensures n.Some? ==> 0 < n.value <= |s|
  {
    OpenerLead(s, 0)
  }

  lemma OpenerAtSound(s: string)
    requires OpenerAt(s).Some?
    ensures exists o :: IsOpener(o) && s[..OpenerAt(s).value] == o + "\""
  {
    var w1, p := OpenerLeadSound(s, 0);
    var o := w1 + p;
    if p == [] {
      assert o == w1;
    } else {
      var w2 :| AllSpace(w2) && (p == "(" + w2 || p == "(" + w2 + "\"");
      assert o == w1 + "(" + w2 || o == w1 + "(" + w2 + "\"";
    }
    assert IsOpener(o);
    assert s[..OpenerAt(s).value] == o + "\"";
  }

  /** The `\s+` alternative: spaces and the quote. */
  lemma OpenerSpacesComplete(o: string, rest: string)
    requires |o| > 0 && AllSpace(o)
    ensures OpenerAt(o + "\"" + rest) == Some(|o| + 1)
  {
    assert o + "\"" + rest == o + ("\"" + rest);
    OpenerLeadSpaces(o, "\"" + rest, 0);
    assert ("\"" + rest)[0] == '"';
  }

  /** The parenthesised alternative, with `q` the quote `"?` may take. */
  lemma OpenerParenComplete(w1: string, w2: string, q: string, rest: string)
    requires AllSpace(w1) && AllSpace(w2) && (q == "" || q == "\"")
    requires rest != [] && rest[0] != '"'
    ensures OpenerAt(w1 + "(" + w2 + q + "\"" + rest) == Some(|w1| + |w2| + |q| + 2)
  {
    var v := q + "\"" + rest;
    assert w1 + "(" + w2 + q + "\"" + rest == w1 + ("(" + (w2 + v));
    OpenerLeadSpaces(w1, "(" + (w2 + v), 0);
    assert ("(" + (w2 + v))[1..] == w2 + v;
    OpenerParenSpaces(w2, v, |w1| + 1);
    if q == "" {
      assert v == "\"" + rest;
    } else {
      assert v == "\"" + "\"" + rest;
    }
  }

  /** Every opener is recognised in full when a key follows its quote. */
  lemma OpenerAtComplete(o: string, rest: string)
    requires IsOpener(o)
    requires rest != [] && rest[0] != '"'
    ensures OpenerAt(o + "\"" + rest) == Some(|o| + 1)
  {
    if |o| > 0 && AllSpace(o) {
      OpenerSpacesComplete(o, rest);
    } else {
      var w1, w2 :| AllSpace(w1) && AllSpace(w2) && (o == w1 + "(" + w2 || o == w1 + "(" + w2 + "\"");
      var q := if o == w1 + "(" + w2 then "" else "\"";
      assert o == w1 + "(" + w2 + q;
      OpenerParenComplete(w1, w2, q, rest);
    }
  }

  /** The key scanner: the position of the `=` that ends the key, counted from `k`. */
  function KeyEnd(s: string, k: nat): (r: Option<nat>)
    ensures r.Some? ==> k <= r.value < k + |s|
    decreases |s|
  {
    if s == [] || IsSpace(s[0]) then None
    else if s[0] == '=' then Some(k)
    else KeyEnd(s[1..], k + 1)
  }

  /** The value scanner: the position of the closing quote, counted from `k`. */
  function ValueEnd(s: string, k: nat): (r: Option<nat>)
    ensures r.Some? ==> k <= r.value < k + |s|
    decreases |s|
  {
    if s == [] then None
    else if s[0] == '"' then Some(k)
    else ValueEnd(s[1..], k + 1)
  }

  lemma {:induction false} KeyEndSound(s: string, k: nat)
    requires KeyEnd(s, k).Some?
    ensures s[KeyEnd(s, k).value - k] == '='
    ensures KeyChars(s[..KeyEnd(s, k).value - k])
    decreases |s|
  {
    if s[0] != '=' {
      KeyEndSound(s[1..], k + 1);
      var n := KeyEnd(s, k).value - k;
      assert s[..n][1..] == s[1..][..n - 1];
    }
  }

  lemma {:induction false} KeyEndOf(x: string, rest: string, k: nat)
    requires KeyChars(x)
    ensures KeyEnd(x + "=" + rest, k) == Some(k + |x|)
    decreases |x|
  {
    if x != [] {
      assert (x + "=" + rest)[1..] == x[1..] + "=" + rest;
      KeyEndOf(x[1..], rest, k + 1);
    } else {
      assert x + "=" + rest == "=" + rest;
    }
  }

  lemma {:induction false} ValueEndSound(s: string, k: nat)
    requires ValueEnd(s, k).Some?
    ensures s[ValueEnd(s, k).value - k] == '"'
    ensures '"' !in s[..ValueEnd(s, k).value - k]
    decreases |s|
  {
    if s[0] != '"' {
      ValueEndSound(s[1..], k + 1);
      var n := ValueEnd(s, k).value - k;
      assert s[..n] == [s[0]] + s[1..][..n - 1];
    }
  }

  lemma {:induction false} ValueEndOf(v: string, rest: string, k: nat)
    requires '"' !in v
    ensures ValueEnd(v + "\"" + rest, k) == Some(k + |v|)
    decreases |v|
  {
    if v != [] {
      assert (v + "\"" + rest)[1..] == v[1..] + "\"" + rest;
      ValueEndOf(v[1..], rest, k + 1);
    } else {
      assert v + "\"" + rest == "\"" + rest;
    }
  }

  /** The key, the `=`, the value and the closing quote, at the start of `s`. */
  function BodyAt(s: string): (r: Option<Found<Translation>>)
    ensures r.Some? ==> 0 < r.value.len <= |s|
  {
    if |s| >= 4 && s[..4] == "$$$/" then
      match KeyEnd(s[4..], 4)
      case Some(e) =>
        if e > 4 then
          match ValueEnd(s[e + 1..], 0)
          case Some(f) =>
            if f > 0 then Some(Found(e + f + 2, Translation(s[..e], s[e + 1..][..f]))) else None
          case None => None
        else None
      case None => None
    else None
  }

  lemma BodyAtSound(s: string)
    requires BodyAt(s).Some?
    ensures var r := BodyAt(s).value;
      IsKey(r.groups.key) && IsLocValue(r.groups.value) &&
      s[..r.len] == r.groups.key + "=" + r.groups.value + "\""
  {
    var e := KeyEnd(s[4..], 4).value;
    BodyKeySound(s);
    var v := s[e + 1..];
    var f := ValueEnd(v, 0).value;
    BodyValueSound(v);
    assert s[..e + f + 2] == s[..e] + [s[e]] + v[..f] + [v[f]];
  }

  /** The first group of a body: a key, followed by `=`. */
  lemma BodyKeySound(s: string)
    requires |s| >= 4 && s[..4] == "$$$/" && KeyEnd(s[4..], 4).Some?
    ensures var e := KeyEnd(s[4..], 4).value; e < |s| && s[e] == '=' && (e > 4 ==> IsKey(s[..e]))
  {
    var e := KeyEnd(s[4..], 4).value;
    KeyEndSound(s[4..], 4);
    var key := s[..e];
    assert key[..4] == s[..4];
    assert key[4..] == s[4..][..e - 4];
    assert s[e] == s[4..][e - 4];
  }

  /** The second group of a body: a value, followed by its closing quote. */
  lemma BodyValueSound(v: string)
    requires ValueEnd(v, 0).Some?
    ensures var f := ValueEnd(v, 0).value; f < |v| && v[f] == '"' && (f > 0 ==> IsLocValue(v[..f]))
  {
    ValueEndSound(v, 0);
  }

  lemma BodyAtComplete(key: string, value: string, rest: string)
    requires IsKey(key) && IsLocValue(value)
    ensures BodyAt(key + "=" + value + "\"" + rest) == Some(Found(|key| + |value| + 2, Translation(key, value)))
  {
    var s := key + "=" + value + "\"" + rest;
    var k := key[4..];
    var tail := value + "\"" + rest;
    assert s[..4] == key[..4];
    assert s[4..] == k + "=" + tail;
    KeyEndOf(k, tail, 4);
    var e := |key|;
    assert s[e + 1..] == value + "\"" + rest;
    ValueEndOf(value, rest, 0);
    assert s[..e] == key;
    assert s[e + 1..][..|value|] == value;
  }

  /** The matcher of pass 3: one call site at the start of `s`. */
  function MatchAt(s: string): (r: Option<Found<Translation>>)
    ensures r.Some? ==> 0 < r.value.len <= |s|
  {
    if |s| >= 3 && s[..3] == "LOC" then
      match OpenerAt(s[3..])
      case Some(n) =>
        (match BodyAt(s[3 + n..])
         case Some(f) => Some(Found(3 + n + f.len, f.groups))
         case None => None)
      case None => None
    else None
  }

  /** The pieces a match is read from, put back together. */
  lemma CallPieces(s: string, n: nat, len: nat, o: string, key: string, value: string)
    requires |s| >= 3 + n + len && s[..3] == "LOC"
    requires s[3..][..n] == o + "\"" && s[3 + n..][..len] == key + "=" + value + "\""
    ensures s[..3 + n + len] == "LOC" + o + "\"" + key + "=" + value + "\""
  {
    assert s[..3 + n] == s[..3] + s[3..][..n];
    assert s[..3 + n + len] == s[..3 + n] + s[3 + n..][..len];
  }

  lemma MatchAtSound(s: string)
    requires MatchAt(s).Some?
    ensures IsLocMatch(s[..MatchAt(s).value.len], MatchAt(s).value.groups.key, MatchAt(s).value.groups.value)
  {
    var n := OpenerAt(s[3..]).value;
    var b := s[3 + n..];
    var f := BodyAt(b).value;
    OpenerAtSound(s[3..]);
    var o :| IsOpener(o) && s[3..][..n] == o + "\"";
    BodyAtSound(b);
    CallPieces(s, n, f.len, o, f.groups.key, f.groups.value);
  }

  /** The text of a call site, grouped as the matcher reads it. */
  lemma CallRegroup(o: string, key: string, value: string, rest: string)
    ensures "LOC" + o + "\"" + key + "=" + value + "\"" + rest
         == "LOC" + (o + "\"" + (key + "=" + value + "\"" + rest))
  {
  }

  /** The matcher succeeds when the opener and then the body are recognised. */
  lemma MatchAtOf(u: string, body: string, n: nat, f: Found<Translation>)
    requires n <= |u| && u[n..] == body
    requires OpenerAt(u) == Some(n) && BodyAt(body) == Some(f)
    ensures MatchAt("LOC" + u) == Some(Found(3 + n + f.len, f.groups))
  {
    var s := "LOC" + u;
    assert s[..3] == "LOC" && s[3..] == u;
    assert s[3 + n..] == s[3..][n..];
    MatchAtFrom(s, n, f);
  }

  /** The matcher of pass 3 once the opener and the body are known. */
  lemma MatchAtFrom(s: string, n: nat, f: Found<Translation>)
    requires |s| >= 3 && s[..3] == "LOC" && OpenerAt(s[3..]) == Some(n)
    requires 3 + n <= |s| && BodyAt(s[3 + n..]) == Some(f)
    ensures MatchAt(s) == Some(Found(3 + n + f.len, f.groups))
  {
  }

  /** The matcher succeeds on a call site whose opener and body are each recognised. */
  lemma MatchAtGlue(o: string, key: string, value: string, rest: string)
    requires OpenerAt(o + "\"" + (key + "=" + value + "\"" + rest)) == Some(|o| + 1)
    requires BodyAt(key + "=" + value + "\"" + rest) == Some(Found(|key| + |value| + 2, Translation(key, value)))
    ensures MatchAt("LOC" + o + "\"" + key + "=" + value + "\"" + rest)
         == Some(Found(|o| + |key| + |value| + 6, Translation(key, value)))
  {
    var body := key + "=" + value + "\"" + rest;
    var u := o + "\"" + body;
    assert u[|o| + 1..] == body;
    MatchAtOf(u, body, |o| + 1, Found(|key| + |value| + 2, Translation(key, value)));
    CallRegroup(o, key, value, rest);
  }

  lemma MatchAtComplete(o: string, key: string, value: string, rest: string)
    requires IsOpener(o) && IsKey(key) && IsLocValue(value)
    ensures MatchAt("LOC" + o + "\"" + key + "=" + value + "\"" + rest)
         == Some(Found(|o| + |key| + |value| + 6, Translation(key, value)))
  {
    var body := key + "=" + value + "\"" + rest;
    assert body[0] == '$' by { assert body[0] == key[..4][0]; }
    OpenerAtComplete(o, body);
    BodyAtComplete(key, value, rest);
    MatchAtGlue(o, key, value, rest);
  }

  /** A call site is matched whatever follows it. */
  lemma MatchAtLocMatch(t: string, r: string, key: string, value: string)
    requires IsLocMatch(t, key, value)
    ensures MatchAt(t + r) == Some(Found(|t|, Translation(key, value)))
  {
    var o :| IsOpener(o) && t == "LOC" + o + "\"" + key + "=" + value + "\"";
    CallMatches(t, o, key, value, r);
  }

  /** The matcher takes exactly the pattern's matches, with their groups. */
  lemma MatchAtIff(s: string, n: nat, key: string, value: string)
    ensures MatchAt(s) == Some(Found(n, Translation(key, value))) <==> n <= |s| && IsLocMatch(s[..n], key, value)
  {
    if MatchAt(s) == Some(Found(n, Translation(key, value))) {
      MatchAtSound(s);
    }
    if n <= |s| && IsLocMatch(s[..n], key, value) {
      assert s == s[..n] + s[n..];
      MatchAtLocMatch(s[..n], s[n..], key, value);
    }
  }

  lemma MatchAtConsumes()
    ensures Consumes(MatchAt)
  {
  }

  /**
   * `extract_lightroom_strings`: the three passes in order, then the
   * `(key, value)` groups of every match.
   */
  function ExtractLightroomStrings(text: string): seq<Translation> {
    MatchAtConsumes();
    FindAll(Collapse(Fuse(text)), MatchAt)
  }

  /**
   * Every extracted pair is the pair of groups of a match in the normalised
   * text: the key is `$$$/` and at least one character that is not
   * whitespace or `=`, the value is non-empty and has no `"`, and neither
   * holds a newline.
   */
  lemma ExtractShape(text: string)
    ensures forall t :: t in ExtractLightroomStrings(text) ==>
      IsKey(t.key) && IsLocValue(t.value) && '\n' !in t.key && '\n' !in t.value
  {
    MatchAtConsumes();
    var s := Collapse(Fuse(text));
    CollapseRemovesNewlines(Fuse(text));
    var hits := FindAllFrom(s, 0, MatchAt);
    FindAllSound(s, 0, MatchAt);
    FindAllFromGroups(s, 0, MatchAt);
    assert s[0..] == s;
    forall t | t in ExtractLightroomStrings(text)
      ensures IsKey(t.key) && IsLocValue(t.value) && '\n' !in t.key && '\n' !in t.value
    {
      var i := GroupsMember(hits, t);
      var h := hits[i];
      assert h in hits;
      MatchChars(s[h.start..]);
      assert forall c :: c in s[h.start..] ==> c in s;
    }
  }

  /** The groups of a match have the pattern's shape and are taken from the matched text. */
  lemma MatchChars(m: string)
    requires MatchAt(m).Some?
    ensures var t := MatchAt(m).value.groups;
      IsKey(t.key) && IsLocValue(t.value) &&
      (forall c :: c in t.key ==> c in m) && (forall c :: c in t.value ==> c in m)
  {
    var r := MatchAt(m).value;
    var t := r.groups;
    MatchAtSound(m);
    var o :| IsOpener(o) && m[..r.len] == "LOC" + o + "\"" + t.key + "=" + t.value + "\"";
    GroupChars(m[..r.len], o, t.key, t.value);
    assert forall c :: c in m[..r.len] ==> c in m;
  }

  /** The characters of both groups occur in the call site. */
  lemma GroupChars(call: string, o: string, key: string, value: string)
    requires call == "LOC" + o + "\"" + key + "=" + value + "\""
    ensures forall c :: c in key ==> c in call
    ensures forall c :: c in value ==> c in call
  {
    forall c | c in key ensures c in call {
      var j :| 0 <= j < |key| && key[j] == c;
      assert call[|o| + 4 + j] == c;
    }
    forall c | c in value ensures c in call {
      var j :| 0 <= j < |value| && value[j] == c;
      assert call[|o| + 5 + |key| + j] == c;
    }
  }

  /** A call site starts with `L`. */
  lemma NoMatchWithoutL(t: string)
    requires t == [] || t[0] != 'L'
    ensures MatchAt(t).None?
  {
    if |t| >= 3 {
      assert t[..3][0] == t[0];
    }
  }

  /** A text without an `L` has no call site. */
  lemma ExtractWithoutL(s: string)
    requires 'L' !in s
    ensures FindAll(s, MatchAt) == []
  {
    forall p | 0 <= p < |s|
      ensures MatchAt(s[p..]).None?
    {
      assert s[p..][0] == s[p];
      NoMatchWithoutL(s[p..]);
    }
    MatchAtConsumes();
    FindAllEmptyIff(s, MatchAt);
  }

  /** A match at the start of the normalised text is reported first. */
  lemma FindAllAfterCall(call: string, x: string, t: Translation)
    requires MatchAt(call + x) == Some(Found(|call|, t))
    ensures FindAll(call + x, MatchAt) == [t] + FindAll(x, MatchAt)
  {
    MatchAtConsumes();
    FindAllAfterMatch(call, x, t, MatchAt);
  }

  /** A quote followed by a key-like text starts no join: the quote and the text are kept. */
  lemma FuseKeyed(kv: string, y: string)
    requires kv != [] && kv[0] == '$' && '"' !in kv
    ensures Fuse("\"" + kv + y) == "\"" + kv + Fuse(y)
  {
    var z := kv + y;
    assert ("\"" + z)[1..][0] == '$';
    assert JoinAt("\""[0..] + z).None?;
    FuseKeeps("\"", z);
    FuseQuoteFree(kv, y);
    assert "\"" + kv + y == "\"" + z;
    assert "\"" + (kv + Fuse(y)) == "\"" + kv + Fuse(y);
  }

  /** A quote that does not open a join is kept. */
  lemma FuseQuoteThen(tail: string)
    requires !StartsWithJoin(tail)
    ensures Fuse("\"" + tail) == "\"" + Fuse(tail)
  {
    JoinAtIff(tail);
    assert "\""[0..] == "\"";
    FuseKeeps("\"", tail);
  }

  /** Pass 1 keeps a call site without a join and goes on with the text after it. */
  lemma FuseCall(o: string, kv: string, tail: string)
    requires '"' !in o && kv != [] && kv[0] == '$' && '"' !in kv
    requires !StartsWithJoin(tail)
    ensures Fuse("LOC" + o + "\"" + kv + "\"" + tail) == "LOC" + o + "\"" + kv + "\"" + Fuse(tail)
  {
    var lead := "LOC" + o;
    assert '"' !in lead;
    assert "LOC" + o + "\"" + kv + "\"" + tail == lead + ("\"" + kv + ("\"" + tail));
    FuseQuoteFree(lead, "\"" + kv + ("\"" + tail));
    FuseKeyed(kv, "\"" + tail);
    FuseQuoteThen(tail);
    assert lead + ("\"" + kv + ("\"" + Fuse(tail))) == "LOC" + o + "\"" + kv + "\"" + Fuse(tail);
  }

  /**
   * A call site followed by anything that does not continue it with a join:
   * its pair comes first, then exactly what the rest of the text yields on
   * its own.  The call may span lines; the value is extracted with each of
   * its whitespace runs that holds a newline folded into one space.
   */
  lemma ExtractCallThenRest(o: string, key: string, value: string, tail: string)
    requires IsOpener(o) && '"' !in o
    requires IsKey(key) && '"' !in key
    requires IsLocValue(value)
    requires !StartsWithJoin(tail)
    ensures ExtractLightroomStrings("LOC" + o + "\"" + key + "=" + value + "\"" + tail)
         == [Translation(key, Collapse(value))] + ExtractLightroomStrings(tail)
  {
    var call := CallFacts(o, key, value, tail);
    ExtractStep(call, tail, Translation(key, Collapse(value)));
  }

  /** What passes 1, 2 and 3 do with a call site free of joins. */
  lemma CallFacts(o: string, key: string, value: string, tail: string) returns (call: string)
    requires IsOpener(o) && '"' !in o
    requires IsKey(key) && '"' !in key
    requires IsLocValue(value)
    requires !StartsWithJoin(tail)
    ensures call == "LOC" + o + "\"" + key + "=" + value + "\""
    ensures call != [] && call[|call| - 1] == '"'
    ensures Fuse(call + tail) == call + Fuse(tail)
    ensures MatchAt(Collapse(call) + Collapse(Fuse(tail))) == Some(Found(|Collapse(call)|, Translation(key, Collapse(value))))
  {
    var kv := key + "=" + value;
    assert kv[0] == key[..4][0];
    call := "LOC" + o + "\"" + kv + "\"";
    assert call == "LOC" + o + "\"" + key + "=" + value + "\"";
    CallFuses(call, o, kv, tail);
    CollapseCall(o, key, value);
    CollapseOpener(o);
    CollapseLocValue(value);
    CallMatches(Collapse(call), Collapse(o), key, Collapse(value), Collapse(Fuse(tail)));
  }

  /** Pass 2 on a call site: only the opener and the value can hold whitespace runs. */
  lemma CollapseCall(o: string, key: string, value: string)
    requires IsKey(key)
    ensures Collapse("LOC" + o + "\"" + key + "=" + value + "\"")
         == "LOC" + Collapse(o) + "\"" + key + "=" + Collapse(value) + "\""
  {
    var mid := "\"" + key + "=";
    KeyWithoutEquals(key);
    assert '\n' !in mid;
    var v := value + "\"";
    var x := mid + v;
    assert "LOC" + o + "\"" + key + "=" + value + "\"" == "LOC" + (o + x);
    CollapseNewlineFree("LOC");
    CollapseSeam("LOC", o + x);
    CollapseSeam(o, x);
    CollapseNewlineFree(mid);
    CollapseSeam(mid, v);
    CollapseNewlineFree("\"");
    CollapseSeam(value, "\"");
  }

  /** Pass 2 turns an opener into an opener: its whitespace runs stay whitespace runs. */
  lemma CollapseOpener(o: string)
    requires IsOpener(o)
    ensures IsOpener(Collapse(o))
  {
    if |o| > 0 && AllSpace(o) {
      CollapseSpaces(o);
    } else {
      var w1, w2 :| AllSpace(w1) && AllSpace(w2) && (o == w1 + "(" + w2 || o == w1 + "(" + w2 + "\"");
      var q := if o == w1 + "(" + w2 then "" else "\"";
      assert o == w1 + "(" + w2 + q;
      CollapseParen(w1, w2, q);
      var c1, c2 := Collapse(w1), Collapse(w2);
      assert Collapse(o) == c1 + "(" + c2 || Collapse(o) == c1 + "(" + c2 + "\"";
    }
  }

  /** Pass 2 on the parenthesised opener: each whitespace run around `(` is folded on its own. */
  lemma CollapseParen(w1: string, w2: string, q: string)
    requires AllSpace(w1) && AllSpace(w2) && (q == "" || q == "\"")
    ensures Collapse(w1 + "(" + w2 + q) == Collapse(w1) + "(" + Collapse(w2) + q
    ensures AllSpace(Collapse(w1)) && AllSpace(Collapse(w2))
  {
    assert w1 + "(" + w2 + q == w1 + ['('] + (w2 + q);
    CollapseSolid(w1, '(', w2 + q);
    if q == "" {
      assert w2 + q == w2;
    } else {
      assert w2 + q == w2 + ['"'] + [];
      CollapseSolid(w2, '"', []);
      assert Collapse([]) == [];
    }
    CollapseSpaces(w1);
    CollapseSpaces(w2);
  }

  /** A whitespace run before a non-space character is folded on its own. */
  lemma CollapseSolid(w: string, c: char, rest: string)
    requires AllSpace(w) && !IsSpace(c)
    ensures Collapse(w + [c] + rest) == Collapse(w) + [c] + Collapse(rest)
  {
    assert w + [c] + rest == w + ([c] + rest);
    CollapseSeam(w, [c] + rest);
    assert Span([c] + rest, IsSpace) == 0;
    var k, head := CollapseStep([c] + rest);
    assert ([c] + rest)[1..] == rest;
  }

  /** Pass 2 keeps a value a value: non-empty and free of quotes. */
  lemma CollapseLocValue(v: string)
    requires IsLocValue(v)
    ensures IsLocValue(Collapse(v))
  {
    CollapseNonEmpty(v);
    CollapseQuoteFree(v);
  }

  lemma CallFuses(call: string, o: string, kv: string, tail: string)
    requires call == "LOC" + o + "\"" + kv + "\""
    requires '"' !in o && kv != [] && kv[0] == '$' && '"' !in kv
    requires !StartsWithJoin(tail)
    ensures Fuse(call + tail) == call + Fuse(tail)
  {
    assert call + tail == "LOC" + o + "\"" + kv + "\"" + tail;
    FuseCall(o, kv, tail);
  }

  lemma CallMatches(call: string, o: string, key: string, value: string, x: string)
    requires call == "LOC" + o + "\"" + key + "=" + value + "\""
    requires IsOpener(o) && IsKey(key) && IsLocValue(value)
    ensures MatchAt(call + x) == Some(Found(|call|, Translation(key, value)))
  {
    assert call + x == "LOC" + o + "\"" + key + "=" + value + "\"" + x;
    MatchAtComplete(o, key, value, x);
  }

  /** One step of extraction: a call site kept by pass 1 and 2 and matched by pass 3. */
  lemma ExtractStep(call: string, tail: string, t: Translation)
    requires call != [] && call[|call| - 1] == '"'
    requires Fuse(call + tail) == call + Fuse(tail)
    requires MatchAt(Collapse(call) + Collapse(Fuse(tail))) == Some(Found(|Collapse(call)|, t))
    ensures ExtractLightroomStrings(call + tail) == [t] + ExtractLightroomStrings(tail)
  {
    CollapseSeam(call, Fuse(tail));
    FindAllAfterCall(Collapse(call), Collapse(Fuse(tail)), t);
  }

  /**
   * Fragments `"…" .. "…"` are fused before matching, even across spaces and
   * newlines: the call site yields the same as if its value were one literal.
   */
  lemma ExtractFusesFragments(key: string, a: string, w1: string, w2: string, b: string, tail: string)
    requires IsKey(key) && '"' !in key && '"' !in a && '"' !in b
    requires AllSpace(w1) && AllSpace(w2)
    ensures ExtractLightroomStrings("LOC(\"" + key + "=" + a + "\"" + w1 + ".." + w2 + "\"" + b + tail)
         == ExtractLightroomStrings("LOC(\"" + key + "=" + a + b + tail)
  {
    FuseFragmented(key, a, w1, w2, b, tail);
    FuseUnfragmented(key, a, b, tail);
  }

  /** Pass 1 on a call site whose value is split into two fragments. */
  lemma FuseFragmented(key: string, a: string, w1: string, w2: string, b: string, tail: string)
    requires IsKey(key) && '"' !in key && '"' !in a && '"' !in b
    requires AllSpace(w1) && AllSpace(w2)
    ensures Fuse("LOC(\"" + key + "=" + a + "\"" + w1 + ".." + w2 + "\"" + b + tail)
         == "LOC(" + ("\"" + (key + "=" + a) + (b + Fuse(tail)))
  {
    var kv := key + "=" + a;
    assert kv[0] == key[..4][0];
    var j := "\"" + w1 + ".." + w2 + "\"";
    assert "LOC(\"" + key + "=" + a + "\"" + w1 + ".." + w2 + "\"" + b + tail == "LOC(" + ("\"" + kv + (j + (b + tail)));
    FuseQuoteFree("LOC(", "\"" + kv + (j + (b + tail)));
    FuseKeyed(kv, j + (b + tail));
    FuseJoin(w1, w2, b + tail);
    FuseQuoteFree(b, tail);
  }

  /** Pass 1 on the same call site with its value written as one literal. */
  lemma FuseUnfragmented(key: string, a: string, b: string, tail: string)
    requires IsKey(key) && '"' !in key && '"' !in a && '"' !in b
    ensures Fuse("LOC(\"" + key + "=" + a + b + tail)
         == "LOC(" + ("\"" + (key + "=" + a) + (b + Fuse(tail)))
  {
    var kv := key + "=" + a;
    assert (kv + b)[0] == key[..4][0];
    assert "LOC(\"" + key + "=" + a + b + tail == "LOC(" + ("\"" + (kv + b) + tail);
    FuseQuoteFree("LOC(", "\"" + (kv + b) + tail);
    FuseKeyed(kv + b, tail);
    assert "\"" + (kv + b) + Fuse(tail) == "\"" + kv + (b + Fuse(tail));
  }

  // -------------------------------------------------------------------
  // format_translation

  /** `format_translation`: the catalog line `"key=value"`, the value stripped. */
  function FormatTranslation(key: string, value: string): string {
    "\"" + key + "=" + Strip(value) + "\""
  }

  predicate IsNotEquals(c: char) {
    c != '='
  }

  /** Reads a catalog line `"key=value"` back: the key runs to the first `=`. */
  function ParseCatalogLine(line: string): Option<Translation> {
    if |line| >= 2 && line[0] == '"' && line[|line| - 1] == '"' then
      var inner := line[1..|line| - 1];
      var e := Span(inner, IsNotEquals);
      if e < |inner| then Some(Translation(inner[..e], inner[e + 1..])) else None
    else None
  }

  /** Formatting loses nothing but the whitespace around the value. */
  lemma FormatParses(key: string, value: string)
    requires '=' !in key
    ensures ParseCatalogLine(FormatTranslation(key, value)) == Some(Translation(key, Strip(value)))
  {
    QuotedParses(key, Strip(value));
  }

  /** A quoted `key=v` whose key holds no `=` reads back as the pair. */
  lemma QuotedParses(key: string, v: string)
    requires '=' !in key
    ensures ParseCatalogLine("\"" + key + "=" + v + "\"") == Some(Translation(key, v))
  {
    var line := "\"" + key + "=" + v + "\"";
    var inner := line[1..|line| - 1];
    assert inner == key + "=" + v;
    assert forall i :: 0 <= i < |key| ==> inner[i] == key[i];
    SpanIs(inner, IsNotEquals, |key|);
    assert inner[..|key|] == key;
    assert inner[|key| + 1..] == v;
  }
}
