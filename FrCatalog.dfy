/**
 * The French catalog `TranslatedStrings_fr.txt` built by the top-level loop
 * of frtranslation.py.
 *
 * Every `.lua` file of the sorted listing gets a `# ===== <name> =====`
 * header, then one line per source line holding `$$$/key=value`, then a
 * blank line.  The first occurrence of a key is recorded in the dictionary
 * `found_strings` with its value and file, and emitted as `key=value`; every
 * later occurrence of the same key is emitted as a comment naming the file
 * that first had it.  Each element of `lines_out` ends with its own `\n`.
 */
module FrCatalog {
  import opened Wrappers
  import opened Text
  import opened Scanner
  import opened LocExtract
  import opened Listing

  // -------------------------------------------------------------------
  // The pattern r'(\$\$\$/[^\s=]+)=(.+)'

  /**
   * The pattern anchored at the start of `s`: `$$$/`, a non-empty run of
   * characters that are neither whitespace nor `=`, then `=`, then the
   * longest non-empty run of characters other than `\n`.  The groups are
   * the key and the value.
   */
  function EntryAt(s: string): Option<Found<(string, string)>> {
    if |s| < 4 || s[..4] != "$$$/" then None
    else
      match KeyEnd(s[4..], 0)
      case None => None
      case Some(n) =>
        if n == 0 then None
        else
          var m := Span(s[5 + n..], IsNotNewline);
          if m == 0 then None
          else Some(Found(5 + n + m, (s[..4 + n], s[5 + n..5 + n + m])))
  }

  lemma EntryAtConsumes()
    ensures Consumes(EntryAt)
  {
  }

  /** The last character of a key run is a key character. */
  lemma {:induction false} KeyCharsLast(s: string)
    requires s != [] && KeyChars(s)
    ensures IsKeyChar(s[|s| - 1])
    decreases |s|
  {
    if |s| > 1 {
      KeyCharsLast(s[1..]);
    }
  }

  /** What an anchored match consists of. */
  lemma EntryAtSound(s: string)
    requires EntryAt(s).Some?
    ensures var f := EntryAt(s).value;
      IsKey(f.groups.0) && f.groups.1 != [] && '\n' !in f.groups.1 &&
      f.len == |f.groups.0| + 1 + |f.groups.1| && f.len <= |s| &&
      s[..f.len] == f.groups.0 + "=" + f.groups.1 &&
      (f.len == |s| || s[f.len] == '\n')
  {
    var n := KeyEnd(s[4..], 0).value;
    KeyEndSound(s[4..], 0);
    var key := s[..4 + n];
    assert key[4..] == s[4..][..n];
    assert key[..4] == "$$$/";
    var v := s[5 + n..];
    var m := Span(v, IsNotNewline);
    forall i | 0 <= i < m ensures v[..m][i] != '\n' {
      assert IsNotNewline(v[i]);
    }
    assert s[..5 + n + m] == key + "=" + v[..m];
    if m < |v| {
      assert !IsNotNewline(v[m]);
      assert s[5 + n + m] == v[m];
    }
  }

  /** Every `$$$/key=value` reaching the end of the line or a `\n` is matched in full. */
  lemma EntryAtComplete(key: string, value: string, rest: string)
    requires IsKey(key) && value != [] && '\n' !in value
    requires rest == [] || rest[0] == '\n'
    ensures EntryAt(key + "=" + value + rest) ==
      Some(Found(|key| + 1 + |value|, (key, value)))
  {
    var s := key + "=" + value + rest;
    assert s[..4] == key[..4];
    assert s[4..] == key[4..] + "=" + (value + rest);
    KeyEndOf(key[4..], value + rest, 0);
    var n := |key| - 4;
    assert s[5 + n..] == value + rest;
    SpanConcat(value, rest, IsNotNewline);
    assert s[..4 + n] == key;
    assert s[5 + n..5 + n + |value|] == value;
  }

  /** The anchored pattern matches exactly the texts that begin with a full `$$$/key=value` line. */
  lemma EntryAtIff(s: string, len: nat, key: string, value: string)
    ensures EntryAt(s) == Some(Found(len, (key, value))) <==>
      IsKey(key) && value != [] && '\n' !in value &&
      len == |key| + 1 + |value| && len <= |s| && s[..len] == key + "=" + value &&
      (len == |s| || s[len] == '\n')
  {
    if EntryAt(s) == Some(Found(len, (key, value))) {
      EntryAtSound(s);
    }
    if IsKey(key) && value != [] && '\n' !in value &&
      len == |key| + 1 + |value| && len <= |s| && s[..len] == key + "=" + value &&
      (len == |s| || s[len] == '\n')
    {
      assert s == key + "=" + value + s[len..];
      EntryAtComplete(key, value, s[len..]);
    }
  }

  /** A line terminator after the text changes nothing about an anchored match. */
  lemma EntryAtTerminated(x: string)
    requires '\n' !in x
    ensures EntryAt(x + "\n") == EntryAt(x)
  {
    var t := x + "\n";
    if EntryAt(x).Some? {
      EntryAtSound(x);
      var f := EntryAt(x).value;
      assert f.len == |x|;
      assert t[..f.len] == x[..f.len] && t[f.len] == '\n';
      EntryAtIff(t, f.len, f.groups.0, f.groups.1);
    }
    if EntryAt(t).Some? {
      EntryAtSound(t);
      var f := EntryAt(t).value;
      KeyCharsNoNewline(f.groups.0[4..]);
      assert f.groups.0 == f.groups.0[..4] + f.groups.0[4..];
      var line := f.groups.0 + "=" + f.groups.1;
      assert '\n' !in line;
      assert t[..f.len] == line;
      assert t[|x|] == '\n';
      assert f.len == |x|;
      assert x[..f.len] == t[..f.len];
      EntryAtIff(x, f.len, f.groups.0, f.groups.1);
    }
  }

  // -------------------------------------------------------------------
  // One source line: match = pattern.search(line)

  /** `pattern.search(line)` with both groups stripped, as lines 19-22 do. */
  function LineEntry(line: string): Option<(string, string)> {
    match Search(line, EntryAt)
    case None => None
    case Some(h) => Some((Strip(h.groups.0), Strip(h.groups.1)))
  }

  /** A key has no whitespace at either end, so stripping leaves it alone. */
  lemma KeyStrips(key: string)
    requires IsKey(key)
    ensures Strip(key) == key
  {
    KeyCharsLast(key[4..]);
    assert key[|key| - 1] == key[4..][|key| - 5];
    assert key[0] == key[..4][0];
    StripSolid(key);
  }

  /**
   * On a line without `\n`, the first match runs to the end of the line:
   * its key is followed by `=`, and its value is all the rest.
   */
  lemma SearchHit(line: string)
    requires '\n' !in line && Search(line, EntryAt).Some?
    ensures var h := Search(line, EntryAt).value;
      IsKey(h.groups.0) && h.start + |h.groups.0| < |line| &&
      line[h.start..h.start + |h.groups.0| + 1] == h.groups.0 + "=" &&
      line[h.start + |h.groups.0| + 1..] == h.groups.1
  {
    var h := Search(line, EntryAt).value;
    var s := line[h.start..];
    EntryAtSound(s);
    assert forall c :: c in s ==> c in line;
    assert h.len == |s|;
    assert s[..h.len] == s;
    var k := |h.groups.0| + 1;
    assert line[h.start..h.start + k] == s[..k];
    assert line[h.start + k..] == s[k..];
  }

  /**
   * A line's entry is the key of the first match unchanged and its value
   * stripped.
   */
  lemma LineEntryOfHit(line: string)
    requires Search(line, EntryAt).Some?
    ensures LineEntry(line) ==
      Some((Search(line, EntryAt).value.groups.0, Strip(Search(line, EntryAt).value.groups.1)))
  {
    var h := Search(line, EntryAt).value;
    EntryAtSound(line[h.start..]);
    KeyStrips(h.groups.0);
  }

  /** A line yields nothing exactly when the pattern matches at no position. */
  lemma LineEntryNone(line: string)
    ensures LineEntry(line).None? <==> forall p :: 0 <= p <= |line| ==> EntryAt(line[p..]).None?
  {
  }

  /** Lines read from a file keep their `\n`; the entry is the same without it. */
  lemma LineEntryTerminated(line: string)
    requires '\n' !in line
    ensures LineEntry(line + "\n") == LineEntry(line)
  {
    SearchTerminated(line, 0);
  }

  lemma {:induction false} SearchTerminated(line: string, pos: nat)
    requires '\n' !in line && pos <= |line|
    ensures SearchFrom(line + "\n", pos, EntryAt) == SearchFrom(line, pos, EntryAt)
    decreases |line| - pos
  {
    var t := line + "\n";
    assert t[pos..] == line[pos..] + "\n";
    assert '\n' !in line[pos..] by {
      assert forall c :: c in line[pos..] ==> c in line;
    }
    EntryAtTerminated(line[pos..]);
    if pos < |line| {
      SearchTerminated(line, pos + 1);
    } else {
      assert t[pos + 1..] == [];
    }
  }

  // -------------------------------------------------------------------
  // The dictionary `found_strings` and the list `lines_out`

  /** The entries of a file's lines, in order. */
  function Entries(lines: seq<string>): (r: seq<(string, string)>)
    ensures |r| <= |lines|
    decreases |lines|
  {
    if lines == [] then []
    else
      Entries(lines[..|lines| - 1]) +
        match LineEntry(lines[|lines| - 1])
        case None => []
        case Some(e) => [e]
  }

  ghost predicate Keyed(es: seq<(string, string)>) {
    forall i :: 0 <= i < |es| ==> IsKey(es[i].0)
  }

  /** Every entry's key is a key of the pattern. */
  lemma {:induction false} EntriesKeys(lines: seq<string>)
    ensures Keyed(Entries(lines))
    decreases |lines|
  {
    if lines != [] {
      EntriesKeys(lines[..|lines| - 1]);
      var line := lines[|lines| - 1];
      if LineEntry(line).Some? {
        var h := Search(line, EntryAt).value;
        EntryAtSound(line[h.start..]);
        KeyStrips(h.groups.0);
      }
    }
  }

  /** `found_strings` and `lines_out`. */
  datatype FrState = FrState(found: map<string, (string, string)>, out: seq<string>)

  /** `f"# ===== {filename} =====\n"`. */
  function Header(name: string): string {
    "# ===== " + name + " =====\n"
  }

  /** `f"{key}={value}\n"`. */
  function LiveLine(key: string, value: string): string {
    key + "=" + value + "\n"
  }

  /** `f"# {key}={value}  # déjà vu dans {first}\n"`. */
  function RepeatLine(key: string, value: string, first: string): string {
    "# " + key + "=" + value + "  # d\U{00E9}j\U{00E0} vu dans " + first + "\n"
  }

  /** The inner loop over one file's entries. */
  function Absorb(st: FrState, name: string, es: seq<(string, string)>): (r: FrState)
    decreases |es|
  {
    if es == [] then st else Visit(Absorb(st, name, es[..|es| - 1]), name, es[|es| - 1])
  }

  /** One matched line of file `name`: store a new key, or comment out a repeated one. */
  function Visit(st: FrState, name: string, e: (string, string)): FrState {
    var (key, value) := e;
    if key !in st.found then FrState(st.found[key := (value, name)], st.out + [LiveLine(key, value)])
    else FrState(st.found, st.out + [RepeatLine(key, value, st.found[key].1)])
  }

  lemma AbsorbSnoc(st: FrState, name: string, es: seq<(string, string)>, e: (string, string))
    ensures Absorb(st, name, es + [e]) == Visit(Absorb(st, name, es), name, e)
  {
    assert (es + [e])[..|es|] == es;
  }

  /** The entries of one more line. */
  lemma EntriesSnoc(lines: seq<string>, j: nat)
    requires j < |lines|
    ensures LineEntry(lines[j]).None? ==> Entries(lines[..j + 1]) == Entries(lines[..j])
    ensures LineEntry(lines[j]).Some? ==> Entries(lines[..j + 1]) == Entries(lines[..j]) + [LineEntry(lines[j]).value]
  {
    assert lines[..j + 1][..j] == lines[..j];
  }

  /** What the outer loop learns from a file. */
  datatype FileScan = FileScan(name: string, lua: bool, entries: seq<(string, string)>)

  /** A file's lines are its text split at `\n`. */
  function ScanFile(f: SourceFile): FileScan {
    FileScan(f.name, IsLuaName(f.name), Entries(Split(f.content, '\n')))
  }

  function Scan(files: seq<SourceFile>): (r: seq<FileScan>)
    ensures |r| == |files|
    decreases |files|
  {
    if files == [] then [] else Scan(files[..|files| - 1]) + [ScanFile(files[|files| - 1])]
  }

  /** One pass of the outer loop: header, entries and blank line for a `.lua` file. */
  function RunFile(st: FrState, sc: FileScan): FrState {
    if !sc.lua then st
    else
      var r := Absorb(FrState(st.found, st.out + [Header(sc.name)]), sc.name, sc.entries);
      FrState(r.found, r.out + ["\n"])
  }

  /** The outer loop over the scanned files, from an empty dictionary and list. */
  function Run(scans: seq<FileScan>): FrState
    decreases |scans|
  {
    if scans == [] then FrState(map[], [])
    else RunFile(Run(scans[..|scans| - 1]), scans[|scans| - 1])
  }

  /** `found_strings` and `lines_out` once frtranslation.py has read the listing. */
  function FrenchCatalog(files: seq<SourceFile>): FrState {
    Run(Scan(files))
  }

  // -------------------------------------------------------------------
  // Properties of the dictionary and the list

  /** `found_strings` only grows, and an entry once stored is never overwritten. */
  ghost predicate Extends(a: map<string, (string, string)>, b: map<string, (string, string)>) {
    forall k :: k in a ==> k in b && b[k] == a[k]
  }

  /** The keys of a sequence of entries. */
  function KeysOf(es: seq<(string, string)>): set<string>
    decreases |es|
  {
    if es == [] then {} else KeysOf(es[..|es| - 1]) + {es[|es| - 1].0}
  }

  /**
   * The inner loop keeps every stored entry, stores exactly the new keys,
   * and appends one line per entry.
   */
  lemma {:induction false} AbsorbGrows(st: FrState, name: string, es: seq<(string, string)>)
    ensures Extends(st.found, Absorb(st, name, es).found)
    ensures Absorb(st, name, es).found.Keys == st.found.Keys + KeysOf(es)
    ensures |Absorb(st, name, es).out| == |st.out| + |es|
    ensures Absorb(st, name, es).out[..|st.out|] == st.out
    decreases |es|
  {
    if es != [] {
      AbsorbGrows(st, name, es[..|es| - 1]);
    }
  }

  /** A key new to the inner loop is stored with its first value and the current file. */
  lemma {:induction false} AbsorbStores(st: FrState, name: string, es: seq<(string, string)>, i: nat)
    requires i < |es| && es[i].0 !in st.found
    requires forall j :: 0 <= j < i ==> es[j].0 != es[i].0
    ensures es[i].0 in Absorb(st, name, es).found
    ensures Absorb(st, name, es).found[es[i].0] == (es[i].1, name)
    decreases |es|
  {
    var init := es[..|es| - 1];
    if i < |init| {
      AbsorbStores(st, name, init, i);
      AbsorbGrows(Absorb(st, name, init), name, [es[|es| - 1]]);
    } else {
      AbsorbGrows(st, name, init);
      assert es[i].0 !in KeysOf(init) by {
        KeysOfMember(init, es[i].0);
      }
    }
  }

  /** A key is among the keys of the entries exactly when some entry has it. */
  lemma {:induction false} KeysOfMember(es: seq<(string, string)>, k: string)
    ensures k in KeysOf(es) <==> exists j :: 0 <= j < |es| && es[j].0 == k
    decreases |es|
  {
    if es != [] {
      var init := es[..|es| - 1];
      KeysOfMember(init, k);
      assert forall j :: 0 <= j < |init| ==> init[j] == es[j];
    }
  }

  /** Catalog lines of keys start with `$`; headers, repeats and blank lines do not. */
  predicate IsLive(line: string) {
    line != [] && line[0] == '$'
  }

  /** The number of live lines. */
  function LiveCount(lines: seq<string>): nat
    decreases |lines|
  {
    if lines == [] then 0
    else LiveCount(lines[..|lines| - 1]) + if IsLive(lines[|lines| - 1]) then 1 else 0
  }

  /** What stays true of `found_strings` and `lines_out` throughout. */
  ghost predicate Consistent(st: FrState) {
    LiveCount(st.out) == |st.found| &&
    (forall k :: k in st.found ==> LiveLine(k, st.found[k].0) in st.out)
  }

  lemma LiveCountAppend(lines: seq<string>, line: string)
    ensures LiveCount(lines + [line]) == LiveCount(lines) + if IsLive(line) then 1 else 0
  {
    assert (lines + [line])[..|lines|] == lines;
  }

  /** The inner loop keeps the live lines in step with the stored keys. */
  lemma {:induction false} AbsorbConsistent(st: FrState, name: string, es: seq<(string, string)>)
    requires Consistent(st)
    requires Keyed(es)
    ensures Consistent(Absorb(st, name, es))
    decreases |es|
  {
    if es != [] {
      var init := es[..|es| - 1];
      assert forall i :: 0 <= i < |init| ==> init[i] == es[i];
      AbsorbConsistent(st, name, init);
      var s := Absorb(st, name, init);
      var (key, value) := es[|es| - 1];
      if key !in s.found {
        assert IsLive(LiveLine(key, value)) by {
          assert LiveLine(key, value)[0] == key[..4][0];
        }
        LiveCountAppend(s.out, LiveLine(key, value));
      } else {
        var line := RepeatLine(key, value, s.found[key].1);
        assert line[0] == '#';
        LiveCountAppend(s.out, line);
      }
    }
  }

  /** Every key the scan reports is a key of the pattern. */
  ghost predicate KeyedScans(scans: seq<FileScan>) {
    forall i :: 0 <= i < |scans| ==> Keyed(scans[i].entries)
  }

  lemma {:induction false} ScanKeyed(files: seq<SourceFile>)
    ensures KeyedScans(Scan(files))
    decreases |files|
  {
    if files != [] {
      var init := files[..|files| - 1];
      ScanKeyed(init);
      EntriesKeys(Split(files[|files| - 1].content, '\n'));
      KeyedSnoc(Scan(init), ScanFile(files[|files| - 1]));
    }
  }

  lemma KeyedSnoc(scans: seq<FileScan>, sc: FileScan)
    requires KeyedScans(scans) && Keyed(sc.entries)
    ensures KeyedScans(scans + [sc])
  {
    assert forall i :: 0 <= i < |scans| ==> (scans + [sc])[i] == scans[i];
  }

  /**
   * Every `.lua` file, with or without entries, appends its header, one
   * line per entry and a blank line after what was there; any other file
   * changes nothing.
   */
  lemma RunFileBlock(st: FrState, sc: FileScan)
    ensures !sc.lua ==> RunFile(st, sc) == st
    ensures sc.lua ==>
      var out := RunFile(st, sc).out;
      |out| == |st.out| + |sc.entries| + 2 && out[..|st.out|] == st.out &&
      out[|st.out|] == Header(sc.name) && out[|out| - 1] == "\n"
  {
    if sc.lua {
      var h := FrState(st.found, st.out + [Header(sc.name)]);
      AbsorbGrows(h, sc.name, sc.entries);
      var r := Absorb(h, sc.name, sc.entries);
      assert (r.out + ["\n"])[..|st.out|] == r.out[..|h.out|][..|st.out|];
    }
  }

  /** One outer pass keeps the state consistent and never overwrites a stored entry. */
  lemma RunFileConsistent(st: FrState, sc: FileScan)
    requires Consistent(st)
    requires Keyed(sc.entries)
    ensures Consistent(RunFile(st, sc))
  {
    if sc.lua {
      var h := FrState(st.found, st.out + [Header(sc.name)]);
      assert Header(sc.name)[0] == '#';
      LiveCountAppend(st.out, Header(sc.name));
      assert Consistent(h);
      AbsorbConsistent(h, sc.name, sc.entries);
      AbsorbGrows(h, sc.name, sc.entries);
      var r := Absorb(h, sc.name, sc.entries);
      LiveCountAppend(r.out, "\n");
    }
  }

  /** One outer pass never overwrites a stored entry. */
  lemma RunFileExtends(st: FrState, sc: FileScan)
    ensures Extends(st.found, RunFile(st, sc).found)
  {
    if sc.lua {
      AbsorbGrows(FrState(st.found, st.out + [Header(sc.name)]), sc.name, sc.entries);
    }
  }

  /** Whatever the listing, the number of live lines equals the number of distinct keys. */
  lemma {:induction false} RunConsistent(scans: seq<FileScan>)
    requires KeyedScans(scans)
    ensures Consistent(Run(scans))
    decreases |scans|
  {
    if scans != [] {
      var init := scans[..|scans| - 1];
      assert forall i :: 0 <= i < |init| ==> init[i] == scans[i];
      RunConsistent(init);
      RunFileConsistent(Run(init), scans[|scans| - 1]);
    }
  }

  /** An entry stored while reading the first `n` files is never overwritten. */
  lemma {:induction false} RunExtends(scans: seq<FileScan>, n: nat)
    requires n <= |scans|
    ensures Extends(Run(scans[..n]).found, Run(scans).found)
    decreases |scans|
  {
    if n < |scans| {
      var init := scans[..|scans| - 1];
      RunExtends(init, n);
      assert init[..n] == scans[..n];
      RunFileExtends(Run(init), scans[|scans| - 1]);
    } else {
      assert scans[..n] == scans;
    }
  }

  /** The keys of every `.lua` file scanned. */
  function LuaKeys(scans: seq<FileScan>): set<string>
    decreases |scans|
  {
    if scans == [] then {}
    else
      var sc := scans[|scans| - 1];
      LuaKeys(scans[..|scans| - 1]) + if sc.lua then KeysOf(sc.entries) else {}
  }

  /** `found_strings` holds exactly the keys met in `.lua` files. */
  lemma {:induction false} RunKeys(scans: seq<FileScan>)
    ensures Run(scans).found.Keys == LuaKeys(scans)
    decreases |scans|
  {
    if scans != [] {
      var st := Run(scans[..|scans| - 1]);
      var sc := scans[|scans| - 1];
      RunKeys(scans[..|scans| - 1]);
      if sc.lua {
        AbsorbGrows(FrState(st.found, st.out + [Header(sc.name)]), sc.name, sc.entries);
      }
    }
  }

  /**
   * The entry stored for a key is the value and file of its first
   * occurrence: the first entry with that key in the first `.lua` file that
   * has it.
   */
  lemma RunFirstOccurrence(scans: seq<FileScan>, i: nat, j: nat)
    requires i < |scans| && scans[i].lua && j < |scans[i].entries|
    requires scans[i].entries[j].0 !in LuaKeys(scans[..i])
    requires forall j' :: 0 <= j' < j ==> scans[i].entries[j'].0 != scans[i].entries[j].0
    ensures scans[i].entries[j].0 in Run(scans).found
    ensures Run(scans).found[scans[i].entries[j].0] == (scans[i].entries[j].1, scans[i].name)
  {
    var sc := scans[i];
    var st := Run(scans[..i]);
    RunKeys(scans[..i]);
    var h := FrState(st.found, st.out + [Header(sc.name)]);
    AbsorbStores(h, sc.name, sc.entries, j);
    assert scans[..i + 1][..i] == scans[..i];
    assert Run(scans[..i + 1]) == RunFile(st, sc);
    RunExtends(scans, i + 1);
  }

  /** Reading more entries only appends lines and never overwrites a stored entry. */
  lemma {:induction false} AbsorbPrefix(st: FrState, name: string, es: seq<(string, string)>, m: nat)
    requires m <= |es|
    ensures Absorb(st, name, es[..m]).out <= Absorb(st, name, es).out
    ensures Extends(Absorb(st, name, es[..m]).found, Absorb(st, name, es).found)
    decreases |es|
  {
    if m < |es| {
      var init := es[..|es| - 1];
      AbsorbPrefix(st, name, init, m);
      assert init[..m] == es[..m];
    } else {
      assert es[..m] == es;
    }
  }

  /**
   * The line the inner loop writes for entry `j`: the key is repeated when
   * the dictionary already held it before that entry.
   */
  lemma AbsorbEntryLine(st: FrState, name: string, es: seq<(string, string)>, j: nat)
    requires j < |es|
    ensures var pre := Absorb(st, name, es[..j]);
      var out := Absorb(st, name, es).out;
      |st.out| + j < |out| &&
      out[|st.out| + j] ==
        (if es[j].0 in pre.found then RepeatLine(es[j].0, es[j].1, pre.found[es[j].0].1) else LiveLine(es[j].0, es[j].1)) &&
      es[j].0 in Absorb(st, name, es).found &&
      (es[j].0 in pre.found ==> Absorb(st, name, es).found[es[j].0] == pre.found[es[j].0])
  {
    var pre := Absorb(st, name, es[..j]);
    AbsorbGrows(st, name, es[..j]);
    AbsorbPrefix(st, name, es, j + 1);
    assert es[..j + 1][..j] == es[..j];
    assert Absorb(st, name, es[..j + 1]) == Visit(pre, name, es[j]);
    assert Absorb(st, name, es[..j + 1]).out[|st.out| + j] == Absorb(st, name, es).out[|st.out| + j];
  }

  /** Reading more files only appends lines. */
  lemma {:induction false} RunOutPrefix(scans: seq<FileScan>, m: nat)
    requires m <= |scans|
    ensures Run(scans[..m]).out <= Run(scans).out
    decreases |scans|
  {
    if m < |scans| {
      var init := scans[..|scans| - 1];
      RunOutPrefix(init, m);
      assert init[..m] == scans[..m];
      RunFileBlock(Run(init), scans[|scans| - 1]);
    } else {
      assert scans[..m] == scans;
    }
  }

  /** An earlier entry of the same file has the key of entry `j`. */
  ghost predicate EarlierInFile(es: seq<(string, string)>, j: nat)
    requires j < |es|
  {
    exists j' :: 0 <= j' < j && es[j'].0 == es[j].0
  }

  /** The line one outer pass writes for entry `j` of a `.lua` file. */
  lemma RunFileEntryLine(st: FrState, sc: FileScan, j: nat)
    requires sc.lua && j < |sc.entries|
    ensures var (key, value) := sc.entries[j];
      var r := RunFile(st, sc);
      |st.out| + 1 + j < |r.out| && key in r.found &&
      r.out[|st.out| + 1 + j] ==
        if key in st.found || EarlierInFile(sc.entries, j) then RepeatLine(key, value, r.found[key].1)
        else LiveLine(key, value)
  {
    var es := sc.entries;
    var key := es[j].0;
    var h := FrState(st.found, st.out + [Header(sc.name)]);
    var pre := Absorb(h, sc.name, es[..j]);
    var r := Absorb(h, sc.name, es);
    AbsorbEntryLine(h, sc.name, es, j);
    AbsorbGrows(h, sc.name, es[..j]);
    KeysOfMember(es[..j], key);
    assert EarlierInFile(es, j) <==> exists j' :: 0 <= j' < j && es[..j][j'].0 == key by {
      assert forall j' :: 0 <= j' < j ==> es[..j][j'] == es[j'];
    }
    assert (r.out + ["\n"])[|h.out| + j] == r.out[|h.out| + j];
  }

  /**
   * Entry `j` of the `.lua` file `scans[i]` is written right after that
   * file's header and the lines of its earlier entries: as a comment naming
   * the file the key is stored with when an earlier `.lua` file or an
   * earlier entry of the same file had the key, and live otherwise.
   */
  lemma RunEntryLine(scans: seq<FileScan>, i: nat, j: nat)
    requires i < |scans| && scans[i].lua && j < |scans[i].entries|
    ensures |Run(scans[..i]).out| + 1 + j < |Run(scans).out|
    ensures scans[i].entries[j].0 in Run(scans).found
    ensures var key := scans[i].entries[j].0;
      var value := scans[i].entries[j].1;
      Run(scans).out[|Run(scans[..i]).out| + 1 + j] ==
        if key in LuaKeys(scans[..i]) || EarlierInFile(scans[i].entries, j)
        then RepeatLine(key, value, Run(scans).found[key].1)
        else LiveLine(key, value)
  {
    var st := Run(scans[..i]);
    var r := RunFile(st, scans[i]);
    RunFileEntryLine(st, scans[i], j);
    RunKeys(scans[..i]);
    RunPrefixStep(scans, i);
    RunLift(scans, i + 1, |st.out| + 1 + j, scans[i].entries[j].0);
  }

  /** The state after file `i` is one outer pass over the state before it. */
  lemma RunPrefixStep(scans: seq<FileScan>, i: nat)
    requires i < |scans|
    ensures Run(scans[..i + 1]) == RunFile(Run(scans[..i]), scans[i])
  {
    assert scans[..i + 1][..i] == scans[..i];
  }

  /** A line and a stored entry of the state after `m` files survive to the end. */
  lemma RunLift(scans: seq<FileScan>, m: nat, at: nat, key: string)
    requires m <= |scans|
    requires at < |Run(scans[..m]).out| && key in Run(scans[..m]).found
    ensures at < |Run(scans).out| && Run(scans).out[at] == Run(scans[..m]).out[at]
    ensures key in Run(scans).found && Run(scans).found[key] == Run(scans[..m]).found[key]
  {
    RunExtends(scans, m);
    RunOutPrefix(scans, m);
  }

  /** The written catalog: one live line per distinct key. */
  lemma FrenchCatalogConsistent(files: seq<SourceFile>)
    ensures LiveCount(FrenchCatalog(files).out) == |FrenchCatalog(files).found|
    ensures forall k :: k in FrenchCatalog(files).found ==>
      LiveLine(k, FrenchCatalog(files).found[k].0) in FrenchCatalog(files).out
  {
    ScanKeyed(files);
    RunConsistent(Scan(files));
  }

  // -------------------------------------------------------------------
  // The loop itself

  /** The inner loop of frtranslation.py over the lines of one file. */
  method ReadLines(found0: map<string, (string, string)>, out0: seq<string>, filename: string, lines: seq<string>)
    returns (found: map<string, (string, string)>, out: seq<string>)
    ensures FrState(found, out) == Absorb(FrState(found0, out0), filename, Entries(lines))
  {
    found := found0;
    out := out0;
    for j := 0 to |lines|
      invariant FrState(found, out) == Absorb(FrState(found0, out0), filename, Entries(lines[..j]))
    {
      EntriesSnoc(lines, j);
      var m := Search(lines[j], EntryAt);
      if m.Some? {
        var key := Strip(m.value.groups.0);
        var value := Strip(m.value.groups.1);
        AbsorbSnoc(FrState(found0, out0), filename, Entries(lines[..j]), (key, value));
        if key !in found {
          found := found[key := (value, filename)];
          out := out + [key + "=" + value + "\n"];
        } else {
          out := out + ["# " + key + "=" + value + "  # d\U{00E9}j\U{00E0} vu dans " + found[key].1 + "\n"];
        }
      }
    }
    assert lines[..|lines|] == lines;
  }

  /** The top-level loop of frtranslation.py, without its file-system effects. */
  method BuildFrenchCatalog(files: seq<SourceFile>) returns (found: map<string, (string, string)>, linesOut: seq<string>)
    ensures FrState(found, linesOut) == FrenchCatalog(files)
  {
    found := map[];
    linesOut := [];
    for i := 0 to |files|
      invariant FrState(found, linesOut) == Run(Scan(files[..i]))
    {
      assert files[..i + 1][..i] == files[..i];
      var filename := files[i].name;
      if IsLuaName(filename) {
        linesOut := linesOut + ["# ===== " + filename + " =====\n"];
        found, linesOut := ReadLines(found, linesOut, filename, Split(files[i].content, '\n'));
        linesOut := linesOut + ["\n"];
      }
    }
    assert files[..|files|] == files;
  }
}
