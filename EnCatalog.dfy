/**
 * The English catalog `TranslatedStrings_en.txt` built by
 * `process_lua_files` in translation.py.
 *
 * The directory listing is given as the sequence of files in the order
 * `sorted(os.listdir(...))` yields them.  Every `.lua` file whose text
 * yields at least one pair is recorded in a dictionary keyed by file name;
 * then, file by file, a `# <name>` header, one catalog line per pair and an
 * empty line are emitted.  A catalog line already emitted earlier anywhere
 * in the output is emitted again as a `# ` comment.
 */
module EnCatalog {
  import opened Wrappers
  import opened Text
  import opened LocExtract
  import opened Listing

  // -------------------------------------------------------------------
  // The dictionary `translations_by_file`

  /** The pairs a file contributes, or nothing when it is not a `.lua` file. */
  function FileMatches(f: SourceFile): seq<Translation> {
    if IsLuaName(f.name) then ExtractLightroomStrings(f.content) else []
  }

  /** What the first loop learns from each file: its name and its pairs. */
  function Scan(files: seq<SourceFile>): (r: seq<(string, seq<Translation>)>)
    ensures |r| == |files|
    decreases |files|
  {
    if files == [] then []
    else Scan(files[..|files| - 1]) + [(files[|files| - 1].name, FileMatches(files[|files| - 1]))]
  }

  lemma {:induction false} ScanAt(files: seq<SourceFile>, i: nat)
    requires i < |files|
    ensures Scan(files)[i] == (files[i].name, FileMatches(files[i]))
    decreases |files|
  {
    if i < |files| - 1 {
      var init := files[..|files| - 1];
      ScanAt(init, i);
      assert init[i] == files[i];
    }
  }

  /**
   * A Python dictionary from file names to their pairs: the keys in
   * insertion order, and the values.
   */
  datatype Grouping = Grouping(order: seq<string>, byFile: map<string, seq<Translation>>)

  /** Every name in the insertion order is a key. */
  ghost predicate WellFormed(g: Grouping) {
    forall n :: n in g.order ==> n in g.byFile
  }

  /**
   * `translations_by_file[filename] = matches` when there are matches: a new
   * key goes last, an existing key keeps its place and takes the new value.
   */
  function Record(g: Grouping, name: string, m: seq<Translation>): (r: Grouping)
    requires WellFormed(g)
    ensures WellFormed(r)
    ensures forall n :: n in r.byFile <==> n in g.byFile || (n == name && m != [])
  {
    if m == [] then g
    else if name in g.byFile then Grouping(g.order, g.byFile[name := m])
    else Grouping(g.order + [name], g.byFile[name := m])
  }

  /** The dictionary after the first loop has read the scanned files. */
  function Group(scans: seq<(string, seq<Translation>)>): (g: Grouping)
    ensures WellFormed(g)
    decreases |scans|
  {
    if scans == [] then Grouping([], map[])
    else Record(Group(scans[..|scans| - 1]), scans[|scans| - 1].0, scans[|scans| - 1].1)
  }

  /** `scans[i]` is a file named `n` that yields pairs. */
  predicate Hit(scans: seq<(string, seq<Translation>)>, i: nat, n: string)
    requires i < |scans|
  {
    scans[i].0 == n && scans[i].1 != []
  }

  /** The position of the first file named `n` that yields pairs, or `|scans|` when there is none. */
  function FirstHit(scans: seq<(string, seq<Translation>)>, n: string): (f: nat)
    ensures f <= |scans|
    ensures f < |scans| ==> Hit(scans, f, n)
    ensures forall i :: 0 <= i < f ==> !Hit(scans, i, n)
    decreases |scans|
  {
    if scans == [] then 0
    else
      var init := scans[..|scans| - 1];
      var f := FirstHit(init, n);
      assert forall i :: 0 <= i < |init| ==> Hit(init, i, n) == Hit(scans, i, n);
      if f < |init| then f
      else if Hit(scans, |init|, n) then |init|
      else |scans|
  }

  /**
   * The insertion order lists every key of the dictionary exactly once,
   * ordered by where in the listing a file of that name first yielded pairs.
   */
  lemma {:induction false} GroupOrder(scans: seq<(string, seq<Translation>)>)
    ensures forall n :: n in Group(scans).byFile ==> n in Group(scans).order
    ensures forall i, j :: 0 <= i < j < |Group(scans).order| ==> Group(scans).order[i] != Group(scans).order[j]
    ensures forall i :: 0 <= i < |Group(scans).order| ==> FirstHit(scans, Group(scans).order[i]) < |scans|
    ensures forall i, j :: 0 <= i < j < |Group(scans).order| ==>
      FirstHit(scans, Group(scans).order[i]) < FirstHit(scans, Group(scans).order[j])
    decreases |scans|
  {
    if scans != [] {
      var init := scans[..|scans| - 1];
      GroupOrder(init);
      var g0, g := Group(init), Group(scans);
      forall i | 0 <= i < |g0.order| ensures FirstHit(scans, g0.order[i]) == FirstHit(init, g0.order[i]) {
        FirstHitKept(scans, g0.order[i]);
      }
      if g.order != g0.order {
        var name := scans[|scans| - 1].0;
        GroupKeys(init, name);
        assert forall i :: 0 <= i < |init| ==> init[i] == scans[i];
        FirstHitNew(scans, name);
      }
    }
  }

  /** A first hit among all but the last file stays the first hit. */
  lemma FirstHitKept(scans: seq<(string, seq<Translation>)>, n: string)
    requires scans != [] && FirstHit(scans[..|scans| - 1], n) < |scans| - 1
    ensures FirstHit(scans, n) == FirstHit(scans[..|scans| - 1], n)
  {
  }

  /** A name no earlier file yielded pairs under first hits at the last file. */
  lemma FirstHitNew(scans: seq<(string, seq<Translation>)>, n: string)
    requires scans != [] && Hit(scans, |scans| - 1, n)
    requires forall i :: 0 <= i < |scans| - 1 ==> !Hit(scans, i, n)
    ensures FirstHit(scans, n) == |scans| - 1
  {
    var init := scans[..|scans| - 1];
    assert forall i :: 0 <= i < |init| ==> init[i] == scans[i];
  }

  /** A file name is a key of the dictionary exactly when some file of that name has pairs. */
  lemma {:induction false} GroupKeys(scans: seq<(string, seq<Translation>)>, n: string)
    ensures n in Group(scans).byFile <==>
      exists i :: 0 <= i < |scans| && scans[i].0 == n && scans[i].1 != []
    decreases |scans|
  {
    if scans != [] {
      var init := scans[..|scans| - 1];
      GroupKeys(init, n);
      assert forall i :: 0 <= i < |init| ==> init[i] == scans[i];
    }
  }

  /** Each key holds the pairs of the last file of that name that had any. */
  lemma {:induction false} GroupValue(scans: seq<(string, seq<Translation>)>, i: nat)
    requires i < |scans| && scans[i].1 != []
    requires forall j :: i < j < |scans| ==> scans[j].0 != scans[i].0
    ensures scans[i].0 in Group(scans).byFile && Group(scans).byFile[scans[i].0] == scans[i].1
    decreases |scans|
  {
    if i < |scans| - 1 {
      var init := scans[..|scans| - 1];
      forall j | i < j < |init| ensures init[j].0 != init[i].0 {
        assert init[j] == scans[j] && init[i] == scans[i];
      }
      GroupValue(init, i);
      assert init[i] == scans[i];
    }
  }

  /** The dictionary after the first loop has read `files`. */
  function Collect(files: seq<SourceFile>): (g: Grouping)
    ensures WellFormed(g)
  {
    Group(Scan(files))
  }

  /** No output at all exactly when no `.lua` file yields a pair. */
  lemma CollectEmptyIff(files: seq<SourceFile>)
    ensures Collect(files).byFile == map[] <==>
      forall i :: 0 <= i < |files| ==> FileMatches(files[i]) == []
  {
    var scans := Scan(files);
    var g := Group(scans);
    if g.byFile != map[] {
      var n :| n in g.byFile;
      GroupKeys(scans, n);
      var i :| 0 <= i < |scans| && scans[i].0 == n && scans[i].1 != [];
      ScanAt(files, i);
    }
    forall i | 0 <= i < |files| && FileMatches(files[i]) != []
      ensures files[i].name in g.byFile
    {
      ScanAt(files, i);
      GroupKeys(scans, files[i].name);
    }
  }

  /** A `.lua` file whose name no later file repeats is listed under its own pairs. */
  lemma CollectFile(files: seq<SourceFile>, i: nat)
    requires i < |files| && FileMatches(files[i]) != []
    requires forall j :: i < j < |files| ==> files[j].name != files[i].name
    ensures files[i].name in Collect(files).byFile && Collect(files).byFile[files[i].name] == FileMatches(files[i])
  {
    var scans := Scan(files);
    ScanAt(files, i);
    forall j | i < j < |scans| ensures scans[j].0 != scans[i].0 {
      ScanAt(files, j);
    }
    GroupValue(scans, i);
  }

  // -------------------------------------------------------------------
  // The output loop and `seen_lines`

  /** The catalog lines of a file's pairs, in order. */
  function CatalogLines(ts: seq<Translation>): (r: seq<string>)
    ensures |r| == |ts|
    decreases |ts|
  {
    if ts == [] then []
    else CatalogLines(ts[..|ts| - 1]) + [FormatTranslation(ts[|ts| - 1].key, ts[|ts| - 1].value)]
  }

  /** The set `seen_lines` and the lines appended so far. */
  datatype Emitted = Emitted(seen: set<string>, lines: seq<string>)

  /** The line that stands for `line` when `seen` holds the lines already emitted. */
  function Mark(line: string, seen: set<string>): string {
    if line in seen then "# " + line else line
  }

  /** The inner loop over one file's catalog lines. */
  function Emit(seen: set<string>, ls: seq<string>): (e: Emitted)
    ensures |e.lines| == |ls|
    decreases |ls|
  {
    if ls == [] then Emitted(seen, [])
    else
      var e := Emit(seen, ls[..|ls| - 1]);
      var line := ls[|ls| - 1];
      if line in e.seen then Emitted(e.seen, e.lines + ["# " + line])
      else Emitted(e.seen + {line}, e.lines + [line])
  }

  /** The members of a sequence of lines. */
  function Elems(ls: seq<string>): (r: set<string>)
    decreases |ls|
  {
    if ls == [] then {} else Elems(ls[..|ls| - 1]) + {ls[|ls| - 1]}
  }

  /**
   * The `i`-th emitted line is the `i`-th catalog line, commented out
   * exactly when the same line was seen before it; afterwards every catalog
   * line of the file has been seen.
   */
  lemma {:induction false} EmitSpec(seen: set<string>, ls: seq<string>)
    ensures Emit(seen, ls).seen == seen + Elems(ls)
    ensures forall i :: 0 <= i < |ls| ==> Emit(seen, ls).lines[i] == Mark(ls[i], seen + Elems(ls[..i]))
    decreases |ls|
  {
    if ls != [] {
      var init := ls[..|ls| - 1];
      EmitSpec(seen, init);
      var e := Emit(seen, ls);
      forall i | 0 <= i < |ls| ensures e.lines[i] == Mark(ls[i], seen + Elems(ls[..i])) {
        if i < |init| {
          assert init[..i] == ls[..i];
        } else {
          assert ls[..i] == init;
        }
      }
    }
  }

  /** Catalog lines start with a quote; headers, comments and separators do not. */
  predicate IsLive(line: string) {
    line != [] && line[0] == '"'
  }

  /** Every formatted catalog line is live. */
  lemma FormatLive(key: string, value: string)
    ensures IsLive(FormatTranslation(key, value))
  {
  }

  /** The live lines of `lines` are distinct and all belong to `seen`. */
  predicate LiveOnce(lines: seq<string>, seen: set<string>) {
    (forall i, j :: 0 <= i < j < |lines| && IsLive(lines[i]) ==> lines[i] != lines[j]) &&
    (forall i :: 0 <= i < |lines| && IsLive(lines[i]) ==> lines[i] in seen)
  }

  /** A commented line is never live. */
  lemma CommentNotLive(line: string)
    ensures !IsLive("# " + line)
  {
    assert ("# " + line)[0] == '#';
  }

  /**
   * Appending lines whose live members are new keeps live lines distinct.
   */
  lemma LiveAppend(a: seq<string>, b: seq<string>, s: set<string>, s': set<string>)
    requires LiveOnce(a, s) && LiveOnce(b, s') && s <= s'
    requires forall j :: 0 <= j < |b| && IsLive(b[j]) ==> b[j] !in s
    ensures LiveOnce(a + b, s')
  {
    var c := a + b;
    forall i, j | 0 <= i < j < |c| && IsLive(c[i])
      ensures c[i] != c[j]
    {
      if j >= |a| && i < |a| {
        assert c[i] == a[i] && c[j] == b[j - |a|];
      } else if i >= |a| {
        assert c[i] == b[i - |a|] && c[j] == b[j - |a|];
      } else {
        assert c[i] == a[i] && c[j] == a[j];
      }
    }
    forall i | 0 <= i < |c| && IsLive(c[i])
      ensures c[i] in s'
    {
      if i < |a| { assert c[i] == a[i]; } else { assert c[i] == b[i - |a|]; }
    }
  }

  /** The inner loop emits each new catalog line once, live, and adds it to `seen_lines`. */
  lemma {:induction false} EmitLiveOnce(seen: set<string>, ls: seq<string>)
    ensures seen <= Emit(seen, ls).seen
    ensures LiveOnce(Emit(seen, ls).lines, Emit(seen, ls).seen)
    ensures forall i :: 0 <= i < |ls| && IsLive(Emit(seen, ls).lines[i]) ==> Emit(seen, ls).lines[i] !in seen
    decreases |ls|
  {
    if ls != [] {
      var init := ls[..|ls| - 1];
      EmitLiveOnce(seen, init);
      var e := Emit(seen, init);
      var line := ls[|ls| - 1];
      if line in e.seen {
        CommentNotLive(line);
        LiveAppend(e.lines, ["# " + line], e.seen, e.seen);
      } else {
        LiveAppend(e.lines, [line], e.seen, e.seen + {line});
      }
    }
  }

  /** The outer loop over the dictionary's files, in insertion order. */
  function Render(names: seq<string>, byFile: map<string, seq<Translation>>): (e: Emitted)
    requires forall n :: n in names ==> n in byFile
    decreases |names|
  {
    if names == [] then Emitted({}, [])
    else
      var r := Render(names[..|names| - 1], byFile);
      var name := names[|names| - 1];
      var inner := Emit(r.seen, CatalogLines(byFile[name]));
      Emitted(inner.seen, r.lines + ["# " + name] + inner.lines + [""])
  }

  /** The number of pairs the listed files hold. */
  function PairCount(names: seq<string>, byFile: map<string, seq<Translation>>): nat
    requires forall n :: n in names ==> n in byFile
    decreases |names|
  {
    if names == [] then 0
    else PairCount(names[..|names| - 1], byFile) + |byFile[names[|names| - 1]]|
  }

  /** Each file contributes its header, one line per pair and an empty line. */
  lemma {:induction false} RenderLength(names: seq<string>, byFile: map<string, seq<Translation>>)
    requires forall n :: n in names ==> n in byFile
    ensures |Render(names, byFile).lines| == |names| * 2 + PairCount(names, byFile)
    decreases |names|
  {
    if names != [] {
      RenderLength(names[..|names| - 1], byFile);
    }
  }

  /** Across the whole output, no catalog line is emitted live twice. */
  lemma {:induction false} RenderLiveOnce(names: seq<string>, byFile: map<string, seq<Translation>>)
    requires forall n :: n in names ==> n in byFile
    ensures LiveOnce(Render(names, byFile).lines, Render(names, byFile).seen)
    decreases |names|
  {
    if names != [] {
      var r := Render(names[..|names| - 1], byFile);
      RenderLiveOnce(names[..|names| - 1], byFile);
      var name := names[|names| - 1];
      var inner := Emit(r.seen, CatalogLines(byFile[name]));
      EmitLiveOnce(r.seen, CatalogLines(byFile[name]));
      CommentNotLive(name);
      assert !IsLive("");
      LiveAppend(r.lines, ["# " + name], r.seen, r.seen);
      LiveAppend(r.lines + ["# " + name], inner.lines, r.seen, inner.seen);
      LiveAppend(r.lines + ["# " + name] + inner.lines, [""], inner.seen, inner.seen);
    }
  }

  /** The catalog lines of all the listed files. */
  function AllLines(names: seq<string>, byFile: map<string, seq<Translation>>): set<string>
    requires forall n :: n in names ==> n in byFile
    decreases |names|
  {
    if names == [] then {}
    else AllLines(names[..|names| - 1], byFile) + Elems(CatalogLines(byFile[names[|names| - 1]]))
  }

  /** `Elems` holds exactly the lines of the sequence. */
  lemma {:induction false} ElemsIff(ls: seq<string>, x: string)
    ensures x in Elems(ls) <==> x in ls
    decreases |ls|
  {
    if ls != [] {
      var init := ls[..|ls| - 1];
      ElemsIff(init, x);
      assert ls == init + [ls[|ls| - 1]];
    }
  }

  /** File `n` has the catalog line `x`. */
  predicate HasLine(byFile: map<string, seq<Translation>>, n: string, x: string) {
    n in byFile && x in CatalogLines(byFile[n])
  }

  /** A line is among all catalog lines exactly when some listed file has it. */
  lemma AllLinesIff(names: seq<string>, byFile: map<string, seq<Translation>>, x: string)
    requires forall n :: n in names ==> n in byFile
    ensures x in AllLines(names, byFile) <==> exists g :: 0 <= g < |names| && HasLine(byFile, names[g], x)
  {
    if x in AllLines(names, byFile) {
      var g := AllLinesFrom(names, byFile, x);
    }
    if exists g :: 0 <= g < |names| && HasLine(byFile, names[g], x) {
      var g :| 0 <= g < |names| && HasLine(byFile, names[g], x);
      AllLinesHas(names, byFile, g, x);
    }
  }

  /** A line among all catalog lines comes from some listed file. */
  lemma {:induction false} AllLinesFrom(names: seq<string>, byFile: map<string, seq<Translation>>, x: string)
    returns (g: nat)
    requires forall n :: n in names ==> n in byFile
    requires x in AllLines(names, byFile)
    ensures g < |names| && HasLine(byFile, names[g], x)
    decreases |names|
  {
    var init := names[..|names| - 1];
    if x in AllLines(init, byFile) {
      g := AllLinesFrom(init, byFile, x);
      assert init[g] == names[g];
    } else {
      g := |names| - 1;
      ElemsIff(CatalogLines(byFile[names[g]]), x);
    }
  }

  /** Every catalog line of a listed file is among all catalog lines. */
  lemma {:induction false} AllLinesHas(names: seq<string>, byFile: map<string, seq<Translation>>, g: nat, x: string)
    requires forall n :: n in names ==> n in byFile
    requires g < |names| && HasLine(byFile, names[g], x)
    ensures x in AllLines(names, byFile)
    decreases |names|
  {
    var init := names[..|names| - 1];
    if g < |init| {
      assert init[g] == names[g];
      AllLinesHas(init, byFile, g, x);
    } else {
      assert g == |names| - 1;
      ElemsIff(CatalogLines(byFile[names[g]]), x);
    }
  }

  /** After the output loop, `seen_lines` holds every catalog line of every file and nothing else. */
  lemma {:induction false} RenderSeen(names: seq<string>, byFile: map<string, seq<Translation>>)
    requires forall n :: n in names ==> n in byFile
    ensures Render(names, byFile).seen == AllLines(names, byFile)
    decreases |names|
  {
    if names != [] {
      var init := names[..|names| - 1];
      RenderSeen(init, byFile);
      EmitSpec(Render(init, byFile).seen, CatalogLines(byFile[names[|names| - 1]]));
    }
  }

  /** The output for the first `m` files is the start of the output for all of them. */
  lemma {:induction false} RenderPrefix(names: seq<string>, byFile: map<string, seq<Translation>>, m: nat)
    requires forall n :: n in names ==> n in byFile
    requires m <= |names|
    ensures Render(names[..m], byFile).lines <= Render(names, byFile).lines
    decreases |names|
  {
    if m < |names| {
      var init := names[..|names| - 1];
      RenderPrefix(init, byFile, m);
      assert init[..m] == names[..m];
      RenderStep(names, byFile);
      PrefixTrans(Render(names[..m], byFile).lines, Render(init, byFile).lines, Render(names, byFile).lines);
    } else {
      assert names[..m] == names;
    }
  }

  /** The output for all files but the last is the start of the output for all of them. */
  lemma RenderStep(names: seq<string>, byFile: map<string, seq<Translation>>)
    requires forall n :: n in names ==> n in byFile
    requires names != []
    ensures Render(names[..|names| - 1], byFile).lines <= Render(names, byFile).lines
  {
  }

  /** Being a prefix is transitive. */
  lemma PrefixTrans(a: seq<string>, b: seq<string>, c: seq<string>)
    requires a <= b && b <= c
    ensures a <= c
  {
    assert c[..|a|] == c[..|b|][..|a|];
  }

  /** The block of file `names[f]`: its header sits right after the output for the earlier files. */
  lemma RenderBlock(names: seq<string>, byFile: map<string, seq<Translation>>, f: nat)
    requires forall n :: n in names ==> n in byFile
    requires f < |names|
    ensures var before := Render(names[..f], byFile);
      var inner := Emit(before.seen, CatalogLines(byFile[names[f]]));
      Render(names[..f + 1], byFile).lines == before.lines + ["# " + names[f]] + inner.lines + [""]
  {
    assert names[..f + 1][..f] == names[..f];
  }

  /**
   * The `k`-th catalog line of file `names[f]` is written after that file's
   * header, commented out exactly when the same line belongs to an earlier
   * file or occurs earlier in the same file.
   */
  lemma RenderLine(names: seq<string>, byFile: map<string, seq<Translation>>, f: nat, k: nat)
    requires forall n :: n in names ==> n in byFile
    requires f < |names| && k < |byFile[names[f]]|
    ensures var ls := CatalogLines(byFile[names[f]]);
      var at := |Render(names[..f], byFile).lines| + 1 + k;
      at < |Render(names, byFile).lines| &&
      Render(names, byFile).lines[at] ==
        if (exists g :: 0 <= g < f && HasLine(byFile, names[g], ls[k])) || ls[k] in ls[..k]
        then "# " + ls[k] else ls[k]
  {
    var ls := CatalogLines(byFile[names[f]]);
    var before := Render(names[..f], byFile);
    var at := |before.lines| + 1 + k;
    RenderBlockLine(names, byFile, f, k);
    RenderPrefix(names, byFile, f + 1);
    RenderSeen(names[..f], byFile);
    EarlierLines(names, byFile, f, ls[k]);
    ElemsIff(ls[..k], ls[k]);
    assert Render(names, byFile).lines[at] == Render(names[..f + 1], byFile).lines[at];
  }

  /** Within the block of file `names[f]`, its `k`-th catalog line is marked against what was seen before it. */
  lemma RenderBlockLine(names: seq<string>, byFile: map<string, seq<Translation>>, f: nat, k: nat)
    requires forall n :: n in names ==> n in byFile
    requires f < |names| && k < |byFile[names[f]]|
    ensures var ls := CatalogLines(byFile[names[f]]);
      var before := Render(names[..f], byFile);
      var at := |before.lines| + 1 + k;
      at < |Render(names[..f + 1], byFile).lines| &&
      Render(names[..f + 1], byFile).lines[at] == Mark(ls[k], before.seen + Elems(ls[..k]))
  {
    var ls := CatalogLines(byFile[names[f]]);
    var before := Render(names[..f], byFile);
    var inner := Emit(before.seen, ls);
    RenderBlock(names, byFile, f);
    EmitAt(before.seen, ls, k);
    BlockAt(before.lines, "# " + names[f], inner.lines, k);
  }

  /** The `k`-th emitted line is the `k`-th line, marked against what was seen before it. */
  lemma EmitAt(seen: set<string>, ls: seq<string>, k: nat)
    requires k < |ls|
    ensures Emit(seen, ls).lines[k] == Mark(ls[k], seen + Elems(ls[..k]))
  {
    EmitSpec(seen, ls);
  }

  /** Line `k` of a block's body, counted from the start of the output. */
  lemma BlockAt(before: seq<string>, header: string, body: seq<string>, k: nat)
    requires k < |body|
    ensures |before| + 1 + k < |before + [header] + body + [""]|
    ensures (before + [header] + body + [""])[|before| + 1 + k] == body[k]
  {
  }

  /** A line is among the catalog lines of the first `f` files exactly when one of them has it. */
  lemma EarlierLines(names: seq<string>, byFile: map<string, seq<Translation>>, f: nat, x: string)
    requires forall n :: n in names ==> n in byFile
    requires f <= |names|
    ensures x in AllLines(names[..f], byFile) <==> exists g :: 0 <= g < f && HasLine(byFile, names[g], x)
  {
    var pre := names[..f];
    if x in AllLines(pre, byFile) {
      var g := AllLinesFrom(pre, byFile, x);
      assert pre[g] == names[g];
    }
    if exists g :: 0 <= g < f && HasLine(byFile, names[g], x) {
      var g :| 0 <= g < f && HasLine(byFile, names[g], x);
      assert pre[g] == names[g];
      AllLinesHas(pre, byFile, g, x);
    }
  }

  /** Two pairs give the same catalog line. */
  predicate SamePair(a: Translation, b: Translation) {
    a.key == b.key && Strip(a.value) == Strip(b.value)
  }

  /** The `i`-th catalog line formats the `i`-th pair. */
  lemma {:induction false} CatalogLinesAt(ts: seq<Translation>, i: nat)
    requires i < |ts|
    ensures CatalogLines(ts)[i] == FormatTranslation(ts[i].key, ts[i].value)
    decreases |ts|
  {
    if i < |ts| - 1 {
      CatalogLinesAt(ts[..|ts| - 1], i);
    }
  }

  /** Two pairs whose keys hold no `=` format to the same line exactly when key and stripped value agree. */
  lemma FormatSame(a: Translation, b: Translation)
    requires '=' !in a.key && '=' !in b.key
    ensures FormatTranslation(a.key, a.value) == FormatTranslation(b.key, b.value) <==> SamePair(a, b)
  {
    FormatParses(a.key, a.value);
    FormatParses(b.key, b.value);
  }

  /** A line occurs among the catalog lines exactly when some pair formats to it. */
  lemma CatalogLinesHas(ts: seq<Translation>, t: Translation)
    requires '=' !in t.key && forall u :: u in ts ==> '=' !in u.key
    ensures FormatTranslation(t.key, t.value) in CatalogLines(ts) <==> exists u :: u in ts && SamePair(u, t)
  {
    var line := FormatTranslation(t.key, t.value);
    var ls := CatalogLines(ts);
    if line in ls {
      var i :| 0 <= i < |ls| && ls[i] == line;
      CatalogLinesAt(ts, i);
      FormatSame(ts[i], t);
    }
    forall u | u in ts && SamePair(u, t) ensures line in ls {
      var i :| 0 <= i < |ts| && ts[i] == u;
      CatalogLinesAt(ts, i);
      FormatSame(ts[i], t);
    }
  }

  /** No key of any listed file holds `=`. */
  ghost predicate KeysWithoutEquals(names: seq<string>, byFile: map<string, seq<Translation>>)
    requires forall n :: n in names ==> n in byFile
  {
    forall n, t :: n in names && t in byFile[n] ==> '=' !in t.key
  }

  /**
   * The `k`-th pair of file `names[f]` formats like a pair of an earlier
   * file or an earlier pair of the same file: same key, same stripped value.
   */
  ghost predicate Repeated(names: seq<string>, byFile: map<string, seq<Translation>>, f: nat, k: nat)
    requires forall n :: n in names ==> n in byFile
    requires f < |names| && k < |byFile[names[f]]|
  {
    var ts := byFile[names[f]];
    (exists g :: 0 <= g < f && HasPair(byFile, names[g], ts[k])) ||
    (exists j :: 0 <= j < k && SamePair(ts[j], ts[k]))
  }

  /**
   * In pair terms: the `k`-th pair of file `names[f]` is written as its
   * catalog line, commented out exactly when an earlier file, or an earlier
   * pair of the same file, has a pair with the same key and the same
   * stripped value.  A pair that repeats a key with another value stays live.
   */
  lemma RenderPair(names: seq<string>, byFile: map<string, seq<Translation>>, f: nat, k: nat)
    requires forall n :: n in names ==> n in byFile
    requires KeysWithoutEquals(names, byFile)
    requires f < |names| && k < |byFile[names[f]]|
    ensures var ts := byFile[names[f]];
      var line := FormatTranslation(ts[k].key, ts[k].value);
      var at := |Render(names[..f], byFile).lines| + 1 + k;
      at < |Render(names, byFile).lines| &&
      Render(names, byFile).lines[at] == if Repeated(names, byFile, f, k) then "# " + line else line
  {
    var ts := byFile[names[f]];
    RenderLine(names, byFile, f, k);
    CatalogLinesAt(ts, k);
    assert ts[k] in ts;
    EarlierPairs(names, byFile, f, ts[k]);
    SameFilePairs(ts, k);
  }

  /**
   * A key given two different values: each first occurrence is written
   * live, and the two live lines differ, so neither hides the other.
   */
  lemma RenderConflict(names: seq<string>, byFile: map<string, seq<Translation>>, f1: nat, k1: nat, f2: nat, k2: nat)
    requires forall n :: n in names ==> n in byFile
    requires KeysWithoutEquals(names, byFile)
    requires f1 < |names| && k1 < |byFile[names[f1]]| && f2 < |names| && k2 < |byFile[names[f2]]|
    requires !Repeated(names, byFile, f1, k1) && !Repeated(names, byFile, f2, k2)
    requires byFile[names[f1]][k1].key == byFile[names[f2]][k2].key
    requires Strip(byFile[names[f1]][k1].value) != Strip(byFile[names[f2]][k2].value)
    ensures var out := Render(names, byFile).lines;
      var at1 := |Render(names[..f1], byFile).lines| + 1 + k1;
      var at2 := |Render(names[..f2], byFile).lines| + 1 + k2;
      at1 < |out| && at2 < |out| && IsLive(out[at1]) && IsLive(out[at2]) && out[at1] != out[at2]
  {
    var t1, t2 := byFile[names[f1]][k1], byFile[names[f2]][k2];
    RenderPair(names, byFile, f1, k1);
    RenderPair(names, byFile, f2, k2);
    assert t1 in byFile[names[f1]] && t2 in byFile[names[f2]];
    FormatSame(t1, t2);
    FormatLive(t1.key, t1.value);
    FormatLive(t2.key, t2.value);
  }

  /** File `n` has a pair formatting like `t`: same key, same stripped value. */
  predicate HasPair(byFile: map<string, seq<Translation>>, n: string, t: Translation) {
    n in byFile && exists u :: u in byFile[n] && SamePair(u, t)
  }

  /** An earlier file has the catalog line of `t` exactly when it has a pair formatting like `t`. */
  lemma EarlierPairs(names: seq<string>, byFile: map<string, seq<Translation>>, f: nat, t: Translation)
    requires forall n :: n in names ==> n in byFile
    requires KeysWithoutEquals(names, byFile) && '=' !in t.key
    requires f <= |names|
    ensures (exists g :: 0 <= g < f && HasLine(byFile, names[g], FormatTranslation(t.key, t.value))) <==>
      (exists g :: 0 <= g < f && HasPair(byFile, names[g], t))
  {
    var line := FormatTranslation(t.key, t.value);
    if exists g :: 0 <= g < f && HasLine(byFile, names[g], line) {
      var g :| 0 <= g < f && HasLine(byFile, names[g], line);
      FilePairs(names, byFile, g, t);
    }
    if exists g :: 0 <= g < f && HasPair(byFile, names[g], t) {
      var g :| 0 <= g < f && HasPair(byFile, names[g], t);
      FilePairs(names, byFile, g, t);
    }
  }

  /** One listed file has the catalog line of `t` exactly when it has a pair formatting like `t`. */
  lemma FilePairs(names: seq<string>, byFile: map<string, seq<Translation>>, g: nat, t: Translation)
    requires forall n :: n in names ==> n in byFile
    requires KeysWithoutEquals(names, byFile) && '=' !in t.key
    requires g < |names|
    ensures HasLine(byFile, names[g], FormatTranslation(t.key, t.value)) <==> HasPair(byFile, names[g], t)
  {
    var ts := byFile[names[g]];
    assert names[g] in names;
    assert forall u :: u in ts ==> '=' !in u.key;
    CatalogLinesHas(ts, t);
  }

  /** Within one file, a catalog line repeats an earlier one exactly when an earlier pair formats like it. */
  lemma SameFilePairs(ts: seq<Translation>, k: nat)
    requires k < |ts| && forall u :: u in ts ==> '=' !in u.key
    ensures var ls := CatalogLines(ts);
      ls[k] in ls[..k] <==> exists j :: 0 <= j < k && SamePair(ts[j], ts[k])
  {
    var ls := CatalogLines(ts);
    CatalogLinesAt(ts, k);
    assert ts[k] in ts;
    if ls[k] in ls[..k] {
      var j :| 0 <= j < k && ls[..k][j] == ls[k];
      CatalogLinesAt(ts, j);
      assert ts[j] in ts;
      FormatSame(ts[j], ts[k]);
    }
    if exists j :: 0 <= j < k && SamePair(ts[j], ts[k]) {
      var j :| 0 <= j < k && SamePair(ts[j], ts[k]);
      CatalogLinesAt(ts, j);
      assert ts[j] in ts;
      FormatSame(ts[j], ts[k]);
      assert ls[..k][j] == ls[k];
    }
  }

  /**
   * The lines `process_lua_files` writes, to be joined by `\n`, or nothing
   * when no file yields a pair (the function then returns before writing).
   */
  function EnglishCatalog(files: seq<SourceFile>): Option<seq<string>> {
    var g := Collect(files);
    if g.byFile == map[] then None else Some(Render(g.order, g.byFile).lines)
  }

  /** The catalog is written exactly when some `.lua` file yields a pair. */
  lemma EnglishCatalogWritten(files: seq<SourceFile>)
    ensures EnglishCatalog(files).Some? <==> exists i :: 0 <= i < |files| && FileMatches(files[i]) != []
  {
    CollectEmptyIff(files);
  }

  /** In the written catalog every catalog line occurs live at most once. */
  lemma EnglishCatalogLiveOnce(files: seq<SourceFile>)
    requires EnglishCatalog(files).Some?
    ensures forall i, j :: 0 <= i < j < |EnglishCatalog(files).value| && IsLive(EnglishCatalog(files).value[i]) ==>
      EnglishCatalog(files).value[i] != EnglishCatalog(files).value[j]
  {
    var g := Collect(files);
    RenderLiveOnce(g.order, g.byFile);
  }

  /** Each value of the dictionary is the pair list of some scanned file. */
  lemma {:induction false} GroupValueFrom(scans: seq<(string, seq<Translation>)>, n: string) returns (i: nat)
    requires n in Group(scans).byFile
    ensures i < |scans| && Group(scans).byFile[n] == scans[i].1
    decreases |scans|
  {
    var init := scans[..|scans| - 1];
    var last := scans[|scans| - 1];
    if last.0 == n && last.1 != [] {
      i := |scans| - 1;
    } else {
      i := GroupValueFrom(init, n);
      assert init[i] == scans[i];
    }
  }

  /** No key the dictionary holds contains `=`. */
  lemma CollectKeys(files: seq<SourceFile>)
    ensures KeysWithoutEquals(Collect(files).order, Collect(files).byFile)
  {
    var scans := Scan(files);
    var g := Collect(files);
    forall n, t | n in g.order && t in g.byFile[n] ensures '=' !in t.key {
      var i := GroupValueFrom(scans, n);
      ScanAt(files, i);
      ExtractShape(files[i].content);
      KeyWithoutEquals(t.key);
    }
  }

  /**
   * In the written catalog, the `k`-th pair of the `f`-th file in insertion
   * order follows that file's header and is commented out exactly when a
   * pair with the same key and the same stripped value came before it; a
   * key repeated with another value is written live again.
   */
  lemma EnglishCatalogPair(files: seq<SourceFile>, f: nat, k: nat)
    requires EnglishCatalog(files).Some?
    requires f < |Collect(files).order| && k < |Collect(files).byFile[Collect(files).order[f]]|
    ensures var g := Collect(files);
      var ts := g.byFile[g.order[f]];
      var line := FormatTranslation(ts[k].key, ts[k].value);
      var out := EnglishCatalog(files).value;
      var at := |Render(g.order[..f], g.byFile).lines| + 1 + k;
      at < |out| && out[at - 1 - k] == "# " + g.order[f] &&
      out[at] == if Repeated(g.order, g.byFile, f, k) then "# " + line else line
  {
    var g := Collect(files);
    assert EnglishCatalog(files).value == Render(g.order, g.byFile).lines;
    CollectKeys(files);
    RenderPair(g.order, g.byFile, f, k);
    RenderHeader(g.order, g.byFile, f);
  }

  /** The header of file `names[f]` follows the output for the earlier files. */
  lemma RenderHeader(names: seq<string>, byFile: map<string, seq<Translation>>, f: nat)
    requires forall n :: n in names ==> n in byFile
    requires f < |names|
    ensures var at := |Render(names[..f], byFile).lines|;
      at < |Render(names, byFile).lines| && Render(names, byFile).lines[at] == "# " + names[f]
  {
    RenderBlock(names, byFile, f);
    RenderPrefix(names, byFile, f + 1);
    var at := |Render(names[..f], byFile).lines|;
    assert Render(names[..f + 1], byFile).lines[at] == "# " + names[f];
  }

  /** The first loop of `process_lua_files`: read every file and record its pairs. */
  method CollectFiles(files: seq<SourceFile>) returns (order: seq<string>, byFile: map<string, seq<Translation>>)
    ensures Grouping(order, byFile) == Collect(files)
  {
    order := [];
    byFile := map[];
    for i := 0 to |files|
      invariant Grouping(order, byFile) == Group(Scan(files[..i]))
    {
      assert files[..i + 1][..i] == files[..i];
      var f := files[i];
      if IsLuaName(f.name) {
        var matches := ExtractLightroomStrings(f.content);
        if matches != [] {
          if f.name !in byFile {
            order := order + [f.name];
          }
          byFile := byFile[f.name := matches];
        }
      }
    }
    assert files[..|files|] == files;
  }

  /**
   * The inner output loop of `process_lua_files` over one file's pairs: the
   * lines it appends and the new `seen_lines`.
   */
  method EmitPairs(seen0: set<string>, ts: seq<Translation>) returns (seen: set<string>, emitted: seq<string>)
    ensures Emitted(seen, emitted) == Emit(seen0, CatalogLines(ts))
  {
    seen := seen0;
    emitted := [];
    for k := 0 to |ts|
      invariant Emitted(seen, emitted) == Emit(seen0, CatalogLines(ts[..k]))
    {
      assert ts[..k + 1][..k] == ts[..k];
      var line := FormatTranslation(ts[k].key, ts[k].value);
      ghost var ls := CatalogLines(ts[..k + 1]);
      assert ls[..k] == CatalogLines(ts[..k]) && ls[k] == line;
      if line in seen {
        emitted := emitted + ["# " + line];
      } else {
        emitted := emitted + [line];
        seen := seen + {line};
      }
    }
    assert ts[..|ts|] == ts;
  }

  /** The output loop of `process_lua_files`, with `seen_lines` starting empty. */
  method WriteCatalog(order: seq<string>, byFile: map<string, seq<Translation>>) returns (lines: seq<string>)
    requires forall n :: n in order ==> n in byFile
    ensures lines == Render(order, byFile).lines
  {
    var seen: set<string> := {};
    lines := [];
    for j := 0 to |order|
      invariant Emitted(seen, lines) == Render(order[..j], byFile)
    {
      assert order[..j + 1][..j] == order[..j];
      var name := order[j];
      var emitted;
      seen, emitted := EmitPairs(seen, byFile[name]);
      lines := lines + ["# " + name] + emitted + [""];
    }
    assert order[..|order|] == order;
  }

  /**
   * `process_lua_files` without its file-system and console effects: the
   * lines it writes, or nothing when it returns early.
   */
  method BuildEnglishCatalog(files: seq<SourceFile>) returns (out: Option<seq<string>>)
    ensures out == EnglishCatalog(files)
  {
    var order, byFile := CollectFiles(files);
    if byFile == map[] {
      return None;
    }
    var lines := WriteCatalog(order, byFile);
    return Some(lines);
  }
}
