/** Step 1 of fix_lua_style.py, `fix_import_syntax`. */
module LuaImport {
  import opened Wrappers
  import opened Text
  import opened Scanner

  // -------------------------------------------------------------------
  // Step 1: re.sub(r'import\s+"([^"]+)"', r'import("\1")', content)

  /** The call form an import is rewritten to. */
  function ImportCall(name: string): string {
    "import(\"" + name + "\")"
  }

  /** `t` is `import`, whitespace, and a non-empty name between double quotes. */
  ghost predicate IsImport(t: string, name: string) {
    name != [] && '"' !in name &&
    exists ws :: ws != [] && AllSpace(ws) && t == "import" + ws + "\"" + name + "\""
  }

  /** The matcher of step 1, at the start of `s`. */
  function ImportAt(s: string): (r: Option<Found<string>>)
    ensures r.Some? ==> 0 < r.value.len <= |s|
  {
    if |s| >= 6 && s[..6] == "import" then
      var w := Span(s[6..], IsSpace);
      if w > 0 && 6 + w < |s| && s[6 + w] == '"' then
        var m := Span(s[7 + w..], IsNotQuote);
        if m > 0 && 7 + w + m < |s| then
          Some(Found(8 + w + m, ImportCall(s[7 + w..7 + w + m])))
        else None
      else None
    else None
  }

  /** What the matcher reports is an import, and its replacement is the call form of that name. */
  lemma ImportAtSound(s: string) returns (name: string)
    requires ImportAt(s).Some?
    ensures ImportAt(s).value.groups == ImportCall(name)
    ensures IsImport(s[..ImportAt(s).value.len], name)
  {
    var w := Span(s[6..], IsSpace);
    var m := Span(s[7 + w..], IsNotQuote);
    name := s[7 + w..7 + w + m];
    var ws := s[6..6 + w];
    assert AllSpace(ws) by {
      forall i | 0 <= i < |ws| ensures IsSpace(ws[i]) {
        assert ws[i] == s[6..][i];
      }
    }
    assert '"' !in name by {
      forall i | 0 <= i < |name| ensures IsNotQuote(name[i]) {
        assert name[i] == s[7 + w..][i];
      }
    }
    assert s[7 + w + m] == '"' by {
      assert s[7 + w..][m] == s[7 + w + m];
    }
    assert s[..8 + w + m] == "import" + ws + "\"" + name + "\"";
  }

  /** Every import is matched, whatever follows it. */
  lemma ImportAtComplete(ws: string, name: string, rest: string)
    requires ws != [] && AllSpace(ws)
    requires name != [] && '"' !in name
    ensures ImportAt("import" + ws + "\"" + name + "\"" + rest) == Some(Found(|ws| + |name| + 8, ImportCall(name)))
  {
    var s := "import" + ws + "\"" + name + "\"" + rest;
    ImportKeyword(ws, name, rest);
    ImportSpaces(ws, name, rest);
    ImportName(ws, name, rest);
    ImportAtNamed(s, |ws|, name);
  }

  lemma ImportKeyword(ws: string, name: string, rest: string)
    ensures var s := "import" + ws + "\"" + name + "\"" + rest;
      |s| >= 6 && s[..6] == "import"
  {
  }

  /** In an import, the whitespace after the keyword runs up to the opening quote. */
  lemma ImportSpaces(ws: string, name: string, rest: string)
    requires ws != [] && AllSpace(ws)
    ensures var s := "import" + ws + "\"" + name + "\"" + rest;
      Span(s[6..], IsSpace) == |ws| && 6 + |ws| < |s| && s[6 + |ws|] == '"'
  {
    var s := "import" + ws + "\"" + name + "\"" + rest;
    assert s[6..] == ws + ("\"" + name + "\"" + rest);
    SpanConcat(ws, "\"" + name + "\"" + rest, IsSpace);
  }

  /** In an import, the quoted name runs up to the closing quote. */
  lemma ImportName(ws: string, name: string, rest: string)
    requires '"' !in name
    ensures var s := "import" + ws + "\"" + name + "\"" + rest; var q := 7 + |ws|;
      q + |name| < |s| && Span(s[q..], IsNotQuote) == |name| && s[q..q + |name|] == name
  {
    var s := "import" + ws + "\"" + name + "\"" + rest;
    var q := 7 + |ws|;
    assert s[q..] == name + ("\"" + rest);
    assert forall i :: 0 <= i < |name| ==> IsNotQuote(name[i]);
    SpanConcat(name, "\"" + rest, IsNotQuote);
  }

  /** The matcher at an import, stated with the name itself. */
  lemma ImportAtNamed(s: string, w: nat, name: string)
    requires |s| >= 6 && s[..6] == "import"
    requires 0 < w == Span(s[6..], IsSpace) && 6 + w < |s| && s[6 + w] == '"'
    requires name != [] && Span(s[7 + w..], IsNotQuote) == |name| && 7 + w + |name| < |s|
    requires s[7 + w..7 + w + |name|] == name
    ensures ImportAt(s) == Some(Found(8 + w + |name|, ImportCall(name)))
  {
  }

  /** The matcher replaces exactly the imports, each by the call form of its name. */
  lemma ImportAtIff(s: string, n: nat, name: string)
    ensures ImportAt(s) == Some(Found(n, ImportCall(name))) <==> n <= |s| && IsImport(s[..n], name)
  {
    if ImportAt(s) == Some(Found(n, ImportCall(name))) {
      ImportAtOnly(s, n, name);
    }
    if n <= |s| && IsImport(s[..n], name) {
      ImportAtIf(s, n, name);
    }
  }

  lemma ImportAtOnly(s: string, n: nat, name: string)
    requires ImportAt(s) == Some(Found(n, ImportCall(name)))
    ensures n <= |s| && IsImport(s[..n], name)
  {
    var name' := ImportAtSound(s);
    ImportCallInjective(name', name);
  }

  /** Different names have different call forms. */
  lemma ImportCallInjective(a: string, b: string)
    requires ImportCall(a) == ImportCall(b)
    ensures a == b
  {
    assert a == ImportCall(a)[8..|ImportCall(a)| - 2];
    assert b == ImportCall(b)[8..|ImportCall(b)| - 2];
  }

  lemma ImportAtIf(s: string, n: nat, name: string)
    requires n <= |s| && IsImport(s[..n], name)
    ensures ImportAt(s) == Some(Found(n, ImportCall(name)))
  {
    var ws :| ws != [] && AllSpace(ws) && s[..n] == "import" + ws + "\"" + name + "\"";
    assert s == "import" + ws + "\"" + name + "\"" + s[n..];
    ImportAtComplete(ws, name, s[n..]);
  }

  lemma ImportAtConsumes()
    ensures Consumes(ImportAt)
  {
  }

  /** `fix_import_syntax`: every import, left to right, becomes the call form. */
  function FixImportSyntax(content: string): string {
    ImportAtConsumes();
    Sub(content, ImportAt)
  }

  /** An import is rewritten to the call form and the scan goes on after it. */
  lemma FixImportRewrites(x: string, name: string, rest: string)
    requires IsImport(x, name)
    ensures FixImportSyntax(x + rest) == ImportCall(name) + FixImportSyntax(rest)
  {
    ImportAtConsumes();
    assert (x + rest)[..|x|] == x;
    ImportAtIff(x + rest, |x|, name);
    SubAfterMatch(x, rest, ImportCall(name), ImportAt);
  }

  /** Text before which no import starts is kept as it is. */
  lemma FixImportKeeps(x: string, y: string)
    requires forall i :: 0 <= i < |x| ==> ImportAt(x[i..] + y).None?
    ensures FixImportSyntax(x + y) == x + FixImportSyntax(y)
  {
    ImportAtConsumes();
    SubCopies(x, y, ImportAt);
  }

  /** A text in which the word `import` never occurs is left unchanged. */
  lemma FixImportNoImport(content: string)
    requires forall i :: 0 <= i < |content| ==> !StartsWith(content[i..], "import")
    ensures FixImportSyntax(content) == content
  {
    ImportAtConsumes();
    forall i | 0 <= i < |content|
      ensures ImportAt(content[i..]).None?
    {
      assert !StartsWith(content[i..], "import");
    }
    SubIdentity(content, ImportAt);
  }
}
