# Lightroom plugin translation and Lua style tools, modelled in Dafny

The iNaturalist Identifier Lightroom plugin comes with three small Python scripts. They work on the plugin's Lua sources:

* `translation.py` builds the English catalog `TranslatedStrings_en.txt`.
  1. It reads every `.lua` file of the directory in sorted order.
  2. It fuses Lua string concatenations (`"a" .. "b"`) and folds line breaks into spaces.
  3. It collects every `LOC "$$$/key=value"` / `LOC("$$$/key=value")` call.
  4. It writes one `# file` header per file that has calls, then one `"key=value"` line per call and a blank line.
  5. A line it has already written is written again commented out (`# ...`). If no file has a call, nothing is written.
* `frtranslation.py` builds the French catalog `TranslatedStrings_fr.txt` from lines of the form `$$$/key=value`.
  1. It writes a `# ===== file =====` header for every `.lua` file, then a `key=value` line for each key seen for the first time.
  2. A key seen again gets a commented line that names the file where it was first seen.
  3. Each file's block ends with a blank line.
* `fix_lua_style.py` restyles one Lua file with four rewrites, in this order:
  1. `import "m"` becomes `import("m")`.
  2. Leading spaces become tabs.
  3. A qualified name followed by `{` gets `({`.
  4. A line followed by a closing `}` or `)` line gets a trailing comma.

  It writes the file back only when the text changed.

The model has one module per concern:
* `Text`: character classes, strip, split and join.
* `Scanner`: a generic model of `re.sub`, `re.findall` and `re.search` over anchored matchers.
* `LocExtract` and `EnCatalog`: `translation.py`.
* `FrCatalog`: `frtranslation.py`.
* `LuaImport`, `LuaIndent`, `LuaBraces`, `LuaCommas` and `LuaStyle`: `fix_lua_style.py`.
* `Listing`: the directory listing.

Each regular expression becomes a hand-written anchored matcher. It takes the same greedy choices as the expression, and an if-and-only-if lemma ties it to a declarative description of the matched text. The loops of the scripts are methods. Each method is proved equal to a function, and the scripts' promises are proved about that function.

Where the docstring and the code of `fix_function_call_braces` disagree, the model follows the code:
* The docstring (line 67) says `f:checkbox { ... }` becomes `f:checkbox({ ... })`.
* The substitution on line 95 keeps the captured brace after the inserted `({`, so the code yields `f:checkbox({{ ... }`. `LuaBraces.BraceLineMethodCall` states this.
* The docstring's other example (line 68), `LrDialogs.message "text"`, is not rewritten at all. `LuaBraces.BraceLineMessage` states this.

## Model

| member | source | states |
|---|---|---|
| Text.LStrip | translation.py:53 | `lstrip` removes exactly the leading whitespace run: the result is a suffix, what was dropped is all whitespace, and the result does not start with whitespace |
| Text.RStrip | fix_lua_style.py:110 | `rstrip` removes exactly the trailing whitespace run: the result is a prefix, what was dropped is all whitespace, and the result does not end with whitespace |
| Text.Strip | frtranslation.py:21-22 | `strip` removes exactly a leading and a trailing whitespace run: the text is whitespace, the result and whitespace; the result is empty exactly when the text is all whitespace, and otherwise neither starts nor ends with whitespace |
| Text.StripSolid | frtranslation.py:21 | `strip` leaves text that neither starts nor ends with whitespace unchanged |
| Text.Lower | translation.py:68 | `lower` keeps the length and maps exactly the upper-case ASCII letters to lower case |
| Text.Split | fix_lua_style.py:36 | `split('\n')` yields at least one piece, and no piece contains the separator |
| Text.JoinSplit | fix_lua_style.py:36-60 | joining the pieces of a split gives back the original text |
| Text.SplitJoin | fix_lua_style.py:60 | splitting the join of separator-free pieces gives back the pieces |
| Text.MapLinesJoin | fix_lua_style.py:82-99 | split, rewriting each line without adding a separator, then join: the lines of the result are exactly the rewritten lines |
| Text.LineCountOfJoin | fix_lua_style.py:130 | joining separator-free pieces and splitting again keeps the number of lines |
| Scanner.SubCopies | fix_lua_style.py:28 | `re.sub` copies text where no match starts |
| Scanner.SubAfterMatch | fix_lua_style.py:28 | `re.sub` replaces a match at the start by its replacement and goes on after the match |
| Scanner.SubIdentity | fix_lua_style.py:95 | `re.sub` with no match anywhere returns the text unchanged |
| Scanner.SubKeeps | translation.py:40 | a character property that holds for the unmatched characters and for every replacement holds for the whole result |
| Scanner.FindAllSound | translation.py:48 | every match `findall` reports is a match of the pattern at its position, inside the text |
| Scanner.FindAllOrdered | translation.py:48 | `findall`'s matches are in text order and do not overlap |
| Scanner.FindAllCovers | translation.py:48 | every position where the pattern matches lies inside one of the reported matches: none is missed |
| Scanner.FindAllAfterMatch | translation.py:48 | a match at the start is reported first, and scanning continues after it |
| Scanner.FindAllSkips | translation.py:48 | text in which no match starts contributes nothing to `findall` |
| Scanner.FindAllEmptyIff | translation.py:73 | `findall` is empty exactly when the pattern matches at no position |
| Scanner.SearchFrom | frtranslation.py:19 | `re.search` returns the leftmost position where the pattern matches, or nothing when it matches nowhere |
| LocExtract.JoinAtIff | translation.py:37 | the concatenation pattern matches after a quote exactly when the text continues with spaces, `..`, spaces and a quote |
| LocExtract.JoinAtSound | translation.py:37 | a concatenation match covers exactly `"`, spaces, `..`, spaces, `"` |
| LocExtract.FuseJoin | translation.py:37 | a concatenation is removed entirely by the first substitution |
| LocExtract.FuseQuoteFree | translation.py:37 | the first substitution copies text that has no quote |
| LocExtract.NewlineRunAtIff | translation.py:40 | the pattern `\s*\n\s*` matches `n` characters, replaced by one space, exactly when they are whitespace holding a line break and are not followed by more whitespace |
| LocExtract.CollapseSeam | translation.py:40 | the second substitution works on either side of a point where no whitespace run is cut, independently |
| LocExtract.CollapseRun | translation.py:40 | a whitespace run holding a line break, up to the next non-space, becomes one space |
| LocExtract.CollapseSpaces | translation.py:40 | a whitespace run becomes one space when it holds a line break and is kept otherwise; it stays whitespace and stays non-empty |
| LocExtract.CollapseRemovesNewlines | translation.py:40 | after the second substitution no line break is left |
| LocExtract.CollapseNewlineFree | translation.py:40 | the second substitution leaves text without line breaks unchanged |
| LocExtract.CollapseAfterSolid | translation.py:40 | a line-free prefix that ends in a non-space is copied by the second substitution |
| LocExtract.OpenerAtSound | translation.py:44 | the opener part matched after `LOC` is one of the pattern's two alternatives (`\(\s*"?` or `\s+`) followed by a quote |
| LocExtract.OpenerAtComplete | translation.py:44 | every opener of the pattern's two forms, followed by a quote and a non-quote, is matched with exactly its length |
| LocExtract.BodyAtComplete | translation.py:44 | a `$$$/key=value"` body with a key free of spaces and `=` and a quote-free value is matched with exactly that key and value |
| LocExtract.MatchAtSound | translation.py:43-46 | a match of the LOC pattern is the text `LOC`, opener, quote, key, `=`, value, quote, with the captured key and value |
| LocExtract.MatchAtIff | translation.py:43-46 | the LOC pattern matches with length `n`, key and value exactly when the first `n` characters are such a call |
| LocExtract.ExtractShape | translation.py:30-48 | every extracted pair has a `$$$/` key without whitespace or `=`, a non-empty value without quotes, and no line breaks |
| LocExtract.ExtractWithoutL | translation.py:48 | in a text with no `L`, `findall` of the LOC pattern finds nothing |
| LocExtract.ExtractCallThenRest | translation.py:30-48 | a complete call, possibly spread over several lines, followed by text that does not start a concatenation, extracts its pair first, with each whitespace run of the value that holds a line break folded into one space, then exactly the pairs of the rest |
| LocExtract.ExtractFusesFragments | translation.py:37-48 | a value split across `"a" .. "b"` is extracted as one value `ab` |
| LocExtract.KeyWithoutEquals | translation.py:44 | an extracted key holds no `=`, so the first `=` of its catalog line ends it, and no line break |
| LocExtract.FormatParses | translation.py:51-53 | the formatted catalog line `"key=value"` parses back into the key and the stripped value when the key has no `=` |
| EnCatalog.ScanAt | translation.py:67-72 | file `i` of the listing is scanned under its own name, with the pairs extracted from its text when it is a `.lua` file and none otherwise |
| EnCatalog.Record | translation.py:73-74 | a file is recorded exactly when it has at least one pair |
| EnCatalog.FirstHit | translation.py:67-74 | the position of the first scanned file of a name that yields pairs: that file yields pairs and no earlier one of that name does, or no file does |
| EnCatalog.GroupOrder | translation.py:65-74 | the dictionary's insertion order lists every recorded file once, ordered by where in the sorted listing a file of that name first yielded pairs |
| EnCatalog.GroupKeys | translation.py:73-74 | a name is recorded exactly when some scanned file of that name has pairs |
| EnCatalog.GroupValue | translation.py:74 | a recorded file maps to the pairs of its last scan |
| EnCatalog.CollectEmptyIff | translation.py:76-78 | nothing is collected exactly when no `.lua` file has a pair |
| EnCatalog.CollectFile | translation.py:72-74 | a file with pairs is collected with exactly its pairs |
| EnCatalog.EmitSpec | translation.py:85-91 | each line is written as is when it was not written before in this run, and commented out otherwise; the set of seen lines grows by the batch |
| EnCatalog.EmitLiveOnce | translation.py:87-91 | no live line is written twice, and every live line was new when written |
| EnCatalog.AllLinesIff | translation.py:83-91 | a line is among all the catalog lines exactly when some listed file has it |
| EnCatalog.RenderSeen | translation.py:87-91 | after the output loop, `seen_lines` holds every catalog line of every file and nothing else |
| EnCatalog.RenderHeader | translation.py:84 | the header `# file` of each file follows the output for the earlier files |
| EnCatalog.RenderLine | translation.py:84-91 | the `k`-th catalog line of a file is written right after its header and its earlier lines, commented out exactly when an earlier file or an earlier pair of the same file has the same line |
| EnCatalog.CatalogLinesHas | translation.py:51-53 | a line is among a file's catalog lines exactly when some pair of the file has the same key and the same stripped value |
| EnCatalog.FormatSame | translation.py:51-53 | two pairs give the same catalog line exactly when their keys and stripped values agree |
| EnCatalog.SameFilePairs | translation.py:85-88 | within one file, a catalog line repeats an earlier one exactly when an earlier pair has the same key and stripped value |
| EnCatalog.EarlierPairs | translation.py:83-88 | an earlier file has the catalog line of a pair exactly when it has a pair with the same key and stripped value |
| EnCatalog.RenderPair | translation.py:83-91 | the `k`-th pair of a file is written as its catalog line, commented out exactly when an earlier file, or an earlier pair of the same file, has the same key and stripped value |
| EnCatalog.RenderConflict | translation.py:83-91 | a key given two different values: both first occurrences are written live, and the two lines differ |
| EnCatalog.CollectKeys | translation.py:72-74 | no key of the dictionary holds `=` |
| EnCatalog.EnglishCatalogPair | translation.py:59-95 | in the written catalog, the `k`-th pair of the `f`-th file sits `k + 1` lines after that file's header, commented out exactly when an earlier pair had the same key and stripped value |
| EnCatalog.RenderLength | translation.py:83-92 | the catalog has a header and a blank line per file plus one line per pair |
| EnCatalog.RenderLiveOnce | translation.py:83-92 | across all files, no uncommented catalog line repeats |
| EnCatalog.EnglishCatalogWritten | translation.py:76-78 | a catalog is written exactly when some `.lua` file has a pair |
| EnCatalog.EnglishCatalogLiveOnce | translation.py:83-95 | in the written catalog, every uncommented line appears once |
| EnCatalog.CollectFiles | translation.py:67-74 | the collection loop computes exactly the grouping of the listing |
| EnCatalog.EmitPairs | translation.py:85-91 | the inner loop computes exactly the emitted lines and the new seen set |
| EnCatalog.WriteCatalog | translation.py:83-92 | the outer output loop computes exactly the rendered catalog |
| EnCatalog.BuildEnglishCatalog | translation.py:59-95 | the whole script yields the catalog, or nothing when no pair was found |
| FrCatalog.EntryAtSound | frtranslation.py:5 | a match of `(\$\$\$/[^\s=]+)=(.+)` is a key, `=`, and a non-empty value running to the end of the line |
| FrCatalog.EntryAtIff | frtranslation.py:5 | the pattern matches with a given key and value exactly when the text begins with that key, `=`, the value and then a line end |
| FrCatalog.EntryAtTerminated | frtranslation.py:18-19 | the line's trailing `\n` does not change the match |
| FrCatalog.LineEntryNone | frtranslation.py:19-20 | a line yields no entry exactly when the pattern matches at no position |
| FrCatalog.LineEntryOfHit | frtranslation.py:19-22 | a line's entry is the key and the stripped value of the leftmost match |
| FrCatalog.KeyStrips | frtranslation.py:21 | stripping a matched key changes nothing |
| FrCatalog.EntriesKeys | frtranslation.py:18-22 | every entry read from a file has a well-formed key |
| FrCatalog.AbsorbGrows | frtranslation.py:24-29 | reading a file never changes a key already found, adds exactly its keys, and appends one line per entry |
| FrCatalog.AbsorbStores | frtranslation.py:24-26 | the first occurrence of a new key stores its value and file |
| FrCatalog.AbsorbConsistent | frtranslation.py:24-29 | live lines are exactly one per found key, and each found key's line is in the output |
| FrCatalog.RunFileBlock | frtranslation.py:13-30 | a non-`.lua` file changes nothing; a `.lua` file adds its header, its entry lines and a blank line |
| FrCatalog.RunExtends | frtranslation.py:24-25 | what an earlier prefix of the listing found stays found with the same value and file |
| FrCatalog.RunKeys | frtranslation.py:8-29 | the found keys are exactly the keys of the `.lua` files |
| FrCatalog.RunFirstOccurrence | frtranslation.py:24-26 | a key is recorded with the value and file of its first occurrence in listing order |
| FrCatalog.AbsorbEntryLine | frtranslation.py:24-29 | entry `j` of a file is written as a comment naming the stored file when the key was already stored before it, and live otherwise; the key is then stored, and a key already stored keeps its value and file |
| FrCatalog.RunFileEntryLine | frtranslation.py:15-30 | in one `.lua` file's block, entry `j` is written right after the header and the earlier entries' lines, repeated when the key was found before the file or earlier in the file, live otherwise |
| FrCatalog.RunEntryLine | frtranslation.py:13-30 | entry `j` of the `i`-th file is written right after that file's header and earlier lines: as a comment naming the file the key is stored with when an earlier `.lua` file or an earlier entry of the file had the key, and live otherwise |
| FrCatalog.FrenchCatalogConsistent | frtranslation.py:10-30 | the catalog has one live line per found key, and that line carries the key's first value |
| FrCatalog.ReadLines | frtranslation.py:18-29 | the per-line loop computes exactly the state after absorbing the file's entries |
| FrCatalog.BuildFrenchCatalog | frtranslation.py:13-30 | the whole script computes exactly the modelled catalog and key map |
| LuaImport.ImportAtIff | fix_lua_style.py:26 | the import pattern matches with length `n` and name `m` exactly when the first `n` characters are `import`, whitespace, a quoted non-empty name |
| LuaImport.ImportAtComplete | fix_lua_style.py:26-27 | `import`, whitespace, `"name"` is matched and replaced by `import("name")` |
| LuaImport.ImportCallInjective | fix_lua_style.py:27 | different names give different replacements |
| LuaImport.FixImportRewrites | fix_lua_style.py:26-28 | an import at the start becomes `import("name")`, and the rest is rewritten in turn |
| LuaImport.FixImportKeeps | fix_lua_style.py:28 | text where no import starts is copied |
| LuaImport.FixImportNoImport | fix_lua_style.py:28 | text without the word `import` is unchanged |
| LuaIndent.LeadingSpaces | fix_lua_style.py:41 | the count is the length of the run of spaces at the start of the line |
| LuaIndent.Tabs | fix_lua_style.py:55 | `'\t' * n` is `n` tabs |
| LuaIndent.IndentLine | fix_lua_style.py:41-58 | a line changes exactly when its count `n` of leading spaces is positive and even; then the spaces become `n / 4` tabs when 4 divides `n` and `n / 2` otherwise, followed by the rest of the line, so the new line starts with a tab and no space; no line break is added |
| LuaIndent.IndentAllLines | fix_lua_style.py:36-60 | the lines of the result are exactly the rewritten input lines |
| LuaIndent.IndentAllIdempotent | fix_lua_style.py:36-60 | running the indentation fix twice gives the same text as once |
| LuaIndent.IndentEach | fix_lua_style.py:39-58 | the loop builds exactly the list of rewritten lines |
| LuaIndent.FixIndentation | fix_lua_style.py:31-60 | the function returns the rewritten text and keeps the number of lines |
| LuaBraces.NameEndStops | fix_lua_style.py:94 | the scan of `\w+(?:\.\w+\|\:\w+)+` stops only where no further `.word` or `:word` follows |
| LuaBraces.CallBraceAtIff | fix_lua_style.py:94-95 | the call pattern matches with length `n` and name `d` exactly when the first `n` characters are a qualified name `d` of at least two parts, optional whitespace and `{` |
| LuaBraces.CallBraceAtGroups | fix_lua_style.py:95 | every character of the replacement `\1({\2` comes from the matched text or is `(` or `{` |
| LuaBraces.BraceLineKeepsLines | fix_lua_style.py:85-97 | rewriting a line adds no line break |
| LuaBraces.BraceCallsKeep | fix_lua_style.py:95 | the call rewrite of a line adds no line break |
| LuaBraces.AssignAtIff | fix_lua_style.py:89 | the assignment pattern `\w+\s*=\s*\{` matches `n` characters exactly when they are a word, whitespace, `=`, whitespace and `{` |
| LuaBraces.AssignAtChars | fix_lua_style.py:87-89 | a match of the assignment pattern holds an `=` and a `{`, so the first test of line 87 never hides it |
| LuaBraces.BraceLineAssignment | fix_lua_style.py:87-91 | a line with a `word = {` assignment is left unchanged |
| LuaBraces.BraceLineNoCall | fix_lua_style.py:94 | a line where the call pattern matches nowhere is left unchanged |
| LuaBraces.BraceLineNoBrace | fix_lua_style.py:87-97 | a line without `{` is left unchanged |
| LuaBraces.BraceLineRewrites | fix_lua_style.py:94-95 | in a line without `=` that starts with a qualified call, the call becomes the name followed by `({{`, dropping the whitespace before `{`, and the rest of the line is rewritten in turn |
| LuaBraces.BraceLineWholeCall | fix_lua_style.py:94-95 | a line that is just a qualified name, spaces and `{` becomes the name followed by `({{` |
| LuaBraces.BraceLineMethodCall | fix_lua_style.py:67 | `obj:m {` becomes `obj:m({{`, not the `obj:m({` of the docstring |
| LuaBraces.BraceLineMessage | fix_lua_style.py:68 | `LrDialogs.message "text"` is left unchanged, unlike the docstring's example |
| LuaBraces.BraceAllLines | fix_lua_style.py:82-99 | the lines of the result are exactly the rewritten input lines |
| LuaBraces.BraceEach | fix_lua_style.py:85-97 | the loop builds exactly the list of rewritten lines |
| LuaBraces.FixFunctionCallBraces | fix_lua_style.py:63-99 | the function returns the rewritten text and keeps the number of lines |
| LuaCommas.RStripEmpty | fix_lua_style.py:128 | `rstrip` is empty exactly when the line is all whitespace, the case where the original line is kept |
| LuaCommas.CommaLineShape | fix_lua_style.py:110-128 | a blank line is kept as is; any other line becomes its right-stripped text, with or without one added comma, and no line break is added |
| LuaCommas.CommaLineAdds | fix_lua_style.py:114-126 | a comma is added exactly when a next line exists that starts with `}` or `)` after stripping, and the stripped line is non-empty, is not a `--` comment, and does not end in `,` `{` `(` `[` `}` `)` |
| LuaCommas.CommaLines | fix_lua_style.py:109-128 | line `i` of the result is the rewrite of line `i` with its successor |
| LuaCommas.CommaAllLines | fix_lua_style.py:102-130 | the lines of the result are exactly the rewritten input lines |
| LuaCommas.FixLine | fix_lua_style.py:110-128 | the loop body computes exactly the rewrite of line `i` |
| LuaCommas.CommaEach | fix_lua_style.py:109-128 | the loop builds exactly the list of rewritten lines |
| LuaCommas.FixTrailingCommas | fix_lua_style.py:102-130 | the function returns the rewritten text and keeps the number of lines |
| LuaStyle.FixStringQuotes | fix_lua_style.py:133-140 | the quote fix returns the text unchanged |
| LuaStyle.RestyleLines | fix_lua_style.py:156-159 | after the import fix, the remaining three steps keep the number of lines |
| LuaStyle.ProcessLuaFile | fix_lua_style.py:153-169 | the file's text goes through the four fixes in order, and a change is reported exactly when the result differs from the original |

## Left out

- File and console I/O is not modelled: `os.listdir`, `open` (including decoding with `errors="ignore"`), the writes and the `print` messages. A directory listing is a parameter, a sequence of `(name, text)` pairs in the order `sorted(os.listdir(...))` gives. The scripts' outputs are returned values.
- Python's universal-newline reading is not modelled: text is taken as already decoded, with `\n` line ends.
- Python's `\s`, `\w`, `strip` and `lower` are Unicode-aware. The model's whitespace is the ASCII part of that set: space, tab, line feed, vertical tab, form feed, carriage return and the separators `\x1c`-`\x1f`. Non-ASCII whitespace (`\x85`, `\xa0`, the Unicode spaces), non-ASCII word characters of `\w` and non-ASCII case mappings of `lower` are not modelled.
- LocExtract.ExtractCallThenRest: stated only for calls whose opener and key hold no `"`. The pattern's `[^\s=]+` key can hold a quote, and its opener `\(\s*"?` can end in an extra quote; calls of those forms are left out of this lemma, though `LocExtract.MatchAtIff` describes their matches.
- The exception handler of `process_lua_file`, which returns `False` on any error, is not modelled: `LuaStyle.ProcessLuaFile` has no failure path.
- `LuaStyle.ProcessLuaFile` does not model the file path: it takes the text and returns the new text and the changed flag.
- `fix_string_quotes` is modelled but, as in the source, not part of the composition.
- The unused `pattern1` and `replace_table_call` of `fix_function_call_braces` are not modelled.
- Regular expressions are modelled by hand-written anchored matchers, not by a general backtracking engine. Each matcher's greedy choices are the only ones under which the expression can match, so the match lengths agree.
- The final write and message of `frtranslation.py` (lines 32-36) and the entry point of `translation.py` are not modelled.
- `fix_lua.py` is not part of this model: it calls the external `stylua` program and `difflib`.
- `iNaturalist_Identifier.lrplugin/identifier_animal.py` is not part of this model: it calls a web service and works on floating-point scores.
- The `main` of `fix_lua_style.py` is not modelled: it walks the plugin directory with `rglob` and prints a summary.
