/**
 * `insertUnwindImport` (compiler/insert.ts): the markup is cut into lines, the import of the
 * runtime goes right after the first line that opens a component script, and markup without
 * such a line gets a whole script block in front of it.
 */
module Insert {
  import opened Wrappers
  import opened Text

  /** `InsertUnwindImportOptions`: an absent string is `None`; an absent flag is `false`. */
  datatype InsertOptions = InsertOptions(
    nameAs: Option<string>,
    exportName: Option<string>,
    path: Option<string>,
    disableTypescript: bool)

  /** The options object `{}`. */
  const NoOptions := InsertOptions(None, None, None, false)

  const DefaultPath := "https://code.jikno.com/unwind@VERSION/unwind.ts"

  /** JavaScript's `value || fallback` on an optional string: absent and empty both fall back. */
  function OrElse(value: Option<string>, fallback: string): (r: string)
    ensures r == fallback <==> (value.None? || value.value == "" || value.value == fallback)
    ensures r != fallback ==> value == Some(r)
  {
    if value.Some? && value.value != "" then value.value else fallback
  }

  /** `buildScriptTag()`. */
  function ScriptTag(options: InsertOptions): string
  {
    var space := if options.disableTypescript then "" else " ";
    var lang := if options.disableTypescript then "" else "lang=\"ts\"";
    "<" + "script" + space + lang + ">"
  }

  /** `buildImport()`: the first `VERSION` of the path is replaced by the version. */
  function ImportLine(version: string, options: InsertOptions): string
  {
    var versionedPath := ReplaceFirst(OrElse(options.path, DefaultPath), "VERSION", version);
    "\timport { " + OrElse(options.exportName, "unwind") + " as " + OrElse(options.nameAs, "__unwind")
    + " } from '" + versionedPath + "'"
  }

  /** One element of a regular expression; its letters match either case (the `/i` flag). */
  datatype Item =
    | Spaces                                  // `\s*`
    | Word(w: string)                         // a literal run of characters
    | Optional(first: string, second: string) // `(first|second)?`

  /** `s` begins with `w`, ASCII letters compared without case. */
  predicate WordAt(w: string, s: string)
  {
    |w| <= |s| && forall k :: 0 <= k < |w| ==> LowerChar(s[k]) == w[k]
  }

  /**
   * The anchored pattern matches all of `s` in some way: a `\s*` may stop at any point of a
   * whitespace run and an optional group may be taken or skipped, as backtracking tries them.
   */
  predicate Matches(pattern: seq<Item>, s: string)
    decreases |pattern|, |s|
  {
    if pattern == [] then s == []
    else match pattern[0]
      case Spaces =>
        Matches(pattern[1..], s) || (s != [] && IsWhitespace(s[0]) && Matches(pattern, s[1..]))
      case Word(w) =>
        WordAt(w, s) && Matches(pattern[1..], s[|w|..])
      case Optional(first, second) =>
        Matches(pattern[1..], s)
        || (WordAt(first, s) && Matches(pattern[1..], s[|first|..]))
        || (WordAt(second, s) && Matches(pattern[1..], s[|second|..]))
  }

  /** `/^<\s*script\s*(lang="ts"|lang="typescript")?\s*>$/i`. */
  const OpenerPattern: seq<Item> :=
    [Word("<"), Spaces, Word("script"), Spaces, Optional("lang=\"ts\"", "lang=\"typescript\""), Spaces, Word(">")]

  /** `startScriptRegex.test(line.trim())`. */
  predicate IsScriptOpener(line: string)
  {
    Matches(OpenerPattern, Trim(line))
  }

  /** The index of the first line that opens a script, as the source's loop finds it. */
  function FirstOpener(lines: seq<string>, from: nat): (r: Option<nat>)
    ensures r.Some? ==> from <= r.value < |lines| && IsScriptOpener(lines[r.value])
    ensures r.Some? ==> forall k {:trigger IsScriptOpener(lines[k])} :: from <= k < r.value ==> !IsScriptOpener(lines[k])
    ensures r.None? ==> forall k {:trigger IsScriptOpener(lines[k])} :: from <= k < |lines| ==> !IsScriptOpener(lines[k])
    decreases |lines| - from
  {
    if from >= |lines| then None
    else if IsScriptOpener(lines[from]) then Some(from)
    else FirstOpener(lines, from + 1)
  }

  /** The block put in front of markup that has no script opener. */
  function ScriptBlock(version: string, options: InsertOptions): seq<string>
  {
    [ScriptTag(options), ImportLine(version, options), "</script>", ""]
  }

  /** The lines after the insertion. */
  function InsertedLines(lines: seq<string>, version: string, options: InsertOptions): (r: seq<string>)
  {
    match FirstOpener(lines, 0)
    case Some(i) => lines[..i + 1] + [ImportLine(version, options)] + lines[i + 1..]
    case None => ScriptBlock(version, options) + lines
  }

  /** What `insertUnwindImport(markup, version, options)` returns. */
  function Inserted(markup: string, version: string, options: InsertOptions): string
  {
    Join(InsertedLines(Split(markup, '\n'), version, options), "\n")
  }

  /** `insertUnwindImport`: the loop over the lines with its `insertedImport` flag. */
  method InsertUnwindImport(markup: string, version: string, options: InsertOptions) returns (result: string)
    ensures result == Inserted(markup, version, options)
  {
    var lines := Split(markup, '\n');
    ghost var original := lines;
    var insertedImport := false;
    var index := 0;
    while index < |lines|
      invariant index <= |lines| && lines == original && !insertedImport
      invariant forall k {:trigger IsScriptOpener(lines[k])} :: 0 <= k < index ==> !IsScriptOpener(lines[k])
      decreases |lines| - index
    {
      var line := lines[index];
      if !IsScriptOpener(line) {
        index := index + 1;
        continue;
      }
      assert FirstOpener(original, 0) == Some(index);
      lines := lines[..index + 1] + [ImportLine(version, options)] + lines[index + 1..];
      insertedImport := true;
      break;
    }
    if !insertedImport {
      assert FirstOpener(original, 0) == None;
      lines := [ScriptTag(options), ImportLine(version, options), "</script>", ""] + lines;
    }
    result := Join(lines, "\n");
  }

  /**
   * After the first opener exactly one line is added, the import; taking it out again gives
   * back the original lines.
   */
  lemma ImportAfterFirstOpener(lines: seq<string>, i: nat, version: string, options: InsertOptions)
    requires i < |lines| && IsScriptOpener(lines[i])
    requires forall k {:trigger IsScriptOpener(lines[k])} :: 0 <= k < i ==> !IsScriptOpener(lines[k])
    ensures var r := InsertedLines(lines, version, options);
            |r| == |lines| + 1 && r[i + 1] == ImportLine(version, options)
            && r[..i + 1] + r[i + 2..] == lines
  {
    FirstOpenerAt(lines, i);
    SpliceSlices(lines, i, ImportLine(version, options));
  }

  lemma FirstOpenerAt(lines: seq<string>, i: nat)
    requires i < |lines| && IsScriptOpener(lines[i])
    requires forall k {:trigger IsScriptOpener(lines[k])} :: 0 <= k < i ==> !IsScriptOpener(lines[k])
    ensures FirstOpener(lines, 0) == Some(i)
  {
    var f := FirstOpener(lines, 0);
    assert f.Some?;
    assert f.value == i;
  }

  lemma SpliceSlices(lines: seq<string>, i: nat, x: string)
    requires i < |lines|
    ensures var r := lines[..i + 1] + [x] + lines[i + 1..];
            |r| == |lines| + 1 && r[i + 1] == x && r[..i + 1] + r[i + 2..] == lines
  {
    var r := lines[..i + 1] + [x] + lines[i + 1..];
    assert r[..i + 1] == lines[..i + 1];
    assert r[i + 2..] == lines[i + 1..];
    assert lines[..i + 1] + lines[i + 1..] == lines;
  }

  /** Without an opener, the four-line script block is put in front of all the original lines. */
  lemma BlockWithoutOpener(lines: seq<string>, version: string, options: InsertOptions)
    requires forall k {:trigger IsScriptOpener(lines[k])} :: 0 <= k < |lines| ==> !IsScriptOpener(lines[k])
    ensures var r := InsertedLines(lines, version, options);
            |r| == |lines| + 4 && r[..4] == ScriptBlock(version, options) && r[4..] == lines
  {
    assert FirstOpener(lines, 0).None?;
  }

  /** Every character of `w` is whitespace. */
  predicate AllWhitespace(w: string)
  {
    forall k :: 0 <= k < |w| ==> IsWhitespace(w[k])
  }

  /** `x` spells `w` up to the case of ASCII letters. */
  predicate SameLetters(x: string, w: string)
  {
    |x| == |w| && forall k :: 0 <= k < |w| ==> LowerChar(x[k]) == w[k]
  }

  lemma {:induction false} SpacesThen(pattern: seq<Item>, w: string, rest: string)
    requires pattern != [] && pattern[0] == Spaces
    requires AllWhitespace(w) && Matches(pattern[1..], rest)
    ensures Matches(pattern, w + rest)
    decreases |w|
  {
    if w == [] {
      assert w + rest == rest;
    } else {
      assert (w + rest)[0] == w[0] && (w + rest)[1..] == w[1..] + rest;
      SpacesThen(pattern, w[1..], rest);
    }
  }

  lemma WordThen(pattern: seq<Item>, x: string, rest: string)
    requires pattern != [] && pattern[0].Word? && SameLetters(x, pattern[0].w)
    requires Matches(pattern[1..], rest)
    ensures Matches(pattern, x + rest)
  {
    assert (x + rest)[|x|..] == rest;
    assert WordAt(pattern[0].w, x + rest);
  }

  lemma GroupThen(pattern: seq<Item>, g: string, rest: string)
    requires pattern != [] && pattern[0].Optional?
    requires g == [] || SameLetters(g, pattern[0].first) || SameLetters(g, pattern[0].second)
    requires Matches(pattern[1..], rest)
    ensures Matches(pattern, g + rest)
  {
    assert (g + rest)[|g|..] == rest;
    if g != [] && SameLetters(g, pattern[0].first) {
      assert WordAt(pattern[0].first, g + rest);
    } else if g != [] {
      assert WordAt(pattern[0].second, g + rest);
    }
  }

  /** What may follow `script`: whitespace, the optional `lang` attribute, whitespace and `>`. */
  lemma OpenerTail(w2: string, g: string, w3: string)
    requires AllWhitespace(w2) && AllWhitespace(w3)
    requires g == [] || SameLetters(g, "lang=\"ts\"") || SameLetters(g, "lang=\"typescript\"")
    ensures Matches(OpenerPattern[3..], w2 + (g + (w3 + ">")))
  {
    var p := OpenerPattern;
    assert p[6..][1..] == [];
    WordThen(p[6..], ">", []);
    assert ">" + [] == ">";
    assert p[5..][1..] == p[6..];
    SpacesThen(p[5..], w3, ">");
    assert p[4..][1..] == p[5..];
    GroupThen(p[4..], g, w3 + ">");
    assert p[3..][1..] == p[4..];
    SpacesThen(p[3..], w2, g + (w3 + ">"));
  }

  lemma Regroup(a: string, b: string, c: string, d: string, e: string, f: string, h: string)
    ensures a + (b + (c + (d + (e + (f + h))))) == a + b + c + d + e + f + h
  {
  }

  /**
   * Every trimmed line made of `<`, whitespace, `script` in any case, whitespace, an optional
   * `lang="ts"` or `lang="typescript"` in any case, whitespace and `>` is matched.
   */
  lemma OpenerShape(w1: string, s: string, w2: string, g: string, w3: string)
    requires AllWhitespace(w1) && AllWhitespace(w2) && AllWhitespace(w3)
    requires SameLetters(s, "script")
    requires g == [] || SameLetters(g, "lang=\"ts\"") || SameLetters(g, "lang=\"typescript\"")
    ensures Matches(OpenerPattern, "<" + w1 + s + w2 + g + w3 + ">")
  {
    var p := OpenerPattern;
    var tail := w2 + (g + (w3 + ">"));
    OpenerTail(w2, g, w3);
    assert p[2..][1..] == p[3..];
    WordThen(p[2..], s, tail);
    assert p[1..][1..] == p[2..];
    SpacesThen(p[1..], w1, s + tail);
    WordThen(p, "<", w1 + (s + tail));
    Regroup("<", w1, s, w2, g, w3, ">");
  }

  /** Both script tags that the fallback can write are themselves openers. */
  lemma ScriptTagIsOpener(options: InsertOptions)
    ensures IsScriptOpener(ScriptTag(options))
  {
    if options.disableTypescript {
      ScriptTagShape("script", "", "");
    } else {
      ScriptTagShape("script", " ", "lang=\"ts\"");
    }
  }

  /** `<script>` and `<script lang="ts">` have the opener's shape. */
  lemma ScriptTagShape(s: string, space: string, lang: string)
    requires s == "script"
    requires (space == [] && lang == []) || (space == " " && lang == "lang=\"ts\"")
    ensures IsScriptOpener("<" + s + space + lang + ">")
  {
    var u := "<" + s + space + lang + ">";
    assert SameLetters(s, "script");
    assert AllWhitespace(space) && AllWhitespace([]);
    OpenerShape([], s, space, lang, []);
    WithoutEmpty("<", s, space, lang, ">");
    assert u[0] == '<' && u[|u| - 1] == '>';
    TrimmedAlready(u);
  }

  lemma WithoutEmpty(a: string, b: string, c: string, d: string, e: string)
    ensures a + [] + b + c + d + [] + e == a + b + c + d + e
  {
  }

  /** Text that neither starts nor ends with whitespace is its own trim. */
  lemma TrimmedAlready(line: string)
    requires line != [] && !IsWhitespace(line[0]) && !IsWhitespace(line[|line| - 1])
    ensures Trim(line) == line
  {
    assert SkipWhitespace(line, 0) == 0;
    assert line[0..] == line;
  }

  lemma SkipTo(u: string, i: nat, j: nat)
    requires i <= j < |u| && !IsWhitespace(u[j])
    requires forall k :: i <= k < j ==> IsWhitespace(u[k])
    ensures SkipWhitespace(u, i) == j
  {
  }

  lemma {:induction false} TrimEndSpaces(u: string, w: string)
    requires u != [] && !IsWhitespace(u[|u| - 1]) && AllWhitespace(w)
    ensures TrimEnd(u + w) == u
    decreases |w|
  {
    if w == [] {
      assert u + w == u;
    } else {
      var x := u + w;
      assert x[|x| - 1] == w[|w| - 1];
      assert x[..|x| - 1] == u + w[..|w| - 1];
      TrimEndSpaces(u, w[..|w| - 1]);
    }
  }

  /** `trim()` takes off exactly the whitespace around text that starts and ends with something else. */
  lemma TrimAround(w0: string, u: string, w4: string)
    requires AllWhitespace(w0) && AllWhitespace(w4)
    requires u != [] && !IsWhitespace(u[0]) && !IsWhitespace(u[|u| - 1])
    ensures Trim(w0 + u + w4) == u
  {
    var x := w0 + u + w4;
    assert x[|w0|] == u[0];
    SkipTo(x, 0, |w0|);
    assert x[|w0|..] == u + w4;
    TrimEndSpaces(u, w4);
  }

  /** A whole line of opener shape, with any whitespace around it, is an opener. */
  lemma OpenerLine(w0: string, w1: string, s: string, w2: string, g: string, w3: string, w4: string)
    requires AllWhitespace(w0) && AllWhitespace(w1) && AllWhitespace(w2) && AllWhitespace(w3) && AllWhitespace(w4)
    requires SameLetters(s, "script")
    requires g == [] || SameLetters(g, "lang=\"ts\"") || SameLetters(g, "lang=\"typescript\"")
    ensures IsScriptOpener(w0 + ("<" + w1 + s + w2 + g + w3 + ">") + w4)
  {
    var u := "<" + w1 + s + w2 + g + w3 + ">";
    assert u[0] == '<' && u[|u| - 1] == '>';
    TrimAround(w0, u, w4);
    OpenerShape(w1, s, w2, g, w3);
  }

  /** The `/i` flag and the trim: an upper-case, indented opener qualifies as well. */
  lemma UpperCaseScriptTag(w0: string, s: string, g: string, w4: string)
    requires w0 == "  " && s == "SCRIPT" && g == "Lang=\"TypeScript\"" && w4 == "\t"
    ensures IsScriptOpener(w0 + ("<" + "" + s + " " + g + " " + ">") + w4)
  {
    assert SameLetters(s, "script");
    assert SameLetters(g, "lang=\"typescript\"");
    assert AllWhitespace(w0) && AllWhitespace(" ") && AllWhitespace(w4);
    OpenerLine(w0, "", s, " ", g, " ", w4);
  }

  /** After `<script`, what follows cannot finish an opener. */
  lemma {:induction false} NoOpenerTail(w: string, y: string)
    requires AllWhitespace(w)
    requires y != [] && !IsWhitespace(y[0]) && y[0] != '>' && LowerChar(y[0]) != 'l'
    ensures !Matches(OpenerPattern[5..], w + y)
    ensures !Matches(OpenerPattern[4..], w + y)
    ensures !Matches(OpenerPattern[3..], w + y)
    decreases |w|
  {
    var p := OpenerPattern;
    var x := w + y;
    assert p[3..][1..] == p[4..] && p[4..][1..] == p[5..] && p[5..][1..] == p[6..];
    if w == [] {
      assert x == y;
      assert !Matches(p[6..], x);
    } else {
      assert x[0] == w[0] && x[1..] == w[1..] + y;
      NoOpenerTail(w[1..], y);
      assert !Matches(p[6..], x);
    }
  }

  /** A `script` tag whose first attribute is not `lang` is not an opener. */
  lemma OtherAttributeIsNotOpener(s: string, w: string, y: string)
    requires SameLetters(s, "script") && AllWhitespace(w)
    requires y != [] && !IsWhitespace(y[0]) && y[0] != '>' && LowerChar(y[0]) != 'l'
    ensures !Matches(OpenerPattern, "<" + s + w + y)
  {
    var p := OpenerPattern;
    var u := "<" + s + w + y;
    NoOpenerTail(w, y);
    assert u[1..] == s + (w + y) && u[1] == s[0];
    assert (s + (w + y))[6..] == w + y;
    assert p[1..][1..] == p[2..] && p[2..][1..] == p[3..];
    assert !Matches(p[2..], u[1..]);
    assert !Matches(p[1..], u[1..]);
  }

  /** The module-context script of the repository's own test is not an opener. */
  lemma ModuleScriptIsNotOpener(s: string, w: string, y: string)
    requires s == "script" && w == " " && y == "context=\"module\">"
    ensures !IsScriptOpener("<" + s + w + y)
  {
    var u := "<" + s + w + y;
    assert u[|u| - 1] == y[|y| - 1];
    TrimmedAlready(u);
    OtherAttributeIsNotOpener(s, w, y);
  }

  /** With default names, the import line of the repository's own test for the path `path`. */
  lemma ImportLineForPath(version: string, path: string)
    requires path == "path"
    ensures ImportLine(version, NoOptions.(path := Some(path)))
            == "\timport { unwind as __unwind } from '" + path + "'"
  {
    assert ReplaceFirst(path, "VERSION", version) == path;
  }

  /** The default path is the runtime URL with `VERSION` where the version goes. */
  lemma DefaultPathVersioned(version: string)
    ensures ReplaceFirst(DefaultPath, "VERSION", version)
            == "https://code.jikno.com/unwind@" + version + "/unwind.ts"
  {
    assert DefaultPath == "https://code.jikno.com/unwind@" + "VERSION" + "/unwind.ts";
    NoOccurrenceBefore("https://code.jikno.com/unwind@", "VERSION", "/unwind.ts");
    ReplaceFirstAt("https://code.jikno.com/unwind@", "VERSION", "/unwind.ts", version);
  }

  /** With no options, the version lands inside the default runtime URL. */
  lemma DefaultImportLine(version: string, options: InsertOptions)
    requires options == NoOptions
    ensures ImportLine(version, options)
            == "\timport { " + "unwind" + " as " + "__unwind" + " } from '"
               + ("https://code.jikno.com/unwind@" + version + "/unwind.ts") + "'"
  {
    DefaultPathVersioned(version);
    assert OrElse(options.path, DefaultPath) == DefaultPath;
    assert OrElse(options.exportName, "unwind") == "unwind";
    assert OrElse(options.nameAs, "__unwind") == "__unwind";
  }

  /** The options of the import line that can bring a line break into it. */
  predicate SingleLineOptions(version: string, options: InsertOptions)
  {
    '\n' !in version
    && (options.nameAs.Some? ==> '\n' !in options.nameAs.value)
    && (options.exportName.Some? ==> '\n' !in options.exportName.value)
    && (options.path.Some? ==> '\n' !in options.path.value)
  }

  lemma ReplaceFirstKeepsLine(s: string, pat: string, rep: string)
    requires '\n' !in s && '\n' !in rep
    ensures '\n' !in ReplaceFirst(s, pat, rep)
  {
    match FindFrom(s, pat, 0)
    case None =>
    case Some(i) =>
      assert ReplaceFirst(s, pat, rep) == s[..i] + rep + s[i + |pat|..];
      assert '\n' !in s[..i] && '\n' !in s[i + |pat|..];
  }

  lemma ImportLineIsOneLine(version: string, options: InsertOptions)
    requires SingleLineOptions(version, options)
    ensures '\n' !in ImportLine(version, options)
  {
    var path := OrElse(options.path, DefaultPath);
    DefaultPathIsOneLine();
    ReplaceFirstKeepsLine(path, "VERSION", version);
    assert '\n' !in "\timport { " && '\n' !in " as " && '\n' !in " } from '" && '\n' !in "'";
  }

  lemma DefaultPathIsOneLine()
    ensures '\n' !in DefaultPath
  {
    assert DefaultPath == "https://code.jikno.com/unwind@" + "VERSION" + "/unwind.ts";
    assert '\n' !in "https://code.jikno.com/unwind@";
    assert '\n' !in "VERSION" && '\n' !in "/unwind.ts";
  }

  /**
   * Read back as lines, the result is the edited line list; so the markup's own lines all
   * survive, in their order.
   */
  lemma InsertedReadsBack(markup: string, version: string, options: InsertOptions)
    requires SingleLineOptions(version, options)
    ensures Split(Inserted(markup, version, options), '\n')
            == InsertedLines(Split(markup, '\n'), version, options)
  {
    var lines := Split(markup, '\n');
    InsertedLinesAreLines(lines, version, options);
    SplitJoin(InsertedLines(lines, version, options), '\n');
  }

  lemma SpliceKeepsLines(lines: seq<string>, i: nat, x: string)
    requires i < |lines| && '\n' !in x
    requires forall k :: 0 <= k < |lines| ==> '\n' !in lines[k]
    ensures var r := lines[..i + 1] + [x] + lines[i + 1..];
            |r| >= 1 && forall k :: 0 <= k < |r| ==> '\n' !in r[k]
  {
    var r := lines[..i + 1] + [x] + lines[i + 1..];
    forall k | 0 <= k < |r| ensures '\n' !in r[k] {
      if k <= i { assert r[k] == lines[k]; }
      else if k > i + 1 { assert r[k] == lines[k - 1]; }
    }
  }

  lemma ScriptBlockIsLines(version: string, options: InsertOptions)
    requires '\n' !in ImportLine(version, options)
    ensures forall k :: 0 <= k < 4 ==> '\n' !in ScriptBlock(version, options)[k]
  {
    assert '\n' !in "<" && '\n' !in "script" && '\n' !in " " && '\n' !in "lang=\"ts\"" && '\n' !in ">";
    assert '\n' !in "</script>";
  }

  lemma PrependKeepsLines(block: seq<string>, lines: seq<string>)
    requires |block| >= 1
    requires forall k :: 0 <= k < |block| ==> '\n' !in block[k]
    requires forall k :: 0 <= k < |lines| ==> '\n' !in lines[k]
    ensures forall k :: 0 <= k < |block + lines| ==> '\n' !in (block + lines)[k]
  {
  }

  /** Every line `insertUnwindImport` produces is free of line breaks, given that its input lines are. */
  lemma InsertedLinesAreLines(lines: seq<string>, version: string, options: InsertOptions)
    requires SingleLineOptions(version, options)
    requires forall k :: 0 <= k < |lines| ==> '\n' !in lines[k]
    ensures var r := InsertedLines(lines, version, options);
            |r| >= 1 && forall k :: 0 <= k < |r| ==> '\n' !in r[k]
  {
    ImportLineIsOneLine(version, options);
    match FirstOpener(lines, 0)
    case Some(i) =>
      SpliceKeepsLines(lines, i, ImportLine(version, options));
    case None =>
      ScriptBlockIsLines(version, options);
      PrependKeepsLines(ScriptBlock(version, options), lines);
  }

  /** Taking the import out of a result with an opener gives back the markup. */
  lemma RemovingImportRestoresMarkup(markup: string, version: string, options: InsertOptions, i: nat)
    requires SingleLineOptions(version, options)
    requires FirstOpener(Split(markup, '\n'), 0) == Some(i)
    ensures var out := Split(Inserted(markup, version, options), '\n');
            i + 1 < |out| && out[i + 1] == ImportLine(version, options)
            && Join(out[..i + 1] + out[i + 2..], "\n") == markup
  {
    var lines := Split(markup, '\n');
    InsertedReadsBack(markup, version, options);
    ImportAfterFirstOpener(lines, i, version, options);
    JoinSplit(markup, '\n');
  }
}
