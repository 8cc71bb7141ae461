/**
 * `implementUnwind` (compiler/mod.ts): the compiler's entry point. It puts the runtime import
 * into the markup and then wraps every class attribute in a call to the imported name. The
 * version of the runtime comes from the URL the compiler itself was loaded from, which is a
 * parameter here.
 */
module Compiler {
  import opened Wrappers
  import opened Text
  import Insert
  import Wrap

  /**
   * `ImplementUnwindOptions`: the options of the import plus a `version` field, which the
   * entry point never reads.
   */
  datatype ImplementUnwindOptions = ImplementUnwindOptions(insert: Insert.InsertOptions, version: string)

  /**
   * `extractVersion(url)`: the second `@`-separated piece of the URL, cut at its first `/`;
   * nothing when that piece is missing or either piece is empty.
   */
  function ExtractVersion(url: string): (r: Option<string>)
    ensures r.Some? ==> r.value != [] && '/' !in r.value && '@' !in r.value
    ensures '@' !in url ==> r.None?
  {
    var pieces := Split(url, '@');
    if |pieces| < 2 || pieces[1] == [] then None
    else
      var v := Split(pieces[1], '/')[0];
      if v == [] then None else Some(v)
  }

  /**
   * Sufficient: text after the first `@` that runs up to a `/`, another `@` or the end is the
   * version, and there is none when that text is empty.
   */
  lemma VersionBetween(pre: string, v: string, post: string)
    requires '@' !in pre && '@' !in v && '/' !in v
    requires post == [] || post[0] == '/' || post[0] == '@'
    ensures ExtractVersion(pre + "@" + v + post) == if v == [] then None else Some(v)
  {
    var url := pre + "@" + v + post;
    assert url == pre + ['@'] + (v + post);
    SplitHead(pre, v + post, '@');
    SplitFirst(v + post, '@');
    var piece := VersionPiece(v, post);
    assert Split(url, '@')[1] == piece;
    SplitFirst(piece, '/');
    FromPieces(url, piece, v);
  }

  /** `extractVersion` in terms of the two pieces it cuts. */
  lemma FromPieces(url: string, piece: string, v: string)
    requires |Split(url, '@')| >= 2 && Split(url, '@')[1] == piece
    requires Split(piece, '/')[0] == v
    ensures ExtractVersion(url) == if v == [] then None else Some(v)
  {
    if piece == [] {
      SplitFirst(piece, '/');
    }
  }

  /** The second `@`-piece of such a URL is `v` followed by nothing that the `/` cut keeps. */
  lemma VersionPiece(v: string, post: string) returns (piece: string)
    requires '@' !in v && '/' !in v
    requires post == [] || post[0] == '/' || post[0] == '@'
    ensures piece == (v + post)[..IndexOf(v + post, '@')]
    ensures piece[..IndexOf(piece, '/')] == v
  {
    IndexOfAfter(v, post, '@');
    var rest := post[..IndexOf(post, '@')];
    piece := v + rest;
    assert (v + post)[..|v| + IndexOf(post, '@')] == piece;
    IndexOfAfter(v, rest, '/');
    assert rest == [] || rest[0] == '/';
    assert piece[..|v|] == v;
  }

  /** Searching past a prefix without the character. */
  lemma {:induction false} IndexOfAfter(v: string, post: string, c: char)
    requires c !in v
    ensures IndexOf(v + post, c) == |v| + IndexOf(post, c)
    decreases |v|
  {
    if v != [] {
      assert (v + post)[1..] == v[1..] + post;
      IndexOfAfter(v[1..], post, c);
    } else {
      assert v + post == post;
    }
  }

  /**
   * Necessary: a version found is exactly the text between the first `@` and the next `/`,
   * `@` or end of the URL.
   */
  lemma VersionDecomposes(url: string)
    requires ExtractVersion(url).Some?
    ensures VersionAfter(url, IndexOf(url, '@'), ExtractVersion(url).value)
  {
    var v := ExtractVersion(url).value;
    var i := IndexOf(url, '@');
    ToPieces(url);
    SplitSecond(url, '@');
    var after := url[i + 1..];
    var piece := after[..IndexOf(after, '@')];
    assert Split(url, '@')[1] == piece;
    SplitFirst(piece, '/');
    assert v == piece[..IndexOf(piece, '/')];
    CutEnds(url, i, after, piece, v);
  }

  /** A version found is the first `/`-piece of the second `@`-piece. */
  lemma ToPieces(url: string)
    requires ExtractVersion(url).Some?
    ensures '@' in url && |Split(url, '@')| >= 2
    ensures Split(Split(url, '@')[1], '/')[0] == ExtractVersion(url).value
  {
  }

  /** `v` follows position `i` of the URL and ends at a `/`, an `@` or the end. */
  predicate VersionAfter(url: string, i: nat, v: string)
  {
    var e := i + 1 + |v|;
    e <= |url| && url[i + 1..e] == v && (e == |url| || url[e] == '/' || url[e] == '@')
  }

  lemma CutEnds(url: string, i: nat, after: string, piece: string, v: string)
    requires i < |url| && after == url[i + 1..]
    requires piece == after[..IndexOf(after, '@')]
    requires v == piece[..IndexOf(piece, '/')]
    ensures VersionAfter(url, i, v)
  {
    var c := IndexOf(after, '@');
    var j := IndexOf(piece, '/');
    assert |v| == j;
    if j < c {
      assert url[i + 1 + j] == piece[j];
    } else if i + 1 + c < |url| {
      assert url[i + 1 + c] == after[c];
    }
  }

  /** The default runtime URL, with a version in it, gives that version back. */
  lemma RuntimeUrlVersion(v: string, host: string)
    requires host == "https://code.jikno.com/unwind"
    requires v != [] && '/' !in v && '@' !in v
    ensures ExtractVersion(host + "@" + v + "/unwind.ts") == Some(v)
  {
    assert '@' !in host;
    VersionBetween(host, v, "/unwind.ts");
  }

  /** `extractVersion(import.meta.url) || 'master'`; a version found is never empty. */
  function Version(url: string): (r: string)
    ensures r != []
    ensures ExtractVersion(url).Some? ==> r == ExtractVersion(url).value
    ensures ExtractVersion(url).None? ==> r == "master"
  {
    ExtractVersion(url).GetOr("master")
  }

  /** `options.nameAs || '__unwind'`: the name the attribute values are wrapped in. */
  function WrapName(options: ImplementUnwindOptions): string
  {
    Insert.OrElse(options.insert.nameAs, "__unwind")
  }

  /** What `implementUnwind(markup, options)` returns when the compiler was loaded from `url`. */
  function Compiled(markup: string, options: ImplementUnwindOptions, url: string): string
  {
    Wrap.Wrapped(Insert.Inserted(markup, Version(url), options.insert), WrapName(options))
  }

  /** The wrap name is the name the import binds the runtime to. */
  lemma WrapNameIsImported(version: string, options: ImplementUnwindOptions)
    ensures WrapName(options) != []
    ensures var line := Insert.ImportLine(version, options.insert);
            var head := "\timport { " + Insert.OrElse(options.insert.exportName, "unwind") + " as ";
            line[..|head| + |WrapName(options)|] == head + WrapName(options)
  {
    var head := "\timport { " + Insert.OrElse(options.insert.exportName, "unwind") + " as ";
    var name := WrapName(options);
    var path := ReplaceFirst(Insert.OrElse(options.insert.path, Insert.DefaultPath), "VERSION", version);
    var tail := " } from '" + path + "'";
    var line := Insert.ImportLine(version, options.insert);
    assert line == head + name + tail;
    assert (head + name + tail)[..|head| + |name|] == head + name;
  }

  /** The `version` option has no effect on the output. */
  lemma VersionOptionUnused(markup: string, options: ImplementUnwindOptions, url: string, version: string)
    ensures Compiled(markup, options.(version := version), url) == Compiled(markup, options, url)
  {
    assert WrapName(options.(version := version)) == WrapName(options);
  }

  /**
   * `implementUnwind`: the import goes in with the version read from `url`, then every class
   * attribute is wrapped in the imported name.
   */
  method ImplementUnwind(markup: string, options: ImplementUnwindOptions, url: string) returns (out: string)
    ensures out == Wrap.Wrapped(Insert.Inserted(markup, Version(url), options.insert), WrapName(options))
  {
    var version := ExtractVersion(url).GetOr("master");
    var markupWithScript := Insert.InsertUnwindImport(markup, version, options.insert);
    out := Wrap.WrapTemplateClasses(markupWithScript, Insert.OrElse(options.insert.nameAs, "__unwind"));
  }
}
