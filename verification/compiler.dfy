/**
 * The exported compile function of src/slate.js:60-134: rewrite shell
 * fences, split off the front matter, walk its tokens into metadata,
 * assemble the body with its includes, render, fix up the HTML, and hand the
 * metadata with the content to the template.
 *
 * The lexer, the renderer and the template engine are parameters: `lex`
 * turns the front matter into tokens, `render` turns markdown into HTML, and
 * `fill` applies the compiled template to the page data. The highlighter the
 * renderer is configured with receives the language `Render.HighlightLanguage`
 * computes, but nothing here ties `render` to that choice.
 */
module Compiler {
  import opened Wrappers
  import opened Strings
  import opened DocumentSplitter
  import opened TokenWalker
  import opened Render
  import opened Paths

  datatype CompileError =
      /** "No markdown page settings found!" */
    | NoPageSettings
      /** A TypeError thrown by the token walker */
    | WalkFailure(cause: WalkError)

  const IncludesKey: string := "includes"
  const ContentKey: string := "content"

  /** The loader used for includes: the caller's, or one that yields "" for every name. */
  function IncludesLoader(loader: Option<string -> string>): string -> string
  {
    if loader.Some? then loader.value else _ => ""
  }

  /**
   * The names iterated for includes: the items of an `includes` list, the
   * characters of an `includes` scalar (iterating a string visits its
   * characters), none otherwise.
   */
  function IncludeNames(meta: Metadata): (names: seq<string>)
    ensures IncludesKey !in meta ==> names == []
    ensures IncludesKey in meta && meta[IncludesKey].Items? ==> names == meta[IncludesKey].items
  {
    if IncludesKey !in meta then []
    else
      match meta[IncludesKey]
      case Items(xs) => xs
      case Scalar(None) => []
      case Scalar(Some(s)) => seq(|s|, i requires 0 <= i < |s| => [s[i]])
  }

  /** The markdown that is rendered: the body, then each include's text in turn. */
  function Assembled(body: string, names: seq<string>, load: string -> string): (md: string)
    ensures |body| <= |md| && md[..|body|] == body
    decreases |names|
  {
    if |names| == 0 then body
    else Assembled(body, names[..|names| - 1], load) + load(names[|names| - 1])
  }

  /** The texts of the includes, in declaration order. */
  function Loaded(names: seq<string>, load: string -> string): (texts: seq<string>)
    ensures |texts| == |names|
  {
    seq(|names|, i requires 0 <= i < |names| => load(names[i]))
  }

  lemma LoadedSnoc(names: seq<string>, load: string -> string)
    requires |names| > 0
    ensures Loaded(names, load) == Loaded(names[..|names| - 1], load) + [load(names[|names| - 1])]
  {
    var a, b := Loaded(names, load), Loaded(names[..|names| - 1], load) + [load(names[|names| - 1])];
    forall i | 0 <= i < |names| ensures a[i] == b[i] {
    }
  }

  /** The assembled markdown is the body followed by the concatenated include texts, in declaration order. */
  lemma {:induction false} AssembledInOrder(body: string, names: seq<string>, load: string -> string)
    ensures Assembled(body, names, load) == body + Concat(Loaded(names, load))
    decreases |names|
  {
    if |names| == 0 {
      assert body + "" == body;
    } else {
      var init := names[..|names| - 1];
      var last := load(names[|names| - 1]);
      AssembledInOrder(body, init, load);
      LoadedSnoc(names, load);
      if |init| == 0 {
        assert Loaded(names, load) == [last];
      } else {
        JoinAppend(Loaded(init, load), last, "");
      }
    }
  }

  /** The body and each include's text as the compiler pushes them, in order. */
  method CollectMarkdown(body: string, names: seq<string>, load: string -> string) returns (markdown: seq<string>)
    ensures |markdown| == |names| + 1 && markdown[0] == body
    ensures forall k :: 0 <= k < |names| ==> markdown[k + 1] == load(names[k])
    ensures Concat(markdown) == Assembled(body, names, load)
  {
    markdown := [body];
    var i := 0;
    while i < |names|
      invariant 0 <= i <= |names|
      invariant |markdown| == i + 1 && markdown[0] == body
      invariant forall k :: 0 <= k < i ==> markdown[k + 1] == load(names[k])
      invariant Concat(markdown) == Assembled(body, names[..i], load)
    {
      JoinAppend(markdown, load(names[i]), "");
      assert names[..i + 1][..i] == names[..i];
      markdown := markdown + [load(names[i])];
      i := i + 1;
    }
    assert names[..i] == names;
  }

  /** The data handed to the template: the metadata, with `content` set last to the HTML. */
  function PageData(meta: Metadata, html: string): (data: Metadata)
    ensures data.Keys == meta.Keys + {ContentKey}
    ensures data[ContentKey] == Scalar(Some(html))
    ensures forall k :: k in meta && k != ContentKey ==> data[k] == meta[k]
  {
    meta[ContentKey := Scalar(Some(html))]
  }

  /**
   * What compiling `markup` with `template` yields. It fails for want of page
   * settings exactly when the text has no `---` delimiter line.
   */
  function Compilation(markup: string, template: string, lex: string -> seq<Token>, loader: Option<string -> string>,
                       render: string -> string, fill: (string, Metadata) -> string): (r: Result<string, CompileError>)
    ensures r == Err(NoPageSettings) <==> !HasDelimiter(markup)
  {
    var pieces := Split(RewriteShell(markup));
    RewriteKeepsDelimiters(markup);
    SplitSingleIffNoDelimiter(RewriteShell(markup));
    if |pieces| == 1 then Err(NoPageSettings)
    else
      match Walk(lex(FrontMatter(pieces)))
      case Err(e) => Err(WalkFailure(e))
      case Ok(meta) =>
        var markdown := Assembled(Body(pieces), IncludeNames(meta), IncludesLoader(loader));
        Ok(fill(template, PageData(meta, Fixups(render(markdown)))))
  }

  /** The compile function, step by step. */
  method Compile(markup: string, template: string, lex: string -> seq<Token>, loader: Option<string -> string>,
                 render: string -> string, fill: (string, Metadata) -> string) returns (r: Result<string, CompileError>)
    ensures r == Compilation(markup, template, lex, loader, render, fill)
    ensures r == Err(NoPageSettings) <==> !HasDelimiter(markup)
  {
    var load := IncludesLoader(loader);
    var text := RewriteShell(markup);
    var pieces := Split(text);
    SplitSingleIffNoDelimiter(text);
    if |pieces| == 1 {
      return Err(NoPageSettings);
    }
    var walked := WalkFrontMatter(lex(pieces[1]));
    if walked.Err? {
      return Err(WalkFailure(walked.error));
    }
    var data := walked.value;
    var markdown := CollectMarkdown(Body(pieces), IncludeNames(data), load);
    var html := render(Concat(markdown));
    data := data[ContentKey := Scalar(Some(Fixups(html)))];
    r := Ok(fill(template, data));
  }

  /**
   * A page of the usual shape, `---` front matter `---` body, shell fences
   * included: the rewritten front matter's tokens give the metadata, and the
   * content is the fixed-up rendering of the rewritten body followed by its
   * includes.
   */
  lemma StandardPage(front: string, body: string, template: string, lex: string -> seq<Token>, loader: Option<string -> string>,
                     render: string -> string, fill: (string, Metadata) -> string)
    requires !Contains(front + "\n---", Delimiter) && !Contains(body, Delimiter)
    ensures Walk(lex(RewriteShell(front))).Err? ==>
      Compilation(OpeningDelimiter + front + Delimiter + body, template, lex, loader, render, fill)
        == Err(WalkFailure(Walk(lex(RewriteShell(front))).error))
    ensures Walk(lex(RewriteShell(front))).Ok? ==>
      var meta := Walk(lex(RewriteShell(front))).value;
      Compilation(OpeningDelimiter + front + Delimiter + body, template, lex, loader, render, fill)
        == Ok(fill(template, PageData(meta, Fixups(render(Assembled(RewriteShell(body), IncludeNames(meta), IncludesLoader(loader)))))))
  {
    var f, b := RewriteShell(front), RewriteShell(body);
    RewriteStandardDocument(front, body);
    RewriteKeepsStandardShape(front, body);
    StandardDocument(f, b);
    assert Body(["", f, b]) == b;
  }

  /** Without an `includes` field only the body is rendered. */
  lemma WithoutIncludes(meta: Metadata, body: string, load: string -> string)
    requires IncludesKey !in meta
    ensures Assembled(body, IncludeNames(meta), load) == body
  {
  }

  /** With no loader every include is empty, so only the body is rendered. */
  lemma {:induction false} WithoutLoader(body: string, names: seq<string>)
    ensures Assembled(body, names, IncludesLoader(None)) == body
    decreases |names|
  {
    if |names| > 0 {
      WithoutLoader(body, names[..|names| - 1]);
    }
  }

  /** The include loader the plugin passes: the built-in one, relative to the main file. */
  function PluginLoader(mainFile: string, read: string -> Option<string>): (loader: string -> string)
    ensures forall name :: read(IncludePath(mainFile, name)).None? ==> loader(name) == ""
    ensures forall name :: read(IncludePath(mainFile, name)).Some? ==> loader(name) == read(IncludePath(mainFile, name)).value
  {
    name => LoadInclude(mainFile, name, read)
  }

  /**
   * One include that cannot be read contributes `''` in its slot, and every other include
   * keeps its own text and place: the markdown is the body followed by those texts in order.
   */
  lemma OneUnreadableInclude(mainFile: string, read: string -> Option<string>, body: string, names: seq<string>, j: nat)
    requires j < |names| && read(IncludePath(mainFile, names[j])).None?
    ensures Loaded(names, PluginLoader(mainFile, read))[j] == ""
    ensures forall i :: 0 <= i < |names| && i != j ==>
      Loaded(names, PluginLoader(mainFile, read))[i] == LoadInclude(mainFile, names[i], read)
    ensures Assembled(body, names, PluginLoader(mainFile, read)) == body + Concat(Loaded(names, PluginLoader(mainFile, read)))
  {
    AssembledInOrder(body, names, PluginLoader(mainFile, read));
  }

  /**
   * Includes that cannot be read add nothing to the rendered markdown. For a single failing
   * include among readable ones, see `OneUnreadableInclude`.
   */
  lemma {:induction false} UnreadableIncludesVanish(mainFile: string, read: string -> Option<string>, body: string, names: seq<string>)
    requires forall i :: 0 <= i < |names| ==> read(IncludePath(mainFile, names[i])).None?
    ensures Assembled(body, names, PluginLoader(mainFile, read)) == body
    decreases |names|
  {
    if |names| > 0 {
      var last := names[|names| - 1];
      assert read(IncludePath(mainFile, last)).None?;
      UnreadableIncludesVanish(mainFile, read, body, names[..|names| - 1]);
      assert Assembled(body, names, PluginLoader(mainFile, read)) == body + "";
    }
  }
}
