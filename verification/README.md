# gulp-slate compiler core, in Dafny

gulp-slate turns a Slate-style API document into one HTML page. The
document is markdown with a YAML-like front matter between `---` lines.
This project models the document compiler exported by `src/slate.js` and
the small path and option helpers of the gulp plugin in `index.js`, and
proves properties of that model.

The compiler, step by step:

1. It rewrites every `` ```shell `` fence to `` ```bash ``.
2. It splits the text on the regular expression `(?:^|\n)---\n`. The
   pattern has no `m` flag, so `^` matches only at offset 0. A single piece
   is the error "No markdown page settings found!".
3. It walks the lexer's tokens for piece 1 (the front matter) in an
   index-driven loop. The loop fills a metadata map with scalar fields
   (`key: value` paragraphs) and list fields (a `name:` paragraph followed
   by a list).
4. It assembles the markdown: pieces 2.. joined without delimiters, then
   the text of each include named in `includes`, in order.
5. It renders that markdown. For each code block whose language holds a
   `>`, the highlighter gets the segment between the first `>` and any
   second one; a language without `>` is passed as it is.
6. It applies two global regular-expression rewrites to the HTML. The first
   moves the `<code>` attributes onto `<pre>`. The second cuts
   `class="highlight A&B"` down to `class="highlight A"`.
7. It stores the HTML as `content` and hands the map to the template.

The plugin adds `changeFile`, which replaces the last `/` segment of a path,
and `fixFilename`, which names the output file. It also adds the default
include loader, which reads `includes/_NAME.md` beside the document and
yields `''` when that read fails, and the `_.extend(opts, defaults)` merge,
in which the defaults overwrite whatever the caller passed.

The modules:

| file | module | what it holds |
|---|---|---|
| `wrappers.dfy` | `Wrappers` | `Option` and `Result` |
| `strings.dfy` | `Strings` | JavaScript `indexOf`, `split` with a literal separator, `join`, global literal `replace`, and first-occurrence `replace`, all on `seq<char>` |
| `splitter.dfy` | `DocumentSplitter` | the shell-fence rewrite and the regex split, as `String.prototype.split` scans |
| `walker.dfy` | `TokenWalker` | the token walker, as a specification function `Walk` (a step function iterated by `Run`) and as the loop itself, `WalkFrontMatter` |
| `render.dfy` | `Render` | the highlight language choice and the two HTML rewrites, as left-to-right scanners with greedy character classes |
| `compiler.dfy` | `Compiler` | the whole compile, as the function `Compilation` and as the method `Compile`, plus the include assembly |
| `paths.dfy` | `Paths` | `changeFile` (a method that pops and pushes), `fixFilename`, the include path and the default loader |
| `options.dfy` | `PluginOptions` | the options object as a class whose `Extend` copies keys in place, and the merge with the defaults |

The following are parameters of the model, not parts of it:

- the markdown lexer, given as `lex: string -> seq<Token>`;
- the renderer together with highlight.js, given as `render: string -> string`;
- the compiled Handlebars template, given as `fill`;
- the file reads, given as `read: string -> Option<string>`, where `None` is a failed read.

A list item's `TypeError`s are modelled as `WalkError` values, in the order
the code reaches them:

- the item is the last token;
- the field is no longer a list;
- the next token has no `text`.

## Model

| member | source | states |
|---|---|---|
| Strings.Join | src/slate.js:105 | `Array.prototype.join`: the parts with the separator between each pair; its behaviour on an appended part is stated by `JoinAppend` |
| Strings.JoinAppend | index.js:25-26 | joining the parts with one more part pushed is joining the parts, then the separator, then the new part |
| Strings.SplitOn | src/slate.js:97 | `split` with a literal separator: at least one piece, the pieces joined with the separator give the text back, and no piece contains the separator |
| Strings.RemoveFirst | index.js:42 | `replace(/\.md/, "")`: unchanged without an occurrence; otherwise the leftmost occurrence is cut out and the length drops by the pattern's length |
| Strings.ReplaceAll | src/slate.js:64 | the global literal `replace`, scanning left to right and resuming after each occurrence; its meaning is stated by the lemmas below |
| Strings.ReplaceAllShortens | src/slate.js:64 | a replacement no longer than the pattern never lengthens the text |
| Strings.ReplaceAllAsSplitJoin | src/slate.js:64 | the global literal replacement equals splitting on the pattern and joining with the replacement, so every character outside an occurrence is kept in order |
| Strings.ReplaceAllKeepsForeignWord | src/slate.js:64 | a word sharing no character with the pattern or the replacement occurs after the replacement if and only if it occurred before |
| Strings.ReplaceAllAppend | src/slate.js:64 | the replacement distributes over a cut when the right part does not start with a character of the pattern, since no occurrence can straddle the cut |
| Strings.ReplaceAllAfterForeign | src/slate.js:64 | a prefix holding no copy of the pattern's first character is copied through and leaves the rest's replacement unchanged |
| Strings.SplitOnAroundChar | index.js:23 | splitting `x + c + y` on the one-character `c` gives the pieces of `x` followed by the pieces of `y` |
| DocumentSplitter.RewriteShell | src/slate.js:64 | `` ```shell `` becomes `` ```bash `` everywhere, which never lengthens the text |
| DocumentSplitter.NoShellFenceRemains | src/slate.js:64 | after the rewrite no `` ```shell `` is left anywhere |
| DocumentSplitter.RewriteWithoutFence | src/slate.js:64 | a text without `` ```shell `` passes through the rewrite unchanged |
| DocumentSplitter.RewriteKeepsDelimiters | src/slate.js:64-65 | the text has a `---` delimiter line after the rewrite exactly when it had one before |
| DocumentSplitter.RewriteStandardDocument | src/slate.js:64 | on `---\n FRONT \n---\n BODY` the rewrite acts on FRONT and BODY separately and keeps both delimiters |
| DocumentSplitter.RewriteKeepsStandardShape | src/slate.js:64-65 | the rewrite adds no delimiter to a FRONT or BODY that had none, so a standard document stays standard |
| DocumentSplitter.Pieces | src/slate.js:65 | the scan of `split` from a piece start `p` and a try position `q`: it always yields at least one piece |
| DocumentSplitter.Split | src/slate.js:65 | the regex `split` is the scan from offset 0, and always yields at least one piece |
| DocumentSplitter.PiecesSingleIffNoMatch | src/slate.js:65 | the split scan yields one piece if and only if the pattern matches at no offset from the scan position on |
| DocumentSplitter.SplitSingleIffNoDelimiter | src/slate.js:65-69 | one piece exactly when the text neither starts with `---\n` nor contains `\n---\n` |
| DocumentSplitter.PiecesReassemble | src/slate.js:65 | one more piece than delimiters, and interleaving them gives the scanned text back |
| DocumentSplitter.SeparatorsAreDelimiters | src/slate.js:65 | every matched delimiter is `---\n` or `\n---\n`, and a `---\n` can only be the match at offset 0: every later one, and every one when the scan starts past 0, is `\n---\n` |
| DocumentSplitter.SplitReassembles | src/slate.js:65 | the split loses nothing: the pieces with the delimiters put back are the text |
| DocumentSplitter.StandardDocument | src/slate.js:65 | `---\n FRONT \n---\n BODY` without further delimiters splits into `""`, FRONT and BODY |
| DocumentSplitter.FrontMatter | src/slate.js:72 | `markup[1]`, the piece handed to the lexer |
| DocumentSplitter.Body | src/slate.js:105 | `markup.slice(2).join('')`: every piece after the front matter, concatenated without delimiters |
| DocumentSplitter.SingleDelimiterEmptyBody | src/slate.js:105 | with a single delimiter there are two pieces and the body is empty |
| TokenWalker.TextOf | src/slate.js:80 | a token's `text` property: present on paragraph and text tokens, optional on other kinds, absent on structural tokens; what the walk does with it is stated by `ItemStep` |
| TokenWalker.DropLast | src/slate.js:92 | `slice(0, -1)`: the name is the text without its last character, and `""` stays `""` |
| TokenWalker.FieldKey | src/slate.js:97-98 | `split(': ')[0]`, the key of a scalar paragraph; stated by `ParagraphField` and `ParagraphWithoutSeparator` |
| TokenWalker.FieldValue | src/slate.js:97-98 | `split(': ')[1]`, the value, absent without a separator; stated by `ParagraphField` and `ParagraphWithoutSeparator` |
| TokenWalker.ItemValue | src/slate.js:81-83 | what a list item stores: `shell` becomes `bash` in the `language_tabs` list only; stated by `LanguageTabsStored` |
| TokenWalker.IntroducesList | src/slate.js:90 | a paragraph followed by a list start names a list; the steps it selects are `ListParagraphStep` and `ScalarParagraphStep` |
| TokenWalker.Step | src/slate.js:76-102 | one pass of the loop body with its `idx++`: only a list item while a list name is set can throw, and a pass that does not throw moves the index on by one to three |
| TokenWalker.Run | src/slate.js:76-102 | the loop from a state to the end: when it does not throw it stops at or past the last token, never behind where it started |
| TokenWalker.Walk | src/slate.js:71-102 | the loop from index 0, no list name and an empty `data`; its behaviour is stated by the lemmas below and it is what `WalkFrontMatter` computes |
| TokenWalker.WalkFrontMatter | src/slate.js:71-102 | the loop, with its extra index bump inside the body, returns exactly `Walk(tokens)`, errors included |
| TokenWalker.TokenSkipped | src/slate.js:76-102 | a token that is not a paragraph, and is not a list item while a list is current, changes neither the list name nor the map |
| TokenWalker.ListParagraphStep | src/slate.js:88-93 | a paragraph before a list start makes its text minus the last character the current list, and sets that field to an empty list |
| TokenWalker.ScalarParagraphStep | src/slate.js:95-99 | any other paragraph stores the split value under the split key and keeps the list name |
| TokenWalker.ItemStep | src/slate.js:79-86 | a list item whose next token, of any kind, has a `text` appends `ItemValue` of that text to the current list (`shell` becomes `bash` in `language_tabs`) and resumes three tokens later |
| TokenWalker.ItemsAppendInOrder | src/slate.js:79-86 | a run of list items appends `Stored` of their texts (each item's `ItemValue`, so `shell` becomes `bash` in `language_tabs`) to the current list in token order and moves the index by three per item |
| TokenWalker.ListBlockOpens | src/slate.js:88-93 | a `name:` paragraph and a list start make `name` current and reset its field to `[]` |
| TokenWalker.ListBlockSetsField | src/slate.js:79-93 | a whole list block leaves its field holding exactly its stored items, whatever the field held before |
| TokenWalker.ParagraphField | src/slate.js:97-98 | for `k: v` followed by more `: `-separated text, the key is `k` and the value is `v`, the text between the first and second separator |
| TokenWalker.ParagraphWithoutSeparator | src/slate.js:97-98 | without a separator, the key is the whole text and the value is undefined |
| TokenWalker.ScalarParagraphSetsField | src/slate.js:95-99 | a `k: v` paragraph not before a list start sets the scalar `k` to `v`, and only that |
| TokenWalker.ListNameKept | src/slate.js:74-102 | without a list-introducing paragraph ahead, the current list name is never changed or cleared |
| TokenWalker.NoListNoItems | src/slate.js:79 | while no list name is set, the walk cannot fail, and every field it adds or changes is a scalar |
| TokenWalker.KeysOnlyGrow | src/slate.js:71-102 | fields are only added or overwritten, never removed |
| TokenWalker.SingleList | src/slate.js:88-93 | a front matter made of one list block yields exactly that list |
| TokenWalker.RepeatedListResets | src/slate.js:90-93 | a second list with the same name discards the first one's items |
| TokenWalker.LanguageTabsStored | src/slate.js:81-83 | in `language_tabs` an item `shell` is stored as `bash`; any other list stores its items as written |
| TokenWalker.ItemPastEndAtLast | src/slate.js:79-80 | a list item as the last token, while a list name is set, throws, whatever came before |
| TokenWalker.ItemAtEndFails | src/slate.js:79-80 | the smallest instance: `includes:`, a list start, and a list item as the last token throws |
| TokenWalker.ItemWithoutListSkipped | src/slate.js:79 | a list item as the last token while no list name is set is skipped without error |
| TokenWalker.ItemAfterShadowingScalarFails | src/slate.js:84 | a list item after its field was overwritten by a scalar of the same name throws |
| TokenWalker.PushOntoScalarFails | src/slate.js:79-84 | a list item while the current list name holds a scalar throws, naming that list |
| TokenWalker.ShadowedListFails | src/slate.js:79-99 | any token sequence that opens list `name`, then sets the scalar `name`, then starts an item, throws |
| Render.HighlightLanguage | src/slate.js:27-35 | the chosen language never contains `>`, and a language without `>` is kept |
| Render.HighlightLanguageAfterArrow | src/slate.js:28-32 | for `a>b` and `a>b>c` the language is `b`, the segment after the first `>` and before any second one |
| Render.ExampleLanguage | src/slate.js:28-32 | `api>json` is highlighted as `json` |
| Render.RunLength | src/slate.js:124-125 | a greedy `[^...]+` run: it avoids the stop characters and ends at a stop character or at the end |
| Render.MovePreAttributes | src/slate.js:124 | the first rewrite keeps the length |
| Render.MovePreKeepsCharacters | src/slate.js:124 | the first rewrite only reorders characters (same multiset) |
| Render.MovePreUnchangedIff | src/slate.js:124 | the first rewrite leaves a text unchanged if and only if `pre><code` followed by a non-`>` occurs nowhere in it |
| Render.MovePreSkipsUnmatched | src/slate.js:124 | a prefix at none of whose offsets a match starts is copied, and what follows it is rewritten as if on its own |
| Render.MovePreSkipsForeign | src/slate.js:124 | text without a `p` is copied and does not disturb what follows |
| Render.MovePreOne | src/slate.js:124 | one match: `pre><code ATTRS` becomes `pre ATTRS><code`, and the scan resumes at the `>` after ATTRS |
| Render.MovePreOnCodeBlock | src/slate.js:124 | on a rendered code block the attribute moves from `<code>` to `<pre>`, and the rest of the page after the attribute is rewritten as if on its own |
| Render.TrimHighlightClass | src/slate.js:125 | the second rewrite never lengthens the text |
| Render.TrimShortensIff | src/slate.js:125 | the second rewrite changes a text, and then shortens it, if and only if the pattern occurs in it |
| Render.TrimSkipsUnmatched | src/slate.js:125 | a prefix at none of whose offsets a match starts is copied, and what follows it is rewritten as if on its own |
| Render.TrimSkipsForeign | src/slate.js:125 | text without a `c` is copied and does not disturb what follows |
| Render.TrimSkipsCodeOpen | src/slate.js:125 | no match starts inside `><code`, so it is copied ahead of the rewritten rest |
| Render.TrimOne | src/slate.js:125 | one match: `class="highlight A&B"` becomes `class="highlight A"`, and the scan resumes after the quote |
| Render.NoQuoteNoClassMatch | src/slate.js:125 | without a `"` the second pattern cannot match |
| Render.TrimOnCodeBlock | src/slate.js:125 | on a moved code block the class keeps only its part before the `&`, and the rest of the page is rewritten as if on its own |
| Render.Fixups | src/slate.js:123-125 | both rewrites in order never lengthen the HTML, and leave HTML matching neither pattern unchanged |
| Render.FixupsOnCodeBlock | src/slate.js:123-125 | a block highlighted for `first>second` (escaped to `first&gt;second`) ends with `class="highlight first"` on `<pre>`, and the HTML after it is fixed up as if on its own |
| Render.FixupsAfterPrefix | src/slate.js:123-125 | HTML before a code block that holds neither `pre><code` nor `class="highlight ` is kept and does not disturb the block |
| Render.FixupsOnPlainBlock | src/slate.js:123-125 | a block highlighted for a language with no `&`, `"` or `>` gets `class="highlight <lang>"` on `<pre>` unchanged, and the HTML after it is fixed up as if on its own |
| Render.TrimOnPlainBlock | src/slate.js:125 | on a moved block whose class holds no `&` the class is kept whole, and the rest is rewritten as if on its own |
| Render.TrimAfterPlainClass | src/slate.js:125 | after a class value with no `&` and no `"` the second pattern skips to the text after `<code>` |
| Render.LangNoClass | src/slate.js:125 | no match of the second pattern starts inside a language name without `"` or its closing quote |
| Render.PlainClassNoMatch | src/slate.js:125 | the second pattern does not match at a class value free of `&` and `"` |
| Render.ClassMatchQuote | src/slate.js:125 | a match of the second pattern is at least 17 characters and has `"h` at offsets 6-7 |
| Render.PlainThenEscapedBlock | src/slate.js:123-125 | a page with a block for a plain language followed by a block for `first>second`: the first class moves onto `pre` whole, the second is cut to `first`, and the HTML around them is kept |
| Render.PrefixNoPreCode | src/slate.js:124 | no match of the first pattern starts in text without `pre><code` that is followed by `<p` |
| Render.PrefixNoClass | src/slate.js:125 | no match of the second pattern starts in text without `class="highlight ` that is followed by `<` |
| Render.TwoCodeBlocks | src/slate.js:123-125 | a page with two highlighted blocks, each after HTML free of both literal parts: both blocks get `class="highlight first"` on `<pre>` and nothing else before the second block changes |
| Compiler.IncludesLoader | src/slate.js:61 | the caller's loader when one is given, or else one that yields `''` for every name |
| Compiler.IncludeNames | src/slate.js:107 | no `includes` field gives no names; a list field gives its items in order |
| Compiler.Assembled | src/slate.js:104-117 | the markdown rendered: the body comes first, unchanged, and the includes only follow it |
| Compiler.AssembledInOrder | src/slate.js:104-117 | the rendered markdown is the body followed by every include's text, in declaration order, with nothing between |
| Compiler.CollectMarkdown | src/slate.js:104-110 | the pushed array holds the body, then one loaded text per include in order, and joins to the assembled markdown |
| Compiler.PageData | src/slate.js:123 | `content` is set last: it holds the HTML, overwriting a field named `content`, and every other field is kept |
| Compiler.Compile | src/slate.js:60-134 | the method computes `Compilation`, and fails for want of page settings exactly when the text has no delimiter |
| Compiler.Compilation | src/slate.js:60-134 | the whole compile; "No markdown page settings found!" happens exactly when the original text has no `---` delimiter line |
| Compiler.StandardPage | src/slate.js:60-128 | for `---\n FRONT \n---\n BODY` with no further delimiter, shell fences allowed: either the walk's error on the rewritten FRONT, or the template filled with its metadata and the fixed-up rendering of the rewritten BODY plus its includes |
| Compiler.WithoutIncludes | src/slate.js:104-110 | without an `includes` field only the body is rendered |
| Compiler.WithoutLoader | src/slate.js:61 | without a loader every include is `''`, so only the body is rendered |
| Compiler.PluginLoader | index.js:139-142 | the loader slate receives, the built-in loader bound to the document's path: `''` when the include's file cannot be read, its text otherwise |
| Compiler.OneUnreadableInclude | index.js:102-116 | one include that cannot be read contributes `''` in its slot, every other include keeps its text, and the markdown is the body followed by those texts in order |
| Compiler.UnreadableIncludesVanish | index.js:104-113 | includes whose files cannot be read add nothing to the rendered markdown |
| Paths.Dir | index.js:23-26 | the directory part is a prefix that is empty or ends in `/`, and no `/` follows it |
| Paths.BaseName | index.js:42 | the last segment of a path (`split('/').pop()`, as `PathSegments` states): it holds no `/` and follows the directory part to make up the path |
| Paths.ChangedFile | index.js:22-27 | what `changeFile` returns, the directory part followed by the new name; its properties are stated by the lemmas below |
| Paths.ChangeFile | index.js:22-27 | split at `/`, pop, push, join: the result is the directory part followed by the new name |
| Paths.PathSegments | index.js:23 | a path splits at `/` into its directory part's segments and its last segment |
| Paths.ReplaceLastSegment | index.js:23-26 | dropping the last segment and pushing the name joins to the directory part followed by the name |
| Paths.ChangedFileSegments | index.js:22-27 | for a name without `/`, the new path keeps every directory segment and its last segment is the name |
| Paths.ChangedFileWithoutDirectory | index.js:22-27 | a path without `/` yields exactly the name |
| Paths.ChangedFileTwice | index.js:22-27 | changing the file twice, the first time to a slash-free name, equals changing it once to the second name |
| Paths.FixFilename | index.js:37-43 | with an override the last segment becomes the override; without one it loses the first `.md` |
| Paths.FixFilenameStripsExtension | index.js:42 | without an override the directory part is kept and the last segment loses its first `.md`; without `.md` the path is unchanged; with one it is three characters shorter |
| Paths.IncludePath | index.js:105 | for a name `x` without `/`, the include is looked up as `_x.md` in the `includes/` directory beside the main file |
| Paths.LoadInclude | index.js:102-116 | the default loader yields the file's text, or `''` when the read fails |
| PluginOptions.Defaults | index.js:96-118 | the defaults object: `target`, `targetWrite`, `filename`, `template`, `logo` and the built-in `includeLoader` |
| PluginOptions.Merged | index.js:96-118 | the merged keys are the caller's plus the defaults'; every default key holds its default; caller keys without a default are kept |
| PluginOptions.Options.Extend | index.js:96 | `_.extend` copies every key of the source onto the object, one at a time: the new entries are the old ones overridden by the source |
| PluginOptions.ApplyDefaults | index.js:95-118 | the caller's object (or a fresh one) ends up holding the merge of its old entries with the defaults |
| PluginOptions.CallerCannotOverrideDefaults | index.js:96-118 | whatever the caller passes: `filename` is `false`, `targetWrite` is `true`, the include loader is the built-in one, and `target` and `template` are the defaults |

## Left out

- Asset building and the stream plumbing (`buildAssets`, gulp, sass, concat, uglify, through2, the template read, the write-back of the result, the `Promise.all` join and its logging, index.js:52-93, index.js:120-138 and index.js:143-161) are I/O and asynchronous orchestration. The loader closure at index.js:139-142 is modelled as `Compiler.PluginLoader`.
- File reads (index.js:104-116, index.js:135) are not performed. A read is a parameter whose `None` stands for a failed read. The message the default loader writes to the console when a read fails (`console.error('could not open include', …)`, index.js:109) is output only and is left out.
- The marked lexer and renderer and highlight.js (src/slate.js:13-39, 72, 116) are foreign libraries. Tokens and rendered HTML are inputs. Only the language handed to `highlight.highlight` is modelled, not its output.
- Handlebars and its helpers (src/slate.js:41-51, 128) are a foreign templating engine. The model stops at the data map handed to the compiled template, `fill`.
- The renderer's error path (src/slate.js:119-121) rejects and then goes on to dereference `content`, which is a runtime crash, not a specifiable behaviour.
- Promises are not modelled. Includes are already-resolved strings in slot order. A loader promise that rejects leaves the compile unsettled, and that case is left out.
- A code block without a language makes the highlight callback call `split` on `undefined`, inside the renderer. That case is left out with the renderer.
- Metadata keys are plain map keys. Keys inherited from JavaScript's `Object.prototype` (such as `toString`) are not modelled.
- Compiler.IncludeNames: a scalar `includes` value is iterated character by character, as lodash iterates a string. This follows the library's semantics rather than treating only lists.
- Paths.FixFilename: the override is a string whose falsy value is `""`. Other falsy values (`false`, `undefined`) are represented by `""`, which the plugin's merge always produces, since `filename` becomes `false`.
- PluginOptions: option values are a small datatype. Loader functions are told apart by an identifier.
- PluginOptions.ApplyDefaults: with no `opts` it returns a new object holding the defaults, which is what lodash 4's `_.extend` does. The lodash version is not pinned in the files modelled. Under lodash 3, `_.extend(undefined, …)` hands back `undefined` and the next line, `opts.targetWrite`, throws; that case is left out. Other non-object `opts` values are not modelled.
- Render.Fixups: its own contract only bounds the length and states the no-match case. What each rewrite does to a match is stated by the lemmas about `MovePreAttributes` and `TrimHighlightClass`.
- TokenWalker.ItemAtEndFails: one concrete token sequence; the general statement for a trailing list item is `ItemPastEndAtLast`, and the other error cases are stated in general by `PushOntoScalarFails` and `ShadowedListFails`.
- TokenWalker.DropLast: JavaScript strings are sequences of UTF-16 code units, while a Dafny `char` is a whole Unicode scalar value. `slice(0, -1)` on a list name ending in a character outside the Basic Multilingual Plane drops only half of its surrogate pair; the model drops the whole character.
- Compiler.IncludeNames: for the same reason, a scalar `includes` is iterated by whole characters here. lodash's `_.forEach` walks a string by index, so it visits UTF-16 code units and meets a character outside the Basic Multilingual Plane as two halves. The two agree on text inside that plane.
- test.js is a gulp invocation script with no logic of its own.
