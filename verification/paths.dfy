/**
 * The path helpers of the gulp plugin (index.js): replacing the last
 * `/`-segment of a path, naming the output file and locating an include.
 */
module Paths {
  import opened Wrappers
  import opened Strings

  const Slash: string := "/"
  const MarkdownExtension: string := ".md"

  /** The directory part of a path: everything up to and including its last `/`, or "" when it has none. */
  function Dir(path: string): (d: string)
    ensures |d| <= |path| && d == path[..|d|]
    ensures d == "" || d[|d| - 1] == '/'
    ensures '/' !in path[|d|..]
    decreases |path|
  {
    if |path| == 0 then ""
    else if path[|path| - 1] == '/' then path
    else
      var d := Dir(path[..|path| - 1]);
      assert path[..|path| - 1][..|d|] == path[..|d|];
      assert path[|d|..] == path[..|path| - 1][|d|..] + [path[|path| - 1]];
      d
  }

  /** The last segment of a path: what `path.split('/').pop()` yields (see `PathSegments`). */
  function BaseName(path: string): (b: string)
    ensures Dir(path) + b == path
    ensures '/' !in b
  {
    path[|Dir(path)|..]
  }

  /** What replacing the last segment of `path` by `name` yields: the directory part followed by `name`. */
  function ChangedFile(path: string, name: string): string
  {
    Dir(path) + name
  }

  /** The directory part of `d + name`, for a directory part `d` and a name without `/`, is `d`. */
  lemma {:induction false} DirOfJoined(d: string, name: string)
    requires d == "" || d[|d| - 1] == '/'
    requires '/' !in name
    ensures Dir(d + name) == d
    decreases |name|
  {
    if name == "" {
      assert d + name == d;
    } else {
      var init := name[..|name| - 1];
      assert name[|name| - 1] in name;
      assert (d + name)[..|d + name| - 1] == d + init;
      assert forall c :: c in init ==> c in name;
      DirOfJoined(d, init);
    }
  }

  /** A path splits at `/` into the segments of its directory part and its last segment. */
  lemma {:induction false} PathSegments(path: string)
    ensures Dir(path) == "" ==> SplitOn(path, Slash) == [path]
    ensures Dir(path) != "" ==>
      SplitOn(path, Slash) == SplitOn(Dir(path)[..|Dir(path)| - 1], Slash) + [BaseName(path)]
  {
    var d := Dir(path);
    var base := BaseName(path);
    ContainsChar(base, '/');
    if d == "" {
      assert path == base;
    } else {
      var front := d[..|d| - 1];
      assert path == front + ['/'] + base;
      SplitOnAroundChar(front, '/', base);
      assert SplitOn(base, Slash) == [base];
    }
  }

  /**
   * Replaces the last `/`-segment of `path` by `name`: split at every `/`,
   * drop the last segment, push `name`, join again with `/`.
   */
  method ChangeFile(path: string, name: string) returns (r: string)
    ensures r == ChangedFile(path, name)
  {
    var parts := SplitOn(path, Slash);
    parts := parts[..|parts| - 1];
    parts := parts + [name];
    r := Join(parts, Slash);
    ReplaceLastSegment(path, name);
  }

  /** Dropping the last `/`-segment and pushing `name` joins to the directory part followed by `name`. */
  lemma {:induction false} ReplaceLastSegment(path: string, name: string)
    ensures var parts := SplitOn(path, Slash);
            Join(parts[..|parts| - 1] + [name], Slash) == ChangedFile(path, name)
  {
    PathSegments(path);
    var d := Dir(path);
    if d != "" {
      var front := d[..|d| - 1];
      var init := SplitOn(front, Slash);
      DropLastSegment(init, BaseName(path));
      JoinAppend(init, name, Slash);
      DirParts(d);
    } else {
      DropLastSegment([], path);
    }
  }

  /** The new path keeps the old directory part and ends in `name`. */
  lemma {:induction false} ChangedFileSegments(path: string, name: string)
    requires '/' !in name
    ensures Dir(ChangedFile(path, name)) == Dir(path)
    ensures BaseName(ChangedFile(path, name)) == name
  {
    DirOfJoined(Dir(path), name);
  }

  /** A path without a `/` is replaced whole. */
  lemma {:induction false} ChangedFileWithoutDirectory(path: string, name: string)
    requires '/' !in path
    ensures ChangedFile(path, name) == name
  {
    assert path[0..] == path;
    DirOfJoined("", path);
    assert "" + path == path;
  }

  /** Replacing the last segment twice is replacing it once with the second name. */
  lemma {:induction false} ChangedFileTwice(path: string, a: string, b: string)
    requires '/' !in a
    ensures ChangedFile(ChangedFile(path, a), b) == ChangedFile(path, b)
  {
    ChangedFileSegments(path, a);
  }

  /**
   * The output file name: the override's last-segment replacement when the
   * override is truthy (a non-empty string here), otherwise the path with the
   * first `.md` of its last segment removed.
   */
  function FixFilename(name: string, override: string): (r: string)
    ensures override != "" ==> r == ChangedFile(name, override)
    ensures override == "" ==> r == ChangedFile(name, RemoveFirst(BaseName(name), MarkdownExtension))
  {
    if override != "" then ChangedFile(name, override)
    else
      var segments := SplitOn(name, Slash);
      PathSegments(name);
      ChangedFile(name, RemoveFirst(segments[|segments| - 1], MarkdownExtension))
  }

  /** Removing part of a segment leaves it without `/`. */
  lemma {:induction false} RemoveFirstKeepsSlashFree(s: string, w: string)
    requires |w| > 0 && '/' !in s
    ensures '/' !in RemoveFirst(s, w)
  {
    if Contains(s, w) {
      var i: nat :| OccursAt(s, w, i) && RemoveFirst(s, w) == s[..i] + s[i + |w|..];
      assert forall c :: c in s[..i] + s[i + |w|..] ==> c in s;
    }
  }

  /**
   * Without an override the directory part is kept, the last segment loses
   * its first `.md`, and a last segment without `.md` leaves the path as it is.
   */
  lemma {:induction false} FixFilenameStripsExtension(name: string)
    ensures Dir(FixFilename(name, "")) == Dir(name)
    ensures BaseName(FixFilename(name, "")) == RemoveFirst(BaseName(name), MarkdownExtension)
    ensures !Contains(BaseName(name), MarkdownExtension) ==> FixFilename(name, "") == name
    ensures Contains(BaseName(name), MarkdownExtension) ==> |FixFilename(name, "")| == |name| - 3
  {
    var base := BaseName(name);
    var stripped := RemoveFirst(base, MarkdownExtension);
    FixFilenameParts(name);
    RemoveFirstKeepsSlashFree(base, MarkdownExtension);
    ChangedFileSegments(name, stripped);
  }

  lemma FixFilenameParts(name: string)
    ensures FixFilename(name, "") == Dir(name) + RemoveFirst(BaseName(name), MarkdownExtension)
    ensures name == Dir(name) + BaseName(name)
    ensures '/' !in BaseName(name)
  {
    DirAndBase(name);
  }

  lemma DirAndBase(path: string)
    ensures path == Dir(path) + BaseName(path)
    ensures '/' !in BaseName(path)
  {
    var d := Dir(path);
    assert path == path[..|d|] + path[|d|..];
  }

  /** Where the default loader looks for the include `name`: `includes/_NAME.md` beside the main file. */
  function IncludePath(mainFile: string, name: string): (p: string)
    ensures '/' !in name ==> Dir(p) == Dir(mainFile) + "includes/"
    ensures '/' !in name ==> BaseName(p) == "_" + name + MarkdownExtension
  {
    var p := ChangedFile(mainFile, "includes/_" + name + MarkdownExtension);
    assert p == (Dir(mainFile) + "includes/") + ("_" + name + MarkdownExtension);
    assert '/' !in name ==> '/' !in "_" + name + MarkdownExtension;
    if '/' in name then p
    else
      DirOfJoined(Dir(mainFile) + "includes/", "_" + name + MarkdownExtension);
      p
  }

  /**
   * The default include loader, given the outcome of reading a file
   * (`None` when the read fails): the file's text, or "" when it cannot be read.
   */
  function LoadInclude(mainFile: string, name: string, read: string -> Option<string>): (text: string)
    ensures read(IncludePath(mainFile, name)).None? ==> text == ""
    ensures read(IncludePath(mainFile, name)).Some? ==> text == read(IncludePath(mainFile, name)).value
  {
    match read(IncludePath(mainFile, name))
    case None => ""
    case Some(source) => source
  }

  // ---------------------------------------------------------------------
  // Regrouping helpers: slices of segment lists, stated once so that the proofs
  // above need not rediscover them

  lemma DropLastSegment(init: seq<string>, last: string)
    ensures var parts := init + [last]; parts[..|parts| - 1] == init
  {
    var parts := init + [last];
    assert parts[..|parts| - 1] == init;
  }

  lemma DirParts(d: string)
    requires d != "" && d[|d| - 1] == '/'
    ensures d == d[..|d| - 1] + Slash
  {
  }
}
