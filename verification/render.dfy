/**
 * What the compiler does around the markdown renderer (src/slate.js): the
 * language it hands to the highlighter (lines 27-35) and the two global
 * regular-expression replacements applied to the rendered HTML (lines
 * 123-126), written out as left-to-right scanners.
 */
module Render {
  import opened Strings

  // ---------------------------------------------------------------------
  // The highlight callback

  /**
   * The language the highlighter is asked for: a code block's language
   * `example>lang` is highlighted as `lang`, the part after the first `>`
   * (up to the next `>`, since the split keeps only two pieces).
   */
  function HighlightLanguage(lang: string): (r: string)
    ensures '>' !in r
    ensures '>' !in lang ==> r == lang
  {
    var parts := SplitOn(lang, ">");
    ContainsChar(parts[0], '>');
    if |parts| >= 2 then
      ContainsChar(parts[1], '>');
      parts[1]
    else
      assert lang == parts[0];
      lang
  }

  /** The pieces of a string without `>`, split at `>`. */
  lemma SplitArrowFree(x: string)
    requires '>' !in x
    ensures SplitOn(x, ">") == [x]
  {
    ContainsChar(x, '>');
  }

  /** After a first `>` the language is the following segment, up to a second `>` if there is one. */
  lemma HighlightLanguageAfterArrow(a: string, b: string, c: string)
    requires '>' !in a && '>' !in b
    ensures HighlightLanguage(a + ">" + b) == b
    ensures HighlightLanguage(a + ">" + b + ">" + c) == b
  {
    SplitArrowFree(a);
    SplitArrowFree(b);
    SplitOnAroundChar(a, '>', b);
    assert a + ">" + b == a + ['>'] + b;
    var y := b + ">" + c;
    assert a + ">" + b + ">" + c == a + ['>'] + y;
    assert y == b + ['>'] + c;
    SplitOnAroundChar(b, '>', c);
    SplitOnAroundChar(a, '>', y);
  }

  /** A language written `api>json` is highlighted as JSON. */
  lemma ExampleLanguage()
    ensures HighlightLanguage("api>json") == "json"
  {
    assert "api>json" == "api" + ">" + "json";
    HighlightLanguageAfterArrow("api", "json", "");
  }

  // ---------------------------------------------------------------------
  // Maximal runs, the regular expressions' greedy character classes

  /** No character of `x` is one of `stops`. */
  predicate Avoids(x: string, stops: set<char>)
  {
    forall k :: 0 <= k < |x| ==> x[k] !in stops
  }

  /** The length of the longest prefix of `s` that avoids `stops`: what `[^...]+` matches greedily. */
  function RunLength(s: string, stops: set<char>): (n: nat)
    ensures n <= |s| && Avoids(s[..n], stops)
    ensures n == |s| || s[n] in stops
  {
    if |s| == 0 || s[0] in stops then 0
    else
      var m := RunLength(s[1..], stops);
      assert s[..m + 1] == [s[0]] + s[1..][..m];
      m + 1
  }

  /** The run is exactly `x` when `x` avoids the stops and is followed by one or by the end. */
  lemma {:induction false} RunLengthOf(x: string, y: string, stops: set<char>)
    requires Avoids(x, stops) && (y == "" || y[0] in stops)
    ensures RunLength(x + y, stops) == |x|
    decreases |x|
  {
    if |x| > 0 {
      var s := x + y;
      assert s[0] == x[0] && s[1..] == x[1..] + y;
      RunLengthOf(x[1..], y, stops);
    } else {
      assert x + y == y;
    }
  }

  // ---------------------------------------------------------------------
  // First replacement: `pre><code ATTRS` becomes `pre ATTRS><code`

  const Pre: string := "pre"
  const CodeOpen: string := "><code"
  /** `pre><code`, the literal part of the first pattern */
  const PreCode: string := Pre + CodeOpen

  /** The pattern `pre><code([^>]+)` matches at `i`. */
  predicate PreCodeMatchAt(s: string, i: nat)
  {
    OccursAt(s, PreCode, i) && i + 9 < |s| && s[i + 9] != '>'
  }

  ghost predicate HasPreCodeMatch(s: string)
  {
    exists i: nat :: PreCodeMatchAt(s, i)
  }

  /**
   * Moves the attributes the renderer puts on `<code>` onto `<pre>`, at
   * every match, scanning left to right and resuming after each match.
   * It only reorders characters.
   */
  function MovePreAttributes(s: string): (r: string)
    ensures |r| == |s|
    decreases |s|
  {
    if |s| == 0 then s
    else if PreCodeMatchAt(s, 0) then
      var n := RunLength(s[9..], {'>'});
      Pre + s[9..9 + n] + CodeOpen + MovePreAttributes(s[9 + n..])
    else
      [s[0]] + MovePreAttributes(s[1..])
  }

  /** The first replacement only reorders characters. */
  lemma {:induction false} MovePreKeepsCharacters(s: string)
    ensures multiset(MovePreAttributes(s)) == multiset(s)
    decreases |s|
  {
    if |s| == 0 {
    } else if PreCodeMatchAt(s, 0) {
      var n := RunLength(s[9..], {'>'});
      MovePreKeepsCharacters(s[9 + n..]);
      MatchedCharacters(s, n);
    } else {
      MovePreKeepsCharacters(s[1..]);
      CopyStep(s);
      CopiedCharacter(s[0], s[1..], MovePreAttributes(s), MovePreAttributes(s[1..]));
      assert s == [s[0]] + s[1..];
    }
  }

  lemma CopyStep(s: string)
    requires |s| > 0 && !PreCodeMatchAt(s, 0)
    ensures MovePreAttributes(s) == [s[0]] + MovePreAttributes(s[1..])
  {
  }

  /** Copying a character in front of a reordering of `rest` reorders `[c] + rest`. */
  lemma CopiedCharacter(c: char, rest: string, r: string, m: string)
    requires r == [c] + m && multiset(m) == multiset(rest)
    ensures multiset(r) == multiset([c] + rest)
  {
  }

  /** The characters of a text and of its rewriting, at a match whose attributes are `n` long. */
  lemma MatchedCharacters(s: string, n: nat)
    requires PreCodeMatchAt(s, 0) && n == RunLength(s[9..], {'>'})
    ensures multiset(s) == multiset(PreCode) + multiset(s[9..9 + n]) + multiset(s[9 + n..])
    ensures multiset(MovePreAttributes(s))
      == multiset(PreCode) + multiset(s[9..9 + n]) + multiset(MovePreAttributes(s[9 + n..]))
  {
    var attrs, rest := s[9..9 + n], s[9 + n..];
    MatchParts(s, n);
    ThreeParts(PreCode, attrs, rest);
    var m := MovePreAttributes(rest);
    MovedMultiset(Pre, CodeOpen, attrs, m);
  }

  lemma MatchParts(s: string, n: nat)
    requires OccursAt(s, PreCode, 0) && 9 + n <= |s|
    ensures s == PreCode + s[9..9 + n] + s[9 + n..]
  {
    assert s[..9] == PreCode;
    assert s == s[..9] + s[9..9 + n] + s[9 + n..];
  }

  lemma ThreeParts(a: string, b: string, c: string)
    ensures multiset(a + b + c) == multiset(a) + multiset(b) + multiset(c)
  {
  }

  lemma MovedMultiset(x: string, y: string, attrs: string, m: string)
    ensures multiset(x + attrs + y + m) == multiset(x) + multiset(y) + multiset(attrs) + multiset(m)
  {
  }

  lemma PreCodeMatchShift(s: string, i: nat)
    requires |s| > 0
    ensures PreCodeMatchAt(s[1..], i) <==> PreCodeMatchAt(s, i + 1)
  {
    assert s == [s[0]] + s[1..];
    OccursAtShift([s[0]], s[1..], PreCode, i);
  }

  /** Away from the start, a match in `s` is a match in its tail. */
  lemma PreCodeMatchInTail(s: string)
    requires |s| > 0 && !PreCodeMatchAt(s, 0)
    ensures HasPreCodeMatch(s) <==> HasPreCodeMatch(s[1..])
  {
    if HasPreCodeMatch(s) {
      var i: nat :| PreCodeMatchAt(s, i);
      PreCodeMatchShift(s, i - 1);
    }
    if HasPreCodeMatch(s[1..]) {
      var i: nat :| PreCodeMatchAt(s[1..], i);
      PreCodeMatchShift(s, i);
    }
  }

  /** The first replacement leaves a text alone exactly when the pattern does not occur in it. */
  lemma {:induction false} MovePreUnchangedIff(s: string)
    ensures MovePreAttributes(s) == s <==> !HasPreCodeMatch(s)
    decreases |s|
  {
    if |s| == 0 {
    } else if PreCodeMatchAt(s, 0) {
      var r := MovePreAttributes(s);
      assert r[3] == s[9] && s[3] == '>';
    } else {
      MovePreUnchangedIff(s[1..]);
      PreCodeMatchInTail(s);
      assert MovePreAttributes(s) == [s[0]] + MovePreAttributes(s[1..]);
      assert s == [s[0]] + s[1..];
    }
  }

  /** A prefix in which no match starts is copied through unchanged and does not disturb what follows. */
  lemma {:induction false} MovePreSkipsUnmatched(a: string, t: string)
    requires forall i: nat :: i < |a| ==> !PreCodeMatchAt(a + t, i)
    ensures MovePreAttributes(a + t) == a + MovePreAttributes(t)
    decreases |a|
  {
    if |a| > 0 {
      UnmatchedTail(a, t);
      MovePreSkipsUnmatched(a[1..], t);
      MovePreSkipStep(a, t);
    } else {
      assert a + t == t;
    }
  }

  /** One step of `MovePreSkipsUnmatched`: an unmatched first character is copied ahead of the rest. */
  lemma MovePreSkipStep(a: string, t: string)
    requires |a| > 0 && !PreCodeMatchAt(a + t, 0)
    requires MovePreAttributes(a[1..] + t) == a[1..] + MovePreAttributes(t)
    ensures MovePreAttributes(a + t) == a + MovePreAttributes(t)
  {
    var s := a + t;
    CopyStep(s);
    CutAt(a, t, 1);
    ConsRegroup(a, s[0], MovePreAttributes(s), MovePreAttributes(s[1..]), MovePreAttributes(t));
  }

  /** Dropping the first character keeps a prefix free of matches. */
  lemma UnmatchedTail(a: string, t: string)
    requires |a| > 0 && forall i: nat :: i < |a| ==> !PreCodeMatchAt(a + t, i)
    ensures !PreCodeMatchAt(a + t, 0)
    ensures forall i: nat :: i < |a| - 1 ==> !PreCodeMatchAt(a[1..] + t, i)
  {
    var s := a + t;
    assert s[1..] == a[1..] + t;
    forall i: nat | i < |a| - 1 ensures !PreCodeMatchAt(a[1..] + t, i) {
      PreCodeMatchShift(s, i);
    }
  }

  /** Text without a `p` is copied through unchanged and does not disturb what follows. */
  lemma MovePreSkipsForeign(a: string, t: string)
    requires 'p' !in a
    ensures MovePreAttributes(a + t) == a + MovePreAttributes(t)
  {
    forall i: nat | i < |a| ensures !PreCodeMatchAt(a + t, i) {
      assert (a + t)[i] == a[i] != PreCode[0];
      if i + 9 <= |a + t| { assert (a + t)[i..i + 9][0] == (a + t)[i]; }
    }
    MovePreSkipsUnmatched(a, t);
  }

  /** One match: the attributes move in front of `><code`, and scanning resumes at the `>` after them. */
  lemma {:induction false} MovePreOne(attrs: string, b: string)
    requires attrs != "" && '>' !in attrs && (b == "" || b[0] == '>')
    ensures MovePreAttributes(PreCode + attrs + b) == Pre + attrs + CodeOpen + MovePreAttributes(b)
  {
    var s := PreCode + attrs + b;
    assert s[9..] == attrs + b;
    RunLengthOf(attrs, b, {'>'});
    assert s[9..9 + |attrs|] == attrs && s[9 + |attrs|..] == b;
    assert s[0..9] == PreCode;
    assert s[9] == attrs[0] && attrs[0] != '>';
    assert PreCodeMatchAt(s, 0);
  }

  // ---------------------------------------------------------------------
  // Second replacement: `class="highlight A&B"` becomes `class="highlight A"`

  const HighlightClass: string := "class=\"highlight "

  /**
   * The pattern `class="highlight ([^&"]+)&([^"]+)"` matches at the start of
   * `s`; the greedy classes leave no choice, so the match is determined by
   * the two maximal runs.
   */
  predicate ClassMatchAtStart(s: string)
  {
    OccursAt(s, HighlightClass, 0) &&
    var t := s[17..];
    var n1 := RunLength(t, {'&', '"'});
    n1 > 0 && n1 < |t| && t[n1] == '&' &&
    var u := t[n1 + 1..];
    var n2 := RunLength(u, {'"'});
    n2 > 0 && n2 < |u|
  }

  ghost predicate HasClassMatch(s: string)
  {
    exists i: nat :: i <= |s| && ClassMatchAtStart(s[i..])
  }

  /**
   * Cuts a highlight class down to its first `&`-separated part (the
   * renderer escapes `>` in a language such as `api>json`), at every match.
   */
  function TrimHighlightClass(s: string): (r: string)
    ensures |r| <= |s|
    decreases |s|
  {
    if |s| == 0 then s
    else if ClassMatchAtStart(s) then
      var t := s[17..];
      var n1 := RunLength(t, {'&', '"'});
      var u := t[n1 + 1..];
      var n2 := RunLength(u, {'"'});
      HighlightClass + t[..n1] + "\"" + TrimHighlightClass(u[n2 + 1..])
    else
      [s[0]] + TrimHighlightClass(s[1..])
  }

  /** Each match drops its `&` and everything after it up to the closing quote. */
  lemma {:induction false} TrimShortensIff(s: string)
    ensures TrimHighlightClass(s) == s <==> !HasClassMatch(s)
    ensures |TrimHighlightClass(s)| < |s| <==> HasClassMatch(s)
    decreases |s|
  {
    if |s| == 0 {
    } else if ClassMatchAtStart(s) {
      assert s[0..] == s;
      var t := s[17..];
      var n1 := RunLength(t, {'&', '"'});
      var u := t[n1 + 1..];
      var n2 := RunLength(u, {'"'});
      assert |TrimHighlightClass(s)| <= 17 + n1 + 1 + |u[n2 + 1..]|;
    } else {
      TrimShortensIff(s[1..]);
      assert s == [s[0]] + s[1..];
      if HasClassMatch(s) {
        var i: nat :| i <= |s| && ClassMatchAtStart(s[i..]);
        assert i > 0 by { assert s[0..] == s; }
        assert s[1..][i - 1..] == s[i..];
      }
      if HasClassMatch(s[1..]) {
        var i: nat :| i <= |s[1..]| && ClassMatchAtStart(s[1..][i..]);
        assert s[1..][i..] == s[i + 1..];
      }
    }
  }

  /** A prefix in which no match starts is copied through unchanged and does not disturb what follows. */
  lemma {:induction false} TrimSkipsUnmatched(a: string, t: string)
    requires forall i: nat :: i < |a| ==> !ClassMatchAtStart((a + t)[i..])
    ensures TrimHighlightClass(a + t) == a + TrimHighlightClass(t)
    decreases |a|
  {
    if |a| > 0 {
      UnmatchedClassTail(a, t);
      TrimSkipsUnmatched(a[1..], t);
      TrimSkipStep(a, t);
    } else {
      assert a + t == t;
    }
  }

  /** One step of `TrimSkipsUnmatched`: an unmatched first character is copied ahead of the rest. */
  lemma TrimSkipStep(a: string, t: string)
    requires |a| > 0 && !ClassMatchAtStart(a + t)
    requires TrimHighlightClass(a[1..] + t) == a[1..] + TrimHighlightClass(t)
    ensures TrimHighlightClass(a + t) == a + TrimHighlightClass(t)
  {
    var s := a + t;
    TrimCopies(s);
    CutAt(a, t, 1);
    ConsRegroup(a, s[0], TrimHighlightClass(s), TrimHighlightClass(s[1..]), TrimHighlightClass(t));
  }

  /** Where no match starts, the second replacement copies the first character. */
  lemma TrimCopies(s: string)
    requires |s| > 0 && !ClassMatchAtStart(s)
    ensures TrimHighlightClass(s) == [s[0]] + TrimHighlightClass(s[1..])
  {
  }

  /** Dropping the first character keeps a prefix free of matches. */
  lemma UnmatchedClassTail(a: string, t: string)
    requires |a| > 0 && forall i: nat :: i < |a| ==> !ClassMatchAtStart((a + t)[i..])
    ensures !ClassMatchAtStart(a + t)
    ensures forall i: nat :: i < |a| - 1 ==> !ClassMatchAtStart((a[1..] + t)[i..])
  {
    var s := a + t;
    assert s[0..] == s;
    forall i: nat | i < |a| - 1 ensures !ClassMatchAtStart((a[1..] + t)[i..]) {
      assert (a[1..] + t)[i..] == s[i + 1..];
    }
  }

  /** Text without a `c` is copied through unchanged and does not disturb what follows. */
  lemma TrimSkipsForeign(a: string, t: string)
    requires 'c' !in a
    ensures TrimHighlightClass(a + t) == a + TrimHighlightClass(t)
  {
    forall i: nat | i < |a| ensures !ClassMatchAtStart((a + t)[i..]) {
      ClassMatchHead((a + t)[i..]);
      assert (a + t)[i..][0] == a[i];
    }
    TrimSkipsUnmatched(a, t);
  }

  /** A match of the second pattern starts with `cl`. */
  lemma ClassMatchHead(x: string)
    ensures ClassMatchAtStart(x) ==> |x| >= 2 && x[0] == 'c' && x[1] == 'l'
  {
    if ClassMatchAtStart(x) {
      assert x[..17][0] == x[0] && x[..17][1] == x[1];
    }
  }

  /** One match: the class keeps the part before the `&`, and scanning resumes after the closing quote. */
  lemma {:induction false} TrimOne(first: string, second: string, b: string)
    requires first != "" && Avoids(first, {'&', '"'})
    requires second != "" && Avoids(second, {'"'})
    ensures TrimHighlightClass(HighlightClass + first + "&" + second + "\"" + b)
         == HighlightClass + first + "\"" + TrimHighlightClass(b)
  {
    var u := second + ("\"" + b);
    var t := first + ("&" + u);
    Nest(HighlightClass, first, "&", second, "\"", b);
    RunLengthOf(first, "&" + u, {'&', '"'});
    RunLengthOf(second, "\"" + b, {'"'});
    MarkedSplit(first, '&', u);
    MarkedSplit(second, '"', b);
    TrimAtMatch(HighlightClass + t, t, |first|, u, |second|);
  }

  /** The second replacement at a match, with the match's parts named. */
  lemma TrimAtMatch(s: string, t: string, n1: nat, u: string, n2: nat)
    requires OccursAt(s, HighlightClass, 0) && t == s[17..]
    requires n1 == RunLength(t, {'&', '"'}) && 0 < n1 < |t| && t[n1] == '&' && u == t[n1 + 1..]
    requires n2 == RunLength(u, {'"'}) && 0 < n2 < |u|
    ensures TrimHighlightClass(s) == HighlightClass + t[..n1] + "\"" + TrimHighlightClass(u[n2 + 1..])
  {
    ClassMatchFromParts(s, t, n1, u, n2);
    TrimAtClassMatch(s, t, n1, u, n2);
  }

  lemma ClassMatchFromParts(s: string, t: string, n1: nat, u: string, n2: nat)
    requires OccursAt(s, HighlightClass, 0) && t == s[17..]
    requires n1 == RunLength(t, {'&', '"'}) && 0 < n1 < |t| && t[n1] == '&' && u == t[n1 + 1..]
    requires n2 == RunLength(u, {'"'}) && 0 < n2 < |u|
    ensures ClassMatchAtStart(s)
  {
  }

  lemma TrimAtClassMatch(s: string, t: string, n1: nat, u: string, n2: nat)
    requires ClassMatchAtStart(s) && t == s[17..]
    requires n1 == RunLength(t, {'&', '"'}) && u == t[n1 + 1..]
    requires n2 == RunLength(u, {'"'})
    ensures TrimHighlightClass(s) == HighlightClass + t[..n1] + "\"" + TrimHighlightClass(u[n2 + 1..])
  {
  }

  /** A text, a mark and the rest, cut at the mark. */
  lemma MarkedSplit(x: string, c: char, y: string)
    ensures ([c] + y)[0] == c
    ensures (x + ([c] + y))[|x|] == c && (x + ([c] + y))[..|x|] == x && (x + ([c] + y))[|x| + 1..] == y
  {
  }

  // ---------------------------------------------------------------------
  // Both replacements

  /** The two replacements, in the order the compiler applies them. */
  function Fixups(html: string): (r: string)
    ensures |r| <= |html|
    ensures !HasPreCodeMatch(html) && !HasClassMatch(html) ==> r == html
  {
    MovePreUnchangedIff(html);
    TrimShortensIff(MovePreAttributes(html));
    TrimHighlightClass(MovePreAttributes(html))
  }

  /** Without a double quote there is nothing for the second replacement to match. */
  lemma {:induction false} NoQuoteNoClassMatch(x: string)
    requires '"' !in x
    ensures !HasClassMatch(x)
  {
    forall i: nat | i <= |x| ensures !ClassMatchAtStart(x[i..]) {
      assert HighlightClass[6] == '"';
      if i + 17 <= |x| {
        assert x[i..][0..17][6] == x[i + 6];
      }
    }
  }

  /** A code block as the renderer writes it: `<pre><code ATTR` followed by `>`, the code and the closing tags. */
  function CodeBlock(attr: string, b: string): string
  {
    "<" + PreCode + " " + attr + b
  }

  /** The same block with the attribute moved onto `pre`. */
  function MovedBlock(attr: string, b: string): string
  {
    "<" + Pre + " " + attr + CodeOpen + b
  }

  /** The class attribute the renderer writes for the language `lang`. */
  function HighlightAttr(lang: string): string
  {
    HighlightClass + lang + "\""
  }

  /**
   * The first replacement on a code block: the attribute moves from `code`
   * to `pre`, and what follows the tag is rewritten on its own.
   */
  lemma {:induction false} MovePreOnCodeBlock(attr: string, b: string)
    requires '>' !in attr && (b == "" || b[0] == '>')
    ensures MovePreAttributes(CodeBlock(attr, b)) == MovedBlock(attr, MovePreAttributes(b))
  {
    var attrs := " " + attr;
    var t := PreCode + attrs + b;
    Regroup("<", PreCode, " ", attr, b);
    MovePreSkipsForeign("<", t);
    MovePreOne(attrs, b);
    RegroupMoved("<", Pre, " ", attr, CodeOpen, MovePreAttributes(b));
  }

  /**
   * The second replacement on a moved block: the class loses its second
   * part, and what follows the tag is rewritten on its own.
   */
  lemma {:induction false} TrimOnCodeBlock(first: string, second: string, m: string)
    requires first != "" && Avoids(first, {'&', '"'})
    requires second != "" && Avoids(second, {'"'})
    ensures TrimHighlightClass(MovedBlock(HighlightAttr(first + "&" + second), m))
         == MovedBlock(HighlightAttr(first), TrimHighlightClass(m))
  {
    var front, rest := "<" + Pre + " ", CodeOpen + m;
    MovedBlockParts(first + "&" + second, m);
    Flatten(HighlightClass, first, "&", second, "\"", rest);
    TrimSkipsForeign(front, HighlightClass + first + "&" + second + "\"" + rest);
    TrimOne(first, second, rest);
    TrimSkipsCodeOpen(m);
    MovedBlockParts(first, TrimHighlightClass(m));
  }

  /** No match of the second pattern starts inside `><code`. */
  lemma TrimSkipsCodeOpen(m: string)
    ensures TrimHighlightClass(CodeOpen + m) == CodeOpen + TrimHighlightClass(m)
  {
    var s := CodeOpen + m;
    forall i: nat | i < |CodeOpen| ensures !ClassMatchAtStart(s[i..]) {
      ClassMatchHead(s[i..]);
      assert s[i..][0] == CodeOpen[i];
      if i < 5 { assert s[i..][1] == CodeOpen[i + 1]; }
    }
    TrimSkipsUnmatched(CodeOpen, m);
  }

  /**
   * A highlighted code block whose language `first>second` the renderer
   * escaped to `first&gt;second` ends up with the class on `pre`, cut down
   * to the first part; the HTML after the tag, which may hold further code
   * blocks, is fixed up on its own.
   */
  lemma {:induction false} FixupsOnCodeBlock(first: string, second: string, b: string)
    requires first != "" && Avoids(first, {'&', '"', '>'})
    requires second != "" && Avoids(second, {'"', '>'})
    requires b == "" || b[0] == '>'
    ensures Fixups(CodeBlock(HighlightAttr(first + "&" + second), b)) == MovedBlock(HighlightAttr(first), Fixups(b))
  {
    var attr := HighlightAttr(first + "&" + second);
    assert '>' !in attr by {
      assert '>' !in HighlightClass;
      assert forall k :: 0 <= k < |first| ==> first[k] != '>';
      assert forall k :: 0 <= k < |second| ==> second[k] != '>';
    }
    MovePreOnCodeBlock(attr, b);
    TrimOnCodeBlock(first, second, MovePreAttributes(b));
  }

  /**
   * A code block highlighted for a plain language such as `ruby`: the first
   * replacement moves the class onto `pre`, the second leaves it alone, and
   * the HTML after the tag is fixed up on its own.
   */
  lemma FixupsOnPlainBlock(lang: string, b: string)
    requires Avoids(lang, {'&', '"', '>'})
    requires b == "" || b[0] == '>'
    ensures Fixups(CodeBlock(HighlightAttr(lang), b)) == MovedBlock(HighlightAttr(lang), Fixups(b))
  {
    var attr := HighlightAttr(lang);
    assert '>' !in attr by {
      assert '>' !in HighlightClass;
      assert forall k :: 0 <= k < |lang| ==> lang[k] != '>';
    }
    assert Avoids(lang, {'&', '"'});
    MovePreOnCodeBlock(attr, b);
    TrimOnPlainBlock(lang, MovePreAttributes(b));
  }

  /** The second replacement leaves a moved block with a plain language as it is. */
  lemma TrimOnPlainBlock(lang: string, m: string)
    requires Avoids(lang, {'&', '"'})
    ensures TrimHighlightClass(MovedBlock(HighlightAttr(lang), m)) == MovedBlock(HighlightAttr(lang), TrimHighlightClass(m))
  {
    var front := "<" + Pre + " ";
    MovedBlockParts(lang, m);
    MovedBlockParts(lang, TrimHighlightClass(m));
    Nest3(HighlightClass, lang, "\"", CodeOpen + m);
    Nest3(HighlightClass, lang, "\"", CodeOpen + TrimHighlightClass(m));
    assert 'c' !in front;
    TrimSkipsForeign(front, HighlightClass + ((lang + "\"") + (CodeOpen + m)));
    TrimAfterPlainClass(lang, m);
  }

  /** After `class="highlight ` with a plain language, nothing matches before `><code`. */
  lemma TrimAfterPlainClass(lang: string, m: string)
    requires Avoids(lang, {'&', '"'})
    ensures TrimHighlightClass(HighlightClass + ((lang + "\"") + (CodeOpen + m)))
         == HighlightClass + ((lang + "\"") + (CodeOpen + TrimHighlightClass(m)))
  {
    var u := (lang + "\"") + (CodeOpen + m);
    var x := HighlightClass + u;
    PlainClassNoMatch(lang, CodeOpen + m);
    TrimCopies(x);
    CutAt(HighlightClass, u, 1);
    assert 'c' !in HighlightClass[1..];
    TrimSkipsForeign(HighlightClass[1..], u);
    LangNoClass(lang, m);
    TrimSkipsUnmatched(lang + "\"", CodeOpen + m);
    TrimSkipsCodeOpen(m);
    ConsRegroup(HighlightClass, x[0], TrimHighlightClass(x), TrimHighlightClass(x[1..]), TrimHighlightClass(u));
  }

  /** A class holding a plain language is no match: its first run ends at the closing quote, not at a `&`. */
  lemma PlainClassNoMatch(lang: string, r: string)
    requires Avoids(lang, {'&', '"'})
    ensures !ClassMatchAtStart(HighlightClass + ((lang + "\"") + r))
  {
    var s := HighlightClass + ((lang + "\"") + r);
    assert s[17..] == lang + ("\"" + r);
    RunLengthOf(lang, "\"" + r, {'&', '"'});
    assert (lang + ("\"" + r))[|lang|] == '"';
  }

  /**
   * No match starts in a quote-free language or at its closing quote before
   * `><code`: a match has a `"` six characters in, followed by an `h`.
   */
  lemma LangNoClass(lang: string, m: string)
    requires Avoids(lang, {'"'})
    ensures forall i: nat :: i < |lang + "\""| ==> !ClassMatchAtStart(((lang + "\"") + (CodeOpen + m))[i..])
  {
    var s := (lang + "\"") + (CodeOpen + m);
    forall i: nat | i < |lang| + 1 ensures !ClassMatchAtStart(s[i..]) {
      ClassMatchQuote(s[i..]);
      if |s[i..]| >= 17 {
        if i + 6 < |lang| {
          assert s[i..][6] == lang[i + 6];
        } else if i + 6 == |lang| {
          assert s[i..][7] == CodeOpen[0];
        } else {
          assert s[i..][6] == CodeOpen[i + 5 - |lang|];
        }
      }
    }
  }

  /** A match of the second pattern has `"` at offset 6 and `h` at offset 7. */
  lemma ClassMatchQuote(x: string)
    ensures ClassMatchAtStart(x) ==> |x| >= 17 && x[6] == '"' && x[7] == 'h'
  {
    if ClassMatchAtStart(x) {
      assert x[..17][6] == x[6] && x[..17][7] == x[7];
    }
  }

  /**
   * A page with a plain block and then an escaped one, each preceded by HTML
   * that holds neither pattern's literal part: the plain class moves onto
   * `pre` unchanged and the escaped one is cut to its first part.
   */
  lemma PlainThenEscapedBlock(pre: string, lang: string, mid: string, first: string, second: string, b: string)
    requires Avoids(lang, {'&', '"', '>'})
    requires first != "" && Avoids(first, {'&', '"', '>'}) && second != "" && Avoids(second, {'"', '>'})
    requires !Contains(pre, PreCode) && !Contains(pre, HighlightClass)
    requires mid != "" && mid[0] == '>' && !Contains(mid, PreCode) && !Contains(mid, HighlightClass)
    requires b == "" || b[0] == '>'
    ensures Fixups(pre + CodeBlock(HighlightAttr(lang), mid + CodeBlock(HighlightAttr(first + "&" + second), b)))
         == pre + MovedBlock(HighlightAttr(lang), mid + MovedBlock(HighlightAttr(first), Fixups(b)))
  {
    var attr := HighlightAttr(first + "&" + second);
    var rest := mid + CodeBlock(attr, b);
    FixupsAfterPrefix(pre, HighlightAttr(lang), rest);
    FixupsOnPlainBlock(lang, rest);
    FixupsAfterPrefix(mid, attr, b);
    FixupsOnCodeBlock(first, second, b);
  }

  /**
   * HTML before a code block that holds neither pattern's literal part, such
   * as paragraphs or the closing tags of an earlier block, is left alone and
   * does not disturb the block.
   */
  lemma FixupsAfterPrefix(pre: string, attr: string, b: string)
    requires !Contains(pre, PreCode) && !Contains(pre, HighlightClass)
    ensures Fixups(pre + CodeBlock(attr, b)) == pre + Fixups(CodeBlock(attr, b))
  {
    var cb := CodeBlock(attr, b);
    assert cb == "<" + cb[1..] && cb[1] == 'p';
    PrefixNoPreCode(pre, cb);
    MovePreSkipsUnmatched(pre, cb);
    MovePreSkipsForeign("<", cb[1..]);
    var m := MovePreAttributes(cb);
    assert m[0] == '<';
    PrefixNoClass(pre, m);
    TrimSkipsUnmatched(pre, m);
  }

  /**
   * A page with two highlighted code blocks, each preceded by HTML that
   * holds neither pattern's literal part: both blocks are fixed up and
   * nothing else changes before the second block's tag.
   */
  lemma TwoCodeBlocks(pre: string, first1: string, second1: string, mid: string, first2: string, second2: string, b: string)
    requires first1 != "" && Avoids(first1, {'&', '"', '>'}) && second1 != "" && Avoids(second1, {'"', '>'})
    requires first2 != "" && Avoids(first2, {'&', '"', '>'}) && second2 != "" && Avoids(second2, {'"', '>'})
    requires !Contains(pre, PreCode) && !Contains(pre, HighlightClass)
    requires mid != "" && mid[0] == '>' && !Contains(mid, PreCode) && !Contains(mid, HighlightClass)
    requires b == "" || b[0] == '>'
    ensures Fixups(pre + CodeBlock(HighlightAttr(first1 + "&" + second1), mid + CodeBlock(HighlightAttr(first2 + "&" + second2), b)))
         == pre + MovedBlock(HighlightAttr(first1), mid + MovedBlock(HighlightAttr(first2), Fixups(b)))
  {
    var attr1, attr2 := HighlightAttr(first1 + "&" + second1), HighlightAttr(first2 + "&" + second2);
    var rest := mid + CodeBlock(attr2, b);
    FixupsAfterPrefix(pre, attr1, rest);
    FixupsOnCodeBlock(first1, second1, rest);
    FixupsAfterPrefix(mid, attr2, b);
    FixupsOnCodeBlock(first2, second2, b);
  }

  /** No match of the first pattern starts in `pre` when it lacks `pre><code` and `<p` follows it. */
  lemma PrefixNoPreCode(pre: string, t: string)
    requires !Contains(pre, PreCode) && |t| >= 2 && t[0] == '<' && t[1] == 'p'
    ensures forall i: nat :: i < |pre| ==> !PreCodeMatchAt(pre + t, i)
  {
    var s := pre + t;
    forall i: nat | i < |pre| ensures !OccursAt(s, PreCode, i) {
      if i + 9 <= |pre| {
        OccursAtPrefix(pre, t, PreCode, i);
      } else if i + 9 <= |s| {
        var k := |pre| - i;
        PreCodeLetters();
        var j := if k == 4 then 5 else k;
        assert s[i..i + 9][j] == (if k == 4 then 'p' else '<');
        assert s[i..i + 9][j] != PreCode[j];
      }
    }
  }

  /** The only `<` in `pre><code` is followed by a `c`. */
  lemma PreCodeLetters()
    ensures |PreCode| == 9 && PreCode[5] == 'c'
    ensures forall j :: 0 <= j < 9 && PreCode[j] == '<' ==> j == 4
  {
    assert PreCode == "pre><code";
  }

  /** No match of the second pattern starts in `pre` when it lacks `class="highlight ` and `<` follows it. */
  lemma PrefixNoClass(pre: string, t: string)
    requires !Contains(pre, HighlightClass) && |t| >= 1 && t[0] == '<'
    ensures forall i: nat :: i < |pre| ==> !ClassMatchAtStart((pre + t)[i..])
  {
    var s := pre + t;
    assert '<' !in HighlightClass;
    forall i: nat | i < |pre| ensures !OccursAt(s[i..], HighlightClass, 0) {
      var x := s[i..];
      if i + 17 <= |pre| {
        OccursAtPrefix(pre, t, HighlightClass, i);
        assert 17 <= |x| ==> x[..17] == s[i..i + 17];
      } else if 17 <= |x| {
        var k := |pre| - i;
        assert x[..17][k] == '<';
      }
    }
  }

  // ---------------------------------------------------------------------
  // Regrouping helpers: associativity and the layout of a code block,
  // stated once so that the proofs above need not rediscover them

  lemma Regroup(a: string, p: string, c: string, d: string, e: string)
    ensures a + p + c + d + e == a + (p + (c + d) + e)
  {
  }

  lemma RegroupMoved(a: string, p: string, c: string, d: string, q: string, e: string)
    ensures a + p + c + d + q + e == a + (p + (c + d) + q + e)
  {
  }

  lemma Flatten(h: string, x: string, y: string, z: string, q: string, r: string)
    ensures h + (x + y + z) + q + r == h + x + y + z + q + r
  {
  }

  lemma MovedBlockParts(lang: string, b: string)
    ensures MovedBlock(HighlightAttr(lang), b) == ("<" + Pre + " ") + (HighlightClass + lang + "\"" + (CodeOpen + b))
  {
  }

  lemma Nest(h: string, x: string, y: string, z: string, q: string, b: string)
    ensures h + x + y + z + q + b == h + (x + (y + (z + (q + b))))
    ensures |h| == 17 ==> OccursAt(h + (x + (y + (z + (q + b)))), h, 0)
    ensures |h| == 17 ==> (h + (x + (y + (z + (q + b)))))[17..] == x + (y + (z + (q + b)))
  {
  }

  lemma ConsRegroup(a: string, c: char, r: string, q: string, tail: string)
    requires |a| > 0 && c == a[0] && r == [c] + q && q == a[1..] + tail
    ensures r == a + tail
  {
    assert a == [a[0]] + a[1..];
  }

  lemma Nest3(h: string, x: string, y: string, r: string)
    ensures h + x + y + r == h + ((x + y) + r)
  {
  }
}
