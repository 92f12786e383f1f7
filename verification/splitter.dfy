/**
 * The first two statements of the compiler: the shell fence rewrite and the
 * split of the document on `(?:^|\n)---\n` (src/slate.js:64-69), with the
 * front matter and the body taken from the pieces (src/slate.js:72, 105).
 */
module DocumentSplitter {
  import opened Strings

  const ShellFence: string := "```shell"
  const BashFence: string := "```bash"
  /** The `^---\n` alternative: only at offset 0, since the pattern has no `m` flag. */
  const OpeningDelimiter: string := "---\n"
  /** The `\n---\n` alternative, anywhere. */
  const Delimiter: string := "\n---\n"

  /** `markup.replace(/```shell/gm, '```bash')`. */
  function RewriteShell(markup: string): (r: string)
    ensures |r| <= |markup|
  {
    ReplaceAllShortens(markup, ShellFence, BashFence);
    ReplaceAll(markup, ShellFence, BashFence)
  }

  /** Length of the match of `(?:^|\n)---\n` when the regex is tried at offset `q`, 0 when it fails. */
  function DelimiterAt(s: string, q: nat): (n: nat)
    ensures n == 0 || q + n <= |s|
  {
    if q == 0 && OccursAt(s, OpeningDelimiter, 0) then 4
    else if OccursAt(s, Delimiter, q) then 5
    else 0
  }

  /** The regex matches somewhere in `s`. */
  ghost predicate HasDelimiter(s: string)
  {
    OccursAt(s, OpeningDelimiter, 0) || Contains(s, Delimiter)
  }

  /**
   * `String.prototype.split` with a regex: the current piece starts at `p`,
   * the regex is tried at `q`; a match closes the piece and starts the next
   * one after it, a failure moves `q` on by one.
   */
  function Pieces(s: string, p: nat, q: nat): (pieces: seq<string>)
    requires p <= q <= |s|
    ensures |pieces| >= 1
    decreases |s| - q
  {
    if q == |s| then [s[p..]]
    else
      var n := DelimiterAt(s, q);
      if n == 0 then Pieces(s, p, q + 1)
      else [s[p..q]] + Pieces(s, q + n, q + n)
  }

  /** The matched delimiters, in the same scan as `Pieces`. */
  function Separators(s: string, p: nat, q: nat): seq<string>
    requires p <= q <= |s|
    decreases |s| - q
  {
    if q == |s| then []
    else
      var n := DelimiterAt(s, q);
      if n == 0 then Separators(s, p, q + 1)
      else [s[q..q + n]] + Separators(s, q + n, q + n)
  }

  /** `markup.split(/(?:^|\n)---\n/g)`. */
  function Split(s: string): (pieces: seq<string>)
    ensures |pieces| >= 1
  {
    Pieces(s, 0, 0)
  }

  /** The pieces with the delimiters put back between them. */
  function Interleave(pieces: seq<string>, seps: seq<string>): string
    requires |pieces| == |seps| + 1
    decreases |seps|
  {
    if |seps| == 0 then pieces[0]
    else pieces[0] + seps[0] + Interleave(pieces[1..], seps[1..])
  }

  /** `markup[1]`: the text the lexer turns into front-matter tokens. */
  function FrontMatter(pieces: seq<string>): string
    requires |pieces| >= 2
  {
    pieces[1]
  }

  /** `markup.slice(2).join('')`: every piece after the front matter, without delimiters. */
  function Body(pieces: seq<string>): string
    requires |pieces| >= 2
  {
    Concat(pieces[2..])
  }

  // ---------------------------------------------------------------------
  // The split

  /** The scan yields a single piece exactly when the regex matches nowhere from `q` on. */
  lemma {:induction false} PiecesSingleIffNoMatch(s: string, p: nat, q: nat)
    requires p <= q <= |s|
    ensures |Pieces(s, p, q)| >= 1
    ensures |Pieces(s, p, q)| == 1 <==> forall j :: q <= j < |s| ==> DelimiterAt(s, j) == 0
    decreases |s| - q
  {
    if q < |s| {
      var n := DelimiterAt(s, q);
      if n == 0 {
        PiecesSingleIffNoMatch(s, p, q + 1);
      } else {
        PiecesSingleIffNoMatch(s, q + n, q + n);
      }
    }
  }

  /** The compiler's "no page settings" test: one piece exactly when the text has no delimiter. */
  lemma SplitSingleIffNoDelimiter(s: string)
    ensures |Split(s)| >= 1
    ensures |Split(s)| == 1 <==> !HasDelimiter(s)
  {
    PiecesSingleIffNoMatch(s, 0, 0);
    if Contains(s, Delimiter) {
      var j: nat :| OccursAt(s, Delimiter, j);
      assert DelimiterAt(s, j) > 0;
    }
    if OccursAt(s, OpeningDelimiter, 0) {
      assert DelimiterAt(s, 0) > 0;
    }
    forall j | 0 <= j < |s| && DelimiterAt(s, j) > 0 ensures HasDelimiter(s) {
      if !OccursAt(s, OpeningDelimiter, 0) || j > 0 {
        assert OccursAt(s, Delimiter, j);
      }
    }
  }

  /** Putting the matched delimiters back between the pieces gives the text back. */
  lemma {:induction false} PiecesReassemble(s: string, p: nat, q: nat)
    requires p <= q <= |s|
    ensures |Pieces(s, p, q)| == |Separators(s, p, q)| + 1
    ensures Interleave(Pieces(s, p, q), Separators(s, p, q)) == s[p..]
    decreases |s| - q
  {
    if q < |s| {
      var n := DelimiterAt(s, q);
      if n == 0 {
        PiecesReassemble(s, p, q + 1);
      } else {
        PiecesReassemble(s, q + n, q + n);
        var ps, ss := Pieces(s, q + n, q + n), Separators(s, q + n, q + n);
        InterleaveCons(s[p..q], s[q..q + n], ps, ss);
        ThreeSlices(s, p, q, q + n);
      }
    }
  }

  /** Every matched delimiter is `---\n` or `\n---\n`, and `---\n` only as a match at offset 0. */
  lemma {:induction false} SeparatorsAreDelimiters(s: string, p: nat, q: nat)
    requires p <= q <= |s|
    ensures forall k :: 0 <= k < |Separators(s, p, q)| ==>
              Separators(s, p, q)[k] == OpeningDelimiter || Separators(s, p, q)[k] == Delimiter
    ensures forall k :: 0 <= k < |Separators(s, p, q)| && (q > 0 || k > 0) ==> Separators(s, p, q)[k] == Delimiter
    decreases |s| - q
  {
    if q < |s| {
      var n := DelimiterAt(s, q);
      if n == 0 {
        SeparatorsAreDelimiters(s, p, q + 1);
      } else {
        SeparatorsAreDelimiters(s, q + n, q + n);
        MatchedDelimiter(s, q);
      }
    }
  }

  /** What the regex matches at `q` is one of its two alternatives, the second one away from offset 0. */
  lemma MatchedDelimiter(s: string, q: nat)
    requires DelimiterAt(s, q) > 0
    ensures s[q..q + DelimiterAt(s, q)] == OpeningDelimiter || s[q..q + DelimiterAt(s, q)] == Delimiter
    ensures q > 0 ==> s[q..q + DelimiterAt(s, q)] == Delimiter
  {
  }

  lemma SplitReassembles(s: string)
    ensures |Split(s)| == |Separators(s, 0, 0)| + 1
    ensures Interleave(Split(s), Separators(s, 0, 0)) == s
    ensures forall k :: 0 <= k < |Separators(s, 0, 0)| ==>
              Separators(s, 0, 0)[k] == OpeningDelimiter || Separators(s, 0, 0)[k] == Delimiter
    ensures forall k :: 0 < k < |Separators(s, 0, 0)| ==> Separators(s, 0, 0)[k] == Delimiter
  {
    PiecesReassemble(s, 0, 0);
    SeparatorsAreDelimiters(s, 0, 0);
  }

  /** Offsets where the regex fails are skipped without changing the pieces. */
  lemma {:induction false} PiecesSkip(s: string, p: nat, q: nat, r: nat)
    requires p <= q <= r <= |s|
    requires forall j :: q <= j < r ==> DelimiterAt(s, j) == 0
    ensures Pieces(s, p, q) == Pieces(s, p, r)
    decreases r - q
  {
    if q < r {
      PiecesSkip(s, p, q + 1, r);
    }
  }

  /**
   * The usual document: an opening delimiter, the front matter, a delimiter
   * and the body. The split yields an empty preamble, the front matter and the
   * body, provided no other delimiter occurs in them.
   */
  lemma StandardDocument(front: string, body: string)
    requires !Contains(front + "\n---", Delimiter)
    requires !Contains(body, Delimiter)
    ensures Split(OpeningDelimiter + front + Delimiter + body) == ["", front, body]
  {
    var s := OpeningDelimiter + front + Delimiter + body;
    var f := 4 + |front|;
    var b := f + 5;
    assert OccursAt(s, OpeningDelimiter, 0);
    assert DelimiterAt(s, 0) == 4;
    forall j | 4 <= j < f ensures DelimiterAt(s, j) == 0 {
      var t := front + "\n---";
      assert s == OpeningDelimiter + (t + ("\n" + body));
      OccursAtShift(OpeningDelimiter, t + ("\n" + body), Delimiter, j - 4);
      OccursAtPrefix(t, "\n" + body, Delimiter, j - 4);
    }
    assert s[f..f + 5] == Delimiter;
    assert DelimiterAt(s, f) == 5;
    forall j | b <= j < |s| ensures DelimiterAt(s, j) == 0 {
      assert s == (OpeningDelimiter + front + Delimiter) + body;
      OccursAtShift(OpeningDelimiter + front + Delimiter, body, Delimiter, j - b);
    }
    PiecesSkip(s, 4, 4, f);
    PiecesSkip(s, b, b, |s|);
    assert s[0..0] == "" && s[4..f] == front && s[b..] == body;
  }

  /** With a single delimiter the body is empty. */
  lemma SingleDelimiterEmptyBody(s: string)
    requires |Separators(s, 0, 0)| == 1
    ensures |Split(s)| == 2 && Body(Split(s)) == ""
  {
    PiecesReassemble(s, 0, 0);
    SeparatorsAreDelimiters(s, 0, 0);
  }

  // ---------------------------------------------------------------------
  // The shell fence rewrite

  /** A prefix without a `b` of the rewritten text is a prefix of the original. */
  lemma {:induction false} RewrittenPrefix(t: string, w: string)
    requires 'b' !in w
    requires OccursAt(RewriteShell(t), w, 0)
    ensures OccursAt(t, w, 0)
    decreases |t|
  {
    var r := RewriteShell(t);
    if |w| == 0 || |t| < |ShellFence| {
    } else if t[..|ShellFence|] == ShellFence {
      assert r == BashFence + RewriteShell(t[|ShellFence|..]);
      assert r[3] == 'b';
      assert forall k :: 0 <= k < |w| ==> w[k] == r[k];
      assert |w| <= 3;
      assert w == r[..|w|] == BashFence[..|w|] == ShellFence[..|w|] == t[..|w|];
    } else {
      assert t == [t[0]] + t[1..];
      assert r == [t[0]] + RewriteShell(t[1..]);
      OccursAtCons(t[0], RewriteShell(t[1..]), w);
      OccursAtCons(t[0], t[1..], w);
      RewrittenPrefix(t[1..], w[1..]);
    }
  }

  /** `RewrittenPrefix` as an implication. */
  lemma RewrittenPrefixIf(t: string, w: string)
    requires 'b' !in w
    ensures OccursAt(RewriteShell(t), w, 0) ==> OccursAt(t, w, 0)
  {
    if OccursAt(RewriteShell(t), w, 0) {
      RewrittenPrefix(t, w);
    }
  }

  /** No shell fence starts inside a leading bash fence. */
  lemma FenceNotInBash(r: string, i: nat)
    requires |r| >= |BashFence| && r[..|BashFence|] == BashFence && i < |BashFence|
    ensures !OccursAt(r, ShellFence, i)
  {
    if i + |ShellFence| <= |r| {
      var m := r[i..i + |ShellFence|];
      assert m[0] == r[i];
      if i <= 3 {
        assert m[3 - i] == r[3] == 'b';
      }
    }
  }

  /** After the rewrite no shell fence is left. */
  lemma {:induction false} NoShellFenceRemains(s: string)
    ensures !Contains(RewriteShell(s), ShellFence)
    decreases |s|
  {
    var r := RewriteShell(s);
    if |s| < |ShellFence| {
      assert r == s;
    } else if s[..|ShellFence|] == ShellFence {
      var rest := RewriteShell(s[|ShellFence|..]);
      assert r == BashFence + rest;
      NoShellFenceRemains(s[|ShellFence|..]);
      forall i: nat ensures !OccursAt(r, ShellFence, i) {
        if i >= |BashFence| {
          OccursAtShift(BashFence, rest, ShellFence, i - |BashFence|);
        } else {
          FenceNotInBash(r, i);
        }
      }
    } else {
      var rest := RewriteShell(s[1..]);
      assert s == [s[0]] + s[1..];
      assert r == [s[0]] + rest;
      NoShellFenceRemains(s[1..]);
      ContainsCons(s[0], rest, ShellFence);
      OccursAtCons(s[0], rest, ShellFence);
      assert 'b' !in ShellFence[1..];
      RewrittenPrefixIf(s[1..], ShellFence[1..]);
      OccursAtCons(s[0], s[1..], ShellFence);
      assert !OccursAt(s, ShellFence, 0);
    }
  }

  /** Text without a shell fence passes through the rewrite unchanged. */
  lemma RewriteWithoutFence(s: string)
    requires !Contains(s, ShellFence)
    ensures RewriteShell(s) == s
  {
    ReplaceAllAsSplitJoin(s, ShellFence, BashFence);
  }

  /** The rewrite neither creates nor removes a delimiter. */
  lemma RewriteKeepsDelimiters(s: string)
    ensures HasDelimiter(RewriteShell(s)) <==> HasDelimiter(s)
  {
    assert Disjoint(OpeningDelimiter, ShellFence) && Disjoint(OpeningDelimiter, BashFence);
    assert Disjoint(Delimiter, ShellFence) && Disjoint(Delimiter, BashFence);
    ReplaceAllKeepsForeignFront(s, ShellFence, BashFence, OpeningDelimiter);
    ReplaceAllKeepsForeignWord(s, ShellFence, BashFence, Delimiter);
  }

  /** The rewrite of a standard document is the rewrite of its front matter and of its body, between the same delimiters. */
  lemma RewriteStandardDocument(front: string, body: string)
    ensures RewriteShell(OpeningDelimiter + front + Delimiter + body)
         == OpeningDelimiter + RewriteShell(front) + Delimiter + RewriteShell(body)
  {
    var x, y := OpeningDelimiter + front, Delimiter + body;
    assert OpeningDelimiter + front + Delimiter + body == x + y;
    assert '`' !in OpeningDelimiter && '`' !in Delimiter && '\n' !in ShellFence;
    ReplaceAllAppend(x, y, ShellFence, BashFence);
    ReplaceAllAfterForeign(OpeningDelimiter, front, ShellFence, BashFence);
    ReplaceAllAfterForeign(Delimiter, body, ShellFence, BashFence);
  }

  /** The rewrite keeps front matter and body free of further delimiters. */
  lemma RewriteKeepsStandardShape(front: string, body: string)
    requires !Contains(front + "\n---", Delimiter) && !Contains(body, Delimiter)
    ensures !Contains(RewriteShell(front) + "\n---", Delimiter) && !Contains(RewriteShell(body), Delimiter)
  {
    assert Disjoint(Delimiter, ShellFence) && Disjoint(Delimiter, BashFence);
    assert '\n' !in ShellFence;
    ReplaceAllAppend(front, "\n---", ShellFence, BashFence);
    assert RewriteShell("\n---") == "\n---";
    ReplaceAllKeepsForeignWord(front + "\n---", ShellFence, BashFence, Delimiter);
    ReplaceAllKeepsForeignWord(body, ShellFence, BashFence, Delimiter);
  }

  // ---------------------------------------------------------------------
  // Regrouping helpers: slices and interleaving, stated once so that the proofs
  // above need not rediscover them

  lemma InterleaveCons(piece: string, sep: string, ps: seq<string>, ss: seq<string>)
    requires |ps| == |ss| + 1
    ensures Interleave([piece] + ps, [sep] + ss) == piece + sep + Interleave(ps, ss)
  {
    assert ([piece] + ps)[1..] == ps;
    assert ([sep] + ss)[1..] == ss;
  }

  lemma ThreeSlices(s: string, p: nat, q: nat, r: nat)
    requires p <= q <= r <= |s|
    ensures s[p..] == s[p..q] + s[q..r] + s[r..]
  {
  }
}
