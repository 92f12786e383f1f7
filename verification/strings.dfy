/**
 * The JavaScript string operations the compiler relies on, on `seq<char>`:
 * `indexOf`, `split` with a literal separator, `Array.prototype.join`,
 * `replace` of a literal with the global flag, and `replace` of the first
 * occurrence only.
 */
module Strings {
  import opened Wrappers

  /** `w` occurs in `s` starting at offset `i`. */
  predicate OccursAt(s: string, w: string, i: nat)
  {
    i + |w| <= |s| && s[i..i + |w|] == w
  }

  ghost predicate Contains(s: string, w: string)
  {
    exists i: nat :: OccursAt(s, w, i)
  }

  /** Leftmost occurrence of `w` in `s` at or after `from` (`s.indexOf(w, from)`). */
  function IndexFrom(s: string, w: string, from: nat): (r: Option<nat>)
    requires |w| > 0 && from <= |s|
    ensures r.Some? ==> from <= r.value && OccursAt(s, w, r.value)
    ensures r.Some? ==> forall j: nat :: from <= j < r.value ==> !OccursAt(s, w, j)
    ensures r.None? ==> forall j: nat :: from <= j ==> !OccursAt(s, w, j)
    decreases |s| - from
  {
    if from + |w| > |s| then None
    else if OccursAt(s, w, from) then Some(from)
    else IndexFrom(s, w, from + 1)
  }

  function IndexOf(s: string, w: string): (r: Option<nat>)
    requires |w| > 0
    ensures r.Some? <==> Contains(s, w)
    ensures r.Some? ==> OccursAt(s, w, r.value) && forall j: nat :: j < r.value ==> !OccursAt(s, w, j)
  {
    IndexFrom(s, w, 0)
  }

  /** `parts.join(sep)`. */
  function Join(parts: seq<string>, sep: string): string
    decreases |parts|
  {
    if |parts| == 0 then ""
    else if |parts| == 1 then parts[0]
    else parts[0] + sep + Join(parts[1..], sep)
  }

  /** `parts.join('')`. */
  function Concat(parts: seq<string>): string
  {
    Join(parts, "")
  }

  /**
   * `s.split(sep)` for a non-empty literal separator: the pieces between the
   * occurrences of `sep`, found left to right without overlapping.
   */
  function SplitOn(s: string, sep: string): (parts: seq<string>)
    requires |sep| > 0
    ensures |parts| >= 1
    ensures Join(parts, sep) == s
    ensures forall k :: 0 <= k < |parts| ==> !Contains(parts[k], sep)
    decreases |s|
  {
    match IndexOf(s, sep)
    case None => [s]
    case Some(i) =>
      var rest := SplitOn(s[i + |sep|..], sep);
      PrefixFree(s, sep, i);
      assert s == s[..i] + sep + s[i + |sep|..];
      [s[..i]] + rest
  }

  /** No occurrence of `w` in `s` starts before `i`, so `s[..i]` holds none. */
  lemma PrefixFree(s: string, w: string, i: nat)
    requires |w| > 0 && i <= |s|
    requires forall j: nat :: j < i ==> !OccursAt(s, w, j)
    ensures !Contains(s[..i], w)
  {
    forall j: nat | OccursAt(s[..i], w, j)
      ensures false
    {
      assert s[..i][j..j + |w|] == s[j..j + |w|];
      assert OccursAt(s, w, j);
    }
  }

  /** `s.replace(/pat/g, rep)` for a literal pattern, scanning left to right. */
  function ReplaceAll(s: string, pat: string, rep: string): (r: string)
    requires |pat| > 0
    decreases |s|
  {
    if |s| < |pat| then s
    else if s[..|pat|] == pat then rep + ReplaceAll(s[|pat|..], pat, rep)
    else [s[0]] + ReplaceAll(s[1..], pat, rep)
  }

  /** A replacement no longer than the pattern never lengthens the text. */
  lemma {:induction false} ReplaceAllShortens(s: string, pat: string, rep: string)
    requires 0 < |pat| && |rep| <= |pat|
    ensures |ReplaceAll(s, pat, rep)| <= |s|
    decreases |s|
  {
    if |s| < |pat| {
    } else if s[..|pat|] == pat {
      ReplaceAllShortens(s[|pat|..], pat, rep);
    } else {
      ReplaceAllShortens(s[1..], pat, rep);
    }
  }

  /** `s.replace(/w/, "")` for a literal: removes the first occurrence of `w` only. */
  function RemoveFirst(s: string, w: string): (r: string)
    requires |w| > 0
    ensures !Contains(s, w) ==> r == s
    ensures Contains(s, w) ==> |r| == |s| - |w|
    ensures Contains(s, w) ==> exists i: nat :: OccursAt(s, w, i) && r == s[..i] + s[i + |w|..] &&
                                          forall j: nat :: j < i ==> !OccursAt(s, w, j)
  {
    match IndexOf(s, w)
    case None => s
    case Some(i) => s[..i] + s[i + |w|..]
  }

  // ---------------------------------------------------------------------
  // Occurrences under concatenation

  lemma OccursAtShift(a: string, b: string, w: string, i: nat)
    ensures OccursAt(b, w, i) <==> OccursAt(a + b, w, |a| + i)
  {
    if i + |w| <= |b| {
      assert (a + b)[|a| + i..|a| + i + |w|] == b[i..i + |w|];
    }
  }

  lemma OccursAtPrefix(a: string, b: string, w: string, i: nat)
    requires i + |w| <= |a|
    ensures OccursAt(a, w, i) <==> OccursAt(a + b, w, i)
  {
    assert (a + b)[i..i + |w|] == a[i..i + |w|];
  }

  /** An occurrence at the front of `[c] + x` is `c` followed by the rest of `w`. */
  lemma OccursAtCons(c: char, x: string, w: string)
    requires |w| > 0
    ensures OccursAt([c] + x, w, 0) <==> c == w[0] && OccursAt(x, w[1..], 0)
  {
    if |w| <= 1 + |x| {
      assert ([c] + x)[0..|w|] == [c] + x[0..|w| - 1];
      if c == w[0] && x[0..|w| - 1] == w[1..] {
        assert w == [w[0]] + w[1..];
      }
    }
  }

  lemma ContainsCons(c: char, x: string, w: string)
    requires |w| > 0
    ensures Contains([c] + x, w) <==> OccursAt([c] + x, w, 0) || Contains(x, w)
  {
    if Contains([c] + x, w) && !OccursAt([c] + x, w, 0) {
      var i: nat :| OccursAt([c] + x, w, i);
      OccursAtShift([c], x, w, i - 1);
    }
    if Contains(x, w) {
      var i: nat :| OccursAt(x, w, i);
      OccursAtShift([c], x, w, i);
    }
  }

  /** A prefix none of whose characters starts `w` cannot hold or start an occurrence of it. */
  lemma ContainsAfterForeignPrefix(a: string, x: string, w: string)
    requires |w| > 0 && w[0] !in a
    ensures Contains(a + x, w) <==> Contains(x, w)
  {
    if Contains(a + x, w) {
      var i: nat :| OccursAt(a + x, w, i);
      assert (a + x)[i..i + |w|][0] == (a + x)[i];
      if i < |a| {
        assert false;
      }
      OccursAtShift(a, x, w, i - |a|);
    }
    if Contains(x, w) {
      var i: nat :| OccursAt(x, w, i);
      OccursAtShift(a, x, w, i);
    }
  }

  /** A one-character separator occurs exactly where that character does. */
  lemma ContainsChar(s: string, c: char)
    ensures Contains(s, [c]) <==> c in s
  {
    if c in s {
      var i :| 0 <= i < |s| && s[i] == c;
      assert OccursAt(s, [c], i);
    }
    if Contains(s, [c]) {
      var i: nat :| OccursAt(s, [c], i);
      assert s[i..i + 1][0] == s[i];
    }
  }

  /** Leftmost occurrences in `s` and in `s[1..]` differ by one when `s` does not start with `w`. */
  lemma IndexOfTail(s: string, w: string)
    requires |w| > 0 && |s| > 0 && !OccursAt(s, w, 0)
    ensures IndexOf(s, w).None? <==> IndexOf(s[1..], w).None?
    ensures IndexOf(s, w).Some? ==> IndexOf(s, w).value == IndexOf(s[1..], w).value + 1
  {
    assert s == [s[0]] + s[1..];
    var a, b := IndexOf(s, w), IndexOf(s[1..], w);
    if a.Some? {
      OccursAtShift([s[0]], s[1..], w, a.value - 1);
      assert b.Some?;
    }
    if b.Some? {
      OccursAtShift([s[0]], s[1..], w, b.value);
      assert a.Some?;
      forall j: nat | 1 <= j <= b.value ensures !OccursAt(s, w, j) {
        OccursAtShift([s[0]], s[1..], w, j - 1);
      }
    }
  }

  // ---------------------------------------------------------------------
  // Join

  lemma {:induction false} JoinAppend(parts: seq<string>, x: string, sep: string)
    requires |parts| > 0
    ensures Join(parts + [x], sep) == Join(parts, sep) + sep + x
    decreases |parts|
  {
    if |parts| > 1 {
      assert (parts + [x])[1..] == parts[1..] + [x];
      JoinAppend(parts[1..], x, sep);
    }
  }

  /** A one-character separator splits a concatenation around that character into the two halves' pieces. */
  lemma {:induction false} SplitOnAroundChar(x: string, c: char, y: string)
    ensures SplitOn(x + [c] + y, [c]) == SplitOn(x, [c]) + SplitOn(y, [c])
    decreases |x|
  {
    var s := x + [c] + y;
    var sep := [c];
    match IndexOf(x, sep)
    case None =>
      FirstCharOccurrence(x, c, y);
      SplitOnAt(s, sep, |x|);
      assert s[..|x|] == x && s[|x| + 1..] == y;
    case Some(i) =>
      FirstCharOccurrence(x, c, y);
      SplitOnAt(s, sep, i);
      SplitOnAt(x, sep, i);
      var tail := x[i + 1..];
      SplicedSlices(x, c, y, i);
      SplitOnAroundChar(tail, c, y);
      AppendAssoc([x[..i]], SplitOn(tail, sep), SplitOn(y, sep));
  }

  /** The first `c` in `x + [c] + y` is the first one in `x`, or the added one. */
  lemma FirstCharOccurrence(x: string, c: char, y: string)
    ensures IndexOf(x, [c]).None? ==> IndexOf(x + [c] + y, [c]) == Some(|x|)
    ensures IndexOf(x, [c]).Some? ==> IndexOf(x + [c] + y, [c]) == IndexOf(x, [c])
  {
    var s := x + [c] + y;
    var sep := [c];
    forall j: nat | j < |x| ensures OccursAt(s, sep, j) == OccursAt(x, sep, j) {
      OccursAtPrefix(x, [c] + y, sep, j);
    }
    assert OccursAt(s, sep, |x|);
  }

  // ---------------------------------------------------------------------
  // Global replacement

  /** No character of `a` occurs in `b`. */
  ghost predicate Disjoint(a: string, b: string)
  {
    forall c :: c in a ==> c !in b
  }

  /**
   * The scanning replacement agrees with splitting on the pattern and joining
   * with the replacement: every character outside an occurrence is kept, in order.
   */
  lemma {:induction false} ReplaceAllAsSplitJoin(s: string, pat: string, rep: string)
    requires |pat| > 0
    ensures ReplaceAll(s, pat, rep) == Join(SplitOn(s, pat), rep)
    decreases |s|
  {
    if |s| < |pat| {
      assert IndexOf(s, pat).None?;
    } else if s[..|pat|] == pat {
      ReplaceAllAsSplitJoin(s[|pat|..], pat, rep);
      ReplaceAllAtMatch(s, pat, rep);
    } else {
      ReplaceAllAsSplitJoin(s[1..], pat, rep);
      ReplaceAllPastChar(s, pat, rep);
    }
  }

  /** `[head] + rest` joins as `head`, the separator, then `rest` joined. */
  lemma JoinCons(head: string, rest: seq<string>, sep: string)
    requires |rest| > 0
    ensures Join([head] + rest, sep) == head + sep + Join(rest, sep)
  {
    assert ([head] + rest)[1..] == rest;
  }

  /** The step of `ReplaceAllAsSplitJoin` where the pattern starts the text. */
  lemma ReplaceAllAtMatch(s: string, pat: string, rep: string)
    requires |pat| > 0 && |s| >= |pat| && s[..|pat|] == pat
    requires ReplaceAll(s[|pat|..], pat, rep) == Join(SplitOn(s[|pat|..], pat), rep)
    ensures ReplaceAll(s, pat, rep) == Join(SplitOn(s, pat), rep)
  {
    assert OccursAt(s, pat, 0);
    assert IndexOf(s, pat) == Some(0);
    var rest := SplitOn(s[|pat|..], pat);
    assert SplitOn(s, pat) == [""] + rest;
    JoinCons("", rest, rep);
  }

  /** The step of `ReplaceAllAsSplitJoin` where the first character is copied. */
  lemma ReplaceAllPastChar(s: string, pat: string, rep: string)
    requires |pat| > 0 && |s| >= |pat| && s[..|pat|] != pat
    requires ReplaceAll(s[1..], pat, rep) == Join(SplitOn(s[1..], pat), rep)
    ensures ReplaceAll(s, pat, rep) == Join(SplitOn(s, pat), rep)
  {
    assert !OccursAt(s, pat, 0);
    IndexOfTail(s, pat);
    assert ReplaceAll(s, pat, rep) == [s[0]] + ReplaceAll(s[1..], pat, rep);
    match IndexOf(s, pat)
    case None =>
      assert SplitOn(s[1..], pat) == [s[1..]];
      assert s == [s[0]] + s[1..];
    case Some(i) =>
      var rest := SplitOn(s[i + |pat|..], pat);
      SliceFacts(s, i, |pat|);
      SplitOnAt(s[1..], pat, i - 1);
      SplitOnAt(s, pat, i);
      JoinConsChar(s[0], s[1..][..i - 1], rest, rep);
  }

  /** The pieces of `s` when the first occurrence of `sep` is at `i`. */
  lemma SplitOnAt(s: string, sep: string, i: nat)
    requires |sep| > 0 && IndexOf(s, sep) == Some(i)
    ensures SplitOn(s, sep) == [s[..i]] + SplitOn(s[i + |sep|..], sep)
  {
  }

  lemma JoinConsChar(c: char, head: string, rest: seq<string>, sep: string)
    requires |rest| > 0
    ensures Join([[c] + head] + rest, sep) == [c] + Join([head] + rest, sep)
  {
    JoinCons([c] + head, rest, sep);
    JoinCons(head, rest, sep);
    var tail := Join(rest, sep);
    assert [c] + head + sep + tail == [c] + (head + sep + tail);
  }

  /**
   * The replacement distributes over a cut that no occurrence can straddle:
   * the right part does not start with a character of the pattern.
   */
  lemma {:induction false} ReplaceAllAppend(a: string, t: string, pat: string, rep: string)
    requires |pat| > 0 && (t == "" || t[0] !in pat)
    ensures ReplaceAll(a + t, pat, rep) == ReplaceAll(a, pat, rep) + ReplaceAll(t, pat, rep)
    decreases |a|
  {
    if |a| == 0 {
      assert a + t == t;
    } else if |a + t| < |pat| {
    } else if |a| < |pat| || a[..|pat|] != pat {
      ReplaceAllAppend(a[1..], t, pat, rep);
      AppendCopyStep(a, t, pat, rep);
    } else {
      ReplaceAllAppend(a[|pat|..], t, pat, rep);
      AppendMatchStep(a, t, pat, rep);
    }
  }

  /** The step of `ReplaceAllAppend` where the first character of `a` is copied. */
  lemma AppendCopyStep(a: string, t: string, pat: string, rep: string)
    requires |pat| > 0 && (t == "" || t[0] !in pat) && 0 < |a| && |a + t| >= |pat|
    requires |a| < |pat| || a[..|pat|] != pat
    requires ReplaceAll(a[1..] + t, pat, rep) == ReplaceAll(a[1..], pat, rep) + ReplaceAll(t, pat, rep)
    ensures ReplaceAll(a + t, pat, rep) == ReplaceAll(a, pat, rep) + ReplaceAll(t, pat, rep)
  {
    var s := a + t;
    CutAt(a, t, 1);
    if |a| < |pat| {
      NoStraddle(a, t, pat);
    } else {
      CutAt(a, t, |pat|);
    }
    ReplaceAllCopies(s, pat, rep);
    HeadCopied(a, pat, rep);
    CopyRegroup(a[..1], ReplaceAll(a[1..], pat, rep), ReplaceAll(t, pat, rep),
                ReplaceAll(a, pat, rep), ReplaceAll(s, pat, rep));
  }

  /** A text that does not start with the pattern keeps its first character in front. */
  lemma HeadCopied(a: string, pat: string, rep: string)
    requires |pat| > 0 && 0 < |a| && (|a| < |pat| || a[..|pat|] != pat)
    ensures ReplaceAll(a, pat, rep) == a[..1] + ReplaceAll(a[1..], pat, rep)
  {
    if |a| < |pat| {
      assert a == a[..1] + a[1..];
    }
  }

  /** The step of `ReplaceAllAppend` where `a` starts with the pattern. */
  lemma AppendMatchStep(a: string, t: string, pat: string, rep: string)
    requires |pat| > 0 && |a| >= |pat| && a[..|pat|] == pat
    requires ReplaceAll(a[|pat|..] + t, pat, rep) == ReplaceAll(a[|pat|..], pat, rep) + ReplaceAll(t, pat, rep)
    ensures ReplaceAll(a + t, pat, rep) == ReplaceAll(a, pat, rep) + ReplaceAll(t, pat, rep)
  {
    CutAt(a, t, |pat|);
  }

  /** Away from an occurrence the replacement copies the first character. */
  lemma ReplaceAllCopies(s: string, pat: string, rep: string)
    requires |pat| > 0 && |s| >= |pat| && s[..|pat|] != pat
    ensures ReplaceAll(s, pat, rep) == s[..1] + ReplaceAll(s[1..], pat, rep)
  {
  }

  /** An occurrence at the front of `a + t` that is longer than `a` would start with `t[0]`. */
  lemma NoStraddle(a: string, t: string, pat: string)
    requires |a| < |pat| <= |a + t| && t[0] !in pat
    ensures (a + t)[..|pat|] != pat
  {
    assert (a + t)[..|pat|][|a|] == t[0];
  }

  /** A prefix none of whose characters starts the pattern is copied through unchanged. */
  lemma {:induction false} ReplaceAllAfterForeign(a: string, t: string, pat: string, rep: string)
    requires |pat| > 0 && pat[0] !in a
    ensures ReplaceAll(a + t, pat, rep) == a + ReplaceAll(t, pat, rep)
    decreases |a|
  {
    if |a| == 0 {
      assert a + t == t;
    } else {
      assert pat[0] !in a[1..];
      ReplaceAllAfterForeign(a[1..], t, pat, rep);
      ForeignStep(a, t, pat, rep);
    }
  }

  /** One step of `ReplaceAllAfterForeign`: a first character that cannot start the pattern is copied. */
  lemma ForeignStep(a: string, t: string, pat: string, rep: string)
    requires |pat| > 0 && |a| > 0 && a[0] != pat[0]
    requires ReplaceAll(a[1..] + t, pat, rep) == a[1..] + ReplaceAll(t, pat, rep)
    ensures ReplaceAll(a + t, pat, rep) == a + ReplaceAll(t, pat, rep)
  {
    var s := a + t;
    CutAt(a, t, 1);
    if |s| >= |pat| {
      assert s[..|pat|][0] == a[0];
      ReplaceAllCopies(s, pat, rep);
    }
    assert a == a[..1] + a[1..];
  }

  /** A word sharing no character with the pattern or the replacement starts the result exactly when it starts the input. */
  lemma {:induction false} ReplaceAllKeepsForeignFront(s: string, pat: string, rep: string, w: string)
    requires |pat| > 0 && |rep| > 0 && Disjoint(w, pat) && Disjoint(w, rep)
    ensures OccursAt(ReplaceAll(s, pat, rep), w, 0) <==> OccursAt(s, w, 0)
    decreases |s|
  {
    var r := ReplaceAll(s, pat, rep);
    if |w| == 0 || |s| < |pat| {
    } else if s[..|pat|] == pat {
      assert r[0] == rep[0] && s[0] == pat[0];
      assert w[0] in w && rep[0] in rep && pat[0] in pat;
    } else {
      assert s == [s[0]] + s[1..];
      OccursAtCons(s[0], s[1..], w);
      OccursAtCons(s[0], ReplaceAll(s[1..], pat, rep), w);
      ReplaceAllKeepsForeignFront(s[1..], pat, rep, w[1..]);
    }
  }

  /** A word sharing no character with the pattern or the replacement occurs in the result exactly when it occurs in the input. */
  lemma {:induction false} ReplaceAllKeepsForeignWord(s: string, pat: string, rep: string, w: string)
    requires |pat| > 0 && |rep| > 0 && |w| > 0 && Disjoint(w, pat) && Disjoint(w, rep)
    ensures Contains(ReplaceAll(s, pat, rep), w) <==> Contains(s, w)
    decreases |s|
  {
    if |s| < |pat| {
    } else if s[..|pat|] == pat {
      var t := s[|pat|..];
      assert s == pat + t;
      ContainsAfterForeignPrefix(rep, ReplaceAll(t, pat, rep), w);
      ContainsAfterForeignPrefix(pat, t, w);
      ReplaceAllKeepsForeignWord(t, pat, rep, w);
    } else {
      assert s == [s[0]] + s[1..];
      ContainsCons(s[0], ReplaceAll(s[1..], pat, rep), w);
      ContainsCons(s[0], s[1..], w);
      ReplaceAllKeepsForeignFront(s, pat, rep, w);
      ReplaceAllKeepsForeignWord(s[1..], pat, rep, w);
    }
  }

  // ---------------------------------------------------------------------
  // Regrouping helpers: slices and associativity, stated once so that the
  // proofs above need not rediscover them

  lemma SplicedSlices(x: string, c: char, y: string, i: nat)
    requires i < |x|
    ensures (x + [c] + y)[..i] == x[..i]
    ensures (x + [c] + y)[i + 1..] == x[i + 1..] + [c] + y
  {
  }

  lemma AppendAssoc<T>(a: seq<T>, b: seq<T>, c: seq<T>)
    ensures (a + b) + c == a + (b + c)
  {
  }

  /** Cutting `a + t` inside `a`. */
  lemma CutAt(a: string, t: string, n: nat)
    requires n <= |a|
    ensures (a + t)[..n] == a[..n] && (a + t)[n..] == a[n..] + t
  {
  }

  lemma SliceFacts(s: string, i: nat, n: nat)
    requires 0 < i && i + n <= |s|
    ensures s[1..][i - 1 + n..] == s[i + n..]
    ensures s[..i] == [s[0]] + s[1..][..i - 1]
  {
  }

  lemma CopyRegroup(h: string, x: string, y: string, ra: string, rs: string)
    requires ra == h + x && rs == h + (x + y)
    ensures rs == ra + y
  {
  }
}
