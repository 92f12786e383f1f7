/**
 * The front-matter token walker of the compiler (src/slate.js:71-102): one
 * pass over the lexer's tokens that fills the metadata map with scalar fields
 * (`key: value` paragraphs) and list fields (a `name:` paragraph followed by a
 * list), keeping the name of the current list across iterations.
 */
module TokenWalker {
  import opened Wrappers
  import opened Strings

  /** The lexer's block tokens, as far as the walker tells them apart. */
  datatype Token =
    | Paragraph(text: string)
    | ListStart
    | ListItemStart
    | Text(text: string)
      /** Any other token; `body` is its `text` property, `None` when it has none. */
    | Other(body: Option<string>)

  /** A metadata field: a scalar (`None` for `undefined`) or a list. */
  datatype Field = Scalar(value: Option<string>) | Items(items: seq<string>)

  type Metadata = map<string, Field>

  /** The TypeErrors the walker throws. */
  datatype WalkError =
      /** `tokens[idx+1].text` when the list item is the last token */
    | ItemPastEnd
      /** `data[listName].push(...)` when that field is no longer a list */
    | PushOntoNonList(name: string)
      /** `token.type` on the `undefined` text of the token after a list item */
    | ItemWithoutText

  /** The loop's variables between two iterations: `idx`, `listName` and `data`. */
  datatype Walker = Walker(idx: nat, listName: string, data: Metadata)

  const FieldSeparator: string := ": "
  const LanguageTabs: string := "language_tabs"

  /** The token's `text` property. */
  function TextOf(t: Token): Option<string>
  {
    match t
    case Paragraph(s) => Some(s)
    case Text(s) => Some(s)
    case Other(b) => b
    case _ => None
  }

  /** `s.slice(0, -1)`: the string without its last character, or "" for "". */
  function DropLast(s: string): (r: string)
    ensures s == "" ==> r == ""
    ensures s != "" ==> r + [s[|s| - 1]] == s
  {
    if |s| == 0 then s else s[..|s| - 1]
  }

  /** `text.split(': ')[0]`. */
  function FieldKey(text: string): string
  {
    SplitOn(text, FieldSeparator)[0]
  }

  /** `text.split(': ')[1]`, `undefined` when there is no separator. */
  function FieldValue(text: string): Option<string>
  {
    var parts := SplitOn(text, FieldSeparator);
    if |parts| > 1 then Some(parts[1]) else None
  }

  /** What a list item stores: `shell` becomes `bash` in the `language_tabs` list. */
  function ItemValue(listName: string, text: string): string
  {
    if listName == LanguageTabs && text == "shell" then "bash" else text
  }

  /** A paragraph that is immediately followed by a list start names a list. */
  predicate IntroducesList(tokens: seq<Token>, i: nat)
  {
    i + 1 < |tokens| && tokens[i].Paragraph? && tokens[i + 1].ListStart?
  }

  /** One iteration of the loop body, including the loop's own `idx++`. */
  function Step(tokens: seq<Token>, w: Walker): (r: Result<Walker, WalkError>)
    requires w.idx < |tokens|
    ensures r.Err? ==> tokens[w.idx].ListItemStart? && w.listName != ""
    ensures r.Ok? ==> w.idx < r.value.idx <= w.idx + 3
  {
    var token := tokens[w.idx];
    if token.ListItemStart? && w.listName != "" then
      if w.idx + 1 == |tokens| then Err(ItemPastEnd)
      else
        var item := TextOf(tokens[w.idx + 1]);
        if w.listName !in w.data || !w.data[w.listName].Items? then Err(PushOntoNonList(w.listName))
        else if item.None? then Err(ItemWithoutText)
        else
          var items := w.data[w.listName].items + [ItemValue(w.listName, item.value)];
          Ok(Walker(w.idx + 3, w.listName, w.data[w.listName := Items(items)]))
    else if token.Paragraph? then
      if IntroducesList(tokens, w.idx) then
        var name := DropLast(token.text);
        Ok(Walker(w.idx + 1, name, w.data[name := Items([])]))
      else
        Ok(Walker(w.idx + 1, w.listName, w.data[FieldKey(token.text) := Scalar(FieldValue(token.text))]))
    else
      Ok(Walker(w.idx + 1, w.listName, w.data))
  }

  /** The loop from the state `w` to the end of the tokens. */
  function Run(tokens: seq<Token>, w: Walker): (r: Result<Walker, WalkError>)
    ensures r.Ok? ==> |tokens| <= r.value.idx && w.idx <= r.value.idx
    decreases |tokens| - w.idx
  {
    if w.idx >= |tokens| then Ok(w)
    else
      match Step(tokens, w)
      case Err(e) => Err(e)
      case Ok(next) => Run(tokens, next)
  }

  /** The metadata the walk produces, starting with no list name and an empty map. */
  function Walk(tokens: seq<Token>): Result<Metadata, WalkError>
  {
    match Run(tokens, Walker(0, "", map[]))
    case Err(e) => Err(e)
    case Ok(w) => Ok(w.data)
  }

  /**
   * The loop itself. The index is bumped by two inside the body after a list
   * item, on top of the loop's own increment; `listName` starts `undefined`,
   * which behaves like the empty string: both are falsy.
   */
  method WalkFrontMatter(tokens: seq<Token>) returns (r: Result<Metadata, WalkError>)
    ensures r == Walk(tokens)
  {
    var data: Metadata := map[];
    var listName := "";
    var idx := 0;
    while idx < |tokens|
      invariant Run(tokens, Walker(idx, listName, data)) == Run(tokens, Walker(0, "", map[]))
      decreases |tokens| - idx
    {
      var token := tokens[idx];
      if token.ListItemStart? && listName != "" {
        if idx + 1 == |tokens| {
          return Err(ItemPastEnd);
        }
        var item := TextOf(tokens[idx + 1]);
        if item == Some("shell") && listName == LanguageTabs {
          item := Some("bash");
        }
        if listName !in data || !data[listName].Items? {
          return Err(PushOntoNonList(listName));
        }
        if item.None? {
          return Err(ItemWithoutText);
        }
        data := data[listName := Items(data[listName].items + [item.value])];
        idx := idx + 2;
      } else if token.Paragraph? {
        if idx + 1 < |tokens| && tokens[idx + 1].ListStart? {
          listName := DropLast(token.text);
          data := data[listName := Items([])];
        } else {
          var parts := SplitOn(token.text, FieldSeparator);
          data := data[parts[0] := Scalar(if |parts| > 1 then Some(parts[1]) else None)];
        }
      }
      idx := idx + 1;
    }
    return Ok(data);
  }

  // ---------------------------------------------------------------------
  // Well-formed list and scalar blocks

  /** The tokens of a tight list's items: item start, its text, item end. */
  function ItemRun(xs: seq<string>): (ts: seq<Token>)
    ensures |ts| == 3 * |xs|
  {
    if |xs| == 0 then [] else [ListItemStart, Text(xs[0]), Other(None)] + ItemRun(xs[1..])
  }

  /** The tokens of `name:` followed by a list of `xs`. */
  function ListBlock(name: string, xs: seq<string>): (ts: seq<Token>)
    ensures |ts| == 3 * |xs| + 3
  {
    [Paragraph(name + ":"), ListStart] + ItemRun(xs) + [Other(None)]
  }

  /** The values the list `name` stores for the items `xs`. */
  function Stored(name: string, xs: seq<string>): (ys: seq<string>)
    ensures |ys| == |xs|
  {
    seq(|xs|, i requires 0 <= i < |xs| => ItemValue(name, xs[i]))
  }

  lemma StoredCons(name: string, xs: seq<string>)
    requires |xs| > 0
    ensures [ItemValue(name, xs[0])] + Stored(name, xs[1..]) == Stored(name, xs)
  {
    var a, b := [ItemValue(name, xs[0])] + Stored(name, xs[1..]), Stored(name, xs);
    forall i | 0 <= i < |xs| ensures a[i] == b[i] {
      if i > 0 {
        assert a[i] == Stored(name, xs[1..])[i - 1] == ItemValue(name, xs[1..][i - 1]);
      }
    }
  }

  /**
   * From `at` on, `tokens` holds one list item per text in `xs`: an item
   * start followed by a token whose `text` is that text.
   */
  predicate ItemsAt(tokens: seq<Token>, at: nat, xs: seq<string>)
    decreases |xs|
  {
    |xs| == 0 ||
    (at + 1 < |tokens| && tokens[at] == ListItemStart && TextOf(tokens[at + 1]) == Some(xs[0]) &&
     ItemsAt(tokens, at + 3, xs[1..]))
  }

  /** The tokens of a tight list's items hold those items. */
  lemma {:induction false} ItemRunHoldsItems(pre: seq<Token>, xs: seq<string>, post: seq<Token>)
    ensures ItemsAt(pre + ItemRun(xs) + post, |pre|, xs)
    decreases |xs|
  {
    if |xs| > 0 {
      ItemRunCons(pre, xs, post);
      ItemRunHoldsItems(pre + [ListItemStart, Text(xs[0]), Other(None)], xs[1..], post);
    }
  }

  /** A run of list items appends their texts to the current list, in token order. */
  lemma {:induction false} ItemsAppendInOrder(tokens: seq<Token>, at: nat, xs: seq<string>, name: string, data: Metadata)
    requires name != "" && name in data && data[name].Items? && ItemsAt(tokens, at, xs)
    ensures Run(tokens, Walker(at, name, data))
         == Run(tokens, Walker(at + 3 * |xs|, name, data[name := Items(data[name].items + Stored(name, xs))]))
    decreases |xs|
  {
    if |xs| == 0 {
      assert Stored(name, xs) == [];
      assert data[name].items + [] == data[name].items;
      assert data[name := Items(data[name].items)] == data;
    } else {
      ItemStep(tokens, at, name, data, xs[0]);
      var data' := data[name := Items(data[name].items + [ItemValue(name, xs[0])])];
      ItemsAppendInOrder(tokens, at + 3, xs[1..], name, data');
      ItemsRegroup(at, xs, name, data);
    }
  }

  /** One list item whose next token's `text` is `x` appends `x`'s stored value to the current list. */
  lemma ItemStep(tokens: seq<Token>, at: nat, name: string, data: Metadata, x: string)
    requires name != "" && name in data && data[name].Items?
    requires at + 1 < |tokens| && tokens[at] == ListItemStart && TextOf(tokens[at + 1]) == Some(x)
    ensures Run(tokens, Walker(at, name, data))
         == Run(tokens, Walker(at + 3, name, data[name := Items(data[name].items + [ItemValue(name, x)])]))
  {
    var w := Walker(at, name, data);
    var next := Walker(at + 3, name, data[name := Items(data[name].items + [ItemValue(name, x)])]);
    assert Step(tokens, w) == Ok(next);
    assert Run(tokens, w) == Run(tokens, next);
  }

  /** From `at` on, `tokens` holds a list block: `name:`, the list start, the items `xs`, the list end. */
  predicate ListBlockAt(tokens: seq<Token>, at: nat, name: string, xs: seq<string>)
  {
    at + 2 + 3 * |xs| < |tokens| &&
    tokens[at] == Paragraph(name + ":") && tokens[at + 1] == ListStart &&
    ItemsAt(tokens, at + 2, xs) && tokens[at + 2 + 3 * |xs|] == Other(None)
  }

  /**
   * A list block makes its name the current list and (re)initialises the field
   * to exactly its items, whatever the field held before.
   */
  lemma ListBlockSetsField(tokens: seq<Token>, at: nat, name: string, xs: seq<string>, listName: string, data: Metadata)
    requires name != "" && ListBlockAt(tokens, at, name, xs)
    ensures Run(tokens, Walker(at, listName, data))
         == Run(tokens, Walker(at + 3 * |xs| + 3, name, data[name := Items(Stored(name, xs))]))
  {
    var end := at + 2 + 3 * |xs|;
    ListBlockOpens(tokens, at, name, listName, data);
    var data1 := data[name := Items([])];
    ItemsAppendInOrder(tokens, at + 2, xs, name, data1);
    var stored := Stored(name, xs);
    ListReset(data, name, stored);
    var data2 := data[name := Items(stored)];
    SkipAt(tokens, end, name, data2);
    assert Walker(at + 2 + 3 * |xs|, name, data1[name := Items(data1[name].items + stored)]) == Walker(end, name, data2);
    var r0, r1 := Run(tokens, Walker(at, listName, data)), Run(tokens, Walker(at + 2, name, data1));
    var r2, r3 := Run(tokens, Walker(end, name, data2)), Run(tokens, Walker(end + 1, name, data2));
    assert r0 == r1 == r2 == r3;
  }

  /** The tokens of a list block, wherever they sit, form a list block. */
  lemma ListBlockShape(pre: seq<Token>, name: string, xs: seq<string>, post: seq<Token>)
    ensures ListBlockAt(pre + ListBlock(name, xs) + post, |pre|, name, xs)
  {
    var open := pre + [Paragraph(name + ":"), ListStart];
    var close := [Other(None)] + post;
    ListBlockRegroup(pre, name, xs, post);
    ItemRunHoldsItems(open, xs, close);
    var tokens := open + ItemRun(xs) + close;
    assert tokens[|open| + 3 * |xs|] == close[0];
  }

  /** The list end after a block's last item changes nothing. */
  lemma SkipAt(tokens: seq<Token>, at: nat, name: string, data: Metadata)
    requires at < |tokens| && tokens[at] == Other(None)
    ensures Run(tokens, Walker(at, name, data)) == Run(tokens, Walker(at + 1, name, data))
  {
    TokenSkipped(tokens, Walker(at, name, data));
  }

  /**
   * A token that is not a paragraph, and is not a list item while a list is
   * current, changes neither the list name nor the map; in particular a list
   * item before any list name is set adds nothing.
   */
  lemma TokenSkipped(tokens: seq<Token>, w: Walker)
    requires w.idx < |tokens| && !tokens[w.idx].Paragraph?
    requires !(tokens[w.idx].ListItemStart? && w.listName != "")
    ensures Step(tokens, w) == Ok(Walker(w.idx + 1, w.listName, w.data))
  {
  }

  /**
   * A paragraph followed by a list start makes its text minus the last
   * character the current list, and sets that field to an empty list.
   */
  lemma ListParagraphStep(tokens: seq<Token>, w: Walker)
    requires w.idx < |tokens| && IntroducesList(tokens, w.idx)
    ensures var name := DropLast(tokens[w.idx].text);
            (tokens[w.idx].text != "" ==> |name| == |tokens[w.idx].text| - 1) &&
            name <= tokens[w.idx].text &&
            Step(tokens, w) == Ok(Walker(w.idx + 1, name, w.data[name := Items([])]))
  {
  }

  /** Any other paragraph stores its value under its key and leaves the list name alone. */
  lemma ScalarParagraphStep(tokens: seq<Token>, w: Walker)
    requires w.idx < |tokens| && tokens[w.idx].Paragraph? && !IntroducesList(tokens, w.idx)
    ensures var text := tokens[w.idx].text;
            Step(tokens, w) == Ok(Walker(w.idx + 1, w.listName, w.data[FieldKey(text) := Scalar(FieldValue(text))]))
  {
  }

  /** The `name:` paragraph and the list start of a list block. */
  lemma ListBlockOpens(tokens: seq<Token>, at: nat, name: string, listName: string, data: Metadata)
    requires name != ""
    requires at + 1 < |tokens| && tokens[at] == Paragraph(name + ":") && tokens[at + 1] == ListStart
    ensures Run(tokens, Walker(at, listName, data)) == Run(tokens, Walker(at + 2, name, data[name := Items([])]))
  {
    DropColon(name);
    var data1 := data[name := Items([])];
    var w0, w1, w2 := Walker(at, listName, data), Walker(at + 1, name, data1), Walker(at + 2, name, data1);
    ListParagraphStep(tokens, w0);
    TokenSkipped(tokens, w1);
    assert Run(tokens, w0) == Run(tokens, w1) == Run(tokens, w2);
  }

  /** The list name of a `name:` paragraph is `name`. */
  lemma DropColon(name: string)
    ensures DropLast(name + ":") == name
  {
    assert (name + ":")[..|name|] == name;
  }

  /** The first `: ` in `k + rest` is the one `rest` starts with, when `k` has none. */
  lemma FirstSeparator(k: string, rest: string)
    requires !Contains(k, FieldSeparator) && OccursAt(rest, FieldSeparator, 0)
    ensures IndexOf(k + rest, FieldSeparator) == Some(|k|)
  {
    var s := k + rest;
    OccursAtShift(k, rest, FieldSeparator, 0);
    forall j: nat | j < |k| ensures !OccursAt(s, FieldSeparator, j) {
      if j + 2 <= |k| {
        OccursAtPrefix(k, rest, FieldSeparator, j);
      } else {
        assert s[j + 1] == rest[0];
        ColonNotSeparator(s, j);
      }
    }
  }

  /** A `: ` cannot start right before a `:`. */
  lemma ColonNotSeparator(s: string, j: nat)
    requires j + 1 < |s| && s[j + 1] == ':'
    ensures !OccursAt(s, FieldSeparator, j)
  {
    assert FieldSeparator[1] == ' ';
    assert j + 2 > |s| || s[j..j + 2][1] == ':';
  }

  /**
   * A paragraph `k: v` (optionally followed by more `: `-separated text)
   * stores `v` under `k`: the key ends at the first separator and the value
   * at the second.
   */
  lemma ParagraphField(k: string, v: string, more: string)
    requires !Contains(k, FieldSeparator) && !Contains(v, FieldSeparator)
    requires more == "" || OccursAt(more, FieldSeparator, 0)
    ensures FieldKey(k + FieldSeparator + v + more) == k
    ensures FieldValue(k + FieldSeparator + v + more) == Some(v)
  {
    var text := k + FieldSeparator + v + more;
    var tail := v + more;
    assert text == k + (FieldSeparator + tail);
    FirstSeparator(k, FieldSeparator + tail);
    assert text[..|k|] == k;
    assert text[|k| + 2..] == tail;
    assert SplitOn(text, FieldSeparator) == [k] + SplitOn(tail, FieldSeparator);
    if more == "" {
      assert tail == v;
      assert IndexOf(v, FieldSeparator).None?;
      assert SplitOn(tail, FieldSeparator) == [v];
    } else {
      FirstSeparator(v, more);
      assert tail[..|v|] == v;
      assert SplitOn(tail, FieldSeparator)[0] == v;
    }
  }

  /** A paragraph without a separator stores `undefined` under its whole text. */
  lemma ParagraphWithoutSeparator(text: string)
    requires !Contains(text, FieldSeparator)
    ensures FieldKey(text) == text && FieldValue(text) == None
  {
  }

  /** A `k: v` paragraph not followed by a list start sets the scalar field `k`, and nothing else. */
  lemma ScalarParagraphSetsField(tokens: seq<Token>, at: nat, k: string, v: string, listName: string, data: Metadata)
    requires !Contains(k, FieldSeparator) && !Contains(v, FieldSeparator)
    requires at < |tokens| && tokens[at] == Paragraph(k + FieldSeparator + v) && !IntroducesList(tokens, at)
    ensures Run(tokens, Walker(at, listName, data)) == Run(tokens, Walker(at + 1, listName, data[k := Scalar(Some(v))]))
  {
    ScalarField(k, v);
    var w := Walker(at, listName, data);
    ScalarParagraphStep(tokens, w);
    RunThroughStep(tokens, w, Walker(at + 1, listName, data[k := Scalar(Some(v))]));
  }

  /** A step that succeeds hands the rest of the loop its new state. */
  lemma RunThroughStep(tokens: seq<Token>, w: Walker, next: Walker)
    requires w.idx < |tokens| && Step(tokens, w) == Ok(next)
    ensures Run(tokens, w) == Run(tokens, next)
  {
  }

  lemma ScalarField(k: string, v: string)
    requires !Contains(k, FieldSeparator) && !Contains(v, FieldSeparator)
    ensures FieldKey(k + FieldSeparator + v) == k && FieldValue(k + FieldSeparator + v) == Some(v)
  {
    ParagraphField(k, v, "");
    assert k + FieldSeparator + v + "" == k + FieldSeparator + v;
  }

  // ---------------------------------------------------------------------
  // Invariants of the whole walk

  /** Without a list-introducing paragraph ahead, the current list name is never changed. */
  lemma {:induction false} ListNameKept(tokens: seq<Token>, w: Walker)
    requires forall i :: w.idx <= i < |tokens| ==> !IntroducesList(tokens, i)
    ensures Run(tokens, w).Ok? ==> Run(tokens, w).value.listName == w.listName
    decreases |tokens| - w.idx
  {
    if w.idx < |tokens| && Step(tokens, w).Ok? {
      ListNameKept(tokens, Step(tokens, w).value);
    }
  }

  /**
   * While no list name has been set, list items add nothing: the walk cannot
   * fail and every field it adds or changes is a scalar.
   */
  lemma {:induction false} NoListNoItems(tokens: seq<Token>, w: Walker)
    requires w.listName == ""
    requires forall i :: w.idx <= i < |tokens| ==> !IntroducesList(tokens, i)
    ensures Run(tokens, w).Ok?
    ensures forall k :: k in Run(tokens, w).value.data ==>
              Run(tokens, w).value.data[k].Scalar? || (k in w.data && Run(tokens, w).value.data[k] == w.data[k])
    decreases |tokens| - w.idx
  {
    if w.idx < |tokens| {
      var next := Step(tokens, w).value;
      assert next.listName == "" && next.idx == w.idx + 1;
      NoListNoItems(tokens, next);
    }
  }

  /** Fields are only ever added or overwritten, never removed. */
  lemma {:induction false} KeysOnlyGrow(tokens: seq<Token>, w: Walker)
    ensures Run(tokens, w).Ok? ==> w.data.Keys <= Run(tokens, w).value.data.Keys
    decreases |tokens| - w.idx
  {
    if w.idx < |tokens| && Step(tokens, w).Ok? {
      KeysOnlyGrow(tokens, Step(tokens, w).value);
    }
  }

  // ---------------------------------------------------------------------
  // Whole front matters

  /** A front matter made of one list block yields exactly that list. */
  lemma SingleList(name: string, xs: seq<string>)
    requires name != ""
    ensures Walk(ListBlock(name, xs)) == Ok(map[name := Items(Stored(name, xs))])
  {
    var ts := ListBlock(name, xs);
    assert [] + ts + [] == ts;
    ListBlockShape([], name, xs, []);
    ListBlockSetsField(ts, 0, name, xs, "", map[]);
  }

  /** A second list with the same name discards the first one's items. */
  lemma RepeatedListResets(name: string, xs: seq<string>, ys: seq<string>)
    requires name != ""
    ensures Walk(ListBlock(name, xs) + ListBlock(name, ys)) == Ok(map[name := Items(Stored(name, ys))])
  {
    var a, b := ListBlock(name, xs), ListBlock(name, ys);
    var ts := a + b;
    assert [] + a + b == ts && a + b + [] == ts;
    ListBlockShape([], name, xs, b);
    ListBlockShape(a, name, ys, []);
    BlocksInSequence(ts, |a|, name, xs, ys);
  }

  /** Two list blocks of the same name that make up the whole token sequence. */
  lemma BlocksInSequence(ts: seq<Token>, mid: nat, name: string, xs: seq<string>, ys: seq<string>)
    requires name != "" && mid == 3 * |xs| + 3 && |ts| == mid + 3 * |ys| + 3
    requires ListBlockAt(ts, 0, name, xs) && ListBlockAt(ts, mid, name, ys)
    ensures Walk(ts) == Ok(map[name := Items(Stored(name, ys))])
  {
    var m1: Metadata := map[name := Items(Stored(name, xs))];
    var m2: Metadata := map[name := Items(Stored(name, ys))];
    ListBlockSetsField(ts, 0, name, xs, "", map[]);
    assert map[][name := Items(Stored(name, xs))] == m1;
    ListBlockSetsField(ts, mid, name, ys, name, m1);
    assert m1[name := Items(Stored(name, ys))] == m2;
    RunPastEnd(ts, Walker(|ts|, name, m2));
  }

  /** At the end of the tokens the loop stops with the state it has. */
  lemma RunPastEnd(tokens: seq<Token>, w: Walker)
    requires |tokens| <= w.idx
    ensures Run(tokens, w) == Ok(w)
  {
  }

  /** In the `language_tabs` list an item `shell` is stored as `bash`; other items are stored as written. */
  lemma LanguageTabsStored(xs: seq<string>, i: nat)
    requires i < |xs|
    ensures Stored(LanguageTabs, xs)[i] == (if xs[i] == "shell" then "bash" else xs[i])
    ensures forall name :: name != LanguageTabs ==> Stored(name, xs) == xs
  {
  }

  /** A list item as the last token, while a list name is set, throws: there is no next token to read. */
  lemma ItemPastEndAtLast(tokens: seq<Token>, w: Walker)
    requires |tokens| > 0 && w.idx == |tokens| - 1 && tokens[w.idx] == ListItemStart && w.listName != ""
    ensures Run(tokens, w) == Err(ItemPastEnd)
  {
  }

  /** A list item as the last token while no list name is set is skipped, and the walk ends there. */
  lemma ItemWithoutListSkipped(tokens: seq<Token>, w: Walker)
    requires |tokens| > 0 && w.idx == |tokens| - 1 && tokens[w.idx] == ListItemStart && w.listName == ""
    ensures Run(tokens, w) == Ok(Walker(|tokens|, "", w.data))
  {
  }

  /** A list item right after the list start, as the last token, throws. */
  lemma ItemAtEndFails()
    ensures Walk([Paragraph("includes:"), ListStart, ListItemStart]) == Err(ItemPastEnd)
  {
  }

  /** A list item after its field was overwritten by a scalar of the same name throws. */
  lemma ItemAfterShadowingScalarFails(name: string, v: string, y: string)
    requires name != "" && !Contains(name, FieldSeparator) && !Contains(v, FieldSeparator)
    ensures Walk([Paragraph(name + ":"), ListStart, Paragraph(name + FieldSeparator + v), ListItemStart, Text(y)])
         == Err(PushOntoNonList(name))
  {
    ShadowedListFails([Paragraph(name + ":"), ListStart, Paragraph(name + FieldSeparator + v), ListItemStart, Text(y)], name, v);
  }

  lemma ShadowedListFails(tokens: seq<Token>, name: string, v: string)
    requires name != "" && !Contains(name, FieldSeparator) && !Contains(v, FieldSeparator)
    requires |tokens| > 4 && tokens[0] == Paragraph(name + ":") && tokens[1] == ListStart
    requires tokens[2] == Paragraph(name + FieldSeparator + v) && tokens[3] == ListItemStart
    ensures Walk(tokens) == Err(PushOntoNonList(name))
  {
    ListBlockOpens(tokens, 0, name, "", map[]);
    var d := map[name := Items([])];
    ScalarParagraphSetsField(tokens, 2, name, v, name, d);
    var d' := d[name := Scalar(Some(v))];
    PushOntoScalarFails(tokens, 3, name, d');
    assert Run(tokens, Walker(0, "", map[])) == Run(tokens, Walker(2, name, d)) == Run(tokens, Walker(3, name, d'));
  }

  /** An item whose current list name holds a scalar makes the walk fail. */
  lemma PushOntoScalarFails(tokens: seq<Token>, at: nat, name: string, data: Metadata)
    requires at + 1 < |tokens| && tokens[at] == ListItemStart
    requires name != "" && name in data && data[name].Scalar?
    ensures Run(tokens, Walker(at, name, data)) == Err(PushOntoNonList(name))
  {
    assert Step(tokens, Walker(at, name, data)) == Err(PushOntoNonList(name));
  }

  // ---------------------------------------------------------------------
  // Regrouping helpers: token-list and map layouts, stated once so that the
  // proofs above need not rediscover them

  lemma ItemRunCons(pre: seq<Token>, xs: seq<string>, post: seq<Token>)
    requires |xs| > 0
    ensures pre + ItemRun(xs) + post == (pre + [ListItemStart, Text(xs[0]), Other(None)]) + ItemRun(xs[1..]) + post
  {
  }

  lemma ListBlockRegroup(pre: seq<Token>, name: string, xs: seq<string>, post: seq<Token>)
    ensures pre + ListBlock(name, xs) + post
         == (pre + [Paragraph(name + ":"), ListStart]) + ItemRun(xs) + ([Other(None)] + post)
  {
  }

  lemma ItemsRegroup(at: nat, xs: seq<string>, name: string, data: Metadata)
    requires |xs| > 0 && name in data && data[name].Items?
    ensures var data' := data[name := Items(data[name].items + [ItemValue(name, xs[0])])];
            Walker(at + 3 + 3 * |xs[1..]|, name, data'[name := Items(data'[name].items + Stored(name, xs[1..]))])
            == Walker(at + 3 * |xs|, name, data[name := Items(data[name].items + Stored(name, xs))])
  {
    StoredCons(name, xs);
    AppendTwice(data, name, [ItemValue(name, xs[0])], Stored(name, xs[1..]));
  }

  lemma AppendTwice(data: Metadata, name: string, a: seq<string>, b: seq<string>)
    requires name in data && data[name].Items?
    ensures var data' := data[name := Items(data[name].items + a)];
            data'[name := Items(data'[name].items + b)] == data[name := Items(data[name].items + (a + b))]
  {
    assert data[name].items + a + b == data[name].items + (a + b);
  }

  lemma ListReset(data: Metadata, name: string, stored: seq<string>)
    ensures var data1 := data[name := Items([])];
            data1[name := Items(data1[name].items + stored)] == data[name := Items(stored)]
  {
    assert [] + stored == stored;
  }
}
