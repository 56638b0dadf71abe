/**
 * Collection and string helpers of the allocator's interpreter
 * (Src/Allocator/Interpreter/helpers.py): list padding, pairing, and the
 * caret underline placed under literal matches in a line of text.
 */
module InterpreterHelpers {
  import opened Common

  // ------------------------------------------------ pad_lists_to_same_length

  function RepeatElem<T>(x: T, n: nat): (r: seq<T>)
    ensures |r| == n && forall k :: 0 <= k < n ==> r[k] == x
  {
    if n == 0 then [] else [x] + RepeatElem(x, n - 1)
  }

  function Max(a: nat, b: nat): nat {
    if a < b then b else a
  }

  /**
   * `pad_lists_to_same_length(list1, list2)`: an empty list raises ValueError;
   * otherwise the shorter list is extended with copies of its own last element
   * until both have the longer length, and the longer list is returned as is.
   */
  function PadListsToSameLength<T>(list1: seq<T>, list2: seq<T>): (r: Result<(seq<T>, seq<T>)>)
    ensures r.Err? <==> list1 == [] || list2 == []
    ensures r.Err? ==> r.error == ValueError
    ensures r.Ok? ==> var (p1, p2) := r.value;
      && |p1| == |p2| == Max(|list1|, |list2|)
      && list1 <= p1 && list2 <= p2
      && (|list1| >= |list2| ==> p1 == list1)
      && (|list2| >= |list1| ==> p2 == list2)
      && (forall k :: |list1| <= k < |p1| ==> p1[k] == list1[|list1| - 1])
      && (forall k :: |list2| <= k < |p2| ==> p2[k] == list2[|list2| - 1])
  {
    if list1 == [] || list2 == [] then Err(ValueError)
    else if |list1| == |list2| then Ok((list1, list2))
    else if |list1| < |list2| then
      Ok((list1 + RepeatElem(list1[|list1| - 1], |list2| - |list1|), list2))
    else
      Ok((list1, list2 + RepeatElem(list2[|list2| - 1], |list1| - |list2|)))
  }

  /** Lists of equal length come back unchanged. */
  lemma PadEqualLengthsUnchanged<T>(list1: seq<T>, list2: seq<T>)
    requires list1 != [] && list2 != [] && |list1| == |list2|
    ensures PadListsToSameLength(list1, list2) == Ok((list1, list2))
  {
  }

  // ------------------------------------------------------------- pairwise

  /**
   * `pairwise(t)` is `zip(it, it)` over one iterator: consecutive elements are
   * paired and an odd trailing element is dropped.
   */
  function Pairwise<T>(t: seq<T>): (r: seq<(T, T)>)
    ensures |r| == |t| / 2
    ensures forall k :: 0 <= k < |r| ==> r[k] == (t[2 * k], t[2 * k + 1])
  {
    if |t| < 2 then [] else [(t[0], t[1])] + Pairwise(t[2..])
  }

  // ----------------------------------------------------------- underlines

  /** One underlined match: the end offset reached and the two pieces (spaces, carets). */
  datatype Underline = Underline(end: nat, pieces: seq<string>)

  /**
   * `underline_match(text, to_match, start_index, end_index)`: `None` when
   * `to_match` does not occur in `text[start_index:end_index]`; otherwise the
   * match index `i` is preceded by `i - start_index` spaces and followed by
   * carets up to `end_index`, which defaults to the end of the match.
   */
  function UnderlineMatch(text: string, toMatch: string, start: nat, end: Option<nat>): (r: Option<Underline>)
    ensures r.None? <==> Find(text, toMatch, start, end).None?
    ensures r.Some? ==>
      var i := Find(text, toMatch, start, end).value;
      && OccursAt(text, toMatch, i) && start <= i
      && (forall j :: start <= j < i ==> !OccursAt(text, toMatch, j))
      && r.value.end == (if end.Some? then end.value else i + |toMatch|)
      && |r.value.pieces| == 2
      && r.value.pieces[0] == Repeat(' ', i - start)
      && r.value.end >= i && |r.value.pieces[1]| == r.value.end - i
      && (forall k :: 0 <= k < |r.value.pieces[1]| ==> r.value.pieces[1][k] == '^')
  {
    match Find(text, toMatch, start, end)
    case None => None
    case Some(i) =>
      var e := if end.Some? then end.value else i + |toMatch|;
      Some(Underline(e, [Repeat(' ', i - start), Repeat('^', e - i)]))
  }

  /** What `underline_matches` is asked to underline: one literal, or several in turn. */
  datatype ToMatch = Literal(s: string) | Items(items: seq<string>)

  /**
   * The spans `[s, e)` that the iterable path of `underline_matches` underlines:
   * each item is searched from the end of the previous match, and an item that
   * is not found is skipped without moving the search position.
   */
  function ItemSpans(text: string, items: seq<string>, from: nat): seq<(nat, nat)>
    decreases |items|
  {
    if items == [] then []
    else match Find(text, items[0], from, None)
      case None => ItemSpans(text, items[1..], from)
      case Some(i) => [(i, i + |items[0]|)] + ItemSpans(text, items[1..], i + |items[0]|)
  }

  /** Spans that start at or after `cur`, each one at or after the end of the previous one. */
  predicate Chained(spans: seq<(nat, nat)>, cur: nat)
    decreases |spans|
  {
    spans == [] || (cur <= spans[0].0 <= spans[0].1 && Chained(spans[1..], spans[0].1))
  }

  function EndOf(spans: seq<(nat, nat)>, cur: nat): nat {
    if spans == [] then cur else spans[|spans| - 1].1
  }

  /**
   * The piece drawn for one match `[s, e)` when the previous one ended at
   * `cur`: Python's `' ' * (s - cur) + '^' * (e - s)`, where a negative count
   * gives the empty string.
   */
  function Piece(cur: nat, s: nat, e: nat): string {
    Repeat(' ', if s >= cur then s - cur else 0) + Repeat('^', if e >= s then e - s else 0)
  }

  /** The underline drawn for `spans` when the previous match ended at `cur`. */
  function UnderlineOf(spans: seq<(nat, nat)>, cur: nat): string
    decreases |spans|
  {
    if spans == [] then ""
    else Piece(cur, spans[0].0, spans[0].1) + UnderlineOf(spans[1..], spans[0].1)
  }

  lemma {:induction false} UnderlineOfAppend(spans: seq<(nat, nat)>, cur: nat, s: nat, e: nat)
    ensures UnderlineOf(spans + [(s, e)], cur) == UnderlineOf(spans, cur) + Piece(EndOf(spans, cur), s, e)
    decreases |spans|
  {
    var t := spans + [(s, e)];
    if spans == [] {
      assert t == [(s, e)];
      assert UnderlineOf(t, cur) == Piece(cur, s, e) + UnderlineOf([], e);
    } else {
      var head := Piece(cur, spans[0].0, spans[0].1);
      assert t[0] == spans[0];
      assert t[1..] == spans[1..] + [(s, e)];
      assert EndOf(spans[1..], spans[0].1) == EndOf(spans, cur);
      UnderlineOfAppend(spans[1..], spans[0].1, s, e);
      assert UnderlineOf(t, cur) == head + UnderlineOf(t[1..], spans[0].1);
    }
  }

  /** The spans are chained: each starts at or after the end of the one before. */
  lemma {:induction false} ItemSpansChained(text: string, items: seq<string>, from: nat)
    ensures Chained(ItemSpans(text, items, from), from)
    decreases |items|
  {
    if items != [] {
      match Find(text, items[0], from, None)
      case None =>
        ItemSpansChained(text, items[1..], from);
      case Some(i) =>
        ItemSpansChained(text, items[1..], i + |items[0]|);
    }
  }

  /** Where the search for the item of span `k` starts: `from`, or the end of span `k - 1`. */
  function CurAt(spans: seq<(nat, nat)>, k: nat, from: nat): nat
    requires k <= |spans|
  {
    if k == 0 then from else spans[k - 1].1
  }

  /** The first item index after the `k`-th found item (`n`, the first item searched, before any). */
  function GapStart(idx: seq<nat>, k: nat, n: nat): nat
    requires k <= |idx|
  {
    if k == 0 then n else idx[k - 1] + 1
  }

  /** The index of the `k`-th found item, or `end` after the last one. */
  function GapEnd(idx: seq<nat>, k: nat, end: nat): nat
    requires k <= |idx|
  {
    if k == |idx| then end else idx[k]
  }

  /** Found items keep their order. */
  predicate Increasing(idx: seq<nat>) {
    forall k, l :: 0 <= k < l < |idx| ==> idx[k] < idx[l]
  }

  /** `span` is the first occurrence of `item` from `cur` on, with the item's length. */
  predicate SpanOf(text: string, item: string, cur: nat, span: (nat, nat)) {
    && OccursAt(text, item, span.0)
    && span.1 == span.0 + |item|
    && Find(text, item, cur, None) == Some(span.0)
  }

  /**
   * Span `k` is the span of item `idx[k]` (an index at or after `n`),
   * searched for from the end of the span before it.
   */
  predicate SpansOfItems(text: string, items: seq<string>, n: nat, from: nat, spans: seq<(nat, nat)>, idx: seq<nat>) {
    && |idx| == |spans|
    && forall k {:trigger idx[k]} :: 0 <= k < |idx| ==> n <= idx[k] < |items| && SpanOf(text, items[idx[k]], CurAt(spans, k, from), spans[k])
  }

  /** Every item between found items `k - 1` and `k` does not occur from the end of span `k - 1` on. */
  predicate GapsSkipped(text: string, items: seq<string>, n: nat, from: nat, spans: seq<(nat, nat)>, idx: seq<nat>) {
    forall k, j :: 0 <= k <= |idx| && k <= |spans| && GapStart(idx, k, n) <= j < GapEnd(idx, k, |items|) && j < |items| ==>
      Find(text, items[j], CurAt(spans, k, from), None).None?
  }

  /** The three properties for the items from index `n` on. */
  predicate ItemsFound(text: string, items: seq<string>, n: nat, from: nat, idx: seq<nat>)
    requires n <= |items|
  {
    var spans := ItemSpans(text, items[n..], from);
    Increasing(idx) && SpansOfItems(text, items, n, from, spans, idx) && GapsSkipped(text, items, n, from, spans, idx)
  }

  /**
   * Which items the iterable path underlines: span `k` belongs to item
   * `idx[k]`, found items keep their order, each span is the first
   * occurrence of its item from the end of the span before (or from
   * `from`) and is as long as the item, and each item between two found
   * ones is skipped because it does not occur from that end on.
   */
  lemma ItemSpansFound(text: string, items: seq<string>, from: nat) returns (idx: seq<nat>)
    ensures var spans := ItemSpans(text, items, from);
      Increasing(idx) && SpansOfItems(text, items, 0, from, spans, idx) && GapsSkipped(text, items, 0, from, spans, idx)
  {
    idx := ItemsFoundFrom(text, items, 0, from);
    assert items[0..] == items;
  }

  lemma {:induction false} ItemsFoundFrom(text: string, items: seq<string>, n: nat, from: nat) returns (idx: seq<nat>)
    requires n <= |items|
    ensures ItemsFound(text, items, n, from, idx)
    decreases |items| - n
  {
    if n == |items| {
      idx := [];
    } else {
      assert items[n..][0] == items[n] && items[n..][1..] == items[n + 1..];
      match Find(text, items[n], from, None)
      case None =>
        idx := ItemsFoundFrom(text, items, n + 1, from);
        SkipItem(text, items, n, from, idx);
      case Some(i) =>
        var idx' := ItemsFoundFrom(text, items, n + 1, i + |items[n]|);
        idx := [n] + idx';
        TakeItem(text, items, n, from, i, idx');
    }
  }

  /** An item that is not found adds no span and widens the first gap. */
  lemma SkipItem(text: string, items: seq<string>, n: nat, from: nat, idx: seq<nat>)
    requires n < |items| && Find(text, items[n], from, None).None?
    requires ItemsFound(text, items, n + 1, from, idx)
    ensures ItemsFound(text, items, n, from, idx)
  {
    assert items[n..][0] == items[n] && items[n..][1..] == items[n + 1..];
    var spans := ItemSpans(text, items[n + 1..], from);
    assert ItemSpans(text, items[n..], from) == spans;
    forall k, j | 0 <= k <= |idx| && k <= |spans| && GapStart(idx, k, n) <= j < GapEnd(idx, k, |items|) && j < |items|
      ensures Find(text, items[j], CurAt(spans, k, from), None).None?
    {
      if j == n {
        assert k == 0;
      } else {
        assert GapStart(idx, k, n + 1) <= j;
      }
    }
  }

  /** An item found at `i` adds its span in front. */
  lemma TakeItem(text: string, items: seq<string>, n: nat, from: nat, i: nat, idx: seq<nat>)
    requires n < |items| && Find(text, items[n], from, None) == Some(i)
    requires ItemsFound(text, items, n + 1, i + |items[n]|, idx)
    ensures ItemsFound(text, items, n, from, [n] + idx)
  {
    assert items[n..][0] == items[n] && items[n..][1..] == items[n + 1..];
    var e := i + |items[n]|;
    var spans := ItemSpans(text, items[n + 1..], e);
    assert ItemSpans(text, items[n..], from) == [(i, e)] + spans;
    TakeSpans(text, items, n, from, (i, e), spans, idx);
    TakeGaps(text, items, n, from, (i, e), spans, idx);
  }

  lemma TakeSpans(text: string, items: seq<string>, n: nat, from: nat, first: (nat, nat), spans: seq<(nat, nat)>, idx: seq<nat>)
    requires n < |items| && SpanOf(text, items[n], from, first)
    requires Increasing(idx) && SpansOfItems(text, items, n + 1, first.1, spans, idx)
    ensures Increasing([n] + idx) && SpansOfItems(text, items, n, from, [first] + spans, [n] + idx)
  {
    var all := [first] + spans;
    var t := [n] + idx;
    forall k | 0 < k < |t|
      ensures n <= t[k] < |items| && SpanOf(text, items[t[k]], CurAt(all, k, from), all[k])
    {
      assert t[k] == idx[k - 1];
      TakeSpanAt(text, items, n, from, first, spans, idx, k - 1);
    }
    TakeIncreasing(items, n, idx);
  }

  lemma TakeSpanAt(text: string, items: seq<string>, n: nat, from: nat, first: (nat, nat), spans: seq<(nat, nat)>, idx: seq<nat>, k: nat)
    requires k < |idx| && SpansOfItems(text, items, n + 1, first.1, spans, idx)
    ensures n < idx[k] < |items|
    ensures SpanOf(text, items[idx[k]], CurAt([first] + spans, k + 1, from), ([first] + spans)[k + 1])
  {
    assert ([first] + spans)[k + 1] == spans[k];
  }

  lemma TakeIncreasing(items: seq<string>, n: nat, idx: seq<nat>)
    requires Increasing(idx) && forall k :: 0 <= k < |idx| ==> n < idx[k]
    ensures Increasing([n] + idx)
  {
    var t := [n] + idx;
    forall k, l | 0 <= k < l < |t|
      ensures t[k] < t[l]
    {
      if k > 0 {
        assert t[k] == idx[k - 1];
      }
    }
  }

  lemma TakeGaps(text: string, items: seq<string>, n: nat, from: nat, first: (nat, nat), spans: seq<(nat, nat)>, idx: seq<nat>)
    requires n < |items| && |idx| == |spans|
    requires GapsSkipped(text, items, n + 1, first.1, spans, idx)
    ensures GapsSkipped(text, items, n, from, [first] + spans, [n] + idx)
  {
    var all := [first] + spans;
    var t := [n] + idx;
    forall k, j | 0 <= k <= |t| && k <= |all| && GapStart(t, k, n) <= j < GapEnd(t, k, |items|) && j < |items|
      ensures Find(text, items[j], CurAt(all, k, from), None).None?
    {
      assert k > 0;
      assert GapStart(idx, k - 1, n + 1) <= j < GapEnd(idx, k - 1, |items|);
      assert CurAt(all, k, from) == CurAt(spans, k - 1, first.1);
    }
  }

  /** The underline is as long as the distance from `cur` to the end of the last span. */
  lemma {:induction false} UnderlineLength(spans: seq<(nat, nat)>, cur: nat)
    requires Chained(spans, cur)
    ensures |UnderlineOf(spans, cur)| == EndOf(spans, cur) - cur
    decreases |spans|
  {
    if spans != [] {
      UnderlineLength(spans[1..], spans[0].1);
      if |spans| > 1 {
        assert EndOf(spans[1..], spans[0].1) == EndOf(spans, cur);
      }
    }
  }

  /** Position `p` of the text lies inside one of the spans. */
  predicate Covered(spans: seq<(nat, nat)>, p: nat) {
    exists k :: 0 <= k < |spans| && spans[k].0 <= p < spans[k].1
  }

  /**
   * Carets sit exactly under matched characters: character `k` of the
   * underline is a caret when text position `cur + k` lies inside a span, and
   * a space otherwise.
   */
  lemma {:induction false} UnderlineCarets(spans: seq<(nat, nat)>, cur: nat, k: nat)
    requires Chained(spans, cur)
    requires k < |UnderlineOf(spans, cur)|
    ensures UnderlineOf(spans, cur)[k] == (if Covered(spans, cur + k) then '^' else ' ')
    decreases |spans|
  {
    UnderlineLength(spans, cur);
    var (s, e) := spans[0];
    var u := UnderlineOf(spans, cur);
    var head := Repeat(' ', s - cur) + Repeat('^', e - s);
    assert u == head + UnderlineOf(spans[1..], e);
    if k < s - cur {
      assert u[k] == ' ';
      NotCoveredBefore(spans, cur, cur + k);
    } else if k < e - cur {
      assert u[k] == '^';
      assert spans[0].0 <= cur + k < spans[0].1;
    } else {
      UnderlineCarets(spans[1..], e, k - (e - cur));
      assert u[k] == UnderlineOf(spans[1..], e)[k - (e - cur)];
      CoveredTail(spans, cur + k);
    }
  }

  lemma {:induction false} NotCoveredBefore(spans: seq<(nat, nat)>, cur: nat, p: nat)
    requires Chained(spans, cur) && spans != [] && p < spans[0].0
    ensures !Covered(spans, p)
  {
    forall k | 0 <= k < |spans|
      ensures !(spans[k].0 <= p < spans[k].1)
    {
      ChainedStart(spans, cur, k);
    }
  }

  /** In a chain, every span starts at or after the start of the first one. */
  lemma {:induction false} ChainedStart(spans: seq<(nat, nat)>, cur: nat, k: nat)
    requires Chained(spans, cur) && k < |spans|
    ensures spans[0].0 <= spans[k].0 && cur <= spans[k].0
    decreases k
  {
    if k > 0 {
      ChainedStart(spans[1..], spans[0].1, k - 1);
    }
  }

  lemma CoveredTail(spans: seq<(nat, nat)>, p: nat)
    requires spans != [] && p >= spans[0].1
    ensures Covered(spans, p) <==> Covered(spans[1..], p)
  {
    if Covered(spans, p) {
      var k :| 0 <= k < |spans| && spans[k].0 <= p < spans[k].1;
      assert k > 0;
      assert spans[1..][k - 1] == spans[k];
    }
    if Covered(spans[1..], p) {
      var k :| 0 <= k < |spans[1..]| && spans[1..][k].0 <= p < spans[1..][k].1;
      assert spans[k + 1] == spans[1..][k];
    }
  }

  /**
   * The iterable path of `underline_matches`: each item is underlined with
   * `underline_match(text, item, prev_i)` from the end of the previous match,
   * and an item that is not found adds nothing.
   */
  method UnderlineItems(text: string, items: seq<string>, start: nat) returns (underlined: string)
    ensures underlined == UnderlineOf(ItemSpans(text, items, start), start)
  {
    underlined := "";
    var prev := start;
    ghost var done: seq<(nat, nat)> := [];
    var k := 0;
    while k < |items|
      invariant 0 <= k <= |items|
      invariant prev == EndOf(done, start)
      invariant ItemSpans(text, items, start) == done + ItemSpans(text, items[k..], prev)
      invariant underlined == UnderlineOf(done, start)
    {
      assert items[k..][0] == items[k] && items[k..][1..] == items[k + 1..];
      var m := UnderlineMatch(text, items[k], prev, None);
      if m.Some? {
        var i := Find(text, items[k], prev, None).value;
        assert ItemSpans(text, items[k..], prev) == [(i, m.value.end)] + ItemSpans(text, items[k + 1..], m.value.end);
        assert m.value.pieces[0] + m.value.pieces[1] == Piece(prev, i, m.value.end);
        UnderlineOfAppend(done, start, i, m.value.end);
        underlined := underlined + m.value.pieces[0] + m.value.pieces[1];
        done := done + [(i, m.value.end)];
        prev := m.value.end;
      }
      k := k + 1;
    }
    assert items[k..] == [];
    assert ItemSpans(text, items[k..], prev) == [];
    assert done + [] == done;
  }

  /**
   * The literal paths of `underline_matches` (no `match_all`): a single
   * literal is underlined from `start` up to `end`, and raises TypeError when
   * it is absent (the code unpacks `None`); a collection of items is
   * underlined match after match (the `end` argument is not used there).
   * Either way the result is the text, a newline, and the underline.
   */
  method UnderlineMatches(text: string, toMatch: ToMatch, start: nat, end: Option<nat>) returns (r: Result<string>)
    ensures toMatch.Literal? ==>
      (UnderlineMatch(text, toMatch.s, start, end).None? ==> r == Err(TypeError))
    ensures toMatch.Literal? ==>
      var m := UnderlineMatch(text, toMatch.s, start, end);
      m.Some? ==> r == Ok(text + "\n" + m.value.pieces[0] + m.value.pieces[1])
    ensures toMatch.Items? ==>
      r == Ok(text + "\n" + UnderlineOf(ItemSpans(text, toMatch.items, start), start))
  {
    if toMatch.Literal? {
      var m := UnderlineMatch(text, toMatch.s, start, end);
      if m.None? {
        r := Err(TypeError);
      } else {
        r := Ok(text + "\n" + m.value.pieces[0] + m.value.pieces[1]);
      }
    } else {
      var underlined := UnderlineItems(text, toMatch.items, start);
      r := Ok(text + "\n" + underlined);
    }
  }

  /**
   * For the iterable path: the underline line is exactly as long as the
   * offset of the last match's end from `start`, and its carets sit under
   * matched characters only.
   */
  lemma ItemUnderlineShape(text: string, items: seq<string>, start: nat)
    ensures var spans := ItemSpans(text, items, start);
            var u := UnderlineOf(spans, start);
            && |u| == EndOf(spans, start) - start
            && forall k :: 0 <= k < |u| ==> (u[k] == '^' <==> Covered(spans, start + k))
  {
    var spans := ItemSpans(text, items, start);
    ItemSpansChained(text, items, start);
    UnderlineLength(spans, start);
    forall k | 0 <= k < |UnderlineOf(spans, start)|
      ensures UnderlineOf(spans, start)[k] == '^' <==> Covered(spans, start + k)
    {
      UnderlineCarets(spans, start, k);
    }
  }
}
