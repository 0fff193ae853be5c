/**
 What `inspect` prints for a tree of objects and arrays when `compact` is negative: an object is
 printed on one line exactly if it is at most `k` levels high, where k = -compact.
 */
module InspectRender {
  type byte = b: int | 0 <= b < 0x100
  type bytes = seq<byte>

  const NEWLINE: byte := 0x0A
  const SPACE: byte := 0x20
  const COMMA: byte := 0x2C

  /** A primitive with its text, or a container with the label in front of each item (empty in arrays). */
  datatype Tree = Leaf(text: bytes) | Box(isArray: bool, labels: seq<bytes>, items: seq<Tree>)

  function Max(a: nat, b: nat): nat {
    if a >= b then a else b
  }

  /** A primitive has height 0, a container without containers has height 1. */
  function Height(t: Tree): nat
    decreases t, 0
  {
    if t.Leaf? then 0 else 1 + MaxHeight(t, |t.items|)
  }

  /** The greatest height among the first `n` items. */
  function MaxHeight(t: Tree, n: nat): nat
    requires t.Box? && n <= |t.items|
    decreases t, 0, n
  {
    if n == 0 then 0 else Max(MaxHeight(t, n - 1), Height(t.items[n - 1]))
  }

  function LabelAt(t: Tree, i: nat): bytes {
    if t.Box? && i < |t.labels| then t.labels[i] else []
  }

  function Open(t: Tree): byte { if t.Box? && t.isArray then 0x5B else 0x7B }

  function Close(t: Tree): byte { if t.Box? && t.isArray then 0x5D else 0x7D }

  /** writer_putnl_indent: a line break and `d` blanks. */
  function Line(d: nat): bytes {
    [NEWLINE] + seq(d, _ => SPACE)
  }

  function Separator(i: nat): bytes {
    if i > 0 then [COMMA] else []
  }

  // ----- on one line -----

  function Inline(t: Tree): bytes
    decreases t, 1, 0
  {
    if t.Leaf? then t.text
    else if t.items == [] then [Open(t), Close(t)]
    else [Open(t)] + InlineItems(t, |t.items|) + [SPACE, Close(t)]
  }

  function InlineItems(t: Tree, n: nat): bytes
    requires t.Box? && n <= |t.items|
    decreases t, 0, n
  {
    if n == 0 then []
    else InlineItems(t, n - 1) + (Separator(n - 1) + [SPACE] + LabelAt(t, n - 1)) + Inline(t.items[n - 1])
  }

  // ----- with line breaks, down to height k -----

  function Render(t: Tree, k: nat, d: nat): bytes
    decreases t, 1, 0
  {
    if t.Leaf? || t.items == [] || Height(t) <= k then Inline(t)
    else [Open(t)] + Items(t, |t.items|, k, d) + (Line(d) + [Close(t)])
  }

  /** What precedes item `i` of a container at depth `d`. */
  function Lead(t: Tree, i: nat, d: nat): bytes {
    Separator(i) + Line(d + 1) + LabelAt(t, i)
  }

  /** The first `n` items of a container at depth `d`, each on its own line. */
  function Items(t: Tree, n: nat, k: nat, d: nat): bytes
    requires t.Box? && n <= |t.items|
    decreases t, 0, n
  {
    if n == 0 then []
    else Items(t, n - 1, k, d) + Lead(t, n - 1, d) + Render(t.items[n - 1], k, d + 1)
  }

  // ----- compact_whitespace -----

  function DropSpaces(s: bytes): (r: bytes)
    ensures |r| <= |s|
  {
    if s != [] && s[0] == SPACE then DropSpaces(s[1..]) else s
  }

  /** Every line break, with the blanks that follow it, becomes one blank. */
  function Compact(s: bytes): (r: bytes)
    ensures |r| <= |s|
    decreases |s|
  {
    if s == [] then []
    else if s[0] == NEWLINE then [SPACE] + Compact(DropSpaces(s[1..]))
    else [s[0]] + Compact(s[1..])
  }

  /** No text holds a line break or starts with a blank: this is what primitives and keys look like. */
  ghost predicate Clean(t: Tree) {
    if t.Leaf? then CleanText(t.text)
    else
      && (forall i :: 0 <= i < |t.labels| ==> CleanText(t.labels[i]))
      && (forall i :: 0 <= i < |t.items| ==> Clean(t.items[i]))
  }

  predicate CleanText(s: bytes) {
    NEWLINE !in s && (s != [] ==> s[0] != SPACE)
  }

  lemma {:induction false} CompactConcat(a: bytes, b: bytes)
    requires b == [] || b[0] != SPACE
    ensures Compact(a + b) == Compact(a) + Compact(b)
    decreases |a|
  {
    if a == [] {
      assert a + b == b;
    } else {
      assert (a + b)[1..] == a[1..] + b;
      if a[0] == NEWLINE {
        DropSpacesConcat(a[1..], b);
        CompactConcat(DropSpaces(a[1..]), b);
      } else {
        CompactConcat(a[1..], b);
      }
    }
  }

  lemma {:induction false} DropSpacesConcat(a: bytes, b: bytes)
    requires b == [] || b[0] != SPACE
    ensures DropSpaces(a + b) == DropSpaces(a) + b
  {
    if a == [] {
      assert a + b == b;
    } else {
      assert (a + b)[1..] == a[1..] + b;
      if a[0] == SPACE { DropSpacesConcat(a[1..], b); }
    }
  }

  lemma {:induction false} CompactNothing(s: bytes)
    requires NEWLINE !in s
    ensures Compact(s) == s
  {
    if s != [] {
      CompactNothing(s[1..]);
      assert s == [s[0]] + s[1..];
    }
  }

  lemma {:induction false} DropAllSpaces(d: nat)
    ensures DropSpaces(seq(d, _ => SPACE)) == []
  {
    if d > 0 {
      assert seq(d, _ => SPACE)[1..] == seq(d - 1, _ => SPACE);
      DropAllSpaces(d - 1);
    }
  }

  lemma CompactLine(d: nat)
    ensures Compact(Line(d)) == [SPACE]
  {
    assert Line(d)[1..] == seq(d, _ => SPACE);
    DropAllSpaces(d);
  }

  lemma {:induction false} InlineHasNoBreak(t: Tree)
    requires Clean(t)
    ensures NEWLINE !in Inline(t) && (Inline(t) != [] ==> Inline(t)[0] != SPACE)
    decreases t, 1, 0
  {
    if t.Box? && t.items != [] {
      InlineItemsHaveNoBreak(t, |t.items|);
    }
  }

  lemma {:induction false} InlineItemsHaveNoBreak(t: Tree, n: nat)
    requires t.Box? && n <= |t.items| && Clean(t)
    ensures NEWLINE !in InlineItems(t, n)
    decreases t, 0, n
  {
    if n > 0 {
      InlineItemsHaveNoBreak(t, n - 1);
      InlineHasNoBreak(t.items[n - 1]);
    }
  }

  lemma {:induction false} MaxHeightMonotone(t: Tree, m: nat, n: nat)
    requires t.Box? && m <= n <= |t.items|
    ensures MaxHeight(t, m) <= MaxHeight(t, n)
  {
    if m < n { MaxHeightMonotone(t, m, n - 1); }
  }

  /** A container that is low enough holds only items that are printed on one line already. */
  lemma ItemIsInline(t: Tree, i: nat, k: nat, d: nat)
    requires t.Box? && i < |t.items| && Height(t) <= k
    ensures Render(t.items[i], k, d) == Inline(t.items[i])
  {
    MaxHeightMonotone(t, i + 1, |t.items|);
  }

  lemma CompactLineThen(d: nat, tail: bytes)
    requires NEWLINE !in tail && (tail != [] ==> tail[0] != SPACE)
    ensures Compact(Line(d) + tail) == [SPACE] + tail
  {
    CompactConcat(Line(d), tail);
    CompactLine(d);
    CompactNothing(tail);
  }

  lemma CompactLead(t: Tree, i: nat, d: nat, item: bytes)
    requires t.Box? && Clean(t) && NEWLINE !in item && (item != [] ==> item[0] != SPACE)
    ensures Compact(Lead(t, i, d) + item) == Separator(i) + [SPACE] + LabelAt(t, i) + item
  {
    hide Compact, Line;
    var tail := LabelAt(t, i) + item;
    assert CleanText(LabelAt(t, i));
    CompactLineThen(d + 1, tail);
    LineStart(d + 1, tail);
    CompactConcat(Separator(i), Line(d + 1) + tail);
    CompactNothing(Separator(i));
    Nest(Separator(i), Line(d + 1), LabelAt(t, i), item);
    Nest(Separator(i), [SPACE], LabelAt(t, i), item);
  }

  lemma LeadStart(t: Tree, i: nat, d: nat, item: bytes)
    ensures Lead(t, i, d) + item != [] && (Lead(t, i, d) + item)[0] != SPACE
  {
  }

  lemma LineStart(d: nat, tail: bytes)
    ensures Line(d) + tail != [] && (Line(d) + tail)[0] == NEWLINE
  {
  }

  lemma Nest(a: bytes, b: bytes, c: bytes, d: bytes)
    ensures a + b + c + d == a + (b + (c + d))
  {
  }

  /** Compacting the items of such a container gives them on one line. */
  lemma {:induction false} CompactItems(t: Tree, n: nat, k: nat, d: nat)
    requires t.Box? && n <= |t.items| && Height(t) <= k && Clean(t)
    ensures Compact(Items(t, n, k, d)) == InlineItems(t, n)
    decreases n
  {
    hide Height, MaxHeight, Compact, Lead, Render, Inline, LabelAt;
    CompactNothing([]);
    if n > 0 {
      assert Clean(t.items[n - 1]);
      hide Clean;
      var before, lead, item := Items(t, n - 1, k, d), Lead(t, n - 1, d), Inline(t.items[n - 1]);
      CompactItems(t, n - 1, k, d);
      ItemIsInline(t, n - 1, k, d + 1);
      InlineHasNoBreak(t.items[n - 1]);
      CompactLead(t, n - 1, d, item);
      assert before + lead + item == before + (lead + item);
      LeadStart(t, n - 1, d, item);
      CompactConcat(before, lead + item);
      Join(InlineItems(t, n - 1), Separator(n - 1), LabelAt(t, n - 1), item);
    }
  }

  lemma Join(items: bytes, separator: bytes, name: bytes, item: bytes)
    ensures items + (separator + [SPACE] + name + item) == items + (separator + [SPACE] + name) + item
  {
  }

  /** The whole of what follows the opening bracket of such a container, compacted in place, is its text on one line. */
  lemma CompactBody(t: Tree, k: nat, d: nat)
    requires t.Box? && t.items != [] && Height(t) <= k && Clean(t)
    ensures [Open(t)] + Compact(Items(t, |t.items|, k, d) + (Line(d) + [Close(t)])) == Inline(t)
  {
    var n := |t.items|;
    CompactItems(t, n, k, d);
    CompactConcat(Items(t, n, k, d), Line(d) + [Close(t)]);
    CompactConcat(Line(d), [Close(t)]);
    CompactLine(d);
    CompactNothing([Close(t)]);
    assert [Open(t)] + (InlineItems(t, n) + ([SPACE] + [Close(t)])) == Inline(t);
  }

  /** A non-empty container is printed on one line exactly if its height is at most k. */
  lemma OneLineIfLow(t: Tree, k: nat, d: nat)
    requires t.Box? && t.items != [] && Clean(t)
    ensures NEWLINE !in Render(t, k, d) <==> Height(t) <= k
  {
    if Height(t) <= k {
      InlineHasNoBreak(t);
    } else {
      assert Line(d)[0] == NEWLINE;
      assert (Line(d) + [Close(t)])[0] == NEWLINE;
      assert NEWLINE in Line(d) + [Close(t)];
    }
  }
}
