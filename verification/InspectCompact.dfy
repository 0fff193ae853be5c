/**
 The traversal of inspect_recursive with negative `compact`: everything is first written with
 line breaks, and each closing bracket decides from the heights below it whether the tail of
 the buffer that starts at its container is rewritten in place. A stack of buffer offsets runs
 alongside.
 */
module InspectCompact {
  import opened InspectRender

  /** compact_whitespace: rewrites buf[start..end) in place and returns the new end. */
  method CompactWhitespace(buf: array<byte>, start: nat, end: nat) returns (w: nat)
    requires start <= end <= buf.Length
    modifies buf
    ensures start <= w <= end
    ensures buf[..start] == old(buf[..start])
    ensures buf[start..w] == Compact(old(buf[start..end]))
  {
    hide Compact, DropSpaces;
    var r := start;
    w := start;
    ghost var was := buf[..];
    assert buf[start..end] == was[start..end];
    while r < end
      invariant start <= w <= r <= end
      invariant forall i :: 0 <= i < start ==> buf[i] == was[i]
      invariant forall i :: r <= i < end ==> buf[i] == was[i]
      invariant buf[start..w] + Compact(was[r..end]) == Compact(was[start..end])
    {
      ghost var done, at := buf[start..w], r;
      if buf[r] == NEWLINE {
        r := r + 1;
        ghost var current := buf[..];
        while r < end && buf[r] == SPACE
          invariant at < r <= end
          invariant buf[..] == current
          invariant DropSpaces(was[r..end]) == DropSpaces(was[at + 1..end])
        {
          DropOne(was, r, end);
          r := r + 1;
        }
        DropNone(was, r, end);
        CompactBreak(was, at, end);
        buf[w] := SPACE;
        w := w + 1;
        assert buf[start..w] == done + [SPACE];
        AppendFirst(done, SPACE, Compact(was[r..end]));
      } else {
        CompactOther(was, r, end);
        buf[w] := buf[r];
        w, r := w + 1, r + 1;
        assert buf[start..w] == done + [was[at]];
        AppendFirst(done, was[at], Compact(was[r..end]));
      }
    }
    CompactEmpty(was, end);
    assert buf[start..w] + [] == buf[start..w];
  }

  lemma DropOne(s: bytes, r: nat, end: nat)
    requires r < end <= |s| && s[r] == SPACE
    ensures DropSpaces(s[r..end]) == DropSpaces(s[r + 1..end])
  {
    assert s[r..end][1..] == s[r + 1..end];
  }

  lemma DropNone(s: bytes, r: nat, end: nat)
    requires r <= end <= |s| && (r < end ==> s[r] != SPACE)
    ensures DropSpaces(s[r..end]) == s[r..end]
  {
  }

  lemma CompactBreak(s: bytes, r: nat, end: nat)
    requires r < end <= |s| && s[r] == NEWLINE
    ensures Compact(s[r..end]) == [SPACE] + Compact(DropSpaces(s[r + 1..end]))
  {
    assert s[r..end][1..] == s[r + 1..end];
  }

  lemma CompactOther(s: bytes, r: nat, end: nat)
    requires r < end <= |s| && s[r] != NEWLINE
    ensures Compact(s[r..end]) == [s[r]] + Compact(s[r + 1..end])
  {
    assert s[r..end][1..] == s[r + 1..end];
  }

  lemma CompactEmpty(s: bytes, end: nat)
    requires end <= |s|
    ensures Compact(s[end..end]) == []
  {
  }

  lemma AppendFirst(a: bytes, c: byte, b: bytes)
    ensures a + [c] + b == a + ([c] + b)
  {
  }

  // ----- the state of the traversal -----

  /** A property enumeration: a non-empty container and the item it stands at. */
  datatype Frame = Frame(node: Tree, idx: nat)

  datatype CompactLevel = CompactLevel(bufOffset: nat, hasSubObjects: bool, minChildLeaf: int)

  function Outer(frames: seq<Frame>): seq<Frame>
    requires |frames| > 0
  {
    frames[..|frames| - 1]
  }

  function Top(frames: seq<Frame>): Frame
    requires |frames| > 0
  {
    frames[|frames| - 1]
  }

  predicate FrameOk(f: Frame) {
    f.node.Box? && f.node.items != [] && f.idx <= |f.node.items|
  }

  /** Every frame but the innermost stands at the container of the frame inside it. */
  predicate Nested(frames: seq<Frame>, root: Tree) {
    |frames| > 0 ==>
      && FrameOk(Top(frames))
      && Nested(Outer(frames), root)
      && (|frames| == 1 ==> Top(frames).node == root)
      && (|frames| > 1 ==>
           var parent := Top(Outer(frames));
           parent.idx < |parent.node.items| && Top(frames).node == parent.node.items[parent.idx])
  }

  /** What the buffer must hold up to the last item that is complete. */
  function Done(frames: seq<Frame>, root: Tree, k: nat): bytes
    requires Nested(frames, root) && |frames| > 0
    decreases |frames|, 0
  {
    var f, d: nat := Top(frames), |frames| - 1;
    Opened(frames, root, k) + Items(f.node, f.idx, k, d)
  }

  /** ... up to the opening bracket of the innermost container. */
  function Opened(frames: seq<Frame>, root: Tree, k: nat): bytes
    requires Nested(frames, root) && |frames| > 0
    decreases |frames| - 1, 2
  {
    Before(Outer(frames), root, k) + [Open(Top(frames).node)]
  }

  /** ... and, with the lead, up to the item the innermost container stands at. */
  function Before(frames: seq<Frame>, root: Tree, k: nat): bytes
    requires Nested(frames, root)
    decreases |frames|, 1
  {
    if |frames| == 0 then []
    else
      var f, d: nat := Top(frames), |frames| - 1;
      Done(frames, root, k) + Lead(f.node, f.idx, d)
  }

  /** What the stack of levels must hold: an offset and the height seen so far, for each container. */
  function Levels(frames: seq<Frame>, root: Tree, k: nat): (levels: seq<CompactLevel>)
    requires Nested(frames, root)
    ensures |levels| == |frames|
    decreases |frames|
  {
    if |frames| == 0 then []
    else
      var h: int := MaxHeight(Top(frames).node, Top(frames).idx);
      Levels(Outer(frames), root, k) + [CompactLevel(|Opened(frames, root, k)|, h > 0, -h)]
  }

  /** The offsets are nondecreasing from the outside in and none lies behind the end of the buffer. */
  lemma {:induction false} OffsetsAreOrdered(frames: seq<Frame>, root: Tree, k: nat, i: nat, j: nat)
    requires Nested(frames, root) && i <= j < |frames|
    ensures Levels(frames, root, k)[i].bufOffset <= Levels(frames, root, k)[j].bufOffset <= |Done(frames, root, k)|
    decreases |frames|
  {
    var outer := Outer(frames);
    if j < |outer| {
      OffsetsAreOrdered(outer, root, k, i, j);
      TextGrows(frames, root, k);
    } else if i < |outer| {
      OffsetsAreOrdered(outer, root, k, i, |outer| - 1);
      TextGrows(frames, root, k);
    }
  }

  lemma TextGrows(frames: seq<Frame>, root: Tree, k: nat)
    requires Nested(frames, root) && |frames| > 1
    ensures |Done(Outer(frames), root, k)| < |Opened(frames, root, k)| <= |Done(frames, root, k)|
  {
    hide Items, Lead;
  }

  // ----- what each step does to that text -----

  function Advanced(frames: seq<Frame>): seq<Frame>
    requires |frames| > 0
  {
    Outer(frames) + [Frame(Top(frames).node, Top(frames).idx + 1)]
  }

  lemma AdvancedIsNested(frames: seq<Frame>, root: Tree, k: nat)
    requires Nested(frames, root) && |frames| > 0 && Top(frames).idx < |Top(frames).node.items|
    ensures Outer(Advanced(frames)) == Outer(frames) && Nested(Advanced(frames), root)
    ensures Opened(Advanced(frames), root, k) == Opened(frames, root, k)
  {
    assert Outer(Advanced(frames)) == Outer(frames);
  }

  /** Once an item is written, the text is the one for the next item. */
  lemma ItemWritten(frames: seq<Frame>, root: Tree, k: nat)
    requires Nested(frames, root) && |frames| > 0 && Top(frames).idx < |Top(frames).node.items|
    ensures Nested(Advanced(frames), root)
    ensures Done(Advanced(frames), root, k)
         == Before(frames, root, k) + Render(Top(frames).node.items[Top(frames).idx], k, |frames|)
  {
    hide Render, Lead, Opened, Height, MaxHeight;
    AdvancedIsNested(frames, root, k);
    var f, d: nat := Top(frames), |frames| - 1;
    var a, b, c := Opened(frames, root, k), Items(f.node, f.idx, k, d), Lead(f.node, f.idx, d);
    var e := Render(f.node.items[f.idx], k, d + 1);
    assert a + (b + c + e) == a + b + c + e;
  }

  /** Opening a container leaves the text of a container with no item complete. */
  lemma BoxOpened(frames: seq<Frame>, root: Tree, item: Tree, k: nat)
    requires Nested(frames, root) && item.Box? && item.items != []
    requires |frames| == 0 ==> item == root
    requires |frames| > 0 ==>
        Top(frames).idx < |Top(frames).node.items| && item == Top(frames).node.items[Top(frames).idx]
    ensures var inner := frames + [Frame(item, 0)];
            && Outer(inner) == frames && Nested(inner, root)
            && Done(inner, root, k) == Before(frames, root, k) + [Open(item)]
            && Levels(inner, root, k)
                == Levels(frames, root, k) + [CompactLevel(|Before(frames, root, k)| + 1, false, 0)]
  {
    var inner := frames + [Frame(item, 0)];
    assert Outer(inner) == frames;
    assert Opened(inner, root, k) + [] == Opened(inner, root, k);
  }

  /** compact_propagate_leaf as a function of the stack. */
  function Propagated(levels: seq<CompactLevel>, leafDepth: int): (r: seq<CompactLevel>)
    ensures |r| == |levels|
  {
    if |levels| == 0 then []
    else
      var parent := levels[|levels| - 1];
      levels[..|levels| - 1] + [CompactLevel(parent.bufOffset, true,
        if parent.minChildLeaf == 0 || leafDepth < parent.minChildLeaf then leafDepth else parent.minChildLeaf)]
  }

  /** The depth of a container counted from the leaves: a container without containers is at -1. */
  function FromLeaves(t: Tree): int {
    -(Height(t) as int)
  }

  /** A container of height h counts as depth -h from the leaves; its parent keeps the least such depth. */
  lemma PropagateCountsHeight(frames: seq<Frame>, root: Tree, k: nat)
    requires Nested(frames, root) && |frames| > 0 && Top(frames).idx < |Top(frames).node.items|
    requires Top(frames).node.items[Top(frames).idx].Box?
    ensures Nested(Advanced(frames), root)
    ensures Propagated(Levels(frames, root, k), FromLeaves(Top(frames).node.items[Top(frames).idx]))
        == Levels(Advanced(frames), root, k)
  {
    hide Opened;
    AdvancedIsNested(frames, root, k);
    assert Levels(frames, root, k)[..|frames| - 1] == Levels(Outer(frames), root, k);
  }

  lemma LeafCountsNothing(frames: seq<Frame>, root: Tree, k: nat)
    requires Nested(frames, root) && |frames| > 0 && Top(frames).idx < |Top(frames).node.items|
    requires Top(frames).node.items[Top(frames).idx].Leaf?
    ensures Nested(Advanced(frames), root)
    ensures Levels(frames, root, k) == Levels(Advanced(frames), root, k)
  {
    hide Opened;
    AdvancedIsNested(frames, root, k);
    assert MaxHeight(Top(frames).node, Top(frames).idx + 1) == MaxHeight(Top(frames).node, Top(frames).idx);
  }

  /** compact_close_level as a function of the buffer. */
  function Closed(text: bytes, level: CompactLevel, threshold: int): (r: bytes) {
    if LeafDepth(level) >= threshold && level.bufOffset <= |text|
    then text[..level.bufOffset] + Compact(text[level.bufOffset..])
    else text
  }

  function LeafDepth(level: CompactLevel): int {
    if level.hasSubObjects then level.minChildLeaf - 1 else -1
  }

  /** Closing a container leaves the buffer as if the container had been rendered recursively. */
  lemma BoxClosed(frames: seq<Frame>, root: Tree, k: nat)
    requires Nested(frames, root) && |frames| > 0 && Top(frames).idx == |Top(frames).node.items|
    requires Clean(Top(frames).node)
    ensures var node, level := Top(frames).node, Levels(frames, root, k)[|frames| - 1];
            && LeafDepth(level) == FromLeaves(node)
            && Closed(Done(frames, root, k) + (Line(|frames| - 1) + [Close(node)]), level, -(k as int))
            == Before(Outer(frames), root, k) + Render(node, k, |frames| - 1)
  {
    hide Items, MaxHeight, Before, Clean, Compact, Line;
    var node, d: nat := Top(frames).node, |frames| - 1;
    LastLevel(frames, root, k);
    TailCompacted(Before(Outer(frames), root, k), node, k, d);
    var before, b, e := Before(Outer(frames), root, k), Items(node, |node.items|, k, d), Line(d) + [Close(node)];
    assert before + [Open(node)] + b + e == before + ([Open(node)] + b + e);
  }

  lemma LastLevel(frames: seq<Frame>, root: Tree, k: nat)
    requires Nested(frames, root) && |frames| > 0
    ensures Levels(frames, root, k)[..|frames| - 1] == Levels(Outer(frames), root, k)
    ensures var level := Levels(frames, root, k)[|frames| - 1];
            && level.bufOffset == |Before(Outer(frames), root, k)| + 1
            && LeafDepth(level) == -1 - (MaxHeight(Top(frames).node, Top(frames).idx) as int)
  {
  }

  /** Rewriting what follows the opening bracket, or leaving it alone, gives the recursive text. */
  lemma TailCompacted(before: bytes, node: Tree, k: nat, d: nat)
    requires node.Box? && node.items != [] && Clean(node)
    ensures var text, offset :=
        before + ([Open(node)] + Items(node, |node.items|, k, d) + (Line(d) + [Close(node)])), |before| + 1;
            && offset <= |text|
            && before + Render(node, k, d) == if Height(node) <= k then text[..offset] + Compact(text[offset..])
                else text
  {
    hide Items, MaxHeight, Clean, Compact, Line;
    var b, e := Items(node, |node.items|, k, d), Line(d) + [Close(node)];
    var text := before + ([Open(node)] + b + e);
    assert text[..|before| + 1] == before + [Open(node)] && text[|before| + 1..] == b + e;
    if Height(node) <= k {
      CompactBody(node, k, d);
      assert before + [Open(node)] + Compact(b + e) == before + ([Open(node)] + Compact(b + e));
    }
  }
}
