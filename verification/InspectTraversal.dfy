/**
 The loop of inspect_recursive over an explicit stack of property enumerations, writing into a
 growing byte buffer whose tail is compacted in place when a container closes.
 */
module InspectTraversal {
  import opened InspectRender
  import opened InspectCompact
  import InspectReader

  /** How many values are still to be written below item `i` of a container, that item included. */
  function SizeFrom(t: Tree, i: nat): nat
    requires t.Box?
    decreases t, if i <= |t.items| then |t.items| - i else 0
  {
    if i >= |t.items| then 0
    else 1 + (if t.items[i].Box? then SizeFrom(t.items[i], 0) else 0) + SizeFrom(t, i + 1)
  }

  function Waiting(frames: seq<Frame>): nat {
    if |frames| == 0 || !Top(frames).node.Box? then 0
    else SizeFrom(Top(frames).node, Top(frames).idx + 1) + Waiting(Outer(frames))
  }

  /** The termination measure of the traversal. */
  function Work(frames: seq<Frame>): nat {
    if |frames| == 0 || !Top(frames).node.Box? then 0
    else SizeFrom(Top(frames).node, Top(frames).idx) + Waiting(Outer(frames))
  }

  lemma AdvancingIsWork(frames: seq<Frame>)
    requires |frames| > 0 && FrameOk(Top(frames)) && Top(frames).idx < |Top(frames).node.items|
    ensures Work(Advanced(frames)) < Work(frames)
    ensures Work(Advanced(frames)) == Waiting(frames)
  {
    assert Outer(Advanced(frames)) == Outer(frames);
  }

  lemma EnteringIsWork(frames: seq<Frame>, item: Tree)
    requires |frames| > 0 && FrameOk(Top(frames)) && Top(frames).idx < |Top(frames).node.items|
    requires item == Top(frames).node.items[Top(frames).idx] && item.Box?
    ensures Work(frames + [Frame(item, 0)]) < Work(frames)
  {
    assert Outer(frames + [Frame(item, 0)]) == frames;
  }

  lemma LeavingIsNoWork(frames: seq<Frame>)
    requires |frames| > 0 && FrameOk(Top(frames)) && Top(frames).idx == |Top(frames).node.items|
    ensures Work(frames) == Waiting(Outer(frames))
  {
  }

  /** Every container that is still open is clean: it lies in the tree. */
  lemma {:induction false} OpenIsClean(frames: seq<Frame>, root: Tree)
    requires Nested(frames, root) && Clean(root) && |frames| > 0
    ensures Clean(Top(frames).node)
    decreases |frames|
  {
    if |frames| > 1 { OpenIsClean(Outer(frames), root); }
  }

  class Inspector {
    const compact: int
    var buf: array<byte>
    var size: nat
    var hier: seq<Frame>
    var compactStack: seq<CompactLevel>

    constructor (compact: int)
      ensures this.compact == compact && fresh(buf) && size == 0 && hier == [] && compactStack == []
    {
      this.compact := compact;
      buf := new byte[0];
      size := 0;
      hier, compactStack := [], [];
    }

    ghost predicate Valid()
      reads this
    {
      size <= buf.Length
    }

    ghost function Text(): bytes
      requires Valid()
      reads this, buf
    {
      buf[..size]
    }

    // ----- the writer on the buffer -----

    method Putc(c: byte)
      requires Valid()
      modifies this`buf, this`size, buf
      ensures Valid() && (buf == old(buf) || fresh(buf))
      ensures Text() == old(Text()) + [c]
    {
      if size == buf.Length {
        var larger := new byte[if buf.Length * 3 / 2 > size then buf.Length * 3 / 2 else size + 1];
        forall i | 0 <= i < size { larger[i] := buf[i]; }
        assert larger[..size] == old(Text());
        buf := larger;
      }
      buf[size] := c;
      size := size + 1;
    }

    method Write(s: bytes)
      requires Valid()
      modifies this`buf, this`size, buf
      ensures Valid() && (buf == old(buf) || fresh(buf))
      ensures Text() == old(Text()) + s
    {
      for i := 0 to |s|
        invariant Valid() && (buf == old(buf) || fresh(buf))
        invariant Text() == old(Text()) + s[..i]
      {
        Putc(s[i]);
        assert s[..i + 1] == s[..i] + [s[i]];
      }
      assert s[..|s|] == s;
    }

    method PutNewlineIndent(depth: nat)
      requires Valid()
      modifies this`buf, this`size, buf
      ensures Valid() && (buf == old(buf) || fresh(buf))
      ensures Text() == old(Text()) + Line(depth)
    {
      Putc(NEWLINE);
      for i := 0 to depth
        invariant Valid() && (buf == old(buf) || fresh(buf))
        invariant Text() == old(Text()) + Line(i)
      {
        Putc(SPACE);
        assert Line(i + 1) == Line(i) + [SPACE];
      }
    }

    // ----- the stack of levels -----

    method PropagateLeaf(leafDepth: int)
      modifies this`compactStack
      ensures compactStack == Propagated(old(compactStack), leafDepth)
    {
      if |compactStack| != 0 {
        var parent := compactStack[|compactStack| - 1];
        parent := parent.(hasSubObjects := true);
        if parent.minChildLeaf == 0 || leafDepth < parent.minChildLeaf {
          parent := parent.(minChildLeaf := leafDepth);
        }
        compactStack := compactStack[..|compactStack| - 1] + [parent];
      }
    }

    /** compact_close_level. */
    method CloseLevel()
      requires Valid()
      modifies this`size, this`compactStack, buf
      ensures Valid()
      ensures old(compactStack) == [] ==> compactStack == [] && Text() == old(Text())
      ensures |old(compactStack)| > 0 ==>
                var level := old(compactStack)[|old(compactStack)| - 1];
                && Text() == Closed(old(Text()), level, compact)
                && compactStack == Propagated(old(compactStack)[..|old(compactStack)| - 1], LeafDepth(level))
    {
      hide Compact;
      if |compactStack| == 0 { return; }
      var level := compactStack[|compactStack| - 1];
      compactStack := compactStack[..|compactStack| - 1];
      var leafDepth := if level.hasSubObjects then level.minChildLeaf - 1 else -1;
      if leafDepth >= compact && level.bufOffset <= size {
        assert buf[level.bufOffset..size] == buf[..size][level.bufOffset..];
        assert buf[..level.bufOffset] == buf[..size][..level.bufOffset];
        size := CompactWhitespace(buf, level.bufOffset, size);
        assert buf[..size] == buf[..level.bufOffset] + buf[level.bufOffset..size];
      }
      PropagateLeaf(leafDepth);
    }

    // ----- the loop -----

    ghost function K(): nat
      requires compact < 0
    {
      -compact
    }

    /** Between two steps the buffer holds what the recursive rendering has put out up to here. */
    ghost predicate At(root: Tree)
      reads this, buf
    {
      && Valid() && compact < 0
      && Nested(hier, root) && |hier| > 0
      && Text() == Done(hier, root, K())
      && compactStack == Levels(hier, root, K())
    }

    /** The same after the lead of an item: all that is missing is the item itself. */
    ghost predicate AtItem(root: Tree, item: Tree)
      reads this, buf
    {
      && Valid() && compact < 0
      && Nested(hier, root)
      && (|hier| == 0 ==> item == root)
      && (|hier| > 0 ==> Top(hier).idx < |Top(hier).node.items| && item == Top(hier).node.items[Top(hier).idx])
      && Text() == Before(hier, root, K())
      && compactStack == Levels(hier, root, K())
    }

    /** ... and after the item: the enumeration has not moved yet, but the level above knows its height. */
    ghost predicate AfterItem(root: Tree, item: Tree)
      reads this, buf
    {
      && Valid() && compact < 0
      && Nested(hier, root) && |hier| > 0
      && Top(hier).idx < |Top(hier).node.items| && item == Top(hier).node.items[Top(hier).idx]
      && Text() == Before(hier, root, K()) + Render(item, K(), |hier|)
      && compactStack == if item.Leaf? then Levels(hier, root, K())
          else Propagated(Levels(hier, root, K()), FromLeaves(item))
    }

    /** property_recursion_push and _enter on a container that has items. */
    method Enter(root: Tree, item: Tree)
      requires AtItem(root, item) && item.Box? && item.items != []
      modifies this, buf
      ensures buf == old(buf) || fresh(buf)
      ensures At(root) && hier == old(hier) + [Frame(item, 0)]
    {
      hide Nested, Before, Done, Levels;
      BoxOpened(hier, root, item, K());
      Putc(Open(item));
      hier := hier + [Frame(item, 0)];
      compactStack := compactStack + [CompactLevel(size, false, 0)];
    }

    method WriteLead(root: Tree) returns (item: Tree)
      requires At(root) && Top(hier).idx < |Top(hier).node.items|
      modifies this`buf, this`size, buf
      ensures buf == old(buf) || fresh(buf)
      ensures AtItem(root, item) && |hier| > 0
    {
      hide Items, Levels, Opened;
      var f := hier[|hier| - 1];
      if f.idx > 0 { Putc(COMMA); }
      ghost var d: nat := |hier| - 1;
      ghost var before := Text();
      PutNewlineIndent(|hier|);
      Write(LabelAt(f.node, f.idx));
      assert Text() == Done(hier, root, K()) + (Separator(f.idx) + Line(d + 1) + LabelAt(f.node, f.idx));
      item := f.node.items[f.idx];
    }

    /** An item that is not entered: a primitive or an empty container. */
    method WriteFlat(root: Tree, item: Tree)
      requires AtItem(root, item) && |hier| > 0 && (item.Leaf? || item.items == [])
      modifies this`buf, this`size, this`compactStack, buf
      ensures buf == old(buf) || fresh(buf)
      ensures AfterItem(root, item)
    {
      hide Nested, Before, Done, Levels, Render, FromLeaves;
      FlatItem(item, K(), |hier|);
      if item.Box? {
        Write([Open(item), Close(item)]);
        PropagateLeaf(-1);
      } else {
        Write(item.text);
      }
    }

    /** property_enumeration_next. */
    method Next(root: Tree, ghost item: Tree) returns (more: bool)
      requires AfterItem(root, item)
      modifies this`hier
      ensures At(root) && hier == Advanced(old(hier))
      ensures more == (Top(hier).idx < |Top(hier).node.items|)
    {
      hide Nested, Before, Done, Levels, Render, Height, MaxHeight, Propagated, FromLeaves, Items, Opened, Lead;
      ghost var frames := hier;
      TopIsOk(frames, root);
      ItemWritten(frames, root, K());
      if item.Leaf? { LeafCountsNothing(frames, root, K()); } else { PropagateCountsHeight(frames, root, K()); }
      var f := hier[|hier| - 1];
      hier := hier[..|hier| - 1] + [Frame(f.node, f.idx + 1)];
      assert hier == Advanced(frames);
      more := f.idx + 1 < |f.node.items|;
    }

    /** The end of an enumeration: closes the container and decides whether it goes on one line. */
    method Leave(root: Tree)
      requires At(root) && Clean(root) && Top(hier).idx == |Top(hier).node.items|
      modifies this, buf
      ensures buf == old(buf) || fresh(buf)
      ensures hier == Outer(old(hier))
      ensures |hier| > 0 ==> AfterItem(root, Top(old(hier)).node)
      ensures |hier| == 0 ==> Valid() && Text() == Render(root, K(), 0) && compactStack == []
    {
      hide Before, Done, Levels, Render, Height, MaxHeight, Propagated, FromLeaves, Compact, Closed, Clean;
      OpenIsClean(hier, root);
      BoxClosed(hier, root, K());
      LastLevel(hier, root, K());
      var node := hier[|hier| - 1].node;
      ghost var text, outer := Text(), Outer(hier);
      hier := hier[..|hier| - 1];
      PutNewlineIndent(|hier|);
      Putc(Close(node));
      assert Text() == text + (Line(|hier|) + [Close(node)]);
      CloseLevel();
      if |outer| == 0 { NothingBefore(outer, root, K()); assert Text() == Render(root, K(), 0); }
    }

    /** Moves to the next item, closing every container that has none left. */
    method FinishItem(root: Tree, ghost item: Tree)
      requires AfterItem(root, item) && Clean(root)
      modifies this, buf
      ensures buf == old(buf) || fresh(buf)
      ensures Valid() && Work(hier) < old(Work(hier))
      ensures |hier| > 0 ==> At(root) && Top(hier).idx < |Top(hier).node.items|
      ensures |hier| == 0 ==> Text() == Render(root, K(), 0)
    {
      hide Before, Done, Levels, Render, Propagated, FromLeaves, Clean, Work, Waiting;
      TopIsOk(hier, root);
      AdvancingIsWork(hier);
      var more := Next(root, item);
      while !more
        invariant buf == old(buf) || fresh(buf)
        invariant At(root) && Work(hier) < old(Work(hier))
        invariant more == (Top(hier).idx < |Top(hier).node.items|)
        decreases |hier|
      {
        ghost var frames := hier;
        TopIsOk(frames, root);
        LeavingIsNoWork(frames);
        Leave(root);
        if |hier| == 0 {
          NoWork(hier, frames);
          break;
        }
        TopIsOk(hier, root);
        AdvancingIsWork(hier);
        more := Next(root, Top(frames).node);
      }
    }

    /** One item: it is entered or written, and in the second case the traversal moves on. */
    method VisitItem(root: Tree)
      requires At(root) && Clean(root) && Top(hier).idx < |Top(hier).node.items|
      modifies this, buf
      ensures buf == old(buf) || fresh(buf)
      ensures Valid() && Work(hier) < old(Work(hier))
      ensures |hier| > 0 ==> At(root) && Top(hier).idx < |Top(hier).node.items|
      ensures |hier| == 0 ==> Text() == Render(root, K(), 0)
    {
      hide Nested, Before, Done, Levels, Render, Propagated, FromLeaves, Clean, Work, Waiting;
      TopIsOk(hier, root);
      var item := WriteLead(root);
      if item.Box? && item.items != [] {
        EnteringIsWork(hier, item);
        Enter(root, item);
        assert Top(hier) == Frame(item, 0);
      } else {
        WriteFlat(root, item);
        FinishItem(root, item);
      }
    }

    /** inspect_recursive on an object or array. */
    method Recurse(root: Tree)
      requires Valid() && compact < 0 && Clean(root) && root.Box?
      requires Text() == [] && hier == [] && compactStack == []
      modifies this, buf
      ensures Valid() && Text() == Render(root, K(), 0)
    {
      hide Before, Done, Levels, Render, Propagated, FromLeaves, Clean, Work, Waiting;
      if root.items == [] {
        FlatItem(root, K(), 0);
        Putc(Open(root));
        Putc(Close(root));
        CloseLevel();
        return;
      }
      NothingBefore([], root, K());
      Enter(root, root);
      while |hier| > 0
        invariant Valid() && (buf == old(buf) || fresh(buf))
        invariant |hier| > 0 ==> At(root) && Top(hier).idx < |Top(hier).node.items|
        invariant |hier| == 0 ==> Text() == Render(root, K(), 0)
        decreases Work(hier)
      {
        VisitItem(root);
      }
    }
  }

  /**
   inspect with a negative `compact`: the buffer it leaves is the recursive rendering by height, and a reader takes it
   back to the value.
   */
  method Inspect(value: Tree, compact: int) returns (text: bytes)
    requires -0x8000_0000 < compact < 0 && Clean(value)
    ensures text == Render(value, -compact, 0)
    ensures InspectReader.Readable(value) ==> InspectReader.ReadsAs(text, value)
  {
    var insp := new Inspector(compact);
    if value.Box? {
      insp.Recurse(value);
    } else {
      FlatItem(value, -compact, 0);
      insp.Write(value.text);
    }
    text := insp.buf[..insp.size];
    if InspectReader.Readable(value) {
      InspectReader.RenderReadsAs(value, -compact);
    }
  }

  lemma NoWork(none: seq<Frame>, frames: seq<Frame>)
    requires |none| == 0
    ensures Work(none) == 0
  {
  }

  lemma FlatItem(item: Tree, k: nat, d: nat)
    requires item.Leaf? || item.items == []
    ensures Render(item, k, d) == if item.Leaf? then item.text else [Open(item), Close(item)]
    ensures item.Box? ==> FromLeaves(item) == -1
  {
    if item.Box? { assert MaxHeight(item, 0) == 0 && Height(item) == 1; }
  }

  lemma TopIsOk(frames: seq<Frame>, root: Tree)
    requires Nested(frames, root) && |frames| > 0
    ensures FrameOk(Top(frames))
  {
  }

  lemma NothingBefore(frames: seq<Frame>, root: Tree, k: nat)
    requires |frames| == 0
    ensures Before(frames, root, k) == [] && Levels(frames, root, k) == []
  {
  }
}
