/**
 The traversal that js_json_write and JsonSerializer share: a stack of property enumerations,
 advanced one step at a time. Each step emits a fixed piece of text, and what is still to be
 emitted is a function of the stack.
 */
module JsonTraversal {
  import opened JsonValue
  import opened JsonText
  import opened JsonStyles
  import opened Sequences

  /** A PropertyEnumeration: the container being listed and the index of its next entry. */
  datatype Frame = Frame(obj: Json, idx: nat)

  /** How far a traversal has got. */
  datatype Cursor = Fresh(root: Json) | Walk(stack: seq<Frame>) | Done

  predicate FrameOk(f: Frame) {
    Container(f.obj) && f.idx <= |f.obj.items|
  }

  ghost predicate StackOk(stack: seq<Frame>) {
    forall k :: 0 <= k < |stack| ==> FrameOk(stack[k]) && NumbersOk(stack[k].obj)
  }

  ghost predicate CursorOk(c: Cursor) {
    match c
    case Fresh(root) => NumbersOk(root)
    case Walk(stack) => stack != [] && StackOk(stack)
    case Done => true
  }

  /** The text that remains for the frames of a stack, innermost first. */
  ghost function Unwind(stack: seq<Frame>, indent: nat): bytes
    requires StackOk(stack)
  {
    if stack == [] then []
    else
      var d := |stack| - 1;
      var top := stack[d];
      Entries(Batch, top.obj, top.idx, indent, d) + End(Batch, top.obj, indent, d) + Unwind(stack[..d], indent)
  }

  ghost function Remaining(c: Cursor, indent: nat): bytes
    requires CursorOk(c)
  {
    match c
    case Fresh(root) => Text(Batch, root, indent, 0)
    case Walk(stack) => Unwind(stack, indent)
    case Done => []
  }

  /** What a container or scalar emits when the traversal reaches it at depth `d`. */
  function Start(v: Json, indent: nat, d: nat): bytes {
    if Container(v) then [Open(v)] + AfterOpen(Batch, indent, d) else Scalar(v)
  }

  /** The text of the next step, for the innermost frame at depth `d`. */
  function TopText(top: Frame, indent: nat, d: nat): bytes
    requires FrameOk(top)
  {
    if top.idx == |top.obj.items| then End(Batch, top.obj, indent, d)
    else Lead(Batch, top.obj, top.idx, indent, d) + Start(top.obj.items[top.idx], indent, d + 1)
  }

  /** The text of the next step. */
  function StepText(c: Cursor, indent: nat): bytes
    requires c.Walk? ==> c.stack != [] && FrameOk(c.stack[|c.stack| - 1])
  {
    match c
    case Fresh(root) => Start(root, indent, 0)
    case Walk(stack) => TopText(stack[|stack| - 1], indent, |stack| - 1)
    case Done => []
  }

  /** The stack after the next step, from the frames below the innermost one and the innermost one. */
  function NextFrames(below: seq<Frame>, top: Frame): seq<Frame>
    requires FrameOk(top)
  {
    if top.idx == |top.obj.items| then below
    else
      var item := top.obj.items[top.idx];
      var rest := below + [Frame(top.obj, top.idx + 1)];
      if Container(item) then rest + [Frame(item, 0)] else rest
  }

  /** The traversal after the next step. */
  function Next(c: Cursor): Cursor
    requires c.Walk? ==> c.stack != [] && FrameOk(c.stack[|c.stack| - 1])
  {
    match c
    case Fresh(root) => if Container(root) then Walk([Frame(root, 0)]) else Done
    case Walk(stack) =>
      var frames := NextFrames(stack[..|stack| - 1], stack[|stack| - 1]);
      if frames == [] then Done else Walk(frames)
    case Done => Done
  }

  lemma UnwindTop(below: seq<Frame>, top: Frame, indent: nat)
    requires StackOk(below + [top])
    ensures StackOk(below) && FrameOk(top) && NumbersOk(top.obj)
    ensures Unwind(below + [top], indent)
            == Entries(Batch, top.obj, top.idx, indent, |below|) + End(Batch, top.obj, indent, |below|)
                + Unwind(below, indent)
  {
    var stack := below + [top];
    assert stack[|below|] == top && stack[..|below|] == below;
    forall k | 0 <= k < |below| ensures FrameOk(below[k]) && NumbersOk(below[k].obj) {
      assert stack[k] == below[k];
    }
  }

  lemma StackPush(below: seq<Frame>, top: Frame)
    requires StackOk(below) && FrameOk(top) && NumbersOk(top.obj)
    ensures StackOk(below + [top])
  {
  }

  lemma TextParts(v: Json, indent: nat, d: nat)
    requires Container(v)
    ensures Text(Batch, v, indent, d)
        == Start(v, indent, d) + Entries(Batch, v, 0, indent, d) + End(Batch, v, indent, d)
  {
  }

  lemma StepEmits(c: Cursor, indent: nat)
    requires CursorOk(c) && c != Done
    ensures |StepText(c, indent)| > 0
  {
    match c
    case Fresh(root) => StartIsNotEmpty(root, indent, 0);
    case Walk(stack) => TopTextIsNotEmpty(stack[|stack| - 1], indent, |stack| - 1);
  }

  /** Every step emits something, and the remaining text is what the step emits followed by what remains after it. */
  lemma StepIsPrefix(c: Cursor, indent: nat)
    requires CursorOk(c) && c != Done
    ensures CursorOk(Next(c))
    ensures |StepText(c, indent)| > 0
    ensures Remaining(c, indent) == StepText(c, indent) + Remaining(Next(c), indent)
  {
    match c
    case Fresh(root) => RootStep(root, indent);
    case Walk(stack) =>
      StackStep(stack, indent);
  }

  lemma RootStep(root: Json, indent: nat)
    requires NumbersOk(root)
    ensures CursorOk(Next(Fresh(root)))
    ensures |StepText(Fresh(root), indent)| > 0
    ensures Remaining(Fresh(root), indent) == StepText(Fresh(root), indent) + Remaining(Next(Fresh(root)), indent)
  {
    StartIsNotEmpty(root, indent, 0);
    if Container(root) {
      StackPush([], Frame(root, 0));
      assert [] + [Frame(root, 0)] == [Frame(root, 0)];
      UnwindTop([], Frame(root, 0), indent);
      TextParts(root, indent, 0);
      var entries, end := Entries(Batch, root, 0, indent, 0), End(Batch, root, indent, 0);
      Assoc(Start(root, indent, 0), entries, end);
      assert entries + end + [] == entries + end;
    }
  }

  lemma TopTextIsNotEmpty(top: Frame, indent: nat, d: nat)
    requires FrameOk(top) && NumbersOk(top.obj)
    ensures |TopText(top, indent, d)| > 0
  {
    if top.idx < |top.obj.items| {
      StartIsNotEmpty(top.obj.items[top.idx], indent, d + 1);
    }
  }

  lemma NextFramesOk(below: seq<Frame>, top: Frame)
    requires StackOk(below) && FrameOk(top) && NumbersOk(top.obj)
    ensures StackOk(NextFrames(below, top))
  {
    if top.idx < |top.obj.items| {
      var item, next := top.obj.items[top.idx], Frame(top.obj, top.idx + 1);
      StackPush(below, next);
      if Container(item) {
        StackPush(below + [next], Frame(item, 0));
      }
    }
  }

  lemma FrameStep(below: seq<Frame>, top: Frame, indent: nat)
    requires StackOk(below + [top]) && FrameOk(top) && StackOk(NextFrames(below, top))
    ensures Unwind(below + [top], indent) == TopText(top, indent, |below|) + Unwind(NextFrames(below, top), indent)
  {
    UnwindTop(below, top, indent);
    if top.idx == |top.obj.items| {
      assert [] + End(Batch, top.obj, indent, |below|) == End(Batch, top.obj, indent, |below|);
    } else {
      StackPush(below, Frame(top.obj, top.idx + 1));
      if Container(top.obj.items[top.idx]) {
        ContainerEntry(below, top, indent);
      } else {
        ScalarEntry(below, top, indent);
      }
    }
  }

  /** One step of a stack: it emits something, and what remained is what it emits followed by what remains. */
  lemma StackStep(stack: seq<Frame>, indent: nat)
    requires StackOk(stack) && stack != []
    ensures var d := |stack| - 1;
            var rest := NextFrames(stack[..d], stack[d]);
            && StackOk(rest)
            && |TopText(stack[d], indent, d)| > 0
            && Unwind(stack, indent) == TopText(stack[d], indent, d) + Unwind(rest, indent)
  {
    var below, top := stack[..|stack| - 1], stack[|stack| - 1];
    assert stack == below + [top];
    TopTextIsNotEmpty(top, indent, |below|);
    NextFramesOk(below, top);
    FrameStep(below, top, indent);
  }

  lemma StartIsNotEmpty(v: Json, indent: nat, d: nat)
    requires NumbersOk(v)
    ensures |Start(v, indent, d)| > 0
  {
    if !Container(v) {
      FirstByte(Batch, v, indent, d);
    }
  }

  lemma ScalarEntry(below: seq<Frame>, top: Frame, indent: nat)
    requires StackOk(below + [top]) && StackOk(below + [Frame(top.obj, top.idx + 1)])
    requires FrameOk(top) && top.idx < |top.obj.items| && !Container(top.obj.items[top.idx])
    ensures Unwind(below + [top], indent)
            == Lead(Batch, top.obj, top.idx, indent, |below|) + Start(top.obj.items[top.idx], indent, |below| + 1)
               + Unwind(below + [Frame(top.obj, top.idx + 1)], indent)
  {
    var d, item, next := |below|, top.obj.items[top.idx], Frame(top.obj, top.idx + 1);
    UnwindTop(below, top, indent);
    UnwindTop(below, next, indent);
    EntriesParts(Batch, top.obj, top.idx, indent, d);
    Regroup(Lead(Batch, top.obj, top.idx, indent, d) + Start(item, indent, d + 1),
            Entries(Batch, top.obj, top.idx + 1, indent, d), End(Batch, top.obj, indent, d), Unwind(below, indent));
  }

  lemma ContainerEntry(below: seq<Frame>, top: Frame, indent: nat)
    requires StackOk(below + [top]) && StackOk(below + [Frame(top.obj, top.idx + 1)])
    requires FrameOk(top) && top.idx < |top.obj.items| && Container(top.obj.items[top.idx])
    requires StackOk(below + [Frame(top.obj, top.idx + 1)] + [Frame(top.obj.items[top.idx], 0)])
    ensures Unwind(below + [top], indent)
            == Lead(Batch, top.obj, top.idx, indent, |below|) + Start(top.obj.items[top.idx], indent, |below| + 1)
               + Unwind(below + [Frame(top.obj, top.idx + 1)] + [Frame(top.obj.items[top.idx], 0)], indent)
  {
    var d, item, next := |below|, top.obj.items[top.idx], Frame(top.obj, top.idx + 1);
    UnwindTop(below, top, indent);
    UnwindTop(below, next, indent);
    UnwindTop(below + [next], Frame(item, 0), indent);
    EntriesParts(Batch, top.obj, top.idx, indent, d);
    TextParts(item, indent, d + 1);
    Shuffle(Lead(Batch, top.obj, top.idx, indent, d), Start(item, indent, d + 1),
            Entries(Batch, item, 0, indent, d + 1), End(Batch, item, indent, d + 1),
            Entries(Batch, top.obj, top.idx + 1, indent, d), End(Batch, top.obj, indent, d), Unwind(below, indent));
  }

  lemma Shuffle(lead: bytes, start: bytes, entries: bytes, close: bytes, more: bytes, end: bytes, rest: bytes)
    ensures lead + (start + entries + close) + more + end + rest
        == lead + start + (entries + close + (more + end + rest))
  {
    Assoc(start, entries, close);
    Assoc(lead, start, entries + close);
    Regroup(lead + start + (entries + close), more, end, rest);
    Assoc(lead + start, entries + close, more + end + rest);
  }

  /** The changes of a step to the stack: pop a finished frame, or advance the innermost one and push the container it
      listed. */
  method Advance(stack: seq<Frame>) returns (stack': seq<Frame>)
    requires stack != [] && FrameOk(stack[|stack| - 1])
    ensures stack' == NextFrames(stack[..|stack| - 1], stack[|stack| - 1])
  {
    var top := stack[|stack| - 1];
    stack' := stack[..|stack| - 1];
    if top.idx < |top.obj.items| {
      var val := top.obj.items[top.idx];
      stack' := stack' + [Frame(top.obj, top.idx + 1)];
      if Container(val) {
        stack' := stack' + [Frame(val, 0)];
      }
    }
  }
}
