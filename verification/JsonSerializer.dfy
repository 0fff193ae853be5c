/**
 JsonSerializer: a pull serializer. Each read runs steps of the traversal until the caller's
 buffer is full. A step that runs out of room is abandoned and replayed from its beginning on
 the next read, with the bytes that were already delivered swallowed.
 */
module JsonSerializer {
  import opened JsonValue
  import opened JsonText
  import opened JsonSink
  import opened JsonTraversal
  import opened JsonEmit
  import opened Sequences

  datatype ReadResult = Chunk(text: bytes) | RangeError

  function Min(a: nat, b: nat): nat {
    if a <= b then a else b
  }

  class Serializer {
    const root: Json
    const indent: nat
    const isPrimitive: bool
    const wr: Writer // skip_writer, with dest_writer and the DynBuf `out` behind it
    var stack: seq<Frame>
    var started: bool
    var finished: bool
    var blocked: bool
    var outPos: nat

    ghost function Cursor(): Cursor
      reads this
    {
      if finished then Done else if started then Walk(stack) else Fresh(root)
    }

    /** The invariant between reads. */
    ghost predicate Valid()
      reads this, wr
    {
      && NumbersOk(root) && isPrimitive == !Container(root)
      && wr.pos <= wr.dst.Length && outPos == 0
      && CursorOk(Cursor())
      && SkipOk(Cursor(), wr.skip, indent)
    }

    /** The text that no step has delivered yet. */
    ghost function Undelivered(): bytes
      reads this, wr
      requires Valid()
    {
      Drop(Remaining(Cursor(), indent), wr.skip)
    }

    /** What is left of the text of the step under way, and what remains after that step. */
    ghost function PendingStep(): bytes
      reads this, wr
      requires Valid()
    {
      Drop(StepText(Cursor(), indent), wr.skip)
    }

    ghost function AfterStep(): bytes
      reads this, wr
      requires Valid()
    {
      Later(Cursor(), indent)
    }

    constructor (root: Json, indent: nat)
      requires NumbersOk(root)
      ensures Valid() && fresh(wr) && fresh(wr.dst) && this.root == root && this.indent == indent
      ensures wr.out == [] && Undelivered() == Text(Batch, root, indent, 0)
      ensures PendingStep() == Start(root, indent, 0) && AfterStep() == Later(Fresh(root), indent)
    {
      this.root, this.indent, this.isPrimitive := root, indent, !Container(root);
      stack, started, finished, blocked, outPos := [], false, false, false, 0;
      wr := new Writer.ToDynBuf();
      new;
      StepIsPrefix(Fresh(root), indent);
      assert Text(Batch, root, indent, 0)[0..] == Text(Batch, root, indent, 0);
    }

    /** The first step: the whole of a scalar, or the opening bracket of a container. */
    method StepRoot()
      requires wr.Valid() && !started && !finished && !blocked
      requires isPrimitive == !Container(root)
      modifies this`stack, this`started, this`finished, this`blocked
      modifies wr`skip, wr`delivered, wr`pos, wr`out, wr`view, wr.dst
      ensures wr.Valid() && wr.view == Feed(old(wr.view), Start(root, indent, 0))
      ensures blocked <==> !Fits(old(wr.view), |Start(root, indent, 0)|)
      ensures Cursor() == if blocked then Fresh(root) else Next(Fresh(root))
    {
      hide Writer.Valid;
      if isPrimitive {
        var w := WriteJsonPrimitive(wr, root, None);
        if w == 0 {
          blocked := true;
          return;
        }
        started, finished := true, true;
        return;
      }
      var ok := WriteStart(wr, root, indent, 0);
      if !ok {
        blocked := true;
        return;
      }
      stack, started := [Frame(root, 0)], true;
    }

    /** Any later step: the end of the innermost container, or its next entry. */
    method StepTop()
      requires wr.Valid() && started && !finished && !blocked
      requires stack != [] && FrameOk(stack[|stack| - 1])
      modifies this`stack, this`started, this`finished, this`blocked
      modifies wr`skip, wr`delivered, wr`pos, wr`out, wr`view, wr.dst
      ensures wr.Valid() && wr.view == Feed(old(wr.view), TopText(old(stack[|stack| - 1]), indent, |old(stack)| - 1))
      ensures blocked <==> !Fits(old(wr.view), |TopText(old(stack[|stack| - 1]), indent, |old(stack)| - 1)|)
      ensures started && finished == (!blocked && stack == [])
      ensures stack == if blocked then old(stack) else NextFrames(old(stack[..|stack| - 1]), old(stack[|stack| - 1]))
    {
      hide Writer.Valid, TopText, NextFrames, Text, Feed, Fits;
      var ok := WriteTop(wr, stack[|stack| - 1], indent, |stack|);
      if !ok {
        blocked := true;
        return;
      }
      stack := Advance(stack);
      if stack == [] {
        finished := true;
      }
    }

    /** json_serializer_step_inner: writes the text of one step, and takes the step if all of it was accepted. */
    method StepInner()
      requires Valid() && wr.Valid() && !finished && !blocked
      modifies this`stack, this`started, this`finished, this`blocked
      modifies wr`skip, wr`delivered, wr`pos, wr`out, wr`view, wr.dst
      ensures wr.Valid() && wr.view == Feed(old(wr.view), StepText(old(Cursor()), indent))
      ensures blocked <==> !Fits(old(wr.view), |StepText(old(Cursor()), indent)|)
      ensures Cursor() == if blocked then old(Cursor()) else Next(old(Cursor()))
    {
      if !started {
        StepRoot();
      } else {
        StepTop();
      }
    }

    /** json_serializer_step: a step that is cut short leaves the traversal where it was and adds what it delivered to
        `skip`. */
    method Step()
      requires Valid() && wr.Valid() && !finished && !blocked
      modifies this`stack, this`started, this`finished, this`blocked
      modifies wr`skip, wr`delivered, wr`pos, wr`out, wr`view, wr`counted, wr`skip0, wr`sent0, wr.dst
      ensures wr.Valid()
      ensures Stepped(old(Cursor()), old(wr.skip), Cursor(), wr.skip, indent, old(wr.Contents()), wr.Contents())
      ensures blocked ==> Cursor() == old(Cursor()) && wr.bounded && wr.pos == wr.dst.Length
      ensures !blocked ==> Cursor() == Next(old(Cursor())) && wr.skip == 0
    {
      hide Unwind, Text, TopText, Start, NextFrames, Remaining, StepText, Next, Feed;
      var skipBefore := wr.skip;
      wr.Begin();
      FeedFirst(wr.view, StepText(Cursor(), indent));
      StepInner();
      if blocked {
        wr.Settle(skipBefore + wr.delivered);
      } else {
        wr.Settle(0);
      }
    }

    /** One step of a read's loop: nothing is lost, repeated or reordered. */
    method StepOnce()
      requires Valid() && wr.Valid() && !finished && !blocked
      modifies this`stack, this`started, this`finished, this`blocked
      modifies wr`skip, wr`delivered, wr`pos, wr`out, wr`view, wr`counted, wr`skip0, wr`sent0, wr.dst
      ensures Valid() && wr.Valid()
      ensures wr.Contents() + Undelivered() == old(wr.Contents() + Undelivered())
      ensures blocked ==> Cursor() == old(Cursor()) && wr.bounded && wr.pos == wr.dst.Length
      ensures !blocked ==> Undelivered() == old(AfterStep())
      ensures !blocked ==> |Remaining(Cursor(), indent)| < |old(Remaining(Cursor(), indent))|
      ensures |Undelivered()| <= old(|Undelivered()|)
    {
      hide Unwind, Text, TopText, Start, NextFrames;
      ghost var c, skip, sent := Cursor(), wr.skip, wr.Contents();
      Step();
      StepConserves(c, skip, Cursor(), wr.skip, indent, sent, wr.Contents());
    }

    /** The loop of a buffer read: runs steps until the buffer is full or the document ends. */
    method FillDestination()
      requires Valid() && wr.Valid() && wr.bounded && !blocked
      modifies this`stack, this`started, this`finished, this`blocked
      modifies wr`skip, wr`delivered, wr`pos, wr`out, wr`view, wr`counted, wr`skip0, wr`sent0, wr.dst
      ensures Valid() && wr.Valid() && (finished || wr.pos == wr.dst.Length)
      ensures wr.Contents() + Undelivered() == old(wr.Contents() + Undelivered())
      ensures Cursor() == old(Cursor()) || |Undelivered()| <= |old(AfterStep())|
    {
      hide Unwind, Text, TopText, Start, NextFrames, Remaining, StepText, Later, CursorOk, SkipOk;
      ghost var c := Cursor();
      while !finished && !blocked && wr.pos < wr.dst.Length
        invariant Valid() && wr.Valid() && wr.bounded
        invariant wr.Contents() + Undelivered() == old(wr.Contents() + Undelivered())
        invariant Cursor() == c || |Undelivered()| <= |Later(c, indent)|
        invariant blocked ==> wr.pos == wr.dst.Length
        decreases !blocked, |Remaining(Cursor(), indent)|
      {
        StepOnce();
      }
    }

    /** read(buffer): fills the buffer with the next bytes, as many as fit or as many as there are. */
    method ReadBuffer(buf: array<byte>) returns (n: nat)
      requires Valid()
      modifies this`stack, this`started, this`finished, this`blocked, wr, buf
      ensures Valid() && wr.out == old(wr.out) && wr.dst == buf
      ensures n == Min(buf.Length, |old(Undelivered())|)
      ensures buf[..n] == old(Undelivered())[..n] && buf[n..] == old(buf[..])[n..]
      ensures Undelivered() == old(Undelivered())[n..]
      ensures finished <==> Undelivered() == []
      ensures buf.Length < |old(PendingStep())| ==>
                PendingStep() == old(PendingStep())[buf.Length..] && AfterStep() == old(AfterStep())
    {
      hide Unwind, Text, TopText, Start, NextFrames, Remaining, StepText, Later, CursorOk, SkipOk;
      blocked := false;
      ghost var c, skip := Cursor(), wr.skip;
      wr.AttachBuffer(buf);
      ghost var pending := Undelivered();
      assert wr.Contents() + pending == pending;
      FillDestination();
      n := wr.pos;
      FinishedMeansNothingLeft();
      assert wr.Contents() == pending[..n] && Undelivered() == pending[n..];
      StepIsCut(c, skip, Cursor(), wr.skip, indent, buf.Length);
    }

    /** The loop of a string read: runs steps until `n` bytes are buffered or the document ends. */
    method FillBuffer(n: nat)
      requires Valid() && !blocked
      modifies this`stack, this`started, this`finished, this`blocked, wr, wr.dst
      ensures Valid() && wr.dst == old(wr.dst) && !blocked
      ensures wr.out + Undelivered() == old(wr.out + Undelivered())
      ensures Undelivered() == [] || |wr.out| >= n
      ensures n <= old(|wr.out|) ==> wr.out == old(wr.out) && Undelivered() == old(Undelivered())
      ensures n <= old(|wr.out|) ==> PendingStep() == old(PendingStep()) && AfterStep() == old(AfterStep())
      ensures old(|wr.out|) < n <= old(|wr.out| + |PendingStep()|) ==> Undelivered() == old(AfterStep())
    {
      hide Unwind, Text, TopText, Start, NextFrames, Remaining, StepText, Writer.Valid;
      ghost var out, rest, step, after := wr.out, Undelivered(), PendingStep(), AfterStep();
      ghost var pending := out + rest;
      PendingSplits();
      wr.AttachDynBuf();
      while !finished && !blocked && |wr.out| - outPos < n
        invariant Valid() && wr.Valid() && !wr.bounded && !blocked && wr.dst == old(wr.dst)
        invariant wr.out + Undelivered() == pending
        invariant OneStep(out, rest, step, after, wr.out, Undelivered(), AfterStep(), n)
        invariant n <= |out| ==> PendingStep() == step && AfterStep() == after
        decreases |Remaining(Cursor(), indent)|
      {
        ghost var now, more, later := wr.out, Undelivered(), AfterStep();
        StepOnce();
        OneStepGoesOn(out, rest, step, after, now, more, later, wr.out, AfterStep(), n);
      }
      FinishedMeansNothingLeft();
    }

    /** The end of a string read: hands out the first `take` buffered bytes and moves the rest to the front. */
    method TakeBuffered(take: nat) returns (text: bytes)
      requires Valid() && take <= |wr.out|
      modifies this`outPos, wr`out
      ensures Valid() && text == old(wr.out)[..take] && wr.out == old(wr.out)[take..]
      ensures Undelivered() == old(Undelivered())
      ensures PendingStep() == old(PendingStep()) && AfterStep() == old(AfterStep())
    {
      hide Unwind, Text, TopText, Start, NextFrames, Remaining, StepText, CursorOk, SkipOk;
      text := wr.out[outPos..outPos + take];
      outPos := outPos + take;
      if outPos == |wr.out| {
        wr.out := [];
        outPos := 0;
      } else if outPos > 0 {
        wr.out := wr.out[outPos..];
        outPos := 0;
      }
    }

    /** read(n): the next n bytes as a string; the surplus of the last step stays buffered. */
    method ReadString(n: int) returns (r: ReadResult)
      requires Valid()
      modifies this`stack, this`started, this`finished, this`blocked, this`outPos, wr, wr.dst
      ensures Valid() && wr.dst == old(wr.dst)
      ensures r.RangeError? <==> n < 0
      ensures r.RangeError? ==> wr.out + Undelivered() == old(wr.out + Undelivered())
      ensures r.Chunk? ==> r.text == old(wr.out + Undelivered())[..Min(n, |old(wr.out + Undelivered())|)]
      ensures r.Chunk? ==> wr.out + Undelivered() == old(wr.out + Undelivered())[|r.text|..]
      ensures n <= old(|wr.out|) ==> wr.out == old(wr.out)[if n < 0 then 0 else n..]
      ensures n <= old(|wr.out|) ==> PendingStep() == old(PendingStep()) && AfterStep() == old(AfterStep())
      ensures old(|wr.out|) < n <= old(|wr.out| + |PendingStep()|) ==> Undelivered() == old(AfterStep())
    {
      hide Unwind, Text, TopText, Start, NextFrames, Remaining, StepText, CursorOk, SkipOk, Writer.Valid;
      blocked := false;
      if n < 0 {
        return RangeError;
      }
      FillBuffer(n);
      var take := Min(n, |wr.out|);
      TakeFrom(wr.out, Undelivered(), take);
      var text := TakeBuffered(take);
      return Chunk(text);
    }

    lemma PendingSplits()
      requires Valid()
      ensures Undelivered() == PendingStep() + AfterStep()
    {
      RestSplits(Cursor(), wr.skip, indent);
    }

    lemma FinishedMeansNothingLeft()
      requires Valid()
      ensures finished <==> Undelivered() == []
    {
      if !finished {
        StepIsPrefix(Cursor(), indent);
      }
    }
  }

  /** What remains after the next step. */
  ghost function Later(c: Cursor, indent: nat): bytes
    requires CursorOk(c)
  {
    if c == Done then [] else StepIsPrefix(c, indent); Remaining(Next(c), indent)
  }

  /** How far a string read's loop has got, if `n` bytes are there after at most one step. */
  ghost predicate OneStep(out: bytes, rest: bytes, step: bytes, after: bytes, out': bytes, rest': bytes, after': bytes,
                          n: nat) {
    || (out' == out && rest' == rest && after' == after)
    || (|out| < n && (rest' == after || |out| + |step| < n))
  }

  /** A read that ends inside a step leaves the rest of that step, and all that comes after it. */
  lemma StepIsCut(c: Cursor, skip: nat, c': Cursor, skip': nat, indent: nat, n: nat)
    requires CursorOk(c) && CursorOk(c') && SkipOk(c, skip, indent) && SkipOk(c', skip', indent)
    requires var rest, rest' := Drop(Remaining(c, indent), skip), Drop(Remaining(c', indent), skip');
             rest' == rest[Min(n, |rest|)..] && (c' == c || |rest'| <= |Later(c, indent)|)
    ensures n < |Drop(StepText(c, indent), skip)| ==>
              && Drop(StepText(c', indent), skip') == Drop(StepText(c, indent), skip)[n..]
              && Later(c', indent) == Later(c, indent)
  {
    hide Unwind, Text, TopText, Start, NextFrames, Remaining, StepText, Later;
    RestSplits(c, skip, indent);
    if c' == c {
      RestSplits(c, skip', indent);
    }
  }

  lemma RestSplits(c: Cursor, skip: nat, indent: nat)
    requires CursorOk(c) && SkipOk(c, skip, indent)
    ensures Drop(Remaining(c, indent), skip) == Drop(StepText(c, indent), skip) + Later(c, indent)
  {
    hide Unwind, Text, TopText, Start, NextFrames;
    if c != Done {
      StepIsPrefix(c, indent);
      DropConcat(StepText(c, indent), Later(c, indent), skip);
    }
  }

  lemma OneStepGoesOn(out: bytes, rest: bytes, step: bytes, after: bytes, now: bytes, more: bytes, later: bytes,
                      now': bytes, later': bytes, n: nat)
    requires rest == step + after && OneStep(out, rest, step, after, now, more, later, n)
    requires |now| < n && now + more == out + rest
    ensures OneStep(out, rest, step, after, now', later, later', n)
  {
    assert |now| + |more| == |out| + |rest| == |out| + |step| + |after|;
  }

  lemma TakeFrom(buffered: bytes, rest: bytes, n: nat)
    requires n <= |buffered|
    ensures (buffered + rest)[..n] == buffered[..n]
    ensures (buffered + rest)[n..] == buffered[n..] + rest
  {
  }

  /** Moving the first `n` bytes of what remains to the text read so far keeps the whole. */
  lemma MoveOver(text: bytes, buffered: bytes, rest: bytes, n: nat)
    requires n <= |rest|
    ensures buffered == [] ==> text + (buffered + rest) == text + rest
    ensures text + rest == text + rest[..n] + rest[n..]
    ensures buffered == [] ==> text + rest[..n] + (buffered + rest[n..]) == text + rest
  {
    assert rest == rest[..n] + rest[n..];
  }

  // ----- whole runs -----

  function Sum(caps: seq<nat>): nat {
    if caps == [] then 0 else caps[0] + Sum(caps[1..])
  }

  lemma SumNothing()
    ensures Sum([]) == 0
  {
  }

  lemma {:induction false} SumSnoc(caps: seq<nat>, i: nat)
    requires i < |caps|
    ensures Sum(caps[..i + 1]) == Sum(caps[..i]) + caps[i]
  {
    if i > 0 {
      SumSnoc(caps[1..], i - 1);
      assert caps[..i + 1][1..] == caps[1..][..i] && caps[..i][1..] == caps[1..][..i - 1];
    } else {
      assert caps[..1][1..] == [];
    }
  }

  /** Reading a document into any sequence of buffers delivers the text of js_json_write, cut to the total capacity. */
  method ReadAllBuffers(root: Json, indent: nat, caps: seq<nat>) returns (text: bytes, finished: bool)
    requires NumbersOk(root)
    ensures var whole := Text(Batch, root, indent, 0);
            && text == whole[..Min(Sum(caps), |whole|)]
            && (caps != [] ==> (finished <==> Sum(caps) >= |whole|))
  {
    hide Unwind, Text, TopText, Start, NextFrames, Remaining, Writer.Valid, Serializer.Valid, Serializer.Undelivered,
        Serializer.PendingStep, Serializer.AfterStep, Sum;
    ghost var whole := Text(Batch, root, indent, 0);
    var js := new Serializer(root, indent);
    text := [];
    assert Sum([]) == 0 by { SumNothing(); }
    for i := 0 to |caps|
      invariant js.Valid() && fresh(js) && fresh(js.wr)
      invariant text + js.Undelivered() == whole
      invariant |text| == Min(Sum(caps[..i]), |whole|)
      invariant i > 0 ==> (js.finished <==> js.Undelivered() == [])
    {
      var buf := new byte[caps[i]];
      ghost var pending := js.Undelivered();
      var n := js.ReadBuffer(buf);
      MoveOver(text, [], pending, n);
      text := text + buf[..n];
      SumSnoc(caps, i);
    }
    assert caps[..|caps|] == caps;
    finished := js.finished;
  }

  datatype ReadCall = IntoBuffer(capacity: nat) | AsString(n: int)

  /** How many bytes a call asks for; a negative size is a RangeError. */
  function Asked(call: ReadCall): nat {
    match call
    case IntoBuffer(capacity) => capacity
    case AsString(n) => if n < 0 then 0 else n
  }

  function Total(calls: seq<ReadCall>): nat {
    if calls == [] then 0 else Total(calls[..|calls| - 1]) + Asked(calls[|calls| - 1])
  }

  /** Some string read asks for bytes. */
  predicate StringRead(calls: seq<ReadCall>) {
    exists i :: 0 <= i < |calls| && calls[i].AsString? && Asked(calls[i]) > 0
  }

  /** No buffer read that asks for bytes follows a string read that asks for bytes. */
  predicate BuffersFirst(calls: seq<ReadCall>) {
    forall i, j :: 0 <= i < j < |calls| && calls[i].AsString? && Asked(calls[i]) > 0 && calls[j].IntoBuffer? ==>
      Asked(calls[j]) == 0
  }

  lemma OrderSnoc(calls: seq<ReadCall>, i: nat)
    requires i < |calls|
    ensures var was, now, call := calls[..i], calls[..i + 1], calls[i];
            && (StringRead(now) <==> StringRead(was) || (call.AsString? && Asked(call) > 0))
            && (BuffersFirst(now) <==> BuffersFirst(was) && !(StringRead(was) && call.IntoBuffer? && Asked(call) > 0))
  {
    var was, now := calls[..i], calls[..i + 1];
    assert now[i] == calls[i];
    forall k | 0 <= k < i ensures was[k] == now[k] == calls[k] {}
  }

  /** The text read so far starts with the first `asked` bytes of the whole. */
  ghost predicate Delivers(text: bytes, whole: bytes, asked: nat) {
    whole[..Min(asked, |whole|)] <= text
  }

  /** What a call returns and leaves. A buffer read passes over what an earlier string read left buffered. */
  ghost predicate Answered(call: ReadCall, chunk: bytes, buffered: bytes, rest: bytes, buffered': bytes, rest': bytes) {
    var pending := if call.IntoBuffer? then rest else buffered + rest;
    && chunk == pending[..Min(Asked(call), |pending|)]
    && (call.IntoBuffer? ==> buffered' == buffered && rest' == pending[|chunk|..])
    && (call.AsString? ==> buffered' + rest' == pending[|chunk|..])
    && (call.AsString? && Asked(call) <= |buffered| ==> buffered' == buffered[Asked(call)..] && rest' == rest)
  }

  /** How a call treats the step that is under way: a buffer read may stop inside it, a string read that needs some of
      it runs it to its end. */
  ghost predicate StepKept(call: ReadCall, buffered: bytes, step: bytes, after: bytes, rest': bytes, step': bytes,
                           after': bytes) {
    && (call.IntoBuffer? && Asked(call) < |step| ==> step' == step[Asked(call)..] && after' == after)
    && (call.AsString? && Asked(call) <= |buffered| ==> step' == step && after' == after)
    && (call.AsString? && |buffered| < Asked(call) <= |buffered| + |step| ==> rest' == after)
  }

  /** One call of read. */
  method Perform(js: Serializer, call: ReadCall) returns (chunk: bytes)
    requires js.Valid()
    modifies js`stack, js`started, js`finished, js`blocked, js`outPos, js.wr, js.wr.dst
    ensures js.Valid() && (js.wr.dst == old(js.wr.dst) || fresh(js.wr.dst))
    ensures Answered(call, chunk, old(js.wr.out), old(js.Undelivered()), js.wr.out, js.Undelivered())
    ensures StepKept(call, old(js.wr.out), old(js.PendingStep()), old(js.AfterStep()), js.Undelivered(),
                     js.PendingStep(), js.AfterStep())
  {
    hide Remaining, Writer.Valid, Serializer.Valid, Serializer.Undelivered, Serializer.PendingStep,
        Serializer.AfterStep;
    js.PendingSplits();
    match call
    case IntoBuffer(capacity) =>
      var buf := new byte[capacity];
      var n := js.ReadBuffer(buf);
      chunk := buf[..n];
    case AsString(n) =>
      var r := js.ReadString(n);
      chunk := if r.Chunk? then r.text else [];
      js.PendingSplits();
  }

  /** One call in a run, and where the run stands after it. */
  method ReadNext(js: Serializer, text: bytes, calls: seq<ReadCall>, i: nat, ghost whole: bytes, ghost indent: nat,
                  ghost far: bool)
    returns (text': bytes)
    requires js.Valid() && i < |calls|
    requires Midway(text, js.wr.out, js.Undelivered(), whole, calls, i)
    requires far ==> indent >= Total(calls) && Ahead(js, text, indent, calls[..i])
    modifies js`stack, js`started, js`finished, js`blocked, js`outPos, js.wr, js.wr.dst
    ensures js.Valid() && (js.wr.dst == old(js.wr.dst) || fresh(js.wr.dst))
    ensures Midway(text', js.wr.out, js.Undelivered(), whole, calls, i + 1)
    ensures far ==> Ahead(js, text', indent, calls[..i + 1])
  {
    hide Text, Remaining, Start, Writer.Valid, Serializer.Valid, Serializer.Undelivered, Serializer.PendingStep,
        Serializer.AfterStep, Midway, Surplus, Answered, StepKept, Total;
    ghost var buffered, rest := js.wr.out, js.Undelivered();
    ghost var step, later := js.PendingStep(), js.AfterStep();
    js.PendingSplits();
    var chunk := Perform(js, calls[i]);
    CallKeeps(text, buffered, rest, whole, calls, i, chunk, js.wr.out, js.Undelivered());
    js.PendingSplits();
    if far {
      NullInArray(indent, calls, i);
      SurplusKept(text, buffered, rest, step, later, FirstStep(indent), AfterFirst(indent), calls, i, chunk, js.wr.out,
                  js.Undelivered(), js.PendingStep(), js.AfterStep());
    }
    text' := text + chunk;
  }

  /** The text of the first step for [null], and what comes after it. */
  ghost function FirstStep(indent: nat): bytes {
    Start(Array([Null]), indent, 0)
  }

  ghost function AfterFirst(indent: nat): bytes {
    Later(Fresh(Array([Null])), indent)
  }

  /** Where a run on [null] stands that asks for less than the text of the first step. */
  ghost predicate Ahead(js: Serializer, text: bytes, indent: nat, calls: seq<ReadCall>)
    requires js.Valid()
    reads js, js.wr
  {
    Surplus(text, js.wr.out, js.Undelivered(), js.PendingStep(), js.AfterStep(), FirstStep(indent), AfterFirst(indent),
            calls)
  }

  /**
   Any sequence of reads loses no byte and repeats none. As long as no buffer read follows a string read, the results
   are, in order, the text of js_json_write cut to the number of bytes asked for, whatever is called later. Otherwise
   there is a document, [null] with a large indentation, for which they are not even a prefix of that text.
   `complete` says whether all of the text was read.
   */
  method ReadMixed(root: Json, indent: nat, calls: seq<ReadCall>) returns (text: bytes, complete: bool)
    requires NumbersOk(root)
    ensures BuffersFirst(calls) ==>
              var whole := Text(Batch, root, indent, 0);
              && text == whole[..Min(Total(calls), |whole|)]
              && (complete <==> text == whole)
    ensures forall k :: 0 <= k <= |calls| && BuffersFirst(calls[..k]) ==>
              Delivers(text, Text(Batch, root, indent, 0), Total(calls[..k]))
    ensures !BuffersFirst(calls) && root == Array([Null]) && indent >= Total(calls) ==>
              !(text <= Text(Batch, root, indent, 0))
    ensures multiset(text) <= multiset(Text(Batch, root, indent, 0))
    ensures complete <==> |text| == |Text(Batch, root, indent, 0)|
  {
    hide Text, Remaining, Start, Writer.Valid, Serializer.Valid, Serializer.Undelivered, Serializer.PendingStep,
        Serializer.AfterStep, Midway, Ahead, BuffersFirst, Total, Delivers;
    ghost var whole := Text(Batch, root, indent, 0);
    ghost var far := root == Array([Null]) && indent >= Total(calls);
    var js := new Serializer(root, indent);
    text := [];
    NothingRead(whole, calls);
    js.PendingSplits();
    if far { NothingAhead(js, indent, calls); }
    for i := 0 to |calls|
      invariant js.Valid() && fresh(js) && fresh(js.wr) && fresh(js.wr.dst)
      invariant Midway(text, js.wr.out, js.Undelivered(), whole, calls, i)
      invariant far ==> Ahead(js, text, indent, calls[..i])
    {
      text := ReadNext(js, text, calls, i, whole, indent, far);
    }
    js.FinishedMeansNothingLeft();
    complete := js.finished && js.wr.out == [];
    AllRead(text, js.wr.out, js.Undelivered(), whole, calls);
    if far && !BuffersFirst(calls) {
      assert calls[..|calls|] == calls;
      Overtaken(js, text, indent, calls);
    }
  }

  lemma NothingAhead(js: Serializer, indent: nat, calls: seq<ReadCall>)
    requires js.Valid() && js.wr.out == []
    requires js.PendingStep() == FirstStep(indent) && js.AfterStep() == AfterFirst(indent)
    ensures Ahead(js, [], indent, calls[..0])
  {
    js.PendingSplits();
    SurplusAtStart(FirstStep(indent), AfterFirst(indent), calls);
    hide Surplus, FirstStep, AfterFirst, Serializer.Valid;
  }

  lemma Overtaken(js: Serializer, text: bytes, indent: nat, calls: seq<ReadCall>)
    requires js.Valid() && Ahead(js, text, indent, calls) && !BuffersFirst(calls)
    ensures !(text <= Text(Batch, Array([Null]), indent, 0))
  {
    StepIsPrefix(Fresh(Array([Null])), indent);
    hide BuffersFirst, Start, Text, Serializer.Valid;
  }

  /** Where a run stands that asks for less than the first step's text: in that step; or, once a string read has run
      it to its end, with the rest of it buffered; or a buffer read has overtaken that rest. */
  ghost predicate Surplus(text: bytes, buffered: bytes, rest: bytes, step: bytes, later: bytes, one: bytes,
                          after: bytes, calls: seq<ReadCall>) {
    if !BuffersFirst(calls) then !(text <= one + after)
    else
      && |text| <= Total(calls)
      && if StringRead(calls) then text + buffered == one && rest == after
         else buffered == [] && text + step == one && later == after
  }

  lemma SurplusAtStart(one: bytes, after: bytes, calls: seq<ReadCall>)
    ensures calls[..0] == [] && Surplus([], [], one + after, one, after, one, after, calls[..0])
  {
  }

  /** The first step is longer than all that is asked for, and the byte that follows it is not in it. */
  ghost predicate Overtakes(one: bytes, after: bytes, asked: nat) {
    asked < |one| && after != [] && after[0] !in one
  }

  /** The first string read that asks for bytes runs the step to its end. */
  lemma FirstString(text: bytes, step: bytes, after: bytes, one: bytes, n: nat, buffered': bytes)
    requires text + step == one && n <= |step|
    requires buffered' + after == (step + after)[n..]
    ensures text + (step + after)[..n] + buffered' == one
  {
    TakeFrom(step, after, n);
    assert |buffered'| == |step[n..]|;
    assert buffered' == (buffered' + after)[..|buffered'|] == (step[n..] + after)[..|step[n..]|] == step[n..];
    assert text + step[..n] + step[n..] == one;
  }

  lemma NullInArray(indent: nat, calls: seq<ReadCall>, i: nat)
    requires i < |calls| && indent >= Total(calls)
    ensures var root := Array([Null]);
            Overtakes(Start(root, indent, 0), Later(Fresh(root), indent), Total(calls[..i + 1]))
  {
    hide Later, Total, Start;
    TotalGrows(calls, i + 1);
    BracketAndBlanks(indent);
    NullComesSecond(indent);
  }

  lemma BracketAndBlanks(indent: nat)
    ensures |Start(Array([Null]), indent, 0)| > indent
    ensures 0x6E !in Start(Array([Null]), indent, 0)
  {
  }

  lemma NullComesSecond(indent: nat)
    ensures var after := Later(Fresh(Array([Null])), indent);
            after != [] && after[0] == 0x6E
  {
    hide Unwind, Text;
    var f := Frame(Array([Null]), 0);
    assert StackOk([f]);
    StackStep([f], indent);
    assert BeforeItem(Batch, 0, indent, 0) == [];
    assert Lead(Batch, f.obj, 0, indent, 0) == [];
    assert TopText(f, indent, 0) == NULL_TEXT;
    assert Later(Fresh(f.obj), indent) == Unwind([f], indent);
  }

  lemma {:induction false} TotalGrows(calls: seq<ReadCall>, i: nat)
    requires i <= |calls|
    ensures Total(calls[..i]) <= Total(calls)
    decreases |calls| - i
  {
    if i < |calls| {
      TotalSnoc(calls, i);
      TotalGrows(calls, i + 1);
    } else {
      assert calls[..i] == calls;
    }
  }

  lemma SurplusKept(text: bytes, buffered: bytes, rest: bytes, step: bytes, later: bytes, one: bytes, after: bytes,
                    calls: seq<ReadCall>, i: nat, chunk: bytes, buffered': bytes, rest': bytes, step': bytes,
                    later': bytes)
    requires i < |calls| && rest == step + later && rest' == step' + later'
    requires Overtakes(one, after, Total(calls[..i + 1]))
    requires Surplus(text, buffered, rest, step, later, one, after, calls[..i])
    requires Answered(calls[i], chunk, buffered, rest, buffered', rest')
    requires StepKept(calls[i], buffered, step, later, rest', step', later')
    ensures Surplus(text + chunk, buffered', rest', step', later', one, after, calls[..i + 1])
  {
    hide BuffersFirst, StringRead, Total;
    var call := calls[i];
    OrderSnoc(calls, i);
    TotalSnoc(calls, i);
    if !BuffersFirst(calls[..i]) {
      assert text <= text + chunk;
    } else if StringRead(calls[..i]) {
      if call.AsString? {
        TakeFrom(buffered, rest, Asked(call));
        assert text + buffered[..Asked(call)] + buffered[Asked(call)..] == one;
      } else if Asked(call) > 0 {
        assert chunk[0] == after[0] && (text + chunk)[|text|] == after[0];
        assert (one + after)[|text|] == one[|text|];
      } else {
        assert chunk == [] && text + chunk == text && rest' == rest;
      }
    } else if call.IntoBuffer? {
      assert |step| + |text| == |one|;
      TakeFrom(step, later, Asked(call));
      assert text + step[..Asked(call)] + step[Asked(call)..] == one;
    } else {
      assert [] + rest == rest && |text| + |step| == |one|;
      if Asked(call) > 0 {
        FirstString(text, step, after, one, Asked(call), buffered');
      } else {
        assert chunk == [] && text + chunk == text && buffered' == [];
      }
    }
  }

  /** Where a run stands after i calls. */
  ghost predicate Midway(text: bytes, buffered: bytes, rest: bytes, whole: bytes, calls: seq<ReadCall>, i: nat) {
    && i <= |calls|
    && (!StringRead(calls[..i]) ==> buffered == [])
    && (BuffersFirst(calls[..i]) ==> InOrder(text, buffered, rest, whole, Total(calls[..i])))
    && (forall k :: 0 <= k <= i && BuffersFirst(calls[..k]) ==> Delivers(text, whole, Total(calls[..k])))
    && Conserved(text, buffered, rest, whole)
  }

  lemma NothingRead(whole: bytes, calls: seq<ReadCall>)
    ensures Midway([], [], whole, whole, calls, 0)
  {
    assert [] + ([] + whole) == whole;
  }

  lemma CallKeeps(text: bytes, buffered: bytes, rest: bytes, whole: bytes, calls: seq<ReadCall>, i: nat,
                  chunk: bytes, buffered': bytes, rest': bytes)
    requires i < |calls| && Midway(text, buffered, rest, whole, calls, i)
    requires Answered(calls[i], chunk, buffered, rest, buffered', rest')
    ensures Midway(text + chunk, buffered', rest', whole, calls, i + 1)
  {
    hide Conserved, Total, BuffersFirst, StringRead;
    OrderSnoc(calls, i);
    if calls[i].IntoBuffer? {
      BufferConserves(text, buffered, rest, whole, |chunk|);
    } else {
      StringConserves(text, buffered, rest, whole, |chunk|, buffered', rest');
    }
    if BuffersFirst(calls[..i + 1]) {
      OrderGoesOn(text, buffered, rest, whole, calls, i, chunk, buffered', rest');
    }
    forall k | 0 <= k <= i + 1 && BuffersFirst(calls[..k]) ensures Delivers(text + chunk, whole, Total(calls[..k])) {
      if k <= i { assert Delivers(text, whole, Total(calls[..k])); }
    }
  }

  lemma OrderGoesOn(text: bytes, buffered: bytes, rest: bytes, whole: bytes, calls: seq<ReadCall>, i: nat,
                    chunk: bytes, buffered': bytes, rest': bytes)
    requires i < |calls| && BuffersFirst(calls[..i + 1])
    requires BuffersFirst(calls[..i]) ==> InOrder(text, buffered, rest, whole, Total(calls[..i]))
    requires !StringRead(calls[..i]) ==> buffered == []
    requires Answered(calls[i], chunk, buffered, rest, buffered', rest')
    ensures BuffersFirst(calls[..i]) && InOrder(text + chunk, buffered', rest', whole, Total(calls[..i + 1]))
  {
    hide InOrder, Total, BuffersFirst, StringRead;
    TotalSnoc(calls, i);
    OrderSnoc(calls, i);
    if calls[i].IntoBuffer? {
      assert buffered == [] ==> [] + rest == rest && [] + rest' == rest';
    }
    OrderKept(text, buffered, rest, whole, Total(calls[..i]), Asked(calls[i]), buffered', rest');
  }

  lemma AllRead(text: bytes, buffered: bytes, rest: bytes, whole: bytes, calls: seq<ReadCall>)
    requires Midway(text, buffered, rest, whole, calls, |calls|)
    ensures && |text| + |buffered| + |rest| == |whole| && multiset(text) <= multiset(whole)
            && (BuffersFirst(calls) ==> text == whole[..Min(Total(calls), |whole|)])
            && (BuffersFirst(calls) ==> (text == whole <==> buffered == [] && rest == []))
    ensures forall k :: 0 <= k <= |calls| && BuffersFirst(calls[..k]) ==> Delivers(text, whole, Total(calls[..k]))
  {
    hide Total;
    assert calls[..|calls|] == calls;
    assert |multiset(text)| == |text| && |multiset(buffered)| == |buffered| && |multiset(rest)| == |rest|;
    assert |multiset(whole)| == |whole|;
    assert |multiset(text) + multiset(buffered)| == |text| + |buffered|;
    assert |multiset(text) + multiset(buffered) + multiset(rest)| == |whole|;
  }

  lemma TotalSnoc(calls: seq<ReadCall>, i: nat)
    requires i < |calls|
    ensures Total(calls[..i + 1]) == Total(calls[..i]) + Asked(calls[i])
  {
    assert calls[..i + 1][..i] == calls[..i];
  }

  /** What was read, then what is buffered, then what is not delivered, is the whole; and as much was read as was
      asked for. */
  ghost predicate InOrder(text: bytes, buffered: bytes, rest: bytes, whole: bytes, asked: nat) {
    text + (buffered + rest) == whole && |text| == Min(asked, |whole|)
  }

  /** Every byte of the whole is in exactly one of the three places. */
  ghost predicate Conserved(text: bytes, buffered: bytes, rest: bytes, whole: bytes) {
    multiset(text) + multiset(buffered) + multiset(rest) == multiset(whole)
  }

  lemma OrderKept(text: bytes, buffered: bytes, rest: bytes, whole: bytes, asked: nat, more: nat,
                  buffered': bytes, rest': bytes)
    requires InOrder(text, buffered, rest, whole, asked)
    requires buffered' + rest' == (buffered + rest)[Min(more, |buffered + rest|)..]
    ensures InOrder(text + (buffered + rest)[..Min(more, |buffered + rest|)], buffered', rest', whole, asked + more)
  {
    var pending := buffered + rest;
    var n := Min(more, |pending|);
    assert pending == pending[..n] + pending[n..];
    Assoc(text, pending[..n], pending[n..]);
  }

  lemma BufferConserves(text: bytes, buffered: bytes, rest: bytes, whole: bytes, n: nat)
    requires Conserved(text, buffered, rest, whole) && n <= |rest|
    ensures Conserved(text + rest[..n], buffered, rest[n..], whole)
  {
    assert rest == rest[..n] + rest[n..];
  }

  lemma StringConserves(text: bytes, buffered: bytes, rest: bytes, whole: bytes, n: nat, buffered': bytes, rest': bytes)
    requires Conserved(text, buffered, rest, whole) && n <= |buffered + rest|
    requires buffered' + rest' == (buffered + rest)[n..]
    ensures Conserved(text + (buffered + rest)[..n], buffered', rest', whole)
  {
    var pending := buffered + rest;
    var t, p, q := multiset(text), multiset(pending[..n]), multiset(pending[n..]);
    assert pending == pending[..n] + pending[n..];
    assert t + multiset(buffered) + multiset(rest) == t + multiset(pending) == t + p + q;
    assert multiset(text + pending[..n]) == t + p;
    assert q == multiset(buffered' + rest') == multiset(buffered') + multiset(rest');
    assert t + p + q == t + p + multiset(buffered') + multiset(rest');
  }

  lemma FeedFirst(s: Sink, text: bytes)
    requires s.log == []
    ensures Fits(s, |text|) ==> Feed(s, text).log == text
    ensures !Fits(s, |text|) ==> s.limit < |text| && Feed(s, text).log == text[..s.limit]
  {
    assert [] + text == text;
  }

  /** `skip` bytes of the next step have been delivered, and never all of them. */
  ghost predicate SkipOk(c: Cursor, skip: nat, indent: nat)
    requires CursorOk(c)
  {
    if c == Done then skip == 0 else skip < |StepText(c, indent)|
  }

  /** What a step does to the position of the traversal, to the bytes to swallow and to the destination. */
  ghost predicate Stepped(c: Cursor, skip: nat, c': Cursor, skip': nat, indent: nat, sent: bytes, sent': bytes)
    requires CursorOk(c)
  {
    var text := StepText(c, indent);
    || (c' == Next(c) && skip' == 0 && sent' == sent + Drop(text, skip))
    || (c' == c && skip <= skip' < |text| && sent' == sent + Drop(text[..skip'], skip))
  }

  lemma StepConserves(c: Cursor, skip: nat, c': Cursor, skip': nat, indent: nat, sent: bytes, sent': bytes)
    requires CursorOk(c) && c != Done && SkipOk(c, skip, indent)
    requires Stepped(c, skip, c', skip', indent, sent, sent')
    ensures CursorOk(c') && SkipOk(c', skip', indent)
    ensures sent' + Drop(Remaining(c', indent), skip') == sent + Drop(Remaining(c, indent), skip)
    ensures c' == Next(c) ==> |Remaining(c', indent)| < |Remaining(c, indent)|
    ensures |Drop(Remaining(c', indent), skip')| <= |Drop(Remaining(c, indent), skip)|
  {
    hide Unwind, Text, TopText, Start;
    var text, more := StepText(c, indent), Remaining(Next(c), indent);
    StepIsPrefix(c, indent);
    if c' == Next(c) && skip' == 0 && sent' == sent + Drop(text, skip) {
      ReplayDone(sent, text, more, skip);
      assert Drop(more, 0) == more;
      if c' != Done { StepEmits(c', indent); }
    } else {
      ReplayBlocked(sent, text, more, skip, skip');
    }
  }

  /** The step that starts with `skip` bytes already delivered runs to its end. */
  lemma ReplayDone(sent: bytes, text: bytes, more: bytes, skip: nat)
    requires skip < |text|
    ensures sent + Drop(text, skip) + more == sent + Drop(text + more, skip)
  {
    assert Drop(text, skip) + more == Drop(text + more, skip);
    Assoc(sent, Drop(text, skip), more);
  }

  /** The step gets no further than its first `n` bytes. */
  lemma ReplayBlocked(sent: bytes, text: bytes, more: bytes, skip: nat, n: nat)
    requires skip <= n < |text|
    ensures sent + Drop(text[..n], skip) + Drop(text + more, n) == sent + Drop(text + more, skip)
  {
    assert Drop(text[..n], skip) + Drop(text + more, n) == Drop(text + more, skip);
    Assoc(sent, Drop(text[..n], skip), Drop(text + more, n));
  }
}
