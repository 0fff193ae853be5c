/**
 JsonWriter: a push-based writer that is called once per event and keeps a stack of frames.
 A call that does not fit the frames is rejected with a TypeError.
 */
module JsonPushWriter {
  import opened JsonValue
  import opened JsonText
  import opened JsonStyles
  import opened JsonGrammar
  import opened JsonEvents
  import opened JsonAssemblyText
  import opened Sequences

  /** JsonWriterFrame */
  datatype WriterFrame = WriterFrame(isObject: bool, count: nat, expectingValue: bool)

  /** The frame of a part: an array counts an item as soon as it is started, an object as soon as its key is written. */
  function FrameOf(p: Part, held: bool): WriterFrame {
    if p.isObject then WriterFrame(true, |p.keys|, Awaiting(p) && !held)
    else WriterFrame(false, |p.items| + (if held then 1 else 0), false)
  }

  ghost predicate FramesMatch(stack: seq<WriterFrame>, open: seq<Part>) {
    |stack| == |open| && forall k :: 0 <= k < |stack| ==> stack[k] == FrameOf(open[k], k < |open| - 1)
  }

  lemma StartFrame(stack: seq<WriterFrame>, open: seq<Part>, isObject: bool)
    requires |stack| == |open| && forall k :: 0 <= k < |stack| ==> stack[k] == FrameOf(open[k], true)
    ensures FramesMatch(stack + [WriterFrame(isObject, 0, false)], open + [Part(isObject, [], [])])
  {
  }

  /** A value that completes an item leaves the innermost frame as `before_value` and `after_value` left it. */
  lemma AddFrame(stack: seq<WriterFrame>, s: Assembly, v: Json)
    requires AssemblyOk(s) && Ready(s)
    requires |stack| == |s.open| && forall k :: 0 <= k < |stack| ==> stack[k] == FrameOf(s.open[k], true)
    ensures FramesMatch(Settled(stack), Add(s, v).open)
  {
  }

  lemma PopFrames(stack: seq<WriterFrame>, open: seq<Part>)
    requires FramesMatch(stack, open) && open != []
    ensures var below := stack[..|stack| - 1];
            && |below| == |open[..|open| - 1]|
            && forall k :: 0 <= k < |below| ==> below[k] == FrameOf(open[..|open| - 1][k], true)
  {
  }

  function Effective(indent: int): nat {
    if indent > 0 then indent else 0
  }

  class JsonWriter {
    var out: bytes
    var written: nat
    var indent: int
    var level: int
    var stack: seq<WriterFrame>
    ghost var built: Assembly // what the accepted calls stand for
    ghost var steady: bool    // the indentation has not changed since the first byte

    /** The invariant that every call keeps, accepted or not. */
    ghost predicate Valid()
      reads this
    {
      && AssemblyOk(built)
      && FramesMatch(stack, built.open)
      && level == |stack|
      && written == |out|
      && (steady ==> out == Written(Push, built, Effective(indent)))
    }

    constructor (indent: int)
      ensures Valid() && steady && built == EMPTY && out == [] && this.indent == indent
    {
      out, written, level, stack := [], 0, 0, [];
      this.indent := indent;
      built, steady := EMPTY, true;
    }

    /** The setter of `indent`. */
    method SetIndent(value: int)
      requires Valid()
      modifies `indent, `steady
      ensures Valid() && indent == value
      ensures steady == (old(steady) && Effective(value) == Effective(old(indent)))
    {
      steady := steady && Effective(value) == Effective(indent);
      indent := value;
    }

    method Put(t: bytes) returns (w: nat)
      modifies `out, `written
      ensures out == old(out) + t && written == old(written) + |t| && w == |t|
    {
      out := out + t;
      written := written + |t|;
      return |t|;
    }

    /** json_writer_indent */
    method PutIndent() returns (w: nat)
      requires level >= 0
      modifies `out, `written
      ensures out == old(out) + Break(Effective(indent), level) && written == old(written) + w
      ensures w == |Break(Effective(indent), level)|
    {
      if indent > 0 {
        w := Put([NEWLINE]);
        for i := 0 to indent * level
          invariant w == 1 + i && written == old(written) + w
          invariant out == old(out) + ([NEWLINE] + Spaces(i))
        {
          var r := Put([SPACE]);
          assert Spaces(i) + [SPACE] == Spaces(i + 1);
          w := w + r;
        }
      } else {
        w := 0;
      }
    }

    /** json_writer_comma_indent */
    method PutCommaIndent(count: nat) returns (w: nat)
      requires level > 0
      modifies `out, `written
      ensures out == old(out) + BeforeItem(Push, count, Effective(indent), level - 1) && written == old(written) + w
      ensures w == |BeforeItem(Push, count, Effective(indent), level - 1)|
    {
      w := 0;
      if count > 0 {
        w := Put([COMMA]);
      }
      var r := PutIndent();
      w := w + r;
    }

    /** json_writer_before_value: -1 stands for the TypeError "expected key". */
    method BeforeValue() returns (w: int)
      requires Valid()
      modifies `out, `written, `stack
      ensures w >= 0 <==> Ready(built)
      ensures w < 0 ==> unchanged(this)
      ensures w >= 0 ==>
          out == old(out) + ValueLead(Push, built, Effective(indent)) && written == old(written) + w == |out|
      ensures w >= 0 ==>
                |stack| == |old(stack)| && forall k :: 0 <= k < |stack| ==> stack[k] == FrameOf(built.open[k], true)
    {
      if stack == [] {
        return 0;
      }
      var top := stack[|stack| - 1];
      if top.isObject {
        if !top.expectingValue {
          return -1;
        }
        stack := stack[..|stack| - 1] + [top.(expectingValue := false)];
        return 0;
      }
      w := PutCommaIndent(top.count);
      stack := stack[..|stack| - 1] + [top.(count := top.count + 1)];
    }

    /** json_writer_after_value */
    method AfterValue()
      modifies `stack
      ensures stack == Settled(old(stack)) && |stack| == |old(stack)|
    {
      if stack != [] {
        var parent := stack[|stack| - 1];
        if parent.isObject {
          stack := stack[..|stack| - 1] + [parent.(expectingValue := false)];
        }
      }
    }

    /** json_writer_write_object_start and json_writer_write_array_start */
    method Start(isObject: bool) returns (w: int)
      requires Valid()
      modifies this`out, this`written, this`level, this`stack, this`built
      ensures Valid()
      ensures Answers(if isObject then ObjectStart else ArrayStart, w)
    {
      hide Written, ValueLead, Break, AssemblyOk;
      ghost var e := if isObject then ObjectStart else ArrayStart;
      w := BeforeValue();
      if w < 0 {
        return -1;
      }
      StartFrame(stack, built.open, isObject);
      var r := Put([if isObject then 0x7B else 0x5B]);
      w := w + r;
      level := level + 1;
      r := PutIndent();
      w := w + r;
      stack := stack + [WriterFrame(isObject, 0, false)];
      StepAppends(Push, built, e, Effective(indent));
      built := Step(built, e);
    }

    /** What a call that handles event `e` does: it is rejected and changes nothing, or it emits the text of the
        event, takes the event into account and returns the number of bytes emitted. */
    twostate predicate Answers(e: Event, w: int)
      reads this
    {
      && (w >= 0 <==> Accepts(old(built), e))
      && (w < 0 ==> unchanged(this))
      && (w >= 0 ==>
            && built == Step(old(built), e)
            && w == |Emit(Push, old(built), e, Effective(indent))|
            && out == old(out) + Emit(Push, old(built), e, Effective(indent)))
    }

    /** json_writer_write_key */
    method WriteKey(k: bytes) returns (w: int)
      requires Valid()
      modifies this`out, this`written, this`stack, this`built
      ensures Valid()
      ensures Answers(Key(k), w)
    {
      hide Written, Break, AssemblyOk, BeforeItem, KeyText;
      if stack == [] {
        return -1;
      }
      var top := stack[|stack| - 1];
      if !top.isObject || top.expectingValue {
        return -1;
      }
      TopCount(built);
      w := PutCommaIndent(top.count);
      var r := PutKeyText(k);
      w := w + r;
      stack := stack[..|stack| - 1] + [top.(count := top.count + 1, expectingValue := true)];
      StepAppends(Push, built, Key(k), Effective(indent));
      KeyFrame(old(stack), built, k);
      built := Step(built, Key(k));
    }

    /** The quoted key, the colon and, with indentation, a blank. */
    method PutKeyText(k: bytes) returns (w: nat)
      modifies `out, `written
      ensures out == old(out) + KeyText(k, Effective(indent)) && written == old(written) + w
      ensures w == |KeyText(k, Effective(indent))|
    {
      hide Quoted;
      w := Put(Quoted(k));
      var r := Put([COLON]);
      w := w + r;
      if indent > 0 {
        r := Put([SPACE]);
        w := w + r;
      }
    }

    /** json_writer_write_object_end and json_writer_write_array_end */
    method End(isObject: bool) returns (w: int)
      requires Valid()
      modifies this`out, this`written, this`level, this`stack, this`built
      ensures Valid()
      ensures Answers(if isObject then ObjectEnd else ArrayEnd, w)
    {
      hide Written, Break, AssemblyOk, Add, Settled;
      if stack == [] {
        return -1;
      }
      var top := stack[|stack| - 1];
      if top.isObject != isObject || (isObject && top.expectingValue) {
        return -1;
      }
      ghost var e := if isObject then ObjectEnd else ArrayEnd;
      TopCount(built);
      PopFrames(stack, built.open);
      stack := stack[..|stack| - 1];
      level := level - 1;
      w := 0;
      if top.count > 0 {
        w := PutIndent();
      }
      var r := Put([if isObject then 0x7D else 0x5D]);
      w := w + r;
      StepAppends(Push, built, e, Effective(indent));
      EndFrame(stack, built, e);
      AfterValue();
      built := Step(built, e);
    }

    /** json_writer_write_value: an object is written as the string that its toString gives, or as null. */
    method WriteValue(val: Json, asString: Option<bytes>) returns (w: int)
      requires Valid()
      modifies this`out, this`written, this`stack, this`built
      ensures Valid()
      ensures Answers(Value(Primitive(val, asString)), w)
      ensures w >= 0 && Container(val) ==>
                StandsBehind(old(out) + ValueLead(Push, old(built), Effective(indent)), out, asString)
    {
      hide Written, Break, AssemblyOk, ValueLead, Scalar, StandsBehind, Primitive, Step, Accepts;
      ghost var s := built;
      w := PutValue(Primitive(val, asString));
      if w >= 0 && Container(val) {
        EmitsObject(old(out), s, val, asString, Effective(indent));
      }
    }

    /** The separators, the text of the scalar, and the frames after it. */
    method PutValue(v: Json) returns (w: int)
      requires Valid() && !Container(v)
      modifies this`out, this`written, this`stack, this`built
      ensures Valid()
      ensures Answers(Value(v), w)
    {
      hide Written, Break, AssemblyOk, ValueLead, Scalar;
      w := BeforeValue();
      if w < 0 {
        return -1;
      }
      var r := Put(Scalar(v));
      w := w + r;
      StepAppends(Push, built, Value(v), Effective(indent));
      ValueFrame(stack, built, v);
      AfterValue();
      built := Step(built, Value(v));
    }

    /** js_jsonwriter_method: one call, by the event it stands for. */
    method Call(e: Event, asString: Option<bytes>) returns (w: int)
      requires Valid()
      modifies this`out, this`written, this`level, this`stack, this`built
      ensures Valid()
      ensures Answers(Actual(e, asString), w)
    {
      hide Written, Break, AssemblyOk, Emit, Step;
      match e
      case ObjectStart => w := Start(true);
      case ArrayStart => w := Start(false);
      case ObjectEnd => w := End(true);
      case ArrayEnd => w := End(false);
      case Key(k) => w := WriteKey(k);
      case Value(v) => w := WriteValue(v, asString);
    }
  }

  /** Behind `before` there is one token of RFC 8259: the string that toString gives, or null if it gives none. */
  ghost predicate StandsBehind(before: bytes, after: bytes, asString: Option<bytes>) {
    && before < after
    && LexToken(after[|before|..]) == Some((Atom(if asString.Some? then String(asString.value) else Null), []))
  }

  lemma ObjectReads(before: bytes, val: Json, asString: Option<bytes>)
    requires Container(val)
    ensures StandsBehind(before, before + Scalar(Primitive(val, asString)), asString)
  {
    var text := Scalar(Primitive(val, asString));
    assert (before + text)[|before|..] == text;
    if asString.Some? {
      QuotedDecodes(asString.value, []);
      assert text + [] == text;
    } else {
      assert LexToken(text) == Some((Atom(Null), [])) by { assert text[4..] == []; }
    }
  }

  lemma EmitsObject(out: bytes, s: Assembly, val: Json, asString: Option<bytes>, indent: nat)
    requires Container(val) && Accepts(s, Value(Primitive(val, asString)))
    ensures StandsBehind(out + ValueLead(Push, s, indent),
                         out + Emit(Push, s, Value(Primitive(val, asString)), indent), asString)
  {
    hide StandsBehind, Primitive, Scalar, ValueLead;
    ObjectReads(out + ValueLead(Push, s, indent), val, asString);
    Assoc(out, ValueLead(Push, s, indent), Scalar(Primitive(val, asString)));
  }

  lemma TopCount(s: Assembly)
    requires AssemblyOk(s) && s.open != [] && !Awaiting(Top(s))
    ensures PartShape(Top(s)) && FrameOf(Top(s), false).count == |Top(s).items|
  {
  }

  lemma KeyFrame(stack: seq<WriterFrame>, s: Assembly, k: bytes)
    requires AssemblyOk(s) && FramesMatch(stack, s.open) && Accepts(s, Key(k))
    ensures var top := stack[|stack| - 1];
            FramesMatch(stack[..|stack| - 1] + [top.(count := top.count + 1, expectingValue := true)],
                        Step(s, Key(k)).open)
  {
  }

  /** The frames once a container is closed, after after_value. */
  lemma EndFrame(below: seq<WriterFrame>, s: Assembly, e: Event)
    requires AssemblyOk(s) && Accepts(s, e) && (e.ObjectEnd? || e.ArrayEnd?)
    requires |below| == |s.open| - 1 && forall k :: 0 <= k < |below| ==> below[k] == FrameOf(s.open[k], true)
    ensures FramesMatch(Settled(below), Step(s, e).open)
  {
    assert AssemblyOk(s.(open := s.open[..|s.open| - 1]));
    AddFrame(below, s.(open := s.open[..|s.open| - 1]), Completed(Top(s)));
  }

  lemma ValueFrame(stack: seq<WriterFrame>, s: Assembly, v: Json)
    requires AssemblyOk(s) && Accepts(s, Value(v))
    requires |stack| == |s.open| && forall k :: 0 <= k < |stack| ==> stack[k] == FrameOf(s.open[k], true)
    ensures FramesMatch(Settled(stack), Step(s, Value(v)).open)
  {
    AddFrame(stack, s, v);
  }

  /** What after_value does to the frames. */
  function Settled(stack: seq<WriterFrame>): seq<WriterFrame> {
    if stack != [] && stack[|stack| - 1].isObject then
      stack[..|stack| - 1] + [stack[|stack| - 1].(expectingValue := false)]
    else stack
  }

  // ----- whole runs -----

  /** The event that a call stands for; `asString` is what toString gives for an object. */
  function Actual(e: Event, asString: Option<bytes>): Event {
    if e.Value? then Value(Primitive(e.v, asString)) else e
  }

  datatype WriterCall = WriterCall(e: Event, asString: Option<bytes>)

  function Actuals(calls: seq<WriterCall>): seq<Event> {
    seq(|calls|, i requires 0 <= i < |calls| => Actual(calls[i].e, calls[i].asString))
  }

  /** Any sequence of calls on a new writer, rejected calls included: the frames and the level follow the accepted
      calls, `written` is the number of bytes emitted and the sum of what the calls returned, and the output is the
      text of what the accepted calls stand for. */
  method RunCalls(calls: seq<WriterCall>, indent: int) returns (wr: JsonWriter, total: nat)
    ensures fresh(wr) && wr.Valid() && wr.indent == indent
    ensures wr.built == Assemble(EMPTY, Actuals(calls))
    ensures wr.out == Written(Push, wr.built, Effective(indent))
    ensures total == wr.written == |wr.out|
  {
    hide Written, Emit, Step, AssemblyOk, FramesMatch, Actual;
    wr := new JsonWriter(indent);
    total := 0;
    ghost var es := Actuals(calls);
    assert es[0..] == es;
    for i := 0 to |calls|
      invariant fresh(wr) && wr.Valid() && wr.steady && wr.indent == indent
      invariant Assemble(wr.built, es[i..]) == Assemble(EMPTY, es)
      invariant total == wr.written
    {
      assert es[i..][1..] == es[i + 1..];
      var w := wr.Call(calls[i].e, calls[i].asString);
      if w >= 0 {
        total := total + w;
      }
    }
  }

  /** The events of a value are all accepted, and emit its text in JsonWriter's layout. */
  lemma TreeIsWritten(v: Json, indent: nat)
    requires Shaped(v)
    ensures AcceptsAll(EMPTY, Events(v)) && Assemble(EMPTY, Events(v)) == Assembly([v], [])
    ensures Written(Push, Assemble(EMPTY, Events(v)), indent) == Text(Push, v, indent, 0)
  {
    AssembleValue(EMPTY, v);
    assert EMPTY.roots + [v] == [v];
    SingleRoot(Push, v, indent);
  }

  /** With no indentation JsonWriter emits for a tree exactly the text of js_json_write; with indentation it does so
      exactly for scalars, and for containers the two texts agree once white space outside strings is deleted. */
  lemma TreeAgreesWithBatch(v: Json, indent: nat)
    requires Shaped(v) && NumbersOk(v)
    ensures var text := Written(Push, Assembly([v], []), indent);
            && (text == Text(Batch, v, indent, 0) <==> indent == 0 || !Container(v))
            && Stripped(Outside, text) == Stripped(Outside, Text(Batch, v, indent, 0)) == Text(Batch, v, 0, 0)
  {
    SingleRoot(Push, v, indent);
    PushEqualsBatch(v, indent, 0);
    TextStrips(Push, v, indent, 0);
    TextStrips(Batch, v, indent, 0);
  }

  /** Whatever the calls, if they close every container and make one root value, the output is a JSON text and
      stands for that value. */
  lemma ClosedRunIsDocument(es: seq<Event>, indent: nat)
    requires NumbersOkIn(es)
    requires Assemble(EMPTY, es).open == [] && |Assemble(EMPTY, es).roots| == 1
    ensures Parse(Written(Push, Assemble(EMPTY, es), indent)) == Some(Plain(Assemble(EMPTY, es).roots[0]))
  {
    hide Text, Entries, Lex, ParseValue, Plain;
    var s := Assemble(EMPTY, es);
    var v := s.roots[0];
    AssembleOk(EMPTY, es);
    AssembleNumbersOk(EMPTY, es);
    RoundTrip(Push, v, indent);
    SingleRoot(Push, v, indent);
    assert s == Assembly([v], []);
  }
}
