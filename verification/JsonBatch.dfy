/** js_json_write: the batch writer, a loop over an explicit stack that appends to a growing buffer. */
module JsonBatch {
  import opened JsonValue
  import opened JsonText
  import opened JsonSink
  import opened JsonTraversal
  import opened JsonEmit
  import opened Sequences
  import JsonGrammar
  import JsonLayout
  import JsonStyles

  /** The writer of the batch: it starts empty, swallows nothing and has no limit. */
  ghost predicate Appending(wr: Writer)
    reads wr, wr.dst
  {
    wr.Valid() && !wr.bounded && wr.skip0 == 0 && wr.sent0 == []
  }

  /** The loop: whatever the stack, all the text that remains for it is appended. */
  method Drain(wr: Writer, start: seq<Frame>, indent: nat)
    requires Appending(wr) && StackOk(start)
    modifies wr`skip, wr`delivered, wr`pos, wr`out, wr`view, wr.dst
    ensures Appending(wr) && wr.view.log == old(wr.view.log) + Unwind(start, indent)
  {
    var stack := start;
    while stack != []
      invariant Appending(wr) && StackOk(stack)
      invariant wr.view.log + Unwind(stack, indent) == old(wr.view.log) + Unwind(start, indent)
      decreases |Unwind(stack, indent)|
    {
      ghost var log, text := wr.view.log, TopText(stack[|stack| - 1], indent, |stack| - 1);
      StackStep(stack, indent);
      var _ := WriteTop(wr, stack[|stack| - 1], indent, |stack|);
      stack := Advance(stack);
      Assoc(log, text, Unwind(stack, indent));
    }
    assert wr.view.log + [] == wr.view.log;
  }

  /**
   The whole document: the text of the recursive printer, which an RFC 8259 parser takes back to the value, with every
   line indented by the number of open brackets.
   */
  method JsJsonWrite(v: Json, indent: nat) returns (out: bytes)
    requires NumbersOk(v)
    ensures out == Text(Batch, v, indent, 0)
    ensures Shaped(v) ==> JsonGrammar.Parse(out) == Some(Plain(v))
    ensures indent > 0 ==> JsonLayout.Regular(Batch, JsonStyles.Outside, 0, false, out, indent)
  {
    hide JsonGrammar.Parse, JsonLayout.Regular, Plain;
    var wr := new Writer.ToDynBuf();
    if Container(v) {
      StepIsPrefix(Fresh(v), indent);
      var _ := WriteStart(wr, v, indent, 0);
      Drain(wr, [Frame(v, 0)], indent);
    } else {
      var _ := WriteJsonPrimitive(wr, v, None);
    }
    out := wr.out;
    DocumentIsSound(v, indent);
  }

  lemma DocumentIsSound(v: Json, indent: nat)
    requires NumbersOk(v)
    ensures Shaped(v) ==> JsonGrammar.Parse(Text(Batch, v, indent, 0)) == Some(Plain(v))
    ensures indent > 0 ==>
              JsonLayout.Regular(Batch, JsonStyles.Outside, 0, false, Text(Batch, v, indent, 0), indent)
  {
    if Shaped(v) { JsonGrammar.RoundTrip(Batch, v, indent); }
    if indent > 0 { JsonLayout.TextIsRegular(Batch, v, indent); }
  }
}
