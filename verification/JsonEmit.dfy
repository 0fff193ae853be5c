/**
 The pieces of text that js_json_write and JsonSerializer write for one entry of a container.
 The two contain the same sequence of calls: the serializer returns as soon as one of them is
 refused, and the batch writer ignores the results because a growing buffer refuses nothing.
 */
module JsonEmit {
  import opened JsonValue
  import opened JsonText
  import opened JsonSink
  import opened JsonTraversal
  import opened Sequences

  /** The comma and line break before entry `idx` of the container at stack depth `depth`. */
  method WriteSeparator(wr: Writer, idx: nat, indent: nat, depth: nat) returns (ok: bool)
    requires wr.Valid() && depth > 0
    modifies wr`skip, wr`delivered, wr`pos, wr`out, wr`view, wr.dst
    ensures wr.Valid() && wr.view == Feed(old(wr.view), BeforeItem(Batch, idx, indent, depth - 1))
    ensures ok <==> Fits(old(wr.view), |BeforeItem(Batch, idx, indent, depth - 1)|)
  {
    if idx == 0 {
      FeedNothing(wr.view);
      return true;
    }
    var w := wr.Putc(COMMA);
    FeedTwo(old(wr.view), [COMMA], Break(indent, depth));
    if w == 0 {
      return false;
    }
    if indent != 0 {
      w := WriteIndent(wr, indent, depth);
      return w > 0;
    }
    FeedNothing(wr.view);
    return true;
  }

  /** The key of an object's entry, the colon and, with indentation, a blank. */
  method WriteKey(wr: Writer, key: bytes, indent: nat) returns (ok: bool)
    requires wr.Valid()
    modifies wr`skip, wr`delivered, wr`pos, wr`out, wr`view, wr.dst
    ensures wr.Valid() && wr.view == Feed(old(wr.view), KeyText(key, indent))
    ensures ok <==> Fits(old(wr.view), |KeyText(key, indent)|)
  {
    var blank := if indent == 0 then [] else [SPACE];
    FeedTwo(wr.view, Quoted(key), [COLON]);
    FeedTwo(wr.view, Quoted(key) + [COLON], blank);
    var w := WriteJsonString(wr, key);
    if w == 0 {
      return false;
    }
    w := wr.Putc(COLON);
    if w == 0 {
      return false;
    }
    if indent != 0 {
      w := wr.Putc(SPACE);
      return w > 0;
    }
    FeedNothing(wr.view);
    return true;
  }

  /** All that precedes the value of entry `idx`. */
  method WriteLead(wr: Writer, obj: Json, idx: nat, indent: nat, depth: nat) returns (ok: bool)
    requires wr.Valid() && depth > 0
    modifies wr`skip, wr`delivered, wr`pos, wr`out, wr`view, wr.dst
    ensures wr.Valid() && wr.view == Feed(old(wr.view), Lead(Batch, obj, idx, indent, depth - 1))
    ensures ok <==> Fits(old(wr.view), |Lead(Batch, obj, idx, indent, depth - 1)|)
  {
    ghost var key := if obj.Object? then KeyText(KeyAt(obj, idx), indent) else [];
    FeedTwo(wr.view, BeforeItem(Batch, idx, indent, depth - 1), key);
    ok := WriteSeparator(wr, idx, indent, depth);
    if !ok {
      return;
    }
    if obj.Object? {
      ok := WriteKey(wr, KeyAt(obj, idx), indent);
    } else {
      FeedNothing(wr.view);
    }
  }

  /** A scalar, or the opening bracket of a container at depth `d` and the line break after it. */
  method WriteStart(wr: Writer, val: Json, indent: nat, d: nat) returns (ok: bool)
    requires wr.Valid()
    modifies wr`skip, wr`delivered, wr`pos, wr`out, wr`view, wr.dst
    ensures wr.Valid() && wr.view == Feed(old(wr.view), Start(val, indent, d))
    ensures ok <==> Fits(old(wr.view), |Start(val, indent, d)|)
  {
    var w;
    if Container(val) {
      FeedTwo(wr.view, [Open(val)], Break(indent, d + 1));
      w := wr.Putc(Open(val));
      if w == 0 {
        return false;
      }
      w := WriteIndent(wr, indent, d + 1);
    } else {
      w := WriteJsonPrimitive(wr, val, None);
    }
    return w > 0;
  }

  /** The line break before the closing bracket of a container at depth `d`, and the bracket. */
  method WriteEnd(wr: Writer, obj: Json, indent: nat, d: nat) returns (ok: bool)
    requires wr.Valid() && Container(obj)
    modifies wr`skip, wr`delivered, wr`pos, wr`out, wr`view, wr.dst
    ensures wr.Valid() && wr.view == Feed(old(wr.view), End(Batch, obj, indent, d))
    ensures ok <==> Fits(old(wr.view), |End(Batch, obj, indent, d)|)
  {
    FeedTwo(wr.view, Break(indent, d), [Close(obj)]);
    var w := WriteIndent(wr, indent, d);
    if w == 0 {
      return false;
    }
    w := wr.Putc(Close(obj));
    return w > 0;
  }

  /** One step at the innermost frame: the end of its container, or its next entry. */
  method WriteTop(wr: Writer, top: Frame, indent: nat, depth: nat) returns (ok: bool)
    requires wr.Valid() && FrameOk(top) && depth > 0
    modifies wr`skip, wr`delivered, wr`pos, wr`out, wr`view, wr.dst
    ensures wr.Valid() && wr.view == Feed(old(wr.view), TopText(top, indent, depth - 1))
    ensures ok <==> Fits(old(wr.view), |TopText(top, indent, depth - 1)|)
  {
    if top.idx >= |top.obj.items| {
      ok := WriteEnd(wr, top.obj, indent, depth - 1);
    } else {
      var val := top.obj.items[top.idx];
      FeedTwo(wr.view, Lead(Batch, top.obj, top.idx, indent, depth - 1), Start(val, indent, depth));
      ok := WriteLead(wr, top.obj, top.idx, indent, depth);
      if ok {
        ok := WriteStart(wr, val, indent, depth);
      }
    }
  }
}
