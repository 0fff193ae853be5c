/**
 The destination of the JSON writers: a growing buffer or a caller's fixed-size buffer, with an
 optional stage in front that swallows bytes which an earlier attempt has already delivered.
 A destination that has no room left stops a write; what was accepted until then is always
 exactly as many bytes of the text as fit.
 */
module JsonSink {
  import opened JsonValue
  import opened JsonText
  import opened Sequences

  // ----- specification -----

  /** What a writer has accepted since the current step began, and how much it can accept in all if it is bounded. */
  datatype Sink = Sink(bounded: bool, limit: nat, log: bytes)

  function Take(t: bytes, n: nat): bytes {
    if |t| <= n then t else t[..n]
  }

  function Drop(t: bytes, n: nat): bytes {
    if |t| <= n then [] else t[n..]
  }

  predicate Fits(s: Sink, n: nat) {
    s.bounded ==> |s.log| + n <= s.limit
  }

  /** The sink after offering it the bytes of `t` one by one, until one of them is refused. */
  function Feed(s: Sink, t: bytes): Sink {
    s.(log := if s.bounded then Take(s.log + t, s.limit) else s.log + t)
  }

  /** Feeding two texts in a row is feeding their concatenation, even if the sink fills up in between. */
  lemma FeedConcat(s: Sink, a: bytes, b: bytes)
    ensures Feed(Feed(s, a), b) == Feed(s, a + b)
    ensures Fits(s, |a + b|) <==> Fits(s, |a|) && Fits(Feed(s, a), |b|)
  {
    Assoc(s.log, a, b);
  }

  /** Once a byte is refused, every byte after it is. */
  lemma FeedRefused(s: Sink, a: bytes, b: bytes)
    requires !Fits(s, |a|)
    ensures Feed(s, a + b) == Feed(s, a)
    ensures !Fits(s, |a + b|)
  {
    Assoc(s.log, a, b);
  }

  lemma FeedNothing(s: Sink)
    requires Sound(s)
    ensures Feed(s, []) == s
  {
    assert s.log + [] == s.log;
  }

  /** A bounded writer never holds more than its limit. */
  predicate Sound(s: Sink) {
    s.bounded ==> |s.log| <= s.limit
  }

  lemma DropConcat(a: bytes, b: bytes, n: nat)
    ensures Drop(a + b, n) == Drop(a, n) + Drop(b, if |a| <= n then n - |a| else 0)
  {
  }

  /** Writing `a` and then, if it was accepted in full, `b`. */
  lemma FeedTwo(s: Sink, a: bytes, b: bytes)
    ensures Feed(Feed(s, a), b) == Feed(s, a + b)
    ensures Fits(s, |a + b|) <==> Fits(s, |a|) && Fits(Feed(s, a), |b|)
    ensures !Fits(s, |a|) ==> Feed(s, a) == Feed(s, a + b)
  {
    FeedConcat(s, a, b);
    if !Fits(s, |a|) {
      FeedRefused(s, a, b);
    }
  }

  lemma FeedByte(s: Sink, t: bytes, i: nat)
    requires i < |t| && Fits(s, i)
    ensures Feed(Feed(s, t[..i]), [t[i]]) == Feed(s, t[..i + 1])
    ensures Fits(s, i + 1) <==> Fits(Feed(s, t[..i]), 1)
    ensures !Fits(s, i + 1) ==> Feed(s, t[..i + 1]) == Feed(s, t) && !Fits(s, |t|)
  {
    FeedConcat(s, t[..i], [t[i]]);
    assert t[..i] + [t[i]] == t[..i + 1];
    if !Fits(s, i + 1) {
      FeedRefused(s, t[..i + 1], t[i + 1..]);
      assert t[..i + 1] + t[i + 1..] == t;
    }
  }

  // ----- implementation -----

  class Writer {
    /** The stage of write_skip: how many bytes to swallow, how many were passed on. */
    var skip: nat
    var delivered: nat
    /** True for write_capped into `dst`, false for a DynBuf `out`. */
    var bounded: bool
    var dst: array<byte>
    var pos: nat
    var out: bytes

    ghost var view: Sink
    ghost var counted: nat    // `delivered` when the current step began
    ghost var skip0: nat      // `skip` when the current step began
    ghost var sent0: bytes    // what the destination held then
    ghost var original: bytes // the contents of `dst` before anything was written to it
    ghost var idle: bytes     // the contents of `out` while the writer is bounded

    ghost predicate Valid()
      reads this, dst
    {
      && pos <= dst.Length == |original|
      && dst[pos..] == original[pos..]
      && (bounded ==>
            && out == idle && |sent0| <= dst.Length
            && view.limit == skip0 + dst.Length - |sent0| && |view.log| <= view.limit)
      && view.bounded == bounded
      && skip == (if |view.log| <= skip0 then skip0 - |view.log| else 0)
      && delivered == counted + |Drop(view.log, skip0)|
      && Contents() == sent0 + Drop(view.log, skip0)
    }

    constructor ToDynBuf()
      ensures Valid() && fresh(dst)
      ensures !bounded && view.log == [] && out == [] && skip0 == 0 && sent0 == []
    {
      skip, delivered, bounded, pos, out := 0, 0, false, 0, [];
      dst := new byte[0];
      new;
      view, counted, skip0, sent0, original, idle := Sink(false, 0, []), 0, 0, [], dst[..], [];
    }

    /** What the destination holds. */
    ghost function Contents(): bytes
      reads this, dst
      requires pos <= dst.Length
    {
      if bounded then dst[..pos] else out
    }

    /** Points the writer at a caller's buffer. */
    method AttachBuffer(buf: array<byte>)
      modifies this
      ensures Valid() && bounded && dst == buf && pos == 0 && original == buf[..] && idle == out
      ensures skip == old(skip) && out == old(out)
      ensures view.log == [] && skip0 == skip && sent0 == []
    {
      dst, pos, bounded := buf, 0, true;
      original, idle, counted := buf[..], out, delivered;
      view, skip0, sent0 := Sink(true, skip + dst.Length, []), skip, [];
    }

    /** Points the writer at the growing buffer. */
    method AttachDynBuf()
      requires pos <= dst.Length
      modifies this
      ensures Valid() && !bounded && dst == old(dst) && pos == old(pos)
      ensures skip == old(skip) && out == old(out)
      ensures view.log == [] && skip0 == skip && sent0 == out
    {
      bounded, original, counted := false, dst[..], delivered;
      view, skip0, sent0 := Sink(false, 0, []), skip, out;
    }

    /** The end of json_serializer_step: fixes how many bytes the next attempt has to swallow. */
    method Settle(n: nat)
      requires Valid()
      modifies `skip, `view, `counted, `skip0, `sent0
      ensures Valid() && skip == n
      ensures view.log == [] && skip0 == skip && sent0 == Contents()
    {
      skip, counted, skip0, sent0 := n, delivered, n, Contents();
      view := Sink(bounded, if bounded then n + dst.Length - pos else 0, []);
    }

    /** The start of json_serializer_step: nothing of the step has been accepted yet. */
    method Begin()
      requires Valid()
      modifies `delivered, `view, `counted, `skip0, `sent0
      ensures Valid() && delivered == 0 && counted == 0
      ensures view.log == [] && skip0 == skip && sent0 == Contents()
    {
      delivered := 0;
      counted, skip0, sent0 := 0, skip, Contents();
      view := Sink(bounded, if bounded then skip + dst.Length - pos else 0, []);
    }

    /** write_capped and write_dynbuf: all of `buf` or nothing. */
    method WriteDestination(buf: bytes) returns (w: nat)
      requires pos <= dst.Length
      modifies `pos, `out, dst
      ensures w == if bounded && old(pos) + |buf| > dst.Length then 0 else |buf|
      ensures bounded ==> pos == old(pos) + w <= dst.Length && out == old(out)
      ensures bounded ==> dst[..pos] == old(dst[..pos]) + buf[..w] && dst[pos..] == old(dst[..])[pos..]
      ensures !bounded ==> out == old(out) + buf && pos == old(pos) && dst[..] == old(dst[..])
    {
      if bounded {
        if pos + |buf| > dst.Length {
          return 0;
        }
        forall i | 0 <= i < |buf| {
          dst[pos + i] := buf[i];
        }
        pos := pos + |buf|;
        assert dst[..pos] == old(dst[..pos]) + buf;
      } else {
        out := out + buf;
      }
      return |buf|;
    }

    /** write_skip: swallows `skip` bytes before it passes anything on; all of `buf` or nothing. */
    method WriteSkip(buf: bytes) returns (w: nat)
      requires pos <= dst.Length
      modifies `skip, `delivered, `pos, `out, dst
      ensures w == if bounded && old(pos) + |Drop(buf, old(skip))| > dst.Length then 0 else |buf|
      ensures w == 0 < |buf| ==> skip == old(skip) && delivered == old(delivered)
      ensures w == |buf| ==> skip == (if |buf| <= old(skip) then old(skip) - |buf| else 0)
      ensures w == |buf| ==> delivered == old(delivered) + |Drop(buf, old(skip))|
      ensures bounded ==> pos <= dst.Length && out == old(out) && dst[pos..] == old(dst[..])[pos..]
      ensures bounded ==> dst[..pos] == old(dst[..pos]) + (if w == |buf| then Drop(buf, old(skip)) else [])
      ensures !bounded ==> out == old(out) + Drop(buf, old(skip)) && pos == old(pos) && dst[..] == old(dst[..])
    {
      if skip >= |buf| {
        skip := skip - |buf|;
        return |buf|;
      }
      if skip > 0 {
        var remain := buf[skip..];
        w := WriteDestination(remain);
        if w <= 0 {
          return w;
        }
        skip := 0;
        delivered := delivered + w;
        return |buf|;
      }
      w := WriteDestination(buf);
      if w > 0 {
        delivered := delivered + w;
      }
    }

    /** writer_write */
    method Write(buf: bytes) returns (w: nat)
      requires Valid()
      modifies `skip, `delivered, `pos, `out, `view, dst
      ensures Valid()
      ensures w == if Fits(old(view), |buf|) then |buf| else 0
      ensures view == if Fits(old(view), |buf|) then Feed(old(view), buf) else old(view)
    {
      DropConcat(view.log, buf, skip0);
      Assoc(sent0, Drop(view.log, skip0), Drop(buf, skip));
      w := WriteSkip(buf);
      if w == |buf| {
        view := Feed(view, buf);
      }
    }

    /** writer_putc. A single byte is either accepted or refused, so this is exactly one step of `Feed`. */
    method Putc(c: byte) returns (w: nat)
      requires Valid()
      modifies `skip, `delivered, `pos, `out, `view, dst
      ensures Valid() && view == Feed(old(view), [c])
      ensures w > 0 <==> Fits(old(view), 1)
    {
      w := Write([c]);
    }
  }

  // ----- the write_* helpers of quickjs-json.c -----

  method WriteAll(wr: Writer, t: bytes) returns (w: nat)
    requires wr.Valid()
    modifies wr`skip, wr`delivered, wr`pos, wr`out, wr`view, wr.dst
    ensures wr.Valid() && wr.view == Feed(old(wr.view), t)
    ensures w > 0 <==> Fits(old(wr.view), |t|)
  {
    if |t| == 0 {
      return 1;
    }
    ghost var v := wr.view;
    for i := 0 to |t|
      invariant wr.Valid() && wr.view == Feed(v, t[..i])
      invariant Fits(v, i)
    {
      w := wr.Putc(t[i]);
      FeedByte(v, t, i);
      if w == 0 {
        return 0;
      }
    }
    assert t[..|t|] == t;
    return |t|;
  }

  /** The switch of write_json_string: one byte of the string, escaped where necessary. */
  method WriteEscaped(wr: Writer, c: byte) returns (w: nat)
    requires wr.Valid()
    modifies wr`skip, wr`delivered, wr`pos, wr`out, wr`view, wr.dst
    ensures wr.Valid() && wr.view == Feed(old(wr.view), Escaped(c))
    ensures w > 0 <==> Fits(old(wr.view), |Escaped(c)|)
  {
    if c < 0x20 || c == QUOTE || c == BACKSLASH {
      var piece: bytes;
      if c == QUOTE {
        piece := [0x5C, 0x22];
      } else if c == BACKSLASH {
        piece := [0x5C, 0x5C];
      } else if c == 0x08 {
        piece := [0x5C, 0x62];
      } else if c == 0x0C {
        piece := [0x5C, 0x66];
      } else if c == 0x0A {
        piece := [0x5C, 0x6E];
      } else if c == 0x0D {
        piece := [0x5C, 0x72];
      } else if c == 0x09 {
        piece := [0x5C, 0x74];
      } else {
        piece := [0x5C, 0x75, 0x30, 0x30, HexDigit(c / 16), HexDigit(c % 16)];
      }
      w := WriteAll(wr, piece);
    } else {
      w := wr.Putc(c);
    }
  }

  lemma {:induction false} EscapedAllConcat(a: bytes, b: bytes)
    ensures EscapedAll(a + b) == EscapedAll(a) + EscapedAll(b)
  {
    if a == [] {
      assert a + b == b;
    } else {
      assert (a + b)[1..] == a[1..] + b;
      EscapedAllConcat(a[1..], b);
      Assoc(Escaped(a[0]), EscapedAll(a[1..]), EscapedAll(b));
    }
  }

  /** The opening quotation mark and the first `i` bytes of a string. */
  ghost function QuotedPrefix(s: bytes, i: nat): bytes
    requires i <= |s|
  {
    [QUOTE] + EscapedAll(s[..i])
  }

  lemma QuotedPrefixNext(s: bytes, i: nat)
    requires i < |s|
    ensures QuotedPrefix(s, i) + Escaped(s[i]) == QuotedPrefix(s, i + 1)
  {
    assert s[..i + 1] == s[..i] + [s[i]];
    EscapedAllConcat(s[..i], [s[i]]);
    assert EscapedAll([s[i]]) == Escaped(s[i]);
    Assoc([QUOTE], EscapedAll(s[..i]), Escaped(s[i]));
  }

  lemma QuotedPrefixRest(s: bytes, i: nat)
    requires i <= |s|
    ensures QuotedPrefix(s, i) + (EscapedAll(s[i..]) + [QUOTE]) == Quoted(s)
  {
    assert s == s[..i] + s[i..];
    EscapedAllConcat(s[..i], s[i..]);
    Assoc([QUOTE] + EscapedAll(s[..i]), EscapedAll(s[i..]), [QUOTE]);
    Assoc([QUOTE], EscapedAll(s[..i]), EscapedAll(s[i..]));
  }

  lemma FeedStringByte(v: Sink, s: bytes, i: nat)
    requires i < |s| && Fits(v, |QuotedPrefix(s, i)|)
    ensures var e := Escaped(s[i]);
            && Feed(Feed(v, QuotedPrefix(s, i)), e) == Feed(v, QuotedPrefix(s, i + 1))
            && (Fits(Feed(v, QuotedPrefix(s, i)), |e|) <==> Fits(v, |QuotedPrefix(s, i + 1)|))
            && (!Fits(v, |QuotedPrefix(s, i + 1)|) ==>
                 Feed(v, QuotedPrefix(s, i + 1)) == Feed(v, Quoted(s)) && !Fits(v, |Quoted(s)|))
  {
    QuotedPrefixNext(s, i);
    QuotedPrefixRest(s, i + 1);
    FeedTwo(v, QuotedPrefix(s, i), Escaped(s[i]));
    FeedTwo(v, QuotedPrefix(s, i + 1), EscapedAll(s[i + 1..]) + [QUOTE]);
  }

  lemma FeedStringStart(v: Sink, s: bytes)
    ensures QuotedPrefix(s, 0) == [QUOTE]
    ensures !Fits(v, 1) ==> Feed(v, [QUOTE]) == Feed(v, Quoted(s)) && !Fits(v, |Quoted(s)|)
  {
    QuotedPrefixRest(s, 0);
    assert QuotedPrefix(s, 0) == [QUOTE];
    if !Fits(v, 1) {
      FeedRefused(v, [QUOTE], EscapedAll(s[0..]) + [QUOTE]);
    }
  }

  lemma FeedStringEnd(v: Sink, s: bytes)
    requires Fits(v, |QuotedPrefix(s, |s|)|)
    ensures Feed(Feed(v, QuotedPrefix(s, |s|)), [QUOTE]) == Feed(v, Quoted(s))
    ensures Fits(Feed(v, QuotedPrefix(s, |s|)), 1) <==> Fits(v, |Quoted(s)|)
  {
    assert s[..|s|] == s;
    FeedConcat(v, QuotedPrefix(s, |s|), [QUOTE]);
  }

  /** write_json_string */
  method WriteJsonString(wr: Writer, s: bytes) returns (w: nat)
    requires wr.Valid()
    modifies wr`skip, wr`delivered, wr`pos, wr`out, wr`view, wr.dst
    ensures wr.Valid() && wr.view == Feed(old(wr.view), Quoted(s))
    ensures w > 0 <==> Fits(old(wr.view), |Quoted(s)|)
  {
    ghost var v := wr.view;
    w := wr.Putc(QUOTE);
    FeedStringStart(v, s);
    if w == 0 {
      return 0;
    }
    for i := 0 to |s|
      invariant wr.Valid()
      invariant wr.view == Feed(v, QuotedPrefix(s, i)) && Fits(v, |QuotedPrefix(s, i)|)
    {
      w := WriteEscaped(wr, s[i]);
      FeedStringByte(v, s, i);
      if w == 0 {
        return 0;
      }
    }
    w := wr.Putc(QUOTE);
    FeedStringEnd(v, s);
    if w == 0 {
      return 0;
    }
    return 1;
  }

  /** write_indent: a line break and indent * n blanks, taken from a buffer of blanks. */
  method WriteIndent(wr: Writer, indent: nat, n: nat) returns (w: nat)
    requires wr.Valid()
    modifies wr`skip, wr`delivered, wr`pos, wr`out, wr`view, wr.dst
    ensures wr.Valid() && wr.view == Feed(old(wr.view), Break(indent, n))
    ensures w > 0 <==> Fits(old(wr.view), |Break(indent, n)|)
  {
    if indent != 0 {
      ghost var v := wr.view;
      var blanks := Spaces(indent * n);
      w := wr.Putc(NEWLINE);
      FeedTwo(v, [NEWLINE], blanks);
      if w == 0 {
        return 0;
      }
      w := WriteAll(wr, blanks);
      if w == 0 {
        return 0;
      }
    }
    return 1;
  }

  /** write_json_primitive; `asString` is what toString gives for an object, if it does not throw. */
  method WriteJsonPrimitive(wr: Writer, val: Json, asString: Option<bytes>) returns (w: nat)
    requires wr.Valid()
    modifies wr`skip, wr`delivered, wr`pos, wr`out, wr`view, wr.dst
    ensures wr.Valid() && wr.view == Feed(old(wr.view), Scalar(Primitive(val, asString)))
    ensures w > 0 <==> Fits(old(wr.view), |Scalar(Primitive(val, asString))|)
  {
    if val.Bool? {
      if val.b {
        w := WriteAll(wr, TRUE_TEXT);
      } else {
        w := WriteAll(wr, FALSE_TEXT);
      }
    } else if val.String? {
      w := WriteJsonString(wr, val.chars);
    } else if val.Number? {
      w := WriteAll(wr, val.token);
    } else if Container(val) && asString.Some? {
      w := WriteJsonString(wr, asString.value);
    } else {
      w := WriteAll(wr, NULL_TEXT);
    }
  }
}
