/**
 How the three layouts compare: they coincide at indentation 0, they differ at any other
 indentation on exactly known trees, and they never differ in more than white space.
 */
module JsonStyles {
  import opened JsonValue
  import opened JsonText
  import opened Sequences

  // ----- byte-for-byte agreement -----

  lemma {:induction false} DenseAgree(s: Style, v: Json, d: nat, e: nat)
    ensures Text(s, v, 0, d) == Text(Batch, v, 0, e)
    decreases v, 1, 0
  {
    if Container(v) {
      DenseEntriesAgree(s, v, 0, d, e);
    }
  }

  lemma {:induction false} DenseEntriesAgree(s: Style, v: Json, i: nat, d: nat, e: nat)
    requires Container(v) && i <= |v.items|
    ensures Entries(s, v, i, 0, d) == Entries(Batch, v, i, 0, e)
    decreases v, 0, |v.items| - i
  {
    if i < |v.items| {
      DenseAgree(s, v.items[i], d + 1, e + 1);
      DenseEntriesAgree(s, v, i + 1, d, e);
      assert Lead(s, v, i, 0, d) == Lead(Batch, v, i, 0, e);
    }
  }

  /** prettyPrint equals js_json_write byte for byte exactly when nothing is indented or no container is empty. */
  lemma {:induction false} PrettyEqualsBatch(v: Json, indent: nat, d: nat)
    ensures Text(Pretty, v, indent, d) == Text(Batch, v, indent, d) <==> indent == 0 || !HasEmpty(v)
  {
    if indent == 0 {
      DenseAgree(Pretty, v, d, d);
    } else if HasEmpty(v) {
      PrettyLength(v, indent, d);
    } else {
      PrettyAgrees(v, indent, d);
    }
  }

  lemma {:induction false} PrettyAgrees(v: Json, indent: nat, d: nat)
    requires !HasEmpty(v)
    ensures Text(Pretty, v, indent, d) == Text(Batch, v, indent, d)
    decreases v, 2, 0
  {
    if Container(v) {
      PrettyFirstAgrees(v, indent, d);
      Splice([Open(v)], Break(indent, d + 1), Entries(Batch, v, 0, indent, d), End(Batch, v, indent, d));
    }
  }

  lemma Splice(open: bytes, gap: bytes, entries: bytes, end: bytes)
    ensures open + [] + (gap + entries) + end == open + gap + entries + end
  {
    assert open + [] + (gap + entries) == open + gap + entries;
  }

  /** The line break that js_json_write puts after the opening bracket, prettyPrint puts before the first entry. */
  lemma {:induction false} PrettyFirstAgrees(v: Json, indent: nat, d: nat)
    requires Container(v) && v.items != [] && !HasEmptyFrom(v, 0)
    ensures Entries(Pretty, v, 0, indent, d) == Break(indent, d + 1) + Entries(Batch, v, 0, indent, d)
    decreases v, 1, 0
  {
    PrettyAgrees(v.items[0], indent, d + 1);
    PrettyEntriesAgree(v, 1, indent, d);
    PrettyFirstLead(v, indent, d);
    EntriesParts(Pretty, v, 0, indent, d);
    EntriesParts(Batch, v, 0, indent, d);
    Regroup(Break(indent, d + 1), Lead(Batch, v, 0, indent, d), Text(Batch, v.items[0], indent, d + 1),
        Entries(Batch, v, 1, indent, d));
  }

  lemma PrettyFirstLead(v: Json, indent: nat, d: nat)
    ensures Lead(Pretty, v, 0, indent, d) == Break(indent, d + 1) + Lead(Batch, v, 0, indent, d)
  {
  }

  lemma {:induction false} PrettyEntriesAgree(v: Json, i: nat, indent: nat, d: nat)
    requires Container(v) && 0 < i <= |v.items| && !HasEmptyFrom(v, i)
    ensures Entries(Pretty, v, i, indent, d) == Entries(Batch, v, i, indent, d)
    decreases v, 0, |v.items| - i
  {
    if i < |v.items| {
      PrettyAgrees(v.items[i], indent, d + 1);
      PrettyEntriesAgree(v, i + 1, indent, d);
      assert Lead(Pretty, v, i, indent, d) == Lead(Batch, v, i, indent, d);
    }
  }

  lemma {:induction false} PrettyLength(v: Json, indent: nat, d: nat)
    requires indent > 0
    ensures |Text(Pretty, v, indent, d)| <= |Text(Batch, v, indent, d)|
    ensures HasEmpty(v) ==> |Text(Pretty, v, indent, d)| < |Text(Batch, v, indent, d)|
    decreases v, 1, 0
  {
    if Container(v) {
      PrettyEntriesLength(v, 0, indent, d);
    }
  }

  lemma {:induction false} PrettyEntriesLength(v: Json, i: nat, indent: nat, d: nat)
    requires indent > 0
    requires Container(v) && i <= |v.items|
    ensures |Entries(Pretty, v, i, indent, d)| <= |Entries(Batch, v, i, indent, d)| + Extra(v, i, indent, d)
    ensures HasEmptyFrom(v, i) ==>
        |Entries(Pretty, v, i, indent, d)| < |Entries(Batch, v, i, indent, d)| + Extra(v, i, indent, d)
    decreases v, 0, |v.items| - i
  {
    if i < |v.items| {
      PrettyLength(v.items[i], indent, d + 1);
      PrettyEntriesLength(v, i + 1, indent, d);
      PrettyLeadLength(v, i, indent, d);
    }
  }

  lemma PrettyLeadLength(v: Json, i: nat, indent: nat, d: nat)
    requires Container(v) && i < |v.items|
    ensures |Lead(Pretty, v, i, indent, d)| == |Lead(Batch, v, i, indent, d)| + Extra(v, i, indent, d)
  {
  }

  /** The line break that prettyPrint puts before the first entry instead of after the bracket. */
  function Extra(v: Json, i: nat, indent: nat, d: nat): nat
    requires Container(v)
  {
    if i == 0 < |v.items| then |Break(indent, d + 1)| else 0
  }

  /** JsonWriter equals js_json_write byte for byte exactly when nothing is indented or the value is not a container. */
  lemma {:induction false} PushEqualsBatch(v: Json, indent: nat, d: nat)
    requires NumbersOk(v)
    ensures Text(Push, v, indent, d) == Text(Batch, v, indent, d) <==> indent == 0 || !Container(v)
  {
    if indent == 0 {
      DenseAgree(Push, v, d, d);
    } else if Container(v) {
      // The two texts differ right after the line break that follows the opening bracket.
      var at := 1 + |Break(indent, d + 1)|;
      if v.items == [] {
        assert Text(Push, v, indent, d)[at] == Close(v);
        assert Text(Batch, v, indent, d)[at] == NEWLINE;
      } else {
        assert Text(Push, v, indent, d)[at] == NEWLINE;
        FirstByte(Batch, v.items[0], indent, d + 1);
        assert Text(Batch, v, indent, d)[at]
            == (if v.Object? then QUOTE else Text(Batch, v.items[0], indent, d + 1)[0]);
      }
    }
  }

  /** A value never starts with white space. */
  lemma FirstByte(s: Style, v: Json, indent: nat, d: nat)
    requires NumbersOk(v)
    ensures |Text(s, v, indent, d)| > 0 && !White(Text(s, v, indent, d)[0])
  {
    if v.Number? {
      NumberChars(v.token);
      assert NumberChar(v.token[0]);
    }
  }

  // ----- agreement after deleting white space outside strings -----

  predicate White(c: byte) {
    c == 0x20 || c == 0x09 || c == 0x0A || c == 0x0D
  }

  /** Where a scan of JSON text stands: outside a string, inside one, or right after a backslash in one. */
  datatype Scan = Outside | Inside | AfterBackslash

  function ScanByte(st: Scan, c: byte): Scan {
    match st
    case Outside => if c == 0x22 then Inside else Outside
    case Inside => if c == 0x22 then Outside else if c == 0x5C then AfterBackslash else Inside
    case AfterBackslash => Inside
  }

  function ScanAll(st: Scan, t: bytes): Scan
    decreases |t|
  {
    if t == [] then st else ScanAll(ScanByte(st, t[0]), t[1..])
  }

  /** `t` without the white space that lies outside strings. */
  function Stripped(st: Scan, t: bytes): bytes
    decreases |t|
  {
    if t == [] then []
    else (if st == Outside && White(t[0]) then [] else [t[0]]) + Stripped(ScanByte(st, t[0]), t[1..])
  }

  lemma {:induction false} StrippedConcat(st: Scan, a: bytes, b: bytes)
    ensures ScanAll(st, a + b) == ScanAll(ScanAll(st, a), b)
    ensures Stripped(st, a + b) == Stripped(st, a) + Stripped(ScanAll(st, a), b)
    decreases |a|
  {
    if a == [] {
      assert a + b == b;
    } else {
      var st' := ScanByte(st, a[0]);
      assert (a + b)[0] == a[0] && (a + b)[1..] == a[1..] + b;
      StrippedConcat(st', a[1..], b);
      Assoc(if st == Outside && White(a[0]) then [] else [a[0]],
            Stripped(st', a[1..]), Stripped(ScanAll(st', a[1..]), b));
    }
  }

  /** `t` starts and ends outside strings, and stripping it gives `u`. */
  ghost predicate StripsTo(t: bytes, u: bytes) {
    ScanAll(Outside, t) == Outside && Stripped(Outside, t) == u
  }

  lemma StripsConcat(a: bytes, b: bytes, u: bytes, w: bytes)
    requires StripsTo(a, u) && StripsTo(b, w)
    ensures StripsTo(a + b, u + w)
  {
    StrippedConcat(Outside, a, b);
  }

  lemma {:induction false} WhiteStrips(t: bytes)
    requires forall k :: 0 <= k < |t| ==> White(t[k])
    ensures StripsTo(t, [])
  {
    if t != [] {
      WhiteStrips(t[1..]);
    }
  }

  lemma {:induction false} PlainStrips(t: bytes)
    requires forall k :: 0 <= k < |t| ==> !White(t[k]) && t[k] != QUOTE
    ensures StripsTo(t, t)
  {
    if t != [] {
      PlainStrips(t[1..]);
      assert t == [t[0]] + t[1..];
    }
  }

  lemma {:induction false} EscapedAllStrips(s: bytes)
    ensures ScanAll(Inside, EscapedAll(s)) == Inside && Stripped(Inside, EscapedAll(s)) == EscapedAll(s)
  {
    if s != [] {
      var e := Escaped(s[0]);
      EscapedStrips(s[0]);
      EscapedAllStrips(s[1..]);
      StrippedConcat(Inside, e, EscapedAll(s[1..]));
    }
  }

  lemma EscapedStrips(c: byte)
    ensures ScanAll(Inside, Escaped(c)) == Inside && Stripped(Inside, Escaped(c)) == Escaped(c)
  {
    var e := Escaped(c);
    if |e| > 1 {
      ScanTwo(e);
      if |e| == 6 {
        assert e[2..] == [0x30, 0x30, HexDigit(c / 16), HexDigit(c % 16)];
        InsideStrips(e[2..]);
        StrippedConcat(Inside, e[..2], e[2..]);
        assert e == e[..2] + e[2..];
      } else {
        assert e == e[..2];
      }
    } else {
      InsideStrips(e);
    }
  }

  lemma ScanTwo(e: bytes)
    requires |e| >= 2 && e[0] == BACKSLASH
    ensures ScanAll(Inside, e[..2]) == Inside && Stripped(Inside, e[..2]) == e[..2]
  {
    assert e[..2][1..] == [e[1]];
    assert ScanAll(AfterBackslash, [e[1]]) == Inside;
    assert Stripped(AfterBackslash, [e[1]]) == [e[1]];
  }

  lemma {:induction false} InsideStrips(t: bytes)
    requires forall k :: 0 <= k < |t| ==> t[k] != QUOTE && t[k] != BACKSLASH
    ensures ScanAll(Inside, t) == Inside && Stripped(Inside, t) == t
  {
    if t != [] {
      InsideStrips(t[1..]);
      assert t == [t[0]] + t[1..];
    }
  }

  lemma QuotedStrips(s: bytes)
    ensures StripsTo(Quoted(s), Quoted(s))
  {
    EscapedAllStrips(s);
    StrippedConcat(Inside, EscapedAll(s), [QUOTE]);
    assert Stripped(Inside, [QUOTE]) == [QUOTE] && ScanAll(Inside, [QUOTE]) == Outside;
    assert Quoted(s) == [QUOTE] + (EscapedAll(s) + [QUOTE]);
    assert Quoted(s)[1..] == EscapedAll(s) + [QUOTE];
  }

  lemma BreakStrips(indent: nat, d: nat)
    ensures StripsTo(Break(indent, d), [])
  {
    WhiteStrips(Break(indent, d));
  }

  lemma ScalarStrips(v: Json)
    requires NumbersOk(v) && !Container(v)
    ensures StripsTo(Scalar(v), Scalar(v))
  {
    if v.String? {
      QuotedStrips(v.chars);
    } else {
      if v.Number? { NumberChars(v.token); }
      forall k | 0 <= k < |Scalar(v)| ensures !White(Scalar(v)[k]) && Scalar(v)[k] != QUOTE {
        if v.Number? { assert NumberChar(v.token[k]); }
      }
      PlainStrips(Scalar(v));
    }
  }

  lemma LeadStrips(s: Style, v: Json, i: nat, indent: nat, d: nat)
    ensures StripsTo(Lead(s, v, i, indent, d), Lead(Batch, v, i, 0, 0))
  {
    var comma := if i > 0 then [COMMA] else [];
    var gap := if s == Batch && i == 0 then [] else Break(indent, d + 1);
    PlainStrips(comma);
    BreakStrips(indent, d + 1);
    WhiteStrips([]);
    StripsConcat(comma, gap, comma, []);
    assert BeforeItem(Batch, i, 0, 0) == comma + [];
    if v.Object? {
      var k := KeyAt(v, i);
      var blank := if indent == 0 then [] else [SPACE];
      QuotedStrips(k);
      PlainStrips([COLON]);
      WhiteStrips(blank);
      StripsConcat(Quoted(k), [COLON], Quoted(k), [COLON]);
      StripsConcat(Quoted(k) + [COLON], blank, Quoted(k) + [COLON], []);
      assert KeyText(k, 0) == Quoted(k) + [COLON] + [];
      StripsConcat(comma + gap, KeyText(k, indent), comma + [], KeyText(k, 0));
    } else {
      StripsConcat(comma + gap, [], comma + [], []);
    }
  }

  /** Whatever the layout and indentation, deleting white space outside strings leaves the dense text of
      js_json_write. */
  lemma {:induction false} TextStrips(s: Style, v: Json, indent: nat, d: nat)
    requires NumbersOk(v)
    ensures StripsTo(Text(s, v, indent, d), Text(Batch, v, 0, 0))
    decreases v, 1, 0
  {
    if Container(v) {
      EntriesStrip(s, v, 0, indent, d);
      OpenStrips(s, v, indent, d);
      EndStrips(s, v, indent, d);
      var open, body := [Open(v)] + AfterOpen(s, indent, d), Entries(s, v, 0, indent, d);
      var open', body' := [Open(v)] + AfterOpen(Batch, 0, 0), Entries(Batch, v, 0, 0, 0);
      StripsConcat(open, body, open', body');
      StripsConcat(open + body, End(s, v, indent, d), open' + body', End(Batch, v, 0, 0));
    } else {
      ScalarStrips(v);
    }
  }

  lemma OpenStrips(s: Style, v: Json, indent: nat, d: nat)
    ensures StripsTo([Open(v)] + AfterOpen(s, indent, d), [Open(v)] + AfterOpen(Batch, 0, 0))
  {
    PlainStrips([Open(v)]);
    WhiteStrips(AfterOpen(s, indent, d));
    StripsConcat([Open(v)], AfterOpen(s, indent, d), [Open(v)], []);
  }

  lemma EndStrips(s: Style, v: Json, indent: nat, d: nat)
    requires Container(v)
    ensures StripsTo(End(s, v, indent, d), End(Batch, v, 0, 0))
  {
    PlainStrips([Close(v)]);
    WhiteStrips(BeforeClose(s, |v.items|, indent, d));
    StripsConcat(BeforeClose(s, |v.items|, indent, d), [Close(v)], [], [Close(v)]);
  }

  lemma {:induction false} EntriesStrip(s: Style, v: Json, i: nat, indent: nat, d: nat)
    requires NumbersOk(v) && Container(v) && i <= |v.items|
    ensures StripsTo(Entries(s, v, i, indent, d), Entries(Batch, v, i, 0, 0))
    decreases v, 0, |v.items| - i
  {
    if i == |v.items| {
      WhiteStrips([]);
    } else {
      var lead, item := Lead(s, v, i, indent, d), Text(s, v.items[i], indent, d + 1);
      LeadStrips(s, v, i, indent, d);
      TextStrips(s, v.items[i], indent, d + 1);
      EntriesStrip(s, v, i + 1, indent, d);
      StripsConcat(lead, item, Lead(Batch, v, i, 0, 0), Text(Batch, v.items[i], 0, 0));
      StripsConcat(lead + item, Entries(s, v, i + 1, indent, d),
                   Lead(Batch, v, i, 0, 0) + Text(Batch, v.items[i], 0, 0), Entries(Batch, v, i + 1, 0, 0));
      DenseAgree(Batch, v.items[i], 0, 1);
    }
  }
}
