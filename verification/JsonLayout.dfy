/**
 White space, byte by byte. A pen copies the dense text of js_json_write from left to right and puts in line breaks and
 blanks as it goes; it knows only whether it is inside a string, how many brackets are open and whether it has just
 passed an opening one. What it writes is the text of the recursive printer, in each of the three layouts.
 */
module JsonLayout {
  import opened JsonValue
  import opened JsonText
  import opened JsonStyles
  import opened Sequences

  predicate Opener(c: byte) {
    c == 0x5B || c == 0x7B
  }

  predicate Closer(c: byte) {
    c == 0x5D || c == 0x7D
  }

  /** The number of blanks on a line at depth n. */
  function Width(indent: nat, n: int): nat {
    if n > 0 then indent * n else 0
  }

  function Line(indent: nat, n: int): bytes {
    [0x0A] + seq(Width(indent, n), _ => 0x20)
  }

  // ----- the pen -----

  datatype Pen = Pen(st: Scan, depth: int, entered: bool)

  function Moved(p: Pen, c: byte): Pen {
    if p.st != Outside then Pen(ScanByte(p.st, c), p.depth, false)
    else Pen(ScanByte(p.st, c), p.depth + (if Opener(c) then 1 else if Closer(c) then -1 else 0), Opener(c))
  }

  /** The line breaks in front of what follows an opening bracket. */
  function Inner(s: Style, p: Pen, indent: nat): bytes {
    if !p.entered then []
    else if s == Push then Line(indent, p.depth) + Line(indent, p.depth)
    else Line(indent, p.depth)
  }

  /** The line breaks in front of a closing bracket. */
  function Outer(s: Style, p: Pen, indent: nat): bytes {
    if !p.entered then Line(indent, p.depth - 1)
    else match s
      case Batch => Line(indent, p.depth) + Line(indent, p.depth - 1)
      case Push => Line(indent, p.depth)
      case Pretty => []
  }

  function Behind(p: Pen, c: byte, indent: nat): bytes {
    if c == 0x2C then Line(indent, p.depth) else if c == 0x3A then [0x20] else []
  }

  /** What is written for one byte. */
  function Ink(s: Style, p: Pen, c: byte, indent: nat): bytes {
    if p.st != Outside then [c]
    else (if Closer(c) then Outer(s, p, indent) else Inner(s, p, indent)) + [c] + Behind(p, c, indent)
  }

  function Reindented(s: Style, p: Pen, t: bytes, indent: nat): bytes
    decreases |t|
  {
    if t == [] then [] else Ink(s, p, t[0], indent) + Reindented(s, Moved(p, t[0]), t[1..], indent)
  }

  function MovedOver(p: Pen, t: bytes): Pen
    decreases |t|
  {
    if t == [] then p else MovedOver(Moved(p, t[0]), t[1..])
  }

  lemma {:induction false} ReindentedConcat(s: Style, p: Pen, a: bytes, b: bytes, indent: nat)
    ensures MovedOver(p, a + b) == MovedOver(MovedOver(p, a), b)
    ensures Reindented(s, p, a + b, indent)
         == Reindented(s, p, a, indent) + Reindented(s, MovedOver(p, a), b, indent)
    decreases |a|
  {
    if a == [] {
      assert a + b == b;
    } else {
      var p' := Moved(p, a[0]);
      assert (a + b)[0] == a[0] && (a + b)[1..] == a[1..] + b;
      ReindentedConcat(s, p', a[1..], b, indent);
      Assoc(Ink(s, p, a[0], indent), Reindented(s, p', a[1..], indent),
            Reindented(s, MovedOver(p', a[1..]), b, indent));
    }
  }

  /** From `p`, the pen writes `out` for `t` and then stands at `p'`. */
  ghost predicate Writes(s: Style, indent: nat, p: Pen, t: bytes, out: bytes, p': Pen) {
    Reindented(s, p, t, indent) == out && MovedOver(p, t) == p'
  }

  lemma WritesConcat(s: Style, indent: nat, p: Pen, a: bytes, x: bytes, q: Pen, b: bytes, y: bytes, r: Pen)
    requires Writes(s, indent, p, a, x, q) && Writes(s, indent, q, b, y, r)
    ensures Writes(s, indent, p, a + b, x + y, r)
  {
    ReindentedConcat(s, p, a, b, indent);
  }

  lemma WritesNothing(s: Style, indent: nat, p: Pen)
    ensures Writes(s, indent, p, [], [], p)
  {
  }

  lemma WritesByte(s: Style, indent: nat, p: Pen, c: byte)
    ensures Writes(s, indent, p, [c], Ink(s, p, c, indent), Moved(p, c))
  {
    assert [c][1..] == [];
    assert Ink(s, p, c, indent) + [] == Ink(s, p, c, indent);
  }

  // ----- scalars -----

  lemma FourParts(a: bytes, b: bytes, c: bytes, d: bytes)
    ensures a + b + (c + d) == a + (b + c + d)
    ensures a == [] ==> a + (b + c + d) == b + (c + d)
  {
    assert a + b + (c + d) == a + (b + c + d);
  }

  /** No bracket, quotation mark, comma or colon. */
  predicate Simple(t: bytes) {
    forall k :: 0 <= k < |t| ==>
      !Opener(t[k]) && !Closer(t[k]) && t[k] != 0x22 && t[k] != 0x2C && t[k] != 0x3A
  }

  lemma {:induction false} WritesSimple(s: Style, indent: nat, d: int, t: bytes)
    requires Simple(t)
    ensures Writes(s, indent, Pen(Outside, d, false), t, t, Pen(Outside, d, false))
    decreases |t|
  {
    var p := Pen(Outside, d, false);
    if t == [] {
      WritesNothing(s, indent, p);
    } else {
      WritesByte(s, indent, p, t[0]);
      WritesSimple(s, indent, d, t[1..]);
      WritesConcat(s, indent, p, [t[0]], [t[0]], p, t[1..], t[1..], p);
      assert t == [t[0]] + t[1..];
    }
  }

  lemma {:induction false} WritesInside(s: Style, indent: nat, d: int, t: bytes)
    requires forall k :: 0 <= k < |t| ==> t[k] != 0x22 && t[k] != 0x5C
    ensures Writes(s, indent, Pen(Inside, d, false), t, t, Pen(Inside, d, false))
    decreases |t|
  {
    var p := Pen(Inside, d, false);
    if t == [] {
      WritesNothing(s, indent, p);
    } else {
      WritesByte(s, indent, p, t[0]);
      WritesInside(s, indent, d, t[1..]);
      WritesConcat(s, indent, p, [t[0]], [t[0]], p, t[1..], t[1..], p);
      assert t == [t[0]] + t[1..];
    }
  }

  lemma WritesEscaped(s: Style, indent: nat, d: int, c: byte)
    ensures Writes(s, indent, Pen(Inside, d, false), Escaped(c), Escaped(c), Pen(Inside, d, false))
  {
    var e, p, q := Escaped(c), Pen(Inside, d, false), Pen(AfterBackslash, d, false);
    if |e| == 1 {
      WritesInside(s, indent, d, e);
    } else {
      WritesByte(s, indent, p, e[0]);
      WritesByte(s, indent, q, e[1]);
      WritesConcat(s, indent, p, [e[0]], [e[0]], q, [e[1]], [e[1]], p);
      if |e| == 6 {
        assert e[2..] == [0x30, 0x30, HexDigit(c / 16), HexDigit(c % 16)];
      }
      WritesInside(s, indent, d, e[2..]);
      WritesConcat(s, indent, p, [e[0]] + [e[1]], [e[0]] + [e[1]], p, e[2..], e[2..], p);
      assert e == [e[0]] + [e[1]] + e[2..];
    }
  }

  lemma {:induction false} WritesEscapedAll(s: Style, indent: nat, d: int, t: bytes)
    ensures Writes(s, indent, Pen(Inside, d, false), EscapedAll(t), EscapedAll(t), Pen(Inside, d, false))
  {
    var p := Pen(Inside, d, false);
    if t == [] {
      WritesNothing(s, indent, p);
    } else {
      hide Writes, Escaped;
      var e, more := Escaped(t[0]), EscapedAll(t[1..]);
      WritesEscaped(s, indent, d, t[0]);
      WritesEscapedAll(s, indent, d, t[1..]);
      WritesConcat(s, indent, p, e, e, p, more, more, p);
    }
  }

  lemma WritesQuoted(s: Style, indent: nat, p: Pen, t: bytes)
    requires p.st == Outside
    ensures Writes(s, indent, p, Quoted(t), Inner(s, p, indent) + Quoted(t), Pen(Outside, p.depth, false))
  {
    hide Writes, Inner, Escaped;
    var inside, after := Pen(Inside, p.depth, false), Pen(Outside, p.depth, false);
    var lead, body := Inner(s, p, indent), EscapedAll(t);
    WritesMark(s, indent, p);
    WritesMark(s, indent, inside);
    WritesEscapedAll(s, indent, p.depth, t);
    WritesConcat(s, indent, p, [0x22], lead + [0x22], inside, body, body, inside);
    WritesConcat(s, indent, p, [0x22] + body, lead + [0x22] + body, inside, [0x22], [0x22], after);
    FourParts(lead, [0x22], body, [0x22]);
    Assoc(lead + [0x22], body, [0x22]);
  }

  /** A quotation mark begins a string or ends it. */
  lemma WritesMark(s: Style, indent: nat, p: Pen)
    requires p.st == Outside || (p.st == Inside && !p.entered)
    ensures Writes(s, indent, p, [0x22], Inner(s, p, indent) + [0x22],
                   Pen(if p.st == Inside then Outside else Inside, p.depth, false))
    ensures p.st == Inside ==> Inner(s, p, indent) + [0x22] == [0x22]
  {
    WritesByte(s, indent, p, 0x22);
    assert Inner(s, p, indent) + [0x22] + [] == Inner(s, p, indent) + [0x22];
  }

  lemma WritesScalar(s: Style, indent: nat, p: Pen, v: Json)
    requires p.st == Outside && NumbersOk(v) && !Container(v)
    ensures Writes(s, indent, p, Scalar(v), Inner(s, p, indent) + Scalar(v), Pen(Outside, p.depth, false))
  {
    if v.String? {
      WritesQuoted(s, indent, p, v.chars);
    } else {
      var t, after := Scalar(v), Pen(Outside, p.depth, false);
      ScalarIsSimple(v);
      WritesByte(s, indent, p, t[0]);
      WritesSimple(s, indent, p.depth, t[1..]);
      assert Ink(s, p, t[0], indent) == Inner(s, p, indent) + [t[0]];
      WritesConcat(s, indent, p, [t[0]], Inner(s, p, indent) + [t[0]], after, t[1..], t[1..], after);
      assert t == [t[0]] + t[1..];
      Assoc(Inner(s, p, indent), [t[0]], t[1..]);
    }
  }

  lemma ScalarIsSimple(v: Json)
    requires NumbersOk(v) && !Container(v) && !v.String?
    ensures Scalar(v) != [] && Simple(Scalar(v)) && Simple(Scalar(v)[1..])
  {
    if v.Number? {
      NumberChars(v.token);
      forall k | 0 <= k < |v.token|
        ensures !Opener(v.token[k]) && !Closer(v.token[k]) && v.token[k] != 0x22
        ensures v.token[k] != 0x2C && v.token[k] != 0x3A
      {
        assert NumberChar(v.token[k]);
      }
    }
  }

  // ----- containers -----

  lemma LineIsBreak(indent: nat, d: nat)
    requires indent > 0
    ensures Line(indent, d) == Break(indent, d)
  {
    if d == 0 { assert indent * d == 0; }
  }

  /** What the pen writes in front of the first item is what the printer puts behind the bracket and before the item. */
  lemma InnerIsBreaks(s: Style, indent: nat, d: nat)
    requires indent > 0
    ensures Inner(s, Pen(Outside, d + 1, true), indent) == AfterOpen(s, indent, d) + BeforeItem(s, 0, indent, d)
  {
    LineIsBreak(indent, d + 1);
  }

  lemma WritesComma(s: Style, i: nat, indent: nat, d: nat)
    requires indent > 0 && i > 0
    ensures Writes(s, indent, Pen(Outside, d + 1, false), [0x2C], BeforeItem(s, i, indent, d),
                   Pen(Outside, d + 1, false))
  {
    LineIsBreak(indent, d + 1);
    WritesByte(s, indent, Pen(Outside, d + 1, false), 0x2C);
    assert [] + [0x2C] + Line(indent, d + 1) == [0x2C] + Line(indent, d + 1);
  }

  lemma WritesKey(s: Style, indent: nat, p: Pen, k: bytes)
    requires p.st == Outside && indent > 0
    ensures Writes(s, indent, p, KeyText(k, 0), Inner(s, p, indent) + KeyText(k, indent), Pen(Outside, p.depth, false))
  {
    var after := Pen(Outside, p.depth, false);
    WritesQuoted(s, indent, p, k);
    WritesByte(s, indent, after, 0x3A);
    assert Ink(s, after, 0x3A, indent) == [0x3A, 0x20];
    hide Quoted, Writes, Inner;
    WritesConcat(s, indent, p, Quoted(k), Inner(s, p, indent) + Quoted(k), after, [0x3A], [0x3A, 0x20], after);
    assert KeyText(k, 0) == Quoted(k) + [0x3A];
    assert KeyText(k, indent) == Quoted(k) + [0x3A, 0x20];
    Assoc(Inner(s, p, indent), Quoted(k), [0x3A, 0x20]);
  }

  /** The key, if there is one, and the value of entry i. */
  lemma WritesItem(s: Style, indent: nat, p: Pen, v: Json, i: nat, key: bytes, key': bytes)
    requires NumbersOk(v) && Container(v) && i < |v.items| && indent > 0
    requires p.st == Outside && p.depth >= 0
    requires key == (if v.Object? then KeyText(KeyAt(v, i), 0) else [])
    requires key' == (if v.Object? then KeyText(KeyAt(v, i), indent) else [])
    ensures Writes(s, indent, p, key + Text(Batch, v.items[i], 0, 0),
                   Inner(s, p, indent) + (key' + Text(s, v.items[i], indent, p.depth)), Pen(Outside, p.depth, false))
    decreases v, 0, |v.items| - i, 0
  {
    hide KeyText, Writes, Text;
    var q := Pen(Outside, p.depth, false);
    var item, item' := Text(Batch, v.items[i], 0, 0), Text(s, v.items[i], indent, p.depth);
    if v.Object? {
      WritesKey(s, indent, p, KeyAt(v, i));
      WritesValue(s, indent, q, v.items[i]);
      assert Inner(s, q, indent) + item' == item';
      WritesConcat(s, indent, p, key, Inner(s, p, indent) + key', q, item, item', q);
      Assoc(Inner(s, p, indent), key', item');
    } else {
      WritesValue(s, indent, p, v.items[i]);
      assert key + item == item && key' + item' == item';
    }
  }

  /** Entry i, from what follows the bracket or the entry before it to the end of its value. */
  lemma WritesEntry(s: Style, indent: nat, v: Json, i: nat, d: nat)
    requires NumbersOk(v) && Container(v) && i < |v.items| && indent > 0
    ensures Writes(s, indent, Pen(Outside, d + 1, i == 0), Lead(Batch, v, i, 0, 0) + Text(Batch, v.items[i], 0, 0),
                   (if i == 0 then AfterOpen(s, indent, d) else [])
                   + (Lead(s, v, i, indent, d) + Text(s, v.items[i], indent, d + 1)), Pen(Outside, d + 1, false))
    decreases v, 0, |v.items| - i, 1
  {
    hide KeyText, Writes, Text, Inner;
    var p, q := Pen(Outside, d + 1, i == 0), Pen(Outside, d + 1, false);
    var item, item' := Text(Batch, v.items[i], 0, 0), Text(s, v.items[i], indent, d + 1);
    var key, key' := if v.Object? then KeyText(KeyAt(v, i), 0) else [],
                     if v.Object? then KeyText(KeyAt(v, i), indent) else [];
    var gap := BeforeItem(s, i, indent, d);
    assert Lead(s, v, i, indent, d) == gap + key';
    WritesItem(s, indent, p, v, i, key, key');
    if i == 0 {
      assert Lead(Batch, v, i, 0, 0) == key by { assert [] + key == key; }
      InnerIsBreaks(s, indent, d);
      FourParts(AfterOpen(s, indent, d), gap, key', item');
    } else {
      assert Lead(Batch, v, i, 0, 0) == [0x2C] + key;
      WritesComma(s, i, indent, d);
      NoInner(s, q, indent, key' + item');
      WritesConcat(s, indent, p, [0x2C], gap, q, key + item, key' + item', q);
      Assoc([0x2C], key, item);
      FourParts([], gap, key', item');
    }
  }

  lemma NoInner(s: Style, p: Pen, indent: nat, t: bytes)
    requires !p.entered
    ensures Inner(s, p, indent) + t == t
  {
  }

  /** Everything from entry i on, and the closing bracket. */
  lemma WritesEntries(s: Style, indent: nat, v: Json, i: nat, d: nat)
    requires NumbersOk(v) && Container(v) && i <= |v.items| && indent > 0
    ensures Writes(s, indent, Pen(Outside, d + 1, i == 0), Entries(Batch, v, i, 0, 0) + End(Batch, v, 0, 0),
                   (if i == 0 then AfterOpen(s, indent, d) else [])
                   + (Entries(s, v, i, indent, d) + End(s, v, indent, d)), Pen(Outside, d, false))
    decreases v, 0, |v.items| - i, 2
  {
    var p, q, r := Pen(Outside, d + 1, i == 0), Pen(Outside, d + 1, false), Pen(Outside, d, false);
    if i == |v.items| {
      WritesEnd(s, indent, v, d);
    } else {
      var first, first' := Lead(Batch, v, i, 0, 0) + Text(Batch, v.items[i], 0, 0),
                           Lead(s, v, i, indent, d) + Text(s, v.items[i], indent, d + 1);
      var more, more' := Entries(Batch, v, i + 1, 0, 0), Entries(s, v, i + 1, indent, d);
      hide Writes, Text, Lead, End, AfterOpen, Entries;
      DenseAgree(Batch, v.items[i], 0, 1);
      EntriesParts(Batch, v, i, 0, 0);
      EntriesParts(s, v, i, indent, d);
      WritesEntry(s, indent, v, i, d);
      WritesEntries(s, indent, v, i + 1, d);
      WritesJoined(s, indent, p, q, r, first, if i == 0 then AfterOpen(s, indent, d) else [], first', more, more',
                   End(Batch, v, 0, 0), End(s, v, indent, d));
    }
  }

  lemma WritesJoined(s: Style, indent: nat, p: Pen, q: Pen, r: Pen, a: bytes, open: bytes, a': bytes,
                     b: bytes, b': bytes, c: bytes, c': bytes)
    requires Writes(s, indent, p, a, open + a', q) && Writes(s, indent, q, b + c, [] + (b' + c'), r)
    ensures Writes(s, indent, p, a + b + c, open + (a' + b' + c'), r)
  {
    hide Writes;
    WritesConcat(s, indent, p, a, open + a', q, b + c, [] + (b' + c'), r);
    Assoc(a, b, c);
    assert [] + (b' + c') == b' + c';
    FourParts(open, a', b', c');
  }

  lemma WritesEnd(s: Style, indent: nat, v: Json, d: nat)
    requires Container(v) && indent > 0
    ensures var n := |v.items|;
            Writes(s, indent, Pen(Outside, d + 1, n == 0), Entries(Batch, v, n, 0, 0) + End(Batch, v, 0, 0),
                   (if n == 0 then AfterOpen(s, indent, d) else [])
                   + (Entries(s, v, n, indent, d) + End(s, v, indent, d)), Pen(Outside, d, false))
  {
    var n := |v.items|;
    var p, c := Pen(Outside, d + 1, n == 0), Close(v);
    LineIsBreak(indent, d + 1);
    LineIsBreak(indent, d);
    WritesByte(s, indent, p, c);
    var open := if n == 0 then AfterOpen(s, indent, d) else [];
    var before := BeforeClose(s, n, indent, d);
    assert Outer(s, p, indent) == open + before;
    assert Ink(s, p, c, indent) == open + before + [c] + [];
    assert End(Batch, v, 0, 0) == [] + [c] && End(s, v, indent, d) == before + [c];
    hide Writes, Line, Outer, Ink, AfterOpen, BeforeClose, End;
    ClosedBy(open, before, [c]);
  }

  lemma ClosedBy(open: bytes, before: bytes, c: bytes)
    ensures open + before + c + [] == open + ([] + (before + c))
    ensures [] + ([] + c) == c
  {
    Assoc(open, before, c);
    assert [] + (before + c) == before + c;
    assert open + before + c + [] == open + before + c;
  }

  lemma WritesOpen(s: Style, indent: nat, p: Pen, c: byte)
    requires p.st == Outside && Opener(c)
    ensures Writes(s, indent, p, [c], Inner(s, p, indent) + [c], Pen(Outside, p.depth + 1, true))
  {
    WritesByte(s, indent, p, c);
    assert Inner(s, p, indent) + [c] + [] == Inner(s, p, indent) + [c];
  }

  lemma WritesEnclosed(s: Style, indent: nat, p: Pen, q: Pen, r: Pen, c: bytes, lead: bytes, b: bytes, gap: bytes,
                       b': bytes, e: bytes, e': bytes)
    requires Writes(s, indent, p, c, lead + c, q) && Writes(s, indent, q, b + e, gap + (b' + e'), r)
    ensures Writes(s, indent, p, c + [] + b + e, lead + (c + gap + b' + e'), r)
  {
    hide Writes;
    WritesConcat(s, indent, p, c, lead + c, q, b + e, gap + (b' + e'), r);
    assert c + [] == c;
    Assoc(c, b, e);
    FourParts(c, gap, b', e');
    Assoc(c, gap, b' + e');
    Assoc(lead, c, gap + (b' + e'));
    Assoc(c + gap, b', e');
  }

  lemma TextParts(s: Style, v: Json, indent: nat, d: nat)
    requires Container(v)
    ensures Text(s, v, indent, d)
         == [Open(v)] + AfterOpen(s, indent, d) + Entries(s, v, 0, indent, d) + End(s, v, indent, d)
  {
  }

  lemma NothingAfterOpen()
    ensures AfterOpen(Batch, 0, 0) == []
  {
  }

  lemma WritesValue(s: Style, indent: nat, p: Pen, v: Json)
    requires NumbersOk(v) && p.st == Outside && p.depth >= 0 && indent > 0
    ensures Writes(s, indent, p, Text(Batch, v, 0, 0), Inner(s, p, indent) + Text(s, v, indent, p.depth),
                   Pen(Outside, p.depth, false))
    decreases v, 1
  {
    if Container(v) {
      hide Writes, Entries, End, AfterOpen, Inner;
      var d, c, lead := p.depth, Open(v), Inner(s, p, indent);
      var inside, after := Pen(Outside, d + 1, true), Pen(Outside, d, false);
      WritesOpen(s, indent, p, c);
      WritesEntries(s, indent, v, 0, d);
      var gap, body, end := AfterOpen(s, indent, d), Entries(s, v, 0, indent, d), End(s, v, indent, d);
      var body', end' := Entries(Batch, v, 0, 0, 0), End(Batch, v, 0, 0);
      TextParts(s, v, indent, d);
      TextParts(Batch, v, 0, 0);
      hide Text;
      WritesEnclosed(s, indent, p, inside, after, [c], lead, body', gap, body, end', end);
      NothingAfterOpen();
    } else {
      WritesScalar(s, indent, p, v);
    }
  }

  /** The pen at the beginning of a document. */
  const START := Pen(Outside, 0, false)

  /** Every layout, at every positive indentation, is the dense text of js_json_write with white space that the pen puts
      in. */
  lemma TextIsReindented(s: Style, v: Json, indent: nat)
    requires NumbersOk(v) && indent > 0
    ensures Text(s, v, indent, 0) == Reindented(s, START, Text(Batch, v, 0, 0), indent)
  {
    WritesValue(s, indent, START, v);
  }

  // ----- a rule for every line and every colon -----

  /** The number of blanks at the beginning. */
  function Blanks(t: bytes): nat
    decreases |t|
  {
    if t == [] || t[0] != 0x20 then 0 else 1 + Blanks(t[1..])
  }

  /**
   A line is indented by the number of brackets that are open, one less if a closing bracket comes next. The one
   exception is the line of an empty container in the layout of JsonWriter, which keeps the inner depth.
   */
  predicate WellIndented(s: Style, depth: int, entered: bool, line: bytes, indent: nat) {
    var n := Blanks(line);
    var closing := n < |line| && Closer(line[n]) && !(s == Push && entered);
    n == Width(indent, if closing then depth - 1 else depth)
  }

  /** Outside strings every line is well indented and every colon is followed by exactly one blank. `entered` says that
      nothing but white space has come since the last opening bracket. */
  predicate Regular(s: Style, st: Scan, depth: int, entered: bool, t: bytes, indent: nat)
    decreases |t|
  {
    t == [] || (
      && (st == Outside && t[0] == 0x0A ==> WellIndented(s, depth, entered, t[1..], indent))
      && (st == Outside && t[0] == 0x3A ==> Blanks(t[1..]) == 1)
      && Regular(s, ScanByte(st, t[0]), Moved(Pen(st, depth, entered), t[0]).depth,
                 st == Outside && (Opener(t[0]) || (entered && White(t[0]))), t[1..], indent))
  }

  predicate NoBlankFirst(t: bytes) {
    t == [] || t[0] != 0x20
  }

  lemma {:induction false} BlanksThen(k: nat, tail: bytes)
    requires NoBlankFirst(tail)
    ensures Blanks(seq(k, _ => 0x20) + tail) == k
  {
    var t := seq(k, _ => 0x20 as byte) + tail;
    if k == 0 {
      assert t == tail;
    } else {
      assert t[1..] == seq(k - 1, _ => 0x20 as byte) + tail;
      BlanksThen(k - 1, tail);
    }
  }

  lemma {:induction false} RegularBlanks(s: Style, depth: int, entered: bool, k: nat, tail: bytes, indent: nat)
    requires Regular(s, Outside, depth, entered, tail, indent)
    ensures Regular(s, Outside, depth, entered, seq(k, _ => 0x20) + tail, indent)
  {
    var t := seq(k, _ => 0x20 as byte) + tail;
    if k == 0 {
      assert t == tail;
    } else {
      assert t[1..] == seq(k - 1, _ => 0x20 as byte) + tail;
      RegularBlanks(s, depth, entered, k - 1, tail, indent);
    }
  }

  lemma RegularLine(s: Style, depth: int, entered: bool, n: int, tail: bytes, indent: nat)
    requires NoBlankFirst(tail) && Regular(s, Outside, depth, entered, tail, indent)
    requires n == if tail != [] && Closer(tail[0]) && !(s == Push && entered) then depth - 1 else depth
    ensures Regular(s, Outside, depth, entered, Line(indent, n) + tail, indent)
    ensures (Line(indent, n) + tail)[0] == 0x0A
  {
    var k := Width(indent, n);
    var blanks := seq(k, _ => 0x20 as byte);
    BlanksThen(k, tail);
    RegularBlanks(s, depth, entered, k, tail, indent);
    assert (Line(indent, n) + tail)[1..] == blanks + tail;
    assert tail != [] ==> (blanks + tail)[k] == tail[0];
    hide Width, Blanks;
  }

  /** No white space outside strings. */
  predicate Tight(st: Scan, t: bytes) {
    Stripped(st, t) == t
  }

  lemma {:induction false} StrippedIsShorter(st: Scan, t: bytes)
    ensures |Stripped(st, t)| <= |t|
    decreases |t|
  {
    if t != [] { StrippedIsShorter(ScanByte(st, t[0]), t[1..]); }
  }

  lemma TightRest(st: Scan, t: bytes)
    requires Tight(st, t) && t != []
    ensures !(st == Outside && White(t[0])) && Tight(ScanByte(st, t[0]), t[1..])
  {
    var rest := Stripped(ScanByte(st, t[0]), t[1..]);
    StrippedIsShorter(ScanByte(st, t[0]), t[1..]);
    assert Stripped(st, t) == [t[0]] + rest;
    assert ([t[0]] + rest)[1..] == rest;
  }

  /** What the pen writes never begins with a blank, and with a closing bracket only right after an opening one. */
  lemma BeginsWell(s: Style, p: Pen, t: bytes, indent: nat)
    requires p.st == Outside && Tight(p.st, t)
    ensures var out := Reindented(s, p, t, indent);
            NoBlankFirst(out) && (!p.entered && out != [] ==> !Closer(out[0]))
  {
    if t != [] {
      TightRest(p.st, t);
      var ink := Ink(s, p, t[0], indent);
      assert ink != [] && Reindented(s, p, t, indent)[0] == ink[0];
    }
  }

  /** The byte itself, with what is written behind it. */
  lemma RegularByte(s: Style, p: Pen, c: byte, rest: bytes, indent: nat)
    requires p.st == Outside && !White(c)
    requires var q := Moved(p, c); Regular(s, q.st, q.depth, q.entered, rest, indent)
    requires c == 0x2C || c == 0x3A ==> NoBlankFirst(rest) && (rest != [] ==> !Closer(rest[0]))
    ensures Regular(s, Outside, p.depth, p.entered, [c] + (Behind(p, c, indent) + rest), indent)
  {
    var q, tail := Moved(p, c), Behind(p, c, indent) + rest;
    assert ([c] + tail)[1..] == tail;
    if c == 0x2C {
      RegularLine(s, p.depth, false, p.depth, rest, indent);
    } else if c == 0x3A {
      assert tail[1..] == rest;
      assert tail == [0x20] + rest;
    } else {
      assert tail == rest;
    }
  }

  /** The lines in front of it. */
  lemma RegularLines(s: Style, p: Pen, c: byte, tail: bytes, indent: nat)
    requires p.st == Outside && tail != [] && tail[0] == c && c != 0x20
    requires Regular(s, Outside, p.depth, p.entered, tail, indent)
    ensures var lines := if Closer(c) then Outer(s, p, indent) else Inner(s, p, indent);
            Regular(s, Outside, p.depth, p.entered, lines + tail, indent)
  {
    hide Regular, Line, WellIndented;
    var d, e := p.depth, p.entered;
    var inner, outer := Line(indent, d), Line(indent, d - 1);
    assert [] + tail == tail;
    if Closer(c) {
      if !e {
        RegularLine(s, d, e, d - 1, tail, indent);
      } else if s == Batch {
        RegularLine(s, d, e, d - 1, tail, indent);
        RegularLine(s, d, e, d, outer + tail, indent);
        Assoc(inner, outer, tail);
      } else if s == Push {
        RegularLine(s, d, e, d, tail, indent);
      }
    } else if e {
      RegularLine(s, d, e, d, tail, indent);
      if s == Push {
        RegularLine(s, d, e, d, inner + tail, indent);
        Assoc(inner, inner, tail);
      }
    }
  }

  lemma {:induction false} PenIsRegular(s: Style, p: Pen, t: bytes, indent: nat)
    requires Tight(p.st, t) && (p.st != Outside ==> !p.entered)
    ensures Regular(s, p.st, p.depth, p.entered, Reindented(s, p, t, indent), indent)
    decreases |t|
  {
    if t != [] {
      hide Regular, Ink, Reindented, Behind, Inner, Outer, Tight;
      var c, q := t[0], Moved(p, t[0]);
      var rest := Reindented(s, q, t[1..], indent);
      TightRest(p.st, t);
      PenIsRegular(s, q, t[1..], indent);
      Unrolled(s, p, t, indent);
      if p.st == Outside {
        if q.st == Outside { BeginsWell(s, q, t[1..], indent); }
        RegularByte(s, p, c, rest, indent);
        RegularLines(s, p, c, [c] + (Behind(p, c, indent) + rest), indent);
      } else {
        RegularInside(s, p, c, rest, indent);
      }
    } else {
      assert Reindented(s, p, t, indent) == [];
    }
  }

  lemma Unrolled(s: Style, p: Pen, t: bytes, indent: nat)
    requires t != []
    ensures var c, rest := t[0], Reindented(s, Moved(p, t[0]), t[1..], indent);
            var lines := if Closer(c) then Outer(s, p, indent) else Inner(s, p, indent);
            && (p.st != Outside ==> Reindented(s, p, t, indent) == [c] + rest)
            && (p.st == Outside ==> Reindented(s, p, t, indent) == lines + ([c] + (Behind(p, c, indent) + rest)))
  {
    hide Inner, Outer, Behind;
    var c, rest := t[0], Reindented(s, Moved(p, t[0]), t[1..], indent);
    var lines, behind := if Closer(c) then Outer(s, p, indent) else Inner(s, p, indent), Behind(p, c, indent);
    assert Reindented(s, p, t, indent) == Ink(s, p, c, indent) + rest;
    assert p.st == Outside ==> Ink(s, p, c, indent) == lines + [c] + behind;
    hide Reindented, Ink;
    Assoc(lines, [c], behind);
    Assoc(lines, [c] + behind, rest);
    Assoc([c], behind, rest);
  }

  lemma RegularInside(s: Style, p: Pen, c: byte, rest: bytes, indent: nat)
    requires p.st != Outside && !p.entered
    requires var q := Moved(p, c); Regular(s, q.st, q.depth, q.entered, rest, indent)
    ensures Regular(s, p.st, p.depth, p.entered, [c] + rest, indent)
  {
    assert ([c] + rest)[1..] == rest;
  }

  /**
   In every layout each line outside strings is indented by `indent` blanks for each bracket that is open (one less in
   front of a closing bracket), and each colon outside strings is followed by one blank.
   */
  lemma TextIsRegular(s: Style, v: Json, indent: nat)
    requires NumbersOk(v) && indent > 0
    ensures Regular(s, Outside, 0, false, Text(s, v, indent, 0), indent)
  {
    TextIsReindented(s, v, indent);
    TextStrips(Batch, v, 0, 0);
    PenIsRegular(s, START, Text(Batch, v, 0, 0), indent);
  }

  // ----- escapes -----

  const HEXADECIMAL := "0123456789abcdef"

  /** The five escapes of one letter, and the four lower-case hexadecimal digits of all other control characters. */
  lemma ControlEscapes(c: byte)
    requires c < 0x20
    ensures Escaped(8) == [0x5C, 'b' as int] && Escaped(9) == [0x5C, 't' as int] && Escaped(10) == [0x5C, 'n' as int]
    ensures Escaped(12) == [0x5C, 'f' as int] && Escaped(13) == [0x5C, 'r' as int]
    ensures c !in {8, 9, 10, 12, 13} ==>
              var high, low := HEXADECIMAL[c / 16], HEXADECIMAL[c % 16];
              Escaped(c) == [0x5C, 'u' as int, '0' as int, '0' as int, high as int, low as int]
  {
  }

  /** Exactly control characters, quotation marks and backslashes are escaped, the latter two by a backslash alone. */
  lemma OtherEscapes(c: byte)
    requires c >= 0x20
    ensures Escaped(c) == if c == 0x22 || c == 0x5C then [0x5C, c] else [c]
  {
  }
}
