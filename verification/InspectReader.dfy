/**
 A reader for what `inspect` prints: it takes the text apart again, with the brackets, commas, blanks and line breaks
 written out. Between items it accepts one blank, or a line break with as many blanks as there are brackets open.
 */
module InspectReader {
  import opened InspectRender
  import opened Sequences

  // ----- words -----

  /** The bytes that end a word. */
  predicate Structural(c: byte) {
    c in {0x5B, 0x5D, 0x7B, 0x7D, 0x2C, 0x20, 0x0A}
  }

  /** A scan of a word is outside quotation marks, inside, or right after a backslash inside. */
  datatype Quote = Bare | Within(mark: byte) | Escaping(mark: byte)

  function Scanned(q: Quote, c: byte): Quote {
    match q
    case Bare => if c in {0x22, 0x27, 0x60} then Within(c) else Bare
    case Within(mark) => if c == mark then Bare else if c == 0x5C then Escaping(mark) else q
    case Escaping(mark) => Within(mark)
  }

  /** How far a word reaches: to the first structural byte outside quotation marks. */
  function WordLength(q: Quote, t: bytes): (n: nat)
    ensures n <= |t|
    decreases |t|
  {
    if t == [] || (q == Bare && Structural(t[0])) then 0 else 1 + WordLength(Scanned(q, t[0]), t[1..])
  }

  /** All of `t` is read on from `q`, and it ends outside quotation marks. */
  predicate WordFrom(q: Quote, t: bytes)
    decreases |t|
  {
    if t == [] then q == Bare else !(q == Bare && Structural(t[0])) && WordFrom(Scanned(q, t[0]), t[1..])
  }

  predicate Word(t: bytes) {
    t != [] && WordFrom(Bare, t)
  }

  /** What may follow a word. */
  predicate Stops(rest: bytes) {
    rest == [] || Structural(rest[0])
  }

  lemma {:induction false} WordIsFound(q: Quote, t: bytes, rest: bytes)
    requires WordFrom(q, t) && Stops(rest)
    ensures WordLength(q, t + rest) == |t|
    decreases |t|
  {
    if t == [] {
      assert t + rest == rest;
    } else {
      assert (t + rest)[0] == t[0] && (t + rest)[1..] == t[1..] + rest;
      WordIsFound(Scanned(q, t[0]), t[1..], rest);
    }
  }

  /** What the reader can tell apart: primitives and labels are words, and every item of an object has a label. */
  ghost predicate Readable(t: Tree) {
    if t.Leaf? then Word(t.text)
    else
      && |t.labels| == (if t.isArray then 0 else |t.items|)
      && (forall i :: 0 <= i < |t.labels| ==> Label(t.labels[i]))
      && (forall i :: 0 <= i < |t.items| ==> Readable(t.items[i]))
  }

  /** A word and a blank. */
  predicate Label(s: bytes) {
    |s| > 1 && Word(s[..|s| - 1]) && s[|s| - 1] == 0x20
  }

  // ----- the reader -----

  /** `t` without the blank, or the line break and its `n` blanks, that it starts with. */
  function Gap(t: bytes, n: nat): (r: Option<bytes>)
    ensures r.Some? ==> |r.value| < |t|
  {
    if t != [] && t[0] == 0x20 then Some(t[1..])
    else if |t| > n && t[0] == 0x0A && (forall j :: 1 <= j <= n ==> t[j] == 0x20) then Some(t[1 + n..])
    else None
  }

  /** "[loop]" stands for an object that contains itself. */
  const LOOPING: bytes := [0x5B, 0x6C, 0x6F, 0x6F, 0x70, 0x5D]

  function ReadValue(t: bytes, d: nat): (r: Option<(Tree, bytes)>)
    ensures r.Some? ==> |r.value.1| < |t|
    decreases |t|, 0
  {
    if t == [] then None
    else if LOOPING <= t then Some((Leaf(t[..6]), t[6..]))
    else if t[0] == 0x5B || t[0] == 0x7B then
      match ReadItems(t[0] == 0x5B, d, true, t[1..])
      case None => None
      case Some((labels, items, rest)) => Some((Box(t[0] == 0x5B, labels, items), rest))
    else
      var n := WordLength(Bare, t);
      if n == 0 then None else Some((Leaf(t[..n]), t[n..]))
  }

  /** What follows the opening bracket, or an item. */
  function ReadItems(isArray: bool, d: nat, first: bool, t: bytes): (r: Option<(seq<bytes>, seq<Tree>, bytes)>)
    ensures r.Some? ==> |r.value.2| < |t|
    decreases |t|, 2
  {
    var close := if isArray then 0x5D else 0x7D;
    var end := if first then Some(t) else Gap(t, d);
    if end.Some? && end.value != [] && end.value[0] == close then Some(([], [], end.value[1..]))
    else
      var start := if first then Gap(t, d + 1) else if t != [] && t[0] == 0x2C then Gap(t[1..], d + 1) else None;
      if start.None? then None else ReadItem(isArray, d, start.value)
  }

  /** The key, if there is one, the value and all that follows. */
  function ReadItem(isArray: bool, d: nat, t: bytes): (r: Option<(seq<bytes>, seq<Tree>, bytes)>)
    ensures r.Some? ==> |r.value.2| < |t|
    decreases |t|, 1
  {
    var n := if isArray then 0 else WordLength(Bare, t) + 1;
    if n == 1 || n > |t| || (n > 0 && t[n - 1] != 0x20) then None
    else
      match ReadValue(t[n..], d + 1)
      case None => None
      case Some((item, rest)) =>
        match ReadItems(isArray, d, false, rest)
        case None => None
        case Some((labels, items, rest')) => Some(((if isArray then [] else [t[..n]]) + labels, [item] + items, rest'))
  }

  // ----- what is printed, from some item on -----

  function Shown(t: Tree, k: nat, d: nat, inline: bool): bytes {
    if inline then Inline(t) else Render(t, k, d)
  }

  /** Between items: a blank, or a line break and blanks. */
  function Between(inline: bool, d: nat): bytes {
    if inline then [SPACE] else Line(d)
  }

  /** Item i and all that follows, to the closing bracket. */
  function Following(t: Tree, i: nat, k: nat, d: nat, inline: bool): bytes
    requires t.Box? && i <= |t.items|
    decreases |t.items| - i
  {
    if i == |t.items| then Between(inline, d) + [Close(t)]
    else
      Separator(i) + Between(inline, d + 1) + LabelAt(t, i) + Shown(t.items[i], k, d + 1, inline)
        + Following(t, i + 1, k, d, inline)
  }

  function Preceding(t: Tree, i: nat, k: nat, d: nat, inline: bool): bytes
    requires t.Box? && i <= |t.items|
  {
    if inline then InlineItems(t, i) else Items(t, i, k, d)
  }

  lemma Chain(a: bytes, b: bytes, c: bytes, d: bytes)
    ensures a + b + c + d == a + (b + c + d)
  {
    assert a + b + c + d == a + (b + c + d);
  }

  function LeadIn(t: Tree, i: nat, d: nat, inline: bool): bytes {
    Separator(i) + Between(inline, d + 1) + LabelAt(t, i)
  }

  lemma NextItem(t: Tree, i: nat, k: nat, d: nat, inline: bool)
    requires t.Box? && i < |t.items|
    ensures var lead, item := LeadIn(t, i, d, inline), Shown(t.items[i], k, d + 1, inline);
            && Preceding(t, i + 1, k, d, inline) == Preceding(t, i, k, d, inline) + lead + item
            && Following(t, i, k, d, inline) == lead + item + Following(t, i + 1, k, d, inline)
  {
    hide Line, Separator, LabelAt;
  }

  lemma TurnedOnce(t: Tree, i: nat, k: nat, d: nat, inline: bool)
    requires t.Box? && i < |t.items|
    ensures Preceding(t, i + 1, k, d, inline) + Following(t, i + 1, k, d, inline)
         == Preceding(t, i, k, d, inline) + Following(t, i, k, d, inline)
  {
    hide Preceding, Following, LeadIn, Shown, Inline, Render, Items, InlineItems, Height;
    NextItem(t, i, k, d, inline);
    Chain(Preceding(t, i, k, d, inline), LeadIn(t, i, d, inline),
          Shown(t.items[i], k, d + 1, inline), Following(t, i + 1, k, d, inline));
  }

  lemma {:induction false} Turned(t: Tree, i: nat, k: nat, d: nat, inline: bool)
    requires t.Box? && i <= |t.items|
    ensures Preceding(t, i, k, d, inline) + Following(t, i, k, d, inline) == Following(t, 0, k, d, inline)
    decreases i
  {
    if i == 0 {
      assert Preceding(t, 0, k, d, inline) == [];
      hide Following;
    } else {
      hide Preceding, Following;
      Turned(t, i - 1, k, d, inline);
      TurnedOnce(t, i - 1, k, d, inline);
    }
  }

  /** A container with items is its opening bracket and all that follows. */
  lemma ShownIsFollowing(t: Tree, k: nat, d: nat, inline: bool)
    requires t.Box? && t.items != []
    ensures Shown(t, k, d, inline) == [Open(t)] + Following(t, 0, k, d, inline || Height(t) <= k)
  {
    var n, low := |t.items|, inline || Height(t) <= k;
    ShownParts(t, k, d, inline);
    Turned(t, n, k, d, low);
    hide Height, Preceding, Following, Shown, Between;
    Assoc([Open(t)], Preceding(t, n, k, d, low), Following(t, n, k, d, low));
  }

  lemma ShownParts(t: Tree, k: nat, d: nat, inline: bool)
    requires t.Box? && t.items != []
    ensures var n, low := |t.items|, inline || Height(t) <= k;
            Shown(t, k, d, inline) == [Open(t)] + Preceding(t, n, k, d, low) + Following(t, n, k, d, low)
  {
    hide Height, Items, InlineItems, Line;
    assert [SPACE] + [Close(t)] == [SPACE, Close(t)];
  }

  // ----- it reads back -----

  lemma GapIsPassed(inline: bool, d: nat, rest: bytes)
    ensures Gap(Between(inline, d) + rest, d) == Some(rest)
  {
    var t := Between(inline, d) + rest;
    assert inline ==> t[1..] == rest;
    assert !inline ==> t[1 + d..] == rest;
  }

  /** What comes after an item begins with a comma, a blank or a line break. */
  lemma FollowingStops(t: Tree, i: nat, k: nat, d: nat, inline: bool, rest: bytes)
    requires t.Box? && 0 < i <= |t.items|
    ensures var more := Following(t, i, k, d, inline) + rest;
            more != [] && Structural(more[0]) && (i < |t.items| ==> more[0] == 0x2C)
  {
    hide Inline, Render, LabelAt;
  }

  lemma ReadsWord(text: bytes, d: nat, rest: bytes)
    requires Word(text) && Stops(rest)
    ensures ReadValue(text + rest, d) == Some((Leaf(text), rest))
  {
    WordIsFound(Bare, text, rest);
    var t := text + rest;
    assert t[0] == text[0] && t[..|text|] == text && t[|text|..] == rest;
  }

  /**
   The reader takes the text of a tree back to the tree, whatever follows it: kinds, labels and order of the items, at
   any depth and for any limit on the height of one-line containers.
   */
  lemma ReadsBack(t: Tree, k: nat, d: nat, inline: bool, rest: bytes)
    requires Readable(t) && Stops(rest)
    ensures ReadValue(Shown(t, k, d, inline) + rest, d) == Some((t, rest))
    decreases t, 2, 0
  {
    if t.Leaf? {
      ReadsWord(t.text, d, rest);
    } else if t.items == [] {
      ReadsEmpty(t, k, d, inline, rest);
    } else {
      var low := inline || Height(t) <= k;
      ShownIsFollowing(t, k, d, inline);
      ReadsItems(t, 0, k, d, low, rest);
      ReadsBracket(t, Following(t, 0, k, d, low), d, rest);
    }
  }

  lemma ReadsEmpty(t: Tree, k: nat, d: nat, inline: bool, rest: bytes)
    requires t.Box? && t.items == [] && Readable(t)
    ensures ReadValue(Shown(t, k, d, inline) + rest, d) == Some((t, rest))
  {
    var text := [Open(t), Close(t)] + rest;
    assert text[1] == Close(t) && text[1..] == [Close(t)] + rest;
    assert ([Close(t)] + rest)[1..] == rest;
    assert t.labels == [];
  }

  lemma ReadsBracket(t: Tree, body: bytes, d: nat, rest: bytes)
    requires t.Box? && Readable(t) && body != [] && (body[0] == 0x20 || body[0] == 0x0A)
    requires ReadItems(t.isArray, d, true, body + rest) == Some((t.labels, t.items, rest))
    ensures ReadValue([Open(t)] + body + rest, d) == Some((t, rest))
  {
    var text := [Open(t)] + body + rest;
    assert text[0] == Open(t) && text[1] == body[0];
    assert text[1..] == body + rest;
  }

  lemma ReadsItems(t: Tree, i: nat, k: nat, d: nat, inline: bool, rest: bytes)
    requires t.Box? && Readable(t) && t.items != [] && i <= |t.items|
    ensures ReadItems(t.isArray, d, i == 0, Following(t, i, k, d, inline) + rest)
         == Some((if t.isArray then [] else t.labels[i..], t.items[i..], rest))
    ensures i == 0 ==> var body := Following(t, i, k, d, inline); body != [] && (body[0] == 0x20 || body[0] == 0x0A)
    decreases t, 1, |t.items| - i
  {
    if i == |t.items| {
      ReadsEnd(t, k, d, inline, rest);
    } else {
      hide Shown, Following, ReadItems, ReadItem, ReadValue, LabelAt, Between, Separator, Readable;
      var item, more := Shown(t.items[i], k, d + 1, inline), Following(t, i + 1, k, d, inline) + rest;
      ItemIsReadable(t, i);
      FollowingStops(t, i + 1, k, d, inline, rest);
      ReadsBack(t.items[i], k, d + 1, inline, more);
      ReadsItems(t, i + 1, k, d, inline, rest);
      ReadsItem(t, i, d, item, more, rest);
      ReadsStart(t, i, k, d, inline, LabelAt(t, i) + (item + more));
      FollowingParts(t, i, k, d, inline, rest);
    }
  }

  lemma ItemIsReadable(t: Tree, i: nat)
    requires t.Box? && Readable(t) && i < |t.items|
    ensures Readable(t.items[i])
  {
  }

  lemma FollowingParts(t: Tree, i: nat, k: nat, d: nat, inline: bool, rest: bytes)
    requires t.Box? && i < |t.items|
    ensures var item, more := Shown(t.items[i], k, d + 1, inline), Following(t, i + 1, k, d, inline) + rest;
            Separator(i) + (Between(inline, d + 1) + (LabelAt(t, i) + (item + more)))
            == Following(t, i, k, d, inline) + rest
    ensures i == 0 ==> var body := Following(t, i, k, d, inline); body != [] && (body[0] == 0x20 || body[0] == 0x0A)
  {
    NextItem(t, i, k, d, inline);
    var a, b, c := Separator(i), Between(inline, d + 1), LabelAt(t, i);
    var item, more := Shown(t.items[i], k, d + 1, inline), Following(t, i + 1, k, d, inline);
    assert b != [] && (b[0] == 0x20 || b[0] == 0x0A);
    assert i == 0 ==> (a + b + c + item + more)[0] == b[0];
    hide Shown, Following, Separator, Between, LabelAt;
    Nested6(a, b, c, item, more, rest);
  }

  lemma Nested6(a: bytes, b: bytes, c: bytes, d: bytes, e: bytes, f: bytes)
    ensures a + b + c + d + e + f == a + (b + (c + (d + (e + f))))
  {
    Nest(a + b, c, d, e + f);
    Nest(a + b + c, d, e, f);
    Assoc(a, b, c + (d + (e + f)));
    assert a + b + c + d + e + f == a + b + c + (d + (e + f));
    Assoc(a + b, c, d + (e + f));
  }

  lemma ReadsEnd(t: Tree, k: nat, d: nat, inline: bool, rest: bytes)
    requires t.Box? && Readable(t) && t.items != []
    ensures ReadItems(t.isArray, d, false, Following(t, |t.items|, k, d, inline) + rest)
         == Some((if t.isArray then [] else t.labels[|t.items|..], t.items[|t.items|..], rest))
  {
    var n := |t.items|;
    var end := [Close(t)] + rest;
    GapIsPassed(inline, d, end);
    assert Following(t, n, k, d, inline) + rest == Between(inline, d) + end;
    assert end[1..] == rest;
    assert t.items[n..] == [] && (!t.isArray ==> t.labels[n..] == []);
  }

  /** A key, if there is one, and a value. */
  lemma ReadsItem(t: Tree, i: nat, d: nat, item: bytes, more: bytes, rest: bytes)
    requires t.Box? && Readable(t) && i < |t.items|
    requires ReadValue(item + more, d + 1) == Some((t.items[i], more))
    requires ReadItems(t.isArray, d, false, more)
          == Some((if t.isArray then [] else t.labels[i + 1..], t.items[i + 1..], rest))
    ensures ReadItem(t.isArray, d, LabelAt(t, i) + (item + more))
         == Some((if t.isArray then [] else t.labels[i..], t.items[i..], rest))
  {
    var key := LabelAt(t, i);
    assert t.isArray ==> key == [] && [] + [] == t.labels;
    assert !t.isArray ==> key == t.labels[i] && Label(key) && [key] + t.labels[i + 1..] == t.labels[i..];
    assert [t.items[i]] + t.items[i + 1..] == t.items[i..];
    hide ReadItems, ReadItem, ReadValue, LabelAt, Readable, Label;
    ReadsPair(t.isArray, d, key, item + more, t.items[i], more, if t.isArray then [] else t.labels[i + 1..],
              t.items[i + 1..], rest);
  }

  lemma ReadsPair(isArray: bool, d: nat, key: bytes, value: bytes, item: Tree, more: bytes, labels: seq<bytes>,
                  items: seq<Tree>, rest: bytes)
    requires if isArray then key == [] else Label(key)
    requires ReadValue(value, d + 1) == Some((item, more))
    requires ReadItems(isArray, d, false, more) == Some((labels, items, rest))
    ensures ReadItem(isArray, d, key + value)
         == Some(((if isArray then [] else [key]) + labels, [item] + items, rest))
  {
    hide ReadItems, ReadValue, WordLength;
    assert (key + value)[|key|..] == value && (key + value)[..|key|] == key;
    if !isArray {
      LabelIsFound(key, value);
    }
  }

  lemma LabelIsFound(key: bytes, rest: bytes)
    requires Label(key)
    ensures WordLength(Bare, key + rest) + 1 == |key| && (key + rest)[|key| - 1] == 0x20
  {
    var word := key[..|key| - 1];
    assert key + rest == word + ([0x20] + rest);
    WordIsFound(Bare, word, [0x20] + rest);
  }

  /** The comma, unless the item is the first, and the gap. */
  lemma ReadsStart(t: Tree, i: nat, k: nat, d: nat, inline: bool, body: bytes)
    requires t.Box? && i < |t.items| && ReadItem(t.isArray, d, body).Some?
    ensures ReadItems(t.isArray, d, i == 0, Separator(i) + (Between(inline, d + 1) + body))
         == ReadItem(t.isArray, d, body)
  {
    hide ReadItem, ReadItems, Gap, Between;
    var gap := Between(inline, d + 1) + body;
    GapBegins(inline, d + 1, body);
    GapIsPassed(inline, d + 1, body);
    if i == 0 {
      assert Separator(i) + gap == gap;
      FirstStarts(t.isArray, d, gap, body);
    } else {
      assert Separator(i) == [0x2C];
      NextStarts(t.isArray, d, gap, body);
    }
  }

  lemma GapBegins(inline: bool, d: nat, rest: bytes)
    ensures var t := Between(inline, d) + rest; t != [] && (t[0] == 0x20 || t[0] == 0x0A)
  {
    assert (Between(inline, d) + rest)[0] == Between(inline, d)[0];
  }

  lemma FirstStarts(isArray: bool, d: nat, t: bytes, body: bytes)
    requires t != [] && (t[0] == 0x20 || t[0] == 0x0A) && Gap(t, d + 1) == Some(body)
    ensures ReadItems(isArray, d, true, t) == ReadItem(isArray, d, body)
  {
    hide ReadItem, Gap;
  }

  lemma NextStarts(isArray: bool, d: nat, t: bytes, body: bytes)
    requires Gap(t, d + 1) == Some(body)
    ensures ReadItems(isArray, d, false, [0x2C] + t) == ReadItem(isArray, d, body)
  {
    var text := [0x2C] + t;
    assert text[0] == 0x2C && text[1..] == t;
    assert Gap(text, d) == None;
    hide ReadItem, Gap;
  }

  /** The whole text is read, and stands for the tree. */
  predicate ReadsAs(text: bytes, t: Tree) {
    ReadValue(text, 0) == Some((t, []))
  }

  lemma RenderReadsAs(t: Tree, k: nat)
    requires Readable(t)
    ensures ReadsAs(Render(t, k, 0), t)
  {
    ReadsBack(t, k, 0, false, []);
    assert Render(t, k, 0) + [] == Render(t, k, 0);
  }

  /** Distinct readable trees are printed differently. */
  lemma RenderIsInjective(t: Tree, t': Tree, k: nat, k': nat, d: nat)
    requires Readable(t) && Readable(t') && Render(t, k, d) == Render(t', k', d)
    ensures t == t'
  {
    ReadsBack(t, k, d, false, []);
    ReadsBack(t', k', d, false, []);
  }
}
