/**
 One-line rendering under a positive `compact`: inspect_compact_value and inspect_compact_object on
 an object graph, which may be cyclic.
 */
module InspectInline {
  import opened InspectReader
  import opened InspectRender
  import opened Sequences

  /** `Plain` is whatever prints itself (primitives, functions, custom inspectors), `Throws` a getter that does. */
  datatype Value = Plain(text: bytes) | Throws | Ref(id: nat)

  datatype Entry = Entry(hidden: bool, key: bytes, value: Value)

  datatype Obj = Obj(isArray: bool, entries: seq<Entry>)

  type Graph = map<nat, Obj>

  ghost predicate Closed(g: Graph) {
    forall id, i :: id in g && 0 <= i < |g[id].entries| && g[id].entries[i].value.Ref? ==>
        g[id].entries[i].value.id in g
  }

  /** "[loop]". */
  const LOOP: bytes := [0x5B, 0x6C, 0x6F, 0x6F, 0x70, 0x5D]

  const COLON: byte := 0x3A

  function Count(entries: seq<Entry>, n: nat): (c: nat)
    requires n <= |entries|
    ensures c <= n
  {
    if n == 0 then 0 else Count(entries, n - 1) + (if entries[n - 1].hidden then 0 else 1)
  }

  function Before(o: Obj, i: nat): bytes
    requires i < |o.entries|
  {
    (if Count(o.entries, i) > 0 then [COMMA, SPACE] else [])
        + (if o.isArray then [] else o.entries[i].key + [COLON, SPACE])
  }

  function Opening(o: Obj): bytes {
    [if o.isArray then 0x5B else 0x7B, SPACE]
  }

  function Closing(o: Obj): bytes {
    [SPACE, if o.isArray then 0x5D else 0x7D]
  }

  // ----- the text, without regard to its length -----

  /** What is left of the graph for objects that are not ancestors: this is why it ends on cycles. */
  ghost function Left(g: Graph, ancestors: set<nat>): nat {
    |g.Keys - ancestors|
  }

  lemma LessLeft(g: Graph, ancestors: set<nat>, id: nat)
    requires id in g && id !in ancestors
    ensures Left(g, ancestors + {id}) < Left(g, ancestors)
  {
    assert g.Keys - ancestors == (g.Keys - (ancestors + {id})) + {id};
  }

  ghost function ValueText(g: Graph, v: Value, outer: set<nat>, ancestors: set<nat>, compact: nat): Option<bytes>
    requires Closed(g) && (v.Ref? ==> v.id in g)
    decreases Left(g, ancestors), 0, 0
  {
    match v
    case Plain(text) => Some(text)
    case Throws => None
    case Ref(id) =>
      if id in outer || id in ancestors then Some(LOOP)
      else
        LessLeft(g, ancestors, id);
        ObjectText(g, id, outer, ancestors + {id}, compact)
  }

  ghost function EntriesText(g: Graph, id: nat, n: nat, outer: set<nat>, ancestors: set<nat>,
      compact: nat): Option<bytes>
    requires Closed(g) && id in g && n <= |g[id].entries|
    decreases Left(g, ancestors), 1, n
  {
    if n == 0 then Some([])
    else if g[id].entries[n - 1].hidden then EntriesText(g, id, n - 1, outer, ancestors, compact)
    else
      var before := EntriesText(g, id, n - 1, outer, ancestors, compact);
      var value := ValueText(g, g[id].entries[n - 1].value, outer, ancestors, compact);
      if before.None? || value.None? then None
      else Some(before.value + Before(g[id], n - 1) + value.value)
  }

  /** An object is eligible with 1 to `compact` visible entries, all of them eligible. */
  ghost function ObjectText(g: Graph, id: nat, outer: set<nat>, ancestors: set<nat>, compact: nat): Option<bytes>
    requires Closed(g) && id in g
    decreases Left(g, ancestors), 2, 0
  {
    var o := g[id];
    if Count(o.entries, |o.entries|) == 0 || Count(o.entries, |o.entries|) > compact then None
    else
      match EntriesText(g, id, |o.entries|, outer, ancestors, compact)
      case None => None
      case Some(text) => Some(Opening(o) + text + Closing(o))
  }

  lemma {:induction false} EntriesGrow(g: Graph, id: nat, m: nat, n: nat, outer: set<nat>, ancestors: set<nat>,
      compact: nat)
    requires Closed(g) && id in g && m <= n <= |g[id].entries|
    ensures var a, b :=
        EntriesText(g, id, m, outer, ancestors, compact), EntriesText(g, id, n, outer, ancestors, compact);
            b.Some? ==> a.Some? && |a.value| <= |b.value|
    decreases n - m
  {
    if m < n {
      EntriesGrow(g, id, m, n - 1, outer, ancestors, compact);
    }
  }

  // ----- the text reads back -----

  /** The object graph as a tree, cut off where it is cyclic, with the visible entries only. */
  ghost function TreeOf(g: Graph, v: Value, outer: set<nat>, ancestors: set<nat>): Tree
    requires Closed(g) && (v.Ref? ==> v.id in g)
    decreases Left(g, ancestors), 0, 0
  {
    match v
    case Plain(text) => Leaf(text)
    case Throws => Leaf([])
    case Ref(id) =>
      if id in outer || id in ancestors then Leaf(LOOPING)
      else
        LessLeft(g, ancestors, id);
        ObjectTree(g, id, outer, ancestors + {id})
  }

  ghost function ItemsFrom(g: Graph, id: nat, i: nat, outer: set<nat>, ancestors: set<nat>): seq<Tree>
    requires Closed(g) && id in g && i <= |g[id].entries|
    decreases Left(g, ancestors), 1, |g[id].entries| - i
  {
    if i == |g[id].entries| then []
    else if g[id].entries[i].hidden then ItemsFrom(g, id, i + 1, outer, ancestors)
    else [TreeOf(g, g[id].entries[i].value, outer, ancestors)] + ItemsFrom(g, id, i + 1, outer, ancestors)
  }

  /** The keys of the visible entries of an object, each with a colon and a blank. */
  function KeysFrom(o: Obj, i: nat): seq<bytes>
    requires i <= |o.entries|
    decreases |o.entries| - i
  {
    if i == |o.entries| || o.isArray then []
    else if o.entries[i].hidden then KeysFrom(o, i + 1)
    else [o.entries[i].key + [0x3A, 0x20]] + KeysFrom(o, i + 1)
  }

  ghost function ObjectTree(g: Graph, id: nat, outer: set<nat>, ancestors: set<nat>): Tree
    requires Closed(g) && id in g
    decreases Left(g, ancestors), 2, 0
  {
    Box(g[id].isArray, KeysFrom(g[id], 0), ItemsFrom(g, id, 0, outer, ancestors))
  }

  /** What prints itself is a word, and so is a key with its colon. */
  ghost predicate Legible(g: Graph) {
    forall id, i :: id in g && 0 <= i < |g[id].entries| && !g[id].entries[i].hidden ==>
      && (g[id].entries[i].value.Plain? ==> Word(g[id].entries[i].value.text))
      && (!g[id].isArray ==> Word(g[id].entries[i].key + [0x3A]))
  }

  /** The text of the entries from i on. */
  ghost function TextFrom(g: Graph, id: nat, i: nat, outer: set<nat>, ancestors: set<nat>, compact: nat): bytes
    requires Closed(g) && id in g && i <= |g[id].entries|
    requires EntriesText(g, id, |g[id].entries|, outer, ancestors, compact).Some?
  {
    EntriesGrow(g, id, i, |g[id].entries|, outer, ancestors, compact);
    EntriesText(g, id, |g[id].entries|, outer, ancestors, compact).value[
      |EntriesText(g, id, i, outer, ancestors, compact).value|..]
  }

  lemma {:induction false} EntriesPrefix(g: Graph, id: nat, m: nat, n: nat, outer: set<nat>, ancestors: set<nat>,
      compact: nat)
    requires Closed(g) && id in g && m <= n <= |g[id].entries|
    requires EntriesText(g, id, n, outer, ancestors, compact).Some?
    ensures EntriesText(g, id, m, outer, ancestors, compact).Some?
    ensures EntriesText(g, id, m, outer, ancestors, compact).value
         <= EntriesText(g, id, n, outer, ancestors, compact).value
    decreases n - m
  {
    if m < n {
      EntriesPrefix(g, id, m, n - 1, outer, ancestors, compact);
    }
  }

  lemma TextFromNext(g: Graph, id: nat, i: nat, outer: set<nat>, ancestors: set<nat>, compact: nat)
    requires Closed(g) && id in g && i < |g[id].entries|
    requires EntriesText(g, id, |g[id].entries|, outer, ancestors, compact).Some?
    ensures var e, more := g[id].entries[i], TextFrom(g, id, i + 1, outer, ancestors, compact);
            var value := ValueText(g, e.value, outer, ancestors, compact);
            && (e.hidden ==> TextFrom(g, id, i, outer, ancestors, compact) == more)
            && (!e.hidden ==> value.Some?)
            && (!e.hidden ==>
                  TextFrom(g, id, i, outer, ancestors, compact) == Before(g[id], i) + value.value + more)
  {
    var n := |g[id].entries|;
    EntriesPrefix(g, id, i, n, outer, ancestors, compact);
    EntriesPrefix(g, id, i + 1, n, outer, ancestors, compact);
    var all, to, next := EntriesText(g, id, n, outer, ancestors, compact).value,
                         EntriesText(g, id, i, outer, ancestors, compact).value,
                         EntriesText(g, id, i + 1, outer, ancestors, compact).value;
    if !g[id].entries[i].hidden {
      var value := ValueText(g, g[id].entries[i].value, outer, ancestors, compact).value;
      hide EntriesText, ValueText, Before;
      SplitOff(all, to, Before(g[id], i), value);
    }
  }

  lemma SplitOff(all: bytes, to: bytes, lead: bytes, value: bytes)
    requires to + lead + value <= all
    ensures all[|to|..] == lead + value + all[|to + lead + value|..]
  {
    assert all == to + lead + value + all[|to + lead + value|..];
  }

  /** Behind the first visible entry there is a comma, or the blank before the closing bracket. */
  lemma {:induction false} MoreStops(g: Graph, id: nat, i: nat, outer: set<nat>, ancestors: set<nat>, compact: nat,
                                     rest: bytes)
    requires Closed(g) && id in g && i <= |g[id].entries| && Count(g[id].entries, i) > 0
    requires EntriesText(g, id, |g[id].entries|, outer, ancestors, compact).Some?
    ensures Stops(TextFrom(g, id, i, outer, ancestors, compact) + (Closing(g[id]) + rest))
    decreases |g[id].entries| - i
  {
    var text := TextFrom(g, id, i, outer, ancestors, compact);
    if i == |g[id].entries| {
      assert text == [] && text + (Closing(g[id]) + rest) == Closing(g[id]) + rest;
    } else {
      TextFromNext(g, id, i, outer, ancestors, compact);
      hide EntriesText, ValueText, TextFrom;
      if g[id].entries[i].hidden {
        MoreStops(g, id, i + 1, outer, ancestors, compact, rest);
      } else {
        assert Before(g[id], i)[0] == 0x2C;
        assert text[0] == 0x2C;
      }
    }
  }

  lemma ValueReads(g: Graph, v: Value, outer: set<nat>, ancestors: set<nat>, compact: nat, d: nat, rest: bytes)
    requires Closed(g) && Legible(g) && (v.Ref? ==> v.id in g) && (v.Plain? ==> Word(v.text)) && Stops(rest)
    requires ValueText(g, v, outer, ancestors, compact).Some?
    ensures ReadValue(ValueText(g, v, outer, ancestors, compact).value + rest, d)
         == Some((TreeOf(g, v, outer, ancestors), rest))
    decreases Left(g, ancestors), 0, 0
  {
    match v
    case Plain(text) => ReadsWord(text, d, rest);
    case Throws =>
    case Ref(id) =>
      if id in outer || id in ancestors {
        var t := LOOP + rest;
        assert t[..6] == LOOPING && t[6..] == rest;
      } else {
        LessLeft(g, ancestors, id);
        ObjectReads(g, id, outer, ancestors + {id}, compact, d, rest);
      }
  }

  /** The line of an eligible object is read back to its tree, whatever follows it. */
  lemma ObjectReads(g: Graph, id: nat, outer: set<nat>, ancestors: set<nat>, compact: nat, d: nat, rest: bytes)
    requires Closed(g) && Legible(g) && id in g && Stops(rest)
    requires ObjectText(g, id, outer, ancestors, compact).Some?
    ensures ReadValue(ObjectText(g, id, outer, ancestors, compact).value + rest, d)
         == Some((ObjectTree(g, id, outer, ancestors), rest))
    decreases Left(g, ancestors), 2, 0
  {
    var o := g[id];
    var body := TextFrom(g, id, 0, outer, ancestors, compact);
    WholeIsText(g, id, outer, ancestors, compact);
    assert Count(o.entries, 0) == 0;
    EntriesRead(g, id, 0, outer, ancestors, compact, d, rest);
    hide EntriesText, TextFrom, ObjectText, ItemsFrom, KeysFrom, ReadItems, ReadValue, Count;
    BracketReads(o, d, body, KeysFrom(o, 0), ItemsFrom(g, id, 0, outer, ancestors), rest);
  }

  lemma WholeIsText(g: Graph, id: nat, outer: set<nat>, ancestors: set<nat>, compact: nat)
    requires Closed(g) && id in g && ObjectText(g, id, outer, ancestors, compact).Some?
    ensures EntriesText(g, id, |g[id].entries|, outer, ancestors, compact).Some?
    ensures Count(g[id].entries, |g[id].entries|) > 0
    ensures ObjectText(g, id, outer, ancestors, compact).value
         == Opening(g[id]) + TextFrom(g, id, 0, outer, ancestors, compact) + Closing(g[id])
  {
    assert EntriesText(g, id, 0, outer, ancestors, compact) == Some([]);
  }

  lemma BracketReads(o: Obj, d: nat, body: bytes, keys: seq<bytes>, items: seq<Tree>, rest: bytes)
    requires ReadItems(o.isArray, d, true, [0x20] + (body + (Closing(o) + rest))) == Some((keys, items, rest))
    ensures ReadValue(Opening(o) + body + Closing(o) + rest, d) == Some((Box(o.isArray, keys, items), rest))
  {
    hide ReadItems;
    var text := Opening(o) + body + Closing(o) + rest;
    assert text[0] == Opening(o)[0] && text[1] == 0x20;
    assert text[1..] == [0x20] + (body + (Closing(o) + rest));
    assert LOOPING[1] == 0x6C && !(LOOPING <= text);
  }

  /** Read on from behind the opening bracket and its blank, or from behind an entry. */
  ghost predicate ReadOn(o: Obj, d: nat, first: bool, text: bytes, keys: seq<bytes>, items: seq<Tree>, rest: bytes) {
    ReadItems(o.isArray, d, first, (if first then [0x20] else []) + text) == Some((keys, items, rest))
  }

  /** What follows the opening bracket, or some visible entry, reads as the entries that are left. */
  lemma EntriesRead(g: Graph, id: nat, i: nat, outer: set<nat>, ancestors: set<nat>, compact: nat, d: nat, rest: bytes)
    requires Closed(g) && Legible(g) && id in g && i <= |g[id].entries| && Stops(rest)
    requires EntriesText(g, id, |g[id].entries|, outer, ancestors, compact).Some?
    requires Count(g[id].entries, |g[id].entries|) > 0
    ensures var o := g[id];
            ReadOn(o, d, Count(o.entries, i) == 0, TextFrom(g, id, i, outer, ancestors, compact) + (Closing(o) + rest),
                   KeysFrom(o, i), ItemsFrom(g, id, i, outer, ancestors), rest)
    decreases Left(g, ancestors), 1, |g[id].entries| - i
  {
    hide ReadOn, EntriesText, ValueText, TreeOf, ReadItems, ReadValue, Before, Closing, ObjectText;
    var o := g[id];
    if i == |o.entries| {
      NothingFrom(g, id, outer, ancestors, compact);
      EndReads(o, d, rest);
    } else {
      hide TextFrom;
      TextFromNext(g, id, i, outer, ancestors, compact);
      EntriesRead(g, id, i + 1, outer, ancestors, compact, d, rest);
      if !o.entries[i].hidden {
        var v, more := o.entries[i].value, TextFrom(g, id, i + 1, outer, ancestors, compact) + (Closing(o) + rest);
        MoreStops(g, id, i + 1, outer, ancestors, compact, rest);
        LegibleEntry(g, id, i);
        ValueReads(g, v, outer, ancestors, compact, d + 1, more);
        var value := ValueText(g, v, outer, ancestors, compact).value;
        EntryReads(o, i, d, value, TreeOf(g, v, outer, ancestors), more, KeysFrom(o, i + 1),
                   ItemsFrom(g, id, i + 1, outer, ancestors), rest);
        FourPieces(Before(o, i), value, TextFrom(g, id, i + 1, outer, ancestors, compact), Closing(o), rest);
      }
    }
  }

  lemma FourPieces(a: bytes, b: bytes, c: bytes, d: bytes, e: bytes)
    ensures a + b + c + (d + e) == a + (b + (c + (d + e)))
  {
    Assoc(a, b, c + (d + e));
    Assoc(a + b, c, d + e);
  }

  lemma LegibleEntry(g: Graph, id: nat, i: nat)
    requires Closed(g) && Legible(g) && id in g && i < |g[id].entries| && !g[id].entries[i].hidden
    ensures var e := g[id].entries[i];
            && (e.value.Ref? ==> e.value.id in g) && (e.value.Plain? ==> Word(e.value.text))
            && (!g[id].isArray ==> Word(e.key + [0x3A]))
  {
  }

  lemma NothingFrom(g: Graph, id: nat, outer: set<nat>, ancestors: set<nat>, compact: nat)
    requires Closed(g) && id in g && EntriesText(g, id, |g[id].entries|, outer, ancestors, compact).Some?
    ensures TextFrom(g, id, |g[id].entries|, outer, ancestors, compact) == []
  {
  }

  lemma EndReads(o: Obj, d: nat, rest: bytes)
    ensures ReadOn(o, d, false, [] + (Closing(o) + rest), [], [], rest)
  {
    var t := Closing(o) + rest;
    assert [] + ([] + t) == t;
    assert t[0] == 0x20 && t[1..] == Closing(o)[1..] + rest;
    assert (Closing(o)[1..] + rest)[1..] == rest;
  }

  lemma BlankIsPassed(body: bytes, n: nat)
    ensures Gap([0x20] + body, n) == Some(body) && ([0x20] + body)[0] == 0x20
  {
    assert ([0x20] + body)[1..] == body;
  }

  lemma EntryReads(o: Obj, i: nat, d: nat, value: bytes, item: Tree, more: bytes, keys: seq<bytes>, items: seq<Tree>,
                   rest: bytes)
    requires i < |o.entries| && (!o.isArray ==> Word(o.entries[i].key + [0x3A]))
    requires ReadValue(value + more, d + 1) == Some((item, more))
    requires ReadOn(o, d, false, more, keys, items, rest) && (o.isArray ==> keys == [])
    ensures ReadOn(o, d, Count(o.entries, i) == 0, Before(o, i) + (value + more),
                   if o.isArray then [] else [o.entries[i].key + [0x3A, 0x20]] + keys, [item] + items, rest)
  {
    assert [] + more == more;
    assert o.isArray ==> [] + keys == [];
    hide ReadItems, ReadItem, ReadValue, Word, Gap, Count;
    var key := if o.isArray then [] else o.entries[i].key + [0x3A, 0x20];
    if !o.isArray { KeyIsLabel(o, i); }
    ReadsPair(o.isArray, d, key, value + more, item, more, keys, items, rest);
    var body := key + (value + more);
    BlankIsPassed(body, d + 1);
    BeforeParts(o, i, value + more);
    if Count(o.entries, i) == 0 {
      FirstStarts(o.isArray, d, [0x20] + body, body);
    } else {
      NextStarts(o.isArray, d, [0x20] + body, body);
    }
  }

  lemma KeyIsLabel(o: Obj, i: nat)
    requires i < |o.entries| && Word(o.entries[i].key + [0x3A])
    ensures Label(o.entries[i].key + [0x3A, 0x20])
  {
    var key := o.entries[i].key + [0x3A, 0x20];
    assert key[..|key| - 1] == o.entries[i].key + [0x3A];
  }

  lemma BeforeParts(o: Obj, i: nat, t: bytes)
    requires i < |o.entries|
    ensures var first, key := Count(o.entries, i) == 0, if o.isArray then [] else o.entries[i].key + [0x3A, 0x20];
            (if first then [0x20] else []) + (Before(o, i) + t)
            == (if first then [] else [0x2C]) + ([0x20] + (key + t))
    ensures var key := if o.isArray then [] else o.entries[i].key + [0x3A, 0x20];
            [] + ([0x20] + (key + t)) == [0x20] + (key + t)
  {
    var first, key := Count(o.entries, i) == 0, if o.isArray then [] else o.entries[i].key + [0x3A, 0x20];
    assert Before(o, i) == (if first then [] else [0x2C, 0x20]) + key;
    hide Before, Count;
    assert [] + key == key && [] + ([0x20] + (key + t)) == [0x20] + (key + t);
    if !first {
      Assoc([0x2C, 0x20], key, t);
      Assoc([0x2C], [0x20], key + t);
      assert [0x2C] + [0x20] == [0x2C, 0x20];
      assert [] + ([0x2C, 0x20] + (key + t)) == [0x2C, 0x20] + (key + t);
    }
  }

  // ----- the code -----

  class DynBuf {
    var text: bytes

    constructor ()
      ensures text == []
    {
      text := [];
    }

    method Puts(s: bytes)
      modifies this
      ensures text == old(text) + s
    {
      text := text + s;
    }
  }

  /** compact_ancestor_has: walks the chain of ancestors. */
  method AncestorHas(ancestors: seq<nat>, id: nat) returns (has: bool)
    ensures has <==> id in ancestors
  {
    for i := 0 to |ancestors|
      invariant id !in ancestors[..i]
    {
      if ancestors[i] == id {
        return true;
      }
      assert ancestors[..i + 1] == ancestors[..i] + [ancestors[i]];
    }
    assert ancestors[..|ancestors|] == ancestors;
    return false;
  }

  /** The text fits if it stays within the limit but for its closing bracket. */
  ghost predicate Fits(already: nat, text: Option<bytes>, limit: nat) {
    text.Some? && already + |text.value| <= limit + 2
  }

  /** inspect_compact_value. */
  method CompactValue(g: Graph, v: Value, outer: set<nat>, ancestors: seq<nat>, compact: nat, limit: nat, out: DynBuf)
    returns (ok: bool)
    requires Closed(g) && (v.Ref? ==> v.id in g)
    modifies out
    ensures var text := ValueText(g, v, outer, Elements(ancestors), compact);
            && (ok ==> text.Some? && out.text == old(out.text) + text.value)
            && (!ok ==> text.None? || |old(out.text)| + |text.value| > limit)
    decreases Left(g, Elements(ancestors)), 0
  {
    match v
    case Plain(text) =>
      out.Puts(text);
      return true;
    case Throws =>
      return false;
    case Ref(id) =>
      var loop := AncestorHas(ancestors, id);
      if id in outer || loop {
        out.Puts(LOOP);
        return true;
      }
      LessLeft(g, Elements(ancestors), id);
      assert Elements([id] + ancestors) == Elements(ancestors) + {id};
      ok := CompactObject(g, id, outer, [id] + ancestors, compact, limit, out);
  }

  /**
   inspect_compact_object: succeeds exactly if the object is eligible and its text, but for the
   closing bracket, stays within break_length.
   */
  method CompactObject(g: Graph, id: nat, outer: set<nat>, ancestors: seq<nat>, compact: nat, limit: nat, out: DynBuf)
    returns (ok: bool)
    requires Closed(g) && id in g
    modifies out
    ensures var text := ObjectText(g, id, outer, Elements(ancestors), compact);
            && (ok <==> Fits(|old(out.text)|, text, limit))
            && (ok ==> out.text == old(out.text) + text.value)
    decreases Left(g, Elements(ancestors)), 1
  {
    var o := g[id];
    var count := Count(o.entries, |o.entries|);
    if count == 0 || count > compact {
      return false;
    }
    ghost var A := Elements(ancestors);
    ghost var start := out.text;
    out.Puts(Opening(o));
    var first := true;
    hide Before, Opening, Closing, Elements;
    for i := 0 to |o.entries|
      invariant EntriesText(g, id, i, outer, A, compact).Some?
      invariant out.text == start + Opening(o) + EntriesText(g, id, i, outer, A, compact).value
      invariant first <==> Count(o.entries, i) == 0
      invariant first || |out.text| <= limit
    {
      var e := o.entries[i];
      if e.hidden {
        continue;
      }
      ghost var body := EntriesText(g, id, i, outer, A, compact).value;
      PutLead(o, i, first, out);
      first := false;
      ok := CompactValue(g, e.value, outer, ancestors, compact, limit, out);
      ghost var value := ValueText(g, e.value, outer, A, compact);
      EntriesGrow(g, id, i + 1, |o.entries|, outer, A, compact);
      if value.Some? { Regroup(start + Opening(o), body, Before(o, i), value.value); }
      if !ok || |out.text| > limit {
        TooLong(g, id, i, outer, A, compact, limit, |start|);
        return false;
      }
    }
    out.Puts(Closing(o));
    Assoc(start, Opening(o), EntriesText(g, id, |o.entries|, outer, A, compact).value);
    Assoc(start, Opening(o) + EntriesText(g, id, |o.entries|, outer, A, compact).value, Closing(o));
    BracketsAreTwo(o);
    ok := true;
  }

  lemma BracketsAreTwo(o: Obj)
    ensures |Opening(o)| == 2 && |Closing(o)| == 2
  {
  }

  /** Once a prefix with its opening bracket is too long, so is the whole. */
  lemma TooLong(g: Graph, id: nat, i: nat, outer: set<nat>, ancestors: set<nat>, compact: nat, limit: nat, already: nat)
    requires Closed(g) && id in g && i < |g[id].entries|
    requires var text := EntriesText(g, id, i + 1, outer, ancestors, compact);
             text.None? || already + 2 + |text.value| > limit
    ensures !Fits(already, ObjectText(g, id, outer, ancestors, compact), limit)
  {
    EntriesGrow(g, id, i + 1, |g[id].entries|, outer, ancestors, compact);
  }

  /** What precedes a value: a comma unless it is the first, and the key in an object. */
  method PutLead(o: Obj, i: nat, first: bool, out: DynBuf)
    requires i < |o.entries| && (first <==> Count(o.entries, i) == 0)
    modifies out
    ensures out.text == old(out.text) + Before(o, i)
  {
    if !first {
      out.Puts([COMMA, SPACE]);
    }
    if !o.isArray {
      out.Puts(o.entries[i].key + [COLON, SPACE]);
    }
  }

  /** How inspect_recursive asks for one line: the object is its own only ancestor and the buffer is fresh. */
  method OneLine(g: Graph, id: nat, outer: set<nat>, compact: nat, limit: nat) returns (line: Option<bytes>)
    requires Closed(g) && id in g
    ensures var text := ObjectText(g, id, outer, {id}, compact);
            line == if text.Some? && |text.value| <= limit + 2 then text else None
    ensures Legible(g) && line.Some? ==> ReadsAs(line.value, ObjectTree(g, id, outer, {id}))
  {
    var out := new DynBuf();
    assert Elements([id]) == {id};
    var ok := CompactObject(g, id, outer, [id], compact, limit, out);
    ghost var text := ObjectText(g, id, outer, {id}, compact);
    assert text.Some? ==> [] + text.value == text.value;
    line := if ok then Some(out.text) else None;
    if Legible(g) && ok {
      ObjectReads(g, id, outer, {id}, compact, 0, []);
      assert text.value + [] == text.value;
    }
  }

  /** { a: 1 } */
  const SMALL: Graph := map[0 := Obj(false, [Entry(false, [0x61], Plain([0x31]))])]

  /** The closing bracket is not counted: eight bytes pass a limit of six. */
  lemma LimitCanBeExceeded()
    ensures var text := ObjectText(SMALL, 0, {}, {0}, 1);
            text.Some? && |text.value| == 8 && Fits(0, text, 6) && !Fits(0, text, 5)
  {
    var o := SMALL[0];
    assert Count(o.entries, 1) == 1 by { assert Count(o.entries, 0) == 0; }
    SmallEntries();
    assert ObjectText(SMALL, 0, {}, {0}, 1) == Some(Opening(o) + (Before(o, 0) + [0x31]) + Closing(o));
  }

  lemma SmallEntries()
    ensures |Before(SMALL[0], 0)| == 3
    ensures EntriesText(SMALL, 0, 1, {}, {0}, 1) == Some(Before(SMALL[0], 0) + [0x31])
  {
    var o := SMALL[0];
    assert Count(o.entries, 0) == 0;
    assert EntriesText(SMALL, 0, 0, {}, {0}, 1) == Some([]);
    assert ValueText(SMALL, o.entries[0].value, {}, {0}, 1) == Some([0x31]);
    assert [] + Before(o, 0) == Before(o, 0);
  }
}
