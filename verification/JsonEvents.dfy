/**
 JSON as a stream of events, and the values and texts that a stream stands for. JsonWriter and
 prettyPrint consume such streams one event at a time; what they have to produce is stated here
 for an assembler that keeps the values completed so far and the containers still open.
 */
module JsonEvents {
  import opened JsonValue

  datatype Event = ObjectStart | ObjectEnd | ArrayStart | ArrayEnd | Key(name: bytes) | Value(v: Json)

  /** The events of a value, in document order. */
  function Events(v: Json): seq<Event>
    decreases v, 1, 0
  {
    if Container(v) then
      [if v.Array? then ArrayStart else ObjectStart] + EntryEvents(v, 0) + [if v.Array? then ArrayEnd else ObjectEnd]
    else [Value(v)]
  }

  function EntryEvents(v: Json, i: nat): seq<Event>
    requires Container(v) && i <= |v.items|
    decreases v, 0, |v.items| - i
  {
    if i == |v.items| then []
    else (if v.Object? then [Key(KeyAt(v, i))] else []) + Events(v.items[i]) + EntryEvents(v, i + 1)
  }

  // ----- the assembler -----

  /** A container that has been started: an object awaits a value when it has one key more than items. */
  datatype Part = Part(isObject: bool, keys: seq<bytes>, items: seq<Json>)

  datatype Assembly = Assembly(roots: seq<Json>, open: seq<Part>)

  predicate PartShape(p: Part) {
    if p.isObject then |p.items| <= |p.keys| <= |p.items| + 1 else p.keys == []
  }

  ghost predicate PartOk(p: Part) {
    PartShape(p) && forall i :: 0 <= i < |p.items| ==> Shaped(p.items[i])
  }

  predicate Awaiting(p: Part) {
    p.isObject && |p.keys| > |p.items|
  }

  /** All is consistent, and only the innermost part of an array, or an awaiting object, holds a further part. */
  ghost predicate AssemblyOk(s: Assembly) {
    && (forall k :: 0 <= k < |s.roots| ==> Shaped(s.roots[k]))
    && (forall k :: 0 <= k < |s.open| ==> PartOk(s.open[k]))
    && (forall k :: 0 <= k < |s.open| - 1 ==> s.open[k].isObject ==> Awaiting(s.open[k]))
  }

  function Top(s: Assembly): Part
    requires s.open != []
  {
    s.open[|s.open| - 1]
  }

  /** A value may come next. */
  predicate Ready(s: Assembly) {
    s.open == [] || !Top(s).isObject || Awaiting(Top(s))
  }

  predicate Accepts(s: Assembly, e: Event) {
    match e
    case ObjectStart => Ready(s)
    case ArrayStart => Ready(s)
    case Value(v) => Ready(s) && !Container(v)
    case Key(_) => s.open != [] && Top(s).isObject && !Awaiting(Top(s))
    case ObjectEnd => s.open != [] && Top(s).isObject && !Awaiting(Top(s))
    case ArrayEnd => s.open != [] && !Top(s).isObject
  }

  function Completed(p: Part): Json {
    if p.isObject then Object(p.keys, p.items) else Array(p.items)
  }

  function SetTop(s: Assembly, p: Part): Assembly
    requires s.open != []
  {
    s.(open := s.open[..|s.open| - 1] + [p])
  }

  /** A completed value goes to the innermost open container, or becomes a root. */
  function Add(s: Assembly, v: Json): Assembly {
    if s.open == [] then s.(roots := s.roots + [v])
    else SetTop(s, Top(s).(items := Top(s).items + [v]))
  }

  function Step(s: Assembly, e: Event): Assembly
    requires Accepts(s, e)
  {
    match e
    case ObjectStart => s.(open := s.open + [Part(true, [], [])])
    case ArrayStart => s.(open := s.open + [Part(false, [], [])])
    case Value(v) => Add(s, v)
    case Key(k) => SetTop(s, Top(s).(keys := Top(s).keys + [k]))
    case _ => Add(s.(open := s.open[..|s.open| - 1]), Completed(Top(s)))
  }

  /** The assembly after a stream in which events that are not acceptable are ignored. */
  function Assemble(s: Assembly, es: seq<Event>): Assembly
    decreases |es|
  {
    if es == [] then s
    else Assemble(if Accepts(s, es[0]) then Step(s, es[0]) else s, es[1..])
  }

  lemma {:induction false} AssembleConcat(s: Assembly, a: seq<Event>, b: seq<Event>)
    ensures Assemble(s, a + b) == Assemble(Assemble(s, a), b)
    decreases |a|
  {
    if a == [] {
      assert a + b == b;
    } else {
      assert (a + b)[1..] == a[1..] + b;
      AssembleConcat(if Accepts(s, a[0]) then Step(s, a[0]) else s, a[1..], b);
    }
  }

  /** No event of the stream is rejected. */
  predicate AcceptsAll(s: Assembly, es: seq<Event>)
    decreases |es|
  {
    es == [] || (Accepts(s, es[0]) && AcceptsAll(Step(s, es[0]), es[1..]))
  }

  lemma {:induction false} AcceptsConcat(s: Assembly, a: seq<Event>, b: seq<Event>)
    requires AcceptsAll(s, a) && AcceptsAll(Assemble(s, a), b)
    ensures AcceptsAll(s, a + b)
    decreases |a|
  {
    if a == [] {
      assert a + b == b;
    } else {
      assert (a + b)[1..] == a[1..] + b;
      AcceptsConcat(Step(s, a[0]), a[1..], b);
    }
  }

  lemma AssembleOne(s: Assembly, e: Event)
    ensures Assemble(s, [e]) == if Accepts(s, e) then Step(s, e) else s
    ensures AcceptsAll(s, [e]) <==> Accepts(s, e)
  {
    assert [e][1..] == [];
  }

  lemma StepOk(s: Assembly, e: Event)
    requires AssemblyOk(s) && Accepts(s, e)
    ensures AssemblyOk(Step(s, e))
  {
  }

  lemma {:induction false} AssembleOk(s: Assembly, es: seq<Event>)
    requires AssemblyOk(s)
    ensures AssemblyOk(Assemble(s, es))
    decreases |es|
  {
    if es != [] {
      if Accepts(s, es[0]) {
        StepOk(s, es[0]);
      }
      AssembleOk(if Accepts(s, es[0]) then Step(s, es[0]) else s, es[1..]);
    }
  }

  /** The part of container `v` that consists of its first `i` entries. */
  function PartOf(v: Json, i: nat): Part
    requires Container(v) && i <= |v.items| && (v.Object? ==> |v.keys| == |v.items|)
  {
    Part(v.Object?, if v.Object? then v.keys[..i] else [], v.items[..i])
  }

  /** The events of a value are accepted and assemble to that value, wherever a value may come. */
  lemma {:induction false} AssembleValue(s: Assembly, v: Json)
    requires Shaped(v) && Ready(s)
    ensures AcceptsAll(s, Events(v)) && Assemble(s, Events(v)) == Add(s, v)
    decreases v, 1, 0
  {
    if Container(v) {
      var open, close := if v.Array? then ArrayStart else ObjectStart, if v.Array? then ArrayEnd else ObjectEnd;
      var inner := s.(open := s.open + [PartOf(v, 0)]);
      assert Step(s, open) == inner;
      AssembleEntries(inner, v, 0);
      var full := SetTop(inner, PartOf(v, |v.items|));
      assert Completed(Top(full)) == v by {
        assert v.items[..|v.items|] == v.items;
        if v.Object? { assert v.keys[..|v.keys|] == v.keys; }
      }
      assert full.open[..|s.open|] == s.open;
      AssembleOne(full, close);
      AssembleOne(s, open);
      AssembleConcat(s, [open], EntryEvents(v, 0));
      AssembleConcat(s, [open] + EntryEvents(v, 0), [close]);
      AcceptsConcat(s, [open], EntryEvents(v, 0));
      AcceptsConcat(s, [open] + EntryEvents(v, 0), [close]);
    } else {
      AssembleOne(s, Value(v));
    }
  }

  lemma {:induction false} AssembleEntries(s: Assembly, v: Json, i: nat)
    requires Shaped(v) && Container(v) && i <= |v.items|
    requires s.open != [] && Top(s) == PartOf(v, i)
    ensures AcceptsAll(s, EntryEvents(v, i)) && Assemble(s, EntryEvents(v, i)) == SetTop(s, PartOf(v, |v.items|))
    decreases v, 0, |v.items| - i
  {
    if i == |v.items| {
      assert SetTop(s, Top(s)) == s;
    } else {
      hide Assemble, AcceptsAll;
      var key := if v.Object? then [Key(KeyAt(v, i))] else [];
      var keyed := Assemble(s, key);
      AssembleKey(s, v, i);
      AssembleValue(keyed, v.items[i]);
      var next := SetTop(s, PartOf(v, i + 1));
      EntryAdded(s, keyed, v, i);
      AssembleEntries(next, v, i + 1);
      AssembleThree(s, key, Events(v.items[i]), EntryEvents(v, i + 1));
      assert SetTop(next, PartOf(v, |v.items|)) == SetTop(s, PartOf(v, |v.items|));
    }
  }

  /** Adding an item to the first i entries of a container, its key included, gives the first i + 1. */
  lemma EntryAdded(s: Assembly, keyed: Assembly, v: Json, i: nat)
    requires Shaped(v) && Container(v) && i < |v.items| && s.open != []
    requires keyed == SetTop(s, Part(v.Object?, if v.Object? then v.keys[..i + 1] else [], v.items[..i]))
    ensures Add(keyed, v.items[i]) == SetTop(s, PartOf(v, i + 1))
  {
    assert v.items[..i + 1] == v.items[..i] + [v.items[i]];
  }

  lemma AssembleThree(s: Assembly, a: seq<Event>, b: seq<Event>, c: seq<Event>)
    requires AcceptsAll(s, a) && AcceptsAll(Assemble(s, a), b) && AcceptsAll(Assemble(Assemble(s, a), b), c)
    ensures AcceptsAll(s, a + b + c) && Assemble(s, a + b + c) == Assemble(Assemble(Assemble(s, a), b), c)
  {
    AssembleConcat(s, a, b);
    AssembleConcat(s, a + b, c);
    AcceptsConcat(s, a, b);
    AcceptsConcat(s, a + b, c);
  }

  lemma AssembleKey(s: Assembly, v: Json, i: nat)
    requires Shaped(v) && Container(v) && i < |v.items|
    requires s.open != [] && Top(s) == PartOf(v, i)
    ensures var keyed := Assemble(s, if v.Object? then [Key(KeyAt(v, i))] else []);
            && AcceptsAll(s, if v.Object? then [Key(KeyAt(v, i))] else [])
            && Ready(keyed)
            && keyed == SetTop(s, Part(v.Object?, if v.Object? then v.keys[..i + 1] else [], v.items[..i]))
  {
    if v.Object? {
      AssembleOne(s, Key(KeyAt(v, i)));
      assert v.keys[..i + 1] == v.keys[..i] + [v.keys[i]];
    } else {
      assert SetTop(s, Top(s)) == s;
    }
  }

  const EMPTY: Assembly := Assembly([], [])

  /** Scalars and containers of a stream hold only numbers of RFC 8259. */
  ghost predicate NumbersOkIn(es: seq<Event>) {
    forall i :: 0 <= i < |es| && es[i].Value? ==> NumbersOk(es[i].v)
  }

  ghost predicate AssemblyNumbersOk(s: Assembly) {
    && (forall k :: 0 <= k < |s.roots| ==> NumbersOk(s.roots[k]))
    && (forall k :: 0 <= k < |s.open| ==> PartNumbersOk(s.open[k]))
  }

  ghost predicate PartNumbersOk(p: Part) {
    forall i :: 0 <= i < |p.items| ==> NumbersOk(p.items[i])
  }

  lemma StepNumbersOk(s: Assembly, e: Event)
    requires Accepts(s, e) && AssemblyNumbersOk(s) && (e.Value? ==> NumbersOk(e.v))
    ensures AssemblyNumbersOk(Step(s, e))
  {
    if s.open != [] { assert PartNumbersOk(Top(s)); }
  }

  lemma {:induction false} AssembleNumbersOk(s: Assembly, es: seq<Event>)
    requires AssemblyNumbersOk(s) && NumbersOkIn(es)
    ensures AssemblyNumbersOk(Assemble(s, es))
    decreases |es|
  {
    if es != [] {
      if Accepts(s, es[0]) {
        StepNumbersOk(s, es[0]);
      }
      AssembleNumbersOk(if Accepts(s, es[0]) then Step(s, es[0]) else s, es[1..]);
    }
  }
}
