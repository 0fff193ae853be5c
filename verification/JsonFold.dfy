/**
 What JsonBuilder makes of a stream of events: trees in which a repeated key replaces the value of
 the first one, as setting a property does. A key counts up to its first NUL byte, because the
 builder keeps keys as C strings.
 */
module JsonFold {
  import opened JsonValue
  import opened JsonEvents
  import opened Sequences

  /** A key as a C string: it ends at the first NUL. */
  function CString(k: bytes): bytes {
    if k == [] || k[0] == 0 then [] else [k[0]] + CString(k[1..])
  }

  /** The key is read up to its first NUL, and to its end if it has none. */
  lemma {:induction false} CStringEndsAtNul(k: bytes)
    ensures CString(k) <= k && 0 !in CString(k)
    ensures if 0 in k then k[|CString(k)|..] != [] && k[|CString(k)|] == 0 else CString(k) == k
  {
    if k != [] && k[0] != 0 {
      CStringEndsAtNul(k[1..]);
      assert k == [k[0]] + k[1..];
    }
  }

  function IndexOf(keys: seq<bytes>, k: bytes): (i: nat)
    ensures i <= |keys| && (i < |keys| ==> keys[i] == k) && (i == |keys| ==> k !in keys)
  {
    if keys == [] || keys[0] == k then 0 else 1 + IndexOf(keys[1..], k)
  }

  lemma {:induction false} IndexOfUnique(keys: seq<bytes>, n: nat)
    requires n < |keys| && Distinct(keys)
    ensures IndexOf(keys, keys[n]) == n
  {
    var i := IndexOf(keys, keys[n]);
    assert keys[n] in keys;
    assert keys[i] == keys[n];
  }

  function PutKey(keys: seq<bytes>, k: bytes): seq<bytes> {
    if k in keys then keys else keys + [k]
  }

  function PutAt<T>(s: seq<T>, i: nat, x: T): (r: seq<T>)
    ensures |r| == if i < |s| then |s| else |s| + 1
  {
    if i < |s| then s[i := x] else s + [x]
  }

  lemma PutKeyFinds(keys: seq<bytes>, k: bytes)
    requires Distinct(keys)
    ensures Distinct(PutKey(keys, k)) && IndexOf(PutKey(keys, k), k) == IndexOf(keys, k) < |PutKey(keys, k)|
  {
    var all, i := PutKey(keys, k), IndexOf(keys, k);
    if k !in keys {
      forall a, b | 0 <= a < b < |all| ensures all[a] != all[b] {
        if b == |keys| { assert keys[a] in keys; }
      }
    }
    assert all[i] == k;
    IndexOfUnique(all, i);
  }

  // ----- the assembler -----

  /** A container being filled; in an object, `key` is the key whose value is due. */
  datatype Growing = Growing(isObject: bool, keys: seq<bytes>, items: seq<Json>, key: Option<bytes>)

  datatype Fold = Fold(roots: seq<Json>, open: seq<Growing>)

  const NOTHING: Fold := Fold([], [])

  ghost predicate GrowingOk(g: Growing) {
    if g.isObject then |g.keys| == |g.items| && Distinct(g.keys) else g.keys == [] && g.key == None
  }

  /** A value may come next in this container. */
  predicate Due(g: Growing) {
    g.isObject ==> g.key.Some?
  }

  ghost predicate FoldOk(d: Fold) {
    && (forall k :: 0 <= k < |d.open| ==> GrowingOk(d.open[k]))
    && (forall k :: 0 <= k < |d.open| - 1 ==> Due(d.open[k]))
  }

  function Inner(d: Fold): Growing
    requires d.open != []
  {
    d.open[|d.open| - 1]
  }

  predicate ValueDue(d: Fold) {
    d.open == [] || Due(Inner(d))
  }

  predicate Takes(d: Fold, e: Event) {
    match e
    case ObjectStart => ValueDue(d)
    case ArrayStart => ValueDue(d)
    case Value(v) => ValueDue(d) && !Container(v)
    case Key(_) => d.open != [] && Inner(d).isObject && Inner(d).key.None?
    case ObjectEnd => d.open != [] && Inner(d).isObject && Inner(d).key.None?
    case ArrayEnd => d.open != [] && !Inner(d).isObject
  }

  /** Where the next value of a container goes. */
  function Slot(g: Growing): nat {
    if g.isObject && g.key.Some? then IndexOf(g.keys, g.key.value) else |g.items|
  }

  /** The container with a value in that place: a repeated key keeps its place and gets the new value. */
  function Put(g: Growing, v: Json): Growing {
    if !g.isObject then g.(items := g.items + [v])
    else if g.key.None? then g
    else g.(keys := PutKey(g.keys, g.key.value), items := PutAt(g.items, Slot(g), v), key := None)
  }

  function Tree(g: Growing): Json {
    if g.isObject then Object(g.keys, g.items) else Array(g.items)
  }

  function WithInner(d: Fold, g: Growing): Fold
    requires d.open != []
  {
    d.(open := d.open[..|d.open| - 1] + [g])
  }

  function AddValue(d: Fold, v: Json): Fold {
    if d.open == [] then d.(roots := d.roots + [v]) else WithInner(d, Put(Inner(d), v))
  }

  function Taken(d: Fold, e: Event): Fold
    requires Takes(d, e)
  {
    match e
    case ObjectStart => d.(open := d.open + [Growing(true, [], [], None)])
    case ArrayStart => d.(open := d.open + [Growing(false, [], [], None)])
    case Value(v) => AddValue(d, v)
    case Key(k) => WithInner(d, Inner(d).(key := Some(CString(k))))
    case _ => AddValue(d.(open := d.open[..|d.open| - 1]), Tree(Inner(d)))
  }

  predicate TakesAll(d: Fold, es: seq<Event>)
    decreases |es|
  {
    es == [] || (Takes(d, es[0]) && TakesAll(Taken(d, es[0]), es[1..]))
  }

  function TakenAll(d: Fold, es: seq<Event>): Fold
    requires TakesAll(d, es)
    decreases |es|
  {
    if es == [] then d else TakenAll(Taken(d, es[0]), es[1..])
  }

  lemma PutOk(g: Growing, v: Json)
    requires GrowingOk(g) && Due(g)
    ensures GrowingOk(Put(g, v))
  {
    if g.isObject { PutKeyFinds(g.keys, g.key.value); }
  }

  lemma TakenOk(d: Fold, e: Event)
    requires FoldOk(d) && Takes(d, e)
    ensures FoldOk(Taken(d, e))
  {
    hide Put, CString;
    if !e.Key? && !e.ObjectStart? && !e.ArrayStart? {
      var n := if e.Value? then |d.open| else |d.open| - 1;
      if n > 0 {
        var v := if e.Value? then e.v else Tree(Inner(d));
        PutOk(d.open[n - 1], v);
      }
    }
  }

  // ----- it takes what the writers accept -----

  /** Both assemblers have the same containers open and are due the same. */
  ghost predicate Alike(d: Fold, s: Assembly)
    ensures Alike(d, s) ==> |d.open| == |s.open|
  {
    && |d.open| == |s.open|
    && forall k :: 0 <= k < |d.open| ==>
        d.open[k].isObject == s.open[k].isObject && (d.open[k].key.Some? <==> Awaiting(s.open[k]))
  }

  lemma StartsAlike()
    ensures FoldOk(NOTHING) && AssemblyOk(EMPTY) && Alike(NOTHING, EMPTY)
  {
  }

  lemma AlikeTakes(d: Fold, s: Assembly, e: Event)
    requires FoldOk(d) && AssemblyOk(s) && Alike(d, s)
    ensures Takes(d, e) <==> Accepts(s, e)
    ensures Takes(d, e) ==> Alike(Taken(d, e), Step(s, e))
  {
    hide Shaped, CString, PutKey, PutAt, IndexOf;
  }

  lemma {:induction false} AcceptedIsTaken(d: Fold, s: Assembly, es: seq<Event>)
    requires FoldOk(d) && AssemblyOk(s) && Alike(d, s)
    ensures AcceptsAll(s, es) <==> TakesAll(d, es)
    decreases |es|
  {
    hide FoldOk, AssemblyOk, Alike, Taken, Step;
    if es != [] {
      AlikeTakes(d, s, es[0]);
      if Takes(d, es[0]) {
        TakenOk(d, es[0]);
        StepOk(s, es[0]);
        AcceptedIsTaken(Taken(d, es[0]), Step(s, es[0]), es[1..]);
      }
    }
  }

  lemma {:induction false} TakenConcat(d: Fold, a: seq<Event>, b: seq<Event>)
    requires TakesAll(d, a) && TakesAll(TakenAll(d, a), b)
    ensures TakesAll(d, a + b) && TakenAll(d, a + b) == TakenAll(TakenAll(d, a), b)
    decreases |a|
  {
    if a == [] {
      assert a + b == b;
    } else {
      assert (a + b)[1..] == a[1..] + b;
      TakenConcat(Taken(d, a[0]), a[1..], b);
    }
  }

  // ----- the events of a tree -----

  /** The container made of the first n entries of v. */
  function Gathered(v: Json, n: nat): Growing
    requires Container(v) && n <= |v.items|
    decreases v, 0, n
  {
    if n == 0 then Growing(v.Object?, [], [], None)
    else
      var g := Gathered(v, n - 1);
      Put(if v.Object? then g.(key := Some(CString(KeyAt(v, n - 1)))) else g, Seen(v.items[n - 1]))
  }

  /** What becomes of a tree: in every object the last value of a key stands in the place of its first. */
  function Seen(v: Json): Json
    decreases v, 1, 0
  {
    if Container(v) then Tree(Gathered(v, |v.items|)) else v
  }

  lemma TakenOne(d: Fold, e: Event)
    requires Takes(d, e)
    ensures TakesAll(d, [e]) && TakenAll(d, [e]) == Taken(d, e)
  {
    assert [e][1..] == [];
  }

  /** The events of any tree are taken wherever a value is due, and leave what the tree is seen as. */
  lemma {:induction false} TreeIsTaken(d: Fold, v: Json)
    requires ValueDue(d)
    ensures TakesAll(d, Events(v)) && TakenAll(d, Events(v)) == AddValue(d, Seen(v))
    decreases v, 1, 0
  {
    if Container(v) {
      hide TakesAll, TakenAll, Put, CString;
      var open, close := if v.Array? then ArrayStart else ObjectStart, if v.Array? then ArrayEnd else ObjectEnd;
      var inner := d.(open := d.open + [Gathered(v, 0)]);
      TakenOne(d, open);
      assert Taken(d, open) == inner;
      EntriesAreTaken(inner, v, 0);
      var full := WithInner(inner, Gathered(v, |v.items|));
      assert full.open == d.open + [Gathered(v, |v.items|)];
      GatheredKind(v, |v.items|);
      TakenOne(full, close);
      assert full.open[..|full.open| - 1] == d.open;
      TakenConcat(d, [open], EntryEvents(v, 0));
      TakenConcat(d, [open] + EntryEvents(v, 0), [close]);
    } else {
      TakenOne(d, Value(v));
    }
  }

  lemma {:induction false} GatheredKind(v: Json, n: nat)
    requires Container(v) && n <= |v.items|
    ensures Gathered(v, n).isObject == v.Object? && Gathered(v, n).key == None
    decreases n
  {
    if n > 0 { GatheredKind(v, n - 1); }
  }

  lemma {:induction false} EntriesAreTaken(d: Fold, v: Json, i: nat)
    requires Container(v) && i <= |v.items| && d.open != [] && Inner(d) == Gathered(v, i)
    ensures TakesAll(d, EntryEvents(v, i)) && TakenAll(d, EntryEvents(v, i)) == WithInner(d, Gathered(v, |v.items|))
    decreases v, 0, |v.items| - i
  {
    hide CString;
    if i == |v.items| {
      assert WithInner(d, Inner(d)) == d;
    } else {
      GatheredKind(v, i);
      var key := if v.Object? then [Key(KeyAt(v, i))] else [];
      var keyed := if v.Object? then WithInner(d, Inner(d).(key := Some(CString(KeyAt(v, i))))) else d;
      if v.Object? { TakenOne(d, Key(KeyAt(v, i))); }
      TreeIsTaken(keyed, v.items[i]);
      var next := AddValue(keyed, Seen(v.items[i]));
      assert next == WithInner(d, Gathered(v, i + 1));
      EntriesAreTaken(next, v, i + 1);
      TakenConcat(d, key, Events(v.items[i]));
      TakenConcat(d, key + Events(v.items[i]), EntryEvents(v, i + 1));
    }
  }

  /** Objects have distinct keys without NUL bytes, one for each item. */
  ghost predicate CleanTree(v: Json) {
    && (v.Object? ==>
          && |v.keys| == |v.items| && Distinct(v.keys)
          && (forall i :: 0 <= i < |v.keys| ==> 0 !in v.keys[i]))
    && (Container(v) ==> forall i :: 0 <= i < |v.items| ==> CleanTree(v.items[i]))
  }

  /** Such a tree is seen as it is. */
  lemma {:induction false} CleanTreeIsSeen(v: Json)
    requires CleanTree(v)
    ensures Seen(v) == v
    decreases v, 1, 0
  {
    if Container(v) {
      CleanTreeIsGathered(v, |v.items|);
      assert v.items[..|v.items|] == v.items;
      if v.Object? { assert v.keys[..|v.items|] == v.keys; }
    }
  }

  lemma {:induction false} CleanTreeIsGathered(v: Json, n: nat)
    requires Container(v) && CleanTree(v) && n <= |v.items|
    ensures Gathered(v, n) == Growing(v.Object?, if v.Object? then v.keys[..n] else [], v.items[..n], None)
    decreases v, 0, n
  {
    if n > 0 {
      CleanTreeIsGathered(v, n - 1);
      CleanTreeIsSeen(v.items[n - 1]);
      hide Seen, CleanTree, CString;
      assert v.items[..n] == v.items[..n - 1] + [v.items[n - 1]];
      if v.Object? {
        CStringEndsAtNul(v.keys[n - 1]);
        assert v.keys[n - 1] !in v.keys[..n - 1];
        assert v.keys[..n] == v.keys[..n - 1] + [v.keys[n - 1]];
      }
    }
  }

  // ----- addresses -----

  /** One component of a path. */
  datatype PathStep = KeyStep(k: bytes) | IndexStep(i: nat)

  /** The property of a container where its next value goes. */
  function NextStep(g: Growing): PathStep {
    if g.isObject then KeyStep(if g.key.Some? then g.key.value else []) else IndexStep(|g.items|)
  }

  function Steps(open: seq<Growing>): (path: seq<PathStep>)
    ensures |path| == |open|
    ensures forall k :: 0 <= k < |open| ==> path[k] == NextStep(open[k])
  {
    seq(|open|, k requires 0 <= k < |open| => NextStep(open[k]))
  }

  /** The address where the next value goes; if a key has to come first, the address of the innermost container. */
  function PathOf(d: Fold): seq<PathStep> {
    if ValueDue(d) then Steps(d.open) else Steps(d.open[..|d.open| - 1])
  }

  /** The tree under the root while containers are open: each of them is already a value of the one before it. */
  function Snapshot(open: seq<Growing>): Json
    requires open != []
    decreases |open|
  {
    if |open| == 1 then Tree(open[0]) else Tree(Put(open[0], Snapshot(open[1..])))
  }

  /** The value at an address of a tree, if there is one. */
  function Lookup(t: Json, path: seq<PathStep>): Option<Json>
    decreases |path|
  {
    if path == [] then Some(t)
    else
      match (t, path[0])
      case (Array(items), IndexStep(i)) => if i < |items| then Lookup(items[i], path[1..]) else None
      case (Object(keys, items), KeyStep(k)) =>
        var i := IndexOf(keys, k);
        if i < |keys| && i < |items| then Lookup(items[i], path[1..]) else None
      case _ => None
  }

  /** What a container holds where its next value goes, before and after the value is put there. */
  lemma NextOfGrowing(g: Growing, v: Json, rest: seq<PathStep>)
    requires GrowingOk(g) && Due(g)
    ensures Lookup(Tree(g), [NextStep(g)] + rest) == if Slot(g) < |g.items| then Lookup(g.items[Slot(g)], rest)
        else None
    ensures Lookup(Tree(Put(g, v)), [NextStep(g)] + rest) == Lookup(v, rest)
  {
    assert ([NextStep(g)] + rest)[1..] == rest;
    if g.isObject { PutKeyFinds(g.keys, g.key.value); }
  }

  lemma SnapshotParts(g: Growing, rest: seq<Growing>)
    requires rest != []
    ensures Snapshot([g] + rest) == Tree(Put(g, Snapshot(rest)))
  {
    assert ([g] + rest)[1..] == rest;
  }

  lemma StepsParts(g: Growing, rest: seq<Growing>)
    ensures Steps([g] + rest) == [NextStep(g)] + Steps(rest)
  {
  }

  lemma {:induction false} LookupInSnapshot(below: seq<Growing>, top: Growing, v: Json)
    requires forall k :: 0 <= k < |below| ==> GrowingOk(below[k]) && Due(below[k])
    requires GrowingOk(top) && Due(top)
    ensures Lookup(Snapshot(below + [top]), Steps(below + [top]))
         == if Slot(top) < |top.items| then Some(top.items[Slot(top)]) else None
    ensures Lookup(Snapshot(below + [Put(top, v)]), Steps(below + [top])) == Some(v)
    decreases |below|
  {
    hide GrowingOk, Put, Tree, NextStep, Slot;
    if below == [] {
      assert below + [top] == [top] && below + [Put(top, v)] == [Put(top, v)];
      StepsParts(top, []);
      NextOfGrowing(top, v, Steps([]));
    } else {
      var g, rest := below[0], below[1..];
      assert below + [top] == [g] + (rest + [top]);
      assert below + [Put(top, v)] == [g] + (rest + [Put(top, v)]);
      SnapshotParts(g, rest + [top]);
      SnapshotParts(g, rest + [Put(top, v)]);
      StepsParts(g, rest + [top]);
      LookupInSnapshot(rest, top, v);
      NextOfGrowing(g, Snapshot(rest + [top]), Steps(rest + [top]));
      NextOfGrowing(g, Snapshot(rest + [Put(top, v)]), Steps(rest + [top]));
    }
  }

  /**
   Wherever a value may come next inside an open container, the tree under the root holds the value at the address
   PathOf once the value has come. Before that it holds there the value of the same key, or nothing if the key is new.
   */
  lemma ValueLandsAtPath(d: Fold, v: Json)
    requires FoldOk(d) && ValueDue(d) && d.open != []
    ensures Lookup(Snapshot(AddValue(d, v).open), PathOf(d)) == Some(v)
    ensures var top := Inner(d);
            Lookup(Snapshot(d.open), PathOf(d)) == if Slot(top) < |top.items| then Some(top.items[Slot(top)]) else None
  {
    var n := |d.open| - 1;
    assert d.open == d.open[..n] + [Inner(d)];
    LookupInSnapshot(d.open[..n], Inner(d), v);
  }

  /** A container that starts is found, still empty, at the path reported before it. */
  lemma ContainerLandsAtPath(d: Fold, e: Event)
    requires FoldOk(d) && ValueDue(d) && d.open != [] && (e.ObjectStart? || e.ArrayStart?)
    ensures Lookup(Snapshot(Taken(d, e).open), PathOf(d)) == Some(if e.ObjectStart? then Object([], []) else Array([]))
  {
    hide Lookup, Snapshot, Put;
    var g := Growing(e.ObjectStart?, [], [], None);
    var n := |d.open| - 1;
    ValueLandsAtPath(d, Tree(g));
    assert d.open + [g] == d.open[..n] + [Inner(d), g];
    SnapshotOfStarted(d.open[..n], Inner(d), g);
  }

  lemma {:induction false} SnapshotOfStarted(below: seq<Growing>, top: Growing, g: Growing)
    ensures Snapshot(below + [top, g]) == Snapshot(below + [Put(top, Tree(g))])
    decreases |below|
  {
    hide Put, Tree;
    if below == [] {
      assert below + [top, g] == [top] + [g] && below + [Put(top, Tree(g))] == [Put(top, Tree(g))];
      SnapshotParts(top, [g]);
    } else {
      assert below + [top, g] == [below[0]] + (below[1..] + [top, g]);
      assert below + [Put(top, Tree(g))] == [below[0]] + (below[1..] + [Put(top, Tree(g))]);
      SnapshotParts(below[0], below[1..] + [top, g]);
      SnapshotParts(below[0], below[1..] + [Put(top, Tree(g))]);
      SnapshotOfStarted(below[1..], top, g);
    }
  }
}
