/**
 The worklist that both dependency graphs of nm-symbols.js run. A JavaScript Set is a sequence
 without repetitions in insertion order, a Map of Sets a map to such sequences.
 */
module NmWorklist {
  import opened Sequences

  type Relation = map<string, seq<string>>

  /** Map.get, with nothing for a key that is not there. */
  function Get<K, V>(m: map<K, seq<V>>, key: K): seq<V> {
    if key in m then m[key] else []
  }

  /** Set.add. */
  function Add<T(==, !new)>(s: seq<T>, x: T): (r: seq<T>)
    ensures forall y :: y in r <==> y in s || y == x
    ensures Distinct(s) ==> Distinct(r)
  {
    if x in s then s else s + [x]
  }

  /** Map.getOrInsertComputed with an empty Set, and Set.add. */
  function AddTo<K, V(==, !new)>(m: map<K, seq<V>>, key: K, x: V): map<K, seq<V>> {
    m[key := Add(Get(m, key), x)]
  }

  lemma ElementsOfAdd<T(!new)>(s: seq<T>, x: T)
    ensures Elements(Add(s, x)) == Elements(s) + {x}
  {
  }

  /** `d` owns one of the symbols. */
  ghost predicate OwnsOneOf(d: string, symbols: seq<string>, owners: Relation) {
    exists s :: s in symbols && d in Get(owners, s)
  }

  /** A set of objects that holds the owners of the entry point and with each object the owners of what it references.
      */
  ghost predicate Sufficient(objects: set<string>, entry: string, owners: Relation, refs: Relation) {
    && (forall d :: d in Get(owners, entry) ==> d in objects)
    && (forall obj, d :: obj in objects && OwnsOneOf(d, Get(refs, obj), owners) ==> d in objects)
  }

  /** The least such set: what linking from the entry point pulls in. */
  ghost predicate Linked(objects: set<string>, entry: string, owners: Relation, refs: Relation) {
    && Sufficient(objects, entry, owners, refs)
    && forall other: set<string> :: Sufficient(other, entry, owners, refs) ==> objects <= other
  }

  /** Adding references or owners never takes an object out of the link. */
  lemma LinkedIsMonotone(a: set<string>, b: set<string>, entry: string,
                         owners: Relation, refs: Relation, owners': Relation, refs': Relation)
    requires Linked(a, entry, owners, refs) && Linked(b, entry, owners', refs')
    requires forall s, d :: d in Get(owners, s) ==> d in Get(owners', s)
    requires forall obj, s :: s in Get(refs, obj) ==> s in Get(refs', obj)
    ensures a <= b
  {
    forall obj, d | obj in b && OwnsOneOf(d, Get(refs, obj), owners) ensures d in b {
      var s :| s in Get(refs, obj) && d in Get(owners, s);
      assert OwnsOneOf(d, Get(refs', obj), owners');
    }
    assert Sufficient(b, entry, owners, refs);
  }

  /** Every object that owns anything: the links are chosen from these. */
  ghost function AllOwners(owners: Relation): set<string> {
    set s, d | s in owners && d in owners[s] :: d
  }

  ghost predicate Joined(objects: seq<string>, objects0: seq<string>, more: seq<string>) {
    forall d :: d in objects <==> d in objects0 || d in more
  }

  /** The innermost loop: what is not included yet is included and pushed. */
  method Include(objects: seq<string>, included0: seq<string>, worklist0: seq<string>)
    returns (included: seq<string>, worklist: seq<string>, ghost added: seq<string>)
    requires Distinct(included0)
    ensures Distinct(included) && included == included0 + added && worklist == worklist0 + added
    ensures Joined(included, included0, objects)
  {
    included, worklist, added := included0, worklist0, [];
    for i := 0 to |objects|
      invariant Distinct(included) && included == included0 + added && worklist == worklist0 + added
      invariant Joined(included, included0, objects[..i])
    {
      if objects[i] !in included {
        included := included + [objects[i]];
        worklist := worklist + [objects[i]];
        added := added + [objects[i]];
      }
      assert objects[..i + 1] == objects[..i] + [objects[i]];
    }
    assert objects[..|objects|] == objects;
  }

  /** `objects` holds what `objects0` does and the owners of the symbols. */
  ghost predicate JoinedByOwners(objects: seq<string>, objects0: seq<string>, symbols: seq<string>, owners: Relation) {
    forall d :: d in objects <==> d in objects0 || OwnsOneOf(d, symbols, owners)
  }

  method IncludeOwners(symbols: seq<string>, owners: Relation, included0: seq<string>, worklist0: seq<string>)
    returns (included: seq<string>, worklist: seq<string>, ghost added: seq<string>)
    requires Distinct(included0)
    ensures Distinct(included) && included == included0 + added && worklist == worklist0 + added
    ensures JoinedByOwners(included, included0, symbols, owners)
  {
    included, worklist, added := included0, worklist0, [];
    for i := 0 to |symbols|
      invariant Distinct(included) && included == included0 + added && worklist == worklist0 + added
      invariant JoinedByOwners(included, included0, symbols[..i], owners)
    {
      ghost var before := included;
      ghost var more;
      included, worklist, more := Include(Get(owners, symbols[i]), included, worklist);
      added := added + more;
      OwnsOneMore(symbols, i, owners);
    }
    assert symbols[..|symbols|] == symbols;
  }

  lemma OwnsOneMore(symbols: seq<string>, i: nat, owners: Relation)
    requires i < |symbols|
    ensures forall d ::
        OwnsOneOf(d, symbols[..i + 1], owners) <==> OwnsOneOf(d, symbols[..i], owners) || d in Get(owners, symbols[i])
  {
    assert symbols[..i + 1] == symbols[..i] + [symbols[i]];
    forall d | OwnsOneOf(d, symbols[..i], owners) || d in Get(owners, symbols[i])
      ensures OwnsOneOf(d, symbols[..i + 1], owners)
    {
      var s :| (s in symbols[..i] || s == symbols[i]) && d in Get(owners, s);
      assert s in symbols[..i + 1];
    }
  }

  /** Nothing is included that a sufficient set could do without. */
  ghost predicate Necessary(included: seq<string>, entry: string, owners: Relation, refs: Relation) {
    forall other: set<string> :: Sufficient(other, entry, owners, refs) ==> forall d :: d in included ==> d in other
  }

  /** Between two rounds: what is included waits or has been processed with all it needs. */
  ghost predicate Underway(included: seq<string>, worklist: seq<string>, processed: set<string>,
                           entry: string, owners: Relation, refs: Relation) {
    && (forall d :: d in included <==> d in worklist || d in processed)
    && (forall d :: d in Get(owners, entry) ==> d in included)
    && (forall obj, d :: obj in processed && OwnsOneOf(d, Get(refs, obj), owners) ==> d in included)
    && Necessary(included, entry, owners, refs)
  }

  lemma Started(included: seq<string>, entry: string, owners: Relation, refs: Relation)
    requires Joined(included, [], Get(owners, entry))
    ensures Underway(included, included, {}, entry, owners, refs)
  {
    hide OwnsOneOf, Get;
  }

  lemma RoundKeeps(included: seq<string>, worklist: seq<string>, processed: set<string>,
                   entry: string, owners: Relation, refs: Relation, obj: string, added: seq<string>)
    requires Underway(included, worklist + [obj], processed, entry, owners, refs)
    requires JoinedByOwners(included + added, included, Get(refs, obj), owners)
    ensures Underway(included + added, worklist + added, processed + {obj}, entry, owners, refs)
  {
    hide OwnsOneOf, Get;
    var included' := included + added;
    assert obj in worklist + [obj];
    forall other: set<string> | Sufficient(other, entry, owners, refs)
      ensures forall d :: d in included' ==> d in other
    {
    }
    assert forall d :: d in included' <==> d in worklist + added || d in processed + {obj};
  }

  lemma AlreadyProcessed(included: seq<string>, worklist: seq<string>, processed: set<string>,
                         entry: string, owners: Relation, refs: Relation, obj: string)
    requires Underway(included, worklist + [obj], processed, entry, owners, refs) && obj in processed
    ensures Underway(included, worklist, processed, entry, owners, refs)
  {
  }

  lemma Finished(included: seq<string>, processed: set<string>, entry: string, owners: Relation, refs: Relation)
    requires Underway(included, [], processed, entry, owners, refs)
    ensures Linked(Elements(included), entry, owners, refs)
  {
    hide OwnsOneOf, Get;
  }

  lemma AddedIsNew<T>(s: seq<T>, added: seq<T>, j: nat)
    requires Distinct(s + added) && j < |added|
    ensures added[j] !in s
  {
    forall i | 0 <= i < |s| ensures s[i] != added[j] {
      assert (s + added)[i] != (s + added)[|s| + j];
    }
  }

  /** What is left to include. */
  ghost function Missing(included: seq<string>, owners: Relation): set<string> {
    AllOwners(owners) - Elements(included)
  }

  lemma MissingLess(included: seq<string>, added: seq<string>, symbols: seq<string>, owners: Relation)
    requires Distinct(included + added) && added != []
    requires JoinedByOwners(included + added, included, symbols, owners)
    ensures |Missing(included + added, owners)| < |Missing(included, owners)|
  {
    var d := added[0];
    AddedIsNew(included, added, 0);
    assert d in included + added;
    var s :| s in symbols && d in Get(owners, s);
    assert d in Missing(included, owners);
    Smaller(Missing(included + added, owners), Missing(included, owners), d);
  }

  lemma Smaller<T>(a: set<T>, b: set<T>, x: T)
    requires a <= b && x in b && x !in a
    ensures |a| < |b|
  {
    assert b == (b - a) + a;
    assert x in b - a;
  }

  /** The loop of both compute methods; every object is pushed once, when it is included. */
  method Resolve(entry: string, owners: Relation, refs: Relation)
    returns (included: seq<string>, ghost pushed: seq<string>)
    ensures Distinct(included) && Linked(Elements(included), entry, owners, refs)
    ensures pushed == included
  {
    hide Underway, Distinct, Necessary, Missing, JoinedByOwners, Joined, Linked, Elements, OwnsOneOf, Get;
    var worklist;
    included, worklist, pushed := Include(Get(owners, entry), [], []);
    assert included == worklist == pushed;
    var processed: set<string> := {};
    Started(included, entry, owners, refs);
    while |worklist| > 0
      invariant Underway(included, worklist, processed, entry, owners, refs) && Distinct(included)
      invariant pushed == included
      decreases |Missing(included, owners)|, |worklist|
    {
      var obj := worklist[|worklist| - 1];
      assert worklist == worklist[..|worklist| - 1] + [obj];
      worklist := worklist[..|worklist| - 1];
      if obj in processed {
        AlreadyProcessed(included, worklist, processed, entry, owners, refs, obj);
        continue;
      }
      processed := processed + {obj};
      ghost var included0, worklist0 := included, worklist;
      ghost var added;
      included, worklist, added := IncludeOwners(Get(refs, obj), owners, included, worklist);
      pushed := pushed + added;
      RoundKeeps(included0, worklist0, processed - {obj}, entry, owners, refs, obj, added);
      assert processed - {obj} + {obj} == processed;
      if added != [] {
        MissingLess(included0, added, Get(refs, obj), owners);
      } else {
        assert included == included0 && worklist == worklist0;
      }
    }
    assert worklist == [];
    Finished(included, processed, entry, owners, refs);
  }

  // ----- the split of all objects -----

  /** Array.filter for what is not in a set. */
  function Outside(names: seq<string>, objects: seq<string>): seq<string> {
    if names == [] then []
    else (if names[0] in objects then [] else [names[0]]) + Outside(names[1..], objects)
  }

  lemma {:induction false} OutsideMembers(names: seq<string>, objects: seq<string>)
    ensures forall x :: x in Outside(names, objects) <==> x in names && x !in objects
  {
    if names != [] {
      OutsideMembers(names[1..], objects);
      assert names == [names[0]] + names[1..];
    }
  }

  lemma {:induction false} OutsideDistinct(names: seq<string>, objects: seq<string>)
    requires Distinct(names)
    ensures Distinct(Outside(names, objects))
  {
    if names != [] {
      OutsideDistinct(names[1..], objects);
      OutsideMembers(names[1..], objects);
      assert forall i :: 0 < i < |names| ==> names[0] != names[i];
      DistinctConcat([names[0]], Outside(names[1..], objects));
    }
  }

  lemma DistinctConcat(a: seq<string>, b: seq<string>)
    requires Distinct(a) && Distinct(b) && forall x :: x in b ==> x !in a
    ensures Distinct(a + b)
  {
    forall i, j | 0 <= i < j < |a + b| ensures (a + b)[i] != (a + b)[j] {
      if i < |a| <= j { assert b[j - |a|] in b; }
    }
  }

  /** Distinct names split into the included and the unused ones. */
  lemma Partition(names: seq<string>, objects: seq<string>)
    requires Distinct(names) && Distinct(objects) && forall x :: x in objects ==> x in names
    ensures Distinct(objects + Outside(names, objects))
    ensures Elements(objects + Outside(names, objects)) == Elements(names)
  {
    OutsideMembers(names, objects);
    OutsideDistinct(names, objects);
    DistinctConcat(objects, Outside(names, objects));
  }
}
