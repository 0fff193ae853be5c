/**
 compareGraphs: what the object graph includes and the function graph does not. The comment on it
 says that there is no such object; here is when that is so, and an example of one.
 */
module NmCompare {
  import opened NmWorklist
  import opened Sequences
  import NmObjects
  import opened NmFunctions

  // ----- the linked set as a function -----

  /** What every sufficient set holds. */
  ghost function Link(entry: string, owners: Relation, refs: Relation): set<string> {
    set d | d in AllOwners(owners) && InEverySufficient(d, entry, owners, refs)
  }

  ghost predicate InEverySufficient(d: string, entry: string, owners: Relation, refs: Relation) {
    forall other: set<string> :: Sufficient(other, entry, owners, refs) ==> d in other
  }

  lemma LinkIsLinked(entry: string, owners: Relation, refs: Relation)
    ensures Linked(Link(entry, owners, refs), entry, owners, refs)
  {
    var objects := Link(entry, owners, refs);
    forall d | d in Get(owners, entry) ensures d in objects {
      assert d in AllOwners(owners);
    }
    forall obj, d | obj in objects && OwnsOneOf(d, Get(refs, obj), owners) ensures d in objects {
      var s :| s in Get(refs, obj) && d in Get(owners, s);
      assert d in AllOwners(owners);
      assert InEverySufficient(obj, entry, owners, refs);
    }
    forall other: set<string> | Sufficient(other, entry, owners, refs) ensures objects <= other {
      forall d | d in objects ensures d in other {
        assert InEverySufficient(d, entry, owners, refs);
      }
    }
  }

  lemma LinkedIsLink(objects: set<string>, entry: string, owners: Relation, refs: Relation)
    requires Linked(objects, entry, owners, refs)
    ensures objects == Link(entry, owners, refs)
  {
    LinkIsLinked(entry, owners, refs);
  }

  // ----- one entry point -----

  /** What the object graph follows from an object that both graphs include is included by the function graph. */
  ghost predicate Followed(objects: set<string>, others: set<string>, entry: string, owners: Relation, refs: Relation) {
    && (forall d :: d in Get(owners, entry) ==> d in others)
    && (forall obj, d :: obj in objects && obj in others && OwnsOneOf(d, Get(refs, obj), owners) ==> d in others)
  }

  /**
   For one entry point and any two pairs of tables: onlyInObjectGraph is empty exactly if no reference of an object that
   both graphs include leads out of the function graph's objects.
   */
  lemma OnlyInObjectGraphIsEmpty(objIncluded: seq<string>, funcIncluded: seq<string>, entry: string,
                                 owners: Relation, refs: Relation, owners': Relation, refs': Relation)
    requires Linked(Elements(objIncluded), entry, owners, refs)
    requires Linked(Elements(funcIncluded), entry, owners', refs')
    ensures Outside(objIncluded, funcIncluded) == []
       <==> Followed(Elements(objIncluded), Elements(funcIncluded), entry, owners, refs)
  {
    var a, b := Elements(objIncluded), Elements(funcIncluded);
    OutsideIsEmpty(objIncluded, funcIncluded);
    if Followed(a, b, entry, owners, refs) {
      assert Sufficient(a * b, entry, owners, refs);
      assert a <= a * b;
    }
  }

  lemma OutsideIsEmpty(names: seq<string>, objects: seq<string>)
    ensures Outside(names, objects) == [] <==> Elements(names) <= Elements(objects)
  {
    OutsideMembers(names, objects);
    if Elements(names) <= Elements(objects) {
      NothingOutside(names, objects);
    } else {
      var x :| x in names && x !in objects;
      assert x in Outside(names, objects);
    }
  }

  // ----- all entry points -----

  /** Every owner of the function graph is one in the object graph too; a weak definition may be one there only. */
  ghost predicate FewerOwners(owners': Relation, owners: Relation) {
    forall s, d :: d in Get(owners', s) ==> d in Get(owners, s)
  }

  /** With s as the entry point, the function graph includes all owners that s has in the object graph. */
  ghost predicate OwnersAreReached(owners: Relation, owners': Relation, refs': Relation) {
    forall s, d :: d in Get(owners, s) ==> d in Link(s, owners', refs')
  }

  /** With s as the entry point, the function graph includes whatever an owner of s references in the object graph. */
  ghost predicate ReferencesAreReached(owners: Relation, refs: Relation, owners': Relation, refs': Relation) {
    forall s, obj, d :: obj in Get(owners, s) && OwnsOneOf(d, Get(refs, obj), owners) ==> d in Link(s, owners', refs')
  }

  /** Every object is linked through a symbol all of whose owners are linked. */
  lemma PulledInBySymbol(objects: set<string>, entry: string, owners: Relation, refs: Relation, obj: string)
    requires Linked(objects, entry, owners, refs) && obj in objects
    ensures exists t :: obj in Get(owners, t) && forall x :: x in Get(owners, t) ==> x in objects
  {
    var pulled :=
      set d | d in objects && exists t :: d in Get(owners, t) && forall x :: x in Get(owners, t) ==> x in objects;
    forall o, d | o in pulled && OwnsOneOf(d, Get(refs, o), owners) ensures d in pulled {
      var t :| t in Get(refs, o) && d in Get(owners, t);
      forall x | x in Get(owners, t) ensures x in objects {
        assert OwnsOneOf(x, Get(refs, o), owners);
      }
    }
    assert Sufficient(pulled, entry, owners, refs);
    assert obj in pulled;
  }

  /** From a symbol whose owners are linked nothing is reached that is not linked. */
  lemma LinkedFromInside(objects: set<string>, entry: string, owners: Relation, refs: Relation, t: string)
    requires Linked(objects, entry, owners, refs) && forall x :: x in Get(owners, t) ==> x in objects
    ensures Link(t, owners, refs) <= objects
  {
    LinkIsLinked(t, owners, refs);
    assert Sufficient(objects, t, owners, refs);
  }

  /**
   The function graph includes at least the objects of the object graph, from whatever entry point, exactly if it
   reaches the owners of every single symbol, and those of every reference from the symbols of the referring object.
   */
  lemma SupersetExactly(owners: Relation, refs: Relation, owners': Relation, refs': Relation)
    requires FewerOwners(owners', owners)
    ensures (forall e :: Link(e, owners, refs) <= Link(e, owners', refs'))
       <==> OwnersAreReached(owners, owners', refs') && ReferencesAreReached(owners, refs, owners', refs')
  {
    hide Link, OwnsOneOf, FewerOwners, Linked, Sufficient;
    if forall e :: Link(e, owners, refs) <= Link(e, owners', refs') {
      forall s, d | d in Get(owners, s) ensures d in Link(s, owners', refs') {
        OwnersAreLinked(s, owners, refs, d);
        assert Link(s, owners, refs) <= Link(s, owners', refs');
      }
      forall s, obj, d | obj in Get(owners, s) && OwnsOneOf(d, Get(refs, obj), owners)
        ensures d in Link(s, owners', refs')
      {
        OwnersAreLinked(s, owners, refs, obj);
        ReferencesAreLinked(s, owners, refs, obj, d);
        assert Link(s, owners, refs) <= Link(s, owners', refs');
      }
    }
    if OwnersAreReached(owners, owners', refs') && ReferencesAreReached(owners, refs, owners', refs') {
      forall e ensures Link(e, owners, refs) <= Link(e, owners', refs') {
        SupersetFrom(e, owners, refs, owners', refs');
      }
    }
  }

  lemma OwnersAreLinked(s: string, owners: Relation, refs: Relation, d: string)
    requires d in Get(owners, s)
    ensures d in Link(s, owners, refs)
  {
    LinkIsLinked(s, owners, refs);
  }

  lemma ReferencesAreLinked(s: string, owners: Relation, refs: Relation, obj: string, d: string)
    requires obj in Link(s, owners, refs) && OwnsOneOf(d, Get(refs, obj), owners)
    ensures d in Link(s, owners, refs)
  {
    LinkIsLinked(s, owners, refs);
  }

  lemma SupersetFrom(e: string, owners: Relation, refs: Relation, owners': Relation, refs': Relation)
    requires FewerOwners(owners', owners)
    requires OwnersAreReached(owners, owners', refs') && ReferencesAreReached(owners, refs, owners', refs')
    ensures Link(e, owners, refs) <= Link(e, owners', refs')
  {
    hide Link, OwnsOneOf, Get;
    var objects := Link(e, owners', refs');
    LinkIsLinked(e, owners, refs);
    LinkIsLinked(e, owners', refs');
    forall obj, d | obj in objects && OwnsOneOf(d, Get(refs, obj), owners) ensures d in objects {
      PulledInBySymbol(objects, e, owners', refs', obj);
      var t :| obj in Get(owners', t) && forall x :: x in Get(owners', t) ==> x in objects;
      LinkedFromInside(objects, e, owners', refs', t);
    }
    assert Sufficient(objects, e, owners, refs);
  }

  /** With the same owners in both graphs, only the references matter. */
  lemma SupersetWithSameOwners(owners: Relation, refs: Relation, owners': Relation, refs': Relation)
    requires FewerOwners(owners', owners) && FewerOwners(owners, owners')
    ensures (forall e :: Link(e, owners, refs) <= Link(e, owners', refs'))
       <==> ReferencesAreReached(owners, refs, owners', refs')
  {
    SupersetExactly(owners, refs, owners', refs');
    forall s, d | d in Get(owners, s) ensures d in Link(s, owners', refs') {
      OwnersAreLinked(s, owners', refs', d);
    }
  }

  /** Whatever both compute methods return for one and the same entry point, onlyInObjectGraph is empty. */
  ghost predicate NeverOnlyInObjectGraph(owners: Relation, refs: Relation, owners': Relation, refs': Relation) {
    forall e, a: seq<string>, b: seq<string> ::
      Linked(Elements(a), e, owners, refs) && Linked(Elements(b), e, owners', refs') ==> Outside(a, b) == []
  }

  /** The condition of SupersetExactly is the exact one for what compareGraphs reports. */
  lemma NeverOnlyInObjectGraphExactly(owners: Relation, refs: Relation, owners': Relation, refs': Relation)
    requires FewerOwners(owners', owners)
    ensures NeverOnlyInObjectGraph(owners, refs, owners', refs')
       <==> OwnersAreReached(owners, owners', refs') && ReferencesAreReached(owners, refs, owners', refs')
  {
    hide Link, Linked, FewerOwners, OwnersAreReached, ReferencesAreReached;
    SupersetExactly(owners, refs, owners', refs');
    if NeverOnlyInObjectGraph(owners, refs, owners', refs') {
      forall e ensures Link(e, owners, refs) <= Link(e, owners', refs') {
        LinkIsLinked(e, owners, refs);
        LinkIsLinked(e, owners', refs');
        var a := Listed(Link(e, owners, refs));
        var b := Listed(Link(e, owners', refs'));
        assert Outside(a, b) == [];
        OutsideIsEmpty(a, b);
      }
    }
    if forall e :: Link(e, owners, refs) <= Link(e, owners', refs') {
      forall e, a: seq<string>, b: seq<string> |
        Linked(Elements(a), e, owners, refs) && Linked(Elements(b), e, owners', refs')
        ensures Outside(a, b) == []
      {
        LinkedIsLink(Elements(a), e, owners, refs);
        LinkedIsLink(Elements(b), e, owners', refs');
        assert Link(e, owners, refs) <= Link(e, owners', refs');
        OutsideIsEmpty(a, b);
      }
    }
  }

  /** The objects of a set in some order. */
  lemma {:induction false} Listed(objects: set<string>) returns (list: seq<string>)
    ensures Elements(list) == objects
    decreases |objects|
  {
    if objects == {} {
      list := [];
    } else {
      var x :| x in objects;
      var rest := Listed(objects - {x});
      list := [x] + rest;
      assert forall y :: y in list <==> y == x || y in Elements(rest);
    }
  }

  // ----- in terms of the files -----

  /** The dump of a file shows every reference and every definition that nm shows. */
  ghost predicate Covers(d: Dump, file: NmObjects.ObjectFile) {
    && d.name == file.name
    && (forall s :: NmObjects.ReferencedIn(file.symbols, s) ==> s in NeedsOf(d))
    && (forall s :: NmObjects.DefinedIn(file.symbols, s) ==> s in GlobalsOf(d))
  }

  ghost predicate AllCovered(dumps: seq<Dump>, objects: seq<NmObjects.ObjectFile>) {
    forall i :: 0 <= i < |objects| ==> exists j :: 0 <= j < |dumps| && Covers(dumps[j], objects[i])
  }

  lemma CoveredOwners(dumps: seq<Dump>, objects: seq<NmObjects.ObjectFile>, owners: Relation, owners': Relation,
      s: string, d: string)
    requires AllCovered(dumps, objects)
    requires NmObjects.OwnersDescribe(owners, objects) && OwnersMatch(owners', dumps)
    requires d in Get(owners, s)
    ensures d in Get(owners', s)
  {
    hide GlobalsOf, NeedsOf, NmObjects.DefinedIn, NmObjects.ReferencedIn, NmObjects.IsRelation;
    assert NmObjects.Owns(objects, d, s);
    var file :| file in objects && file.name == d && NmObjects.DefinedIn(file.symbols, s);
    var i :| 0 <= i < |objects| && objects[i] == file;
    var j :| 0 <= j < |dumps| && Covers(dumps[j], objects[i]);
    assert dumps[j].name == d && s in GlobalsOf(dumps[j]);
  }

  lemma CoveredRefs(dumps: seq<Dump>, objects: seq<NmObjects.ObjectFile>, refs: Relation, refs': Relation, obj: string,
      s: string)
    requires AllCovered(dumps, objects)
    requires NmObjects.RefsDescribe(refs, objects) && RefsMatch(refs', dumps)
    requires s in Get(refs, obj)
    ensures s in Get(refs', obj)
  {
    hide GlobalsOf, NeedsOf, NmObjects.DefinedIn, NmObjects.ReferencedIn;
    var i :| 0 <= i < |objects| && objects[i].name == obj;
    assert NmObjects.RefsOf(refs, objects[i]);
    var j :| 0 <= j < |dumps| && Covers(dumps[j], objects[i]);
    assert s in Elements(Get(refs', dumps[j].name));
  }

  /** Then the function graph includes every object that the object graph does: onlyInObjectGraph is empty. */
  lemma FunctionGraphIncludesMore(objGraph: NmObjects.ObjectDependencyGraph, funcGraph: FunctionDependencyGraph,
                                  entry: string, objIncluded: seq<string>, funcIncluded: seq<string>)
    requires objGraph.Valid() && funcGraph.Valid() && AllCovered(funcGraph.fileData, objGraph.fileData)
    requires Linked(Elements(objIncluded), entry, objGraph.symbolOwners, objGraph.fileRefs)
    requires Linked(Elements(funcIncluded), entry, funcGraph.symbolOwners, funcGraph.fileRefs)
    ensures Outside(objIncluded, funcIncluded) == []
  {
    hide Linked, AllCovered, OwnersMatch, RefsMatch, NamesMatch, CallsMatch, NmObjects.OwnersDescribe,
        NmObjects.RefsDescribe;
    var owners, refs, owners', refs' :=
        objGraph.symbolOwners, objGraph.fileRefs, funcGraph.symbolOwners, funcGraph.fileRefs;
    forall s, d | d in Get(owners, s) ensures d in Get(owners', s) {
      CoveredOwners(funcGraph.fileData, objGraph.fileData, owners, owners', s, d);
    }
    forall obj, s | s in Get(refs, obj) ensures s in Get(refs', obj) {
      CoveredRefs(funcGraph.fileData, objGraph.fileData, refs, refs', obj, s);
    }
    LinkedIsMonotone(Elements(objIncluded), Elements(funcIncluded), entry, owners, refs, owners', refs');
    NothingOutside(objIncluded, funcIncluded);
  }

  lemma {:induction false} NothingOutside(names: seq<string>, objects: seq<string>)
    requires Elements(names) <= Elements(objects)
    ensures Outside(names, objects) == []
  {
    if names != [] {
      assert names[0] in Elements(names);
      forall x | x in Elements(names[1..]) ensures x in Elements(objects) {
        assert x in Elements(names);
      }
      NothingOutside(names[1..], objects);
    }
  }

  const UNCOVERED_OBJECTS := [
    NmObjects.ObjectFile("a.o", [NmObjects.NmSymbol("main", "T"), NmObjects.NmSymbol("f", "U")]),
    NmObjects.ObjectFile("b.o", [NmObjects.NmSymbol("f", "T")])
  ]

  const UNCOVERED_DUMPS := [
    Dump("a.o", [DumpSymbol("main", "g", ".text", 0, 16), DumpSymbol("f", "U", "", 0, 0)], [], []),
    Dump("b.o", [DumpSymbol("f", "g", ".text", 0, 16)], [], [])
  ]

  /**
   Both tables list the same symbols here, but an undefined symbol that no relocation uses is a
   reference for nm only: the object graph includes b.o and the function graph does not.
   */
  lemma EqualTablesAreNotEnough(owners: Relation, refs: Relation, owners': Relation, refs': Relation,
                                objIncluded: set<string>, funcIncluded: set<string>)
    requires NmObjects.OwnersDescribe(owners, UNCOVERED_OBJECTS) && NmObjects.RefsDescribe(refs, UNCOVERED_OBJECTS)
    requires OwnersMatch(owners', UNCOVERED_DUMPS) && RefsMatch(refs', UNCOVERED_DUMPS)
    requires Linked(objIncluded, "main", owners, refs) && Linked(funcIncluded, "main", owners', refs')
    ensures "b.o" in objIncluded && "b.o" !in funcIncluded
  {
    ObjectGraphTakesBoth(owners, refs, objIncluded);
    FunctionGraphTakesOne(owners', refs', funcIncluded);
  }

  lemma ObjectGraphTakesBoth(owners: Relation, refs: Relation, included: set<string>)
    requires NmObjects.OwnersDescribe(owners, UNCOVERED_OBJECTS) && NmObjects.RefsDescribe(refs, UNCOVERED_OBJECTS)
    requires Linked(included, "main", owners, refs)
    ensures "b.o" in included
  {
    var a, b := UNCOVERED_OBJECTS[0], UNCOVERED_OBJECTS[1];
    assert NmObjects.NmSymbol("main", "T") in a.symbols && NmObjects.NmSymbol("f", "T") in b.symbols;
    assert NmObjects.Owns(UNCOVERED_OBJECTS, "a.o", "main") && NmObjects.Owns(UNCOVERED_OBJECTS, "b.o", "f");
    assert "a.o" in Get(owners, "main") && "b.o" in Get(owners, "f");
    assert NmObjects.RefsOf(refs, a) && NmObjects.ReferencedIn(a.symbols, "f");
    assert OwnsOneOf("b.o", Get(refs, "a.o"), owners);
  }

  lemma FunctionGraphTakesOne(owners: Relation, refs: Relation, included: set<string>)
    requires OwnersMatch(owners, UNCOVERED_DUMPS) && RefsMatch(refs, UNCOVERED_DUMPS)
    requires Linked(included, "main", owners, refs)
    ensures "b.o" !in included
  {
    NoReferences(refs);
    OneOwner(owners);
    hide OwnersMatch, RefsMatch;
    assert Sufficient({"a.o"}, "main", owners, refs);
  }

  lemma NoReferences(refs: Relation)
    requires RefsMatch(refs, UNCOVERED_DUMPS)
    ensures forall s :: s !in Get(refs, "a.o")
  {
    assert NeedsOf(UNCOVERED_DUMPS[0]) == {};
    assert Elements(Get(refs, UNCOVERED_DUMPS[0].name)) == {};
    assert forall s :: s in Get(refs, "a.o") ==> s in Elements(Get(refs, "a.o"));
  }

  lemma OneOwner(owners: Relation)
    requires OwnersMatch(owners, UNCOVERED_DUMPS)
    ensures forall d :: d in Get(owners, "main") ==> d == "a.o"
  {
    assert "main" !in GlobalsOf(UNCOVERED_DUMPS[1]);
  }
}
