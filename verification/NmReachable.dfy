/** computeReachableSymbols and how it relates to the objects that are linked. */
module NmReachable {
  import opened NmWorklist
  import opened Sequences
  import opened NmFunctions

  type CallRelation = map<Caller, seq<string>>

  /** `c` is called by a definition of `s`. */
  ghost predicate CalledFrom(c: string, s: string, owners: Relation, reverse: CallRelation) {
    exists f :: f in Get(owners, s) && c in Get(reverse, Caller(f, s))
  }

  /** A set of symbols that holds the entry point and with each symbol what its definitions call. */
  ghost predicate Followed(symbols: set<string>, entry: string, owners: Relation, reverse: CallRelation) {
    && entry in symbols
    && (forall s, c :: s in symbols && CalledFrom(c, s, owners, reverse) ==> c in symbols)
  }

  /** The least such set. */
  ghost predicate Reached(symbols: set<string>, entry: string, owners: Relation, reverse: CallRelation) {
    && Followed(symbols, entry, owners, reverse)
    && forall other: set<string> :: Followed(other, entry, owners, reverse) ==> symbols <= other
  }

  /** Every definition of a reached symbol lies in an object that is linked. */
  lemma ReachedIsLinked(symbols: set<string>, objects: set<string>, entry: string,
                        owners: Relation, refs: Relation, reverse: CallRelation)
    requires Reached(symbols, entry, owners, reverse) && Linked(objects, entry, owners, refs)
    requires forall f, s, c :: c in Get(reverse, Caller(f, s)) ==> c in Get(refs, f)
    ensures forall s, f :: s in symbols && f in Get(owners, s) ==> f in objects
  {
    var linked := set s | s in symbols && forall f :: f in Get(owners, s) ==> f in objects;
    forall s, c | s in linked && CalledFrom(c, s, owners, reverse) ensures c in linked {
      var f :| f in Get(owners, s) && c in Get(reverse, Caller(f, s));
      assert c in Get(refs, f);
      forall d | d in Get(owners, c) ensures d in objects {
        assert OwnsOneOf(d, Get(refs, f), owners);
      }
    }
    assert Followed(linked, entry, owners, reverse);
  }

  /** The two innermost loops: callees that are not reached yet are pushed. */
  method PushCallees(symbol: string, owners: Relation, reverse: CallRelation, reached: seq<string>,
      worklist0: seq<string>)
    returns (worklist: seq<string>, ghost pushed: seq<string>)
    ensures worklist == worklist0 + pushed
    ensures forall c :: c in pushed <==> c !in reached && CalledFrom(c, symbol, owners, reverse)
  {
    var files := Get(owners, symbol);
    worklist, pushed := worklist0, [];
    for i := 0 to |files|
      invariant worklist == worklist0 + pushed
      invariant forall c ::
          c in pushed <==> c !in reached && exists f :: f in files[..i] && c in Get(reverse, Caller(f, symbol))
    {
      var callees := Get(reverse, Caller(files[i], symbol));
      ghost var before := pushed;
      for j := 0 to |callees|
        invariant worklist == worklist0 + pushed
        invariant forall c :: c in pushed <==> c in before || (c !in reached && c in callees[..j])
      {
        assert callees[..j + 1] == callees[..j] + [callees[j]];
        if callees[j] !in reached {
          worklist := worklist + [callees[j]];
          pushed := pushed + [callees[j]];
        }
      }
      assert callees[..|callees|] == callees;
      assert files[..i + 1] == files[..i] + [files[i]];
    }
    assert files[..|files|] == files;
  }

  /** Between two rounds. */
  ghost predicate Underway(reached: seq<string>, worklist: seq<string>, entry: string, owners: Relation,
      reverse: CallRelation) {
    && (entry in reached || entry in worklist)
    && (forall s, c :: s in reached && CalledFrom(c, s, owners, reverse) ==> c in reached || c in worklist)
    && (forall other: set<string> :: Followed(other, entry, owners, reverse) ==>
          forall s :: s in reached || s in worklist ==> s in other)
  }

  lemma RoundKeeps(reached: seq<string>, worklist: seq<string>, entry: string, owners: Relation, reverse: CallRelation,
                   symbol: string, pushed: seq<string>)
    requires Underway(reached, worklist + [symbol], entry, owners, reverse)
    requires forall c :: c in pushed <==> c !in reached + [symbol] && CalledFrom(c, symbol, owners, reverse)
    ensures Underway(reached + [symbol], worklist + pushed, entry, owners, reverse)
  {
    hide CalledFrom;
    assert symbol in worklist + [symbol];
    forall other: set<string> | Followed(other, entry, owners, reverse)
      ensures forall s :: s in reached + [symbol] || s in worklist + pushed ==> s in other
    {
      assert forall s :: s in worklist ==> s in worklist + [symbol];
    }
    forall s, c | s in reached + [symbol] && CalledFrom(c, s, owners, reverse)
      ensures c in reached + [symbol] || c in worklist + pushed
    {
      if s in reached { assert c in reached || c in worklist + [symbol]; }
    }
  }

  lemma AlreadyReached(reached: seq<string>, worklist: seq<string>, entry: string, owners: Relation,
      reverse: CallRelation,
                       symbol: string)
    requires Underway(reached, worklist + [symbol], entry, owners, reverse) && symbol in reached
    ensures Underway(reached, worklist, entry, owners, reverse)
  {
    hide CalledFrom, Followed;
    assert forall s :: s in worklist ==> s in worklist + [symbol];
    assert forall s :: s in worklist + [symbol] ==> s in worklist || s in reached;
  }

  lemma Finished(reached: seq<string>, entry: string, owners: Relation, reverse: CallRelation)
    requires Underway(reached, [], entry, owners, reverse)
    ensures Reached(Elements(reached), entry, owners, reverse)
  {
    hide CalledFrom;
  }

  /** The entry point and everything that is called anywhere. */
  ghost function AllCallees(entry: string, reverse: CallRelation): set<string> {
    {entry} + set k, c | k in reverse && c in reverse[k] :: c
  }

  lemma WorkIsKnown(reached: seq<string>, worklist: seq<string>, entry: string, owners: Relation, reverse: CallRelation)
    requires Underway(reached, worklist, entry, owners, reverse)
    ensures forall s :: s in worklist ==> s in AllCallees(entry, reverse)
  {
    var all := AllCallees(entry, reverse);
    forall s, c | s in all && CalledFrom(c, s, owners, reverse) ensures c in all {
      var f :| f in Get(owners, s) && c in Get(reverse, Caller(f, s));
      assert Caller(f, s) in reverse && c in reverse[Caller(f, s)];
    }
    assert Followed(all, entry, owners, reverse);
  }

  ghost function Unreached(reached: seq<string>, entry: string, reverse: CallRelation): set<string> {
    AllCallees(entry, reverse) - Elements(reached)
  }

  /** computeReachableSymbols. */
  method ComputeReachableSymbols(graph: FunctionDependencyGraph, entry: string) returns (reached: seq<string>)
    ensures Distinct(reached)
    ensures Reached(Elements(reached), entry, graph.symbolOwners, graph.reverseCallGraph)
  {
    hide CalledFrom, Underway, Unreached;
    ghost var owners, reverse := graph.symbolOwners, graph.reverseCallGraph;
    reached := [];
    var worklist := [entry];
    Started(entry, owners, reverse);
    while |worklist| > 0
      invariant Underway(reached, worklist, entry, owners, reverse) && Distinct(reached)
      decreases |Unreached(reached, entry, reverse)|, |worklist|
    {
      var symbol := worklist[|worklist| - 1];
      assert worklist == worklist[..|worklist| - 1] + [symbol];
      WorkIsKnown(reached, worklist, entry, owners, reverse);
      worklist := worklist[..|worklist| - 1];
      if symbol in reached {
        AlreadyReached(reached, worklist, entry, owners, reverse, symbol);
        continue;
      }
      ghost var reached0, worklist0 := reached, worklist;
      reached := reached + [symbol];
      ghost var pushed;
      worklist, pushed := PushCallees(symbol, graph.symbolOwners, graph.reverseCallGraph, reached, worklist);
      RoundKeeps(reached0, worklist0, entry, owners, reverse, symbol, pushed);
      UnreachedLess(reached0, symbol, entry, reverse);
    }
    assert worklist == [];
    Finished(reached, entry, owners, reverse);
  }

  lemma Started(entry: string, owners: Relation, reverse: CallRelation)
    ensures Underway([], [entry], entry, owners, reverse)
  {
    hide CalledFrom;
  }

  lemma UnreachedLess(reached: seq<string>, symbol: string, entry: string, reverse: CallRelation)
    requires symbol !in reached && symbol in AllCallees(entry, reverse)
    ensures |Unreached(reached + [symbol], entry, reverse)| < |Unreached(reached, entry, reverse)|
  {
    Smaller(Unreached(reached + [symbol], entry, reverse), Unreached(reached, entry, reverse), symbol);
  }

  /** Whatever computeReachableSymbols finds is defined only in objects that compute includes. */
  lemma ReachableIsIncluded(graph: FunctionDependencyGraph, reached: seq<string>, included: seq<string>, entry: string)
    requires graph.Valid()
    requires Reached(Elements(reached), entry, graph.symbolOwners, graph.reverseCallGraph)
    requires Linked(Elements(included), entry, graph.symbolOwners, graph.fileRefs)
    ensures forall s, f :: s in reached && f in Get(graph.symbolOwners, s) ==> f in included
  {
    hide OwnersMatch, NamesMatch, Reached, Linked;
    forall f, s, c | c in Get(graph.reverseCallGraph, Caller(f, s)) ensures c in Get(graph.fileRefs, f) {
      CalleeIsReference(graph.fileData, graph.fileRefs, Edge(Caller(f, s), c));
    }
    ReachedIsLinked(Elements(reached), Elements(included), entry, graph.symbolOwners, graph.fileRefs,
        graph.reverseCallGraph);
    forall s, f | s in reached && f in Get(graph.symbolOwners, s) ensures f in included {
      assert s in Elements(reached) && f in Elements(included);
    }
  }
}
