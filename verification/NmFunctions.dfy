/** FunctionDependencyGraph: who calls what, resolved from section ranges and relocations. */
module NmFunctions {
  import opened NmWorklist
  import opened Sequences

  /** A symbol table entry; the section is empty where the dump names none. */
  datatype DumpSymbol = DumpSymbol(symbol: string, kind: string, section: string, start: int, size: int)

  datatype Reloc = Reloc(symbol: string, addend: int, section: string, offset: int)

  datatype DirectCall = DirectCall(caller: string, callee: string)

  /** What is known about one file; a file without a symbol table is skipped altogether. */
  datatype Dump = Unread(name: string)
                | Dump(name: string, symbols: seq<DumpSymbol>, relocs: seq<Reloc>, calls: seq<DirectCall>)

  /** The key `file:function` of the call graphs. */
  datatype Caller = Caller(fileName: string, caller: string)

  datatype Edge = Edge(from: Caller, to: string)

  datatype Found = Nowhere | At(sym: DumpSymbol)

  // ----- what the dump of one file says -----

  predicate IsLocated(x: DumpSymbol) {
    x.kind != "U" && x.section != ""
  }

  /** The defined symbols of a section, in order. */
  function BySection(symbols: seq<DumpSymbol>, section: string): seq<DumpSymbol> {
    if |symbols| == 0 then []
    else
      var x := symbols[|symbols| - 1];
      BySection(symbols[..|symbols| - 1], section) + (if IsLocated(x) && x.section == section then [x] else [])
  }

  /** The range of a symbol holds the address. */
  predicate Holds(x: DumpSymbol, address: int) {
    x.start <= address < x.start + x.size
  }

  ghost predicate IsFirst(symbols: seq<DumpSymbol>, address: int, i: nat) {
    i < |symbols| && Holds(symbols[i], address) && forall j :: 0 <= j < i ==> !Holds(symbols[j], address)
  }

  /** The first symbol whose range holds the address. */
  function Covering(symbols: seq<DumpSymbol>, address: int): Found {
    if |symbols| == 0 then Nowhere
    else if Holds(symbols[0], address) then At(symbols[0])
    else Covering(symbols[1..], address)
  }

  /** The symbol a relocation refers to: a section name stands for the local symbol at the addend. */
  function Target(symbols: seq<DumpSymbol>, r: Reloc): string {
    if |r.symbol| > 0 && r.symbol[0] == '.' then
      match Covering(BySection(symbols, r.symbol), r.addend)
      case At(x) => x.symbol
      case Nowhere => r.symbol
    else r.symbol
  }

  /** The function a relocation sits in. */
  function Site(symbols: seq<DumpSymbol>, r: Reloc): Found {
    Covering(BySection(symbols, r.section), r.offset)
  }

  ghost function RelocEdges(name: string, symbols: seq<DumpSymbol>, relocs: seq<Reloc>): set<Edge> {
    set r | r in relocs && Site(symbols, r).At? :: Edge(Caller(name, Site(symbols, r).sym.symbol), Target(symbols, r))
  }

  ghost function CallEdges(name: string, calls: seq<DirectCall>): set<Edge> {
    set c | c in calls :: Edge(Caller(name, c.caller), c.callee)
  }

  ghost function RelocNeeds(symbols: seq<DumpSymbol>, relocs: seq<Reloc>): set<string> {
    set r | r in relocs :: Target(symbols, r)
  }

  ghost function CallNeeds(calls: seq<DirectCall>): set<string> {
    set c | c in calls :: c.callee
  }

  ghost function EdgesOf(file: Dump): set<Edge> {
    if file.Unread? then {} else RelocEdges(file.name, file.symbols, file.relocs) + CallEdges(file.name, file.calls)
  }

  ghost function NeedsOf(file: Dump): set<string> {
    if file.Unread? then {} else RelocNeeds(file.symbols, file.relocs) + CallNeeds(file.calls)
  }

  /** Only a global binding makes a file an owner. */
  ghost function GlobalNames(symbols: seq<DumpSymbol>): set<string> {
    set x | x in symbols && IsLocated(x) && x.kind == "g" :: x.symbol
  }

  ghost function SymbolNames(symbols: seq<DumpSymbol>): set<string> {
    set x | x in symbols :: x.symbol
  }

  ghost function GlobalsOf(file: Dump): set<string> {
    if file.Unread? then {} else GlobalNames(file.symbols)
  }

  ghost function NamesOf(file: Dump): set<string> {
    if file.Unread? then {} else SymbolNames(file.symbols) + NeedsOf(file)
  }

  /** Whatever a function calls, its file references. */
  lemma CalleesAreNeeded(file: Dump, e: Edge)
    requires e in EdgesOf(file)
    ensures e.from.fileName == file.name && e.to in NeedsOf(file)
  {
  }

  // ----- the loops of #init -----

  /** Array.find and the loop over the symbols of a section. */
  method FindCovering(symbols: seq<DumpSymbol>, address: int) returns (found: Found)
    ensures found == Covering(symbols, address)
    ensures found.At? ==> exists i: nat :: IsFirst(symbols, address, i) && symbols[i] == found.sym
    ensures found.Nowhere? ==> forall i :: 0 <= i < |symbols| ==> !Holds(symbols[i], address)
  {
    assert symbols[0..] == symbols;
    for i := 0 to |symbols|
      invariant Covering(symbols[i..], address) == Covering(symbols, address)
      invariant forall j :: 0 <= j < i ==> !Holds(symbols[j], address)
    {
      if Holds(symbols[i], address) {
        assert IsFirst(symbols, address, i);
        return At(symbols[i]);
      }
      assert symbols[i..][1..] == symbols[i + 1..];
    }
    return Nowhere;
  }

  /** symbolsBySection: the loop that groups the symbols. */
  method GroupBySection(symbols: seq<DumpSymbol>) returns (bySection: map<string, seq<DumpSymbol>>)
    ensures forall section :: Get(bySection, section) == BySection(symbols, section)
  {
    bySection := map[];
    for i := 0 to |symbols|
      invariant forall section :: Get(bySection, section) == BySection(symbols[..i], section)
    {
      var x := symbols[i];
      assert symbols[..i + 1][..i] == symbols[..i];
      if IsLocated(x) {
        bySection := bySection[x.section := Get(bySection, x.section) + [x]];
      }
    }
    assert symbols[..|symbols|] == symbols;
  }

  /** The relocation's symbol, after the section name in it is resolved. */
  method ResolveTarget(bySection: map<string, seq<DumpSymbol>>, r: Reloc, ghost symbols: seq<DumpSymbol>)
    returns (target: string)
    requires forall section :: Get(bySection, section) == BySection(symbols, section)
    ensures target == Target(symbols, r)
  {
    target := r.symbol;
    if |target| > 0 && target[0] == '.' && target in bySection {
      var resolved := FindCovering(bySection[target], r.addend);
      assert bySection[target] == Get(bySection, target);
      if resolved.At? {
        target := resolved.sym.symbol;
      }
    } else if |target| > 0 && target[0] == '.' {
      assert Get(bySection, target) == [];
    }
  }

  // ----- the graph -----

  ghost function AllEdges(files: seq<Dump>): set<Edge> {
    if |files| == 0 then {} else AllEdges(files[..|files| - 1]) + EdgesOf(files[|files| - 1])
  }

  /** callGraph and reverseCallGraph hold exactly these edges, one by callee and one by caller. */
  ghost predicate CallsMatch(callGraph: map<string, seq<Caller>>, reverse: map<Caller, seq<string>>, edges: set<Edge>) {
    && (forall s, k :: k in Get(callGraph, s) <==> Edge(k, s) in edges)
    && (forall s, k :: s in Get(reverse, k) <==> Edge(k, s) in edges)
  }

  ghost predicate OwnersMatch(owners: Relation, files: seq<Dump>) {
    forall s, f ::
        f in Get(owners, s) <==> exists i :: 0 <= i < |files| && files[i].name == f && s in GlobalsOf(files[i])
  }

  ghost predicate RefsMatch(refs: Relation, files: seq<Dump>) {
    && (forall i :: 0 <= i < |files| ==> Elements(Get(refs, files[i].name)) == NeedsOf(files[i]))
    && (forall name :: name in refs ==> exists i :: 0 <= i < |files| && files[i].name == name)
  }

  ghost predicate NamesMatch(all: set<string>, referenced: set<string>, files: seq<Dump>) {
    && (forall s :: s in all <==> MentionedIn(files, s))
    && (forall s :: s in referenced <==> NeededIn(files, s))
  }

  ghost predicate DistinctNames(files: seq<Dump>) {
    forall i, j :: 0 <= i < j < |files| ==> files[i].name != files[j].name
  }

  lemma {:induction false} EdgeHasFile(files: seq<Dump>, e: Edge)
    requires e in AllEdges(files)
    ensures exists i :: 0 <= i < |files| && e in EdgesOf(files[i])
  {
    if e !in EdgesOf(files[|files| - 1]) {
      EdgeHasFile(files[..|files| - 1], e);
      var i :| 0 <= i < |files| - 1 && e in EdgesOf(files[..|files| - 1][i]);
      assert e in EdgesOf(files[i]);
    }
  }

  /** Across all files: the callee of an edge is a reference of the caller's own file. */
  lemma CalleeIsReference(files: seq<Dump>, refs: Relation, e: Edge)
    requires RefsMatch(refs, files) && e in AllEdges(files)
    ensures e.to in Get(refs, e.from.fileName)
  {
    EdgeHasFile(files, e);
    var i :| 0 <= i < |files| && e in EdgesOf(files[i]);
    CalleesAreNeeded(files[i], e);
    assert e.to in Elements(Get(refs, files[i].name));
  }

  lemma {:induction false} FileEdgesAreAll(files: seq<Dump>, i: nat)
    requires i < |files|
    ensures EdgesOf(files[i]) <= AllEdges(files)
    decreases |files|
  {
    if i < |files| - 1 {
      FileEdgesAreAll(files[..|files| - 1], i);
    }
  }

  function FileNames(files: seq<Dump>): seq<string> {
    seq(|files|, i requires 0 <= i < |files| => files[i].name)
  }

  lemma NamesAreDistinct(files: seq<Dump>)
    requires DistinctNames(files)
    ensures Distinct(FileNames(files))
  {
  }

  ghost predicate MentionedIn(files: seq<Dump>, s: string) {
    exists i :: 0 <= i < |files| && s in NamesOf(files[i])
  }

  ghost predicate NeededIn(files: seq<Dump>, s: string) {
    exists i :: 0 <= i < |files| && s in NeedsOf(files[i])
  }

  /** Owners are files, so the least set holds only files. */
  lemma IncludedAreFiles(included: seq<string>, entry: string, owners: Relation, refs: Relation, files: seq<Dump>)
    requires OwnersMatch(owners, files) && Linked(Elements(included), entry, owners, refs)
    ensures forall x :: x in included ==> x in FileNames(files)
  {
    hide GlobalsOf;
    var all := Elements(FileNames(files));
    forall d, s | d in Get(owners, s) ensures d in all {
      var i :| 0 <= i < |files| && files[i].name == d && s in GlobalsOf(files[i]);
      assert FileNames(files)[i] == d;
    }
    assert Sufficient(all, entry, owners, refs);
    forall x | x in included ensures x in FileNames(files) {
      assert x in Elements(included) && x in all;
    }
  }

  class FunctionDependencyGraph {
    const fileData: seq<Dump>
    var symbolOwners: Relation
    var fileRefs: Relation
    var allSymbols: seq<string>
    var referencedInRelocs: seq<string>
    var callGraph: map<string, seq<Caller>>
    var reverseCallGraph: map<Caller, seq<string>>

    ghost predicate Valid()
      reads this
    {
      DistinctNames(fileData) && Matches(fileData)
    }

    /** Every map and set of the graph says what these files say. */
    ghost predicate Matches(files: seq<Dump>)
      reads this
    {
      && OwnersMatch(symbolOwners, files)
      && RefsMatch(fileRefs, files)
      && NamesMatch(Elements(allSymbols), Elements(referencedInRelocs), files)
      && CallsMatch(callGraph, reverseCallGraph, AllEdges(files))
    }

    /** #init. */
    constructor (fileData: seq<Dump>)
      requires DistinctNames(fileData)
      ensures this.fileData == fileData && Valid()
    {
      this.fileData := fileData;
      symbolOwners, fileRefs, allSymbols, referencedInRelocs := map[], map[], [], [];
      callGraph, reverseCallGraph := map[], map[];
      new;
      for i := 0 to |fileData|
        invariant this.fileData == fileData && Matches(fileData[..i])
      {
        hide Matches;
        ScanFile(i);
      }
      assert fileData[..|fileData|] == fileData;
    }

    /** One round of the outer loop. */
    method ScanFile(i: nat)
      requires i < |fileData| && DistinctNames(fileData) && Matches(fileData[..i])
      modifies this
      ensures Matches(fileData[..i + 1])
    {
      hide OwnersMatch, RefsMatch, NamesMatch, CallsMatch, EdgesOf, NeedsOf, NamesOf, GlobalsOf, AllEdges, OwnersGain;
      var file := fileData[i];
      ghost var edges := AllEdges(fileData[..i]);
      EdgesOneMore(fileData, i);
      if file.Unread? {
        UnreadAddsNothing(file, symbolOwners);
        NothingMore(edges);
        NothingMore(Elements(allSymbols));
        NothingMore(Elements(referencedInRelocs));
      } else {
        ReadFile(file, edges);
      }
      OwnersOneMore(symbolOwners, old(symbolOwners), fileData, i);
      RefsOneMore(fileRefs, old(fileRefs), fileData, i);
      NamesOneMore(old(Elements(allSymbols)), old(Elements(referencedInRelocs)), fileData, i);
    }

    /** One round for a file that has a symbol table. */
    method ReadFile(file: Dump, ghost edges: set<Edge>)
      requires file.Dump? && CallsMatch(callGraph, reverseCallGraph, edges)
      modifies this
      ensures OwnersGain(symbolOwners, old(symbolOwners), file.name, GlobalsOf(file))
      ensures RefsGain(fileRefs, old(fileRefs), file)
      ensures Elements(allSymbols) == old(Elements(allSymbols)) + NamesOf(file)
      ensures Elements(referencedInRelocs) == old(Elements(referencedInRelocs)) + NeedsOf(file)
      ensures CallsMatch(callGraph, reverseCallGraph, edges + EdgesOf(file))
    {
      hide CallsMatch, OwnersGain, RelocNeeds, RelocEdges, CallNeeds, CallEdges, SymbolNames, GlobalNames;
      ScanSymbols(file.name, file.symbols);
      ghost var inRelocs := RelocEdges(file.name, file.symbols, file.relocs);
      var refs := ScanRelocs(file.name, file.symbols, file.relocs, edges);
      refs := ScanCalls(file.name, file.calls, refs, edges + inRelocs);
      fileRefs := fileRefs[file.name := refs];
      assert edges + inRelocs + CallEdges(file.name, file.calls) == edges + EdgesOf(file);
    }

    // ----- queries -----

    /** calledBy. */
    function CalledBy(symbolName: string): seq<Caller>
      reads this
    {
      Get(callGraph, symbolName)
    }

    /** calls. */
    function Calls(fileName: string, functionName: string): seq<string>
      reads this
    {
      Get(reverseCallGraph, Caller(fileName, functionName))
    }

    /** The two call graphs are converse relations, and hold what the dumps say. */
    lemma CallGraphsAreConverse(fileName: string, caller: string, callee: string)
      requires Valid()
      ensures Caller(fileName, caller) in CalledBy(callee) <==> callee in Calls(fileName, caller)
      ensures callee in Calls(fileName, caller) <==>
                exists i :: 0 <= i < |fileData| && Edge(Caller(fileName, caller), callee) in EdgesOf(fileData[i])
    {
      var e := Edge(Caller(fileName, caller), callee);
      if e in AllEdges(fileData) { EdgeHasFile(fileData, e); }
      forall i | 0 <= i < |fileData| && e in EdgesOf(fileData[i]) ensures e in AllEdges(fileData) {
        FileEdgesAreAll(fileData, i);
      }
    }

    /** compute. */
    method Compute(entry: string)
      returns (included: seq<string>, unusedObjects: seq<string>, unusedSymbols: seq<string>)
      requires Valid()
      ensures Distinct(included) && Linked(Elements(included), entry, symbolOwners, fileRefs)
      ensures Distinct(included + unusedObjects) && Elements(included + unusedObjects) == Elements(FileNames(fileData))
      ensures unusedObjects == Outside(FileNames(fileData), included)
      ensures forall s :: s in unusedSymbols <==> MentionedIn(fileData, s) && !NeededIn(fileData, s)
    {
      hide OwnersMatch, RefsMatch, CallsMatch, Outside, Distinct, NeedsOf, NamesOf;
      ghost var pushed;
      included, pushed := Resolve(entry, symbolOwners, fileRefs);
      unusedObjects := Outside(FileNames(fileData), included);
      IncludedAreFiles(included, entry, symbolOwners, fileRefs, fileData);
      NamesAreDistinct(fileData);
      Partition(FileNames(fileData), included);
      unusedSymbols := [];
      for i := 0 to |allSymbols|
        invariant forall s :: s in unusedSymbols <==> s in allSymbols[..i] && s !in referencedInRelocs
      {
        assert allSymbols[..i + 1] == allSymbols[..i] + [allSymbols[i]];
        if allSymbols[i] !in referencedInRelocs {
          unusedSymbols := unusedSymbols + [allSymbols[i]];
        }
      }
      assert allSymbols[..|allSymbols|] == allSymbols;
      assert forall s :: s in allSymbols <==> s in Elements(allSymbols);
      assert forall s :: s in referencedInRelocs <==> s in Elements(referencedInRelocs);
    }

    // ----- the steps of #init -----

    /** addCall: the callers of a function are objects of their own, so they are never merged. */
    method AddCall(fileName: string, caller: string, callee: string, ghost edges: set<Edge>)
      requires CallsMatch(callGraph, reverseCallGraph, edges)
      modifies this`callGraph, this`reverseCallGraph
      ensures CallsMatch(callGraph, reverseCallGraph, edges + {Edge(Caller(fileName, caller), callee)})
    {
      var key := Caller(fileName, caller);
      callGraph := callGraph[callee := Get(callGraph, callee) + [key]];
      reverseCallGraph := AddTo(reverseCallGraph, key, callee);
    }

    /** The bookkeeping for a symbol that is referenced. */
    method AddReference(symbol: string, refs0: seq<string>) returns (refs: seq<string>)
      modifies this`allSymbols, this`referencedInRelocs
      ensures Elements(allSymbols) == old(Elements(allSymbols)) + {symbol}
      ensures Elements(referencedInRelocs) == old(Elements(referencedInRelocs)) + {symbol}
      ensures Elements(refs) == Elements(refs0) + {symbol}
    {
      ElementsOfAdd(allSymbols, symbol);
      ElementsOfAdd(referencedInRelocs, symbol);
      ElementsOfAdd(refs0, symbol);
      allSymbols := Add(allSymbols, symbol);
      referencedInRelocs := Add(referencedInRelocs, symbol);
      refs := Add(refs0, symbol);
    }

    /** The loop over the symbol table. */
    method ScanSymbols(name: string, symbols: seq<DumpSymbol>)
      modifies this`allSymbols, this`symbolOwners
      ensures Elements(allSymbols) == old(Elements(allSymbols)) + SymbolNames(symbols)
      ensures OwnersGain(symbolOwners, old(symbolOwners), name, GlobalNames(symbols))
    {
      hide SymbolNames, GlobalNames, OwnersGain;
      NoSymbols(symbolOwners, name, symbols);
      for i := 0 to |symbols|
        invariant Elements(allSymbols) == old(Elements(allSymbols)) + SymbolNames(symbols[..i])
        invariant OwnersGain(symbolOwners, old(symbolOwners), name, GlobalNames(symbols[..i]))
      {
        var x := symbols[i];
        SymbolsOneMore(symbols, i);
        ElementsOfAdd(allSymbols, x.symbol);
        allSymbols := Add(allSymbols, x.symbol);
        if IsLocated(x) && x.kind == "g" {
          OwnerOfOneMore(symbolOwners, old(symbolOwners), name, GlobalNames(symbols[..i]), x.symbol);
          symbolOwners := AddTo(symbolOwners, x.symbol, name);
        } else {
          assert GlobalNames(symbols[..i + 1]) == GlobalNames(symbols[..i]);
        }
      }
      assert symbols[..|symbols|] == symbols;
    }

    /** The loop over the relocations. */
    method ScanRelocs(name: string, symbols: seq<DumpSymbol>, relocs: seq<Reloc>, ghost edges: set<Edge>)
      returns (refs: seq<string>)
      requires CallsMatch(callGraph, reverseCallGraph, edges)
      modifies this`allSymbols, this`referencedInRelocs, this`callGraph, this`reverseCallGraph
      ensures CallsMatch(callGraph, reverseCallGraph, edges + RelocEdges(name, symbols, relocs))
      ensures Elements(refs) == RelocNeeds(symbols, relocs)
      ensures Elements(allSymbols) == old(Elements(allSymbols)) + RelocNeeds(symbols, relocs)
      ensures Elements(referencedInRelocs) == old(Elements(referencedInRelocs)) + RelocNeeds(symbols, relocs)
    {
      hide CallsMatch, Target, Site, BySection, Covering;
      var bySection := GroupBySection(symbols);
      refs := [];
      assert edges + RelocEdges(name, symbols, relocs[..0]) == edges;
      for i := 0 to |relocs|
        invariant CallsMatch(callGraph, reverseCallGraph, edges + RelocEdges(name, symbols, relocs[..i]))
        invariant Elements(refs) == RelocNeeds(symbols, relocs[..i])
        invariant Elements(allSymbols) == old(Elements(allSymbols)) + RelocNeeds(symbols, relocs[..i])
        invariant Elements(referencedInRelocs) == old(Elements(referencedInRelocs)) + RelocNeeds(symbols, relocs[..i])
      {
        var r := relocs[i];
        var symbol := ResolveTarget(bySection, r, symbols);
        refs := AddReference(symbol, refs);
        RelocsOneMore(name, symbols, relocs, i);
        var site := FindSite(bySection, r, symbols);
        if site.At? {
          AddCall(name, site.sym.symbol, symbol, edges + RelocEdges(name, symbols, relocs[..i]));
          assert edges + RelocEdges(name, symbols, relocs[..i + 1])
              == edges + RelocEdges(name, symbols, relocs[..i]) + {Edge(Caller(name, site.sym.symbol), symbol)};
        } else {
          assert RelocEdges(name, symbols, relocs[..i + 1]) == RelocEdges(name, symbols, relocs[..i]);
        }
      }
      assert relocs[..|relocs|] == relocs;
    }

    /** The loop over the direct calls. */
    method ScanCalls(name: string, calls: seq<DirectCall>, refs0: seq<string>, ghost edges: set<Edge>)
      returns (refs: seq<string>)
      requires CallsMatch(callGraph, reverseCallGraph, edges)
      modifies this`allSymbols, this`referencedInRelocs, this`callGraph, this`reverseCallGraph
      ensures CallsMatch(callGraph, reverseCallGraph, edges + CallEdges(name, calls))
      ensures Elements(refs) == Elements(refs0) + CallNeeds(calls)
      ensures Elements(allSymbols) == old(Elements(allSymbols)) + CallNeeds(calls)
      ensures Elements(referencedInRelocs) == old(Elements(referencedInRelocs)) + CallNeeds(calls)
    {
      hide CallsMatch;
      refs := refs0;
      assert edges + CallEdges(name, calls[..0]) == edges;
      for i := 0 to |calls|
        invariant CallsMatch(callGraph, reverseCallGraph, edges + CallEdges(name, calls[..i]))
        invariant Elements(refs) == Elements(refs0) + CallNeeds(calls[..i])
        invariant Elements(allSymbols) == old(Elements(allSymbols)) + CallNeeds(calls[..i])
        invariant Elements(referencedInRelocs) == old(Elements(referencedInRelocs)) + CallNeeds(calls[..i])
      {
        var c := calls[i];
        refs := AddReference(c.callee, refs);
        CallsOneMore(name, calls, i);
        AddCall(name, c.caller, c.callee, edges + CallEdges(name, calls[..i]));
        assert edges + CallEdges(name, calls[..i + 1])
            == edges + CallEdges(name, calls[..i]) + {Edge(Caller(name, c.caller), c.callee)};
      }
      assert calls[..|calls|] == calls;
    }
  }

  method FindSite(bySection: map<string, seq<DumpSymbol>>, r: Reloc, ghost symbols: seq<DumpSymbol>)
    returns (site: Found)
    requires forall section :: Get(bySection, section) == BySection(symbols, section)
    ensures site == Site(symbols, r)
  {
    if r.section !in bySection {
      assert Get(bySection, r.section) == [];
      return Nowhere;
    }
    assert bySection[r.section] == Get(bySection, r.section);
    site := FindCovering(bySection[r.section], r.offset);
  }

  /** `owners` is `owners0` with `name` as an owner of the symbols. */
  ghost predicate OwnersGain(owners: Relation, owners0: Relation, name: string, symbols: set<string>) {
    forall s, f :: f in Get(owners, s) <==> f in Get(owners0, s) || (f == name && s in symbols)
  }

  /** `refs` is `refs0` with an entry for the file, if it was read. */
  ghost predicate RefsGain(refs: Relation, refs0: Relation, file: Dump) {
    if file.Unread? then refs == refs0
    else file.name in refs && Elements(refs[file.name]) == NeedsOf(file) && refs == refs0[file.name := refs[file.name]]
  }

  lemma EdgesOneMore(files: seq<Dump>, i: nat)
    requires i < |files|
    ensures AllEdges(files[..i + 1]) == AllEdges(files[..i]) + EdgesOf(files[i])
  {
    assert files[..i + 1][..i] == files[..i];
  }

  lemma UnreadAddsNothing(file: Dump, owners: Relation)
    requires file.Unread?
    ensures EdgesOf(file) == {} && NeedsOf(file) == {} && NamesOf(file) == {}
    ensures OwnersGain(owners, owners, file.name, GlobalsOf(file))
  {
  }

  lemma NothingMore<T>(s: set<T>)
    ensures s + {} == s
  {
  }

  lemma OwnersOneMore(owners: Relation, owners0: Relation, files: seq<Dump>, i: nat)
    requires i < |files| && OwnersMatch(owners0, files[..i])
    requires OwnersGain(owners, owners0, files[i].name, GlobalsOf(files[i]))
    ensures OwnersMatch(owners, files[..i + 1])
  {
    hide GlobalsOf, Get;
    var now := files[..i + 1];
    assert now[..i] == files[..i] && now[i] == files[i];
    forall s, f
      ensures f in Get(owners, s) <==> exists k :: 0 <= k < |now| && now[k].name == f && s in GlobalsOf(now[k])
    {
      if f in Get(owners0, s) {
        var k :| 0 <= k < i && files[..i][k].name == f && s in GlobalsOf(files[..i][k]);
        assert now[k] == files[..i][k];
      } else if f in Get(owners, s) {
        assert now[i].name == f;
      } else {
        forall k | 0 <= k < |now| && now[k].name == f ensures s !in GlobalsOf(now[k]) {
          if k < i { assert files[..i][k] == now[k]; }
        }
      }
    }
  }

  lemma RefsOneMore(refs: Relation, refs0: Relation, files: seq<Dump>, i: nat)
    requires i < |files| && DistinctNames(files) && RefsMatch(refs0, files[..i]) && RefsGain(refs, refs0, files[i])
    ensures RefsMatch(refs, files[..i + 1])
  {
    hide NeedsOf;
    var now := files[..i + 1];
    assert now[..i] == files[..i] && now[i] == files[i];
    if files[i].Unread? { UnreadAddsNothing(files[i], refs); }
    forall k | 0 <= k < |now| ensures Elements(Get(refs, now[k].name)) == NeedsOf(now[k]) {
      if k < i {
        assert files[..i][k] == now[k] && files[k].name != files[i].name;
      } else if now[k].Unread? {
        assert now[k].name !in refs0;
      }
    }
    forall name | name in refs ensures exists k :: 0 <= k < |now| && now[k].name == name {
      if name in refs0 {
        var k :| 0 <= k < i && files[..i][k].name == name;
        assert now[k].name == name;
      } else {
        assert now[i].name == name;
      }
    }
  }

  lemma NamesOneMore(all: set<string>, referenced: set<string>, files: seq<Dump>, i: nat)
    requires i < |files| && NamesMatch(all, referenced, files[..i])
    ensures NamesMatch(all + NamesOf(files[i]), referenced + NeedsOf(files[i]), files[..i + 1])
  {
    hide NeedsOf, NamesOf;
    var now := files[..i + 1];
    assert now[i] == files[i] && forall k :: 0 <= k < i ==> now[k] == files[..i][k];
  }

  lemma OwnerOfOneMore(owners: Relation, owners0: Relation, name: string, symbols: set<string>, s: string)
    requires OwnersGain(owners, owners0, name, symbols)
    ensures OwnersGain(AddTo(owners, s, name), owners0, name, symbols + {s})
  {
  }

  lemma NoSymbols(owners: Relation, name: string, symbols: seq<DumpSymbol>)
    ensures SymbolNames(symbols[..0]) == {} && GlobalNames(symbols[..0]) == {}
    ensures OwnersGain(owners, owners, name, {})
  {
  }

  lemma SymbolsOneMore(symbols: seq<DumpSymbol>, i: nat)
    requires i < |symbols|
    ensures SymbolNames(symbols[..i + 1]) == SymbolNames(symbols[..i]) + {symbols[i].symbol}
    ensures GlobalNames(symbols[..i + 1]) == GlobalNames(symbols[..i])
          + (if IsLocated(symbols[i]) && symbols[i].kind == "g" then {symbols[i].symbol} else {})
  {
    assert symbols[..i + 1] == symbols[..i] + [symbols[i]];
  }

  lemma RelocsOneMore(name: string, symbols: seq<DumpSymbol>, relocs: seq<Reloc>, i: nat)
    requires i < |relocs|
    ensures RelocNeeds(symbols, relocs[..i + 1]) == RelocNeeds(symbols, relocs[..i]) + {Target(symbols, relocs[i])}
    ensures RelocEdges(name, symbols, relocs[..i + 1]) == RelocEdges(name, symbols, relocs[..i])
          + (match Site(symbols, relocs[i])
             case At(x) => {Edge(Caller(name, x.symbol), Target(symbols, relocs[i]))}
             case Nowhere => {})
  {
    hide Target, Site;
    assert relocs[..i + 1] == relocs[..i] + [relocs[i]];
  }

  lemma CallsOneMore(name: string, calls: seq<DirectCall>, i: nat)
    requires i < |calls|
    ensures CallNeeds(calls[..i + 1]) == CallNeeds(calls[..i]) + {calls[i].callee}
    ensures CallEdges(name, calls[..i + 1])
        == CallEdges(name, calls[..i]) + {Edge(Caller(name, calls[i].caller), calls[i].callee)}
  {
    assert calls[..i + 1] == calls[..i] + [calls[i]];
  }
}
