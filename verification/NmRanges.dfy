/**
 What FunctionDependencyGraph records when the symbols of a section lie end to end, as the functions of a text section
 do: told from the sizes of the symbols alone, without looking for a range that holds an address.
 */
module NmRanges {
  import opened NmWorklist
  import opened NmFunctions
  import opened Sequences

  /** The symbols of a section in the order of their addresses. */
  datatype Tiling = Tiling(from: int, tiles: seq<DumpSymbol>)

  /** The first symbol starts at `from`, and every other one where the one before it ends. */
  ghost predicate EndToEnd(t: Tiling) {
    && (forall k :: 0 <= k < |t.tiles| ==> t.tiles[k].size > 0)
    && (t.tiles != [] ==> t.tiles[0].start == t.from)
    && (forall k :: 0 < k < |t.tiles| ==> t.tiles[k].start == t.tiles[k - 1].start + t.tiles[k - 1].size)
  }

  /** The tiles are the defined symbols of the section. */
  ghost predicate Tiles(t: Tiling, symbols: seq<DumpSymbol>, section: string) {
    && EndToEnd(t)
    && forall x :: x in t.tiles <==> x in symbols && x.kind != "U" && section != "" && x.section == section
  }

  /** Walks over the sizes until the address is reached. */
  function TileAt(t: Tiling, address: int): Found
    decreases |t.tiles|
  {
    if t.tiles == [] || address < t.from then Nowhere
    else if address < t.from + t.tiles[0].size then At(t.tiles[0])
    else TileAt(Tiling(t.from + t.tiles[0].size, t.tiles[1..]), address)
  }

  lemma RestIsEndToEnd(t: Tiling)
    requires EndToEnd(t) && t.tiles != []
    ensures EndToEnd(Tiling(t.from + t.tiles[0].size, t.tiles[1..]))
  {
    var rest := t.tiles[1..];
    forall k | 0 < k < |rest| ensures rest[k].start == rest[k - 1].start + rest[k - 1].size {
      assert rest[k] == t.tiles[k + 1] && rest[k - 1] == t.tiles[k];
    }
  }

  lemma {:induction false} StartsFrom(t: Tiling, k: nat)
    requires EndToEnd(t) && k < |t.tiles|
    ensures t.tiles[k].start >= t.from
    ensures k > 0 ==> t.tiles[k].start >= t.from + t.tiles[0].size
    decreases k
  {
    if k > 0 {
      StartsFrom(t, k - 1);
    }
  }

  /** Every byte of every tile is found, in that tile. */
  lemma {:induction false} ByteOfTile(t: Tiling, k: nat, address: int)
    requires EndToEnd(t) && k < |t.tiles|
    requires t.tiles[k].start <= address < t.tiles[k].start + t.tiles[k].size
    ensures TileAt(t, address) == At(t.tiles[k])
    decreases k
  {
    StartsFrom(t, k);
    if k > 0 {
      RestIsEndToEnd(t);
      ByteOfTile(Tiling(t.from + t.tiles[0].size, t.tiles[1..]), k - 1, address);
    }
  }

  /** Nothing else is. */
  lemma {:induction false} FoundInTile(t: Tiling, address: int)
    requires EndToEnd(t) && TileAt(t, address).At?
    ensures exists k :: 0 <= k < |t.tiles| && TileAt(t, address) == At(t.tiles[k])
                     && t.tiles[k].start <= address < t.tiles[k].start + t.tiles[k].size
    decreases |t.tiles|
  {
    if address >= t.from + t.tiles[0].size {
      RestIsEndToEnd(t);
      var rest := Tiling(t.from + t.tiles[0].size, t.tiles[1..]);
      FoundInTile(rest, address);
      var k :| 0 <= k < |rest.tiles| && TileAt(rest, address) == At(rest.tiles[k])
            && rest.tiles[k].start <= address < rest.tiles[k].start + rest.tiles[k].size;
      assert t.tiles[k + 1] == rest.tiles[k];
    } else {
      assert TileAt(t, address) == At(t.tiles[0]);
    }
  }

  /**
   Of the addresses from the first byte of the first tile to the last byte of the last one each is in exactly one tile,
   and no other address is in any.
   */
  lemma EachAddressOnce(t: Tiling, address: int)
    requires EndToEnd(t) && t.tiles != []
    ensures var last := t.tiles[|t.tiles| - 1];
            TileAt(t, address).At? <==> t.from <= address < last.start + last.size
    ensures forall k :: 0 <= k < |t.tiles| && t.tiles[k].start <= address < t.tiles[k].start + t.tiles[k].size ==>
              TileAt(t, address) == At(t.tiles[k])
  {
    forall k | 0 <= k < |t.tiles| && t.tiles[k].start <= address < t.tiles[k].start + t.tiles[k].size
      ensures TileAt(t, address) == At(t.tiles[k])
    {
      ByteOfTile(t, k, address);
    }
    FoundUpToEnd(t, address);
  }

  lemma {:induction false} FoundUpToEnd(t: Tiling, address: int)
    requires EndToEnd(t) && t.tiles != []
    ensures var last := t.tiles[|t.tiles| - 1];
            TileAt(t, address).At? <==> t.from <= address < last.start + last.size
    decreases |t.tiles|
  {
    var rest := Tiling(t.from + t.tiles[0].size, t.tiles[1..]);
    StartsFrom(t, |t.tiles| - 1);
    if |t.tiles| > 1 {
      RestIsEndToEnd(t);
      FoundUpToEnd(rest, address);
      assert rest.tiles[|rest.tiles| - 1] == t.tiles[|t.tiles| - 1];
    } else {
      assert rest.tiles == [];
    }
  }

  // ----- the search of the code finds the same -----

  lemma {:induction false} InSection(symbols: seq<DumpSymbol>, section: string, x: DumpSymbol)
    ensures x in BySection(symbols, section) <==> x in symbols && x.kind != "U" && section != "" && x.section == section
  {
    if |symbols| > 0 {
      var rest := symbols[..|symbols| - 1];
      InSection(rest, section, x);
      assert symbols == rest + [symbols[|symbols| - 1]];
    }
  }

  lemma {:induction false} CoveringHolds(xs: seq<DumpSymbol>, address: int)
    ensures var found := Covering(xs, address);
            && (found.At? ==> found.sym in xs && found.sym.start <= address < found.sym.start + found.sym.size)
            && (found.Nowhere? ==> forall x :: x in xs ==> !(x.start <= address < x.start + x.size))
  {
    if |xs| > 0 {
      CoveringHolds(xs[1..], address);
      assert xs == [xs[0]] + xs[1..];
    }
  }

  lemma SearchFindsTile(symbols: seq<DumpSymbol>, section: string, t: Tiling, address: int)
    requires Tiles(t, symbols, section)
    ensures Covering(BySection(symbols, section), address) == TileAt(t, address)
  {
    var xs := BySection(symbols, section);
    var found := Covering(xs, address);
    CoveringHolds(xs, address);
    hide EndToEnd, BySection, Covering;
    if found.At? {
      InSection(symbols, section, found.sym);
      var k :| 0 <= k < |t.tiles| && t.tiles[k] == found.sym;
      ByteOfTile(t, k, address);
    } else if TileAt(t, address).At? {
      FoundInTile(t, address);
      var k :| 0 <= k < |t.tiles| && TileAt(t, address) == At(t.tiles[k])
            && t.tiles[k].start <= address < t.tiles[k].start + t.tiles[k].size;
      assert t.tiles[k] in t.tiles;
      InSection(symbols, section, t.tiles[k]);
    }
  }

  // ----- what the graph records -----

  type Layout = map<string, Tiling>

  /** Every section that a relocation of the file mentions is tiled. */
  ghost predicate LaidOut(file: Dump, layout: Layout)
    requires file.Dump?
  {
    && (forall section :: section in layout ==> Tiles(layout[section], file.symbols, section))
    && (forall r :: r in file.relocs ==>
          r.section in layout && (|r.symbol| > 0 && r.symbol[0] == '.' ==> r.symbol in layout))
  }

  /** The symbol that a relocation refers to. */
  function Referred(layout: Layout, r: Reloc): string {
    if |r.symbol| > 0 && r.symbol[0] == '.' && r.symbol in layout then
      match TileAt(layout[r.symbol], r.addend)
      case At(x) => x.symbol
      case Nowhere => r.symbol
    else r.symbol
  }

  /** The relocation lies in the function `caller` and refers to `callee`. */
  predicate Refers(layout: Layout, r: Reloc, caller: string, callee: string) {
    && r.section in layout
    && TileAt(layout[r.section], r.offset).At?
    && TileAt(layout[r.section], r.offset).sym.symbol == caller
    && Referred(layout, r) == callee
  }

  /** The file has a direct call, or a relocation in the one function that refers to the other. */
  ghost predicate CallsByTiles(file: Dump, layout: Layout, caller: string, callee: string)
    requires file.Dump?
  {
    || DirectCall(caller, callee) in file.calls
    || exists r :: r in file.relocs && Refers(layout, r, caller, callee)
  }

  ghost predicate NeedsByTiles(file: Dump, layout: Layout, s: string)
    requires file.Dump?
  {
    || (exists c :: c in file.calls && c.callee == s)
    || (exists r :: r in file.relocs && Referred(layout, r) == s)
  }

  lemma TargetIsReferred(file: Dump, layout: Layout, r: Reloc)
    requires file.Dump? && LaidOut(file, layout) && r in file.relocs
    ensures Target(file.symbols, r) == Referred(layout, r)
    ensures Site(file.symbols, r) == TileAt(layout[r.section], r.offset)
  {
    hide Tiles, TileAt, Covering, BySection;
    SearchFindsTile(file.symbols, r.section, layout[r.section], r.offset);
    if |r.symbol| > 0 && r.symbol[0] == '.' {
      SearchFindsTile(file.symbols, r.symbol, layout[r.symbol], r.addend);
    }
  }

  lemma EdgesFromTiles(file: Dump, layout: Layout, caller: string, callee: string)
    requires file.Dump? && LaidOut(file, layout)
    ensures Edge(Caller(file.name, caller), callee) in EdgesOf(file) <==> CallsByTiles(file, layout, caller, callee)
  {
    forall r | r in file.relocs
      ensures Target(file.symbols, r) == Referred(layout, r)
      ensures Site(file.symbols, r) == TileAt(layout[r.section], r.offset)
    {
      TargetIsReferred(file, layout, r);
    }
    hide Target, Site, Referred, TileAt, Tiles;
    var e := Edge(Caller(file.name, caller), callee);
    if r :| r in file.relocs && Refers(layout, r, caller, callee) {
      assert e in RelocEdges(file.name, file.symbols, file.relocs);
    }
    if DirectCall(caller, callee) in file.calls {
      assert e in CallEdges(file.name, file.calls);
    }
  }

  lemma NeedsFromTiles(file: Dump, layout: Layout, s: string)
    requires file.Dump? && LaidOut(file, layout)
    ensures s in NeedsOf(file) <==> NeedsByTiles(file, layout, s)
  {
    forall r | r in file.relocs ensures Target(file.symbols, r) == Referred(layout, r) {
      TargetIsReferred(file, layout, r);
    }
    hide Target, Referred;
  }

  /** Only this file has edges from its functions. */
  lemma EdgesOfOneFile(files: seq<Dump>, i: nat, caller: string, callee: string)
    requires DistinctNames(files) && i < |files|
    ensures var e := Edge(Caller(files[i].name, caller), callee);
            e in AllEdges(files) <==> e in EdgesOf(files[i])
  {
    var e := Edge(Caller(files[i].name, caller), callee);
    if e in AllEdges(files) {
      EdgeHasFile(files, e);
      var j :| 0 <= j < |files| && e in EdgesOf(files[j]);
      CalleesAreNeeded(files[j], e);
    }
    FileEdgesAreAll(files, i);
  }

  /**
   The whole of what the graph records for the functions of a file whose sections are tiled: a call for each relocation
   in a function and for each direct call, and a reference for each relocation and each direct call.
   */
  lemma RecordedByTiles(g: FunctionDependencyGraph, i: nat, layout: Layout)
    requires g.Valid() && i < |g.fileData| && g.fileData[i].Dump? && LaidOut(g.fileData[i], layout)
    ensures var file := g.fileData[i];
            && (forall caller, callee ::
                  callee in g.Calls(file.name, caller) <==> CallsByTiles(file, layout, caller, callee))
            && (forall s :: s in Get(g.fileRefs, file.name) <==> NeedsByTiles(file, layout, s))
  {
    var file := g.fileData[i];
    hide LaidOut, CallsByTiles, NeedsByTiles, EdgesOf, NeedsOf, AllEdges, OwnersMatch, NamesMatch;
    forall caller, callee
      ensures callee in g.Calls(file.name, caller) <==> CallsByTiles(file, layout, caller, callee)
    {
      EdgesFromTiles(file, layout, caller, callee);
      EdgesOfOneFile(g.fileData, i, caller, callee);
    }
    assert Elements(Get(g.fileRefs, file.name)) == NeedsOf(file);
    forall s ensures s in Get(g.fileRefs, file.name) <==> NeedsByTiles(file, layout, s) {
      NeedsFromTiles(file, layout, s);
      assert s in Get(g.fileRefs, file.name) <==> s in Elements(Get(g.fileRefs, file.name));
    }
  }

  /** A relocation anywhere from the first to the last byte of a function is a call from it. */
  lemma RelocationInTile(g: FunctionDependencyGraph, i: nat, layout: Layout, r: Reloc, k: nat, b: int)
    requires g.Valid() && i < |g.fileData| && g.fileData[i].Dump? && LaidOut(g.fileData[i], layout)
    requires r in g.fileData[i].relocs && (|r.symbol| > 0 ==> r.symbol[0] != '.')
    requires k < |layout[r.section].tiles| && 0 <= b < layout[r.section].tiles[k].size
    requires r.offset == layout[r.section].tiles[k].start + b
    ensures r.symbol in g.Calls(g.fileData[i].name, layout[r.section].tiles[k].symbol)
  {
    var file := g.fileData[i];
    RecordedByTiles(g, i, layout);
    assert Tiles(layout[r.section], file.symbols, r.section);
    ByteOfTile(layout[r.section], k, r.offset);
    assert Refers(layout, r, layout[r.section].tiles[k].symbol, r.symbol);
  }

  /** A relocation against a section and an addend anywhere from the first to the last byte of a symbol refers to it. */
  lemma AddendInTile(g: FunctionDependencyGraph, i: nat, layout: Layout, r: Reloc, k: nat, b: int)
    requires g.Valid() && i < |g.fileData| && g.fileData[i].Dump? && LaidOut(g.fileData[i], layout)
    requires r in g.fileData[i].relocs && |r.symbol| > 0 && r.symbol[0] == '.'
    requires k < |layout[r.symbol].tiles| && 0 <= b < layout[r.symbol].tiles[k].size
    requires r.addend == layout[r.symbol].tiles[k].start + b
    ensures layout[r.symbol].tiles[k].symbol in Get(g.fileRefs, g.fileData[i].name)
  {
    var file := g.fileData[i];
    RecordedByTiles(g, i, layout);
    assert Tiles(layout[r.symbol], file.symbols, r.symbol);
    ByteOfTile(layout[r.symbol], k, r.addend);
    assert Referred(layout, r) == layout[r.symbol].tiles[k].symbol;
  }

  /** The file has a symbol table, and in it the symbol with a global binding and a section. */
  ghost predicate Binds(file: Dump, s: string) {
    file.Dump? && exists x :: x in file.symbols && x.symbol == s && x.kind == "g" && x.section != ""
  }

  /** Exactly the global symbols that have a section make a file an owner. */
  lemma OwnersByBinding(g: FunctionDependencyGraph, f: string, s: string)
    requires g.Valid()
    ensures f in Get(g.symbolOwners, s) <==> exists file :: file in g.fileData && file.name == f && Binds(file, s)
  {
    if file :| file in g.fileData && file.name == f && Binds(file, s) {
      var i :| 0 <= i < |g.fileData| && g.fileData[i] == file;
      assert s in GlobalsOf(g.fileData[i]);
    }
    if f in Get(g.symbolOwners, s) {
      var i :| 0 <= i < |g.fileData| && g.fileData[i].name == f && s in GlobalsOf(g.fileData[i]);
      assert g.fileData[i] in g.fileData && Binds(g.fileData[i], s);
    }
  }
}
