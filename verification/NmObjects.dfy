/** ObjectDependencyGraph: which object files linking from an entry point pulls in, after nm. */
module NmObjects {
  import opened NmWorklist
  import opened Sequences

  datatype NmSymbol = NmSymbol(symbol: string, kind: string)

  datatype ObjectFile = ObjectFile(name: string, symbols: seq<NmSymbol>)

  /** /^[A-TV-Z]$/: a global symbol that is defined. */
  predicate IsDefinedKind(kind: string) {
    |kind| == 1 && 'A' <= kind[0] <= 'Z' && kind[0] != 'U'
  }

  ghost predicate DefinedIn(symbols: seq<NmSymbol>, s: string) {
    exists x :: x in symbols && x.symbol == s && IsDefinedKind(x.kind)
  }

  predicate ReferencedIn(symbols: seq<NmSymbol>, s: string) {
    NmSymbol(s, "U") in symbols
  }

  function Names(files: seq<ObjectFile>): seq<string> {
    seq(|files|, i requires 0 <= i < |files| => files[i].name)
  }

  /** The kinds of defined global symbols: every capital letter but U. */
  const DEFINED_KINDS: set<string> := {
    "A", "B", "C", "D", "E", "F", "G", "H", "I", "J", "K", "L", "M",
    "N", "O", "P", "Q", "R", "S", "T", "V", "W", "X", "Y", "Z"
  }

  /** A file of that name lists the symbol with one of the kinds. */
  ghost predicate Lists(files: seq<ObjectFile>, name: string, s: string, kinds: set<string>) {
    exists file, x :: file in files && file.name == name && x in file.symbols && x.symbol == s && x.kind in kinds
  }

  lemma DefinedKinds(kind: string)
    ensures IsDefinedKind(kind) <==> kind in DEFINED_KINDS
  {
    if |kind| == 1 {
      assert kind == [kind[0]];
    }
  }

  /** No key without an element, no element twice. */
  ghost predicate IsRelation(m: Relation) {
    forall s :: s in m ==> m[s] != [] && Distinct(m[s])
  }

  /** `f` is one of the files and defines s. */
  ghost predicate Owns(files: seq<ObjectFile>, f: string, s: string) {
    exists file :: file in files && file.name == f && DefinedIn(file.symbols, s)
  }

  /** symbolOwners as the file data determines it. */
  ghost predicate OwnersDescribe(owners: Relation, files: seq<ObjectFile>)
    ensures OwnersDescribe(owners, files) ==> IsRelation(owners)
  {
    IsRelation(owners) && forall f, s :: f in Get(owners, s) <==> Owns(files, f, s)
  }

  /** fileRefs as the file data determines it. */
  ghost predicate RefsDescribe(refs: Relation, files: seq<ObjectFile>) {
    && (forall i :: 0 <= i < |files| ==> RefsOf(refs, files[i]))
    && (forall name :: name in refs ==> exists i :: 0 <= i < |files| && files[i].name == name)
  }

  ghost predicate RefsOf(refs: Relation, file: ObjectFile) {
    file.name in refs && Distinct(refs[file.name]) && forall s ::
        s in refs[file.name] <==> ReferencedIn(file.symbols, s)
  }

  /** The inner loop of the constructor. */
  method ScanFile(file: ObjectFile, owners0: Relation) returns (owners: Relation, refs: seq<string>)
    requires IsRelation(owners0)
    ensures IsRelation(owners) && Distinct(refs)
    ensures forall f, s ::
        f in Get(owners, s) <==> f in Get(owners0, s) || (f == file.name && DefinedIn(file.symbols, s))
    ensures forall s :: s in refs <==> ReferencedIn(file.symbols, s)
  {
    owners, refs := owners0, [];
    for i := 0 to |file.symbols|
      invariant IsRelation(owners) && Distinct(refs)
      invariant forall f, s ::
          f in Get(owners, s) <==> f in Get(owners0, s) || (f == file.name && DefinedIn(file.symbols[..i], s))
      invariant forall s :: s in refs <==> ReferencedIn(file.symbols[..i], s)
    {
      var x := file.symbols[i];
      DefinedOneMore(file.symbols, i);
      if x.kind == "U" {
        refs := Add(refs, x.symbol);
      } else if IsDefinedKind(x.kind) {
        owners := AddTo(owners, x.symbol, file.name);
      }
    }
    assert file.symbols[..|file.symbols|] == file.symbols;
  }

  lemma DefinedOneMore(symbols: seq<NmSymbol>, i: nat)
    requires i < |symbols|
    ensures forall s ::
        ReferencedIn(symbols[..i + 1], s) <==> ReferencedIn(symbols[..i], s) || symbols[i] == NmSymbol(s, "U")
    ensures forall s :: DefinedIn(symbols[..i + 1], s) <==>
              DefinedIn(symbols[..i], s) || (symbols[i].symbol == s && IsDefinedKind(symbols[i].kind))
  {
    assert symbols[..i + 1] == symbols[..i] + [symbols[i]];
    forall s | DefinedIn(symbols[..i], s) || (symbols[i].symbol == s && IsDefinedKind(symbols[i].kind))
      ensures DefinedIn(symbols[..i + 1], s)
    {
      var x :| (x in symbols[..i] || x == symbols[i]) && x.symbol == s && IsDefinedKind(x.kind);
      assert x in symbols[..i + 1];
    }
  }

  lemma OwnsOneMore(files: seq<ObjectFile>, i: nat)
    requires i < |files|
    ensures forall f, s :: Owns(files[..i + 1], f, s) <==>
              Owns(files[..i], f, s) || (f == files[i].name && DefinedIn(files[i].symbols, s))
  {
    assert files[..i + 1] == files[..i] + [files[i]];
    forall f, s | Owns(files[..i], f, s) || (f == files[i].name && DefinedIn(files[i].symbols, s))
      ensures Owns(files[..i + 1], f, s)
    {
      var file :| (file in files[..i] || file == files[i]) && file.name == f && DefinedIn(file.symbols, s);
      assert file in files[..i + 1];
    }
  }

  class ObjectDependencyGraph {
    const fileData: seq<ObjectFile>
    var symbolOwners: Relation
    var fileRefs: Relation

    ghost predicate Valid()
      reads this
    {
      Distinct(Names(fileData)) && OwnersDescribe(symbolOwners, fileData) && RefsDescribe(fileRefs, fileData)
    }

    constructor (fileData: seq<ObjectFile>)
      requires Distinct(Names(fileData))
      ensures this.fileData == fileData && Valid()
      ensures forall f, s :: f in Get(symbolOwners, s) <==> Lists(fileData, f, s, DEFINED_KINDS)
      ensures forall f, s :: s in Get(fileRefs, f) <==> Lists(fileData, f, s, {"U"})
    {
      this.fileData := fileData;
      symbolOwners, fileRefs := map[], map[];
      new;
      hide OwnersDescribe, RefsDescribe, DefinedIn, ReferencedIn, Owns, Get;
      NothingDescribed(fileData);
      for i := 0 to |fileData|
        invariant this.fileData == fileData
        invariant OwnersDescribe(symbolOwners, fileData[..i]) && RefsDescribe(fileRefs, fileData[..i])
      {
        var owners, refs := ScanFile(fileData[i], symbolOwners);
        OwnersOneMore(symbolOwners, fileData, i, owners);
        RefsOneMore(fileRefs, fileData, i, refs);
        symbolOwners := owners;
        fileRefs := fileRefs[fileData[i].name := refs];
      }
      assert fileData[..|fileData|] == fileData;
      OwnersAreListed(symbolOwners, fileData);
      RefsAreListed(fileRefs, fileData);
    }

    /**
     compute: what is pulled in, what is left out, and which symbols nobody defines. In terms of the tables alone: every
     file that lists the entry point, or what an included file needs, with one of the 25 kinds is included, and what no
     file lists so is unresolved.
     */
    method Compute(entry: string)
      returns (included: seq<string>, unused: seq<string>, unresolved: seq<string>)
      requires Valid()
      ensures Distinct(included) && Linked(Elements(included), entry, symbolOwners, fileRefs)
      ensures Distinct(included + unused) && Elements(included + unused) == Elements(Names(fileData))
      ensures unused == Outside(Names(fileData), included)
      ensures Distinct(unresolved)
      ensures forall s :: s in unresolved <==>
                Undefined(fileData, s) && (s == entry || NeededBy(s, included, fileRefs))
      ensures PulledInByKinds(fileData, entry, included) && UnresolvedByKinds(fileData, entry, included, unresolved)
    {
      hide OwnersDescribe, RefsDescribe, DefinedIn, Owns, Undefined, NeededBy, Outside, Distinct, Lists,
          PulledInByKinds, UnresolvedByKinds;
      ghost var pushed;
      included, pushed := Resolve(entry, symbolOwners, fileRefs);
      unused := Outside(Names(fileData), included);
      IncludedAreFiles(included, entry, symbolOwners, fileRefs, fileData);
      Partition(Names(fileData), included);
      unresolved := CollectUnresolved(included, symbolOwners, fileRefs);
      if entry !in symbolOwners {
        unresolved := Add(unresolved, entry);
      }
      forall s ensures s !in symbolOwners <==> Undefined(fileData, s) {
        UndefinedIsOwnerless(symbolOwners, fileData, s);
      }
      IncludedByKinds(fileData, entry, symbolOwners, fileRefs, included, unresolved);
    }
  }

  // ----- in terms of the kinds -----

  /** Whatever lists the entry point, or a reference of an included file, as defined is included. */
  ghost predicate PulledInByKinds(files: seq<ObjectFile>, entry: string, included: seq<string>) {
    && (forall f :: Lists(files, f, entry, DEFINED_KINDS) ==> f in included)
    && (forall f, g, s :: f in included && Lists(files, f, s, {"U"}) && Lists(files, g, s, DEFINED_KINDS) ==>
          g in included)
  }

  /** Unresolved is exactly what is needed and nowhere listed as defined. */
  ghost predicate UnresolvedByKinds(files: seq<ObjectFile>, entry: string, included: seq<string>,
                                    unresolved: seq<string>) {
    forall s :: s in unresolved <==>
      && (forall f :: !Lists(files, f, s, DEFINED_KINDS))
      && (s == entry || exists f :: f in included && Lists(files, f, s, {"U"}))
  }

  lemma OwnersAreListed(owners: Relation, files: seq<ObjectFile>)
    requires OwnersDescribe(owners, files)
    ensures forall f, s :: f in Get(owners, s) <==> Lists(files, f, s, DEFINED_KINDS)
  {
    hide DEFINED_KINDS, IsDefinedKind;
    forall f, s ensures f in Get(owners, s) <==> Lists(files, f, s, DEFINED_KINDS) {
      if Owns(files, f, s) {
        var file :| file in files && file.name == f && DefinedIn(file.symbols, s);
        var x :| x in file.symbols && x.symbol == s && IsDefinedKind(x.kind);
        DefinedKinds(x.kind);
      }
      if Lists(files, f, s, DEFINED_KINDS) {
        var file, x :|
          file in files && file.name == f && x in file.symbols && x.symbol == s && x.kind in DEFINED_KINDS;
        DefinedKinds(x.kind);
        assert DefinedIn(file.symbols, s);
      }
    }
  }

  lemma RefsAreListed(refs: Relation, files: seq<ObjectFile>)
    requires Distinct(Names(files)) && RefsDescribe(refs, files)
    ensures forall f, s :: s in Get(refs, f) <==> Lists(files, f, s, {"U"})
  {
    forall f, s ensures s in Get(refs, f) <==> Lists(files, f, s, {"U"}) {
      if s in Get(refs, f) {
        var i :| 0 <= i < |files| && files[i].name == f;
        assert RefsOf(refs, files[i]);
        assert NmSymbol(s, "U") in files[i].symbols;
      }
      if Lists(files, f, s, {"U"}) {
        var file, x :| file in files && file.name == f && x in file.symbols && x.symbol == s && x.kind == "U";
        var i :| 0 <= i < |files| && files[i] == file;
        assert RefsOf(refs, files[i]);
        assert x == NmSymbol(s, "U");
      }
    }
  }

  lemma IncludedByKinds(files: seq<ObjectFile>, entry: string, owners: Relation, refs: Relation,
                        included: seq<string>, unresolved: seq<string>)
    requires Distinct(Names(files)) && OwnersDescribe(owners, files) && RefsDescribe(refs, files)
    requires Linked(Elements(included), entry, owners, refs)
    requires forall s :: s in unresolved <==> Undefined(files, s) && (s == entry || NeededBy(s, included, refs))
    ensures PulledInByKinds(files, entry, included) && UnresolvedByKinds(files, entry, included, unresolved)
  {
    OwnersAreListed(owners, files);
    RefsAreListed(refs, files);
    hide OwnersDescribe, RefsDescribe, Lists, Undefined, DEFINED_KINDS;
    var all := Elements(included);
    forall f | Lists(files, f, entry, DEFINED_KINDS) ensures f in included {
      assert f in all;
    }
    forall f, g, s | f in included && Lists(files, f, s, {"U"}) && Lists(files, g, s, DEFINED_KINDS)
      ensures g in included
    {
      assert f in all && OwnsOneOf(g, Get(refs, f), owners);
      assert g in all;
    }
    forall s ensures Undefined(files, s) <==> forall f :: !Lists(files, f, s, DEFINED_KINDS) {
      UndefinedIsUnlisted(owners, files, s);
    }
  }

  lemma UndefinedIsUnlisted(owners: Relation, files: seq<ObjectFile>, s: string)
    requires OwnersDescribe(owners, files)
    ensures Undefined(files, s) <==> forall f :: !Lists(files, f, s, DEFINED_KINDS)
  {
    UndefinedIsOwnerless(owners, files, s);
    OwnersAreListed(owners, files);
    hide Lists, Undefined, DEFINED_KINDS;
    if s in owners {
      assert owners[s][0] in Get(owners, s);
    }
  }

  /** No file defines s. */
  ghost predicate Undefined(files: seq<ObjectFile>, s: string) {
    forall file :: file in files ==> !DefinedIn(file.symbols, s)
  }

  ghost predicate NeededBy(s: string, objects: seq<string>, refs: Relation) {
    exists obj :: obj in objects && s in Get(refs, obj)
  }

  lemma UndefinedIsOwnerless(owners: Relation, files: seq<ObjectFile>, s: string)
    requires OwnersDescribe(owners, files)
    ensures s !in owners <==> Undefined(files, s)
  {
    if s in owners {
      assert owners[s][0] in Get(owners, s);
      var file :| file in files && file.name == owners[s][0] && DefinedIn(file.symbols, s);
    } else {
      forall file | file in files ensures !DefinedIn(file.symbols, s) {
        assert file.name !in Get(owners, s);
        assert !Owns(files, file.name, s);
      }
    }
  }

  /** Owners are files, so the least set holds only files. */
  lemma IncludedAreFiles(included: seq<string>, entry: string, owners: Relation, refs: Relation, files: seq<ObjectFile>)
    requires OwnersDescribe(owners, files) && Linked(Elements(included), entry, owners, refs)
    ensures forall x :: x in included ==> x in Names(files)
  {
    var all := Elements(Names(files));
    forall d, s | d in Get(owners, s) ensures d in all {
      assert Owns(files, d, s);
      var file :| file in files && file.name == d;
      var i :| 0 <= i < |files| && files[i] == file;
      assert Names(files)[i] == d;
    }
    assert Sufficient(all, entry, owners, refs);
    forall x | x in included ensures x in Names(files) {
      assert x in Elements(included) && x in all;
    }
  }

  /** The loop that reports ownerless references. */
  method CollectUnresolved(included: seq<string>, owners: Relation, refs: Relation) returns (unresolved: seq<string>)
    ensures Distinct(unresolved)
    ensures forall s :: s in unresolved <==> s !in owners && NeededBy(s, included, refs)
  {
    unresolved := [];
    for i := 0 to |included|
      invariant Distinct(unresolved)
      invariant forall s :: s in unresolved <==> s !in owners && NeededBy(s, included[..i], refs)
    {
      var found := Get(refs, included[i]);
      ghost var before := unresolved;
      for j := 0 to |found|
        invariant Distinct(unresolved)
        invariant forall s :: s in unresolved <==> s in before || (s !in owners && s in found[..j])
      {
        if found[j] !in owners {
          unresolved := Add(unresolved, found[j]);
        }
        assert found[..j + 1] == found[..j] + [found[j]];
      }
      assert found[..|found|] == found;
      NeededOneMore(included, i, refs);
    }
    assert included[..|included|] == included;
  }

  lemma NeededOneMore(objects: seq<string>, i: nat, refs: Relation)
    requires i < |objects|
    ensures forall s ::
        NeededBy(s, objects[..i + 1], refs) <==> NeededBy(s, objects[..i], refs) || s in Get(refs, objects[i])
  {
    assert objects[..i + 1] == objects[..i] + [objects[i]];
    forall s | NeededBy(s, objects[..i], refs) || s in Get(refs, objects[i])
      ensures NeededBy(s, objects[..i + 1], refs)
    {
      var obj :| (obj in objects[..i] || obj == objects[i]) && s in Get(refs, obj);
      assert obj in objects[..i + 1];
    }
  }

  lemma NothingDescribed(files: seq<ObjectFile>)
    ensures OwnersDescribe(map[], files[..0]) && RefsDescribe(map[], files[..0])
  {
  }

  lemma OwnersOneMore(owners: Relation, files: seq<ObjectFile>, i: nat, owners': Relation)
    requires i < |files| && OwnersDescribe(owners, files[..i]) && IsRelation(owners')
    requires forall f, s ::
        f in Get(owners', s) <==> f in Get(owners, s) || (f == files[i].name && DefinedIn(files[i].symbols, s))
    ensures OwnersDescribe(owners', files[..i + 1])
  {
    hide DefinedIn, Owns, Get, IsRelation;
    OwnsOneMore(files, i);
  }

  lemma RefsOneMore(refs: Relation, files: seq<ObjectFile>, i: nat, found: seq<string>)
    requires i < |files| && Distinct(Names(files)) && RefsDescribe(refs, files[..i]) && Distinct(found)
    requires forall s :: s in found <==> ReferencedIn(files[i].symbols, s)
    ensures RefsDescribe(refs[files[i].name := found], files[..i + 1])
  {
    var refs' := refs[files[i].name := found];
    RefsOfNew(refs, files[i], found);
    hide ReferencedIn, Names, RefsOf, Distinct;
    forall k | 0 <= k < i ensures RefsOf(refs', files[k]) {
      assert RefsOf(refs, files[..i][k]);
      NamesApart(files, k, i);
      RefsOfOther(refs, files[k], files[i].name, found);
    }
    var now := files[..i + 1];
    assert forall k :: 0 <= k < |now| ==> now[k] == files[k];
    forall n | n in refs' ensures exists k :: 0 <= k < |now| && now[k].name == n {
      if n in refs {
        var k :| 0 <= k < i && files[..i][k].name == n;
        assert now[k].name == n;
      } else {
        assert now[i].name == n;
      }
    }
  }

  lemma NamesApart(files: seq<ObjectFile>, k: nat, i: nat)
    requires Distinct(Names(files)) && k < i < |files|
    ensures files[k].name != files[i].name
  {
    assert Names(files)[k] != Names(files)[i];
  }

  lemma RefsOfNew(refs: Relation, file: ObjectFile, found: seq<string>)
    requires Distinct(found) && forall s :: s in found <==> ReferencedIn(file.symbols, s)
    ensures RefsOf(refs[file.name := found], file)
  {
  }

  lemma RefsOfOther(refs: Relation, file: ObjectFile, name: string, found: seq<string>)
    requires RefsOf(refs, file) && file.name != name
    ensures RefsOf(refs[name := found], file)
  {
  }
}
