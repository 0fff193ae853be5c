/** Whole runs of JsonBuilder: the tree under the root, at every prefix of a stream and at its end. */
module JsonBuilderRuns {
  import opened JsonValue
  import opened JsonEvents
  import opened JsonFold
  import opened JsonBuilder
  import opened Sequences

  /** The containers that belong to the tree so far: the completed ones and those still open. */
  ghost function AllObjects(frames: seq<BuilderFrame>, closed: set<JsObject>): set<JsObject> {
    closed + set k | 0 <= k < |frames| :: frames[k].obj
  }

  /** The containers of a chain represent the tree that can be seen while they are open. */
  lemma {:induction false} ChainRepresents(frames: seq<BuilderFrame>, open: seq<Growing>, closed: set<JsObject>)
    requires Chain(frames, open, false, closed) && open != []
    ensures Represents(Ref(frames[0].obj), Snapshot(open), AllObjects(frames, closed))
    decreases |open|
  {
    hide Attached, Put, Tree;
    var objects := AllObjects(frames, closed);
    assert frames[0].obj in objects;
    if |open| == 1 {
      FrameShows(frames[0], open[0], closed, objects);
    } else {
      var rest := frames[1..];
      assert open == [open[0]] + open[1..];
      SnapshotParts(open[0], open[1..]);
      ChainTail(frames, open, closed);
      ChainRepresents(rest, open[1..], closed);
      assert AllObjects(rest, closed) <= objects by {
        assert forall k :: 0 <= k < |rest| ==> rest[k] == frames[k + 1];
      }
      RepresentsMore(Ref(rest[0].obj), Snapshot(open[1..]), AllObjects(rest, closed), objects);
      FrameIsMore(frames[0], open[0], true, closed, objects);
      FrameTakes(frames[0], open[0], Ref(frames[1].obj), frames[1].myKey, frames[1].myIndex, Snapshot(open[1..]),
          objects);
      FrameShows(frames[0], Put(open[0], Snapshot(open[1..])), objects, objects);
    }
  }

  lemma FrameShows(f: BuilderFrame, g: Growing, closed: set<JsObject>, objects: set<JsObject>)
    requires FrameIs(f, g, false, closed) && closed <= objects && f.obj in objects
    ensures Represents(Ref(f.obj), Tree(g), objects)
  {
    FrameIsMore(f, g, false, closed, objects);
  }

  lemma ChainTail(frames: seq<BuilderFrame>, open: seq<Growing>, closed: set<JsObject>)
    requires Chain(frames, open, false, closed) && |open| > 1
    ensures Chain(frames[1..], open[1..], false, closed)
  {
    hide FrameIs, Attached;
    assert forall k :: 0 <= k < |frames| - 1 ==> frames[1..][k] == frames[k + 1] && open[1..][k] == open[k + 1];
  }

  /** While containers are open the root already is the tree seen so far, although most of it is yet to come. */
  lemma RootWhileOpen(b: Builder, d: Fold)
    requires b.Valid() && b.At(d) && d.open != []
    ensures b.hasRoot && Represents(b.root, Snapshot(d.open), AllObjects(b.frames, b.closed))
  {
    ChainRepresents(b.frames, d.open, b.closed);
  }

  /** Folds a stream through the builder: every stream that the writers accept, repeated keys included. */
  method Build(es: seq<Event>) returns (b: Builder)
    requires forall i :: 0 <= i < |es| && es[i].Value? ==> !Container(es[i].v)
    ensures fresh(b) && fresh(b.Repr) && b.Valid()
    ensures AcceptsAll(EMPTY, es) ==> TakesAll(NOTHING, es) && b.At(TakenAll(NOTHING, es))
  {
    hide FoldOk, Chain, Represents, Taken, Takes;
    b := new Builder();
    ghost var d := NOTHING;
    ghost var good := AcceptsAll(EMPTY, es);
    AcceptedIsTaken(NOTHING, EMPTY, es);
    assert es[0..] == es;
    for i := 0 to |es|
      invariant fresh(b) && b.Valid() && fresh(b.Repr)
      invariant good ==> TakesAll(NOTHING, es)
      invariant good ==> b.At(d) && TakesAll(d, es[i..]) && TakenAll(d, es[i..]) == TakenAll(NOTHING, es)
    {
      assert es[i..][1..] == es[i + 1..];
      b.Callback(es[i], d);
      if good {
        d := Taken(d, es[i]);
      }
    }
  }

  /**
   At any prefix of any accepted stream where a value may come next in an open container, the path is the address at
   which the tree under the root holds that value once it has come, or the empty container once it has started.
   */
  method PathThenValue(es: seq<Event>, e: Event) returns (b: Builder, path: seq<PathStep>)
    requires forall i :: 0 <= i < |es| && es[i].Value? ==> !Container(es[i].v)
    requires e.Value? || e.ObjectStart? || e.ArrayStart?
    requires AcceptsAll(EMPTY, es) && Accepts(Assemble(EMPTY, es), e) && Assemble(EMPTY, es).open != []
    ensures fresh(b) && b.Valid() && b.hasRoot
    ensures exists t :: Represents(b.root, t, AllObjects(b.frames, b.closed)) && Lookup(t, path) == Some(Arrived(e))
  {
    hide Chain, Represents, Taken, FoldOk, AssemblyOk, Lookup, Alike, PathOf, Snapshot;
    StartsAlike();
    b := Build(es);
    ghost var d := TakenAll(NOTHING, es);
    StreamsAgree(NOTHING, EMPTY, es);
    AlikeTakes(d, Assemble(EMPTY, es), e);
    path := b.Path(d);
    b.Callback(e, d);
    ArrivedAtPath(d, e);
    RootWhileOpen(b, Taken(d, e));
  }

  /** What an event puts into the tree: its value, or a container that is still empty. */
  function Arrived(e: Event): Json {
    if e.Value? then e.v else if e.ObjectStart? then Object([], []) else Array([])
  }

  lemma ArrivedAtPath(d: Fold, e: Event)
    requires FoldOk(d) && Takes(d, e) && d.open != [] && (e.Value? || e.ObjectStart? || e.ArrayStart?)
    ensures Taken(d, e).open != [] && Lookup(Snapshot(Taken(d, e).open), PathOf(d)) == Some(Arrived(e))
  {
    hide Lookup, Snapshot, PathOf;
    if e.Value? {
      ValueLandsAtPath(d, e.v);
    } else {
      ContainerLandsAtPath(d, e);
    }
  }

  /** Both assemblers, fed the same accepted stream, end up alike. */
  lemma {:induction false} StreamsAgree(d: Fold, s: Assembly, es: seq<Event>)
    requires FoldOk(d) && AssemblyOk(s) && Alike(d, s) && AcceptsAll(s, es)
    ensures TakesAll(d, es) && AssemblyOk(Assemble(s, es)) && FoldOk(TakenAll(d, es))
    ensures Alike(TakenAll(d, es), Assemble(s, es))
    decreases |es|
  {
    hide FoldOk, AssemblyOk, Alike, Taken, Step;
    if es != [] {
      AlikeTakes(d, s, es[0]);
      TakenOk(d, es[0]);
      StepOk(s, es[0]);
      StreamsAgree(Taken(d, es[0]), Step(s, es[0]), es[1..]);
    }
  }

  /** Folding the events of a tree leaves a root that is the tree with repeated keys merged, and no open container. */
  method BuildTree(v: Json) returns (b: Builder)
    ensures fresh(b) && b.Valid() && b.hasRoot && b.frames == []
    ensures Represents(b.root, Seen(v), b.closed)
    ensures CleanTree(v) ==> Represents(b.root, v, b.closed)
  {
    TreeIsTaken(NOTHING, v);
    AcceptedIsTaken(NOTHING, EMPTY, Events(v));
    EventsAreScalar(v);
    assert NOTHING.roots + [Seen(v)] == [Seen(v)];
    var es := Events(v);
    b := Build(es);
    if CleanTree(v) { CleanTreeIsSeen(v); }
  }

  lemma {:induction false} EventsAreScalar(v: Json)
    ensures forall k :: 0 <= k < |Events(v)| && Events(v)[k].Value? ==> !Container(Events(v)[k].v)
    decreases v, 1, 0
  {
    if Container(v) {
      EntriesAreScalar(v, 0);
    }
  }

  lemma {:induction false} EntriesAreScalar(v: Json, i: nat)
    requires Container(v) && i <= |v.items|
    ensures forall k :: 0 <= k < |EntryEvents(v, i)| && EntryEvents(v, i)[k].Value? ==>
        !Container(EntryEvents(v, i)[k].v)
    decreases v, 0, |v.items| - i
  {
    if i < |v.items| {
      EventsAreScalar(v.items[i]);
      EntriesAreScalar(v, i + 1);
    }
  }
}
