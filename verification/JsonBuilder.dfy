/**
 JsonBuilder: folds a stream of events into a tree of JavaScript containers on the heap. A
 container is attached to its parent while it is still empty and filled in place afterwards.
 */
module JsonBuilder {
  import opened JsonValue
  import opened JsonEvents
  import opened JsonFold
  import opened Sequences

  /** A JavaScript array or null-prototype object, with its properties in insertion order. */
  class JsObject {
    const isArray: bool
    var keys: seq<bytes>
    var vals: seq<JsVal>

    constructor (isArray: bool)
      ensures this.isArray == isArray && keys == [] && vals == []
    {
      this.isArray := isArray;
      keys, vals := [], [];
    }

    /** JS_SetProperty: replaces the value of an existing key or adds a property. */
    method SetProperty(k: bytes, v: JsVal)
      modifies this
      ensures keys == PutKey(old(keys), k)
      ensures |old(keys)| == |old(vals)| ==> vals == PutAt(old(vals), IndexOf(old(keys), k), v)
    {
      var i := 0;
      while i < |keys| && keys[i] != k
        invariant i <= |keys| && k !in keys[..i]
        invariant IndexOf(keys, k) == i + IndexOf(keys[i..], k)
      {
        i := i + 1;
      }
      if i == |keys| {
        keys := keys + [k];
        vals := vals + [v];
      } else if i < |vals| {
        vals := vals[i := v];
      }
    }

    /** JS_SetPropertyUint32 on an array: an index past the end leaves holes. */
    method SetIndex(i: nat, v: JsVal)
      modifies this
      ensures keys == old(keys)
      ensures |vals| == (if i < |old(vals)| then |old(vals)| else i + 1) && vals[i] == v
      ensures forall j :: 0 <= j < |vals| && j != i ==>
          vals[j] == if j < |old(vals)| then old(vals)[j] else Prim(Opaque)
    {
      if i < |vals| {
        vals := vals[i := v];
      } else {
        vals := vals + seq(i - |vals|, _ => Prim(Opaque)) + [v];
      }
    }
  }

  datatype JsVal = Prim(v: Json) | Ref(o: JsObject)

  /** The JavaScript value `val` is the tree `t`, and all its containers belong to `objects`. */
  ghost predicate Represents(val: JsVal, t: Json, objects: set<JsObject>)
    reads objects
    decreases t
  {
    if Container(t) then
      && val.Ref? && val.o in objects
      && val.o.isArray == t.Array?
      && (t.Object? ==> val.o.keys == t.keys)
      && |val.o.vals| == |t.items|
      && forall i :: 0 <= i < |t.items| ==> Represents(val.o.vals[i], t.items[i], objects)
    else val == Prim(t)
  }

  lemma {:induction false} RepresentsMore(val: JsVal, t: Json, objects: set<JsObject>, more: set<JsObject>)
    requires Represents(val, t, objects) && objects <= more
    ensures Represents(val, t, more)
    decreases t
  {
    if Container(t) {
      forall i | 0 <= i < |t.items| ensures Represents(val.o.vals[i], t.items[i], more) {
        RepresentsMore(val.o.vals[i], t.items[i], objects, more);
      }
    }
  }

  /** A JavaScript value is at most one tree. */
  lemma {:induction false} RepresentsUnique(val: JsVal, t: Json, u: Json, objects: set<JsObject>)
    requires Represents(val, t, objects) && Represents(val, u, objects)
    ensures t == u
    decreases t
  {
    if Container(t) && Container(u) {
      forall i | 0 <= i < |t.items| ensures t.items[i] == u.items[i] {
        RepresentsUnique(val.o.vals[i], t.items[i], u.items[i], objects);
      }
      assert t.items == u.items;
    }
  }

  /** JsonBuilderFrame; the chain of `parent` pointers is the sequence of frames, outermost first. */
  datatype BuilderFrame = BuilderFrame(obj: JsObject, isObject: bool, index: nat, currentKey: Option<bytes>,
                                       myKey: Option<bytes>, myIndex: nat)

  /** `key` is the key that is due in g, before it is cut to a C string. */
  predicate KeyIs(key: Option<bytes>, g: Growing) {
    key.Some? == g.key.Some? && (key.Some? ==> CString(key.value) == g.key.value)
  }

  /** The container of frame f holds what g does; its next value, if `held`, is already there and not looked at. */
  ghost predicate FrameIs(f: BuilderFrame, g: Growing, held: bool, closed: set<JsObject>)
    reads f.obj, closed
  {
    var n := |g.items|;
    && GrowingOk(g) && (held ==> Due(g))
    && f.isObject == g.isObject && f.obj.isArray == !g.isObject
    && |f.obj.vals| == (if held && Slot(g) == n then n + 1 else n)
    && (forall j :: 0 <= j < n && !(held && j == Slot(g)) ==> Represents(f.obj.vals[j], g.items[j], closed))
    && (if g.isObject then
          && f.obj.keys == (if held then PutKey(g.keys, g.key.value) else g.keys)
          && (if held then f.currentKey == None else KeyIs(f.currentKey, g))
        else
          f.index == |f.obj.vals| && f.currentKey == None)
  }

  /** The container of frame f has `v` where the next value of g goes, and `key` and `index` say where that is. */
  ghost predicate Attached(f: BuilderFrame, g: Growing, v: JsVal, key: Option<bytes>, index: nat)
    reads f.obj
  {
    && Slot(g) < |f.obj.vals| && f.obj.vals[Slot(g)] == v
    && (if g.isObject then key.Some? && KeyIs(key, g) else index == Slot(g))
  }

  /** The frames hold the containers `open`, each attached to the one before it; `held` says that the innermost one
      has just been given its next value. */
  ghost predicate Chain(frames: seq<BuilderFrame>, open: seq<Growing>, held: bool, closed: set<JsObject>)
    reads closed, set k | 0 <= k < |frames| :: frames[k].obj
  {
    && |frames| == |open|
    && (forall k :: 0 <= k < |frames| ==> frames[k].obj !in closed)
    && (forall j, k :: 0 <= j < k < |frames| ==> frames[j].obj != frames[k].obj)
    && (forall k :: 0 <= k < |frames| ==> FrameIs(frames[k], open[k], k < |frames| - 1 || held, closed))
    && (forall k :: 0 <= k < |frames| - 1 ==>
          Attached(frames[k], open[k], Ref(frames[k + 1].obj), frames[k + 1].myKey, frames[k + 1].myIndex))
  }

  /** Gives the container of a frame its next property, under the key that awaits one, or its next element. */
  method Give(f: BuilderFrame, v: JsVal, ghost g: Growing, ghost closed: set<JsObject>)
    returns (f': BuilderFrame, key: Option<bytes>, index: nat)
    requires f.obj !in closed
    modifies f.obj
    ensures f'.obj == f.obj && f'.isObject == f.isObject && f'.myKey == f.myKey && f'.myIndex == f.myIndex
    ensures old(FrameIs(f, g, false, closed)) && Due(g) ==>
              FrameIs(f', g, true, closed) && Attached(f', g, v, key, index)
  {
    hide Represents, CString, IndexOf;
    f', key, index := f, None, 0;
    if f.isObject {
      if f.currentKey.Some? {
        key := f.currentKey;
        f.obj.SetProperty(CString(key.value), v);
        f' := f.(currentKey := None);
      }
    } else {
      index := f.index;
      f.obj.SetIndex(index, v);
      f' := f.(index := f.index + 1);
    }
  }

  class Builder {
    var frames: seq<BuilderFrame>
    var root: JsVal
    var hasRoot: bool
    ghost var closed: set<JsObject> // containers that have been completed
    ghost var Repr: set<JsObject>

    ghost predicate Valid()
      reads this
    {
      && closed <= Repr
      && (forall k :: 0 <= k < |frames| ==> frames[k].obj in Repr - closed)
    }

    constructor ()
      ensures Valid() && At(NOTHING) && fresh(Repr)
    {
      frames, root, hasRoot := [], Prim(Opaque), false;
      closed, Repr := {}, {};
    }

    /** The root is where the fold is. Only the last root is kept. */
    ghost predicate RootIs(d: Fold)
      reads this, closed
    {
      if frames != [] then hasRoot && root == Ref(frames[0].obj)
      else hasRoot == (d.roots != []) && (hasRoot ==> Represents(root, d.roots[|d.roots| - 1], closed))
    }

    /** The builder has made `d`. */
    ghost predicate At(d: Fold)
      reads this, closed, set k | 0 <= k < |frames| :: frames[k].obj
    {
      Valid() && FoldOk(d) && Chain(frames, d.open, false, closed) && RootIs(d)
    }

    /** Gives the innermost container its next item, if one is due there. */
    method Place(v: JsVal, ghost d: Fold) returns (key: Option<bytes>, index: nat)
      requires Valid() && frames != []
      modifies `frames, frames[|frames| - 1].obj
      ensures |frames| == |old(frames)| && forall k :: 0 <= k < |frames| ==> frames[k].obj == old(frames)[k].obj
      ensures old(At(d)) && ValueDue(d) ==> Chain(frames, d.open, true, closed)
      ensures old(At(d)) && ValueDue(d) ==> Attached(frames[|frames| - 1], d.open[|frames| - 1], v, key, index)
    {
      hide Represents, FrameIs, Attached;
      var last := |frames| - 1;
      var parent := frames[last];
      var given;
      given, key, index :=
        Give(parent, v, if |d.open| > 0 then d.open[|d.open| - 1] else Growing(false, [], [], None), closed);
      frames := frames[..last] + [given];
    }

    /** json_builder_push: attaches an empty container where a value is due, and opens it. */
    method Push(isObject: bool, ghost d: Fold)
      requires Valid()
      modifies this, Repr
      ensures Valid() && fresh(Repr - old(Repr))
      ensures old(At(d)) && ValueDue(d) ==> At(Taken(d, if isObject then ObjectStart else ArrayStart))
    {
      hide Represents, FrameIs, Attached, FoldOk;
      var container := new JsObject(!isObject);
      var childKey, childIndex := None, 0;
      if frames == [] {
        root, hasRoot := Ref(container), true;
      } else {
        childKey, childIndex := Place(Ref(container), d);
      }
      var frame := BuilderFrame(container, isObject, 0, None, childKey, childIndex);
      NewFrame(frame, closed);
      ghost var good := old(At(d)) && ValueDue(d);
      OpenFrame(frame, d, good);
    }

    /** The frame of a container that has just been attached. */
    method OpenFrame(frame: BuilderFrame, ghost d: Fold, ghost good: bool)
      requires Valid() && frame.obj !in Repr
      requires good ==>
                 && FoldOk(d) && ValueDue(d) && Chain(frames, d.open, true, closed)
                 && FrameIs(frame, Growing(frame.isObject, [], [], None), false, closed)
                 && hasRoot && root == Ref(if frames == [] then frame.obj else frames[0].obj)
                 && (frames != [] ==>
                       Attached(frames[|frames| - 1], d.open[|frames| - 1], Ref(frame.obj), frame.myKey, frame.myIndex))
      modifies `frames, `Repr
      ensures Valid() && Repr == old(Repr) + {frame.obj}
      ensures good ==> At(Taken(d, if frame.isObject then ObjectStart else ArrayStart))
    {
      hide Represents, FrameIs, Attached, FoldOk;
      if good {
        TakenOk(d, if frame.isObject then ObjectStart else ArrayStart);
        ChainPush(frames, d.open, frame, Growing(frame.isObject, [], [], None), closed);
      }
      frames := frames + [frame];
      Repr := Repr + {frame.obj};
    }

    /** json_builder_pop: the container is complete, and has long been attached. */
    method Pop(ghost d: Fold)
      requires Valid()
      modifies `frames, `closed
      ensures Valid()
      ensures old(At(d)) && Takes(d, ObjectEnd) ==> At(Taken(d, ObjectEnd))
      ensures old(At(d)) && Takes(d, ArrayEnd) ==> At(Taken(d, ArrayEnd))
    {
      hide Represents, FrameIs, Attached, FoldOk, Put;
      if frames == [] {
        return;
      }
      var n := |frames| - 1;
      if At(d) && (Takes(d, ObjectEnd) || Takes(d, ArrayEnd)) {
        TakenOk(d, if Takes(d, ObjectEnd) then ObjectEnd else ArrayEnd);
        ChainPop(frames, d.open, closed);
        closed := closed + {frames[n].obj};
      }
      frames := frames[..n];
    }

    /** json_builder_key */
    method SetKey(name: bytes, ghost d: Fold)
      requires Valid()
      modifies `frames
      ensures Valid()
      ensures old(At(d)) && Takes(d, Key(name)) ==> At(Taken(d, Key(name)))
    {
      hide Represents, Attached, FrameIs;
      if frames == [] {
        return;
      }
      var n := |frames| - 1;
      if At(d) && Takes(d, Key(name)) {
        TakenOk(d, Key(name));
        ChainKey(frames, d.open, name, closed);
      }
      frames := frames[..n] + [frames[n].(currentKey := Some(name))];
    }

    /** json_builder_value */
    method PutValue(v: Json, ghost d: Fold)
      requires Valid() && !Container(v)
      modifies this, Repr
      ensures Valid() && Repr == old(Repr)
      ensures old(At(d)) && Takes(d, Value(v)) ==> At(Taken(d, Value(v)))
    {
      hide Represents, FrameIs, Attached, FoldOk, Put;
      if frames == [] {
        root, hasRoot := Prim(v), true;
        ScalarRepresents(v, closed);
        if old(At(d)) && Takes(d, Value(v)) { TakenOk(d, Value(v)); }
        return;
      }
      var key, index := Place(Prim(v), d);
      if old(At(d)) && Takes(d, Value(v)) {
        var n := |frames| - 1;
        TakenOk(d, Value(v));
        ScalarRepresents(v, closed);
        FrameTakes(frames[n], d.open[n], Prim(v), key, index, v, closed);
      }
    }

    /** jread_callback_build */
    method Callback(e: Event, ghost d: Fold)
      requires Valid() && (e.Value? ==> !Container(e.v))
      modifies this, Repr
      ensures Valid() && fresh(Repr - old(Repr))
      ensures old(At(d)) && Takes(d, e) ==> At(Taken(d, e))
    {
      hide FoldOk, Chain, Represents;
      match e
      case ObjectStart => Push(true, d);
      case ArrayStart => Push(false, d);
      case ObjectEnd => Pop(d);
      case ArrayEnd => Pop(d);
      case Key(name) => SetKey(name, d);
      case Value(v) => PutValue(v, d);
    }

    /** json_builder_path: the result is filled from its end, from the innermost frame outwards. */
    method Path(ghost d: Fold) returns (path: seq<PathStep>)
      requires Valid()
      ensures At(d) ==> path == PathOf(d)
    {
      path := PathOfFrames(frames);
      if At(d) { PathIs(path, frames, d, closed); }
    }
  }

  /** What json_builder_path reads off a frame: the key that awaits its value, or the next index. */
  function CurrentOf(f: BuilderFrame): Option<PathStep> {
    if !f.isObject then Some(IndexStep(f.index))
    else if f.currentKey.Some? then Some(KeyStep(CString(f.currentKey.value)))
    else None
  }

  /** The address of a frame inside the one before it. */
  function HeldOf(f: BuilderFrame, child: BuilderFrame): PathStep {
    if f.isObject then KeyStep(if child.myKey.Some? then CString(child.myKey.value) else [])
    else IndexStep(child.myIndex)
  }

  method PathOfFrames(frames: seq<BuilderFrame>) returns (path: seq<PathStep>)
    ensures frames == [] ==> path == []
    ensures frames != [] ==> |path| == |frames| - (if CurrentOf(frames[|frames| - 1]).Some? then 0 else 1)
    ensures forall k :: 0 <= k < |frames| - 1 ==> path[k] == HeldOf(frames[k], frames[k + 1])
    ensures frames != [] && |path| == |frames| ==> Some(path[|frames| - 1]) == CurrentOf(frames[|frames| - 1])
  {
    hide CString;
    var count := |frames|;
    if count == 0 {
      return [];
    }
    var top := frames[count - 1];
    var hasCurrent := if top.isObject then top.currentKey.Some? else true;
    var total := count - 1 + (if hasCurrent then 1 else 0);
    var ret := new PathStep[total];
    var toSet := total - 1;
    if hasCurrent {
      ret[toSet] := if top.isObject then KeyStep(CString(top.currentKey.value)) else IndexStep(top.index);
      toSet := toSet - 1;
    }
    var f := count - 1;
    while f > 0
      invariant 0 <= f < count && toSet == f - 1
      invariant hasCurrent ==> Some(ret[count - 1]) == CurrentOf(top)
      invariant forall k :: f <= k < count - 1 ==> ret[k] == HeldOf(frames[k], frames[k + 1])
    {
      ret[toSet] :=
        if frames[f - 1].isObject then KeyStep(if frames[f].myKey.Some? then CString(frames[f].myKey.value) else [])
        else IndexStep(frames[f].myIndex);
      toSet := toSet - 1;
      f := f - 1;
    }
    path := ret[..];
  }

  lemma PathIs(path: seq<PathStep>, frames: seq<BuilderFrame>, d: Fold, closed: set<JsObject>)
    requires FoldOk(d) && Chain(frames, d.open, false, closed)
    requires |path| == if frames == [] then 0
                       else if CurrentOf(frames[|frames| - 1]).Some? then |frames| else |frames| - 1
    requires forall k :: 0 <= k < |path| && k < |frames| - 1 ==> path[k] == HeldOf(frames[k], frames[k + 1])
    requires frames != [] && |path| == |frames| ==> Some(path[|path| - 1]) == CurrentOf(frames[|frames| - 1])
    ensures path == PathOf(d)
  {
    hide Represents, CString;
    var open := d.open;
    forall k | 0 <= k < |open| - 1 ensures HeldOf(frames[k], frames[k + 1]) == NextStep(open[k]) {
      HeldStep(frames[k], open[k], Ref(frames[k + 1].obj), frames[k + 1].myKey, frames[k + 1].myIndex, closed);
    }
    if open != [] {
      CurrentStep(frames[|open| - 1], open[|open| - 1], closed);
    }
    var shown := open[..|path|];
    forall k | 0 <= k < |path| ensures path[k] == Steps(shown)[k] {
      assert Steps(shown)[k] == NextStep(shown[k]) == NextStep(open[k]);
      if k < |frames| - 1 {
        assert path[k] == HeldOf(frames[k], frames[k + 1]);
      } else {
        assert Some(path[k]) == CurrentOf(frames[k]) == Some(NextStep(open[k]));
      }
    }
    assert open[..|open|] == open;
  }

  lemma CurrentStep(f: BuilderFrame, g: Growing, closed: set<JsObject>)
    requires FrameIs(f, g, false, closed)
    ensures CurrentOf(f) == if Due(g) then Some(NextStep(g)) else None
  {
  }

  lemma HeldStep(f: BuilderFrame, g: Growing, v: JsVal, key: Option<bytes>, index: nat, closed: set<JsObject>)
    requires FrameIs(f, g, true, closed) && Attached(f, g, v, key, index)
    ensures NextStep(g) == if g.isObject then KeyStep(if key.Some? then CString(key.value) else [])
        else IndexStep(index)
  {
  }

  lemma NewFrame(f: BuilderFrame, closed: set<JsObject>)
    requires f.obj.isArray == !f.isObject && f.obj.keys == [] && f.obj.vals == []
    requires f.index == 0 && f.currentKey == None
    ensures FrameIs(f, Growing(f.isObject, [], [], None), false, closed)
  {
  }

  lemma ChainPush(frames: seq<BuilderFrame>, open: seq<Growing>, f: BuilderFrame, g: Growing, closed: set<JsObject>)
    requires Chain(frames, open, true, closed)
    requires FrameIs(f, g, false, closed) && f.obj !in closed
    requires forall k :: 0 <= k < |frames| ==> frames[k].obj != f.obj
    requires frames != [] ==> Attached(frames[|frames| - 1], open[|frames| - 1], Ref(f.obj), f.myKey, f.myIndex)
    ensures Chain(frames + [f], open + [g], false, closed)
  {
    hide Represents, FrameIs, Attached;
  }

  /** More containers are completed: nothing changes for a frame. */
  lemma FrameIsMore(f: BuilderFrame, g: Growing, held: bool, closed: set<JsObject>, more: set<JsObject>)
    requires FrameIs(f, g, held, closed) && closed <= more
    ensures FrameIs(f, g, held, more)
  {
    forall j | 0 <= j < |g.items| && !(held && j == Slot(g)) ensures Represents(f.obj.vals[j], g.items[j], more) {
      RepresentsMore(f.obj.vals[j], g.items[j], closed, more);
    }
  }

  /** A container with no value due represents its tree. */
  lemma FrameCompletes(f: BuilderFrame, g: Growing, closed: set<JsObject>)
    requires FrameIs(f, g, false, closed)
    ensures Represents(Ref(f.obj), Tree(g), closed + {f.obj})
  {
    FrameIsMore(f, g, false, closed, closed + {f.obj});
  }

  /** A frame whose next value is represented by the property it was given has taken that value. */
  lemma FrameTakes(f: BuilderFrame, g: Growing, v: JsVal, key: Option<bytes>, index: nat, t: Json,
      closed: set<JsObject>)
    requires FrameIs(f, g, true, closed) && Attached(f, g, v, key, index) && Represents(v, t, closed)
    ensures FrameIs(f, Put(g, t), false, closed)
  {
    hide Represents, CString, IndexOf;
    PutOk(g, t);
  }

  lemma ChainPop(frames: seq<BuilderFrame>, open: seq<Growing>, closed: set<JsObject>)
    requires Chain(frames, open, false, closed) && open != []
    ensures var n := |open| - 1;
            var f, t, more := frames[n], Tree(open[n]), closed + {frames[n].obj};
            && Represents(Ref(f.obj), t, more)
            && (n > 0 ==> Chain(frames[..n], open[..n - 1] + [Put(open[n - 1], t)], false, more))
  {
    hide Represents, FrameIs, Attached, Put;
    var n := |open| - 1;
    var more := closed + {frames[n].obj};
    FrameCompletes(frames[n], open[n], closed);
    if n > 0 {
      forall k | 0 <= k < n ensures FrameIs(frames[k], open[k], true, more) {
        FrameIsMore(frames[k], open[k], true, closed, more);
      }
      FrameTakes(frames[n - 1], open[n - 1], Ref(frames[n].obj), frames[n].myKey, frames[n].myIndex, Tree(open[n]),
          more);
    }
  }

  lemma ScalarRepresents(v: Json, closed: set<JsObject>)
    requires !Container(v)
    ensures Represents(Prim(v), v, closed)
  {
  }

  lemma ChainKey(frames: seq<BuilderFrame>, open: seq<Growing>, name: bytes, closed: set<JsObject>)
    requires Chain(frames, open, false, closed) && open != []
    requires open[|open| - 1].isObject && open[|open| - 1].key.None?
    ensures var n := |open| - 1;
            Chain(frames[..n] + [frames[n].(currentKey := Some(name))],
                  open[..n] + [open[n].(key := Some(CString(name)))], false, closed)
  {
    hide Represents, Attached, FrameIs;
    var n := |open| - 1;
    FrameKey(frames[n], open[n], name, closed);
  }

  lemma FrameKey(f: BuilderFrame, g: Growing, name: bytes, closed: set<JsObject>)
    requires FrameIs(f, g, false, closed) && g.isObject && g.key.None?
    ensures FrameIs(f.(currentKey := Some(name)), g.(key := Some(CString(name))), false, closed)
  {
    hide Represents;
  }
}
