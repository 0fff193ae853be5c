/**
 The text that belongs to an assembly: what a writer must have emitted when the events so far
 have built these roots and these open containers. Every event appends to it.
 */
module JsonAssemblyText {
  import opened JsonValue
  import opened JsonText
  import opened JsonEvents
  import opened Sequences

  /** The text of the items of a part, each with what precedes it. */
  function ItemsText(style: Style, p: Part, indent: nat, d: nat): bytes
    requires PartShape(p)
    decreases |p.items|
  {
    if p.items == [] then []
    else
      var n := |p.items| - 1;
      ItemsText(style, First(p, n), indent, d) + Lead(style, Completed(p), n, indent, d)
          + Text(style, p.items[n], indent, d + 1)
  }

  /** The part that consists of the first `n` items of `p`, all with their keys. */
  function First(p: Part, n: nat): (r: Part)
    requires PartShape(p) && n <= |p.items|
    ensures PartShape(r)
  {
    Part(p.isObject, if p.isObject then p.keys[..n] else [], p.items[..n])
  }

  /** What precedes the next item of a part, whose key is already known if it is an object. */
  function NextLead(style: Style, p: Part, indent: nat, d: nat): bytes {
    Lead(style, Completed(p), |p.items|, indent, d)
  }

  /** What has been emitted of an open container. `held` says that what precedes the next item has been emitted too. */
  function PartText(style: Style, p: Part, held: bool, indent: nat, d: nat): bytes
    requires PartShape(p)
  {
    [Open(Completed(p))] + AfterOpen(style, indent, d) + ItemsText(style, p, indent, d)
    + (if held then NextLead(style, p, indent, d) else [])
  }

  predicate PartShapes(open: seq<Part>) {
    forall k :: 0 <= k < |open| ==> PartShape(open[k])
  }

  /** The text of open containers all of which wait for the value of an item. */
  function HeldText(style: Style, open: seq<Part>, indent: nat): bytes
    requires PartShapes(open)
  {
    if open == [] then []
    else
      var d := |open| - 1;
      HeldText(style, open[..d], indent) + PartText(style, open[d], true, indent, d)
  }

  function OpenText(style: Style, open: seq<Part>, indent: nat): bytes
    requires PartShapes(open)
  {
    if open == [] then []
    else
      var d := |open| - 1;
      HeldText(style, open[..d], indent) + PartText(style, open[d], Awaiting(open[d]), indent, d)
  }

  function RootsText(style: Style, roots: seq<Json>, indent: nat): bytes {
    if roots == [] then []
    else RootsText(style, roots[..|roots| - 1], indent) + Text(style, roots[|roots| - 1], indent, 0)
  }

  function Written(style: Style, s: Assembly, indent: nat): bytes
    requires PartShapes(s.open)
  {
    RootsText(style, s.roots, indent) + OpenText(style, s.open, indent)
  }

  /** What precedes a value: in an array, the comma and line break; in an object they were emitted with the key. */
  function ValueLead(style: Style, s: Assembly, indent: nat): bytes {
    if s.open != [] && !Top(s).isObject then NextLead(style, Top(s), indent, |s.open| - 1) else []
  }

  /** What an accepted event emits. */
  function Emit(style: Style, s: Assembly, e: Event, indent: nat): bytes
    requires Accepts(s, e)
  {
    match e
    case ObjectStart => ValueLead(style, s, indent) + [0x7B] + AfterOpen(style, indent, |s.open|)
    case ArrayStart => ValueLead(style, s, indent) + [0x5B] + AfterOpen(style, indent, |s.open|)
    case Value(v) => ValueLead(style, s, indent) + Scalar(v)
    case Key(k) => BeforeItem(style, |Top(s).items|, indent, |s.open| - 1) + KeyText(k, indent)
    case _ => JsonText.End(style, Completed(Top(s)), indent, |s.open| - 1)
  }

  // ----- every event appends -----

  lemma LeadDependsOn(style: Style, v: Json, w: Json, i: nat, indent: nat, d: nat)
    requires v.Object? == w.Object? && KeyAt(v, i) == KeyAt(w, i)
    ensures Lead(style, v, i, indent, d) == Lead(style, w, i, indent, d)
  {
  }

  /** A key that awaits its value does not change the text of the items. */
  lemma ItemsIgnorePendingKey(style: Style, p: Part, indent: nat, d: nat)
    requires PartShape(p)
    ensures ItemsText(style, First(p, |p.items|), indent, d) == ItemsText(style, p, indent, d)
  {
    hide Text, Lead;
    var q := First(p, |p.items|);
    assert q.items == p.items;
    if p.items != [] {
      var n := |p.items| - 1;
      assert First(q, n) == First(p, n);
      LeadDependsOn(style, Completed(p), Completed(q), n, indent, d);
    }
  }

  lemma ItemsAppend(style: Style, p: Part, v: Json, indent: nat, d: nat)
    requires PartShape(p) && (p.isObject ==> Awaiting(p))
    ensures var q := p.(items := p.items + [v]);
            && PartShape(q)
            && ItemsText(style, q, indent, d)
                == ItemsText(style, p, indent, d) + NextLead(style, p, indent, d) + Text(style, v, indent, d + 1)
  {
    hide Text, Lead;
    var q := p.(items := p.items + [v]);
    var n := |p.items|;
    assert First(q, n) == First(p, n) by { assert q.items[..n] == p.items; }
    ItemsIgnorePendingKey(style, p, indent, d);
    LeadDependsOn(style, Completed(p), Completed(q), n, indent, d);
  }

  lemma {:induction false} ItemsAreEntries(style: Style, v: Json, i: nat, indent: nat, d: nat)
    requires Container(v) && i <= |v.items| && (v.Object? ==> |v.keys| == |v.items|)
    ensures ItemsText(style, PartOf(v, i), indent, d) + Entries(style, v, i, indent, d)
        == Entries(style, v, 0, indent, d)
  {
    hide Text, Lead;
    if i > 0 {
      var p := PartOf(v, i);
      assert First(p, i - 1) == PartOf(v, i - 1) by {
        assert v.items[..i][..i - 1] == v.items[..i - 1];
        if v.Object? { assert v.keys[..i][..i - 1] == v.keys[..i - 1]; }
      }
      LeadDependsOn(style, Completed(p), v, i - 1, indent, d);
      ItemsAreEntries(style, v, i - 1, indent, d);
      Regroup(ItemsText(style, PartOf(v, i - 1), indent, d), Lead(style, v, i - 1, indent, d),
              Text(style, v.items[i - 1], indent, d + 1), Entries(style, v, i, indent, d));
    } else {
      assert [] + Entries(style, v, 0, indent, d) == Entries(style, v, 0, indent, d);
    }
  }

  /** Closing a part completes the text of its value. */
  lemma PartCloses(style: Style, p: Part, indent: nat, d: nat)
    requires PartShape(p) && !Awaiting(p)
    ensures PartText(style, p, false, indent, d) + JsonText.End(style, Completed(p), indent, d)
        == Text(style, Completed(p), indent, d)
  {
    hide Lead, ItemsText;
    var v := Completed(p);
    var none: bytes := [];
    assert PartOf(v, |v.items|) == p;
    ItemsAreEntries(style, v, |v.items|, indent, d);
    assert Entries(style, v, |v.items|, indent, d) == [];
    assert ItemsText(style, p, indent, d) + none == ItemsText(style, p, indent, d);
    var head := [Open(v)] + AfterOpen(style, indent, d) + ItemsText(style, p, indent, d);
    assert head + none == head;
  }

  /** The text before the value of the next item, whoever emitted it. */
  lemma HeldIsOpen(style: Style, s: Assembly, indent: nat)
    requires PartShapes(s.open) && Ready(s)
    ensures OpenText(style, s.open, indent) + ValueLead(style, s, indent) == HeldText(style, s.open, indent)
  {
    hide Text, Lead, ItemsText, NextLead;
    if s.open != [] {
      var d := |s.open| - 1;
      var p := s.open[d];
      Assoc(HeldText(style, s.open[..d], indent), PartText(style, p, Awaiting(p), indent, d),
          ValueLead(style, s, indent));
      if !p.isObject {
        var head := [Open(Completed(p))] + AfterOpen(style, indent, d) + ItemsText(style, p, indent, d);
        Assoc(head, [], NextLead(style, p, indent, d));
        assert [] + NextLead(style, p, indent, d) == NextLead(style, p, indent, d);
      } else {
        var none: bytes := [];
        assert PartText(style, p, true, indent, d) + none == PartText(style, p, true, indent, d);
      }
    }
  }

  lemma AddAppends(style: Style, s: Assembly, v: Json, indent: nat)
    requires PartShapes(s.open) && Ready(s)
    ensures PartShapes(Add(s, v).open)
    ensures Written(style, Add(s, v), indent)
            == Written(style, s, indent) + ValueLead(style, s, indent) + Text(style, v, indent, |s.open|)
  {
    hide Text, Lead, ItemsText, NextLead;
    var roots, open, text :=
        RootsText(style, s.roots, indent), OpenText(style, s.open, indent), Text(style, v, indent, |s.open|);
    Assoc(roots, open, ValueLead(style, s, indent));
    if s.open == [] {
      assert (s.roots + [v])[..|s.roots|] == s.roots;
      var none: bytes := [];
      assert roots + none == roots && roots + text + none == roots + text && none + none == none;
    } else {
      HeldIsOpen(style, s, indent);
      AddToTop(style, s, v, indent);
      Assoc(roots, HeldText(style, s.open, indent), text);
    }
  }

  /** A value completes an item of a part whose next item was announced. */
  lemma PartGrows(style: Style, p: Part, v: Json, indent: nat, d: nat)
    requires PartShape(p) && (p.isObject ==> Awaiting(p))
    ensures var q := p.(items := p.items + [v]);
            && PartShape(q) && !Awaiting(q)
            && PartText(style, q, false, indent, d)
                == PartText(style, p, true, indent, d) + Text(style, v, indent, d + 1)
  {
    hide Text, Lead, ItemsText, NextLead;
    ItemsAppend(style, p, v, indent, d);
    GrowBytes([Open(Completed(p))] + AfterOpen(style, indent, d), ItemsText(style, p, indent, d),
              NextLead(style, p, indent, d), Text(style, v, indent, d + 1));
  }

  lemma GrowBytes(head: bytes, items: bytes, lead: bytes, text: bytes)
    ensures head + (items + lead + text) + [] == head + items + lead + text
  {
    Assoc(items, lead, text);
  }

  lemma AddToTop(style: Style, s: Assembly, v: Json, indent: nat)
    requires PartShapes(s.open) && Ready(s) && s.open != []
    ensures PartShapes(Add(s, v).open)
    ensures OpenText(style, Add(s, v).open, indent)
        == HeldText(style, s.open, indent) + Text(style, v, indent, |s.open|)
  {
    hide Text, Lead, ItemsText, NextLead, PartText;
    var d := |s.open| - 1;
    var p := s.open[d];
    PartGrows(style, p, v, indent, d);
    assert (s.open[..d] + [p.(items := p.items + [v])])[..d] == s.open[..d];
    Assoc(HeldText(style, s.open[..d], indent), PartText(style, p, true, indent, d), Text(style, v, indent, d + 1));
  }

  lemma StartAppends(style: Style, s: Assembly, p: Part, indent: nat)
    requires PartShapes(s.open) && Ready(s) && p.keys == [] && p.items == []
    ensures PartShapes(s.open + [p])
    ensures Written(style, s.(open := s.open + [p]), indent)
            == Written(style, s, indent)
                + (ValueLead(style, s, indent) + [Open(Completed(p))] + AfterOpen(style, indent, |s.open|))
  {
    hide Text, Lead, NextLead, PartText, HeldText, ValueLead, AfterOpen;
    var roots, open, lead :=
        RootsText(style, s.roots, indent), OpenText(style, s.open, indent), ValueLead(style, s, indent);
    var bracket, after := [Open(Completed(p))], AfterOpen(style, indent, |s.open|);
    assert (s.open + [p])[..|s.open|] == s.open;
    HeldIsOpen(style, s, indent);
    PartStarts(style, p, indent, |s.open|);
    Assoc(lead, bracket, after);
    Assoc(roots, open, lead + (bracket + after));
    Assoc(open, lead, bracket + after);
  }

  lemma PartStarts(style: Style, p: Part, indent: nat, d: nat)
    requires p.keys == [] && p.items == []
    ensures PartText(style, p, false, indent, d) == [Open(Completed(p))] + AfterOpen(style, indent, d)
  {
    var start := [Open(Completed(p))] + AfterOpen(style, indent, d);
    assert start + [] + [] == start;
  }

  /** A key announces the next item of an object. */
  lemma PartKeyed(style: Style, p: Part, k: bytes, indent: nat, d: nat)
    requires PartShape(p) && p.isObject && !Awaiting(p)
    ensures var q := p.(keys := p.keys + [k]);
            && PartShape(q) && Awaiting(q)
            && PartText(style, q, true, indent, d)
               == PartText(style, p, false, indent, d) + (BeforeItem(style, |p.items|, indent, d) + KeyText(k, indent))
  {
    hide Text, ItemsText, KeyText, BeforeItem;
    var q := p.(keys := p.keys + [k]);
    assert First(q, |q.items|) == p by { assert q.items[..|q.items|] == p.items && q.keys[..|q.items|] == p.keys; }
    ItemsIgnorePendingKey(style, q, indent, d);
    var head := [Open(Completed(p))] + AfterOpen(style, indent, d) + ItemsText(style, p, indent, d);
    assert head + [] == head;
  }

  lemma KeyAppends(style: Style, s: Assembly, k: bytes, indent: nat)
    requires PartShapes(s.open) && Accepts(s, Key(k))
    ensures PartShapes(Step(s, Key(k)).open)
    ensures Written(style, Step(s, Key(k)), indent) == Written(style, s, indent) + Emit(style, s, Key(k), indent)
  {
    hide Text, ItemsText, KeyText, BeforeItem, PartText;
    var d := |s.open| - 1;
    var p := s.open[d];
    PartKeyed(style, p, k, indent, d);
    assert (s.open[..d] + [p.(keys := p.keys + [k])])[..d] == s.open[..d];
    Assoc(HeldText(style, s.open[..d], indent), PartText(style, p, false, indent, d), Emit(style, s, Key(k), indent));
    Assoc(RootsText(style, s.roots, indent), OpenText(style, s.open, indent), Emit(style, s, Key(k), indent));
  }

  lemma EndAppends(style: Style, s: Assembly, indent: nat)
    requires PartShapes(s.open) && s.open != [] && !Awaiting(Top(s))
    requires Ready(s.(open := s.open[..|s.open| - 1]))
    ensures var t := Add(s.(open := s.open[..|s.open| - 1]), Completed(Top(s)));
            && PartShapes(t.open)
            && Written(style, t, indent)
                == Written(style, s, indent) + JsonText.End(style, Completed(Top(s)), indent, |s.open| - 1)
  {
    hide Text, Lead, ItemsText, NextLead, PartText, JsonText.End;
    var d := |s.open| - 1;
    var p := s.open[d];
    var u := s.(open := s.open[..d]);
    AddAppends(style, u, Completed(p), indent);
    HeldIsOpen(style, u, indent);
    PartCloses(style, p, indent, d);
    var roots, below := RootsText(style, s.roots, indent), HeldText(style, s.open[..d], indent);
    Assoc(roots, OpenText(style, u.open, indent), ValueLead(style, u, indent));
    Assoc(below, PartText(style, p, false, indent, d), JsonText.End(style, Completed(p), indent, d));
    Assoc(roots, below, Text(style, Completed(p), indent, d));
    Assoc(roots, OpenText(style, s.open, indent), JsonText.End(style, Completed(p), indent, d));
  }

  /** An accepted event appends exactly `Emit` to the text of the assembly. */
  lemma StepAppends(style: Style, s: Assembly, e: Event, indent: nat)
    requires AssemblyOk(s) && Accepts(s, e)
    ensures AssemblyOk(Step(s, e))
    ensures Written(style, Step(s, e), indent) == Written(style, s, indent) + Emit(style, s, e, indent)
  {
    hide Text, Lead, ItemsText, NextLead, PartText, JsonText.End, OpenText, HeldText;
    StepOk(s, e);
    match e
    case ObjectStart => StartAppends(style, s, Part(true, [], []), indent);
    case ArrayStart => StartAppends(style, s, Part(false, [], []), indent);
    case Value(v) =>
      AddAppends(style, s, v, indent);
      Assoc(Written(style, s, indent), ValueLead(style, s, indent), Scalar(v));
      ScalarText(style, v, indent, |s.open|);
    case Key(k) => KeyAppends(style, s, k, indent);
    case ObjectEnd => EndAppends(style, s, indent);
    case ArrayEnd => EndAppends(style, s, indent);
  }

  lemma ScalarText(style: Style, v: Json, indent: nat, d: nat)
    requires !Container(v)
    ensures Text(style, v, indent, d) == Scalar(v)
  {
  }

  lemma SingleRoot(style: Style, v: Json, indent: nat)
    ensures Written(style, Assembly([v], []), indent) == Text(style, v, indent, 0)
  {
    hide Text;
    assert [v][..0] == [] && [v][0] == v;
    assert RootsText(style, [v], indent) == [] + Text(style, v, indent, 0);
    assert [] + Text(style, v, indent, 0) + [] == Text(style, v, indent, 0);
  }
}
