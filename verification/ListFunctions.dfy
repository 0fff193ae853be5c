/** What the operations of a List mean for the sequence of its values. */
module ListFunctions {
  import opened SentinelList
  import opened Sequences

  // ----- indices -----

  /** list_has: negative indices count from the back. */
  predicate Has(size: nat, index: int) {
    -(size as int) <= index < size
  }

  /** WRAP_NUM. */
  function Wrap(index: int, size: nat): (i: int)
    ensures Has(size, index) ==> 0 <= i < size
  {
    if index < 0 then index + size else index
  }

  function Blank(n: nat): seq<JSValue> {
    seq(n, _ => Undefined)
  }

  /** Assignment at any index: outside the list it grows, with undefined in between, at the end the sign asks for. */
  function Assigned(s: seq<JSValue>, index: int, v: JSValue): seq<JSValue> {
    if index >= |s| then s + Blank(index - |s|) + [v]
    else if index < -|s| then [v] + Blank(-index - |s| - 1) + s
    else s[Wrap(index, |s|) := v]
  }

  /** Reading back an assigned index gives the value, at a length that is the least that has the index. */
  lemma AssignedThenRead(s: seq<JSValue>, index: int, v: JSValue)
    ensures var r := Assigned(s, index, v);
            && Has(|r|, index) && r[Wrap(index, |r|)] == v
            && |r| == (if Has(|s|, index) then |s| else if index >= 0 then index + 1 else -index)
  {
  }

  /** The values that were there keep their order, and only undefined is put between them and the new one. */
  lemma AssignedKeepsOrder(s: seq<JSValue>, index: int, v: JSValue)
    ensures var r := Assigned(s, index, v);
            && (index >= |s| ==> r[..|s|] == s && r[|s|..index] == Blank(index - |s|))
            && (index < -|s| ==> r[|r| - |s|..] == s && r[1..|r| - |s|] == Blank(-index - |s| - 1))
            && (Has(|s|, index) ==> forall i :: 0 <= i < |s| && i != Wrap(index, |s|) ==> r[i] == s[i])
  {
  }

  // ----- merge -----

  /** merge: takes from the receiver as long as the predicate allows, and then from the argument. */
  function Merged(s: seq<JSValue>, t: seq<JSValue>, le: (JSValue, JSValue) -> bool): (r: seq<JSValue>)
    ensures |r| == |s| + |t|
    decreases |s| + |t|
  {
    if t == [] then s
    else if s != [] && le(s[0], t[0]) then [s[0]] + Merged(s[1..], t, le)
    else [t[0]] + Merged(s, t[1..], le)
  }

  ghost predicate TotalPreorder(le: (JSValue, JSValue) -> bool) {
    && (forall a, b :: le(a, b) || le(b, a))
    && (forall a, b, c :: le(a, b) && le(b, c) ==> le(a, c))
  }

  ghost predicate Sorted(s: seq<JSValue>, le: (JSValue, JSValue) -> bool) {
    forall i, j :: 0 <= i < j < |s| ==> le(s[i], s[j])
  }

  lemma MergedFromReceiver(s: seq<JSValue>, t: seq<JSValue>, le: (JSValue, JSValue) -> bool)
    requires t != [] && s != [] && le(s[0], t[0])
    ensures var r := Merged(s, t, le); r[0] == s[0] && r[1..] == Merged(s[1..], t, le)
  {
  }

  lemma MergedFromArgument(s: seq<JSValue>, t: seq<JSValue>, le: (JSValue, JSValue) -> bool)
    requires t != [] && (s == [] || !le(s[0], t[0]))
    ensures var r := Merged(s, t, le); r[0] == t[0] && r[1..] == Merged(s, t[1..], le)
  {
  }

  lemma MultisetHead(s: seq<JSValue>)
    requires s != []
    ensures multiset(s) == multiset{s[0]} + multiset(s[1..])
  {
    assert s == [s[0]] + s[1..];
  }

  lemma {:induction false} MergedMultiset(s: seq<JSValue>, t: seq<JSValue>, le: (JSValue, JSValue) -> bool)
    ensures multiset(Merged(s, t, le)) == multiset(s) + multiset(t)
    decreases |s| + |t|
  {
    if t != [] {
      MultisetHead(Merged(s, t, le));
      if s != [] && le(s[0], t[0]) {
        MergedFromReceiver(s, t, le);
        MergedMultiset(s[1..], t, le);
        MultisetHead(s);
      } else {
        MergedFromArgument(s, t, le);
        MergedMultiset(s, t[1..], le);
        MultisetHead(t);
      }
    }
  }

  lemma AllBelow(x: JSValue, r: seq<JSValue>, s: seq<JSValue>, t: seq<JSValue>, le: (JSValue, JSValue) -> bool)
    requires multiset(r) == multiset(s) + multiset(t)
    requires forall y :: y in s || y in t ==> le(x, y)
    ensures forall y :: y in r ==> le(x, y)
  {
    forall y | y in r ensures le(x, y) {
      assert y in multiset(r);
    }
  }

  lemma SortedCons(x: JSValue, r: seq<JSValue>, le: (JSValue, JSValue) -> bool)
    requires Sorted(r, le) && forall y :: y in r ==> le(x, y)
    ensures Sorted([x] + r, le)
  {
  }

  lemma SortedHead(s: seq<JSValue>, le: (JSValue, JSValue) -> bool)
    requires Sorted(s, le) && s != [] && TotalPreorder(le)
    ensures Sorted(s[1..], le) && forall y :: y in s ==> le(s[0], y)
  {
  }

  /** Two sorted lists give a sorted list. */
  lemma {:induction false} MergedSorted(s: seq<JSValue>, t: seq<JSValue>, le: (JSValue, JSValue) -> bool)
    requires TotalPreorder(le) && Sorted(s, le) && Sorted(t, le)
    ensures Sorted(Merged(s, t, le), le)
    decreases |s| + |t|
  {
    if t != [] {
      SortedHead(t, le);
      if s != [] { SortedHead(s, le); }
      if s != [] && le(s[0], t[0]) {
        MergedSorted(s[1..], t, le);
        MergedMultiset(s[1..], t, le);
        AllBelow(s[0], Merged(s[1..], t, le), s[1..], t, le);
        SortedCons(s[0], Merged(s[1..], t, le), le);
      } else {
        MergedSorted(s, t[1..], le);
        MergedMultiset(s, t[1..], le);
        assert forall y :: y in s ==> le(t[0], y);
        AllBelow(t[0], Merged(s, t[1..], le), s, t[1..], le);
        SortedCons(t[0], Merged(s, t[1..], le), le);
      }
    }
  }

  /** The elements that the order does not tell from x, in the order in which they stand. */
  function Alike(s: seq<JSValue>, x: JSValue, le: (JSValue, JSValue) -> bool): seq<JSValue> {
    if s == [] then []
    else Own(s[0], x, le) + Alike(s[1..], x, le)
  }

  lemma {:induction false} NoneAlike(s: seq<JSValue>, x: JSValue, le: (JSValue, JSValue) -> bool)
    requires forall y :: y in s ==> !le(y, x)
    ensures Alike(s, x, le) == []
  {
    if s != [] {
      assert s[0] in s;
      assert forall y :: y in s[1..] ==> y in s;
      NoneAlike(s[1..], x, le);
    }
  }

  function Own(y: JSValue, x: JSValue, le: (JSValue, JSValue) -> bool): seq<JSValue> {
    if le(x, y) && le(y, x) then [y] else []
  }

  lemma AlikeHead(s: seq<JSValue>, x: JSValue, le: (JSValue, JSValue) -> bool)
    requires s != []
    ensures Alike(s, x, le) == Own(s[0], x, le) + Alike(s[1..], x, le)
  {
  }

  lemma Swap(own: seq<JSValue>, a: seq<JSValue>, b: seq<JSValue>)
    requires own == [] || a == []
    ensures own + (a + b) == a + (own + b)
  {
  }

  lemma SortedTail(s: seq<JSValue>, le: (JSValue, JSValue) -> bool)
    requires Sorted(s, le) && s != []
    ensures Sorted(s[1..], le)
  {
  }

  /** What stands in front of all receiver elements is not told from none of them. */
  lemma OvertakenIsUnlike(s: seq<JSValue>, y: JSValue, x: JSValue, le: (JSValue, JSValue) -> bool)
    requires TotalPreorder(le) && Sorted(s, le) && (s == [] || !le(s[0], y)) && le(x, y)
    ensures Alike(s, x, le) == []
  {
    if s != [] {
      SortedHead(s, le);
      assert !le(s[0], x);
      NoneAlike(s, x, le);
    }
  }

  /** Stability: among equal elements those of the receiver come first, each list in its own order. */
  lemma {:induction false} MergedStable(s: seq<JSValue>, t: seq<JSValue>, x: JSValue, le: (JSValue, JSValue) -> bool)
    requires TotalPreorder(le) && Sorted(s, le)
    ensures Alike(Merged(s, t, le), x, le) == Alike(s, x, le) + Alike(t, x, le)
    decreases |s| + |t|
  {
    hide TotalPreorder, Alike, Sorted;
    if t == [] {
      NoneAlike([], x, le);
    } else if s != [] && le(s[0], t[0]) {
      SortedTail(s, le);
      MergedStable(s[1..], t, x, le);
      MergedFromReceiver(s, t, le);
      AlikeHead(s, x, le);
      AlikeHead(Merged(s, t, le), x, le);
      Assoc(Own(s[0], x, le), Alike(s[1..], x, le), Alike(t, x, le));
    } else {
      MergedStable(s, t[1..], x, le);
      MergedFromArgument(s, t, le);
      AlikeHead(t, x, le);
      AlikeHead(Merged(s, t, le), x, le);
      if le(x, t[0]) && le(t[0], x) { OvertakenIsUnlike(s, t[0], x, le); }
      Swap(Own(t[0], x, le), Alike(s, x, le), Alike(t[1..], x, le));
    }
  }

  // ----- unique -----

  /** unique: an element swallows the ones behind it that equal it. */
  function Uniqued(s: seq<JSValue>, eq: (JSValue, JSValue) -> bool): (r: seq<JSValue>)
    ensures |r| <= |s| && (s != [] ==> r != [] && r[0] == s[0])
    decreases |s|
  {
    if |s| <= 1 then s
    else if eq(s[0], s[1]) then Uniqued([s[0]] + s[2..], eq)
    else [s[0]] + Uniqued(s[1..], eq)
  }

  /** No two neighbours are equal afterwards, whatever the predicate. */
  lemma {:induction false} UniquedHasNoTwins(s: seq<JSValue>, eq: (JSValue, JSValue) -> bool)
    ensures forall i, j :: 0 <= i && j == i + 1 < |Uniqued(s, eq)| ==> !eq(Uniqued(s, eq)[i], Uniqued(s, eq)[j])
    decreases |s|
  {
    if |s| > 1 {
      if eq(s[0], s[1]) { UniquedHasNoTwins([s[0]] + s[2..], eq); } else { UniquedHasNoTwins(s[1..], eq); }
    }
  }

  ghost predicate Equivalence(eq: (JSValue, JSValue) -> bool) {
    && (forall a, b :: eq(a, b) ==> eq(b, a))
    && (forall a, b, c :: eq(a, b) && eq(b, c) ==> eq(a, c))
  }

  /** The elements that differ from the one right before them; `p` stands before the first. */
  function RunHeads(p: JSValue, s: seq<JSValue>, eq: (JSValue, JSValue) -> bool): seq<JSValue>
    decreases |s|
  {
    if s == [] then []
    else (if eq(p, s[0]) then [] else [s[0]]) + RunHeads(s[0], s[1..], eq)
  }

  /** Comparing with the element that was kept, as the list does, or with the neighbour is the same for an
      equivalence. */
  lemma {:induction false} UniquedKeepsRunHeads(x: JSValue, p: JSValue, s: seq<JSValue>, eq: (JSValue, JSValue) -> bool)
    requires Equivalence(eq) && (x == p || eq(x, p))
    ensures Uniqued([x] + s, eq) == [x] + RunHeads(p, s, eq)
    decreases |s|
  {
    if s != [] {
      assert ([x] + s)[1..] == s && [s[0]] + s[1..] == s && ([x] + s)[2..] == s[1..];
      if eq(x, s[0]) {
        UniquedKeepsRunHeads(x, s[0], s[1..], eq);
      } else {
        UniquedKeepsRunHeads(s[0], s[0], s[1..], eq);
      }
    }
  }
}
