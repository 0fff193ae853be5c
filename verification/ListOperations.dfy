/** The operations of the List class, as loops over linked nodes. */
module ListOperations {
  import opened SentinelList
  import opened ListFunctions
  import opened Sequences

  /** A node of the list, or the header for the end. */
  ghost function NodeAt(list: List, i: nat): Node
    requires i <= |list.nodes|
    reads list
  {
    if i == |list.nodes| then list.header else list.nodes[i]
  }

  /** The links around a gap. */
  lemma Around(list: List, at: nat)
    requires list.Valid() && at <= |list.nodes|
    ensures list.Ring()[at].next == NodeAt(list, at) && NodeAt(list, at).prev == list.Ring()[at]
    ensures list.size == |list.nodes| == |list.contents|
    ensures list.Ring()[at] == if at == 0 then list.header else list.nodes[at - 1]
  {
    list.Neighbours(at);
  }

  lemma NodesAreDistinct(list: List, i: nat, j: nat)
    requires list.Valid() && i <= |list.nodes| && j <= |list.nodes|
    ensures NodeAt(list, i) == NodeAt(list, j) <==> i == j
  {
    var ring := list.Ring();
    assert i < |list.nodes| ==> ring[i + 1] == list.nodes[i];
    assert j < |list.nodes| ==> ring[j + 1] == list.nodes[j];
  }

  /** list_at: walks from the nearer end. */
  method ListAt(list: List, index: int) returns (node: Node?)
    requires list.Valid()
    ensures node == if Has(|list.nodes|, index) then list.nodes[Wrap(index, |list.nodes|)] else null
  {
    var at := if index < 0 then index + list.size else index;
    if at < 0 || at >= list.size {
      return null;
    }
    var fromBack := list.size - 1 - at;
    if fromBack < at {
      node := FromBack(list, fromBack);
    } else {
      node := FromFront(list, at);
    }
  }

  /** list_for_each, up to a count. */
  method FromFront(list: List, count: nat) returns (node: Node?)
    requires list.Valid()
    ensures node == if count < |list.nodes| then list.nodes[count] else null
  {
    hide List.Valid, Distinct, Linked, Cyclic, Carry;
    node := null;
    var left := count;
    ghost var i := 0;
    Around(list, 0);
    var ptr := list.header.next;
    while ptr != list.header
      invariant i <= |list.nodes| && left == count - i
      invariant ptr == if i == |list.nodes| then list.header else list.nodes[i]
      decreases |list.nodes| - i
    {
      if left == 0 {
        NodesAreDistinct(list, i, |list.nodes|);
        return ptr;
      }
      left := left - 1;
      Around(list, i + 1);
      ptr := ptr.next;
      i := i + 1;
    }
    if i < |list.nodes| { NodesAreDistinct(list, i, |list.nodes|); }
  }

  /** list_for_each_prev, up to a count. */
  method FromBack(list: List, count: nat) returns (node: Node?)
    requires list.Valid()
    ensures node == if count < |list.nodes| then list.nodes[|list.nodes| - 1 - count] else null
  {
    hide List.Valid, Distinct, Linked, Cyclic, Carry;
    node := null;
    var left := count;
    ghost var i := |list.nodes|;
    Around(list, i);
    var ptr := list.header.prev;
    while ptr != list.header
      invariant 0 <= i <= |list.nodes| && left == count - (|list.nodes| - i)
      invariant ptr == list.Ring()[i]
      decreases i
    {
      if left == 0 {
        return ptr;
      }
      left := left - 1;
      Around(list, i - 1);
      ptr := ptr.prev;
      i := i - 1;
    }
    if i > 0 { NodesAreDistinct(list, i - 1, |list.nodes|); }
  }

  /** `s` without what lies between i and k. */
  function Cut<T>(s: seq<T>, i: nat, k: nat): (r: seq<T>)
    requires i <= k <= |s|
    ensures |r| == |s| - (k - i)
  {
    s[..i] + s[k..]
  }

  lemma CutOneMore<T>(s: seq<T>, i: nat, k: nat)
    requires i <= k < |s|
    ensures Cut(Cut(s, i, k), i, i + 1) == Cut(s, i, k + 1)
  {
  }

  /** `end` is position j, or not in the list at all. */
  ghost predicate IsEnd(list: List, nodes: seq<Node>, j: nat, end: Node) {
    || (j <= |nodes| && end == if j == |nodes| then list.header else nodes[j])
    || (j == |nodes| && end != list.header && end !in nodes)
  }

  lemma EndOutside(list: List, end: Node, j: nat)
    requires j <= |list.nodes| && (end == NodeAt(list, j) || (j == |list.nodes| && end !in list.Ring()))
    ensures IsEnd(list, list.nodes, j, end)
  {
  }

  /** With nodes i..k erased, the walk stops at position i exactly if k is the end or position j of before. */
  lemma StandsBefore(list: List, nodes: seq<Node>, i: nat, k: nat, j: nat, end: Node)
    requires list.Valid() && i <= k <= |nodes| && j <= |nodes| && (j < i || k <= j)
    requires list.nodes == Cut(nodes, i, k)
    requires IsEnd(list, nodes, j, end)
    ensures NodeAt(list, i) == list.header || NodeAt(list, i) == end <==> k == |nodes| || k == j
    ensures k < |nodes| ==> i < |list.nodes| && NodeAt(list, i) == list.nodes[i]
  {
    NodesAreDistinct(list, i, |list.nodes|);
    NodesAreDistinct(list, i, if j < i then j else i + (j - k));
  }

  /** What lies between i and k is erased, and the walk has not passed j. */
  ghost predicate Erasing(list: List, nodes: seq<Node>, contents: seq<JSValue>, i: nat, k: nat, j: nat, ptr: Node)
    reads list
  {
    && i <= k <= |nodes| && |contents| == |nodes| && j <= |nodes| && (j < i || k <= j)
    && list.nodes == Cut(nodes, i, k) && list.contents == Cut(contents, i, k)
    && ptr == NodeAt(list, i)
  }

  lemma ErasingStarts(list: List, i: nat, j: nat, p: Node)
    requires list.Valid() && i < |list.nodes| && p == list.nodes[i] && j <= |list.nodes|
    ensures Erasing(list, list.nodes, list.contents, i, i, j, p)
  {
    assert Cut(list.nodes, i, i) == list.nodes && Cut(list.contents, i, i) == list.contents;
  }

  lemma ErasingHere(list: List, nodes: seq<Node>, contents: seq<JSValue>, i: nat, k: nat, j: nat, ptr: Node, end: Node)
    requires list.Valid() && Erasing(list, nodes, contents, i, k, j, ptr) && IsEnd(list, nodes, j, end)
    ensures ptr == list.header || ptr == end <==> k == |nodes| || k == j
    ensures k < |nodes| ==> i < |list.nodes| && ptr == list.nodes[i]
    ensures forall x :: 0 <= x < |list.nodes| ==> list.nodes[x] in nodes
    ensures i <= k <= |nodes| && |contents| == |nodes| && j <= |nodes| && (j < i || k <= j)
    ensures list.nodes == Cut(nodes, i, k) && list.contents == Cut(contents, i, k)
    ensures k == |nodes| || k == j ==>
              var last := if j < i then |nodes| else j;
              list.nodes == Cut(nodes, i, last) && list.contents == Cut(contents, i, last)
  {
    StandsBefore(list, nodes, i, k, j, end);
  }

  lemma ErasingGoesOn(list: List, nodes: seq<Node>, contents: seq<JSValue>, i: nat, k: nat, j: nat,
                      nodes0: seq<Node>, contents0: seq<JSValue>, ptr: Node)
    requires i <= k < |nodes| && k != j && |contents| == |nodes| && j <= |nodes| && (j < i || k <= j)
    requires nodes0 == Cut(nodes, i, k) && contents0 == Cut(contents, i, k)
    requires list.nodes == Cut(nodes0, i, i + 1) && list.contents == Cut(contents0, i, i + 1)
    requires i <= |list.nodes| && ptr == NodeAt(list, i)
    ensures Erasing(list, nodes, contents, i, k + 1, j, ptr)
  {
    CutOneMore(nodes, i, k);
    CutOneMore(contents, i, k);
  }

  /** LIST_ERASE with one argument: the node itself. */
  method EraseNode(list: List, p: Node, ghost i: nat) returns (q: Node)
    requires list.Valid() && i < |list.nodes| && p == list.nodes[i]
    modifies list, list.header, list.nodes
    ensures list.Valid() && list.Grown()
    ensures list.nodes == Cut(old(list.nodes), i, i + 1) && list.contents == Cut(old(list.contents), i, i + 1)
    ensures q == NodeAt(list, i)
  {
    hide List.Valid, Distinct, Linked, Cyclic, Carry;
    Around(list, i + 1);
    q := p.next;
    list.Erase(p, i);
  }

  /**
   LIST_ERASE with two arguments: up to `end`, or to the end of the list when `end` does not come after p or is a node
   of no or another list, for which j is the number of nodes.
   */
  method EraseRange(list: List, p: Node, end: Node, ghost i: nat, ghost j: nat) returns (q: Node)
    requires list.Valid() && i < |list.nodes| && p == list.nodes[i]
    requires j <= |list.nodes| && (end == NodeAt(list, j) || (j == |list.nodes| && end !in list.Ring()))
    modifies list, list.header, list.nodes
    ensures list.Valid() && list.Grown()
    ensures var k := if j < i then |old(list.nodes)| else j;
            list.nodes == Cut(old(list.nodes), i, k) && list.contents == Cut(old(list.contents), i, k)
    ensures q == end
  {
    hide List.Valid, List.Ring, Distinct, Linked, Cyclic, Carry, Cut, NodeAt, IsEnd, Erasing;
    var ptr := p;
    ghost var k := i;
    ghost var nodes, contents := list.nodes, list.contents;
    EndOutside(list, end, j);
    ErasingStarts(list, i, j, p);
    while ptr != list.header && ptr != end
      invariant list.Valid() && Erasing(list, nodes, contents, i, k, j, ptr)
      invariant k <= |nodes|
      decreases |nodes| - k
    {
      ErasingHere(list, nodes, contents, i, k, j, ptr, end);
      ghost var nodes0, contents0 := list.nodes, list.contents;
      ptr := EraseNode(list, ptr, i);
      ErasingGoesOn(list, nodes, contents, i, k, j, nodes0, contents0, ptr);
      k := k + 1;
    }
    ErasingHere(list, nodes, contents, i, k, j, ptr, end);
    q := end;
  }

  /** `s` with `u` put in at position `at`. */
  function Spliced<T>(s: seq<T>, at: nat, u: seq<T>): (r: seq<T>)
    requires at <= |s|
    ensures |r| == |s| + |u|
  {
    s[..at] + u + s[at..]
  }

  lemma SplicedOneMore<T>(s: seq<T>, at: nat, u: seq<T>, x: T)
    requires at <= |s|
    ensures Inserted(Spliced(s, at, u), at + |u|, x) == Spliced(s, at, u + [x])
    ensures Inserted(Spliced(s, at, u), at, x) == Spliced(s, at, [x] + u)
  {
    var v := Spliced(s, at, u);
    assert v[..at + |u|] == s[..at] + u && v[at + |u|..] == s[at..];
    assert v[..at] == s[..at] && v[at..] == u + s[at..];
  }

  lemma SplicedNothing<T>(s: seq<T>, at: nat)
    requires at <= |s|
    ensures Spliced(s, at, []) == s
  {
  }

  lemma SplicedAround<T>(s: seq<T>, at: nat, u: seq<T>)
    requires at <= |s|
    ensures at < |s| ==> Spliced(s, at, u)[at + |u|] == s[at]
    ensures forall i :: 0 <= i < |u| ==> Spliced(s, at, u)[at + i] == u[i]
    ensures forall i :: 0 <= i < at ==> Spliced(s, at, u)[i] == s[i]
  {
  }

  /** LIST_INSERT_BEFORE, also push (with no node): values in their order, and an iterator at the first of them. */
  method InsertValuesBefore(list: List, position: Node?, values: seq<JSValue>, ghost at: nat)
    returns (first: Node, ghost added: seq<Node>)
    requires list.Valid() && Uninitialized !in values
    requires at <= |list.nodes| && (if position == null then at == |list.nodes| else position == NodeAt(list, at))
    modifies list, list.header, list.nodes
    ensures list.Valid() && |added| == |values| && fresh(added)
    ensures list.nodes == Spliced(old(list.nodes), at, added)
    ensures list.contents == Spliced(old(list.contents), at, values)
    ensures first == NodeAt(list, at)
  {
    hide List.Valid, Distinct, Linked, Cyclic, Carry, Inserted, Spliced;
    var node := if position == null then list.header else position;
    Around(list, at);
    var tmp := node.prev;
    ghost var nodes, contents := list.nodes, list.contents;
    NodesAreDistinct(list, at, |nodes|);
    added := [];
    SplicedNothing(nodes, at);
    SplicedNothing(contents, at);
    for i := 0 to |values|
      invariant list.Valid() && list.Grown() && fresh(added) && |added| == i
      invariant list.nodes == Spliced(nodes, at, added) && list.contents == Spliced(contents, at, values[..i])
      invariant node == NodeAt(list, at + i)
    {
      var x := list.InsertBefore(values[i], node, at + i);
      SplicedOneMore(nodes, at, added, x);
      SplicedOneMore(contents, at, values[..i], values[i]);
      added := added + [x];
      assert values[..i + 1] == values[..i] + [values[i]];
      SplicedAround(nodes, at, added);
    }
    assert values[..|values|] == values;
    SplicedAround(nodes, at, added);
    if at > 0 { assert tmp == nodes[at - 1] == list.nodes[at - 1]; }
    Around(list, at);
    first := tmp.next;
  }

  /** LIST_INSERT_AFTER, also unshift (with no node): values in their order, and an iterator at the last of them. */
  method InsertValuesAfter(list: List, position: Node?, values: seq<JSValue>, ghost at: nat)
    returns (last: Node, ghost added: seq<Node>)
    requires list.Valid() && Uninitialized !in values
    requires at <= |list.nodes| && (if position == null then at == 0 else position == list.Ring()[at])
    modifies list, list.header, list.nodes
    ensures list.Valid() && |added| == |values| && fresh(added)
    ensures list.nodes == Spliced(old(list.nodes), at, added)
    ensures list.contents == Spliced(old(list.contents), at, values)
    ensures last == list.Ring()[at + |values|]
  {
    hide List.Valid, Distinct, Linked, Cyclic, Carry, Inserted;
    var node := if position == null then list.header else position;
    Around(list, at);
    var tmp := node.next;
    ghost var nodes, contents := list.nodes, list.contents;
    added := [];
    var i := |values|;
    while i > 0
      invariant 0 <= i <= |values|
      invariant list.Valid() && fresh(added) && |added| == |values| - i
      invariant list.nodes == Spliced(nodes, at, added) && list.contents == Spliced(contents, at, values[i..])
    {
      i := i - 1;
      var x := list.Insert(values[i], node, at);
      SplicedOneMore(nodes, at, added, x);
      SplicedOneMore(contents, at, values[i + 1..], values[i]);
      added := [x] + added;
      assert values[i..] == [values[i]] + values[i + 1..];
    }
    assert values[0..] == values;
    Around(list, at + |values|);
    last := tmp.prev;
  }

  /** js_list_set_property at an index. */
  method SetProperty(list: List, index: int, value: JSValue)
    requires list.Valid() && value != Uninitialized
    modifies list, list.header, list.nodes
    ensures list.Valid() && list.contents == Assigned(old(list.contents), index, value)
    ensures Has(|list.nodes|, index) && list.nodes[Wrap(index, |list.nodes|)].value == value
  {
    hide List.Valid, Distinct, Linked, Cyclic, Carry, Inserted, Assigned, Blank;
    AssignedCases(list.contents, index, value);
    var size: int := list.size;
    if index >= size {
      GrowBack(list, index, value);
    } else if index < -size {
      GrowFront(list, index, value);
    } else {
      var node := ListAt(list, index);
      SetValue(list, node, value, Wrap(index, size));
    }
    AssignedThenRead(old(list.contents), index, value);
    ValueAt(list, Wrap(index, list.size));
  }

  lemma AssignedCases(s: seq<JSValue>, index: int, v: JSValue)
    ensures index >= |s| ==> Assigned(s, index, v) == s + Blank(index - |s|) + [v]
    ensures index < -|s| ==> Assigned(s, index, v) == [v] + Blank(-index - |s| - 1) + s
    ensures Has(|s|, index) ==> Assigned(s, index, v) == s[Wrap(index, |s|) := v]
  {
  }

  /** An index at or behind the end. */
  method GrowBack(list: List, index: int, value: JSValue)
    requires list.Valid() && value != Uninitialized && index >= list.size
    modifies list, list.header, list.nodes
    ensures list.Valid() && list.contents == old(list.contents) + Blank(index - old(list.size)) + [value]
  {
    hide List.Valid, Distinct, Linked, Cyclic, Carry, Inserted;
    var size: int := list.size;
    for i := size to index
      invariant list.Valid() && list.Grown()
      invariant list.contents == old(list.contents) + Blank(i - size)
    {
      Append(list, Undefined);
      assert Blank(i - size) + [Undefined] == Blank(i + 1 - size);
      Assoc(old(list.contents), Blank(i - size), [Undefined]);
    }
    Append(list, value);
  }

  /** A negative index before the head. */
  method GrowFront(list: List, index: int, value: JSValue)
    requires list.Valid() && value != Uninitialized && index < -(list.size as int)
    modifies list, list.header, list.nodes
    ensures list.Valid() && list.contents == [value] + Blank(-index - old(list.size) - 1) + old(list.contents)
  {
    hide List.Valid, Distinct, Linked, Cyclic, Carry, Inserted;
    var size: int := list.size;
    for i := index to -(size + 1)
      invariant list.Valid() && list.Grown()
      invariant list.contents == Blank(i - index) + old(list.contents)
    {
      Prepend(list, Undefined);
      assert [Undefined] + Blank(i - index) == Blank(i + 1 - index);
      Assoc([Undefined], Blank(i - index), old(list.contents));
    }
    Prepend(list, value);
    Assoc([value], Blank(-index - size - 1), old(list.contents));
  }

  method Append(list: List, value: JSValue)
    requires list.Valid() && value != Uninitialized
    modifies list, list.header, list.nodes
    ensures list.Valid() && list.Grown() && list.contents == old(list.contents) + [value]
  {
    hide List.Valid, Distinct, Linked, Cyclic, Carry;
    var _ := list.InsertBefore(value, null, list.size);
  }

  method Prepend(list: List, value: JSValue)
    requires list.Valid() && value != Uninitialized
    modifies list, list.header, list.nodes
    ensures list.Valid() && list.Grown() && list.contents == [value] + old(list.contents)
  {
    hide List.Valid, Distinct, Linked, Cyclic, Carry;
    var _ := list.Insert(value, null, 0);
  }

  method SetValue(list: List, node: Node, value: JSValue, ghost at: nat)
    requires list.Valid() && at < |list.nodes| && node == list.nodes[at] && value != Uninitialized
    modifies node`value, list`contents
    ensures list.Valid() && list.contents == old(list.contents)[at := value] && list.nodes == old(list.nodes)
  {
    list.NotTheHeader(at);
    forall i | 0 <= i < |list.nodes| && i != at ensures list.nodes[i] != node {
      NodesAreDistinct(list, i, at);
    }
    node.value := value;
    list.contents := list.contents[at := value];
    assert Cyclic(list.Ring());
  }

  lemma ValueAt(list: List, i: nat)
    requires list.Valid() && i < |list.nodes|
    ensures list.nodes[i].value == list.contents[i]
  {
  }

  /** Erasing the second of two equal elements does not change what unique leaves. */
  lemma TwinErased(s: seq<JSValue>, i: nat, eq: (JSValue, JSValue) -> bool)
    requires i + 1 < |s| && eq(s[i], s[i + 1])
    ensures Removed(s, i + 1)[..i + 1] == s[..i + 1]
    ensures Uniqued(Removed(s, i + 1)[i..], eq) == Uniqued(s[i..], eq)
  {
    assert Removed(s, i + 1)[i..] == [s[i]] + s[i + 2..];
    assert s[i..][2..] == s[i + 2..];
  }

  lemma NoTwinAhead(s: seq<JSValue>, i: nat, eq: (JSValue, JSValue) -> bool)
    requires i < |s| && (i + 1 < |s| ==> !eq(s[i], s[i + 1]))
    ensures Uniqued(s[i..], eq) == [s[i]] + Uniqued(s[i + 1..], eq)
  {
    assert s[i..][1..] == s[i + 1..];
  }

  /** The inner loop of LIST_UNIQUE. */
  method RemoveTwins(list: List, node: Node, eq: (JSValue, JSValue) -> bool, ghost i: nat)
    requires list.Valid() && i < |list.nodes| && node == list.nodes[i]
    modifies list, list.header, list.nodes
    ensures list.Valid() && list.Grown()
    ensures i < |list.nodes| <= |old(list.nodes)| && node == list.nodes[i]
    ensures list.contents[..i + 1] == old(list.contents)[..i + 1]
    ensures [list.contents[i]] + Uniqued(list.contents[i + 1..], eq) == Uniqued(old(list.contents)[i..], eq)
  {
    hide List.Valid, Distinct, Linked, Cyclic, Uniqued, Carry;
    Around(list, i + 1);
    NodesAreDistinct(list, i + 1, |list.nodes|);
    while node.next != list.header
      invariant list.Valid() && list.Grown()
      invariant i < |list.nodes| <= |old(list.nodes)| && node == list.nodes[i] && node.next == NodeAt(list, i + 1)
      invariant node.next == list.header <==> i + 1 == |list.nodes|
      invariant list.contents[..i + 1] == old(list.contents)[..i + 1]
      invariant Uniqued(list.contents[i..], eq) == Uniqued(old(list.contents)[i..], eq)
      decreases |list.nodes|
    {
      ValueAt(list, i);
      ValueAt(list, i + 1);
      if !eq(node.value, node.next.value) {
        break;
      }
      TwinErased(list.contents, i, eq);
      list.Erase(node.next, i + 1);
      Around(list, i + 1);
      NodesAreDistinct(list, i + 1, |list.nodes|);
    }
    NoTwinAhead(list.contents, i, eq);
  }

  /** LIST_UNIQUE with a predicate. */
  method Unique(list: List, eq: (JSValue, JSValue) -> bool) returns (size: nat)
    requires list.Valid()
    modifies list, list.header, list.nodes
    ensures list.Valid() && list.contents == Uniqued(old(list.contents), eq) && size == |list.contents|
  {
    hide List.Valid, Distinct, Linked, Cyclic, Uniqued, Carry;
    UniquedNothing(eq);
    ghost var contents := list.contents;
    Around(list, 0);
    var node := list.header.next;
    ghost var i := 0;
    NodesAreDistinct(list, i, |list.nodes|);
    while node != list.header
      invariant list.Valid() && list.Grown()
      invariant i <= |list.nodes| && node == NodeAt(list, i) && (node == list.header <==> i == |list.nodes|)
      invariant list.contents[..i] + Uniqued(list.contents[i..], eq) == Uniqued(contents, eq)
      decreases |list.nodes| - i
    {
      ghost var before := list.contents;
      RemoveTwins(list, node, eq, i);
      assert list.contents[..i + 1] == list.contents[..i] + [list.contents[i]] && before[..i] == before[..i + 1][..i];
      Assoc(list.contents[..i], [list.contents[i]], Uniqued(list.contents[i + 1..], eq));
      Around(list, i + 1);
      node := node.next;
      i := i + 1;
      NodesAreDistinct(list, i, |list.nodes|);
    }
    assert list.contents[..i] == list.contents && list.contents[i..] == [];
    size := list.size;
  }

  lemma UniquedNothing(eq: (JSValue, JSValue) -> bool)
    ensures Uniqued([], eq) == []
  {
  }

  /** Two lists share no node. */
  ghost predicate Apart(list: List, other: List)
    reads list, other
  {
    && list != other && list.header != other.header && list.header !in other.nodes && other.header !in list.nodes
    && forall i :: 0 <= i < |list.nodes| ==> list.nodes[i] !in other.nodes
  }

  /** What is left to merge when the receiver stands at i and the argument at j. */
  ghost function Pending(s: seq<JSValue>, i: nat, t: seq<JSValue>, j: nat, le: (JSValue, JSValue) -> bool): seq<JSValue>
    requires i <= |s| && j <= |t|
  {
    s[..i] + Merged(s[i..], t[j..], le)
  }

  lemma PendingSkips(s: seq<JSValue>, i: nat, t: seq<JSValue>, j: nat, le: (JSValue, JSValue) -> bool)
    requires i < |s| && j < |t| && le(s[i], t[j])
    ensures Pending(s, i + 1, t, j, le) == Pending(s, i, t, j, le)
  {
    assert s[i..][1..] == s[i + 1..] && s[..i + 1] == s[..i] + [s[i]];
    Assoc(s[..i], [s[i]], Merged(s[i + 1..], t[j..], le));
  }

  lemma PendingInserts(s: seq<JSValue>, i: nat, t: seq<JSValue>, j: nat, le: (JSValue, JSValue) -> bool)
    requires i <= |s| && j < |t| && (i < |s| ==> !le(s[i], t[j]))
    ensures Pending(Inserted(s, i, t[j]), i + 1, t, j + 1, le) == Pending(s, i, t, j, le)
  {
    var r := Inserted(s, i, t[j]);
    assert r[..i + 1] == s[..i] + [t[j]] && r[i + 1..] == s[i..] && t[j..][1..] == t[j + 1..];
    Assoc(s[..i], [t[j]], Merged(s[i..], t[j + 1..], le));
  }

  /** The inner loop of LIST_MERGE. */
  method SkipBelow(list: List, start: Node, value: JSValue, le: (JSValue, JSValue) -> bool,
                   ghost from: nat, ghost t: seq<JSValue>, ghost j: nat)
    returns (node: Node, ghost i: nat)
    requires list.Valid() && from <= |list.nodes| && start == NodeAt(list, from)
    requires j < |t| && value == t[j]
    ensures i <= |list.nodes| && node == NodeAt(list, i)
    ensures i < |list.nodes| ==> !le(list.contents[i], value)
    ensures Pending(list.contents, i, t, j, le) == Pending(list.contents, from, t, j, le)
  {
    hide List.Valid, Distinct, Linked, Cyclic, Carry, Pending, Merged;
    node, i := start, from;
    NodesAreDistinct(list, i, |list.nodes|);
    while node != list.header
      invariant i <= |list.nodes| && node == NodeAt(list, i) && (node == list.header <==> i == |list.nodes|)
      invariant Pending(list.contents, i, t, j, le) == Pending(list.contents, from, t, j, le)
      decreases |list.nodes| - i
    {
      ValueAt(list, i);
      if !le(node.value, value) {
        break;
      }
      PendingSkips(list.contents, i, t, j, le);
      Around(list, i + 1);
      node := node.next;
      i := i + 1;
      NodesAreDistinct(list, i, |list.nodes|);
    }
  }

  /** LIST_MERGE: copies every value of the other list into this one. */
  method Merge(list: List, other: List, le: (JSValue, JSValue) -> bool)
    requires list.Valid() && other.Valid() && Apart(list, other)
    modifies list, list.header, list.nodes
    ensures list.Valid() && other.Valid()
    ensures other.nodes == old(other.nodes) && other.contents == old(other.contents)
    ensures list.contents == Merged(old(list.contents), other.contents, le)
  {
    hide List.Valid, Distinct, Linked, Cyclic, Carry, Pending, Merged, Inserted;
    ghost var s, t := list.contents, other.contents;
    ghost var i: nat, j: nat := 0, 0;
    Around(list, 0);
    Around(other, 0);
    var node, el := list.header.next, other.header.next;
    NodesAreDistinct(other, j, |other.nodes|);
    while el != other.header
      invariant list.Valid() && list.Grown() && other.Valid() && Apart(list, other)
      invariant other.nodes == old(other.nodes) && other.contents == t
      invariant i <= |list.nodes| && node == NodeAt(list, i)
      invariant j <= |t| && el == NodeAt(other, j) && (el == other.header <==> j == |t|)
      invariant Pending(list.contents, i, t, j, le) == Pending(s, 0, t, 0, le)
      decreases |t| - j
    {
      ValueAt(other, j);
      node, i := SkipBelow(list, node, el.value, le, i, t, j);
      PendingInserts(list.contents, i, t, j, le);
      CopyBefore(list, other, el.value, node, i);
      i := i + 1;
      Around(other, j + 1);
      el := el.next;
      j := j + 1;
      NodesAreDistinct(other, j, |other.nodes|);
    }
    PendingEnds(list.contents, i, s, t, le);
  }

  lemma PendingEnds(r: seq<JSValue>, i: nat, s: seq<JSValue>, t: seq<JSValue>, le: (JSValue, JSValue) -> bool)
    requires i <= |r|
    ensures Pending(r, i, t, |t|, le) == r
    ensures Pending(s, 0, t, 0, le) == Merged(s, t, le)
  {
    assert s[0..] == s && t[0..] == t;
    assert r[..i] + r[i..] == r;
  }

  /** One insertion, seen from both lists. */
  method CopyBefore(list: List, other: List, value: JSValue, node: Node, ghost i: nat)
    requires list.Valid() && other.Valid() && Apart(list, other)
    requires i <= |list.nodes| && node == NodeAt(list, i) && value in other.contents
    modifies list, list.header, list.nodes
    ensures list.Valid() && list.Grown() && other.Valid() && Apart(list, other)
    ensures other.nodes == old(other.nodes) && other.contents == old(other.contents)
    ensures i + 1 <= |list.nodes| && node == NodeAt(list, i + 1)
    ensures list.contents == Inserted(old(list.contents), i, value)
  {
    hide Distinct, Linked, Cyclic, Carry;
    NodesAreDistinct(list, i, |list.nodes|);
    ghost var ring := other.Ring();
    assert forall x :: x in ring ==> x != list.header && x !in list.nodes;
    assert Cyclic(ring) && Distinct(ring) && Carry(other.nodes, other.contents);
    var _ := list.InsertBefore(value, node, i);
    assert Cyclic(ring) && Carry(other.nodes, other.contents);
  }
}
