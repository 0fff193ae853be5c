/**
 The circular doubly linked list of the List class. One node, the header, belongs to the list
 itself: it carries no value and stands between the last node and the first.
 */
module SentinelList {
  import opened Sequences

  /** A JavaScript value as far as the list looks at it; `Other` names any value but the two special ones. */
  datatype JSValue = Uninitialized | Undefined | Other(id: int)

  class Node {
    var prev: Node?
    var next: Node?
    var value: JSValue

    /** node_new. */
    constructor (value: JSValue)
      ensures this.value == value && prev == null && next == null
    {
      this.value := value;
      prev, next := null, null;
    }
  }

  // ----- circles of nodes -----

  /** Neighbours in `c` point at each other. */
  ghost predicate Linked(c: seq<Node>)
    reads c
  {
    forall i, j :: 0 <= i && j == i + 1 < |c| ==> c[i].next == c[j] && c[j].prev == c[i]
  }

  /** ... and so do the last node and the first. */
  ghost predicate Cyclic(c: seq<Node>)
    reads c
  {
    |c| > 0 && Linked(c) && c[|c| - 1].next == c[0] && c[0].prev == c[|c| - 1]
  }

  ghost function First(c: seq<Node>): Node
    requires |c| > 0
  {
    c[0]
  }

  ghost function Last(c: seq<Node>): Node
    requires |c| > 0
  {
    c[|c| - 1]
  }

  /** A circle can be entered anywhere. */
  lemma RotateCyclic(a: seq<Node>, b: seq<Node>)
    requires Cyclic(a + b) && Distinct(a + b)
    ensures Cyclic(b + a) && Distinct(b + a)
  {
    if a == [] || b == [] {
      assert a + b == b + a;
    } else {
      DistinctParts(a, b);
      LinkedParts(a, b);
      assert a[0] == (a + b)[0] && b[|b| - 1] == (a + b)[|a + b| - 1];
      LinkedJoin(b, a);
      DistinctJoin(b, a);
    }
  }

  lemma LinkedParts(a: seq<Node>, b: seq<Node>)
    requires Linked(a + b) && |a| > 0 && |b| > 0
    ensures Linked(a) && Linked(b) && a[|a| - 1].next == b[0] && b[0].prev == a[|a| - 1]
  {
    var c := a + b;
    assert a == c[..|a|] && b == c[|a|..];
    assert c[|a| - 1] == a[|a| - 1] && c[|a|] == b[0];
  }

  lemma LinkedJoin(a: seq<Node>, b: seq<Node>)
    requires |a| > 0 && |b| > 0
    requires Linked(a) && Linked(b) && a[|a| - 1].next == b[0] && b[0].prev == a[|a| - 1]
    ensures Linked(a + b)
  {
  }

  lemma DistinctParts(a: seq<Node>, b: seq<Node>)
    requires Distinct(a + b)
    ensures Distinct(a) && Distinct(b) && forall x :: x in a ==> x !in b
  {
    var c := a + b;
    assert a == c[..|a|] && b == c[|a|..];
  }

  lemma DistinctJoin(a: seq<Node>, b: seq<Node>)
    requires Distinct(a) && Distinct(b) && forall x :: x in a ==> x !in b
    ensures Distinct(a + b)
  {
    var c := a + b;
    forall i, j | 0 <= i < j < |c| ensures c[i] != c[j] {
      if i < |a| <= j { assert a[i] in a && b[j - |a|] in b; }
    }
  }

  /** __list_add of the intrusive list: puts a node between the ends of a circle. */
  method ListAdd(el: Node, prev: Node, next: Node, ghost c: seq<Node>)
    requires Cyclic(c) && Distinct(c) && el !in c && prev == c[|c| - 1] && next == c[0]
    modifies el`prev, el`next, prev`next, next`prev
    ensures Cyclic([el] + c)
  {
    prev.next := el;
    el.prev := prev;
    el.next := next;
    next.prev := el;
    assert Linked(c);
    LinkedJoin([el], c);
    ghost var d := [el] + c;
    assert d[|d| - 1] == prev && d[0] == el;
  }

  /** list_del of the intrusive list: closes the circle behind a node. */
  method ListDel(el: Node, ghost c: seq<Node>)
    requires Cyclic([el] + c) && Distinct([el] + c) && |c| > 0
    modifies el`prev, el`next, First(c)`prev, Last(c)`next
    ensures Cyclic(c) && el.prev == null && el.next == null
  {
    DistinctParts([el], c);
    LinkedParts([el], c);
    assert ([el] + c)[|c|] == c[|c| - 1];
    var prev, next := el.prev, el.next;
    prev.next := next;
    next.prev := prev;
    el.prev, el.next := null, null;
    assert Linked(c);
  }

  // ----- the list -----

  function Inserted<T>(s: seq<T>, at: nat, x: T): seq<T>
    requires at <= |s|
  {
    s[..at] + [x] + s[at..]
  }

  function Rotated<T>(s: seq<T>, k: nat): seq<T>
    requires k <= |s|
  {
    s[k..] + s[..k]
  }

  function Removed<T>(s: seq<T>, at: nat): seq<T>
    requires at < |s|
  {
    s[..at] + s[at + 1..]
  }

  lemma InsertedBehind<T>(h: T, s: seq<T>, at: nat, x: T)
    requires at <= |s|
    ensures [h] + Inserted(s, at, x) == Inserted([h] + s, at + 1, x)
  {
  }

  /** A circle entered in front of position `at`. */
  lemma Opened(c: seq<Node>, at: nat)
    requires Cyclic(c) && Distinct(c) && 0 < at <= |c|
    ensures var r := Rotated(c, at);
            Cyclic(r) && Distinct(r) && r[|r| - 1] == c[at - 1] && r[0] == (if at == |c| then c[0] else c[at])
            && forall x :: x in r ==> x in c
  {
    assert c == c[..at] + c[at..];
    RotateCyclic(c[..at], c[at..]);
  }

  lemma ReClosed(c: seq<Node>, at: nat, x: Node)
    requires Distinct(c) && x !in c && 0 < at <= |c| && Cyclic([x] + Rotated(c, at))
    ensures Cyclic(Inserted(c, at, x)) && Distinct(Inserted(c, at, x))
  {
    var a, b := c[..at], c[at..];
    assert c == a + b && [x] + (b + a) == ([x] + b) + a;
    DistinctParts(a, b);
    DistinctJoin([x] + b, a);
    RotateCyclic([x] + b, a);
    assert Inserted(c, at, x) == a + ([x] + b);
  }

  lemma RotatedCircle(c: seq<Node>, at: nat)
    requires Cyclic(c) && Distinct(c) && at < |c|
    ensures var r := Rotated(c, at);
            Cyclic(r) && Distinct(r) && r[0] == c[at] && r[|r| - 1] == c[at].prev && forall x :: x in r ==> x in c
  {
    assert c == c[..at] + c[at..];
    RotateCyclic(c[..at], c[at..]);
  }

  lemma HeaderJoins(x: Node, c: seq<Node>)
    requires x !in c && Distinct(c)
    ensures Distinct([x] + c)
  {
    DistinctJoin([x], c);
  }

  lemma HeaderApart(x: Node, c: seq<Node>)
    requires Distinct([x] + c)
    ensures x !in c && Distinct(c)
  {
    DistinctParts([x], c);
    assert x in [x];
  }

  /** The values of some nodes. */
  ghost predicate Carry(nodes: seq<Node>, values: seq<JSValue>)
    reads nodes
  {
    |nodes| == |values| && forall i :: 0 <= i < |nodes| ==> nodes[i].value == values[i]
  }

  lemma CarryInserted(nodes: seq<Node>, values: seq<JSValue>, at: nat, node: Node)
    requires Carry(nodes, values) && at <= |nodes|
    ensures Carry(Inserted(nodes, at, node), Inserted(values, at, node.value))
  {
  }

  lemma CarryRemoved(nodes: seq<Node>, values: seq<JSValue>, at: nat)
    requires Carry(nodes, values) && at < |nodes|
    ensures Carry(Removed(nodes, at), Removed(values, at))
  {
  }

  lemma CarryRotated(nodes: seq<Node>, values: seq<JSValue>, at: nat)
    requires Carry(nodes, values) && at <= |nodes|
    ensures Carry(Rotated(nodes, at), Rotated(values, at))
  {
  }

  class List {
    const header: Node
    var size: nat
    /** The linked nodes in order, without the header, and their values. */
    ghost var nodes: seq<Node>
    ghost var contents: seq<JSValue>

    ghost function Ring(): seq<Node>
      reads this
    {
      [header] + nodes
    }

    ghost predicate RingOk()
      reads this, header, nodes
    {
      Cyclic(Ring()) && Distinct(Ring())
    }

    ghost predicate Valid()
      reads this, header, nodes
      ensures Valid() ==> size == |nodes| == |contents|
    {
      && RingOk()
      && size == |nodes| == |contents| && Values()
    }

    ghost predicate Values()
      reads this, header, nodes
    {
      && header.value == Uninitialized
      && Carry(nodes, contents) && Uninitialized !in contents
    }

    /** list_new. */
    constructor ()
      ensures Valid() && contents == [] && fresh(header)
    {
      header := new Node(Uninitialized);
      size := 0;
      nodes, contents := [], [];
      new;
      header.prev, header.next := header, header;
    }

    /** The linking done by list_add and list_add_tail. */
    method Link(node: Node, left: Node, right: Node, ghost at: nat)
      requires RingOk() && node !in Ring() && at <= |nodes|
      requires left == Ring()[at] && right == (if at == |nodes| then header else nodes[at])
      modifies this`nodes, node`prev, node`next, left`next, right`prev
      ensures RingOk() && nodes == Inserted(old(nodes), at, node)
    {
      hide Linked, Distinct, Cyclic;
      ghost var ring := Ring();
      InsertedBehind(header, nodes, at, node);
      hide Rotated, Inserted;
      Opened(ring, at + 1);
      ListAdd(node, left, right, Rotated(ring, at + 1));
      ReClosed(ring, at + 1, node);
      nodes := Inserted(nodes, at, node);
    }

    /** The bookkeeping that goes with a new node. */
    method Count(node: Node, ghost before: seq<Node>, ghost at: nat)
      requires RingOk() && at <= |before| && nodes == Inserted(before, at, node) && node.value != Uninitialized
      requires size == |before| == |contents| && Carry(before, contents)
      requires header.value == Uninitialized && Uninitialized !in contents
      modifies this`size, this`contents
      ensures Valid() && contents == Inserted(old(contents), at, node.value)
    {
      hide Linked, Distinct, Cyclic, Carry;
      CarryInserted(before, contents, at, node);
      size := size + 1;
      contents := Inserted(contents, at, node.value);
    }

    /** list_insert: after `prev`, or at the head. */
    method Insert(value: JSValue, prev: Node?, ghost at: nat) returns (node: Node)
      requires Valid() && value != Uninitialized
      requires at <= |nodes| && (if prev == null then at == 0 else prev == Ring()[at])
      modifies this, header, nodes
      ensures Valid() && fresh(node)
      ensures nodes == Inserted(old(nodes), at, node) && contents == Inserted(old(contents), at, value)
      ensures Grown()
    {
      hide Linked, Distinct, Cyclic;
      node := new Node(value);
      var left := if prev == null then header else prev;
      Neighbours(at);
      Link(node, left, left.next, at);
      Count(node, old(nodes), at);
    }

    /** The links around a gap, as Ring() says. */
    lemma Neighbours(at: nat)
      requires RingOk() && at <= |nodes|
      ensures var right := if at == |nodes| then header else nodes[at];
              Ring()[at].next == right && right.prev == Ring()[at]
    {
      assert at < |nodes| ==> Ring()[at + 1] == nodes[at];
    }

    /** list_insert_before: before `next`, or at the tail. */
    method InsertBefore(value: JSValue, next: Node?, ghost at: nat) returns (node: Node)
      requires Valid() && value != Uninitialized
      requires at <= |nodes| &&
          (if next == null || next == header then at == |nodes| else at < |nodes| && next == nodes[at])
      modifies this, header, nodes
      ensures Valid() && fresh(node)
      ensures nodes == Inserted(old(nodes), at, node) && contents == Inserted(old(contents), at, value)
      ensures Grown()
    {
      hide Linked, Distinct, Cyclic;
      node := new Node(value);
      var right := if next == null then header else next;
      Neighbours(at);
      Link(node, right.prev, right, at);
      Count(node, old(nodes), at);
    }

    /** list_erase; the reference count of the node is not part of this model. */
    method Erase(node: Node, ghost at: nat)
      requires Valid() && at < |nodes| && node == nodes[at]
      modifies this, header, nodes
      ensures Valid()
      ensures nodes == Removed(old(nodes), at) && contents == Removed(old(contents), at)
      ensures Grown()
      ensures node.prev == null && node.next == null && node.value == old(node.value)
    {
      hide Linked, Distinct, Cyclic;
      Unlink(node, at);
      size := size - 1;
      assert Carry(old(nodes), contents);
      hide Carry;
      CarryRemoved(old(nodes), contents, at);
      contents := Removed(contents, at);
    }

    method Unlink(node: Node, ghost at: nat)
      requires RingOk() && at < |nodes| && node == nodes[at]
      modifies this`nodes, header`prev, header`next, (set n | n in nodes)`prev, (set n | n in nodes)`next
      ensures RingOk() && nodes == Removed(old(nodes), at)
      ensures node.prev == null && node.next == null
    {
      hide Linked, Distinct, Cyclic;
      ghost var ring := Ring();
      OpenedBehind(ring, at + 1);
      ListDel(node, ring[at + 2..] + ring[..at + 1]);
      ReClosedBehind(ring, at + 1);
      nodes := Removed(nodes, at);
      assert Ring() == Removed(ring, at + 1);
    }

    lemma NotTheHeader(i: nat)
      requires RingOk() && i < |nodes|
      ensures nodes[i] != header
    {
      assert Ring()[i + 1] == nodes[i];
    }

    /** Every node of the list was in it before or is new. */
    twostate predicate Grown()
      reads this
    {
      forall i :: 0 <= i < |nodes| ==> nodes[i] in old(nodes) || fresh(nodes[i])
    }

    /** LIST_ROTATE: only the header moves; a header as the argument is refused with a TypeError. */
    method Rotate(node: Node, ghost at: nat) returns (ok: bool)
      requires Valid() && at <= |nodes| && node == (if at == |nodes| then header else nodes[at])
      modifies this, header, nodes
      ensures Valid() && ok == (at < |old(nodes)|)
      ensures nodes == if ok then Rotated(old(nodes), at) else old(nodes)
      ensures contents == if ok then Rotated(old(contents), at) else old(contents)
    {
      if node.value == Uninitialized {
        return false;
      }
      hide Linked, Distinct, Cyclic;
      MoveHeader(node, at);
      assert Carry(old(nodes), contents);
      hide Carry;
      CarryRotated(old(nodes), contents, at);
      contents := Rotated(contents, at);
      ok := true;
    }

    method MoveHeader(node: Node, ghost at: nat)
      requires RingOk() && at < |nodes| && node == nodes[at]
      modifies this`nodes, header`prev, header`next, (set n | n in nodes)`prev, (set n | n in nodes)`next
      ensures RingOk() && nodes == Rotated(old(nodes), at)
    {
      hide Linked, Distinct, Cyclic;
      ghost var c := nodes;
      HeaderApart(header, c);
      ListDel(header, c);
      RotatedCircle(c, at);
      nodes := Rotated(c, at);
      ListAdd(header, node.prev, node, nodes);
      HeaderJoins(header, nodes);
    }
  }

  /** The circle without position `at`, entered behind it. */
  lemma OpenedBehind(c: seq<Node>, at: nat)
    requires Cyclic(c) && Distinct(c) && 0 < at < |c|
    ensures var r := c[at + 1..] + c[..at]; Cyclic([c[at]] + r) && Distinct([c[at]] + r)
  {
    Opened(c, at);
    assert c[at..] + c[..at] == [c[at]] + (c[at + 1..] + c[..at]);
  }

  lemma ReClosedBehind(c: seq<Node>, at: nat)
    requires Distinct(c) && 0 < at < |c| && Cyclic(c[at + 1..] + c[..at])
    ensures Cyclic(Removed(c, at)) && Distinct(Removed(c, at))
  {
    var a, b := c[..at], c[at + 1..];
    assert c == a + ([c[at]] + b);
    DistinctParts(a, [c[at]] + b);
    DistinctParts([c[at]], b);
    DistinctJoin(b, a);
    RotateCyclic(b, a);
  }
}
