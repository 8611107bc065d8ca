/**
 The kernel's doubly linked list (src/libc/data_struct/list.cpp): nodes know their
 neighbours and the list they are in.
 */
module LinkedList {
  class Node<T> {
    var next: Node?<T>
    var prev: Node?<T>
    var owner: List?<T>
    var value: T

    constructor (item: T)
      ensures value == item && next == null && prev == null && owner == null
    {
      next, prev, owner, value := null, null, null, item;
    }
  }

  /** Member `i`, or null outside the list. */
  ghost function At<T>(nodes: seq<Node<T>>, i: int): Node?<T> {
    if 0 <= i < |nodes| then nodes[i] else null
  }

  /** Member `i` knows its neighbours. */
  ghost predicate LinkOk<T>(nodes: seq<Node<T>>, i: int)
    requires 0 <= i < |nodes|
    reads {nodes[i]}`next, {nodes[i]}`prev
  {
    nodes[i].prev == At(nodes, i - 1) && nodes[i].next == At(nodes, i + 1)
  }

  /** Each member is in the list once. */
  ghost predicate Distinct<T>(nodes: seq<Node<T>>) {
    forall i, j | 0 <= i < j < |nodes| :: nodes[i] != nodes[j]
  }

  lemma SameMember<T>(nodes: seq<Node<T>>, i: int, j: int)
    requires Distinct(nodes)
    ensures At(nodes, i) == At(nodes, j) != null ==> i == j
  {
  }

  lemma InsertedOnce<T>(nodes: seq<Node<T>>, k: nat, node: Node<T>)
    requires Distinct(nodes) && node !in nodes && k <= |nodes|
    ensures Distinct(nodes[..k] + [node] + nodes[k..])
    ensures forall n | n in nodes[..k] + [node] + nodes[k..] :: n == node || n in nodes
  {
  }

  lemma DeletedOnce<T>(nodes: seq<Node<T>>, k: nat)
    requires Distinct(nodes) && k < |nodes|
    ensures Distinct(nodes[..k] + nodes[k + 1..]) && nodes[k] !in nodes[..k] + nodes[k + 1..]
    ensures forall n | n in nodes[..k] + nodes[k + 1..] :: n in nodes
  {
  }

  lemma MergedOnce<T>(s: seq<Node<T>>, t: seq<Node<T>>)
    requires Distinct(s) && Distinct(t) && forall n | n in t :: n !in s
    ensures Distinct(s + t)
  {
    forall i, j | 0 <= i < j < |s + t| ensures (s + t)[i] != (s + t)[j] {
      if i < |s| <= j {
        assert t[j - |s|] in t && s[i] in s;
      }
    }
  }

  lemma AtInserted<T>(s: seq<Node<T>>, k: nat, node: Node<T>, i: int)
    requires k <= |s|
    ensures At(s[..k] + [node] + s[k..], i) == if i == k then node else At(s, if i < k then i else i - 1)
  {
  }

  lemma AtDeleted<T>(s: seq<Node<T>>, k: nat, i: int)
    requires k < |s|
    ensures At(s[..k] + s[k + 1..], i) == At(s, if i < k then i else i + 1)
  {
  }

  lemma AtMerged<T>(s: seq<Node<T>>, t: seq<Node<T>>, i: int)
    ensures At(s + t, i) == if i < |s| then At(s, i) else At(t, i - |s|)
  {
  }

  lemma FirstGone<T>(s: seq<T>, first: T)
    requires s != [] && s[0] == first
    ensures s == [first] + (s[..0] + s[1..])
  {
  }

  lemma LastGone<T>(s: seq<T>, last: T)
    requires s != [] && s[|s| - 1] == last
    ensures s == (s[..|s| - 1] + s[|s|..]) + [last]
  {
  }

  ghost predicate AllLinked<T>(nodes: seq<Node<T>>)
    reads nodes`next, nodes`prev
  {
    forall i | 0 <= i < |nodes| :: LinkOk(nodes, i)
  }

  lemma InsertedMembers<T>(s: seq<Node<T>>, k: nat, node: Node<T>)
    requires k <= |s|
    ensures forall n :: n in s[..k] + [node] + s[k..] <==> n == node || n in s
  {
    forall n | n in s ensures n in s[..k] + [node] + s[k..] {
      assert s == s[..k] + s[k..];
    }
  }

  lemma DeletedMembers<T>(s: seq<Node<T>>, k: nat)
    requires k < |s|
    ensures forall n | n in s && n != s[k] :: n in s[..k] + s[k + 1..]
  {
    assert s == s[..k] + [s[k]] + s[k + 1..];
  }

  /** Every member names `l` as its owner. */
  ghost predicate AllOwned<T>(nodes: seq<Node<T>>, l: List<T>)
    reads nodes`owner
  {
    forall n | n in nodes :: n.owner == l
  }

  /** `nx` and `pv` are what the neighbours in `s` should be. */
  ghost predicate Neighbours<T>(s: seq<Node<T>>, nx: seq<Node?<T>>, pv: seq<Node?<T>>) {
    |nx| == |pv| == |s| && forall i | 0 <= i < |s| :: nx[i] == At(s, i + 1) && pv[i] == At(s, i - 1)
  }

  /** The links of a list as they are. */
  lemma LinksOf<T>(s: seq<Node<T>>) returns (nx: seq<Node?<T>>, pv: seq<Node?<T>>)
    requires AllLinked(s)
    ensures Neighbours(s, nx, pv) && |nx| == |pv| == |s|
    ensures forall i | 0 <= i < |s| :: s[i].next == nx[i] && s[i].prev == pv[i]
  {
    nx := seq(|s|, i requires 0 <= i < |s| => At(s, i + 1));
    pv := seq(|s|, i requires 0 <= i < |s| => At(s, i - 1));
    forall i | 0 <= i < |s| ensures s[i].next == nx[i] && s[i].prev == pv[i] {
      assert LinkOk(s, i);
    }
  }

  lemma InsertedOwned<T>(s: seq<Node<T>>, k: nat, node: Node<T>, l: List<T>)
    requires k <= |s| && AllOwned(s, l) && node.owner == l
    ensures AllOwned(s[..k] + [node] + s[k..], l)
  {
  }

  lemma DeletedOwned<T>(s: seq<Node<T>>, k: nat, l: List<T>)
    requires Distinct(s) && k < |s| && forall n | n in s && n != s[k] :: n.owner == l
    ensures AllOwned(s[..k] + s[k + 1..], l)
  {
    DeletedOnce(s, k);
  }

  lemma MergedOwned<T>(s: seq<Node<T>>, t: seq<Node<T>>, l: List<T>)
    requires AllOwned(s, l) && AllOwned(t, l)
    ensures AllOwned(s + t, l)
  {
  }

  lemma NeighbourOf<T>(s: seq<Node<T>>, nx: seq<Node?<T>>, pv: seq<Node?<T>>, i: int)
    requires Neighbours(s, nx, pv) && 0 <= i < |s|
    ensures |nx| == |pv| == |s| && nx[i] == At(s, i + 1) && pv[i] == At(s, i - 1)
  {
  }

  /** The links with a node put in at position `k`. */
  lemma LinksInserted<T>(s: seq<Node<T>>, k: nat, node: Node<T>, nx: seq<Node?<T>>, pv: seq<Node?<T>>)
    requires Neighbours(s, nx, pv) && Distinct(s) && k <= |s| && node.prev == At(s, k - 1) && node.next == At(s, k)
    requires forall i | 0 <= i < |s| ::
      s[i].next == (if s[i] == At(s, k - 1) then node else nx[i]) &&
        s[i].prev == (if s[i] == At(s, k) then node else pv[i])
    ensures AllLinked(s[..k] + [node] + s[k..])
  {
    var d := s[..k] + [node] + s[k..];
    forall i | 0 <= i < |d| ensures LinkOk(d, i) {
      AtInserted(s, k, node, i - 1);
      AtInserted(s, k, node, i);
      AtInserted(s, k, node, i + 1);
      var j := if i < k then i else i - 1;
      SameMember(s, j, k - 1);
      SameMember(s, j, k);
    }
  }

  /** The links with the member at position `k` taken out. */
  lemma LinksDeleted<T>(s: seq<Node<T>>, k: nat, nx: seq<Node?<T>>, pv: seq<Node?<T>>)
    requires Neighbours(s, nx, pv) && Distinct(s) && k < |s|
    requires forall i | 0 <= i < |s| && s[i] != s[k] ::
      s[i].next == (if s[i] == pv[k] then nx[k] else nx[i]) && s[i].prev == (if s[i] == nx[k] then pv[k] else pv[i])
    ensures AllLinked(s[..k] + s[k + 1..])
  {
    var d := s[..k] + s[k + 1..];
    forall i | 0 <= i < |d| ensures LinkOk(d, i) {
      AtDeleted(s, k, i - 1);
      AtDeleted(s, k, i);
      AtDeleted(s, k, i + 1);
      var j := if i < k then i else i + 1;
      SameMember(s, j, k - 1);
      SameMember(s, j, k);
      SameMember(s, j, k + 1);
    }
  }

  /** The links of two lists joined. */
  lemma LinksMerged<T>(s: seq<Node<T>>, t: seq<Node<T>>, nx: seq<Node?<T>>, pv: seq<Node?<T>>, nx': seq<Node?<T>>,
      pv': seq<Node?<T>>)
    requires Neighbours(s, nx, pv) && Neighbours(t, nx', pv') && Distinct(s) && Distinct(t)
    requires |nx| == |pv| == |s| && |nx'| == |pv'| == |t|
    requires forall i | 0 <= i < |s| ::
      s[i].prev == pv[i] && s[i].next == if s[i] == At(s, |s| - 1) then At(t, 0) else nx[i]
    requires forall i | 0 <= i < |t| ::
      t[i].next == nx'[i] && t[i].prev == if t[i] == At(t, 0) then At(s, |s| - 1) else pv'[i]
    ensures AllLinked(s + t)
  {
    hide Distinct, Neighbours;
    var d := s + t;
    forall i | 0 <= i < |d| ensures LinkOk(d, i) {
      AtMerged(s, t, i - 1);
      AtMerged(s, t, i);
      AtMerged(s, t, i + 1);
      if i < |s| {
        NeighbourOf(s, nx, pv, i);
        SameMember(s, i, |s| - 1);
        assert d[i] == s[i];
      } else {
        NeighbourOf(t, nx', pv', i - |s|);
        SameMember(t, i - |s|, 0);
        assert d[i] == t[i - |s|];
      }
    }
  }

  class List<T> {
    var head: Node?<T>
    var tail: Node?<T>
    var length: nat
    /**
     The members, from head to tail.  Every operation keeps it so that no other node names this
     list as its owner.
     */
    ghost var nodes: seq<Node<T>>

    /**
     Neighbours point to each other, the ends nowhere; every member names this list as its owner,
     and is in it once.
     */
    ghost predicate Valid()
      reads this, nodes
    {
      Shape() && AllOwned(nodes, this)
    }

    /** The list as its callers see it. */
    ghost function Values(): (r: seq<T>)
      reads this, nodes
      ensures |r| == |nodes| && forall i | 0 <= i < |nodes| :: r[i] == nodes[i].value
    {
      seq(|nodes|, i requires 0 <= i < |nodes| reads this, nodes => nodes[i].value)
    }

    ghost predicate Shape()
      reads this, nodes
    {
      length == |nodes| && head == At(nodes, 0) && tail == At(nodes, |nodes| - 1) && AllLinked(nodes) && Distinct(nodes)
    }

    /** `list_create` */
    constructor ()
      ensures Valid() && nodes == []
    {
      head, tail, length, nodes := null, null, 0, [];
    }

    /** `list_append` */
    method Append(node: Node<T>)
      requires Valid() && node !in nodes
      modifies this, nodes, node
      ensures Valid() && nodes == old(nodes) + [node]
      ensures forall n | n in nodes :: n.value == old(n.value)
      ensures Values() == old(Values()) + [old(node.value)]
      ensures old(forall n: Node<T> :: n.owner == this ==> n in nodes) ==>
        forall n: Node<T> | old(allocated(n)) :: n.owner == this ==> n in nodes
    {
      hide Distinct, AllLinked, AllOwned;
      InsertedMembers(nodes, |nodes|, node);
      assert nodes[..|nodes|] + [node] + nodes[|nodes|..] == nodes + [node];
      node.next := null;
      node.owner := this;
      PutLast(node);
    }

    /** The branches of `list_append`. */
    method PutLast(node: Node<T>)
      requires Valid() && node !in nodes && node.owner == this && node.next == null
      modifies this, nodes`next, nodes`prev, node`next, node`prev
      ensures Valid() && nodes == old(nodes) + [node]
    {
      hide Distinct, AllLinked, Neighbours, AllOwned;
      ghost var s := nodes;
      ghost var nx, pv := LinksOf(s);
      InsertedOnce(s, |s|, node);
      if length == 0 {
        head := node;
        tail := node;
        node.prev := null;
        node.next := null;
        length := length + 1;
      } else {
        NeighbourOf(s, nx, pv, |s| - 1);
        tail.next := node;
        node.prev := tail;
        tail := node;
        length := length + 1;
      }
      LinksInserted(s, |s|, node, nx, pv);
      InsertedOwned(s, |s|, node, this);
      nodes := s + [node];
      assert nodes == s[..|s|] + [node] + s[|s|..];
    }

    /** `list_insert` */
    method Insert(item: T) returns (node: Node<T>)
      requires Valid()
      modifies this, nodes
      ensures Valid() && fresh(node) && nodes == old(nodes) + [node] && node.value == item
      ensures forall n | n in old(nodes) :: n.value == old(n.value)
      ensures Values() == old(Values()) + [item]
      ensures old(forall n: Node<T> :: n.owner == this ==> n in nodes) ==>
        forall n: Node<T> | old(allocated(n)) :: n.owner == this ==> n in nodes
    {
      hide Distinct, AllLinked, AllOwned;
      node := new Node(item);
      Append(node);
    }

    /** The branch of `list_append_after` that puts a node in front of all members. */
    method PutFirst(node: Node<T>)
      requires Valid() && node !in nodes && nodes != [] && node.owner == this
      modifies this, nodes`next, nodes`prev, node`next, node`prev
      ensures Valid() && nodes == [node] + old(nodes)
    {
      hide Distinct, AllLinked, Neighbours, AllOwned;
      ghost var s := nodes;
      ghost var nx, pv := LinksOf(s);
      InsertedOnce(s, 0, node);
      node.next := head;
      node.prev := null;
      head.prev := node;
      head := node;
      length := length + 1;
      LinksInserted(s, 0, node, nx, pv);
      InsertedOwned(s, 0, node, this);
      nodes := [node] + s;
      assert nodes == s[..0] + [node] + s[0..];
    }

    /** The branches of `list_append_after` that put a node behind a member. */
    method PutBehind(before: Node<T>, node: Node<T>, ghost k: nat)
      requires Valid() && node !in nodes && node.owner == this && node.next == null && 0 < k <= |nodes| &&
        nodes[k - 1] == before
      modifies this, nodes`next, nodes`prev, node`next, node`prev
      ensures Valid() && nodes == old(nodes)[..k] + [node] + old(nodes)[k..]
    {
      hide Distinct, AllLinked, Neighbours, AllOwned;
      ghost var s := nodes;
      ghost var nx, pv := LinksOf(s);
      InsertedOnce(s, k, node);
      NeighbourOf(s, nx, pv, k - 1);
      SameMember(s, k - 1, |s| - 1);
      if before == tail {
        tail := node;
      } else {
        before.next.prev := node;
        node.next := before.next;
      }
      node.prev := before;
      before.next := node;
      length := length + 1;
      LinksInserted(s, k, node, nx, pv);
      InsertedOwned(s, k, node, this);
      nodes := s[..k] + [node] + s[k..];
    }

    /** `list_append_after`: behind a member, or at the front if there is none. */
    method AppendAfter(before: Node?<T>, node: Node<T>, ghost k: nat)
      requires Valid() && node !in nodes && node.next == null && node.prev == null
      requires if before == null then k == 0 else 0 < k <= |nodes| && nodes[k - 1] == before
      modifies this, nodes, node
      ensures Valid() && nodes == old(nodes)[..k] + [node] + old(nodes)[k..]
      ensures forall n | n in nodes :: n.value == old(n.value)
      ensures Values() == old(Values()[..k]) + [old(node.value)] + old(Values()[k..])
      ensures old(forall n: Node<T> :: n.owner == this ==> n in nodes) ==>
        forall n: Node<T> | old(allocated(n)) :: n.owner == this ==> n in nodes
    {
      hide Distinct, AllLinked, AllOwned;
      InsertedMembers(nodes, k, node);
      node.owner := this;
      if length == 0 {
        Append(node);
        return;
      }
      if before == null {
        PutFirst(node);
        return;
      }
      PutBehind(before, node, k);
    }

    /** The branches of `list_append_before` that put a node in front of a member. */
    method PutInFront(after: Node<T>, node: Node<T>, ghost k: nat)
      requires Valid() && node !in nodes && node.owner == this && node.prev == null && k < |nodes| && nodes[k] == after
      modifies this, nodes`next, nodes`prev, node`next, node`prev
      ensures Valid() && nodes == old(nodes)[..k] + [node] + old(nodes)[k..]
    {
      hide Distinct, AllLinked, Neighbours, AllOwned;
      ghost var s := nodes;
      ghost var nx, pv := LinksOf(s);
      InsertedOnce(s, k, node);
      NeighbourOf(s, nx, pv, k);
      SameMember(s, k, 0);
      if after == head {
        head := node;
      } else {
        after.prev.next := node;
        node.prev := after.prev;
      }
      node.next := after;
      after.prev := node;
      length := length + 1;
      LinksInserted(s, k, node, nx, pv);
      InsertedOwned(s, k, node, this);
      nodes := s[..k] + [node] + s[k..];
    }

    /** `list_append_before`: in front of a member, or at the back if there is none. */
    method AppendBefore(after: Node?<T>, node: Node<T>, ghost k: nat)
      requires Valid() && node !in nodes && node.next == null && node.prev == null
      requires if after == null then k == |nodes| else k < |nodes| && nodes[k] == after
      modifies this, nodes, node
      ensures Valid() && nodes == old(nodes)[..k] + [node] + old(nodes)[k..]
      ensures forall n | n in nodes :: n.value == old(n.value)
      ensures Values() == old(Values()[..k]) + [old(node.value)] + old(Values()[k..])
      ensures old(forall n: Node<T> :: n.owner == this ==> n in nodes) ==>
        forall n: Node<T> | old(allocated(n)) :: n.owner == this ==> n in nodes
    {
      hide Distinct, AllLinked, AllOwned;
      InsertedMembers(nodes, k, node);
      node.owner := this;
      if length == 0 || after == null {
        Append(node);
        return;
      }
      PutInFront(after, node, k);
    }

    /** The part of `list_delete` that leads the links around the node. */
    method Bypass(node: Node<T>, ghost k: nat, ghost nx: seq<Node?<T>>, ghost pv: seq<Node?<T>>)
      requires Shape() && k < |nodes| && nodes[k] == node && Neighbours(nodes, nx, pv)
      requires forall i | 0 <= i < |nodes| :: nodes[i].next == nx[i] && nodes[i].prev == pv[i]
      modifies `head, `tail, nodes`next, nodes`prev
      ensures head == (if k == 0 then At(nodes, 1) else old(head))
      ensures tail == (if k == |nodes| - 1 then At(nodes, |nodes| - 2) else old(tail))
      ensures forall i | 0 <= i < |nodes| ::
        && nodes[i].next == (if nodes[i] == pv[k] then nx[k] else nx[i])
        && nodes[i].prev == (if nodes[i] == nx[k] then pv[k] else pv[i])
    {
      hide Distinct, AllLinked;
      SameMember(nodes, k, 0);
      SameMember(nodes, k, |nodes| - 1);
      if node == head {
        head := node.next;
      }
      if node == tail {
        tail := node.prev;
      }
      if node.prev != null {
        node.prev.next := node.next;
      }
      if node.next != null {
        node.next.prev := node.prev;
      }
    }

    /** The stores of `list_delete`: the node forgets its neighbours, too. */
    method Unhook(node: Node<T>, ghost k: nat, ghost nx: seq<Node?<T>>, ghost pv: seq<Node?<T>>)
      requires Shape() && k < |nodes| && nodes[k] == node && Neighbours(nodes, nx, pv)
      requires forall i | 0 <= i < |nodes| :: nodes[i].next == nx[i] && nodes[i].prev == pv[i]
      modifies `head, `tail, `length, nodes`next, nodes`prev, node`owner
      ensures head == (if k == 0 then At(nodes, 1) else old(head)) && length == old(length) - 1
      ensures tail == (if k == |nodes| - 1 then At(nodes, |nodes| - 2) else old(tail))
      ensures forall i | 0 <= i < |nodes| && nodes[i] != node ::
        && nodes[i].next == (if nodes[i] == pv[k] then nx[k] else nx[i])
        && nodes[i].prev == (if nodes[i] == nx[k] then pv[k] else pv[i])
      ensures node.owner == null && node.next == null && node.prev == null
    {
      hide Distinct, AllLinked, Neighbours, At;
      Bypass(node, k, nx, pv);
      node.prev := null;
      node.next := null;
      node.owner := null;
      length := length - 1;
    }

    /** What the stores of `list_delete` amount to. */
    method Cut(node: Node<T>, ghost k: nat)
      requires Valid() && k < |nodes| && nodes[k] == node
      modifies this, nodes`next, nodes`prev, node`owner
      ensures Valid() && nodes == old(nodes)[..k] + old(nodes)[k + 1..]
      ensures node.owner == null && node.next == null && node.prev == null
    {
      hide Distinct, AllLinked, Neighbours;
      ghost var s := nodes;
      ghost var nx, pv := LinksOf(s);
      DeletedOnce(s, k);
      Unhook(node, k, nx, pv);
      DeletedOwned(s, k, this);
      hide AllOwned, At;
      LinksDeleted(s, k, nx, pv);
      AtDeleted(s, k, 0);
      AtDeleted(s, k, |s| - 2);
      nodes := s[..k] + s[k + 1..];
    }

    /** `list_delete` */
    method Delete(node: Node<T>, ghost k: nat)
      requires Valid() && k < |nodes| && nodes[k] == node
      modifies this, nodes
      ensures Valid() && nodes == old(nodes)[..k] + old(nodes)[k + 1..]
      ensures node.owner == null && node.next == null && node.prev == null
      ensures forall n | n in old(nodes) :: n.value == old(n.value)
      ensures Values() == old(Values()[..k] + Values()[k + 1..])
      ensures old(forall n: Node<T> :: n.owner == this ==> n in nodes) ==>
        forall n: Node<T> | old(allocated(n)) :: n.owner == this ==> n in nodes
    {
      hide Distinct, AllLinked, AllOwned;
      DeletedMembers(nodes, k);
      Cut(node, k);
    }

    /** `list_pop`: the last member. */
    method Pop() returns (out: Node?<T>)
      requires Valid()
      modifies this, nodes
      ensures Valid()
      ensures if old(nodes) == [] then out == null && nodes == [] else
        old(nodes) == nodes + [out] && old(Values()) == Values() + [out.value] && out.owner == null
      ensures old(forall n: Node<T> :: n.owner == this ==> n in nodes) ==>
        forall n: Node<T> | old(allocated(n)) :: n.owner == this ==> n in nodes
    {
      hide Distinct, AllLinked, AllOwned;
      if tail == null {
        return null;
      }
      out := tail;
      LastGone(nodes, out);
      LastGone(Values(), out.value);
      Delete(out, |nodes| - 1);
    }

    /** `list_dequeue`: the first member. */
    method Dequeue() returns (out: Node?<T>)
      requires Valid()
      modifies this, nodes
      ensures Valid()
      ensures if old(nodes) == [] then out == null && nodes == [] else
        old(nodes) == [out] + nodes && old(Values()) == [out.value] + Values() && out.owner == null
      ensures old(forall n: Node<T> :: n.owner == this ==> n in nodes) ==>
        forall n: Node<T> | old(allocated(n)) :: n.owner == this ==> n in nodes
    {
      hide Distinct, AllLinked, AllOwned;
      if head == null {
        return null;
      }
      out := head;
      FirstGone(nodes, out);
      FirstGone(Values(), out.value);
      Delete(out, 0);
    }

    /** The loop of `list_merge`: the members of `source` get their new owner. */
    method TakeOver(source: List<T>)
      requires source.Valid() && source != this
      modifies source.nodes`owner
      ensures source.Shape() && AllOwned(source.nodes, this)
    {
      ghost var s := source.nodes;
      var node := source.head;
      ghost var i := 0;
      while node != null
        invariant 0 <= i <= |s| && node == At(s, i)
        invariant forall k | 0 <= k < i :: s[k].owner == this
        decreases |s| - i
      {
        assert old(LinkOk(source.nodes, i));
        node.owner := this;
        node := node.next;
        i := i + 1;
      }
      forall k | 0 <= k < |s| ensures LinkOk(s, k) {
        assert old(LinkOk(source.nodes, k));
      }
    }

    /** The stores of `list_merge` to the ends of the two lists. */
    method Tie(source: List<T>, ghost nx: seq<Node?<T>>, ghost pv: seq<Node?<T>>, ghost nx': seq<Node?<T>>,
        ghost pv': seq<Node?<T>>)
      requires Shape() && source.Shape() && source != this && |nx| == |pv| == |nodes| &&
        |nx'| == |pv'| == |source.nodes|
      requires forall n | n in source.nodes :: n !in nodes
      requires forall i | 0 <= i < |nodes| :: nodes[i].next == nx[i] && nodes[i].prev == pv[i]
      requires forall i | 0 <= i < |source.nodes| :: source.nodes[i].next == nx'[i] && source.nodes[i].prev == pv'[i]
      modifies `head, `tail, nodes`next, source.nodes`prev
      ensures head == if nodes == [] then At(source.nodes, 0) else At(nodes, 0)
      ensures tail == if source.nodes == [] then At(nodes, |nodes| - 1) else At(source.nodes, |source.nodes| - 1)
      ensures forall i | 0 <= i < |nodes| ::
        nodes[i].prev == pv[i] && nodes[i].next == if nodes[i] == At(nodes, |nodes| - 1) then At(source.nodes, 0)
          else nx[i]
      ensures forall i | 0 <= i < |source.nodes| ::
        && source.nodes[i].next == nx'[i]
        && source.nodes[i].prev == if source.nodes[i] == At(source.nodes, 0) then At(nodes, |nodes| - 1) else pv'[i]
    {
      hide Distinct, AllLinked;
      if source.head != null {
        source.head.prev := tail;
      }
      if tail != null {
        tail.next := source.head;
      } else {
        head := source.head;
      }
      if source.tail != null {
        tail := source.tail;
      }
      forall i | 0 <= i < |source.nodes| ensures source.nodes[i] !in nodes {
        assert source.nodes[i] in source.nodes;
      }
    }

    /** The links of `list_merge`. */
    method Join(source: List<T>)
      requires Valid() && source.Shape() && AllOwned(source.nodes, this) && source != this
      requires forall n | n in source.nodes :: n !in nodes
      modifies this, nodes`next, nodes`prev, source.nodes`next, source.nodes`prev
      ensures Valid() && nodes == old(nodes) + source.nodes
    {
      hide Distinct, AllLinked, Neighbours, AllOwned;
      ghost var s, t := nodes, source.nodes;
      ghost var nx, pv := LinksOf(s);
      ghost var nx', pv' := LinksOf(t);
      MergedOnce(s, t);
      Tie(source, nx, pv, nx', pv');
      hide At;
      LinksMerged(s, t, nx, pv, nx', pv');
      MergedOwned(s, t, this);
      AtMerged(s, t, 0);
      AtMerged(s, t, |s| + |t| - 1);
      length := length + source.length;
      nodes := s + t;
    }

    /** `list_merge`: the members of `source` come behind those of this list, in their order. */
    method Merge(source: List<T>)
      requires Valid() && source.Valid() && source != this
      requires forall n | n in source.nodes :: n !in nodes
      modifies this, nodes, source.nodes
      ensures Valid() && nodes == old(nodes) + source.nodes && source.nodes == old(source.nodes)
      ensures forall n | n in nodes :: n.value == old(n.value)
      ensures Values() == old(Values() + source.Values())
      ensures old(forall n: Node<T> :: n.owner == this ==> n in nodes) ==>
        forall n: Node<T> | old(allocated(n)) :: n.owner == this ==> n in nodes
    {
      TakeOver(source);
      forall i | 0 <= i < |nodes| ensures LinkOk(nodes, i) {
        assert nodes[i] in nodes && nodes[i] !in source.nodes && old(LinkOk(nodes, i));
      }
      Join(source);
    }
  }
}
