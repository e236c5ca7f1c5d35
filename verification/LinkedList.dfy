/**
 * The doubly linked lists behind LRU and CLOCK. Every operation takes the head pointer and returns
 * the new one. The ghost sequence nodes says which nodes the list consists of; the ghost set repr
 * contains them and the nodes that were removed before.
 */
module LinkedList {
  import opened Sequences
  import opened Replacement

  class Node<T> {
    var data: T
    var next: Node?<T>
    var prev: Node?<T>

    constructor (x: T)
      ensures data == x && next == null && prev == null
    {
      data := x;
      prev := null;
      next := null;
    }
  }

  /** head is the first of the nodes, and next and prev link neighbours in both directions. */
  ghost predicate Linked<T>(head: Node?<T>, nodes: seq<Node<T>>, repr: set<Node<T>>)
    reads repr
  {
    && (forall i {:trigger nodes[i]} :: 0 <= i < |nodes| ==> nodes[i] in repr)
    && Distinct(nodes)
    && (nodes == [] ==> head == null)
    && (nodes != [] ==> head == nodes[0] && nodes[0].prev == null && nodes[|nodes| - 1].next == null)
    && (forall i {:trigger nodes[i].next} :: 0 <= i < |nodes| - 1 ==> nodes[i].next == nodes[i + 1])
    && (forall i {:trigger nodes[i].prev} :: 0 < i < |nodes| ==> nodes[i].prev == nodes[i - 1])
  }

  ghost function Contents<T>(nodes: seq<Node<T>>): (s: seq<T>)
    reads nodes
    ensures |s| == |nodes| && forall i :: 0 <= i < |nodes| ==> s[i] == nodes[i].data
  {
    seq(|nodes|, i requires 0 <= i < |nodes| reads nodes => nodes[i].data)
  }

  lemma HeadData<T>(head: Node?<T>, nodes: seq<Node<T>>, repr: set<Node<T>>)
    requires Linked(head, nodes, repr)
    ensures head == null <==> nodes == []
    ensures head != null ==> Contents(nodes)[0] == head.data
  {
  }

  method InsertTail<T>(head: Node?<T>, x: T, ghost nodes: seq<Node<T>>, ghost repr: set<Node<T>>)
    returns (h: Node?<T>, ghost nodes': seq<Node<T>>, ghost repr': set<Node<T>>)
    requires Linked(head, nodes, repr)
    modifies repr
    ensures Linked(h, nodes', repr') && Contents(nodes') == old(Contents(nodes)) + [x]
    ensures repr <= repr' && fresh(repr' - repr)
  {
    var newNode := new Node(x);
    nodes', repr' := nodes + [newNode], repr + {newNode};
    if head == null {
      return newNode, nodes', repr';
    }
    var temp := head;
    ghost var i := 0;
    while temp.next != null
      invariant 0 <= i < |nodes| && temp == nodes[i]
      decreases |nodes| - i
    {
      temp := temp.next;
      i := i + 1;
    }
    temp.next := newNode;
    newNode.prev := temp;
    h := head;
  }

  method InsertHead<T>(head: Node?<T>, x: T, ghost nodes: seq<Node<T>>, ghost repr: set<Node<T>>)
    returns (h: Node?<T>, ghost nodes': seq<Node<T>>, ghost repr': set<Node<T>>)
    requires Linked(head, nodes, repr)
    modifies repr
    ensures Linked(h, nodes', repr') && Contents(nodes') == [x] + old(Contents(nodes))
    ensures repr <= repr' && fresh(repr' - repr)
  {
    var newNode := new Node(x);
    nodes', repr' := [newNode] + nodes, repr + {newNode};
    if head == null {
      return newNode, nodes', repr';
    }
    head.prev := newNode;
    newNode.next := head;
    h := newNode;
  }

  method RemoveHead<T>(head: Node?<T>, ghost nodes: seq<Node<T>>, ghost repr: set<Node<T>>)
    returns (h: Node?<T>, ghost nodes': seq<Node<T>>)
    requires Linked(head, nodes, repr)
    modifies repr
    ensures Linked(h, nodes', repr) && nodes' == if nodes == [] then [] else nodes[1..]
    ensures Contents(nodes') == if nodes == [] then [] else old(Contents(nodes))[1..]
  {
    if head == null {
      return null, [];
    }
    nodes' := nodes[1..];
    h := head.next;
    if h != null {
      h.prev := null;
    }
  }

  /** On a list of one node the original follows a null pointer, hence the second requirement. */
  method RemoveTail<T>(head: Node?<T>, ghost nodes: seq<Node<T>>, ghost repr: set<Node<T>>)
    returns (h: Node?<T>, ghost nodes': seq<Node<T>>)
    requires Linked(head, nodes, repr)
    requires |nodes| != 1
    modifies repr
    ensures Linked(h, nodes', repr) && nodes' == if nodes == [] then [] else nodes[..|nodes| - 1]
    ensures Contents(nodes') == if nodes == [] then [] else old(Contents(nodes))[..|nodes| - 1]
  {
    if head == null {
      return null, [];
    }
    var ret := head;
    ghost var i := 0;
    while ret.next != null
      invariant 0 <= i < |nodes| && ret == nodes[i]
      decreases |nodes| - i
    {
      ret := ret.next;
      i := i + 1;
    }
    ret.prev.next := null;
    return head, nodes[..i];
  }

  /** Takes node i, which has neighbours on both sides, out of the list. */
  method Unlink<T>(head: Node?<T>, ret: Node<T>, ghost i: nat, ghost nodes: seq<Node<T>>, ghost repr: set<Node<T>>)
    returns (ghost nodes': seq<Node<T>>)
    requires Linked(head, nodes, repr)
    requires 0 < i < |nodes| - 1 && ret == nodes[i]
    modifies repr
    ensures Linked(head, nodes', repr) && nodes' == nodes[..i] + nodes[i + 1..]
    ensures Contents(nodes') == old(Contents(nodes))[..i] + old(Contents(nodes))[i + 1..]
  {
    hide Distinct;
    nodes' := nodes[..i] + nodes[i + 1..];
    DistinctCut(nodes, i);
    DistinctAt(nodes, i - 1);
    DistinctAt(nodes, i + 1);
    if ret.prev != null {
      ret.prev.next := ret.next;
    }
    if ret.next != null {
      ret.next.prev := ret.prev;
    }
  }

  /** The first node that holds x. */
  method Seek<T(==)>(head: Node?<T>, x: T, ghost nodes: seq<Node<T>>, ghost repr: set<Node<T>>)
    returns (ret: Node?<T>, ghost i: nat)
    requires Linked(head, nodes, repr)
    ensures ret == null ==> Remove(Contents(nodes), x) == Contents(nodes)
    ensures ret != null ==> i < |nodes| && nodes[i] == ret
    ensures ret != null ==> Remove(Contents(nodes), x) == Contents(nodes)[..i] + Contents(nodes)[i + 1..]
  {
    ghost var s := Contents(nodes);
    ret, i := head, 0;
    while ret != null && x != ret.data
      invariant 0 <= i <= |nodes| && ret == (if i < |nodes| then nodes[i] else null)
      invariant x !in s[..i]
      decreases |nodes| - i
    {
      ret := ret.next;
      i := i + 1;
    }
    if ret == null {
      Absent(s, x);
    } else {
      FirstIndex(s, x, i);
      RemoveAt(s, x);
    }
  }

  /** Deletes the first occurrence of x. */
  method RemoveData<T(==)>(head: Node?<T>, x: T, ghost nodes: seq<Node<T>>, ghost repr: set<Node<T>>)
    returns (h: Node?<T>, ghost nodes': seq<Node<T>>)
    requires Linked(head, nodes, repr)
    modifies repr
    ensures Linked(h, nodes', repr) && Contents(nodes') == Remove(old(Contents(nodes)), x)
  {
    ghost var s := Contents(nodes);
    var ret, i := Seek(head, x, nodes, repr);
    if ret == null {
      return head, nodes;
    }
    if ret == head {
      assert i == 0 && s[..0] + s[1..] == s[1..];
      h, nodes' := RemoveHead(head, nodes, repr);
    } else if ret.next == null {
      assert i == |s| - 1 && s[..i] + s[i + 1..] == s[..i];
      h, nodes' := RemoveTail(head, nodes, repr);
    } else {
      nodes' := Unlink(head, ret, i, nodes, repr);
      h := head;
    }
  }

  lemma {:induction false} Absent<T>(s: seq<T>, x: T)
    requires x !in s
    ensures Remove(s, x) == s
  {
    if s == [] {
    } else {
      Absent(s[1..], x);
    }
  }

  /** The position of the first node that holds x, or -1. */
  method Find<T(==)>(head: Node?<T>, x: T, ghost nodes: seq<Node<T>>, ghost repr: set<Node<T>>)
    returns (i: int)
    requires Linked(head, nodes, repr)
    ensures if x in Contents(nodes) then i == IndexOf(Contents(nodes), x) else i == -1
  {
    i := 0;
    var temp := head;
    ghost var s := Contents(nodes);
    while temp != null
      invariant 0 <= i <= |nodes| && temp == (if i < |nodes| then nodes[i] else null)
      invariant x !in s[..i]
      decreases |nodes| - i
    {
      if temp.data == x {
        FirstIndex(s, x, i);
        return i;
      }
      i := i + 1;
      temp := temp.next;
    }
    return -1;
  }

  lemma {:induction false} FirstIndex<T>(s: seq<T>, x: T, i: nat)
    requires i < |s| && s[i] == x && x !in s[..i]
    ensures IndexOf(s, x) == i
  {
    if i == 0 {
    } else {
      assert s[..i][0] == s[0] && s[1..][..i - 1] == s[..i][1..];
      FirstIndex(s[1..], x, i - 1);
    }
  }

  // ----- the list with reference bits

  /** Gives the reference bit of the first entry for x the value ref. */
  method UpdateRef(head: Node?<Entry<nat>>, x: nat, ref: bool, ghost nodes: seq<Node<Entry<nat>>>,
                   ghost repr: set<Node<Entry<nat>>>)
    returns (h: Node?<Entry<nat>>)
    requires Linked(head, nodes, repr)
    modifies repr
    ensures h == head && Linked(h, nodes, repr)
    ensures var s := old(Contents(nodes));
      Contents(nodes) == if x in Datas(s) then s[IndexOf(Datas(s), x) := Entry(x, ref)] else s
  {
    ghost var s := Contents(nodes);
    var temp := head;
    ghost var i := 0;
    while temp != null && temp.data.data != x
      invariant 0 <= i <= |nodes| && temp == (if i < |nodes| then nodes[i] else null)
      invariant x !in Datas(s)[..i]
      decreases |nodes| - i
    {
      temp := temp.next;
      i := i + 1;
    }
    if temp != null {
      FirstIndex(Datas(s), x, i);
      temp.data := Entry(x, ref);
    }
    return head;
  }

  lemma {:induction false} WithRefIs(s: seq<Entry<nat>>, x: nat)
    ensures WithRef(s, x) == if x in Datas(s) then s[IndexOf(Datas(s), x) := Entry(x, true)] else s
  {
    if s == [] {
    } else {
      WithRefIs(s[1..], x);
      assert Datas(s[1..]) == Datas(s)[1..];
      assert Datas(s) == [s[0].data] + Datas(s)[1..];
    }
  }
}
