/** The doubly linked list under the scheduler, and the sequence it stands for. */
module LinkedList {

  class Node<T> {
    var data: T
    var next: Node?<T>
    var prev: Node?<T>

    constructor (data: T)
      ensures this.data == data && next == null && prev == null
    {
      this.data := data;
      next := null;
      prev := null;
    }
  }

  class List<T(==)> {
    var first: Node?<T>
    var last: Node?<T>
    var count: nat
    /** The nodes in order. */
    ghost var nodes: seq<Node<T>>

    ghost predicate Valid()
      reads this, nodes
    {
      && count == |nodes|
      && (forall i, j | 0 <= i < j < |nodes| :: nodes[i] != nodes[j])
      && (if nodes == [] then first == null && last == null else first == nodes[0] && last == nodes[|nodes| - 1])
      && (forall i | 0 <= i < |nodes| :: LinkedAt(i))
    }

    ghost predicate LinkedAt(i: nat)
      requires i < |nodes|
      reads this, nodes
    {
      && nodes[i].next == (if i + 1 < |nodes| then nodes[i + 1] else null)
      && nodes[i].prev == (if i > 0 then nodes[i - 1] else null)
    }

    ghost function Contents(): (s: seq<T>)
      reads this, nodes
      ensures |s| == |nodes| && forall i | 0 <= i < |s| :: s[i] == nodes[i].data
    {
      seq(|nodes|, i requires 0 <= i < |nodes| reads this, nodes => nodes[i].data)
    }

    constructor ()
      ensures Valid() && Contents() == [] && nodes == []
    {
      first := null;
      last := null;
      count := 0;
      nodes := [];
    }

    /** LinkedList_add: the new element is the last. */
    method Add(data: T)
      requires Valid()
      modifies this, last
      ensures Valid() && Contents() == old(Contents()) + [data]
      ensures fresh(set n | n in nodes && n !in old(nodes))
      ensures old(nodes) <= nodes
    {
      var node := new Node(data);
      if last == null {
        first := node;
        last := node;
      } else {
        last.next := node;
        node.prev := last;
        last := node;
      }
      count := count + 1;
      nodes := nodes + [node];
      ghost var n := |old(nodes)|;
      assert nodes[n] == node && forall i | 0 <= i < n :: nodes[i] == old(nodes)[i];
      forall i | 0 <= i < |nodes| ensures LinkedAt(i) {
        if i < n { assert old(LinkedAt(i)); }
      }
      assert Contents() == old(Contents()) + [data];
    }

    /** LinkedList_getNode: the first node with this element. */
    method GetNode(data: T) returns (node: Node?<T>, ghost k: nat)
      requires Valid()
      ensures node == null <==> data !in Contents()
      ensures if node == null then k == |nodes|
              else k < |nodes| && node == nodes[k] && node.data == data && data !in Contents()[..k]
    {
      node := first;
      k := 0;
      while node != null
        invariant k <= |nodes| && node == (if k < |nodes| then nodes[k] else null)
        invariant forall i | 0 <= i < k :: Contents()[i] != data
        decreases |nodes| - k
      {
        assert LinkedAt(k);
        if node.data == data {
          return;
        }
        node := node.next;
        k := k + 1;
      }
    }

    /** The links once the k-th node is passed over. */
    static ghost predicate LinkedPast(ns: seq<Node<T>>, k: nat, i: nat)
      requires k < |ns| && i < |ns|
      reads ns
    {
      var j, h := if i + 1 == k then k + 1 else i + 1, if i == k + 1 then i - 2 else i - 1;
      && ns[i].next == (if j < |ns| then ns[j] else null)
      && ns[i].prev == (if h >= 0 then ns[h] else null)
    }

    /** The four cases of LinkedList_removeNode. */
    method Unlink(node: Node<T>, ghost k: nat)
      requires Valid() && k < |nodes| && node == nodes[k]
      modifies this`first, this`last, nodes
      ensures forall i | 0 <= i < |nodes| && i != k :: LinkedPast(nodes, k, i)
      ensures forall i | 0 <= i < |nodes| :: nodes[i].data == old(nodes[i].data)
      ensures first == if k > 0 then nodes[0] else if |nodes| > 1 then nodes[1] else null
      ensures last == if k + 1 < |nodes| then nodes[|nodes| - 1] else if |nodes| > 1 then nodes[|nodes| - 2] else null
    {
      assert LinkedAt(k);
      assert k > 0 ==> LinkedAt(k - 1);
      assert k + 1 < |nodes| ==> LinkedAt(k + 1);
      if node == first && node == last {
        first := null;
        last := null;
      } else if node == first {
        first := node.next;
        first.prev := null;
      } else if node == last {
        last := node.prev;
        last.next := null;
      } else {
        var next := node.next;
        var prev := node.prev;
        next.prev := prev;
        prev.next := next;
      }
      forall i | 0 <= i < |nodes| && i != k ensures LinkedPast(nodes, k, i) {
        assert old(LinkedAt(i));
      }
    }

    /** LinkedList_removeNode: takes out the k-th node. */
    method RemoveNode(node: Node<T>, ghost k: nat) returns (val: T)
      requires Valid() && k < |nodes| && node == nodes[k]
      modifies this, nodes
      ensures Valid() && val == old(Contents())[k]
      ensures Contents() == old(Contents())[..k] + old(Contents())[k + 1..]
      ensures nodes == old(nodes)[..k] + old(nodes)[k + 1..]
    {
      ghost var was := Contents();
      WithoutAt(nodes, k);
      WithoutAt(was, k);
      Unlink(node, k);
      val := node.data;
      Drop(k);
      assert Contents() == was[..k] + was[k + 1..];
    }

    /** The node that was passed over no longer counts. */
    method Drop(ghost k: nat)
      requires k < |nodes| && count == |nodes| && forall i, j | 0 <= i < j < |nodes| :: nodes[i] != nodes[j]
      requires forall i | 0 <= i < |nodes| && i != k :: LinkedPast(nodes, k, i)
      requires first == if k > 0 then nodes[0] else if |nodes| > 1 then nodes[1] else null
      requires last == if k + 1 < |nodes| then nodes[|nodes| - 1] else if |nodes| > 1 then nodes[|nodes| - 2] else null
      modifies this`count, this`nodes
      ensures Valid() && nodes == old(nodes)[..k] + old(nodes)[k + 1..]
    {
      ghost var ns := nodes;
      WithoutAt(ns, k);
      count := count - 1;
      nodes := ns[..k] + ns[k + 1..];
      forall i | 0 <= i < |nodes| ensures LinkedAt(i) {
        assert LinkedPast(ns, k, if i < k then i else i + 1);
      }
    }

    /** LinkedList_remove: takes out the first occurrence. */
    method Remove(data: T) returns (val: T, ghost k: nat)
      requires Valid() && data in Contents()
      modifies this, nodes
      ensures Valid() && val == data
      ensures k < |old(Contents())| && old(Contents())[k] == data && data !in old(Contents())[..k]
      ensures Contents() == old(Contents())[..k] + old(Contents())[k + 1..]
      ensures forall n | n in nodes :: n in old(nodes)
    {
      var node;
      node, k := GetNode(data);
      val := RemoveNode(node, k);
    }

    /** LinkedList_removeFromFront. */
    method RemoveFromFront() returns (val: T)
      requires Valid() && Contents() != []
      modifies this, nodes
      ensures Valid() && val == old(Contents())[0] && Contents() == old(Contents())[1..]
      ensures forall n | n in nodes :: n in old(nodes)
      ensures last != null ==> last in nodes
    {
      val := RemoveNode(first, 0);
    }
  }

  lemma WithoutAt<T>(s: seq<T>, k: nat)
    requires k < |s|
    ensures var r := s[..k] + s[k + 1..];
            |r| == |s| - 1 && forall i | 0 <= i < |r| :: r[i] == s[if i < k then i else i + 1]
  {
  }
}
