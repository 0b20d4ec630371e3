/** The singly linked list with a pointer to its last node. */
module LinkedList {

  class Node<T> {
    const data: T
    var next: Node?<T>

    constructor (data: T, next: Node?<T>)
      ensures this.data == data && this.next == next
    {
      this.data, this.next := data, next;
    }
  }

  /** The k-th node, or null behind the last one. */
  ghost function At<T>(nodes: seq<Node<T>>, k: nat): Node?<T> {
    if k < |nodes| then nodes[k] else null
  }

  class List<T> {
    var first: Node?<T>
    var last: Node?<T>
    ghost var nodes: seq<Node<T>>

    ghost predicate Valid()
      reads this, nodes
    {
      && first == At(nodes, 0)
      && last == (if |nodes| == 0 then null else nodes[|nodes| - 1])
      && (forall i {:trigger nodes[i].next} :: 0 <= i < |nodes| ==> nodes[i].next == At(nodes, i + 1))
      && (forall i, j :: 0 <= i < j < |nodes| ==> nodes[i] != nodes[j])
    }

    ghost function Contents(): (s: seq<T>)
      reads this
      ensures |s| == |nodes| && forall i :: 0 <= i < |s| ==> s[i] == nodes[i].data
    {
      seq(|nodes|, i requires 0 <= i < |nodes| reads this => nodes[i].data)
    }

    constructor ()
      ensures Valid() && Contents() == []
    {
      first, last, nodes := null, null, [];
    }

    method IsEmpty() returns (empty: bool)
      requires Valid()
      ensures empty <==> Contents() == []
    {
      empty := first == null;
    }

    method PushFront(x: T)
      requires Valid()
      modifies this
      ensures Valid() && Contents() == [x] + old(Contents())
      ensures fresh(nodes[0]) && nodes[1..] == old(nodes)
    {
      var node := new Node(x, first);
      first := node;
      if last == null {
        last := node;
      }
      nodes := [node] + nodes;
    }

    method PushBack(x: T)
      requires Valid()
      modifies this, last
      ensures Valid() && Contents() == old(Contents()) + [x]
      ensures fresh(nodes[|nodes| - 1]) && nodes[..|nodes| - 1] == old(nodes)
    {
      var node := new Node(x, null);
      if last != null {
        last.next := node;
      } else {
        first := node;
      }
      last := node;
      nodes := nodes + [node];
    }

    method PopFront()
      requires Valid() && Contents() != []
      modifies this
      ensures Valid() && Contents() == old(Contents())[1..] && nodes == old(nodes)[1..]
    {
      first := first.next;
      nodes := nodes[1..];
      if first == null {
        last := null;
      }
    }

    method ClearAll()
      requires Valid()
      modifies this
      ensures Valid() && Contents() == []
    {
      while first != null
        invariant Valid()
        decreases |nodes|
      {
        PopFront();
      }
    }

    /** Takes out the node behind the one at position k and returns its successor. */
    method EraseAfter(node: Node<T>, ghost k: nat) returns (next: Node?<T>)
      requires Valid() && k + 1 < |nodes| && nodes[k] == node
      modifies this, node
      ensures Valid() && nodes == old(nodes[..k + 1] + nodes[k + 2..])
      ensures Contents() == old(Contents()[..k + 1] + Contents()[k + 2..])
      ensures next == At(nodes, k + 1)
    {
      var gone := node.next;
      assert gone == nodes[k + 1];
      node.next := gone.next;
      nodes := nodes[..k + 1] + nodes[k + 2..];
      if node.next == null {
        last := node;
      }
      next := node.next;
    }
  }
}
