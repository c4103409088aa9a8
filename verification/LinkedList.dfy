/** The doubly linked list behind each LRU order: nodes are relinked in place, never copied. */
module LinkedLists {

  class Node<T> {
    var data: T
    var prev: Node?<T>
    var next: Node?<T>

    constructor (value: T)
      ensures data == value && prev == null && next == null
    {
      data := value;
      prev, next := null, null;
    }
  }

  // What moving the k-th element to either end does to an order
  function ToFront<T>(s: seq<T>, k: nat): seq<T>
    requires k < |s|
  {
    [s[k]] + s[..k] + s[k + 1..]
  }

  function ToBack<T>(s: seq<T>, k: nat): seq<T>
    requires k < |s|
  {
    s[..k] + s[k + 1..] + [s[k]]
  }

  // Both rearrange: nothing is lost, nothing doubled
  lemma MovesPermute<T>(s: seq<T>, k: nat)
    requires k < |s|
    ensures multiset(ToFront(s, k)) == multiset(s) == multiset(ToBack(s, k))
  {
    assert s == s[..k] + [s[k]] + s[k + 1..];
  }

  // Node i knows its neighbours
  ghost predicate Linked<T>(ns: seq<Node<T>>, i: nat)
    requires i < |ns|
    reads ns
  {
    && ns[i].prev == (if i == 0 then null else ns[i - 1])
    && ns[i].next == if i == |ns| - 1 then null else ns[i + 1]
  }

  ghost predicate Distinct<T>(ns: seq<Node<T>>) {
    forall i, j {:trigger ns[i], ns[j]} :: 0 <= i < j < |ns| ==> ns[i] != ns[j]
  }

  class LinkedList<T> {
    var head: Node?<T>
    var tail: Node?<T>
    var size: nat

    ghost var nodes: seq<Node<T>>

    ghost predicate Valid()
      reads this, nodes
    {
      && size == |nodes|
      && Distinct(nodes)
      && (forall i {:trigger Linked(nodes, i)} :: 0 <= i < |nodes| ==> Linked(nodes, i))
      && head == (if nodes == [] then null else nodes[0])
      && tail == if nodes == [] then null else nodes[|nodes| - 1]
    }

    ghost function Values(): seq<T>
      reads this, nodes
    {
      seq(|nodes|, i requires 0 <= i < |nodes| reads this, nodes => nodes[i].data)
    }

    constructor ()
      ensures Valid() && nodes == []
    {
      head, tail, size, nodes := null, null, 0, [];
    }

    method PushBackLink(value: T) returns (node: Node<T>)
      requires Valid()
      modifies this, nodes
      ensures Valid() && fresh(node) && nodes == old(nodes) + [node]
      ensures Values() == old(Values()) + [value]
    {
      node := new Node(value);
      AttachBack(node);
    }

    method MoveNodeToFront(node: Node<T>, ghost k: nat)
      requires Valid() && k < |nodes| && nodes[k] == node
      modifies this, nodes
      ensures Valid() && nodes == ToFront(old(nodes), k)
      ensures Values() == ToFront(old(Values()), k)
    {
      if head == node {
        assert nodes[0] == nodes[k] && k == 0;
        return;
      }
      Unlink(node, k);
      AttachFront(node);
    }

    method MoveNodeToBack(node: Node<T>, ghost k: nat)
      requires Valid() && k < |nodes| && nodes[k] == node
      modifies this, nodes
      ensures Valid() && nodes == ToBack(old(nodes), k)
      ensures Values() == ToBack(old(Values()), k)
    {
      if tail == node {
        assert nodes[|nodes| - 1] == nodes[k] && k == |nodes| - 1;
        return;
      }
      Unlink(node, k);
      AttachBack(node);
    }

    method AttachFront(node: Node<T>)
      requires Valid() && node !in nodes && nodes != []
      modifies this, nodes`prev, node`prev, node`next
      ensures Valid() && nodes == [node] + old(nodes)
    {
      ghost var was := nodes;
      node.prev := null;
      node.next := head;
      if head != null { head.prev := node; }
      head := node;
      nodes := [node] + nodes;
      size := size + 1;
      forall i | 0 <= i < |nodes| ensures Linked(nodes, i) {
        if i > 0 { assert old(Linked(was, i - 1)); }
      }
    }

    method AttachBack(node: Node<T>)
      requires Valid() && node !in nodes
      modifies this, nodes`next, node`prev, node`next
      ensures Valid() && nodes == old(nodes) + [node]
    {
      ghost var was := nodes;
      node.next := null;
      node.prev := tail;
      if tail != null { tail.next := node; }
      tail := node;
      if head == null { head := node; }
      nodes := nodes + [node];
      size := size + 1;
      forall i | 0 <= i < |nodes| ensures Linked(nodes, i) {
        if i < |was| { assert old(Linked(was, i)); }
      }
    }

    // The assignments both moves begin with
    method Unlink(node: Node<T>, ghost k: nat)
      requires Valid() && k < |nodes| && nodes[k] == node
      modifies this, nodes`prev, nodes`next
      ensures Valid() && nodes == old(nodes[..k] + nodes[k + 1..]) && node !in nodes
    {
      ghost var was := nodes;
      assert Linked(nodes, k);
      if node.prev != null { node.prev.next := node.next; } else { head := node.next; }
      if node.next != null { node.next.prev := node.prev; } else { tail := node.prev; }
      nodes := nodes[..k] + nodes[k + 1..];
      size := size - 1;
      forall i | 0 <= i < |nodes| ensures Linked(nodes, i) {
        assert old(Linked(was, if i < k then i else i + 1));
      }
    }
  }
}
