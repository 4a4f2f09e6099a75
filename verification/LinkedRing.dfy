/** linked_list_t: an intrusive circular doubly linked list with a sentinel. */
module LinkedRing {
  import opened Sequences

  /** An element together with the node embedded in it. */
  class Node {
    var next: Node
    var prev: Node

    constructor ()
      ensures next == prev == this
    {
      next, prev := this, this;
    }
  }

  /** The index behind `i` on a ring of `n` nodes. */
  ghost function Behind(i: nat, n: nat): nat {
    if i + 1 == n then 0 else i + 1
  }

  /** `next` and `prev` join a node to the one behind it. */
  ghost predicate Joined(a: Node, b: Node)
    reads a, b
  {
    a.next == b && b.prev == a
  }

  /** Following `next` visits the ring in order, and `prev` is the inverse of `next`. */
  ghost predicate Linked(ring: seq<Node>)
    reads ring
  {
    forall i | 0 <= i < |ring| :: Joined(ring[i], ring[Behind(i, |ring|)])
  }

  ghost function InsertAt<T>(s: seq<T>, k: nat, x: T): (r: seq<T>)
    requires k <= |s|
    ensures |r| == |s| + 1 && r[k] == x
    ensures forall i | 0 <= i < k :: r[i] == s[i]
    ensures forall i | k < i < |r| :: r[i] == s[i - 1]
  {
    s[..k] + [x] + s[k..]
  }

  ghost function RemoveAt<T>(s: seq<T>, k: nat): (r: seq<T>)
    requires k < |s|
    ensures |r| == |s| - 1
    ensures forall i | 0 <= i < k :: r[i] == s[i]
    ensures forall i | k <= i < |r| :: r[i] == s[i + 1]
  {
    s[..k] + s[k + 1..]
  }

  lemma InsertBehindHead<T>(head: T, s: seq<T>, k: nat, x: T)
    requires k <= |s|
    ensures [head] + InsertAt(s, k, x) == InsertAt([head] + s, k + 1, x)
  {
  }

  /** Every link of the ring but the one that leaves its k-th node. */
  ghost predicate LinkedBut(ring: seq<Node>, k: nat)
    reads ring
  {
    forall i | 0 <= i < |ring| && i != k :: Joined(ring[i], ring[Behind(i, |ring|)])
  }

  /** A node joined into the open link gives the longer ring. */
  lemma InsertionLinks(ring: seq<Node>, node: Node, k: nat)
    requires k < |ring| && Distinct(ring) && node !in ring && LinkedBut(ring, k)
    requires Joined(ring[k], node) && Joined(node, ring[Behind(k, |ring|)])
    ensures Linked(InsertAt(ring, k + 1, node)) && Distinct(InsertAt(ring, k + 1, node))
  {
    var longer := InsertAt(ring, k + 1, node);
    var n := |ring|;
    forall i | 0 <= i < |longer| ensures Joined(longer[i], longer[Behind(i, |longer|)]) {
      if i == k {
        assert longer[i] == ring[k] && longer[Behind(i, |longer|)] == node;
      } else if i == k + 1 {
        assert longer[i] == node && longer[Behind(i, |longer|)] == ring[Behind(k, n)];
      } else {
        var j := if i < k then i else i - 1;
        assert longer[i] == ring[j] && longer[Behind(i, |longer|)] == ring[Behind(j, n)];
      }
    }
  }

  /** Joining the neighbours of the k-th node gives the shorter ring. */
  lemma RemovalLinks(ring: seq<Node>, k: nat)
    requires 0 < k < |ring| && Distinct(ring)
    requires forall i | 0 <= i < |ring| && i != k - 1 && i != k :: Joined(ring[i], ring[Behind(i, |ring|)])
    requires Joined(ring[k - 1], ring[Behind(k, |ring|)])
    ensures Linked(RemoveAt(ring, k)) && Distinct(RemoveAt(ring, k)) && ring[k] !in RemoveAt(ring, k)
  {
    var shorter := RemoveAt(ring, k);
    var n := |ring|;
    forall i | 0 <= i < |shorter| ensures Joined(shorter[i], shorter[Behind(i, |shorter|)]) {
      if i == k - 1 {
        assert shorter[i] == ring[k - 1] && shorter[Behind(i, |shorter|)] == ring[Behind(k, n)];
      } else {
        var j := if i < k then i else i + 1;
        assert shorter[i] == ring[j] && shorter[Behind(i, |shorter|)] == ring[Behind(j, n)];
      }
    }
  }

  class LinkedList {
    const head: Node
    /** The elements in the order of `next` from the sentinel. */
    ghost var items: seq<Node>

    ghost function Ring(): seq<Node>
      reads this
    {
      [head] + items
    }

    ghost predicate Valid()
      reads this, Ring()
    {
      Distinct(Ring()) && Linked(Ring())
    }

    constructor ()
      ensures Valid() && items == [] && fresh(head)
    {
      head := new Node();
      items := [];
    }

    /** The neighbours of the k-th node of the ring. */
    lemma Neighbours(k: nat)
      requires Valid() && k < |Ring()|
      ensures Joined(Ring()[k], Ring()[Behind(k, |Ring()|)])
      ensures k > 0 ==> Joined(Ring()[k - 1], Ring()[k]) && Ring()[k] == items[k - 1]
    {
      if k > 0 { assert Joined(Ring()[k - 1], Ring()[Behind(k - 1, |Ring()|)]); }
    }

    method IsEmpty() returns (empty: bool)
      requires Valid()
      ensures empty <==> items == []
    {
      Neighbours(0);
      return head.next == head;
    }

    /** The element of a node, and null for the sentinel. */
    function Entry(node: Node): Node? {
      if node == head then null else node
    }

    method Add(node: Node)
      requires Valid() && node !in Ring()
      modifies this, Ring(), node
      ensures Valid() && items == [node] + old(items)
    {
      Neighbours(0);
      ghost var ring := Ring();
      head.next.prev := node;
      node.next := head.next;
      node.prev := head;
      head.next := node;
      InsertionLinks(ring, node, 0);
      items := [node] + items;
      assert Ring() == InsertAt(ring, 1, node);
    }

    method AddPrev(node: Node, cur: Node, ghost k: nat)
      requires Valid() && node !in Ring() && k < |items| && items[k] == cur
      modifies this, Ring(), node
      ensures Valid() && items == InsertAt(old(items), k, node)
    {
      Neighbours(k + 1);
      ghost var ring := Ring();
      cur.prev.next := node;
      node.prev := cur.prev;
      node.next := cur;
      cur.prev := node;
      InsertBehindHead(head, items, k, node);
      items := InsertAt(items, k, node);
      InsertionLinks(ring, node, k);
      hide InsertAt, Linked, Distinct;
    }

    method AddNext(node: Node, cur: Node, ghost k: nat)
      requires Valid() && node !in Ring() && k < |items| && items[k] == cur
      modifies this, Ring(), node
      ensures Valid() && items == InsertAt(old(items), k + 1, node)
    {
      hide InsertAt;
      Neighbours(k + 1);
      ghost var ring := Ring();
      ghost var behind := Behind(k + 1, |ring|);
      cur.next.prev := node;
      node.next := cur.next;
      node.prev := cur;
      cur.next := node;
      InsertBehindHead(head, items, k + 1, node);
      items := InsertAt(items, k + 1, node);
      forall i | 0 <= i < |ring| && i != k + 1 ensures Joined(ring[i], ring[Behind(i, |ring|)]) {
        assert old(Joined(ring[i], ring[Behind(i, |ring|)]));
        assert ring[i] != cur && Behind(i, |ring|) != behind;
      }
      InsertionLinks(ring, node, k + 1);
      hide Linked, Distinct;
    }

    /** The removed element keeps its own pointers. */
    method Del(node: Node, ghost k: nat)
      requires Valid() && k < |items| && items[k] == node
      modifies this, Ring()
      ensures Valid() && items == RemoveAt(old(items), k)
      ensures node !in Ring() && node.next == old(node.next) && node.prev == old(node.prev)
    {
      Neighbours(k + 1);
      ghost var ring := Ring();
      node.next.prev := node.prev;
      node.prev.next := node.next;
      RemovalLinks(ring, k + 1);
      items := RemoveAt(items, k);
      assert Ring() == RemoveAt(ring, k + 1);
    }

    method Next(node: Node, ghost k: nat) returns (r: Node?)
      requires Valid() && k < |items| && items[k] == node
      ensures r == if k + 1 == |items| then null else items[k + 1]
    {
      Neighbours(k + 1);
      assert k + 1 < |items| ==> Ring()[k + 2] == items[k + 1] && items[k + 1] != Ring()[0];
      return Entry(node.next);
    }

    method Prev(node: Node, ghost k: nat) returns (r: Node?)
      requires Valid() && k < |items| && items[k] == node
      ensures r == if k == 0 then null else items[k - 1]
    {
      Neighbours(k + 1);
      assert k > 0 ==> Ring()[k] == items[k - 1] && items[k - 1] != Ring()[0];
      return Entry(node.prev);
    }
  }
}
