/** wait_list_t: what put, get, get_from_head and flush do to the list once they hold the mutex.
    The waiting itself is the subject of WorkerProtocol. */
module WaitList {
  import opened LinkedRing

  // ---------- The operations on values ----------

  datatype Op<+T> = Put(x: T) | Get | GetFromHead | Flush

  /** The state of the list, and what the operations have returned so far. */
  datatype State<+T> = State(alive: bool, items: seq<T>, returned: seq<T>)

  /** An operation that may go on: a getter waits while the list is alive and empty. */
  ghost predicate Enabled<T>(s: State<T>, op: Op<T>) {
    op.Get? || op.GetFromHead? ==> s.alive ==> s.items != []
  }

  ghost function Apply<T>(s: State<T>, op: Op<T>): State<T>
    requires Enabled(s, op)
  {
    match op
    case Put(x) => if s.alive then s.(items := [x] + s.items) else s
    case Get =>
      if s.alive then s.(items := s.items[..|s.items| - 1], returned := s.returned + [s.items[|s.items| - 1]]) else s
    case GetFromHead => if s.alive then s.(items := s.items[1..], returned := s.returned + [s.items[0]]) else s
    case Flush => s.(alive := false)
  }

  class WaitList {
    const list: LinkedList
    var alive: bool
    var num: int

    ghost predicate Valid()
      reads this, list, list.Ring()
    {
      list.Valid() && num == |list.items|
    }

    ghost function Contents(): seq<Node>
      reads list
    {
      list.items
    }

    /** The state of the list with what an operation returned, if anything. */
    ghost function View(r: Node?): State<Node>
      reads this, list
    {
      State(alive, list.items, if r == null then [] else [r])
    }

    constructor ()
      ensures Valid() && alive && Contents() == [] && fresh(list) && fresh(list.head)
    {
      list := new LinkedList();
      alive, num := true, 0;
    }

    method Len() returns (n: int)
      requires Valid()
      ensures n == |Contents()|
    {
      return num;
    }

    method Put(node: Node)
      requires Valid() && node !in list.Ring()
      modifies this`num, list, list.Ring(), node
      ensures Valid() && View(null) == Apply(old(View(null)), Op.Put(node))
      ensures !alive ==> node.next == old(node.next) && node.prev == old(node.prev)
    {
      if alive {
        list.Add(node);
        num := num + 1;
      }
    }

    /** The exit condition of the wait loop is the precondition. */
    method Get() returns (r: Node?)
      requires Valid() && (alive ==> Contents() != [])
      modifies this`num, list, list.Ring()
      ensures Valid() && View(r) == Apply(old(View(null)), Op.Get) && (r == null <==> !alive)
    {
      if alive {
        ghost var k := |list.items| - 1;
        list.Neighbours(0);
        list.Neighbours(k + 1);
        assert list.Ring()[k + 1] != list.Ring()[0];
        r := list.Entry(list.head.prev);
        list.Del(r, k);
        num := num - 1;
      } else {
        r := null;
      }
    }

    method GetFromHead() returns (r: Node?)
      requires Valid() && (alive ==> Contents() != [])
      modifies this`num, list, list.Ring()
      ensures Valid() && View(r) == Apply(old(View(null)), Op.GetFromHead) && (r == null <==> !alive)
    {
      if alive {
        list.Neighbours(0);
        assert list.Ring()[1] == list.items[0] != list.Ring()[0];
        r := list.Entry(list.head.next);
        list.Del(r, 0);
        num := num - 1;
      } else {
        r := null;
      }
    }

    method Flush()
      requires Valid()
      modifies this`alive
      ensures Valid() && View(null) == Apply(old(View(null)), Op.Flush)
    {
      alive := false;
    }
  }

  // ---------- Runs ----------

  ghost predicate Runs<T>(s: State<T>, ops: seq<Op<T>>, t: State<T>)
    decreases ops
  {
    if ops == [] then s == t else Enabled(s, ops[0]) && Runs(Apply(s, ops[0]), ops[1..], t)
  }

  /** The elements put before the first flush, in order. */
  ghost function Accepted<T>(ops: seq<Op<T>>): seq<T> {
    if ops == [] || ops[0].Flush? then []
    else if ops[0].Put? then [ops[0].x] + Accepted(ops[1..])
    else Accepted(ops[1..])
  }

  ghost function Reversed<T>(s: seq<T>): seq<T> {
    if s == [] then [] else Reversed(s[1..]) + [s[0]]
  }

  lemma {:induction false} ReversedDropLast<T>(s: seq<T>)
    requires s != []
    ensures Reversed(s) == [s[|s| - 1]] + Reversed(s[..|s| - 1])
  {
    if |s| > 1 {
      ReversedDropLast(s[1..]);
      assert s[..|s| - 1][1..] == s[1..][..|s| - 2];
    }
  }

  lemma {:induction false} DeadListStands<T>(s: State<T>, ops: seq<Op<T>>, t: State<T>)
    requires !s.alive && Runs(s, ops, t)
    ensures t == s
    decreases |ops|
  {
    if ops != [] { DeadListStands(Apply(s, ops[0]), ops[1..], t); }
  }

  /** First in, first out: whatever was returned by get, and then what is still queued from the
      oldest on, is exactly what was put before the flush, in order. */
  lemma {:induction false} FirstInFirstOut<T>(s: State<T>, ops: seq<Op<T>>, t: State<T>)
    requires s.alive && Runs(s, ops, t)
    requires forall i | 0 <= i < |ops| :: !ops[i].GetFromHead?
    ensures t.returned + Reversed(t.items) == s.returned + Reversed(s.items) + Accepted(ops)
    decreases |ops|
  {
    if ops == [] {
    } else if ops[0].Flush? {
      DeadListStands(Apply(s, ops[0]), ops[1..], t);
    } else {
      var u := Apply(s, ops[0]);
      FirstInFirstOut(u, ops[1..], t);
      if ops[0].Put? {
        assert u.items[1..] == s.items;
        assert Reversed(u.items) == Reversed(s.items) + [ops[0].x];
      } else {
        ReversedDropLast(s.items);
      }
    }
  }

  ghost function Puts<T>(xs: seq<T>): seq<Op<T>> {
    seq(|xs|, i requires 0 <= i < |xs| => Put(xs[i]))
  }

  ghost function GetsFromHead<T>(n: nat): seq<Op<T>> {
    seq(n, _ => GetFromHead)
  }

  lemma {:induction false} RunsConcat<T>(s: State<T>, a: seq<Op<T>>, m: State<T>, b: seq<Op<T>>, t: State<T>)
    requires Runs(s, a, m) && Runs(m, b, t)
    ensures Runs(s, a + b, t)
    decreases |a|
  {
    if a == [] {
      assert a + b == b;
    } else {
      assert (a + b)[1..] == a[1..] + b;
      RunsConcat(Apply(s, a[0]), a[1..], m, b, t);
    }
  }

  /** Last in, first out: as many get_from_head as puts return the new elements, newest first, and
      leave the list as it was. */
  lemma {:induction false} LastInFirstOut<T>(s: State<T>, xs: seq<T>)
    requires s.alive
    ensures Runs(s, Puts(xs) + GetsFromHead(|xs|), s.(returned := s.returned + Reversed(xs)))
    decreases |xs|
  {
    if xs == [] {
      assert s.(returned := s.returned + Reversed(xs)) == s;
    } else {
      var first := Put(xs[0]);
      var u := Apply(s, first);
      LastInFirstOut(u, xs[1..]);
      var v := u.(returned := u.returned + Reversed(xs[1..]));
      var inner := Puts(xs[1..]) + GetsFromHead(|xs| - 1);
      var ops := Puts(xs) + GetsFromHead(|xs|);
      assert ops == [first] + (inner + [GetFromHead]);
      var t := Apply(v, GetFromHead);
      assert t == s.(returned := s.returned + Reversed(xs));
      var last: seq<Op<T>> := [GetFromHead];
      assert last[1..] == [] && Runs(t, [], t);
      RunsConcat(u, inner, v, last, t);
      assert ops[0] == first && ops[1..] == inner + [GetFromHead];
    }
  }
}
