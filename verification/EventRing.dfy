/** The ring buffers of the event chain executor. Both pointers move downward; the slot at End is
    meant to be free, and Start equal to End is read as empty. */
module EventRing {

  import opened Options

  // ---- what a ring of n slots is good for, seen from outside ----

  /** The entries in delivery order, and the entry that the ring has swallowed, if any: once the
      last free slot is taken, End stays on it, and the entry there is never reached by Start. */
  datatype Queue<T> = Queue(items: seq<T>, stuck: Option<T>)

  /** Storing an entry in a ring of n slots. */
  function Push<T>(n: nat, q: Queue<T>, e: T): Queue<T> {
    if q.stuck.Some? then q
    else if |q.items| + 1 < n then q.(items := q.items + [e])
    else q.(stuck := Some(e))
  }

  function PushAll<T>(n: nat, q: Queue<T>, es: seq<T>): Queue<T>
    decreases |es|
  {
    if es == [] then q else PushAll(n, Push(n, q, es[0]), es[1..])
  }

  /** A ring that has swallowed an entry takes no entry any more. */
  lemma {:induction false} StuckForEver<T>(n: nat, q: Queue<T>, es: seq<T>)
    requires q.stuck.Some?
    ensures PushAll(n, q, es) == q
    decreases |es|
  {
    if es != [] {
      StuckForEver(n, q, es[1..]);
    }
  }

  /** Storing entries appends them all, in order, exactly when a slot stays free throughout:
      the ring is a queue of n - 1 entries, not of n. */
  lemma {:induction false} AppendsIffRoom<T>(n: nat, q: Queue<T>, es: seq<T>)
    requires es != []
    ensures PushAll(n, q, es) == Queue(q.items + es, None) <==> q.stuck.None? && |q.items| + |es| < n
    decreases |es|
  {
    var next := Push(n, q, es[0]);
    if next.stuck.Some? {
      StuckForEver(n, next, es[1..]);
    } else if |es| == 1 {
      assert es == [es[0]];
    } else {
      AppendsIffRoom(n, next, es[1..]);
      assert next.items + es[1..] == q.items + es;
    }
  }

  // ---- the ring itself ----

  /** The slot k steps behind start. */
  function Slot(start: nat, k: nat, n: nat): (i: nat)
    requires start < n && k < n
    ensures i < n
  {
    if k <= start then start - k else start + n - k
  }

  /** Number of entries from start up to, not including, end. */
  function Count(start: nat, end: nat, n: nat): (k: nat)
    requires start < n && end < n
    ensures k < n && Slot(start, k, n) == end
  {
    if end <= start then start - end else start + n - end
  }

  class Ring<T> {
    const list: array<Option<T>>
    var start: nat
    var end: nat

    /** The filled slots are those from start to end; the slot at end may be filled as well. */
    ghost predicate Valid()
      reads this, list
    {
      && start < list.Length && end < list.Length
      && forall k :: 0 <= k < list.Length ==>
        (k < Count(start, end, list.Length) ==> list[Slot(start, k, list.Length)].Some?) &&
        (k > Count(start, end, list.Length) ==> list[Slot(start, k, list.Length)].None?)
    }

    ghost function Items(): (items: seq<T>)
      requires Valid()
      reads this, list
      ensures |items| == Count(start, end, list.Length)
    {
      seq(Count(start, end, list.Length),
        k requires Valid() && 0 <= k < Count(start, end, list.Length) reads this, list =>
          list[Slot(start, k, list.Length)].value)
    }

    ghost function Contents(): Queue<T>
      requires Valid()
      reads this, list
    {
      Queue(Items(), list[end])
    }

    constructor (size: nat)
      requires size > 0
      ensures Valid() && Contents() == Queue([], None) && list.Length == size && fresh(list)
    {
      list := new Option<T>[size](_ => None);
      start, end := size - 1, size - 1;
    }

    method Clear()
      requires list.Length > 0
      modifies this, list
      ensures Valid() && Contents() == Queue([], None)
    {
      for i := 0 to list.Length
        invariant forall k :: 0 <= k < i ==> list[k].None?
      {
        list[i] := None;
      }
      end := list.Length - 1;
      start := list.Length - 1;
    }

    /** The test that the worker uses; it takes a ring for empty that has swallowed an entry. */
    method IsEmpty() returns (empty: bool)
      requires Valid()
      ensures empty <==> Contents().items == []
    {
      empty := start == end;
    }

    method AddEventEntry(e: T)
      requires Valid()
      modifies this`end, list
      ensures Valid() && Contents() == Push(list.Length, old(Contents()), e)
    {
      ghost var n, count := list.Length, Count(start, end, list.Length);
      ghost var items := Items();
      if list[end].None? {
        list[end] := Some(e);
        var next := if end == 0 then list.Length - 1 else end - 1;
        assert Slot(start, count, n) == end;
        assert next == Slot(start, if count + 1 < n then count + 1 else 0, n);
        if start != next {
          end := next;
          assert Count(start, end, n) == count + 1;
          assert Items() == items + [e];
        } else {
          assert Items() == items;
        }
      }
    }

    method First() returns (e: T)
      requires Valid() && Contents().items != []
      ensures e == Contents().items[0]
    {
      assert list[Slot(start, 0, list.Length)].Some?;
      e := list[start].value;
    }

    /** Start leaves its slot behind. */
    method RemoveFirst() returns (e: T)
      requires Valid() && Contents().items != []
      modifies this`start, list
      ensures Valid()
      ensures var q := old(Contents());
        e == q.items[0] && Contents() == q.(items := q.items[1..])
    {
      ghost var n, items := list.Length, Items();
      assert list[Slot(start, 0, n)].Some?;
      e := list[start].value;
      list[start] := None;
      ghost var before := start;
      start := if start == 0 then list.Length - 1 else start - 1;
      assert Count(start, end, n) == |items| - 1;
      assert forall k :: 0 <= k < n - 1 ==> Slot(start, k, n) == Slot(before, k + 1, n);
      assert Slot(start, n - 1, n) == before;
      assert Items() == items[1..];
    }
  }
}
