/** The timer handler object with its intrusive linked list. */
module TimerHandler {
  import opened ForteTime
  import opened TimerList
  import opened Machine

  const UNITS_PER_SECOND := 1_000_000_000

  /** An interval in time base units, a 64-bit number, as ticks. A product with the tick rate that
      does not fit 64 bits is taken to wrap around. */
  function Ticks(interval: int, ticksPerSecond: nat): Word {
    WrapWord(Truncate(WrapInt64(interval * ticksPerSecond), UNITS_PER_SECOND))
  }

  lemma SmallProduct(product: nat)
    requires product < 0x1_0000_0000 * 1_000_000_000
    ensures WrapWord(Truncate(WrapInt64(product), 1_000_000_000)) == product / 1_000_000_000
  {
  }

  /** An interval in nanoseconds, as far as its ticks fit 32 bits. */
  lemma TicksOf(interval: nat, ticksPerSecond: nat)
    requires interval * ticksPerSecond < 0x1_0000_0000 * 1_000_000_000
    ensures Ticks(interval, ticksPerSecond) == interval * ticksPerSecond / 1_000_000_000
  {
    hide WrapWord, Truncate, WrapInt64;
    SmallProduct(interval * ticksPerSecond);
  }

  /** An interval of n seconds has n times as many ticks as there are in a second. */
  lemma TicksOfSeconds(n: nat, ticksPerSecond: nat)
    requires n * ticksPerSecond < 0x1_0000_0000
    ensures Ticks(n * 1_000_000_000, ticksPerSecond) == n * ticksPerSecond
  {
    hide WrapWord, Truncate, WrapInt64;
    var ticks := n * ticksPerSecond;
    assert n * 1_000_000_000 * ticksPerSecond == ticks * 1_000_000_000;
    SmallProduct(ticks * 1_000_000_000);
  }

  /** The list entry that every timed function block owns. */
  class Entry {
    const fb: nat
    const periodic: bool
    var timeOut: Time
    var interval: Word
    var next: Entry?

    constructor (fb: nat, periodic: bool)
      ensures this.fb == fb && this.periodic == periodic && next == null
    {
      this.fb, this.periodic := fb, periodic;
      timeOut, interval, next := Time(0, 0), 0, null;
    }

    ghost function Timed(): Timed
      reads this
    {
      TimerList.Timed(fb, Value(timeOut), interval, periodic)
    }
  }

  /** The k-th entry, or null behind the last one. */
  ghost function At(nodes: seq<Entry>, k: nat): Entry? {
    if k < |nodes| then nodes[k] else null
  }

  /** The entries of a chain of links that starts at first. */
  ghost predicate Linked(first: Entry?, nodes: seq<Entry>)
    reads nodes
  {
    first == At(nodes, 0) && forall i {:trigger nodes[i].next} :: 0 <= i < |nodes| ==> nodes[i].next == At(nodes, i + 1)
  }

  ghost predicate NoRepeats(nodes: seq<Entry>) {
    forall i, j :: 0 <= i < j < |nodes| ==> nodes[i] != nodes[j]
  }

  lemma InsertedNoRepeats(nodes: seq<Entry>, e: Entry, p: nat)
    requires NoRepeats(nodes) && e !in nodes && p <= |nodes|
    ensures NoRepeats(nodes[..p] + [e] + nodes[p..])
  {
  }

  ghost function Snapshot(nodes: seq<Entry>): (ts: seq<Timed>)
    reads nodes
    ensures |ts| == |nodes| && forall i :: 0 <= i < |nodes| ==> ts[i] == nodes[i].Timed()
  {
    seq(|nodes|, i requires 0 <= i < |nodes| reads nodes => nodes[i].Timed())
  }

  lemma SpliceIn(nodes: seq<Entry>, e: Entry, p: nat, ts: seq<Timed>)
    requires p <= |nodes| && Snapshot(nodes) == ts
    ensures Snapshot(nodes[..p] + [e] + nodes[p..]) == ts[..p] + [e.Timed()] + ts[p..]
  {
  }

  class Handler {
    const ticksPerSecond: nat
    var forteTime: Time
    var first: Entry?
    ghost var nodes: seq<Entry>

    ghost predicate Valid()
      reads this, nodes
    {
      Linked(first, nodes) && NoRepeats(nodes)
    }

    ghost function List(): seq<Timed>
      reads this, nodes
    {
      Snapshot(nodes)
    }

    /** A new handler has nothing registered, and its time is zero. */
    constructor (ticksPerSecond: nat)
      ensures Valid() && nodes == [] && List() == []
      ensures Value(forteTime) == 0 && this.ticksPerSecond == ticksPerSecond
    {
      this.ticksPerSecond := ticksPerSecond;
      forteTime, first, nodes := Time(0, 0), null, [];
    }

    /** The time at which an entry that is added now will be due. */
    method TimeOutFor(interval: Word) returns (t: Time)
      requires ticksPerSecond < WORD_RANGE && Value(forteTime) + WORD_RANGE < TIME_RANGE
      ensures Value(t) == Value(forteTime)
        + if interval > 0 then interval else if ticksPerSecond > 100 then ticksPerSecond / 100 else 1
    {
      hide Plus, Value;
      t := Plus(forteTime, interval);
      PlusInRange(forteTime, interval);
      if interval == 0 {
        var correction := if ticksPerSecond > 100 then ticksPerSecond / 100 else 1;
        PlusInRange(t, correction);
        t := Plus(t, correction);
      }
    }

    /** The entry behind which an entry with the given time-out belongs, null for the front. */
    method FindPlace(timeOut: Time) returns (runner: Entry?, ghost p: nat)
      requires Valid()
      ensures p <= |nodes| && runner == if p == 0 then null else nodes[p - 1]
      ensures forall j :: 0 <= j < p ==> List()[j].due <= Value(timeOut)
      ensures p < |nodes| ==> List()[p].due > Value(timeOut)
      ensures first == null ==> p == 0
    {
      runner, p := null, 0;
      if first != null && !Later(first.timeOut, timeOut) {
        runner, p := first, 1;
        while runner.next != null && !Later(runner.next.timeOut, timeOut)
          invariant 1 <= p <= |nodes| && runner == nodes[p - 1]
          invariant forall j :: 0 <= j < p ==> List()[j].due <= Value(timeOut)
          decreases |nodes| - p
        {
          assert runner.next == nodes[p];
          runner, p := runner.next, p + 1;
        }
      }
    }

    /** Links an entry in behind another one, or at the front. */
    method LinkBehind(runner: Entry?, e: Entry, ghost p: nat)
      requires Valid() && e !in nodes
      requires p <= |nodes| && runner == if p == 0 then null else nodes[p - 1]
      modifies this`first, this`nodes, nodes, e
      ensures Valid() && forall n :: n in nodes ==> n == e || n in old(nodes)
      ensures List() == old(List())[..p] + [old(e.Timed())] + old(List())[p..]
      ensures e.interval == old(e.interval)
    {
      if runner == null {
        e.next := first;
        first := e;
      } else {
        e.next := runner.next;
        runner.next := e;
      }
      ghost var was := nodes;
      nodes := was[..p] + [e] + was[p..];
      InsertedNoRepeats(was, e, p);
      forall i | 0 <= i < |nodes| ensures nodes[i].next == At(nodes, i + 1) {
        if i < p {
          assert nodes[i] == was[i] && (i + 1 < p ==> was[i] != runner);
        } else if i > p {
          assert nodes[i] == was[i - 1] && was[i - 1] != runner;
        }
      }
      SpliceIn(was, e, p, old(List()));
    }

    method AddTimedFBEntry(e: Entry)
      requires Valid() && e !in nodes
      requires ticksPerSecond < WORD_RANGE && Value(forteTime) + WORD_RANGE < TIME_RANGE
      modifies this`first, this`nodes, nodes, e
      ensures Valid() && forall n :: n in nodes ==> n == e || n in old(nodes)
      ensures e.interval == old(e.interval)
      ensures
        var d := if e.interval > 0 then e.interval else if ticksPerSecond > 100 then ticksPerSecond / 100 else 1;
        List() == Insert(old(List()), TimerList.Timed(e.fb, Value(forteTime) + d, e.interval, e.periodic))
    {
      hide Insert, Linked, NoRepeats, Snapshot;
      ghost var ts := List();
      e.timeOut := TimeOutFor(e.interval);
      e.next := null;
      ghost var x := e.Timed();
      var runner, p := FindPlace(e.timeOut);
      assert List() == ts;
      InsertAt(ts, x, p);
      LinkBehind(runner, e, p);
    }

    /** Registers a block for an interval in time base units. */
    method RegisterTimedFB(e: Entry, interval: int)
      requires Valid() && e !in nodes
      requires ticksPerSecond < WORD_RANGE && Value(forteTime) + WORD_RANGE < TIME_RANGE
      requires INT64_MIN <= interval <= INT64_MAX
      modifies this`first, this`nodes, nodes, e
      ensures Valid() && e.interval == Ticks(interval, ticksPerSecond)
      ensures
        var d := if e.interval > 0 then e.interval else if ticksPerSecond > 100 then ticksPerSecond / 100 else 1;
        List() == Insert(old(List()), TimerList.Timed(e.fb, Value(forteTime) + d, e.interval, e.periodic))
    {
      ghost var ts := List();
      e.interval := WrapWord(Truncate(WrapInt64(interval * ticksPerSecond), UNITS_PER_SECOND));
      assert List() == ts;
      AddTimedFBEntry(e);
    }

    /** The entry in front of the first entry of a block; p is that entry's position. */
    method FindBlock(fb: nat) returns (runner: Entry?, ghost p: nat)
      requires Valid() && first != null
      ensures p <= |nodes| && runner == (if p == 0 then null else nodes[p - 1])
      ensures forall j :: 0 <= j < p ==> List()[j].fb != fb
      ensures p < |nodes| ==> List()[p].fb == fb
    {
      runner, p := null, 0;
      if first.fb != fb {
        runner, p := first, 1;
        while runner.next != null && runner.next.fb != fb
          invariant 1 <= p <= |nodes| && runner == nodes[p - 1]
          invariant forall j :: 0 <= j < p ==> List()[j].fb != fb
          decreases |nodes| - p
        {
          assert runner.next == nodes[p];
          runner, p := runner.next, p + 1;
        }
      }
    }

    /** Takes out the entry behind another one, or the front one. */
    method Unlink(runner: Entry?, ghost p: nat)
      requires Valid() && p < |nodes| && runner == if p == 0 then null else nodes[p - 1]
      modifies this`first, this`nodes, nodes
      ensures Valid() && nodes == old(nodes)[..p] + old(nodes)[p + 1..]
      ensures List() == old(List())[..p] + old(List())[p + 1..]
    {
      var buffer: Entry;
      ghost var was := nodes;
      if runner == null {
        buffer := first;
        first := first.next;
      } else {
        assert runner.next == nodes[p];
        buffer := runner.next;
        runner.next := runner.next.next;
      }
      buffer.next := null;
      buffer.timeOut := Time(0, 0);
      nodes := was[..p] + was[p + 1..];
      hide Value;
      assert NoRepeats(nodes);
      forall i | 0 <= i < |nodes| ensures nodes[i].next == At(nodes, i + 1) {
        if i < p {
          assert nodes[i] == was[i] && (i + 1 < p ==> was[i] != runner);
        } else {
          assert nodes[i] == was[i + 1] && was[i + 1] != runner;
        }
      }
      assert List() == old(List())[..p] + old(List())[p + 1..];
    }

    method UnregisterTimedFB(fb: nat)
      requires Valid()
      modifies this`first, this`nodes, nodes
      ensures Valid() && List() == Remove(old(List()), fb)
      ensures forall n :: n in nodes ==> n in old(nodes)
    {
      ghost var ts := List();
      if first != null {
        var runner, p := FindBlock(fb);
        assert List() == ts;
        if (runner == null) || runner.next != null {
          RemoveAt(ts, fb, p);
          Unlink(runner, p);
        } else {
          RemoveMissing(ts, fb);
        }
      }
    }

    /** One tick. The blocks for which an event chain is started are returned in order. */
    method NextTick() returns (fired: seq<nat>)
      requires Valid()
      requires ticksPerSecond < WORD_RANGE && Value(forteTime) + 1 + WORD_RANGE < TIME_RANGE
      modifies this`forteTime, this`first, this`nodes, nodes
      ensures Valid() && Value(forteTime) == old(Value(forteTime)) + 1
      ensures Swept(fired, List()) == Sweep(ticksPerSecond, Value(forteTime), old(List()))
      ensures forall n :: n in nodes ==> n in old(nodes)
    {
      hide Sweep, Rest;
      ghost var ts := List();
      IncrementExact(forteTime);
      forteTime := Increment(forteTime);
      fired := [];
      ghost var now := Value(forteTime);
      while first != null && !Later(first.timeOut, forteTime)
        invariant Valid() && Value(forteTime) == now == old(Value(forteTime)) + 1
        invariant forall n :: n in nodes ==> n in old(nodes)
        invariant var s := Sweep(ticksPerSecond, now, List());
          Sweep(ticksPerSecond, now, ts) == Swept(fired + s.fired, s.list)
        decreases DueCount(now, List())
      {
        LaterExact(first.timeOut, forteTime);
        SweepStep(ticksPerSecond, now, List(), fired);
        assert forall i :: 0 <= i < |nodes| ==> nodes[i] in old(nodes);
        var fb := FireFirst();
        fired := fired + [fb];
      }
      if first != null {
        LaterExact(first.timeOut, forteTime);
      }
      NothingDue(ticksPerSecond, now, List());
      assert fired + [] == fired;
    }

    /** One turn of the sweep. */
    method FireFirst() returns (fb: nat)
      requires Valid() && first != null
      requires ticksPerSecond < WORD_RANGE && Value(forteTime) + WORD_RANGE < TIME_RANGE
      modifies this`first, this`nodes, nodes
      ensures old(nodes) != []
      ensures Valid() && forall n :: n in nodes ==> n in old(nodes)
      ensures fb == old(List())[0].fb && List() == Rest(ticksPerSecond, Value(forteTime), old(List()))
    {
      hide Insert, Snapshot, Linked, NoRepeats;
      fb := first.fb;
      var buffer := TakeFirst();
      if buffer.periodic {
        AddTimedFBEntry(buffer);
      } else {
        ghost var ts := List();
        buffer.next := null;
        buffer.timeOut := Time(0, 0);
        assert List() == ts;
      }
    }

    method TakeFirst() returns (buffer: Entry)
      requires Valid() && first != null
      modifies this`first, this`nodes
      ensures old(nodes) != []
      ensures Valid() && buffer == old(first) == old(nodes)[0] && nodes == old(nodes)[1..] && buffer !in nodes
      ensures List() == old(List())[1..] && buffer.Timed() == old(List())[0]
    {
      buffer := first;
      first := first.next;
      nodes := nodes[1..];
    }
  }
}
