/** The timer list as a sequence, and what one sweep of it does. */
module TimerList {

  /** A registered function block: when it is due, and how it goes on afterwards. */
  datatype Timed = Timed(fb: nat, due: nat, interval: nat, periodic: bool)

  /** The number of ticks to the next activation. A null interval is replaced by 10 ms, or by one
      tick when ticks are longer than that. */
  function Delay(ticksPerSecond: nat, interval: nat): (d: nat)
    ensures d > 0
  {
    if interval == 0 then (if ticksPerSecond > 100 then ticksPerSecond / 100 else 1) else interval
  }

  predicate Sorted(ts: seq<Timed>) {
    forall i, j :: 0 <= i < j < |ts| ==> ts[i].due <= ts[j].due
  }

  /** No block is registered twice. */
  predicate Distinct(ts: seq<Timed>) {
    forall i, j :: 0 <= i < j < |ts| ==> ts[i].fb != ts[j].fb
  }

  predicate AllAfter(now: int, ts: seq<Timed>) {
    forall i :: 0 <= i < |ts| ==> ts[i].due > now
  }

  /** In front of the first entry that is due later. */
  function Insert(ts: seq<Timed>, x: Timed): (r: seq<Timed>)
    ensures |r| == |ts| + 1
  {
    if ts == [] || ts[0].due > x.due then [x] + ts else [ts[0]] + Insert(ts[1..], x)
  }

  /** Without the first entry of the block. */
  function Remove(ts: seq<Timed>, fb: nat): seq<Timed> {
    if ts == [] then [] else if ts[0].fb == fb then ts[1..] else [ts[0]] + Remove(ts[1..], fb)
  }

  function Renewed(tps: nat, now: nat, x: Timed): Timed {
    x.(due := now + Delay(tps, x.interval))
  }

  function DueCount(now: nat, ts: seq<Timed>): nat {
    if ts == [] then 0 else (if ts[0].due <= now then 1 else 0) + DueCount(now, ts[1..])
  }

  lemma {:induction false} InsertDueCount(now: nat, ts: seq<Timed>, x: Timed)
    ensures DueCount(now, Insert(ts, x)) == DueCount(now, ts) + if x.due <= now then 1 else 0
  {
    if !(ts == [] || ts[0].due > x.due) {
      InsertDueCount(now, ts[1..], x);
    }
  }

  /** The list after the head has been taken off and a periodic one re-registered. */
  function Rest(tps: nat, now: nat, ts: seq<Timed>): seq<Timed>
    requires ts != []
  {
    if ts[0].periodic then Insert(ts[1..], Renewed(tps, now, ts[0])) else ts[1..]
  }

  lemma RestHasFewerDue(tps: nat, now: nat, ts: seq<Timed>)
    requires ts != [] && ts[0].due <= now
    ensures DueCount(now, Rest(tps, now, ts)) < DueCount(now, ts)
  {
    InsertDueCount(now, ts[1..], Renewed(tps, now, ts[0]));
  }

  /** The sweep: as long as the head is due it is fired and, when periodic, re-inserted. It ends
      although it re-inserts, because a re-inserted entry is never due. */
  datatype Swept = Swept(fired: seq<nat>, list: seq<Timed>)

  function Sweep(tps: nat, now: nat, ts: seq<Timed>): Swept
    decreases DueCount(now, ts)
  {
    if ts == [] || ts[0].due > now then Swept([], ts)
    else
      RestHasFewerDue(tps, now, ts);
      var s := Sweep(tps, now, Rest(tps, now, ts));
      Swept([ts[0].fb] + s.fired, s.list)
  }

  /** One turn of the sweep, behind what has been fired already. */
  lemma SweepStep(tps: nat, now: nat, ts: seq<Timed>, fired: seq<nat>)
    requires ts != [] && ts[0].due <= now
    ensures DueCount(now, Rest(tps, now, ts)) < DueCount(now, ts)
    ensures var s, r := Sweep(tps, now, ts), Sweep(tps, now, Rest(tps, now, ts));
      fired + s.fired == fired + [ts[0].fb] + r.fired && s.list == r.list
  {
    RestHasFewerDue(tps, now, ts);
    var rest := Rest(tps, now, ts);
    var r := Sweep(tps, now, rest).fired;
    assert Sweep(tps, now, ts).fired == [ts[0].fb] + r && Sweep(tps, now, ts).list == Sweep(tps, now, rest).list;
    hide *;
    assert fired + ([ts[0].fb] + r) == fired + [ts[0].fb] + r;
  }

  lemma NothingDue(tps: nat, now: nat, ts: seq<Timed>)
    requires ts == [] || ts[0].due > now
    ensures Sweep(tps, now, ts) == Swept([], ts)
  {
  }

  // ---- the position of an insertion ----

  lemma {:induction false} InsertAt(ts: seq<Timed>, x: Timed, p: nat)
    requires p <= |ts| && (forall j :: 0 <= j < p ==> ts[j].due <= x.due) && (p < |ts| ==> ts[p].due > x.due)
    ensures Insert(ts, x) == ts[..p] + [x] + ts[p..]
  {
    if p > 0 {
      InsertAt(ts[1..], x, p - 1);
      assert ts[..p] == [ts[0]] + ts[1..][..p - 1];
      assert ts[1..][p - 1..] == ts[p..];
    }
  }

  lemma {:induction false} RemoveAt(ts: seq<Timed>, fb: nat, p: nat)
    requires p < |ts| && ts[p].fb == fb && forall j :: 0 <= j < p ==> ts[j].fb != fb
    ensures Remove(ts, fb) == ts[..p] + ts[p + 1..]
  {
    if p > 0 {
      RemoveAt(ts[1..], fb, p - 1);
      assert ts[..p] == [ts[0]] + ts[1..][..p - 1];
      assert ts[1..][p..] == ts[p + 1..];
    }
  }

  lemma {:induction false} RemoveMissing(ts: seq<Timed>, fb: nat)
    requires forall j :: 0 <= j < |ts| ==> ts[j].fb != fb
    ensures Remove(ts, fb) == ts
  {
    if ts != [] {
      RemoveMissing(ts[1..], fb);
    }
  }

  // ---- what a list keeps ----

  predicate Mentions(ts: seq<Timed>, fb: nat) {
    exists i :: 0 <= i < |ts| && ts[i].fb == fb
  }

  lemma {:induction false} InsertMembers(ts: seq<Timed>, x: Timed, y: Timed)
    ensures y in Insert(ts, x) <==> y == x || y in ts
  {
    if !(ts == [] || ts[0].due > x.due) {
      InsertMembers(ts[1..], x, y);
      assert ts == [ts[0]] + ts[1..];
    }
  }

  lemma {:induction false} InsertKeeps(ts: seq<Timed>, x: Timed)
    requires Sorted(ts)
    ensures Sorted(Insert(ts, x))
    ensures Distinct(ts) && !Mentions(ts, x.fb) ==> Distinct(Insert(ts, x))
  {
    if !(ts == [] || ts[0].due > x.due) {
      var r := Insert(ts[1..], x);
      InsertKeeps(ts[1..], x);
      forall i | 0 <= i < |r|
        ensures ts[0].due <= r[i].due
        ensures Distinct(ts) && !Mentions(ts, x.fb) ==> ts[0].fb != r[i].fb
      {
        InsertMembers(ts[1..], x, r[i]);
        assert r[i] in r;
      }
    }
  }

  lemma InsertAllAfter(now: int, ts: seq<Timed>, x: Timed)
    requires AllAfter(now, ts) && x.due > now
    ensures AllAfter(now, Insert(ts, x))
  {
    var r := Insert(ts, x);
    forall i | 0 <= i < |r| ensures r[i].due > now {
      InsertMembers(ts, x, r[i]);
      assert r[i] in r;
    }
  }

  /** Unregistering takes out the block's entry and nothing else. */
  lemma {:induction false} RemoveMembers(ts: seq<Timed>, fb: nat, y: Timed)
    requires Distinct(ts)
    ensures y in Remove(ts, fb) <==> y in ts && y.fb != fb
  {
    if ts != [] {
      assert ts == [ts[0]] + ts[1..];
      if ts[0].fb != fb {
        RemoveMembers(ts[1..], fb, y);
      }
    }
  }

  lemma {:induction false} RemoveKeeps(ts: seq<Timed>, fb: nat)
    ensures Sorted(ts) ==> Sorted(Remove(ts, fb))
    ensures Distinct(ts) ==> Distinct(Remove(ts, fb)) && !Mentions(Remove(ts, fb), fb)
    ensures forall now :: AllAfter(now, ts) ==> AllAfter(now, Remove(ts, fb))
  {
    if Mentions(ts, fb) {
      var p := First(ts, fb);
      RemoveAt(ts, fb, p);
      DroppingKeeps(ts, p);
    } else {
      RemoveMissing(ts, fb);
    }
  }

  lemma DroppingKeeps(ts: seq<Timed>, p: nat)
    requires p < |ts|
    ensures var r := ts[..p] + ts[p + 1..];
      && (Sorted(ts) ==> Sorted(r))
      && (Distinct(ts) ==> Distinct(r) && !Mentions(r, ts[p].fb))
      && (forall now :: AllAfter(now, ts) ==> AllAfter(now, r))
  {
    var r := ts[..p] + ts[p + 1..];
    assert forall j :: 0 <= j < |r| ==> r[j] == if j < p then ts[j] else ts[j + 1];
  }

  lemma {:induction false} First(ts: seq<Timed>, fb: nat) returns (p: nat)
    requires Mentions(ts, fb)
    ensures p < |ts| && ts[p].fb == fb && forall j :: 0 <= j < p ==> ts[j].fb != fb
  {
    if ts[0].fb == fb {
      p := 0;
    } else {
      p := First(ts[1..], fb);
      p := p + 1;
    }
  }

  // ---- the sweep in closed form ----

  /** Re-insertion of the periodic ones of the fired entries, in the order of firing. */
  function InsertRenewed(tps: nat, now: nat, ts: seq<Timed>, fired: seq<Timed>): seq<Timed>
    decreases |fired|
  {
    if fired == [] then ts
    else InsertRenewed(tps, now,
      if fired[0].periodic then Insert(ts, Renewed(tps, now, fired[0])) else ts, fired[1..])
  }

  function Blocks(ts: seq<Timed>): (fbs: seq<nat>)
    ensures |fbs| == |ts| && forall i :: 0 <= i < |ts| ==> fbs[i] == ts[i].fb
  {
    seq(|ts|, i requires 0 <= i < |ts| => ts[i].fb)
  }

  lemma {:induction false} InsertBehind(a: seq<Timed>, b: seq<Timed>, x: Timed)
    requires forall i :: 0 <= i < |a| ==> a[i].due <= x.due
    ensures Insert(a + b, x) == a + Insert(b, x)
  {
    if a == [] {
      assert a + b == b;
    } else {
      assert (a + b)[1..] == a[1..] + b;
      InsertBehind(a[1..], b, x);
    }
  }

  /** One sweep fires every due entry exactly once, in list order, and then holds what was not
      due together with the re-registered periodic entries. */
  lemma {:induction false} SweepClosedForm(tps: nat, now: nat, due: seq<Timed>, later: seq<Timed>)
    requires (forall i :: 0 <= i < |due| ==> due[i].due <= now) && AllAfter(now, later)
    ensures Sweep(tps, now, due + later) == Swept(Blocks(due), InsertRenewed(tps, now, later, due))
    decreases |due|
  {
    var ts := due + later;
    if due == [] {
      assert ts == later;
    } else {
      var x := Renewed(tps, now, due[0]);
      assert ts[1..] == due[1..] + later;
      InsertBehind(due[1..], later, x);
      if due[0].periodic {
        InsertAllAfter(now, later, x);
        SweepClosedForm(tps, now, due[1..], Insert(later, x));
      } else {
        SweepClosedForm(tps, now, due[1..], later);
      }
      assert Blocks(due) == [due[0].fb] + Blocks(due[1..]);
    }
  }

  /** A sorted list is its due part followed by the part that is not due. */
  lemma SplitByDue(now: nat, ts: seq<Timed>) returns (due: seq<Timed>, later: seq<Timed>)
    requires Sorted(ts)
    ensures ts == due + later
    ensures (forall i :: 0 <= i < |due| ==> due[i].due <= now) && AllAfter(now, later)
  {
    var k := 0;
    while k < |ts| && ts[k].due <= now
      invariant k <= |ts| && forall i :: 0 <= i < k ==> ts[i].due <= now
    {
      k := k + 1;
    }
    due, later := ts[..k], ts[k..];
    if k < |ts| {
      AllBehind(ts, k, now);
    }
  }

  lemma AllBehind(ts: seq<Timed>, k: nat, now: nat)
    requires Sorted(ts) && k < |ts| && ts[k].due > now
    ensures AllAfter(now, ts[k..])
  {
    forall i | 0 <= i < |ts[k..]| ensures ts[k..][i].due > now {
      assert i > 0 ==> ts[k].due <= ts[k + i].due;
    }
  }

  lemma DistinctParts(fired: seq<Timed>, ts: seq<Timed>, fb: nat)
    requires Distinct(fired + ts) && fired != [] && fired[0].fb == fb
    ensures Distinct(ts) && Distinct(fired[1..]) && !Mentions(ts, fb) && !Mentions(fired[1..], fb)
    ensures forall i :: 0 < i < |fired| ==> !Mentions(ts, fired[i].fb)
  {
    var all := fired + ts;
    assert forall j :: 0 <= j < |ts| ==> all[|fired| + j] == ts[j];
    assert forall i :: 0 <= i < |fired| ==> all[i] == fired[i];
  }

  /** A list of old blocks and one more, each once, behind others. */
  lemma DistinctAgain(others: seq<Timed>, ts: seq<Timed>, fb: nat, ts': seq<Timed>)
    requires Distinct(others) && Distinct(ts') && !Mentions(others, fb)
    requires forall i :: 0 <= i < |others| ==> !Mentions(ts, others[i].fb)
    requires forall y :: y in ts' ==> y.fb == fb || Mentions(ts, y.fb)
    ensures Distinct(others + ts')
  {
    forall i, j | 0 <= i < |others| && 0 <= j < |ts'| ensures others[i].fb != ts'[j].fb {
      assert ts'[j] in ts' && !Mentions(ts, others[i].fb);
    }
  }

  lemma {:induction false} RenewedKeeps(tps: nat, now: nat, ts: seq<Timed>, fired: seq<Timed>)
    requires Sorted(ts) && AllAfter(now, ts)
    requires Distinct(fired + ts)
    ensures var r := InsertRenewed(tps, now, ts, fired);
      Sorted(r) && AllAfter(now, r) && Distinct(r)
    decreases |fired|
  {
    if fired == [] {
      assert fired + ts == ts;
    } else {
      var x := Renewed(tps, now, fired[0]);
      DistinctParts(fired, ts, x.fb);
      InsertKeeps(ts, x);
      InsertAllAfter(now, ts, x);
      var ts' := if fired[0].periodic then Insert(ts, x) else ts;
      forall y | y in ts' ensures y.fb == x.fb || Mentions(ts, y.fb) {
        InsertMembers(ts, x, y);
      }
      DistinctAgain(fired[1..], ts, x.fb, ts');
      hide Sorted, Distinct, AllAfter, Insert, Mentions;
      RenewedKeeps(tps, now, ts', fired[1..]);
    }
  }

  lemma {:induction false} RenewedMembers(tps: nat, now: nat, ts: seq<Timed>, fired: seq<Timed>, y: Timed)
    ensures y in InsertRenewed(tps, now, ts, fired) <==>
      y in ts || exists i :: 0 <= i < |fired| && fired[i].periodic && y == Renewed(tps, now, fired[i])
    decreases |fired|
  {
    if fired != [] {
      var x := Renewed(tps, now, fired[0]);
      InsertMembers(ts, x, y);
      RenewedMembers(tps, now, if fired[0].periodic then Insert(ts, x) else ts, fired[1..], y);
      assert forall i :: 0 < i < |fired| ==> fired[i] == fired[1..][i - 1];
    }
  }

  /** After a sweep the list is sorted, without double registrations, and nothing in it is due. */
  lemma SweepKeeps(tps: nat, now: nat, ts: seq<Timed>)
    requires Sorted(ts) && Distinct(ts)
    ensures var s := Sweep(tps, now, ts);
      Sorted(s.list) && Distinct(s.list) && AllAfter(now, s.list)
  {
    var due, later := SplitByDue(now, ts);
    SweepClosedForm(tps, now, due, later);
    assert forall j :: 0 <= j < |later| ==> later[j] == ts[|due| + j];
    RenewedKeeps(tps, now, later, due);
  }
}
