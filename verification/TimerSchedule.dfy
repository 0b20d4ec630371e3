/** Every run of the timer: when registered function blocks are fired. */
module TimerSchedule {
  import opened Sequences
  import opened TimerList

  /** One activation of a function block. */
  datatype Fired = Fired(fb: nat, at: nat)

  /** A tick first advances the clock, without the lock, and then sweeps the list under the lock;
      registrations can come between the two. Sweeping tells that the second half is outstanding. */
  datatype State = State(tps: nat, now: nat, sweeping: bool, list: seq<Timed>)

  datatype Op =
    | Advance
    | SweepList
    | Register(fb: nat, interval: nat, periodic: bool)
    | Unregister(fb: nat)

  /** The two halves of a tick alternate, and a block is registered at most once at a time: the
      activity flag of CTimedFB sees to that. */
  predicate Enabled(s: State, op: Op) {
    match op
    case Advance => !s.sweeping
    case SweepList => s.sweeping
    case Register(fb, _, _) => !Mentions(s.list, fb)
    case Unregister(_) => true
  }

  function FiredAt(fbs: seq<nat>, now: nat): (r: seq<Fired>)
    ensures |r| == |fbs|
  {
    seq(|fbs|, i requires 0 <= i < |fbs| => Fired(fbs[i], now))
  }

  function Apply(s: State, op: Op): State
    requires Enabled(s, op)
  {
    match op
    case Advance => s.(now := s.now + 1, sweeping := true)
    case SweepList => s.(list := Sweep(s.tps, s.now, s.list).list, sweeping := false)
    case Register(fb, interval, periodic) =>
      s.(list := Insert(s.list, Timed(fb, s.now + Delay(s.tps, interval), interval, periodic)))
    case Unregister(fb) => s.(list := Remove(s.list, fb))
  }

  predicate Executable(s: State, run: seq<Op>)
    decreases |run|
  {
    run == [] || (Enabled(s, run[0]) && Executable(Apply(s, run[0]), run[1..]))
  }

  function After(s: State, run: seq<Op>): State
    requires Executable(s, run)
    decreases |run|
  {
    if run == [] then s else After(Apply(s, run[0]), run[1..])
  }

  /** The activations that one operation, and a whole run, cause. */
  function Firing(s: State, op: Op): seq<Fired> {
    if op == SweepList then FiredAt(Sweep(s.tps, s.now, s.list).fired, s.now) else []
  }

  function Log(s: State, run: seq<Op>): seq<Fired>
    requires Executable(s, run)
    decreases |run|
  {
    if run == [] then [] else Firing(s, run[0]) + Log(Apply(s, run[0]), run[1..])
  }

  lemma FirstStep(s: State, run: seq<Op>)
    requires run != []
    ensures Executable(s, run) <==> Enabled(s, run[0]) && Executable(Apply(s, run[0]), run[1..])
    ensures Executable(s, run) ==>
      && Log(s, run) == Firing(s, run[0]) + Log(Apply(s, run[0]), run[1..])
      && After(s, run) == After(Apply(s, run[0]), run[1..])
  {
  }

  /** The time up to which the list has been swept. */
  function SweptTo(s: State): int {
    if s.sweeping then s.now - 1 else s.now
  }

  predicate Inv(s: State) {
    Sorted(s.list) && Distinct(s.list) && AllAfter(SweptTo(s), s.list)
  }

  lemma StepKeepsInv(s: State, op: Op)
    requires Inv(s) && Enabled(s, op)
    ensures Inv(Apply(s, op))
  {
    match op
    case Advance =>
    case SweepList => SweepKeeps(s.tps, s.now, s.list);
    case Register(fb, interval, periodic) =>
      var x := Timed(fb, s.now + Delay(s.tps, interval), interval, periodic);
      InsertKeeps(s.list, x);
      InsertAllAfter(SweptTo(s), s.list, x);
    case Unregister(fb) => RemoveKeeps(s.list, fb);
  }

  // ---- the firing times of one block ----

  function TimesOf(log: seq<Fired>, fb: nat): seq<nat> {
    if log == [] then []
    else TimesOf(log[..|log| - 1], fb) + if log[|log| - 1].fb == fb then [log[|log| - 1].at] else []
  }

  lemma {:induction false} TimesAppend(a: seq<Fired>, b: seq<Fired>, fb: nat)
    ensures TimesOf(a + b, fb) == TimesOf(a, fb) + TimesOf(b, fb)
    decreases |b|
  {
    if b == [] {
      assert a + b == a;
    } else {
      var last := |b| - 1;
      assert (a + b)[..|a + b| - 1] == a + b[..last];
      TimesAppend(a, b[..last], fb);
    }
  }

  /** A block that is fired by a sweep at most once contributes that one time. */
  lemma {:induction false} TimesOfSweep(fbs: seq<nat>, now: nat, fb: nat)
    requires forall i, j :: 0 <= i < j < |fbs| ==> fbs[i] != fbs[j]
    ensures TimesOf(FiredAt(fbs, now), fb) == if fb in fbs then [now] else []
  {
    if fbs != [] {
      var last := |fbs| - 1;
      assert FiredAt(fbs, now)[..last] == FiredAt(fbs[..last], now);
      assert fbs == fbs[..last] + [fbs[last]];
      TimesOfSweep(fbs[..last], now, fb);
    }
  }

  /** What one sweep does to one registered block. */
  lemma SweepOfEntry(s: State, x: Timed)
    requires Inv(s) && s.sweeping && x in s.list
    ensures var t := Apply(s, SweepList);
      && TimesOf(Firing(s, SweepList), x.fb) == (if x.due == s.now then [s.now] else [])
      && (x.due > s.now ==> x in t.list)
      && (x.due == s.now && x.periodic ==> Renewed(s.tps, s.now, x) in t.list)
      && (x.due == s.now && !x.periodic ==> !Mentions(t.list, x.fb))
  {
    var due, later := SplitByDue(s.now, s.list);
    SweepClosedForm(s.tps, s.now, due, later);
    var fired := Blocks(due);
    assert forall i :: 0 <= i < |due| ==> due[i] == s.list[i];
    assert forall i :: 0 <= i < |later| ==> later[i] == s.list[|due| + i];
    TimesOfSweep(fired, s.now, x.fb);
    var t := Apply(s, SweepList);
    RenewedMembers(s.tps, s.now, later, due, x);
    RenewedMembers(s.tps, s.now, later, due, Renewed(s.tps, s.now, x));
    var p :| 0 <= p < |s.list| && s.list[p] == x;
    if x.due == s.now {
      assert p < |due| && due[p] == x && fired[p] == x.fb;
      if !x.periodic {
        GoneFromList(s, x, due, later, p);
      }
    } else {
      assert p >= |due| && later[p - |due|] == x;
      assert forall i :: 0 <= i < |due| ==> fired[i] != x.fb;
    }
  }

  lemma GoneFromList(s: State, x: Timed, due: seq<Timed>, later: seq<Timed>, p: nat)
    requires Distinct(s.list) && s.list == due + later && p < |due| && due[p] == x && !x.periodic
    ensures !Mentions(InsertRenewed(s.tps, s.now, later, due), x.fb)
  {
    var r := InsertRenewed(s.tps, s.now, later, due);
    forall i | 0 <= i < |r| ensures r[i].fb != x.fb {
      RenewedMembers(s.tps, s.now, later, due, r[i]);
      assert r[i] in r;
      assert forall j :: 0 <= j < |due| ==> due[j] == s.list[j];
      assert forall j :: 0 <= j < |later| ==> later[j] == s.list[|due| + j];
    }
  }

  /** A block that is not registered is not fired, and a sweep does not register it. */
  lemma SweepOfStranger(s: State, fb: nat)
    requires Inv(s) && s.sweeping && !Mentions(s.list, fb)
    ensures var t := Apply(s, SweepList);
      && TimesOf(Firing(s, SweepList), fb) == []
      && !Mentions(t.list, fb)
  {
    var due, later := SplitByDue(s.now, s.list);
    SweepClosedForm(s.tps, s.now, due, later);
    NotAmong(s.list, due, later, fb);
    TimesOfSweep(Blocks(due), s.now, fb);
    StaysOut(s.tps, s.now, due, later, fb);
  }

  lemma NotAmong(ts: seq<Timed>, due: seq<Timed>, later: seq<Timed>, fb: nat)
    requires ts == due + later && Distinct(ts) && !Mentions(ts, fb)
    ensures var fired := Blocks(due);
      fb !in fired && forall i, j :: 0 <= i < j < |fired| ==> fired[i] != fired[j]
    ensures !Mentions(due, fb) && !Mentions(later, fb)
  {
    assert forall i :: 0 <= i < |due| ==> due[i] == ts[i];
    assert forall i :: 0 <= i < |later| ==> later[i] == ts[|due| + i];
  }

  lemma StaysOut(tps: nat, now: nat, due: seq<Timed>, later: seq<Timed>, fb: nat)
    requires !Mentions(due, fb) && !Mentions(later, fb)
    ensures !Mentions(InsertRenewed(tps, now, later, due), fb)
  {
    var r := InsertRenewed(tps, now, later, due);
    forall i | 0 <= i < |r| ensures r[i].fb != fb {
      RenewedMembers(tps, now, later, due, r[i]);
      assert r[i] in r;
    }
  }

  // ---- exact schedules ----

  /** due, due + d, due + 2d, ... as far as the time upTo */
  function TimesFrom(due: nat, d: nat, upTo: int): seq<nat>
    requires d > 0
    decreases upTo - due
  {
    if due > upTo then [] else [due] + TimesFrom(due + d, d, upTo)
  }

  /** Operations that leave the registration of one block alone. */
  predicate Spares(run: seq<Op>, fb: nat) {
    forall i :: 0 <= i < |run| ==> run[i] != Unregister(fb) && !(run[i].Register? && run[i].fb == fb)
  }

  lemma OtherOpsKeepEntry(s: State, op: Op, x: Timed)
    requires Inv(s) && Enabled(s, op) && x in s.list && !op.SweepList? && Spares([op], x.fb)
    ensures x in Apply(s, op).list
  {
    assert [op][0] == op;
    match op
    case Register(fb, interval, periodic) =>
      InsertMembers(s.list, Timed(fb, s.now + Delay(s.tps, interval), interval, periodic), x);
    case Unregister(fb) => RemoveMembers(s.list, fb, x);
    case _ =>
  }

  lemma OtherOpsKeepStranger(s: State, op: Op, fb: nat)
    requires Inv(s) && Enabled(s, op) && !Mentions(s.list, fb) && !op.SweepList? && Spares([op], fb)
    ensures !Mentions(Apply(s, op).list, fb)
  {
    assert [op][0] == op;
    var l := Apply(s, op).list;
    forall i | 0 <= i < |l| ensures l[i].fb != fb {
      assert l[i] in l;
      match op
      case Register(other, interval, periodic) =>
        InsertMembers(s.list, Timed(other, s.now + Delay(s.tps, interval), interval, periodic), l[i]);
      case Unregister(other) => RemoveMembers(s.list, other, l[i]);
      case _ =>
    }
  }

  lemma {:induction false} SweptToGrows(s: State, run: seq<Op>)
    requires Executable(s, run)
    ensures SweptTo(After(s, run)) >= SweptTo(s) && After(s, run).tps == s.tps
    decreases |run|
  {
    if run != [] {
      SweptToGrows(Apply(s, run[0]), run[1..]);
    }
  }

  lemma NotYetDue(s: State, x: Timed)
    requires Inv(s) && x in s.list
    ensures x.due > SweptTo(s)
  {
    var p :| 0 <= p < |s.list| && s.list[p] == x;
  }

  /** One step of a run, as a registered periodic block sees it. */
  lemma PeriodicStep(s: State, op: Op, x: Timed) returns (y: Timed)
    requires Inv(s) && Enabled(s, op) && Spares([op], x.fb) && x in s.list && x.periodic
    ensures var t, rings := Apply(s, op), op == SweepList && x.due == s.now;
      && y in t.list && y.fb == x.fb && y.interval == x.interval && y.periodic
      && y.due == (if rings then x.due + Delay(s.tps, x.interval) else x.due)
      && TimesOf(Firing(s, op), x.fb) == (if rings then [x.due] else [])
      && (rings ==> x.due <= SweptTo(t))
  {
    y := x;
    NotYetDue(s, x);
    if op == SweepList {
      SweepOfEntry(s, x);
      y := if x.due == s.now then Renewed(s.tps, s.now, x) else x;
    } else {
      OtherOpsKeepEntry(s, op, x);
    }
  }

  /** A registered periodic block is fired at its due time and then every d ticks, over the whole
      of any run that leaves its registration alone. */
  lemma {:induction false} PeriodicTimes(s: State, run: seq<Op>, x: Timed)
    requires Inv(s) && Executable(s, run) && Spares(run, x.fb) && x in s.list && x.periodic
    ensures TimesOf(Log(s, run), x.fb) == TimesFrom(x.due, Delay(s.tps, x.interval), SweptTo(After(s, run)))
    decreases |run|
  {
    if run == [] {
      NotYetDue(s, x);
    } else {
      assert Spares([run[0]], x.fb) && Spares(run[1..], x.fb);
      hide Inv, Apply, Firing, TimesOf, SweptTo, Delay, Spares, Executable, Log, After;
      var op, rest := run[0], run[1..];
      FirstStep(s, run);
      var next := Apply(s, op);
      StepKeepsInv(s, op);
      TimesAppend(Firing(s, op), Log(next, rest), x.fb);
      SweptToGrows(next, rest);
      SweptToGrows(s, run);
      var y := PeriodicStep(s, op, x);
      PeriodicTimes(next, rest, y);
    }
  }

  /** A block that is not registered is not fired. */
  lemma {:induction false} StrangerTimes(s: State, run: seq<Op>, fb: nat)
    requires Inv(s) && Executable(s, run) && Spares(run, fb) && !Mentions(s.list, fb)
    ensures TimesOf(Log(s, run), fb) == []
    decreases |run|
  {
    if run != [] {
      var op, rest := run[0], run[1..];
      StepKeepsInv(s, op);
      TimesAppend(Firing(s, op), Log(Apply(s, op), rest), fb);
      if op == SweepList {
        SweepOfStranger(s, fb);
      } else {
        assert Spares([op], fb);
        OtherOpsKeepStranger(s, op, fb);
      }
      StrangerTimes(Apply(s, op), rest, fb);
    }
  }

  /** A registered single-shot block is fired once, at its due time. */
  lemma {:induction false} SingleShotTimes(s: State, run: seq<Op>, x: Timed)
    requires Inv(s) && Executable(s, run) && Spares(run, x.fb) && x in s.list && !x.periodic
    ensures TimesOf(Log(s, run), x.fb) == if x.due <= SweptTo(After(s, run)) then [x.due] else []
    decreases |run|
  {
    NotYetDue(s, x);
    if run != [] {
      var op, rest := run[0], run[1..];
      var next := Apply(s, op);
      StepKeepsInv(s, op);
      TimesAppend(Firing(s, op), Log(next, rest), x.fb);
      SweptToGrows(next, rest);
      if op == SweepList {
        SweepOfEntry(s, x);
        if x.due == s.now {
          StrangerTimes(next, rest, x.fb);
        } else {
          SingleShotTimes(next, rest, x);
        }
      } else {
        assert Spares([op], x.fb);
        OtherOpsKeepEntry(s, op, x);
        SingleShotTimes(next, rest, x);
      }
    }
  }

  /** The i-th of the times is due + i * d, and they are as many as fit before upTo. */
  lemma {:induction false} TimesAreMultiples(due: nat, d: nat, upTo: int)
    requires d > 0
    ensures var times := TimesFrom(due, d, upTo);
      && (forall i :: 0 <= i < |times| ==> times[i] == due + i * d)
      && due + |times| * d > upTo
      && (times != [] ==> due + (|times| - 1) * d <= upTo)
    decreases upTo - due
  {
    if due <= upTo {
      TimesAreMultiples(due + d, d, upTo);
      var rest := TimesFrom(due + d, d, upTo);
      assert forall i :: 0 <= i < |rest| ==> rest[i] == due + (i + 1) * d;
      assert due + d + |rest| * d == due + (|rest| + 1) * d;
      assert rest != [] ==> due + d + (|rest| - 1) * d == due + |rest| * d;
    }
  }

  lemma FirstOp(s: State, op: Op, run: seq<Op>)
    requires Executable(s, [op] + run) && !op.SweepList?
    ensures Enabled(s, op) && Executable(Apply(s, op), run)
    ensures Log(s, [op] + run) == Log(Apply(s, op), run) && After(s, [op] + run) == After(Apply(s, op), run)
  {
    assert ([op] + run)[0] == op && ([op] + run)[1..] == run;
    assert Firing(s, op) + Log(Apply(s, op), run) == Log(Apply(s, op), run);
  }

  lemma DelayMeans(tps: nat, interval: nat)
    ensures Delay(tps, interval) == if interval > 0 then interval else if tps > 100 then tps / 100 else 1
  {
  }

  /** Exact schedule. A block registered at time r with interval d, over any run in which other
      blocks come and go as they please, is fired exactly at r + d, r + 2d, ... up to the time
      that has been swept if it is periodic, and exactly once at r + d if it is not. For a null
      interval d is a hundredth of a second, or one tick if ticks are longer than that. */
  lemma ExactSchedule(s: State, fb: nat, interval: nat, periodic: bool, run: seq<Op>)
    requires Inv(s) && Enabled(s, Register(fb, interval, periodic))
    requires Executable(s, [Register(fb, interval, periodic)] + run) && Spares(run, fb)
    ensures var all := [Register(fb, interval, periodic)] + run;
      var d := if interval > 0 then interval else if s.tps > 100 then s.tps / 100 else 1;
      var times, upTo := TimesOf(Log(s, all), fb), SweptTo(After(s, all));
      times == if periodic then TimesFrom(s.now + d, d, upTo)
        else if s.now + d <= upTo then [s.now + d] else []
  {
    hide Inv, Insert, Executable, Log, After, TimesOf, TimesFrom, Delay, Mentions;
    var op := Register(fb, interval, periodic);
    var x := Timed(fb, s.now + Delay(s.tps, interval), interval, periodic);
    var next := Apply(s, op);
    DelayMeans(s.tps, interval);
    FirstOp(s, op, run);
    StepKeepsInv(s, op);
    InsertMembers(s.list, x, x);
    if periodic {
      PeriodicTimes(next, run, x);
    } else {
      SingleShotTimes(next, run, x);
    }
  }

  lemma {:induction false} RunAppend(s: State, a: seq<Op>, b: seq<Op>)
    ensures Executable(s, a + b) <==> Executable(s, a) && Executable(After(s, a), b)
    ensures Executable(s, a + b) ==> After(s, a + b) == After(After(s, a), b)
    decreases |a|
  {
    if a == [] {
      assert a + b == b;
    } else {
      assert (a + b)[0] == a[0] && (a + b)[1..] == a[1..] + b;
      FirstStep(s, a + b);
      FirstStep(s, a);
      hide Executable, After, Apply, Enabled;
      if Enabled(s, a[0]) {
        RunAppend(Apply(s, a[0]), a[1..], b);
      }
    }
  }

  lemma {:induction false} LogAppend(s: State, a: seq<Op>, b: seq<Op>)
    requires Executable(s, a + b) && Executable(s, a) && Executable(After(s, a), b)
    ensures Log(s, a + b) == Log(s, a) + Log(After(s, a), b)
    decreases |a|
  {
    if a == [] {
      assert a + b == b;
    } else {
      assert (a + b)[0] == a[0] && (a + b)[1..] == a[1..] + b;
      FirstStep(s, a + b);
      FirstStep(s, a);
      hide Executable, After, Log, Apply, Firing, Enabled;
      var next, first := Apply(s, a[0]), Firing(s, a[0]);
      LogAppend(next, a[1..], b);
      Regroup(first, Log(next, a[1..]), Log(After(s, a), b));
    }
  }

  lemma {:induction false} RunKeepsInv(s: State, run: seq<Op>)
    requires Inv(s) && Executable(s, run)
    ensures Inv(After(s, run))
    decreases |run|
  {
    hide Inv;
    if run != [] {
      StepKeepsInv(s, run[0]);
      RunKeepsInv(Apply(s, run[0]), run[1..]);
    }
  }

  lemma Unregistered(s: State, fb: nat)
    requires Inv(s)
    ensures !Mentions(Apply(s, Unregister(fb)).list, fb)
  {
    RemoveKeeps(s.list, fb);
  }

  /** Unregistering ends a schedule: a block registered at time r is fired at its times up to what
      had been swept when it was unregistered, and not again. */
  lemma ScheduleEnds(s: State, fb: nat, interval: nat, periodic: bool, run: seq<Op>, rest: seq<Op>)
    requires Inv(s) && Spares(run, fb) && Spares(rest, fb)
    requires Executable(s, [Register(fb, interval, periodic)] + run + ([Unregister(fb)] + rest))
    ensures var on := [Register(fb, interval, periodic)] + run;
      && Executable(s, on)
      && var d := if interval > 0 then interval else if s.tps > 100 then s.tps / 100 else 1;
        var times, upTo := TimesOf(Log(s, on + ([Unregister(fb)] + rest)), fb), SweptTo(After(s, on));
        times == if periodic then TimesFrom(s.now + d, d, upTo)
          else if s.now + d <= upTo then [s.now + d] else []
  {
    hide Inv, TimesFrom, TimesOf, Remove, Insert, Sweep, Spares, SweptTo;
    var on, off := [Register(fb, interval, periodic)] + run, [Unregister(fb)] + rest;
    RunAppend(s, on, off);
    LogAppend(s, on, off);
    RunKeepsInv(s, on);
    FirstOp(s, Register(fb, interval, periodic), run);
    ExactSchedule(s, fb, interval, periodic, run);
    var t := After(s, on);
    FirstOp(t, Unregister(fb), rest);
    StepKeepsInv(t, Unregister(fb));
    Unregistered(t, fb);
    StrangerTimes(Apply(t, Unregister(fb)), rest, fb);
    TimesAppend(Log(s, on), Log(t, off), fb);
    assert TimesOf(Log(s, on), fb) + [] == TimesOf(Log(s, on), fb);
  }

  // ---- the timer as one alarm clock for each block ----

  /** What a block would need if it had a timer of its own. */
  datatype Alarm = Off | On(due: nat, interval: nat, periodic: bool)

  function SetBy(a: Alarm, tps: nat, now: nat, fb: nat, op: Op): Alarm {
    match op
    case Advance => a
    case SweepList =>
      if a == Off || a.due > now then a
      else if a.periodic then a.(due := now + Delay(tps, a.interval)) else Off
    case Register(b, interval, periodic) =>
      if b == fb then On(now + Delay(tps, interval), interval, periodic) else a
    case Unregister(b) => if b == fb then Off else a
  }

  function RingsAt(a: Alarm, now: nat, op: Op): seq<nat> {
    if op == SweepList && a != Off && a.due <= now then [now] else []
  }

  /** The times at which such an alarm clock rings over a run. */
  function RingTimes(a: Alarm, tps: nat, now: nat, fb: nat, run: seq<Op>): seq<nat>
    decreases |run|
  {
    if run == [] then []
    else
      RingsAt(a, now, run[0])
      + RingTimes(SetBy(a, tps, now, fb, run[0]), tps, if run[0] == Advance then now + 1 else now, fb, run[1..])
  }

  function AlarmAfter(a: Alarm, tps: nat, now: nat, fb: nat, run: seq<Op>): Alarm
    decreases |run|
  {
    if run == [] then a
    else AlarmAfter(SetBy(a, tps, now, fb, run[0]), tps, if run[0] == Advance then now + 1 else now, fb, run[1..])
  }

  /** An alarm that is set at time r is on for r + d, and goes on in steps of d. */
  lemma AlarmIsSet(a: Alarm, tps: nat, now: nat, fb: nat, interval: nat, periodic: bool)
    ensures var d := if interval > 0 then interval else if tps > 100 then tps / 100 else 1;
      && SetBy(a, tps, now, fb, Register(fb, interval, periodic)) == On(now + d, interval, periodic)
      && SetBy(On(now, interval, true), tps, now, fb, SweepList) == On(now + d, interval, true)
  {
  }

  lemma FirstRing(a: Alarm, tps: nat, now: nat, fb: nat, run: seq<Op>)
    requires run != []
    ensures var op := run[0];
      var b, later := SetBy(a, tps, now, fb, op), if op == Advance then now + 1 else now;
      && RingTimes(a, tps, now, fb, run) == RingsAt(a, now, op) + RingTimes(b, tps, later, fb, run[1..])
      && AlarmAfter(a, tps, now, fb, run) == AlarmAfter(b, tps, later, fb, run[1..])
  {
  }

  lemma NextOp(s: State, op: Op)
    requires Enabled(s, op)
    ensures var t := Apply(s, op); t.tps == s.tps && t.now == if op == Advance then s.now + 1 else s.now
  {
  }

  /** The entry of the block in the common list is its alarm. */
  predicate Shows(s: State, fb: nat, a: Alarm) {
    match a
    case Off => !Mentions(s.list, fb)
    case On(due, interval, periodic) => Timed(fb, due, interval, periodic) in s.list
  }

  lemma SweepIsAlarm(s: State, fb: nat, a: Alarm)
    requires Inv(s) && s.sweeping && Shows(s, fb, a)
    ensures TimesOf(Firing(s, SweepList), fb) == RingsAt(a, s.now, SweepList)
    ensures Shows(Apply(s, SweepList), fb, SetBy(a, s.tps, s.now, fb, SweepList))
  {
    hide Sweep, Mentions;
    match a
    case Off => SweepOfStranger(s, fb);
    case On(due, interval, periodic) =>
      var x := Timed(fb, due, interval, periodic);
      NotYetDue(s, x);
      hide Inv;
      SweepOfEntry(s, x);
  }

  lemma OtherOpIsAlarm(s: State, op: Op, fb: nat, a: Alarm)
    requires Inv(s) && Enabled(s, op) && !op.SweepList? && Shows(s, fb, a)
    ensures Shows(Apply(s, op), fb, SetBy(a, s.tps, s.now, fb, op))
  {
    hide Inv, Insert, Remove, Sweep, Mentions;
    if Spares([op], fb) {
      assert [op][0] == op;
      match a
      case Off => OtherOpsKeepStranger(s, op, fb);
      case On(due, interval, periodic) => OtherOpsKeepEntry(s, op, Timed(fb, due, interval, periodic));
    } else if op.Register? {
      var x := Timed(fb, s.now + Delay(s.tps, op.interval), op.interval, op.periodic);
      InsertMembers(s.list, x, x);
    } else {
      Unregistered(s, fb);
    }
  }

  /** No interference. Over every run, with registrations and unregistrations of this and of all
      other blocks in any order, the common list fires a block exactly when an alarm clock of its
      own would ring. */
  lemma {:induction false} FiresLikeItsOwnAlarm(s: State, run: seq<Op>, fb: nat, a: Alarm)
    requires Inv(s) && Executable(s, run) && Shows(s, fb, a)
    ensures TimesOf(Log(s, run), fb) == RingTimes(a, s.tps, s.now, fb, run)
    ensures Shows(After(s, run), fb, AlarmAfter(a, s.tps, s.now, fb, run))
    decreases |run|
  {
    if run != [] {
      var op, rest := run[0], run[1..];
      FirstStep(s, run);
      FirstRing(a, s.tps, s.now, fb, run);
      NextOp(s, op);
      hide Inv, Apply, Firing, TimesOf, Shows, SetBy, RingsAt, Executable, Log, After, RingTimes, AlarmAfter;
      var next := Apply(s, op);
      StepKeepsInv(s, op);
      TimesAppend(Firing(s, op), Log(next, rest), fb);
      if op == SweepList {
        SweepIsAlarm(s, fb, a);
      } else {
        OtherOpIsAlarm(s, op, fb, a);
      }
      FiresLikeItsOwnAlarm(next, rest, fb, SetBy(a, s.tps, s.now, fb, op));
    }
  }

  /** The state in which the timer starts. */
  function Initial(tps: nat): State {
    State(tps, 0, false, [])
  }

  /** From the start of the timer: every block, over every run. */
  lemma FiringTimes(tps: nat, run: seq<Op>, fb: nat)
    requires Executable(Initial(tps), run)
    ensures TimesOf(Log(Initial(tps), run), fb) == RingTimes(Off, tps, 0, fb, run)
  {
    FiresLikeItsOwnAlarm(Initial(tps), run, fb, Off);
  }

  // ---- the activity flag of periodic blocks ----

  /** The timer with the blocks whose flag m_bActive is set. */
  datatype Guarded = Guarded(timer: State, active: set<nat>)

  datatype BlockOp =
    | TickHalf
    | StartEvent(fb: nat, interval: nat)
    | StopEvent(fb: nat)  // also the state commands STOP and KILL

  /** The flag tells whether the block is registered. */
  predicate FlagsRight(g: Guarded) {
    && Inv(g.timer)
    && (forall i :: 0 <= i < |g.timer.list| ==> g.timer.list[i].periodic && g.timer.list[i].fb in g.active)
    && (forall fb :: fb in g.active ==> Mentions(g.timer.list, fb))
  }

  /** Events start and stop a block only when the flag says that this is not done already. */
  function ApplyGuarded(g: Guarded, op: BlockOp): Guarded
    requires FlagsRight(g)
  {
    match op
    case TickHalf => g.(timer := Apply(g.timer, if g.timer.sweeping then SweepList else Advance))
    case StartEvent(fb, interval) =>
      if fb in g.active then g
      else Guarded(Apply(g.timer, Register(fb, interval, true)), g.active + {fb})
    case StopEvent(fb) =>
      if fb !in g.active then g else Guarded(Apply(g.timer, Unregister(fb)), g.active - {fb})
  }

  /** The operation on the timer that an event comes to; none if the flag says it is done already. */
  function TimerOps(g: Guarded, op: BlockOp): seq<Op> {
    match op
    case TickHalf => [if g.timer.sweeping then SweepList else Advance]
    case StartEvent(fb, interval) => if fb in g.active then [] else [Register(fb, interval, true)]
    case StopEvent(fb) => if fb !in g.active then [] else [Unregister(fb)]
  }

  lemma SweepKeepsBlocks(s: State, fb: nat)
    requires Inv(s) && s.sweeping && forall i :: 0 <= i < |s.list| ==> s.list[i].periodic
    ensures Mentions(Apply(s, SweepList).list, fb) <==> Mentions(s.list, fb)
    ensures forall x :: x in Apply(s, SweepList).list ==> x.periodic
  {
    if Mentions(s.list, fb) {
      var p :| 0 <= p < |s.list| && s.list[p].fb == fb;
      SweepOfEntry(s, s.list[p]);
      NotYetDue(s, s.list[p]);
      var x := if s.list[p].due == s.now then Renewed(s.tps, s.now, s.list[p]) else s.list[p];
      var q :| 0 <= q < |Apply(s, SweepList).list| && Apply(s, SweepList).list[q] == x;
    } else {
      SweepOfStranger(s, fb);
    }
    var due, later := SplitByDue(s.now, s.list);
    SweepClosedForm(s.tps, s.now, due, later);
    forall x | x in Apply(s, SweepList).list ensures x.periodic {
      RenewedMembers(s.tps, s.now, later, due, x);
      if x in later {
        var q :| 0 <= q < |later| && later[q] == x;
        assert s.list[|due| + q] == x;
      }
    }
  }

  lemma RegisteredBlocks(s: State, fb: nat, interval: nat)
    requires Inv(s) && !Mentions(s.list, fb) && forall i :: 0 <= i < |s.list| ==> s.list[i].periodic
    ensures var l := Apply(s, Register(fb, interval, true)).list;
      && (forall i :: 0 <= i < |l| ==> l[i].periodic && (l[i].fb == fb || Mentions(s.list, l[i].fb)))
      && (forall b :: b == fb || Mentions(s.list, b) ==> Mentions(l, b))
  {
    var x := Timed(fb, s.now + Delay(s.tps, interval), interval, true);
    var l := Insert(s.list, x);
    forall i | 0 <= i < |l| ensures l[i].periodic && (l[i].fb == fb || Mentions(s.list, l[i].fb)) {
      InsertMembers(s.list, x, l[i]);
      assert l[i] in l;
    }
    forall b | b == fb || Mentions(s.list, b) ensures Mentions(l, b) {
      var y := x;
      if b != fb {
        var p :| 0 <= p < |s.list| && s.list[p].fb == b;
        y := s.list[p];
      }
      InsertMembers(s.list, x, y);
      var q :| 0 <= q < |l| && l[q] == y;
    }
  }

  lemma UnregisteredBlocks(s: State, fb: nat)
    requires Inv(s) && forall i :: 0 <= i < |s.list| ==> s.list[i].periodic
    ensures var l := Apply(s, Unregister(fb)).list;
      && (forall i :: 0 <= i < |l| ==> l[i].periodic && l[i].fb != fb && Mentions(s.list, l[i].fb))
      && (forall b :: b != fb && Mentions(s.list, b) ==> Mentions(l, b))
  {
    var l := Remove(s.list, fb);
    forall i | 0 <= i < |l| ensures l[i].periodic && l[i].fb != fb && Mentions(s.list, l[i].fb) {
      RemoveMembers(s.list, fb, l[i]);
      assert l[i] in l;
    }
    forall b | b != fb && Mentions(s.list, b) ensures Mentions(l, b) {
      var p :| 0 <= p < |s.list| && s.list[p].fb == b;
      RemoveMembers(s.list, fb, s.list[p]);
      var q :| 0 <= q < |l| && l[q] == s.list[p];
    }
  }

  /** Whatever events arrive in whatever order, no block is ever registered twice: the flag is right
      after every operation, so each registration that is made finds the block unregistered. */
  lemma FlagsStayRight(g: Guarded, op: BlockOp)
    requires FlagsRight(g)
    ensures FlagsRight(ApplyGuarded(g, op))
  {
    var s, t := g.timer, ApplyGuarded(g, op).timer;
    match op
    case TickHalf =>
      StepKeepsInv(s, if s.sweeping then SweepList else Advance);
      if s.sweeping {
        forall fb ensures Mentions(t.list, fb) <==> Mentions(s.list, fb) {
          SweepKeepsBlocks(s, fb);
        }
        SweepKeepsBlocks(s, 0);
        forall i | 0 <= i < |t.list| ensures t.list[i].periodic && t.list[i].fb in g.active {
          assert t.list[i] in t.list && Mentions(t.list, t.list[i].fb);
        }
      }
    case StartEvent(fb, interval) =>
      if fb !in g.active {
        StepKeepsInv(s, Register(fb, interval, true));
        RegisteredBlocks(s, fb, interval);
      }
    case StopEvent(fb) =>
      if fb in g.active {
        StepKeepsInv(s, Unregister(fb));
        UnregisteredBlocks(s, fb);
      }
  }

  function AfterEvents(g: Guarded, ops: seq<BlockOp>): Guarded
    requires FlagsRight(g)
    decreases |ops|
  {
    if ops == [] then g
    else
      FlagsStayRight(g, ops[0]);
      AfterEvents(ApplyGuarded(g, ops[0]), ops[1..])
  }

  function TimerRun(g: Guarded, ops: seq<BlockOp>): seq<Op>
    requires FlagsRight(g)
    decreases |ops|
  {
    if ops == [] then []
    else
      FlagsStayRight(g, ops[0]);
      TimerOps(g, ops[0]) + TimerRun(ApplyGuarded(g, ops[0]), ops[1..])
  }

  lemma EventIsTimerOps(g: Guarded, op: BlockOp)
    requires FlagsRight(g)
    ensures var run := TimerOps(g, op);
      Executable(g.timer, run) && After(g.timer, run) == ApplyGuarded(g, op).timer
  {
    var run := TimerOps(g, op);
    if run != [] {
      FirstStep(g.timer, run);
      assert run[1..] == [];
    }
  }

  /** Events of all blocks and ticks, in every order: the flags stay right, and what reaches the
      timer is a run of it, that is, no block is ever registered twice. */
  lemma {:induction false} EventsAreTimerRun(g: Guarded, ops: seq<BlockOp>)
    requires FlagsRight(g)
    ensures FlagsRight(AfterEvents(g, ops))
    ensures var run := TimerRun(g, ops);
      Executable(g.timer, run) && After(g.timer, run) == AfterEvents(g, ops).timer
    decreases |ops|
  {
    if ops != [] {
      hide FlagsRight, ApplyGuarded, TimerOps, Executable, After;
      var next, first := ApplyGuarded(g, ops[0]), TimerOps(g, ops[0]);
      FlagsStayRight(g, ops[0]);
      EventIsTimerOps(g, ops[0]);
      EventsAreTimerRun(next, ops[1..]);
      RunAppend(g.timer, first, TimerRun(next, ops[1..]));
    } else {
      hide FlagsRight;
    }
  }

  /** The timer at its start: nothing is registered and no flag is set. */
  function Idle(tps: nat): (g: Guarded)
    ensures FlagsRight(g)
  {
    Guarded(Initial(tps), {})
  }

  /** From the start, whatever events follow: the flags tell who is registered, and every block is
      fired exactly when an alarm clock of its own would ring. */
  lemma EventsFire(tps: nat, ops: seq<BlockOp>, fb: nat)
    ensures var g, run := AfterEvents(Idle(tps), ops), TimerRun(Idle(tps), ops);
      && Executable(Initial(tps), run)
      && TimesOf(Log(Initial(tps), run), fb) == RingTimes(Off, tps, 0, fb, run)
      && (fb in g.active <==> AlarmAfter(Off, tps, 0, fb, run) != Off)
  {
    hide TimesOf, Log, RingTimes, AlarmAfter, AfterEvents, TimerRun, Executable;
    var g, run := AfterEvents(Idle(tps), ops), TimerRun(Idle(tps), ops);
    EventsAreTimerRun(Idle(tps), ops);
    FiresLikeItsOwnAlarm(Initial(tps), run, fb, Off);
    var a := AlarmAfter(Off, tps, 0, fb, run);
    assert Shows(g.timer, fb, a);
    if a != Off {
      assert Timed(fb, a.due, a.interval, a.periodic) in g.timer.list;
    }
  }
  // ---- from the events to the times ----

  /** The number of halves of ticks among the events. */
  function TickHalves(ops: seq<BlockOp>): nat {
    if ops == [] then 0 else (if ops[0] == TickHalf then 1 else 0) + TickHalves(ops[1..])
  }

  /** Twice the time, less one in the middle of a tick. */
  function HalvesDone(s: State): int {
    2 * s.now - if s.sweeping then 1 else 0
  }

  lemma {:induction false} ClockOfEvents(g: Guarded, ops: seq<BlockOp>)
    requires FlagsRight(g)
    ensures HalvesDone(AfterEvents(g, ops).timer) == HalvesDone(g.timer) + TickHalves(ops)
    decreases |ops|
  {
    hide FlagsRight;
    if ops != [] {
      FlagsStayRight(g, ops[0]);
      ClockOfEvents(ApplyGuarded(g, ops[0]), ops[1..]);
    }
  }

  /** As long as no event stops a block that is on, none touches its registration. */
  lemma {:induction false} StaysRegistered(g: Guarded, ops: seq<BlockOp>, fb: nat)
    requires FlagsRight(g) && fb in g.active && StopEvent(fb) !in ops
    ensures Spares(TimerRun(g, ops), fb)
    decreases |ops|
  {
    if ops != [] {
      hide FlagsRight;
      assert ops[0] in ops;
      FlagsStayRight(g, ops[0]);
      StaysRegistered(ApplyGuarded(g, ops[0]), ops[1..], fb);
    }
  }

  lemma Started(g: Guarded, fb: nat, interval: nat, ops: seq<BlockOp>)
    requires FlagsRight(g) && fb !in g.active
    ensures Inv(g.timer) && Enabled(g.timer, Register(fb, interval, true))
    ensures var next := ApplyGuarded(g, StartEvent(fb, interval));
      && FlagsRight(next) && fb in next.active && HalvesDone(next.timer) == HalvesDone(g.timer)
      && TimerRun(g, [StartEvent(fb, interval)] + ops) == [Register(fb, interval, true)] + TimerRun(next, ops)
      && AfterEvents(g, [StartEvent(fb, interval)] + ops) == AfterEvents(next, ops)
  {
    var all := [StartEvent(fb, interval)] + ops;
    assert all[0] == StartEvent(fb, interval) && all[1..] == ops;
    FlagsStayRight(g, all[0]);
  }

  /** A periodic block that is off and is started with an interval of d ticks is fired after d,
      2d, ... ticks, whatever events of all blocks follow, as long as none of them stops it. */
  lemma StartedFires(g: Guarded, fb: nat, interval: nat, ops: seq<BlockOp>)
    requires FlagsRight(g) && fb !in g.active && StopEvent(fb) !in ops
    ensures var run := TimerRun(g, [StartEvent(fb, interval)] + ops);
      var d := if interval > 0 then interval else if g.timer.tps > 100 then g.timer.tps / 100 else 1;
      && Executable(g.timer, run)
      && TimesOf(Log(g.timer, run), fb)
        == TimesFrom(g.timer.now + d, d, (HalvesDone(g.timer) + TickHalves(ops)) / 2)
  {
    hide FlagsRight, ApplyGuarded, TimerRun, Executable, After, Log, TimesOf, TimesFrom, Inv, Spares, Enabled, Apply;
    Started(g, fb, interval, ops);
    var next := ApplyGuarded(g, StartEvent(fb, interval));
    EventsAreTimerRun(g, [StartEvent(fb, interval)] + ops);
    StaysRegistered(next, ops, fb);
    ClockOfEvents(next, ops);
    ExactSchedule(g.timer, fb, interval, true, TimerRun(next, ops));
  }

  /** A block that is off stays silent until it is started, and so does one that is stopped. */
  lemma {:induction false} OffIsSilent(g: Guarded, ops: seq<BlockOp>, fb: nat)
    requires FlagsRight(g) && fb !in g.active && forall interval :: StartEvent(fb, interval) !in ops
    ensures Spares(TimerRun(g, ops), fb) && fb !in AfterEvents(g, ops).active
    decreases |ops|
  {
    if ops != [] {
      hide FlagsRight;
      assert ops[0] in ops;
      FlagsStayRight(g, ops[0]);
      OffIsSilent(ApplyGuarded(g, ops[0]), ops[1..], fb);
    }
  }

  lemma StoppedIsSilent(g: Guarded, fb: nat, ops: seq<BlockOp>)
    requires FlagsRight(g) && forall interval :: StartEvent(fb, interval) !in ops
    ensures var run := TimerRun(g, [StopEvent(fb)] + ops);
      Executable(g.timer, run) && TimesOf(Log(g.timer, run), fb) == []
  {
    var stop := StopEvent(fb);
    var all, next := [stop] + ops, ApplyGuarded(g, stop);
    assert all[0] == stop && all[1..] == ops;
    FlagsStayRight(g, stop);
    var run, rest := TimerRun(g, all), TimerRun(next, ops);
    assert run == TimerOps(g, stop) + rest;
    assert fb !in next.active;
    assert !Mentions(next.timer.list, fb) && Inv(next.timer);
    EventIsTimerOps(g, stop);
    hide FlagsRight, ApplyGuarded, TimerRun, Executable, After, Log, TimesOf, Inv, Spares, Mentions;
    EventsAreTimerRun(g, all);
    EventsAreTimerRun(next, ops);
    OffIsSilent(next, ops, fb);
    StrangerTimes(next.timer, rest, fb);
    if fb in g.active {
      FirstOp(g.timer, Unregister(fb), rest);
    } else {
      assert [] + rest == rest;
    }
  }
}
