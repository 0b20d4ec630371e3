/** What the worker's loop looks at between two deliveries, over every run. */
module WorkerLoop {
  import opened EventRing
  import opened Executor

  // ---- the alive flag ----

  /** Once the thread is ended, at most one more entry is delivered, whatever is in the rings and
      whatever else happens; none, if the worker has yet to come past its look at the flag. */
  lemma {:induction false} StopsSoon(s: State, run: seq<Step>)
    requires !s.alive && Executable(s, run)
    ensures var t := After(s, run);
      && !t.alive && s.delivered <= t.delivered
      && |t.delivered| <= |s.delivered| + (if s.pc in {Transfer, Compare} then 1 else 0)
    decreases |run|
  {
    if run != [] {
      hide PushAll, FromExternal;
      StopsSoon(Apply(s, run[0]), run[1..]);
    }
  }

  lemma {:induction false} StaysEnded(s: State, run: seq<Step>)
    requires !s.alive && s.pc == Ended && Executable(s, run)
    ensures After(s, run).pc == Ended
    decreases |run|
  {
    if run != [] {
      hide PushAll, FromExternal, Push;
      StaysEnded(Apply(s, run[0]), run[1..]);
    }
  }

  /** The flag is taken back by Stop and by nothing else, and the next look at it ends the worker. */
  lemma {:induction false} EndsIffStopped(s: State, run: seq<Step>)
    requires Executable(s, run)
    ensures After(s, run).alive <==> s.alive && Stop !in run
    ensures s.pc != Ended && After(s, run).pc == Ended ==> !After(s, run).alive
    ensures !s.alive && CheckExternal in run ==> After(s, run).pc == Ended
    decreases |run|
  {
    if run != [] {
      hide PushAll, FromExternal, Push;
      var next := Apply(s, run[0]);
      assert run == [run[0]] + run[1..];
      EndsIffStopped(next, run[1..]);
      if next.pc == Ended && !next.alive {
        StaysEnded(next, run[1..]);
      }
    }
  }

  // ---- the external ring ----

  /** The events from outside that have come as far as the external ring, in order. */
  function Come(s: State): seq<Event> {
    Externals(s.added) + s.external.items
  }

  lemma PushGrows<T>(n: nat, q: Queue<T>, e: T)
    ensures q.items <= Push(n, q, e).items
  {
  }

  lemma StoreGrows(s: State, e: Event, come: seq<Event>)
    requires come <= Come(s)
    ensures come <= Come(Apply(s, Store(e)))
  {
    PushGrows(s.externalSize, s.external, e);
    assert Come(s) <= Come(Apply(s, Store(e)));
  }

  lemma TransferTakesAll(s: State)
    requires s.pc == Transfer
    ensures Externals(Apply(s, TransferEvents).added) == Come(s) && Apply(s, TransferEvents).external.items == []
  {
    hide PushAll, FromExternal, Externals;
    ExternalsAppend(s.added, FromExternal(s.external.items));
    ExternalsOfTransferred(s.external.items);
  }

  lemma EmitIsInternal(s: State, e: Event)
    requires s.pc == Deliver
    ensures Externals(Apply(s, Emit(e)).added) == Externals(s.added)
  {
    ExternalsAppend(s.added, [Entry(e, false)]);
    assert Externals([Entry(e, false)]) == [];
  }

  /** What had come at some time is still there, and if the worker has begun another delivery, or
      is about to, all of it is in the event list's log. */
  predicate Seen(s: State, come: seq<Event>, delivered: nat) {
    && come <= Come(s)
    && (come <= Externals(s.added) || (|s.delivered| == delivered && s.pc != Compare))
  }

  lemma SeenStep(s: State, step: Step, come: seq<Event>, delivered: nat)
    requires Enabled(s, step) && Seen(s, come, delivered)
    ensures Seen(Apply(s, step), come, delivered)
  {
    hide PushAll, FromExternal, Externals, Push;
    match step
    case Store(e) => StoreGrows(s, e, come);
    case TransferEvents =>
      TransferTakesAll(s);
      assert Come(Apply(s, step)) == Come(s);
    case Emit(e) => EmitIsInternal(s, e);
    case _ =>
  }

  lemma {:induction false} SeenOverRun(s: State, run: seq<Step>, come: seq<Event>, delivered: nat)
    requires Executable(s, run) && Seen(s, come, delivered)
    ensures Seen(After(s, run), come, delivered)
    decreases |run|
  {
    if run != [] {
      hide Seen, Apply, Enabled;
      SeenStep(s, run[0], come, delivered);
      SeenOverRun(Apply(s, run[0]), run[1..], come, delivered);
    }
  }

  /** External events come before the next delivery. What is in the external ring at any time, and
      in particular when a delivery ends, is in the event list before the next delivery begins;
      only a worker that is just past its look at the ring may deliver one entry before. */
  lemma LooksBetweenDeliveries(s: State, run: seq<Step>)
    requires Executable(s, run) && s.pc != Compare
    ensures var t := After(s, run);
      |t.delivered| > |s.delivered| ==> Externals(s.added) + s.external.items <= Externals(t.added)
  {
    SeenOverRun(s, run, Come(s), |s.delivered|);
  }

  // ---- rounds of the loop ----

  function Count(run: seq<Step>, step: Step): nat {
    if run == [] then 0 else (if run[0] == step then 1 else 0) + Count(run[1..], step)
  }

  function One(b: bool): nat { if b then 1 else 0 }

  lemma RoundStep(s: State, step: Step)
    requires Enabled(s, step)
    ensures var t := Apply(s, step);
      && One(step == CheckExternal) + One(t.pc == Check)
        == One(s.pc == Check) + One(step == EndDelivery) + One(step == SemWait)
      && |t.delivered| + One(s.pc == Deliver) == |s.delivered| + One(step == EndDelivery) + One(t.pc == Deliver)
      && t.semaphore + t.owed + One(step == SemWait) + |s.started|
        == s.semaphore + s.owed + |t.started| + One(step == Stop)
  {
    hide PushAll, FromExternal, Push;
  }

  lemma CountFirst(run: seq<Step>, step: Step)
    requires run != []
    ensures Count(run, step) == One(run[0] == step) + Count(run[1..], step)
  {
  }

  /** A round begins at the start, after a delivery and after a wake-up, and at no other time; and
      every wake-up was given by one event from outside or by one call that ends the thread. */
  lemma {:induction false} RoundsCounted(s: State, run: seq<Step>)
    requires Executable(s, run)
    ensures var t := After(s, run);
      && Count(run, CheckExternal) + One(t.pc == Check)
        == One(s.pc == Check) + Count(run, EndDelivery) + Count(run, SemWait)
      && |t.delivered| + One(s.pc == Deliver) == |s.delivered| + Count(run, EndDelivery) + One(t.pc == Deliver)
      && t.semaphore + t.owed + Count(run, SemWait) + |s.started|
        == s.semaphore + s.owed + |t.started| + Count(run, Stop)
    decreases |run|
  {
    if run != [] {
      hide Apply, Enabled, Count, One;
      RoundStep(s, run[0]);
      CountFirst(run, CheckExternal);
      CountFirst(run, EndDelivery);
      CountFirst(run, SemWait);
      CountFirst(run, Stop);
      RoundsCounted(Apply(s, run[0]), run[1..]);
    }
  }

  /** No busy waiting: beyond its first round, the worker goes round at most once for every entry
      delivered and for every wake-up it has been given. */
  lemma NoBusyWaiting(n: nat, m: nat, run: seq<Step>)
    requires Executable(Initial(n, m), run)
    ensures var t := After(Initial(n, m), run);
      Count(run, CheckExternal) <= 1 + |t.delivered| + |t.started| + Count(run, Stop)
  {
    RoundsCounted(Initial(n, m), run);
  }
}
