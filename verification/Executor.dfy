/** The event chain executor: producers, one worker and the semaphore between them, as a state
    machine whose steps interleave freely. */
module Executor {
  import opened Options
  import opened EventRing

  /** An input event of a function block. */
  datatype Event = Event(fb: nat, port: nat)

  /** An entry of the event list, with where it came from. */
  datatype Entry = Entry(event: Event, external: bool)

  /** Where the worker is in its loop. */
  datatype Pc = Check | Transfer | Compare | Deliver | Suspend | Ended

  /** Both rings with their sizes, the semaphore, the increments that producers still owe it, and
      the worker. The three logs grow only: events handed to startEventChain, entries handed to
      addEventEntry, entries handed to a function block. */
  datatype State = State(
    externalSize: nat, external: Queue<Event>,
    listSize: nat, list: Queue<Entry>,
    semaphore: nat, owed: nat, alive: bool, pc: Pc,
    started: seq<Event>, added: seq<Entry>, delivered: seq<Entry>)

  datatype Step =
    | Store(e: Event)      // a producer, inside its critical region
    | SemInc               // a producer that has left the critical region
    | Stop                 // setAlive(false); the increment follows
    | CheckExternal
    | TransferEvents       // one critical region
    | CompareList
    | Emit(e: Event)       // the function block being executed sends an output event
    | EndDelivery
    | SemWait

  predicate Enabled(s: State, step: Step) {
    match step
    case Store(_) => true
    case Stop => true
    case SemInc => s.owed > 0
    case CheckExternal => s.pc == Check
    case TransferEvents => s.pc == Transfer
    case CompareList => s.pc == Compare
    case Emit(_) => s.pc == Deliver
    case EndDelivery => s.pc == Deliver
    case SemWait => s.pc == Suspend && s.semaphore > 0
  }

  function FromExternal(es: seq<Event>): (r: seq<Entry>)
    ensures |r| == |es|
  {
    seq(|es|, i requires 0 <= i < |es| => Entry(es[i], true))
  }

  function Apply(s: State, step: Step): State
    requires Enabled(s, step)
  {
    match step
    case Store(e) =>
      s.(external := Push(s.externalSize, s.external, e), owed := s.owed + 1, started := s.started + [e])
    case SemInc => s.(owed := s.owed - 1, semaphore := s.semaphore + 1)
    case Stop => s.(alive := false, owed := s.owed + 1)
    case CheckExternal =>
      s.(pc := if !s.alive then Ended else if s.external.items != [] then Transfer else Compare)
    case TransferEvents =>
      var es := FromExternal(s.external.items);
      s.(external := s.external.(items := []), list := PushAll(s.listSize, s.list, es),
        added := s.added + es, pc := Compare)
    case CompareList =>
      if s.list.items == [] then s.(pc := Suspend)
      else s.(pc := Deliver, delivered := s.delivered + [s.list.items[0]])
    case Emit(e) =>
      s.(list := Push(s.listSize, s.list, Entry(e, false)), added := s.added + [Entry(e, false)])
    case EndDelivery =>
      s.(list := s.list.(items := if s.list.items == [] then [] else s.list.items[1..]), pc := Check)
    case SemWait => s.(semaphore := s.semaphore - 1, pc := Check)
  }

  predicate Executable(s: State, run: seq<Step>)
    decreases |run|
  {
    run == [] || (Enabled(s, run[0]) && Executable(Apply(s, run[0]), run[1..]))
  }

  function After(s: State, run: seq<Step>): State
    requires Executable(s, run)
    decreases |run|
  {
    if run == [] then s else After(Apply(s, run[0]), run[1..])
  }

  function Initial(externalSize: nat, listSize: nat): State {
    State(externalSize, Queue([], None), listSize, Queue([], None), 0, 0, true, Check, [], [], [])
  }

  // ---- what every step keeps ----

  function Externals(es: seq<Entry>): seq<Event> {
    if es == [] then []
    else Externals(es[..|es| - 1]) + if es[|es| - 1].external then [es[|es| - 1].event] else []
  }

  /** The entries in the list that have not been handed to their function block. */
  function Waiting(s: State): seq<Entry> {
    if s.pc == Deliver && s.list.items != [] then s.list.items[1..] else s.list.items
  }

  /** A ring's log against the ring: what has left it, what is in it, and a swallowed entry. */
  predicate Accounted<T(==)>(log: seq<T>, gone: seq<T>, items: seq<T>, stuck: Option<T>) {
    if stuck.Some? then gone + items + [stuck.value] <= log else gone + items == log
  }

  /** No lost wake-up: a worker that is past its look at the external ring and its alive flag
      will be woken if there is something new. */
  predicate WakeUpPending(s: State) {
    && (s.pc in {Compare, Deliver, Suspend} && s.external.items != [] ==> s.semaphore + s.owed > 0)
    && (s.pc in {Transfer, Compare, Deliver, Suspend} && !s.alive ==> s.semaphore + s.owed > 0)
  }

  predicate Inv(s: State) {
    && WakeUpPending(s)
    && (s.pc == Deliver ==> s.list.items != [] && s.delivered != [])
    && (s.pc == Suspend ==> s.list.items == [])
    && Accounted(s.started, Externals(s.added), s.external.items, s.external.stuck)
    && Accounted(s.added, s.delivered, Waiting(s), s.list.stuck)
  }

  lemma {:induction false} ExternalsAppend(a: seq<Entry>, b: seq<Entry>)
    ensures Externals(a + b) == Externals(a) + Externals(b)
    decreases |b|
  {
    if b == [] {
      assert a + b == a;
    } else {
      var last := |b| - 1;
      assert (a + b)[..|a + b| - 1] == a + b[..last];
      ExternalsAppend(a, b[..last]);
    }
  }

  lemma {:induction false} ExternalsOfTransferred(es: seq<Event>)
    ensures Externals(FromExternal(es)) == es
  {
    if es != [] {
      var last := |es| - 1;
      assert FromExternal(es)[..last] == FromExternal(es[..last]);
      ExternalsOfTransferred(es[..last]);
    }
  }

  lemma {:induction false} PushAllAccounted(n: nat, q: Queue<Entry>, es: seq<Entry>, log: seq<Entry>, gone: seq<Entry>)
    requires Accounted(log, gone, q.items, q.stuck)
    ensures var r := PushAll(n, q, es);
      Accounted(log + es, gone, r.items, r.stuck)
    decreases |es|
  {
    if es == [] {
      assert log + es == log;
    } else {
      assert log + es == log + [es[0]] + es[1..];
      PushAllAccounted(n, Push(n, q, es[0]), es[1..], log + [es[0]], gone);
    }
  }

  lemma AllGone<T>(log: seq<T>, gone: seq<T>, items: seq<T>, stuck: Option<T>)
    requires Accounted(log, gone, items, stuck)
    ensures Accounted(log, gone + items, [], stuck)
  {
    assert gone + items + [] == gone + items;
  }

  lemma TransferStarted(s: State)
    requires Inv(s) && s.pc == Transfer
    ensures var t := Apply(s, TransferEvents);
      Accounted(t.started, Externals(t.added), t.external.items, t.external.stuck)
  {
    hide Externals, PushAll, FromExternal, Accounted, WakeUpPending;
    ExternalsAppend(s.added, FromExternal(s.external.items));
    ExternalsOfTransferred(s.external.items);
    AllGone(s.started, Externals(s.added), s.external.items, s.external.stuck);
  }

  lemma TransferAdded(s: State)
    requires Inv(s) && s.pc == Transfer
    ensures var t := Apply(s, TransferEvents);
      Accounted(t.added, t.delivered, Waiting(t), t.list.stuck)
  {
    hide Externals, PushAll, FromExternal, Accounted, WakeUpPending;
    PushAllAccounted(s.listSize, s.list, FromExternal(s.external.items), s.added, s.delivered);
  }

  lemma TransferKeepsInv(s: State)
    requires Inv(s) && s.pc == Transfer
    ensures Inv(Apply(s, TransferEvents))
  {
    TransferStarted(s);
    TransferAdded(s);
    hide Externals, PushAll, FromExternal, Accounted, Waiting;
  }

  lemma DeliveryKeepsInv(s: State)
    requires Inv(s) && s.pc == Compare
    ensures Inv(Apply(s, CompareList))
  {
    if s.list.items != [] {
      assert s.delivered + s.list.items == s.delivered + [s.list.items[0]] + s.list.items[1..];
    }
  }

  lemma EmitKeepsInv(s: State, e: Event)
    requires Inv(s) && s.pc == Deliver
    ensures Inv(Apply(s, Emit(e)))
  {
    ExternalsAppend(s.added, [Entry(e, false)]);
    assert Externals([Entry(e, false)]) == [];
    assert Externals(Apply(s, Emit(e)).added) == Externals(s.added);
    EmitAccounted(s, e);
  }

  lemma StoreKeepsInv(s: State, e: Event)
    requires Inv(s)
    ensures Inv(Apply(s, Store(e)))
  {
  }

  lemma StepKeepsInv(s: State, step: Step)
    requires Inv(s) && Enabled(s, step)
    ensures Inv(Apply(s, step))
  {
    match step
    case TransferEvents => TransferKeepsInv(s);
    case CompareList => DeliveryKeepsInv(s);
    case Emit(e) => EmitKeepsInv(s, e);
    case Store(e) => StoreKeepsInv(s, e);
    case _ =>
  }

  lemma EmitAccounted(s: State, e: Event)
    requires Inv(s) && s.pc == Deliver
    ensures var t := Apply(s, Emit(e));
      Accounted(t.added, t.delivered, Waiting(t), t.list.stuck)
  {
  }

  lemma {:induction false} RunKeepsInv(s: State, run: seq<Step>)
    requires Inv(s) && Executable(s, run)
    ensures Inv(After(s, run))
    decreases |run|
  {
    if run != [] {
      StepKeepsInv(s, run[0]);
      RunKeepsInv(Apply(s, run[0]), run[1..]);
    }
  }

  // ---- what holds over every run ----

  lemma {:induction false} InitialInv(n: nat, m: nat)
    ensures Inv(Initial(n, m))
  {
  }

  /** In every interleaving, a worker that has looked at the external ring before it waits is
      woken if the ring holds something. */
  lemma NoLostWakeUp(n: nat, m: nat, run: seq<Step>)
    requires Executable(Initial(n, m), run)
    ensures var s := After(Initial(n, m), run);
      s.pc in {Compare, Deliver, Suspend} && s.external.items != [] ==> s.semaphore + s.owed > 0
  {
    InitialInv(n, m);
    RunKeepsInv(Initial(n, m), run);
  }

  lemma {:induction false} ExternalsPrefix(a: seq<Entry>, b: seq<Entry>)
    requires a <= b
    ensures Externals(a) <= Externals(b)
  {
    assert b == a + b[|a|..];
    ExternalsAppend(a, b[|a|..]);
  }

  /** Order is never violated, not even when a ring overflows: entries are delivered in the order
      in which they were added, events from outside in the order in which they were started. */
  lemma DeliveredInOrder(n: nat, m: nat, run: seq<Step>)
    requires Executable(Initial(n, m), run)
    ensures var s := After(Initial(n, m), run);
      s.delivered <= s.added && Externals(s.delivered) <= s.started
  {
    InitialInv(n, m);
    RunKeepsInv(Initial(n, m), run);
    var s := After(Initial(n, m), run);
    assert s.delivered <= s.delivered + Waiting(s) <= s.added;
    ExternalsPrefix(s.delivered, s.added);
    assert Externals(s.added) <= Externals(s.added) + s.external.items <= s.started;
  }

  /** While no ring has swallowed an entry, nothing is lost: every event started from outside
      has been delivered or is in one of the rings, in its place. */
  lemma NothingLost(n: nat, m: nat, run: seq<Step>)
    requires Executable(Initial(n, m), run)
    ensures var s := After(Initial(n, m), run);
      s.external.stuck.None? && s.list.stuck.None? ==>
        && s.added == s.delivered + Waiting(s)
        && s.started == Externals(s.delivered) + Externals(Waiting(s)) + s.external.items
  {
    InitialInv(n, m);
    RunKeepsInv(Initial(n, m), run);
    var s := After(Initial(n, m), run);
    ExternalsAppend(s.delivered, Waiting(s));
  }

  /** A worker that waits with nobody left to wake it has delivered everything, unless a ring has
      swallowed an entry; and it has not been asked to stop. */
  lemma QuietMeansDone(n: nat, m: nat, run: seq<Step>)
    requires Executable(Initial(n, m), run)
    ensures var s := After(Initial(n, m), run);
      s.pc == Suspend && s.semaphore == 0 && s.owed == 0 ==>
        && s.alive && s.external.items == [] && s.list.items == []
        && (s.external.stuck.None? && s.list.stuck.None? ==>
          s.added == s.delivered && s.started == Externals(s.delivered))
  {
    NothingLost(n, m, run);
    InitialInv(n, m);
    RunKeepsInv(Initial(n, m), run);
    var s := After(Initial(n, m), run);
    assert Waiting(s) == [] ==> s.delivered + Waiting(s) == s.delivered;
  }

  // ---- the bound is tight ----

  /** An entry that fills the last slot of a ring of n is swallowed; up to n - 1 entries none is. */
  lemma SwallowedIffLastSlot<T>(n: nat, q: Queue<T>, e: T)
    requires q.stuck.None?
    ensures Push(n, q, e).stuck == Some(e) <==> |q.items| + 1 >= n
    ensures |q.items| + 1 < n ==> Push(n, q, e) == Queue(q.items + [e], None)
  {
  }

  lemma StuckStays(s: State, step: Step)
    requires Enabled(s, step)
    ensures s.external.stuck.Some? ==> Apply(s, step).external.stuck == s.external.stuck
    ensures s.list.stuck.Some? ==> Apply(s, step).list.stuck == s.list.stuck
  {
    if step == TransferEvents && s.list.stuck.Some? {
      StuckForEver(s.listSize, s.list, FromExternal(s.external.items));
    }
  }

  lemma SameExternals(s: State, step: Step)
    requires s.external.stuck.Some? && Enabled(s, step)
    ensures var t := Apply(s, step);
      Externals(t.added) + t.external.items == Externals(s.added) + s.external.items
  {
    match step
    case TransferEvents =>
      ExternalsAppend(s.added, FromExternal(s.external.items));
      ExternalsOfTransferred(s.external.items);
    case Emit(e) =>
      ExternalsAppend(s.added, [Entry(e, false)]);
      assert Externals([Entry(e, false)]) == [];
    case _ =>
  }

  /** From then on the external ring is dead: in no continuation is the swallowed event, or any
      event started after it, added to the event list. */
  lemma {:induction false} ExternalRingDies(s: State, run: seq<Step>)
    requires Inv(s) && s.external.stuck.Some? && Executable(s, run)
    ensures var t := After(s, run);
      && t.external.stuck == s.external.stuck
      && Externals(t.added) + t.external.items == Externals(s.added) + s.external.items
    decreases |run|
  {
    if run != [] {
      StuckStays(s, run[0]);
      StepKeepsInv(s, run[0]);
      SameExternals(s, run[0]);
      ExternalRingDies(Apply(s, run[0]), run[1..]);
    }
  }

  /** The same for the event list: in no continuation is the swallowed entry, or any entry added
      after it, delivered. */
  lemma {:induction false} EventListDies(s: State, run: seq<Step>)
    requires Inv(s) && s.list.stuck.Some? && Executable(s, run)
    ensures var t := After(s, run);
      t.list.stuck == s.list.stuck && t.delivered + Waiting(t) == s.delivered + Waiting(s)
    decreases |run|
  {
    if run != [] {
      var next := Apply(s, run[0]);
      StuckStays(s, run[0]);
      StepKeepsInv(s, run[0]);
      match run[0] {
        case TransferEvents => StuckForEver(s.listSize, s.list, FromExternal(s.external.items));
        case CompareList =>
          if s.list.items != [] {
            assert s.delivered + s.list.items == next.delivered + Waiting(next);
          }
        case _ =>
      }
      EventListDies(next, run[1..]);
    }
  }

  /** The step leaves a free slot in the ring it stores into; the entry being delivered counts. */
  predicate LeavesRoom(s: State, step: Step) {
    match step
    case Store(_) => |s.external.items| + 1 < s.externalSize
    case Emit(_) => |s.list.items| + 1 < s.listSize
    case TransferEvents => s.external.items == [] || |s.list.items| + |s.external.items| < s.listSize
    case _ => true
  }

  predicate AlwaysLeavesRoom(s: State, run: seq<Step>)
    requires Executable(s, run)
    decreases |run|
  {
    run == [] || (LeavesRoom(s, run[0]) && AlwaysLeavesRoom(Apply(s, run[0]), run[1..]))
  }

  predicate Swallowed(s: State) {
    s.external.stuck.Some? || s.list.stuck.Some?
  }

  lemma RoomStep(s: State, step: Step)
    requires Enabled(s, step) && !Swallowed(s)
    ensures LeavesRoom(s, step) <==> !Swallowed(Apply(s, step))
  {
    match step
    case Store(e) => SwallowedIffLastSlot(s.externalSize, s.external, e);
    case Emit(e) => SwallowedIffLastSlot(s.listSize, s.list, Entry(e, false));
    case TransferEvents =>
      if s.external.items != [] {
        AppendsIffRoom(s.listSize, s.list, FromExternal(s.external.items));
        PushAllKeepsOrGrows(s.listSize, s.list, FromExternal(s.external.items));
      }
    case _ =>
  }

  lemma {:induction false} PushAllKeepsOrGrows<T>(n: nat, q: Queue<T>, es: seq<T>)
    ensures PushAll(n, q, es).stuck.None? ==> PushAll(n, q, es) == Queue(q.items + es, None)
    decreases |es|
  {
    if es == [] {
      assert q.items + es == q.items;
    } else {
      var next := Push(n, q, es[0]);
      PushAllKeepsOrGrows(n, next, es[1..]);
      if next.stuck.Some? {
        StuckForEver(n, next, es[1..]);
      } else {
        assert next.items + es[1..] == q.items + es;
      }
    }
  }

  lemma {:induction false} SwallowedStays(s: State, run: seq<Step>)
    requires Executable(s, run) && Swallowed(s)
    ensures Swallowed(After(s, run))
    decreases |run|
  {
    if run != [] {
      StuckStays(s, run[0]);
      SwallowedStays(Apply(s, run[0]), run[1..]);
    }
  }

  /** Size - 1 is exactly the usable capacity: a run swallows nothing if and only if each of its
      steps leaves a free slot in the ring it stores into. */
  lemma {:induction false} NothingSwallowedIffRoom(s: State, run: seq<Step>)
    requires Executable(s, run) && !Swallowed(s)
    ensures AlwaysLeavesRoom(s, run) <==> !Swallowed(After(s, run))
    decreases |run|
  {
    if run != [] {
      var next := Apply(s, run[0]);
      RoomStep(s, run[0]);
      if Swallowed(next) {
        SwallowedStays(next, run[1..]);
      } else {
        NothingSwallowedIffRoom(next, run[1..]);
      }
    }
  }
}
