/** The executor object. Each method is one step of the worker or of a producer that nothing can
    interrupt: a critical region, an operation on the semaphore, or a look at shared data. */
module EventChainExecutor {
  import opened Options
  import opened EventRing
  import opened Executor

  class EventChainExecutor {
    const external: Ring<Event>
    const events: Ring<Entry>
    var semaphore: nat
    var alive: bool
    ghost var owed: nat
    ghost var pc: Pc
    ghost var started: seq<Event>
    ghost var added: seq<Entry>
    ghost var delivered: seq<Entry>

    ghost predicate Valid()
      reads this, external, external.list, events, events.list
    {
      external.Valid() && events.Valid()
    }

    ghost function State(): State
      requires Valid()
      reads this, external, external.list, events, events.list
    {
      Executor.State(external.list.Length, external.Contents(), events.list.Length, events.Contents(),
                     semaphore, owed, alive, pc, started, added, delivered)
    }

    constructor (externalSize: nat, listSize: nat)
      requires externalSize > 0 && listSize > 0
      ensures Valid() && State() == Initial(externalSize, listSize)
      ensures fresh(external) && fresh(external.list) && fresh(events) && fresh(events.list)
    {
      external := new Ring<Event>(externalSize);
      events := new Ring<Entry>(listSize);
      semaphore, alive, owed, pc := 0, true, 0, Check;
      started, added, delivered := [], [], [];
    }

    // ---- producers ----

    /** The critical region of startEventChain; the increment of the semaphore follows outside. */
    method StoreExternalEvent(e: Event)
      requires Valid()
      modifies this`owed, this`started, external`end, external.list
      ensures Valid() && State() == Apply(old(State()), Store(e))
    {
      external.AddEventEntry(e);
      owed, started := owed + 1, started + [e];
    }

    method ResumeSelfSuspend()
      requires Valid() && Enabled(State(), SemInc)
      modifies this`owed, this`semaphore
      ensures Valid() && State() == Apply(old(State()), SemInc)
    {
      semaphore := semaphore + 1;
      owed := owed - 1;
    }

    /** setAlive(false), as the commands STOP and KILL do it. */
    method EndThread()
      requires Valid()
      modifies this`alive, this`owed
      ensures Valid() && State() == Apply(old(State()), Stop)
    {
      alive := false;
      owed := owed + 1;
    }

    // ---- the worker ----

    /** The head of the loop: is the thread alive, and has an external event occurred? */
    method LookAtExternalEvents() returns (goOn: bool, occurred: bool)
      requires Valid() && Enabled(State(), CheckExternal)
      modifies this`pc
      ensures Valid() && State() == Apply(old(State()), CheckExternal)
      ensures goOn <==> pc != Ended
      ensures goOn ==> (occurred <==> pc == Transfer)
    {
      goOn := alive;
      var empty := external.IsEmpty();
      occurred := !empty;
      pc := if !goOn then Ended else if occurred then Transfer else Compare;
    }

    /** Moves the external events into the event list. The loop runs while the pointers differ and
        makes a step only where it finds an entry; it ends because every slot it meets holds one. */
    method MoveExternalEvents()
      requires Valid()
      modifies external`start, external.list, events`end, events.list
      ensures Valid() && external.Contents() == old(external.Contents()).(items := [])
      ensures events.Contents()
        == PushAll(events.list.Length, old(events.Contents()), FromExternal(old(external.Contents()).items))
    {
      hide Ring.Valid, Ring.Items, Push, FromExternal, Slot, Count;
      var empty := external.IsEmpty();
      while !empty
        invariant external.Valid() && events.Valid() && (empty <==> external.Contents().items == [])
        invariant external.Contents().stuck == old(external.Contents().stuck)
        invariant PushAll(events.list.Length, events.Contents(), FromExternal(external.Contents().items))
          == PushAll(events.list.Length, old(events.Contents()), FromExternal(old(external.Contents()).items))
        decreases |external.Contents().items|
      {
        TransferStep(events.list.Length, events.Contents(), external.Contents().items);
        var e := external.RemoveFirst();
        events.AddEventEntry(Entry(e, true));
        empty := external.IsEmpty();
      }
      NothingToTransfer(events.list.Length, events.Contents());
    }

    /** The critical region of transferExternalEvents. */
    method TransferExternalEvents()
      requires Valid() && Enabled(State(), TransferEvents)
      modifies this`pc, this`added, external`start, external.list, events`end, events.list
      ensures Valid() && State() == Apply(old(State()), TransferEvents)
    {
      added := added + FromExternal(external.Contents().items);
      MoveExternalEvents();
      pc := Compare;
    }

    /** The comparison of the list pointers; the entry that is to be handed to its function block. */
    method NextEntry() returns (entry: Option<Entry>)
      requires Valid() && Enabled(State(), CompareList)
      modifies this`pc, this`delivered
      ensures Valid() && State() == Apply(old(State()), CompareList)
      ensures entry == if old(State()).list.items == [] then None else Some(old(State()).list.items[0])
    {
      var empty := events.IsEmpty();
      if empty {
        entry := None;
        pc := Suspend;
      } else {
        var e := events.First();
        entry := Some(e);
        delivered := delivered + [e];
        pc := Deliver;
      }
    }

    /** An output event of the function block that is being executed. */
    method AddEventEntry(e: Event)
      requires Valid() && Enabled(State(), Emit(e))
      modifies this`added, events`end, events.list
      ensures Valid() && State() == Apply(old(State()), Emit(e))
    {
      events.AddEventEntry(Entry(e, false));
      added := added + [Entry(e, false)];
    }

    /** Frees the slot of the entry that has been delivered. */
    method FinishEntry()
      requires Valid() && Enabled(State(), EndDelivery) && State().list.items != []
      modifies this`pc, events`start, events.list
      ensures Valid() && State() == Apply(old(State()), EndDelivery)
    {
      var _ := events.RemoveFirst();
      pc := Check;
    }

    /** Returns from the wait for the semaphore. */
    method SelfSuspend()
      requires Valid() && Enabled(State(), SemWait)
      modifies this`semaphore, this`pc
      ensures Valid() && State() == Apply(old(State()), SemWait)
    {
      semaphore := semaphore - 1;
      pc := Check;
    }
  }

  lemma TransferStep(n: nat, q: Queue<Entry>, es: seq<Event>)
    requires es != []
    ensures PushAll(n, q, FromExternal(es)) == PushAll(n, Push(n, q, Entry(es[0], true)), FromExternal(es[1..]))
  {
    assert FromExternal(es)[1..] == FromExternal(es[1..]);
  }

  lemma NothingToTransfer(n: nat, q: Queue<Entry>)
    ensures PushAll(n, q, FromExternal([])) == q
  {
  }
}
