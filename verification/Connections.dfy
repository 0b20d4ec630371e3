/** Event connections: the fan-out list of an event output. */
module Connections {
  import opened Options
  import opened Management
  import opened EventRing
  import opened LinkedList

  const INVALID_PORT_ID := 255
  const INTERNAL_TO_INTERFACE_MARKER := 0x100

  /** A function block and the names of its event ports; the number stands for its address. */
  datatype FB = FB(number: nat, eventInputs: seq<nat>, eventOutputs: seq<nat>)

  datatype ConnectionPoint = ConnectionPoint(fb: nat, port: nat)

  /** Port counts are bytes. */
  predicate WellFormed(fb: FB) {
    |fb.eventInputs| < 0x100 && |fb.eventOutputs| < 0x100
  }

  /** The number of the first port of that name. */
  function PortNamed(names: seq<nat>, name: nat): (port: Option<nat>)
    ensures port.Some? <==> name in names
    ensures port.Some? ==> port.value < |names| && names[port.value] == name
  {
    if names == [] then None
    else if names[0] == name then Some(0)
    else
      var port := PortNamed(names[1..], name);
      if port.Some? then Some(port.value + 1) else None
  }

  lemma {:induction false} FirstPort(names: seq<nat>, name: nat, i: nat)
    requires i < |names| && names[i] == name && name !in names[..i]
    ensures PortNamed(names, name) == Some(i)
  {
    if i > 0 {
      assert names[..i][0] == names[0];
      assert names[1..][..i - 1] == names[..i][1..];
      FirstPort(names[1..], name, i - 1);
    }
  }

  method GetPortId(name: nat, names: seq<nat>) returns (port: nat)
    requires |names| < 0x100
    ensures port == 255 <==> name !in names
    ensures name in names ==> PortNamed(names, name) == Some(port)
  {
    for i := 0 to |names|
      invariant name !in names[..i]
    {
      if name == names[i] {
        FirstPort(names, name, i);
        return i;
      }
    }
    port := INVALID_PORT_ID;
  }

  // ---- what a run of changes makes of the list ----

  datatype Change =
    | Connect(fb: FB, name: nat)
    | ConnectToInterface(fb: FB, name: nat)
    | Disconnect(fb: FB, name: nat)

  /** The point that a change is about. Connections to the interface of the enclosing block end at
      an event output, which carries a marker; disconnecting only looks for event inputs. */
  function Target(c: Change): Option<ConnectionPoint> {
    var port := PortNamed(if c.ConnectToInterface? then c.fb.eventOutputs else c.fb.eventInputs, c.name);
    if port.None? then None
    else Some(ConnectionPoint(c.fb.number,
                              if c.ConnectToInterface? then port.value + INTERNAL_TO_INTERFACE_MARKER else port.value))
  }

  function Without(ds: seq<ConnectionPoint>, p: ConnectionPoint): seq<ConnectionPoint> {
    if ds == [] then [] else if ds[0] == p then ds[1..] else [ds[0]] + Without(ds[1..], p)
  }

  function Changed(ds: seq<ConnectionPoint>, c: Change): seq<ConnectionPoint> {
    var p := Target(c);
    if p.None? then ds
    else if c.Disconnect? then Without(ds, p.value)
    else if p.value in ds then ds else ds + [p.value]
  }

  function Answer(ds: seq<ConnectionPoint>, c: Change): Response {
    var p := Target(c);
    if p.None? then NO_SUCH_OBJECT
    else if c.Disconnect? == (p.value in ds) then RDY else INVALID_STATE
  }

  lemma {:induction false} WithoutShorter(ds: seq<ConnectionPoint>, p: ConnectionPoint)
    ensures |Without(ds, p)| == if p in ds then |ds| - 1 else |ds|
    ensures p !in ds ==> Without(ds, p) == ds
  {
    if ds != [] && ds[0] != p {
      WithoutShorter(ds[1..], p);
      assert ds == [ds[0]] + ds[1..];
    }
  }

  /** A change is about the first port of its name: an event input of the block or, with the bit
      0x100 set in its number, an event output. */
  lemma TargetMeans(c: Change)
    ensures var ports := if c.ConnectToInterface? then c.fb.eventOutputs else c.fb.eventInputs;
      && (Target(c) == None <==> c.name !in ports)
      && forall i :: 0 <= i < |ports| && ports[i] == c.name && c.name !in ports[..i] ==>
        Target(c) == Some(ConnectionPoint(c.fb.number, if c.ConnectToInterface? then 0x100 + i else i))
  {
    var ports := if c.ConnectToInterface? then c.fb.eventOutputs else c.fb.eventInputs;
    forall i | 0 <= i < |ports| && ports[i] == c.name && c.name !in ports[..i]
      ensures PortNamed(ports, c.name) == Some(i)
    {
      FirstPort(ports, c.name, i);
    }
  }

  /** RDY is the answer exactly if the destinations change, NO_SUCH_OBJECT exactly if the block has no
      such port, and INVALID_STATE otherwise; what is said about one point changes nothing else. */
  lemma AnsweredIff(ds: seq<ConnectionPoint>, c: Change)
    ensures var ports := if c.ConnectToInterface? then c.fb.eventOutputs else c.fb.eventInputs;
      && (Answer(ds, c) == RDY <==> Changed(ds, c) != ds)
      && (Answer(ds, c) == NO_SUCH_OBJECT <==> c.name !in ports)
      && (Answer(ds, c) == INVALID_STATE <==> c.name in ports && Changed(ds, c) == ds)
  {
    hide Without;
    if Target(c).Some? {
      WithoutShorter(ds, Target(c).value);
    }
  }

  /** The destinations after all changes, from a fresh connection. */
  function After(cs: seq<Change>): seq<ConnectionPoint> {
    if cs == [] then [] else Changed(After(cs[..|cs| - 1]), cs[|cs| - 1])
  }

  /** When p joined for good: the first time it is connected behind its last disconnection. */
  function JoinedAt(cs: seq<Change>, p: ConnectionPoint): (at: Option<nat>)
    ensures at.Some? ==> at.value < |cs|
  {
    if cs == [] then None
    else
      var k, before := |cs| - 1, JoinedAt(cs[..|cs| - 1], p);
      if Target(cs[k]) != Some(p) then before
      else if cs[k].Disconnect? then None
      else if before.None? then Some(k) else before
  }

  /** Over every run of changes a point is a destination exactly when it has joined for good, and
      the destinations stand in the order in which they joined, each of them once. */
  ghost predicate InJoiningOrder(ds: seq<ConnectionPoint>, cs: seq<Change>) {
    && (forall p :: p in ds <==> JoinedAt(cs, p).Some?)
    && (forall i, j :: 0 <= i < j < |ds| ==> Earlier(cs, ds[i], ds[j]))
  }

  predicate Earlier(cs: seq<Change>, p: ConnectionPoint, q: ConnectionPoint) {
    JoinedAt(cs, p).Some? && JoinedAt(cs, q).Some? && JoinedAt(cs, p).value < JoinedAt(cs, q).value
  }

  lemma {:induction false} WithoutAt(ds: seq<ConnectionPoint>, p: ConnectionPoint, k: nat)
    requires k < |ds| && ds[k] == p && forall i :: 0 <= i < k ==> ds[i] != p
    ensures Without(ds, p) == ds[..k] + ds[k + 1..]
  {
    if k > 0 {
      WithoutAt(ds[1..], p, k - 1);
      assert ds[..k] == [ds[0]] + ds[1..][..k - 1];
      assert ds[1..][k..] == ds[k + 1..];
    }
  }

  lemma {:induction false} WithoutAbsent(ds: seq<ConnectionPoint>, p: ConnectionPoint)
    requires p !in ds
    ensures Without(ds, p) == ds
  {
    if ds != [] {
      WithoutAbsent(ds[1..], p);
      assert ds == [ds[0]] + ds[1..];
    }
  }

  lemma JoinedAfter(before: seq<Change>, c: Change, q: ConnectionPoint)
    ensures var earlier := JoinedAt(before, q);
      JoinedAt(before + [c], q) ==
        if Target(c) != Some(q) then earlier
        else if c.Disconnect? then None
        else if earlier.None? then Some(|before|) else earlier
  {
    assert (before + [c])[..|before|] == before;
  }

  lemma Joining(ds: seq<ConnectionPoint>, before: seq<Change>, c: Change)
    requires InJoiningOrder(ds, before) && !c.Disconnect? && Target(c).Some? && Target(c).value !in ds
    ensures InJoiningOrder(ds + [Target(c).value], before + [c])
  {
    hide JoinedAt, Target;
    var p := Target(c).value;
    var us := ds + [p];
    forall q ensures JoinedAt(before + [c], q) == if q == p then Some(|before|) else JoinedAt(before, q) {
      JoinedAfter(before, c, q);
    }
    forall i, j | 0 <= i < j < |us| ensures Earlier(before + [c], us[i], us[j]) {
      if j < |ds| {
        assert Earlier(before, ds[i], ds[j]);
      } else {
        assert ds[i] in ds;
      }
    }
  }

  lemma Staying(ds: seq<ConnectionPoint>, before: seq<Change>, c: Change)
    requires InJoiningOrder(ds, before)
    requires Target(c).Some? ==> !c.Disconnect? && Target(c).value in ds
    ensures InJoiningOrder(ds, before + [c])
  {
    hide JoinedAt, Target;
    forall q ensures JoinedAt(before + [c], q) == JoinedAt(before, q) {
      JoinedAfter(before, c, q);
    }
    forall i, j | 0 <= i < j < |ds| ensures Earlier(before + [c], ds[i], ds[j]) {
      assert Earlier(before, ds[i], ds[j]);
    }
  }

  lemma OnePlaceEach(ds: seq<ConnectionPoint>, cs: seq<Change>, i: nat, k: nat)
    requires InJoiningOrder(ds, cs) && i < |ds| && k < |ds| && i != k
    ensures ds[i] != ds[k]
  {
    hide JoinedAt;
    assert if i < k then Earlier(cs, ds[i], ds[k]) else Earlier(cs, ds[k], ds[i]);
  }

  lemma OnlyPlace(ds: seq<ConnectionPoint>, before: seq<Change>, p: ConnectionPoint) returns (k: nat)
    requires InJoiningOrder(ds, before) && p in ds
    ensures k < |ds| && ds[k] == p && forall i :: 0 <= i < |ds| && i != k ==> ds[i] != p
  {
    hide JoinedAt, InJoiningOrder;
    k :| 0 <= k < |ds| && ds[k] == p;
    forall i | 0 <= i < |ds| && i != k ensures ds[i] != p {
      OnePlaceEach(ds, before, i, k);
    }
  }

  lemma TheOthers(ds: seq<ConnectionPoint>, k: nat, q: ConnectionPoint)
    requires k < |ds| && forall i :: 0 <= i < |ds| && i != k ==> ds[i] != ds[k]
    ensures q in ds[..k] + ds[k + 1..] <==> q in ds && q != ds[k]
  {
    var us := ds[..k] + ds[k + 1..];
    if q in us {
      var i :| 0 <= i < |us| && us[i] == q;
      assert q == ds[if i < k then i else i + 1];
    }
    if q in ds && q != ds[k] {
      var i :| 0 <= i < |ds| && ds[i] == q;
      assert q == us[if i < k then i else i - 1];
    }
  }

  /** Taking the k-th one out leaves the others in order. */
  lemma OrderWithout(ds: seq<ConnectionPoint>, cs: seq<Change>, more: seq<Change>, k: nat)
    requires k < |ds| && InJoiningOrder(ds, cs)
    requires forall i :: 0 <= i < |ds| && i != k ==> ds[i] != ds[k]
    requires forall q :: q != ds[k] ==> JoinedAt(more, q) == JoinedAt(cs, q)
    ensures var us := ds[..k] + ds[k + 1..];
      forall i, j :: 0 <= i < j < |us| ==> Earlier(more, us[i], us[j])
  {
    hide JoinedAt;
    var us := ds[..k] + ds[k + 1..];
    forall i, j | 0 <= i < j < |us| ensures Earlier(more, us[i], us[j]) {
      var i', j' := if i < k then i else i + 1, if j < k then j else j + 1;
      assert us[i] == ds[i'] && us[j] == ds[j'];
      assert Earlier(cs, ds[i'], ds[j']);
    }
  }

  lemma Leaving(ds: seq<ConnectionPoint>, before: seq<Change>, c: Change)
    requires InJoiningOrder(ds, before) && c.Disconnect? && Target(c).Some?
    ensures InJoiningOrder(Without(ds, Target(c).value), before + [c])
  {
    hide JoinedAt, Target, Without, Earlier;
    var p, after := Target(c).value, before + [c];
    forall q ensures JoinedAt(after, q) == if q == p then None else JoinedAt(before, q) {
      JoinedAfter(before, c, q);
    }
    if p !in ds {
      WithoutAbsent(ds, p);
      assert JoinedAt(before, p) == None;
      forall i, j | 0 <= i < j < |ds| ensures Earlier(after, ds[i], ds[j]) {
        assert Earlier(before, ds[i], ds[j]);
        SameEarlier(before, after, ds[i], ds[j]);
      }
    } else {
      var k := OnlyPlace(ds, before, p);
      WithoutAt(ds, p, k);
      OrderWithout(ds, before, after, k);
      forall q ensures q in Without(ds, p) <==> q in ds && q != p {
        TheOthers(ds, k, q);
      }
    }
  }

  lemma SameEarlier(cs: seq<Change>, more: seq<Change>, p: ConnectionPoint, q: ConnectionPoint)
    requires Earlier(cs, p, q) && JoinedAt(more, p) == JoinedAt(cs, p) && JoinedAt(more, q) == JoinedAt(cs, q)
    ensures Earlier(more, p, q)
  {
  }

  lemma {:induction false} DestinationsInJoiningOrder(cs: seq<Change>)
    ensures InJoiningOrder(After(cs), cs)
    ensures forall i, j :: 0 <= i < j < |After(cs)| ==> After(cs)[i] != After(cs)[j]
    decreases |cs|
  {
    if cs != [] {
      var before, c := cs[..|cs| - 1], cs[|cs| - 1];
      DestinationsInJoiningOrder(before);
      var ds := After(before);
      assert After(cs) == Changed(ds, c) && before + [c] == cs;
      hide Target, Without, InJoiningOrder, After, JoinedAt;
      if Target(c).Some? && c.Disconnect? {
        Leaving(ds, before, c);
      } else if Target(c).Some? && Target(c).value !in ds {
        Joining(ds, before, c);
      } else {
        Staying(ds, before, c);
      }
      hide Changed;
      forall i, j | 0 <= i < j < |After(cs)| ensures After(cs)[i] != After(cs)[j] {
        OnePlaceEach(After(cs), cs, i, j);
      }
    }
  }

  /** A connection to the interface of the enclosing block is never taken back. */
  lemma {:induction false} InterfaceConnectionsStay(cs: seq<Change>, more: seq<Change>, p: ConnectionPoint)
    requires forall c :: c in more ==> WellFormed(c.fb)
    requires p in After(cs) && p.port >= INTERNAL_TO_INTERFACE_MARKER
    ensures p in After(cs + more)
    decreases |more|
  {
    if more == [] {
      assert cs + more == cs;
    } else {
      hide Changed, After, WellFormed;
      var fewer, c := more[..|more| - 1], more[|more| - 1];
      InterfaceConnectionsStay(cs, fewer, p);
      LastBehind(cs, more);
      AfterLast(cs + fewer, c);
      assert c in more;
      OneChangeKeeps(After(cs + fewer), c, p);
    }
  }

  lemma LastBehind(cs: seq<Change>, more: seq<Change>)
    requires more != []
    ensures cs + more == cs + more[..|more| - 1] + [more[|more| - 1]]
  {
  }

  lemma AfterLast(cs: seq<Change>, c: Change)
    ensures After(cs + [c]) == Changed(After(cs), c)
  {
    assert (cs + [c])[..|cs|] == cs;
  }

  lemma OneChangeKeeps(ds: seq<ConnectionPoint>, c: Change, p: ConnectionPoint)
    requires WellFormed(c.fb) && p in ds && p.port >= INTERNAL_TO_INTERFACE_MARKER
    ensures p in Changed(ds, c)
  {
    if c.Disconnect? && Target(c).Some? {
      assert Target(c).value.port < INTERNAL_TO_INTERFACE_MARKER;
      WithoutKeeps(ds, Target(c).value, p);
    }
  }

  lemma {:induction false} WithoutKeeps(ds: seq<ConnectionPoint>, p: ConnectionPoint, q: ConnectionPoint)
    requires q in ds && q != p
    ensures q in Without(ds, p)
  {
    if ds[0] != p && ds[0] != q {
      WithoutKeeps(ds[1..], p, q);
    }
  }

  // ---- the connection itself ----

  class EventConnection {
    const destinations: List<ConnectionPoint>

    ghost predicate Valid()
      reads this, destinations, destinations.nodes
    {
      destinations.Valid()
    }

    ghost function Destinations(): seq<ConnectionPoint>
      reads destinations
    {
      destinations.Contents()
    }

    constructor ()
      ensures Valid() && Destinations() == [] && fresh(destinations)
    {
      destinations := new List();
    }

    method DstExists(p: ConnectionPoint) returns (found: bool)
      requires Valid()
      ensures found <==> p in Destinations()
    {
      found := false;
      var it, k := destinations.first, 0;
      while it != null
        invariant k <= |destinations.nodes| && it == At(destinations.nodes, k)
        invariant forall i :: 0 <= i < k ==> Destinations()[i] != p
        decreases |destinations.nodes| - k
      {
        assert it.data == Destinations()[k];
        if p == it.data {
          found := true;
          break;
        }
        it, k := it.next, k + 1;
      }
    }

    /** Nodes are added, none is shared with anything else. */
    twostate predicate Grows()
      reads this, destinations
    {
      forall n :: n in destinations.nodes ==> n in old(destinations.nodes) || fresh(n)
    }

    method AddDestination(p: ConnectionPoint) returns (r: Response)
      requires Valid()
      modifies destinations, destinations.nodes
      ensures Valid() && Grows()
      ensures r == if p in old(Destinations()) then INVALID_STATE else RDY
      ensures Destinations() == old(Destinations()) + if r == RDY then [p] else []
    {
      r := INVALID_STATE;
      var present := DstExists(p);
      if !present {
        destinations.PushBack(p);
        r := RDY;
      }
    }

    /** The node of a destination and the node in front of it; k is its position. */
    method FindDestination(p: ConnectionPoint)
      returns (runner: Node?<ConnectionPoint>, refNode: Node?<ConnectionPoint>, ghost k: nat)
      requires Valid()
      ensures k <= |destinations.nodes| && runner == At(destinations.nodes, k)
      ensures refNode == if k == 0 then null else destinations.nodes[k - 1]
      ensures runner == null <==> p !in Destinations()
      ensures runner != null ==> Destinations()[k] == p
      ensures forall i :: 0 <= i < k ==> Destinations()[i] != p
    {
      runner, refNode, k := destinations.first, null, 0;
      while runner != null
        invariant k <= |destinations.nodes| && runner == At(destinations.nodes, k)
        invariant refNode == if k == 0 then null else destinations.nodes[k - 1]
        invariant forall i :: 0 <= i < k ==> Destinations()[i] != p
        decreases |destinations.nodes| - k
      {
        assert runner.data == Destinations()[k];
        if p == runner.data {
          break;
        }
        refNode := runner;
        runner := runner.next;
        k := k + 1;
      }
    }

    /** Takes out the node behind another one, or the first one. */
    method RemoveBehind(refNode: Node?<ConnectionPoint>, ghost k: nat)
      requires Valid() && k < |destinations.nodes|
      requires refNode == if k == 0 then null else destinations.nodes[k - 1]
      modifies destinations, destinations.nodes
      ensures Valid() && Grows()
      ensures Destinations() == old(Destinations())[..k] + old(Destinations())[k + 1..]
    {
      if refNode == null {
        destinations.PopFront();
      } else {
        var _ := destinations.EraseAfter(refNode, k - 1);
      }
    }

    method RemoveDestination(p: ConnectionPoint) returns (r: Response)
      requires Valid()
      modifies destinations, destinations.nodes
      ensures Valid() && Grows()
      ensures r == if p in old(Destinations()) then RDY else INVALID_STATE
      ensures Destinations() == Without(old(Destinations()), p)
    {
      hide Without;
      r := INVALID_STATE;
      var runner, refNode, k := FindDestination(p);
      if runner != null {
        WithoutAt(Destinations(), p, k);
        r := RDY;
        RemoveBehind(refNode, k);
      } else {
        WithoutAbsent(Destinations(), p);
      }
    }

    method Connect(fb: FB, name: nat) returns (r: Response)
      requires Valid() && WellFormed(fb)
      modifies destinations, destinations.nodes
      ensures Valid() && Grows()
      ensures r == Answer(old(Destinations()), Change.Connect(fb, name))
      ensures Destinations() == Changed(old(Destinations()), Change.Connect(fb, name))
    {
      r := NO_SUCH_OBJECT;
      var id := GetPortId(name, fb.eventInputs);
      if id != INVALID_PORT_ID {
        r := AddDestination(ConnectionPoint(fb.number, id));
      }
    }

    method ConnectToCFBInterface(fb: FB, name: nat) returns (r: Response)
      requires Valid() && WellFormed(fb)
      modifies destinations, destinations.nodes
      ensures Valid() && Grows()
      ensures r == Answer(old(Destinations()), ConnectToInterface(fb, name))
      ensures Destinations() == Changed(old(Destinations()), ConnectToInterface(fb, name))
    {
      r := NO_SUCH_OBJECT;
      var id := GetPortId(name, fb.eventOutputs);
      if id != INVALID_PORT_ID {
        // the marker bit is not set in the number of a port
        id := id + INTERNAL_TO_INTERFACE_MARKER;
        r := AddDestination(ConnectionPoint(fb.number, id));
      }
    }

    method Disconnect(fb: FB, name: nat) returns (r: Response)
      requires Valid() && WellFormed(fb)
      modifies destinations, destinations.nodes
      ensures Valid() && Grows()
      ensures r == Answer(old(Destinations()), Change.Disconnect(fb, name))
      ensures Destinations() == Changed(old(Destinations()), Change.Disconnect(fb, name))
    {
      r := NO_SUCH_OBJECT;
      var id := GetPortId(name, fb.eventInputs);
      if id != INVALID_PORT_ID {
        r := RemoveDestination(ConnectionPoint(fb.number, id));
      }
    }

    /** Gives every destination to the executor's ring, each once and in their order. */
    method TriggerEvent(ring: Ring<ConnectionPoint>)
      requires Valid() && ring.Valid()
      modifies ring`end, ring.list
      ensures Valid() && ring.Valid() && Destinations() == old(Destinations())
      ensures ring.Contents() == PushAll(ring.list.Length, old(ring.Contents()), Destinations())
      ensures Destinations() != [] ==>
        (ring.Contents() == Queue(old(ring.Contents()).items + Destinations(), None)
         <==> old(ring.Contents()).stuck.None? && |old(ring.Contents()).items| + |Destinations()| < ring.list.Length)
    {
      ghost var n, before, ds := ring.list.Length, ring.Contents(), Destinations();
      var it, k := destinations.first, 0;
      while it != null
        invariant Valid() && ring.Valid() && Destinations() == ds
        invariant k <= |ds| && it == At(destinations.nodes, k)
        invariant PushAll(n, ring.Contents(), ds[k..]) == PushAll(n, before, ds)
        decreases |ds| - k
      {
        assert it.data == ds[k] && ds[k..][1..] == ds[k + 1..];
        ring.AddEventEntry(it.data);
        it, k := it.next, k + 1;
      }
      if ds != [] {
        AppendsIffRoom(n, before, ds);
      }
    }
  }
}
