/** Reassembly told by the positions at which a stream of data points is cut. */
module Asn1Cuts {
  import opened Sequences
  import opened Bytes
  import opened DataPoints
  import opened Asn1Codec
  import opened Asn1Properties
  import opened Asn1RoundTrip
  import opened Asn1Reassembly

  /** The position of the RD behind the one at i; the last is followed by the first. */
  function NextRd(n: nat, i: nat): nat {
    if i + 1 == n then 0 else i + 1
  }

  /** The data points of the stream have the types that the receiver expects, packet by packet. */
  predicate Expected(ts: seq<DataType>, at: nat, us: seq<DataType>)
    decreases |us|
  {
    us == [] || (at < |ts| && us[0] == ts[at] && Expected(ts, NextRd(|ts|, at), us[1..]))
  }

  /** How many points end within the first a bytes of a stream. */
  function PointsWithin(vs: seq<Value>, us: seq<DataType>, a: nat): nat
    requires HaveTypes(vs, us)
    decreases |us|
  {
    if us == [] || a < |EncodePoint(vs[0], us[0])| then 0
    else 1 + PointsWithin(vs[1..], us[1..], a - |EncodePoint(vs[0], us[0])|)
  }

  /** How many bytes of the point in which a lies are in front of a; zero at the start of a point. */
  function BytesInto(vs: seq<Value>, us: seq<DataType>, a: nat): nat
    requires HaveTypes(vs, us)
    decreases |us|
  {
    if us == [] || a < |EncodePoint(vs[0], us[0])| then a
    else BytesInto(vs[1..], us[1..], a - |EncodePoint(vs[0], us[0])|)
  }

  /** What a receiver has done with the first a bytes of the stream. */
  lemma {:induction false} ConsumeUpTo(
      ts: seq<DataType>, rds: seq<Value>, at: nat, vs: seq<Value>, us: seq<DataType>, a: nat)
    requires WellTyped(ts, rds, at) && AllReadable(ts) && ts != []
    requires HaveTypes(vs, us) && Expected(ts, at, us) && a <= |EncodePacket(vs, us)|
    ensures var c := Consume(ts, rds, at, EncodePacket(vs, us)[..a]);
      !c.mistyped && c.points == PointsWithin(vs, us, a) && |c.left| == BytesInto(vs, us, a)
    decreases |us|
  {
    hide DecodePoint, EncodePoint, HasType, Received;
    var stream := EncodePacket(vs, us);
    if a == 0 || us == [] {
      assert stream[..a] == [];
      NothingBefore(vs, us);
      ConsumeNothing(ts, rds, at);
    } else {
      var first, rest := EncodePoint(vs[0], us[0]), EncodePacket(vs[1..], us[1..]);
      if a < |first| {
        assert stream[..a] == first[..a];
        PointPrefixIncomplete(vs[0], rds[at], ts[at], a);
        ConsumeIncomplete(ts, rds, at, first[..a]);
      } else {
        var r := Received(vs[0], rds[at], us[0]);
        assert stream[..a] == first + rest[..a - |first|];
        PointRoundTrip(vs[0], rds[at], us[0], rest[..a - |first|]);
        ConsumePoint(ts, rds, at, first, rest[..a - |first|], r);
        ConsumeUpTo(ts, rds[at := r], NextRd(|ts|, at), vs[1..], us[1..], a - |first|);
      }
    }
  }

  lemma NothingBefore(vs: seq<Value>, us: seq<DataType>)
    requires HaveTypes(vs, us)
    ensures PointsWithin(vs, us, 0) == 0 && BytesInto(vs, us, 0) == 0
  {
  }

  /** What a receiver that was handed the first a bytes of the stream at once is left with. */
  function StateAt(ts: seq<DataType>, rds: seq<Value>, at: nat, stream: seq<Byte>, a: nat): Rx
    requires WellTyped(ts, rds, at) && a <= |stream|
  {
    Receive(ts, Rx(rds, at, []), stream[..a])
  }

  /** The fragment from a to b begins inside one point and ends inside a later one. */
  predicate Faulty(vs: seq<Value>, us: seq<DataType>, a: nat, b: nat)
    requires HaveTypes(vs, us)
  {
    BytesInto(vs, us, a) > 0 && BytesInto(vs, us, b) > 0 && PointsWithin(vs, us, a) < PointsWithin(vs, us, b)
  }

  /** How the state at b comes from the one at a. */
  lemma FromTo(ts: seq<DataType>, rds: seq<Value>, at: nat, vs: seq<Value>, us: seq<DataType>, a: nat, b: nat)
    requires WellTyped(ts, rds, at) && AllReadable(ts) && ts != []
    requires HaveTypes(vs, us) && Expected(ts, at, us) && a <= b <= |EncodePacket(vs, us)|
    ensures var stream := EncodePacket(vs, us);
      var s, t := StateAt(ts, rds, at, stream, a), StateAt(ts, rds, at, stream, b);
      var c := Consume(ts, s.rds, s.at, s.pending + stream[a..b]);
      && c.rds == t.rds && c.at == t.at && c.left == t.pending && !c.mistyped
      && |s.pending| == BytesInto(vs, us, a) && |c.left| == BytesInto(vs, us, b)
      && PointsWithin(vs, us, a) + c.points == PointsWithin(vs, us, b)
  {
    hide HasType, HaveTypes, Consume, EncodePacket, PointsWithin, BytesInto, Expected;
    var stream := EncodePacket(vs, us);
    ConsumeUpTo(ts, rds, at, vs, us, a);
    ConsumeUpTo(ts, rds, at, vs, us, b);
    assert [] + stream[..a] == stream[..a] && [] + stream[..b] == stream[..b];
    assert stream[..a] + stream[a..b] == stream[..b];
    ConsumeResumes(ts, rds, at, stream[..a], stream[a..b]);
  }

  /** A delivery loses the tail of what has arrived if and only if it begins inside one point of
      the stream and ends inside a later one. */
  lemma LosesTailIffFaulty(
      ts: seq<DataType>, rds: seq<Value>, at: nat, vs: seq<Value>, us: seq<DataType>, a: nat, b: nat)
    requires WellTyped(ts, rds, at) && AllReadable(ts) && ts != []
    requires HaveTypes(vs, us) && Expected(ts, at, us) && a <= b <= |EncodePacket(vs, us)|
    ensures var stream := EncodePacket(vs, us);
      LosesTail(ts, StateAt(ts, rds, at, stream, a), stream[a..b]) <==> Faulty(vs, us, a, b)
    ensures var stream := EncodePacket(vs, us);
      !Faulty(vs, us, a, b) ==>
        Receive(ts, StateAt(ts, rds, at, stream, a), stream[a..b]) == StateAt(ts, rds, at, stream, b)
  {
    hide HasType, HaveTypes, Consume, EncodePacket, PointsWithin, BytesInto, Expected, StateAt;
    var stream := EncodePacket(vs, us);
    FromTo(ts, rds, at, vs, us, a, b);
    var s := StateAt(ts, rds, at, stream, a);
    StateAtValid(ts, rds, at, stream, a);
    ReceivesRightIffNoTailLost(ts, s, stream[a..b]);
  }

  lemma StateAtValid(ts: seq<DataType>, rds: seq<Value>, at: nat, stream: seq<Byte>, a: nat)
    requires WellTyped(ts, rds, at) && a <= |stream|
    ensures Valid(ts, StateAt(ts, rds, at, stream, a))
  {
    hide HasType, Consume, Receive;
    ReceiveKeepsValid(ts, Rx(rds, at, []), stream[..a]);
  }

  /** No fragment, counted from position a, begins inside one point and ends inside a later one. */
  predicate SafelyCut(vs: seq<Value>, us: seq<DataType>, a: nat, fragments: seq<seq<Byte>>)
    requires HaveTypes(vs, us)
    decreases |fragments|
  {
    fragments == [] ||
    (!Faulty(vs, us, a, a + |fragments[0]|) && SafelyCut(vs, us, a + |fragments[0]|, fragments[1..]))
  }

  /** The rest of the stream behind a, delivered in fragments. */
  lemma {:induction false} RestOfStream(
      ts: seq<DataType>, rds: seq<Value>, at: nat, vs: seq<Value>, us: seq<DataType>, a: nat,
      fragments: seq<seq<Byte>>)
    requires WellTyped(ts, rds, at) && AllReadable(ts) && ts != []
    requires HaveTypes(vs, us) && Expected(ts, at, us) && a <= |EncodePacket(vs, us)|
    requires Concat(fragments) == EncodePacket(vs, us)[a..]
    ensures var stream := EncodePacket(vs, us);
      var s := StateAt(ts, rds, at, stream, a);
      && (NoTailLost(ts, s, fragments) <==> SafelyCut(vs, us, a, fragments))
      && (SafelyCut(vs, us, a, fragments) ==> ReceiveAll(ts, s, fragments) == StateAt(ts, rds, at, stream, |stream|))
    decreases |fragments|
  {
    hide HasType, HaveTypes, Consume, EncodePacket, Faulty, Expected, StateAt, Receive, LosesTail, Valid;
    var stream := EncodePacket(vs, us);
    var s := StateAt(ts, rds, at, stream, a);
    if fragments == [] {
      assert a == |stream|;
    } else {
      var b := a + |fragments[0]|;
      CutOff(stream, a, fragments[0], Concat(fragments[1..]));
      LosesTailIffFaulty(ts, rds, at, vs, us, a, b);
      if !Faulty(vs, us, a, b) {
        RestOfStream(ts, rds, at, vs, us, b, fragments[1..]);
      }
    }
  }

  /** Reassembly by cut positions. A stream of data points of the expected types, one packet behind
      the other, loses no tail if and only if no fragment of it begins inside one point and ends
      inside a later one, and then the fragments leave what the stream leaves in one delivery. */
  lemma ReassembledIfSafelyCut(
      ts: seq<DataType>, rds: seq<Value>, at: nat, vs: seq<Value>, us: seq<DataType>, fragments: seq<seq<Byte>>)
    requires WellTyped(ts, rds, at) && AllReadable(ts) && ts != []
    requires HaveTypes(vs, us) && Expected(ts, at, us) && Concat(fragments) == EncodePacket(vs, us)
    ensures var s := Rx(rds, at, []);
      && (NoTailLost(ts, s, fragments) <==> SafelyCut(vs, us, 0, fragments))
      && (SafelyCut(vs, us, 0, fragments) ==>
        ReceiveAll(ts, s, fragments) == Receive(ts, s, EncodePacket(vs, us)))
  {
    hide HasType, HaveTypes, EncodePacket, SafelyCut, NoTailLost, ReceiveAll, Expected;
    var stream := EncodePacket(vs, us);
    assert stream[..0] == [] && stream[0..] == stream && stream[..|stream|] == stream;
    var s := Rx(rds, at, []);
    ConsumeNothing(ts, rds, at);
    assert s.pending + stream[..0] == [];
    assert StateAt(ts, rds, at, stream, 0) == s;
    RestOfStream(ts, rds, at, vs, us, 0, fragments);
  }

  lemma {:induction false} ExpectsItsPacket(ts: seq<DataType>, i: nat)
    requires i < |ts|
    ensures Expected(ts, i, ts[i..])
    decreases |ts| - i
  {
    assert ts[i..][0] == ts[i] && ts[i..][1..] == ts[i + 1..];
    if i + 1 < |ts| {
      ExpectsItsPacket(ts, i + 1);
    } else {
      assert ts[i + 1..] == [];
    }
  }

  /** A packet that is cut safely, into however many fragments, arrives as a whole. */
  lemma PacketInFragments(vs: seq<Value>, ts: seq<DataType>, rds: seq<Value>, fragments: seq<seq<Byte>>)
    requires HaveTypes(vs, ts) && HaveTypes(rds, ts) && AllReadable(ts) && ts != []
    requires Concat(fragments) == EncodePacket(vs, ts) && SafelyCut(vs, ts, 0, fragments)
    ensures ReceiveAll(ts, Rx(rds, 0, []), fragments) == Rx(ReceivedFields(vs, rds, ts), 0, [])
  {
    assert WellTyped(ts, rds, 0);
    hide HasType, HaveTypes, EncodePacket, SafelyCut, NoTailLost, ReceiveAll, Expected, Consume, ReceivedFields;
    ExpectsItsPacket(ts, 0);
    assert ts[0..] == ts;
    ReassembledIfSafelyCut(ts, rds, 0, vs, ts, fragments);
    PacketDelivered(vs, ts, rds);
    assert [] + EncodePacket(vs, ts) == EncodePacket(vs, ts);
  }
}
