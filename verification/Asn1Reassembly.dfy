/** Receiving data points from a stream that arrives in fragments. */
module Asn1Reassembly {
  import opened Sequences
  import opened Bytes
  import opened DataPoints
  import opened Asn1Codec
  import opened Asn1RoundTrip
  import opened Asn1Prefixes
  import opened Asn1Properties

  /** The state between two deliveries: the RD values, the index of the RD that is filled next
      and the buffered bytes of a data point that is not complete yet. */
  datatype Rx = Rx(rds: seq<Value>, at: nat, pending: seq<Byte>)

  /** The outcome of working through some bytes: the bytes left when the work stopped, the number
      of points and of whole packets completed, and whether it stopped at a point of a wrong type. */
  datatype Consumed = Consumed(rds: seq<Value>, at: nat, left: seq<Byte>, points: nat, packets: nat, mistyped: bool)

  predicate WellTyped(ts: seq<DataType>, rds: seq<Value>, at: nat) {
    HaveTypes(rds, ts) && (if ts == [] then at == 0 else at < |ts|)
  }

  function Consume(ts: seq<DataType>, rds: seq<Value>, at: nat, bs: seq<Byte>): (c: Consumed)
    requires WellTyped(ts, rds, at)
    ensures WellTyped(ts, c.rds, c.at)
    ensures |c.left| <= |bs|
    decreases |bs|
  {
    if bs == [] then Consumed(rds, at, [], 0, 0, false)
    else if ts == [] then
      var c := Consume(ts, rds, at, bs[1..]);
      c.(points := c.points + 1, packets := c.packets + 1)
    else
      var d := DecodePoint(bs, ts[at], rds[at]);
      if d.used == -2 then Consumed(rds, at, bs, 0, 0, true)
      else if d.used <= 0 then Consumed(rds[at := d.value], at, bs, 0, 0, false)
      else
        var full := at + 1 == |ts|;
        var c := Consume(ts, rds[at := d.value], if full then 0 else at + 1, bs[d.used..]);
        c.(points := c.points + 1, packets := if full then c.packets + 1 else c.packets)
  }

  /** Delivery as it should be: buffered and new bytes are one stream, and what is left of it
      stays buffered. After a point of a wrong type the rest is dropped. */
  function Feed(ts: seq<DataType>, s: Rx, bs: seq<Byte>): Rx
    requires WellTyped(ts, s.rds, s.at)
  {
    var c := Consume(ts, s.rds, s.at, s.pending + bs);
    Rx(c.rds, c.at, if c.mistyped then [] else c.left)
  }

  /** Delivery as the code does it: the buffer position is set to zero by the first completed
      point, and only bytes that were not taken from the buffer are stored in it. */
  function Receive(ts: seq<DataType>, s: Rx, bs: seq<Byte>): Rx
    requires WellTyped(ts, s.rds, s.at)
  {
    var c := Consume(ts, s.rds, s.at, s.pending + bs);
    Rx(c.rds, c.at,
      if s.pending == [] then (if c.mistyped then [] else c.left)
      else if c.points == 0 then s.pending + bs
      else [])
  }

  ghost predicate Incomplete(ts: seq<DataType>, rds: seq<Value>, at: nat, bs: seq<Byte>)
    requires WellTyped(ts, rds, at)
  {
    ts != [] &&
    var code := DecodePoint(bs, ts[at], rds[at]).used;
    code == 0 || code == -1
  }

  /** What every delivery leaves behind: buffered bytes are an incomplete, not a mistyped point. */
  ghost predicate Valid(ts: seq<DataType>, s: Rx) {
    WellTyped(ts, s.rds, s.at) && (s.pending == [] || Incomplete(ts, s.rds, s.at, s.pending))
  }

  /** The guard of the faulty case: a delivery on top of buffered bytes completes a point and
      ends inside a later one. */
  ghost predicate LosesTail(ts: seq<DataType>, s: Rx, bs: seq<Byte>)
    requires WellTyped(ts, s.rds, s.at)
  {
    var c := Consume(ts, s.rds, s.at, s.pending + bs);
    s.pending != [] && c.points > 0 && c.left != [] && !c.mistyped
  }

  /** A point is rejected by its first byte alone. */
  lemma RejectedByTag(t: DataType, v: Value, bs: seq<Byte>)
    requires HasType(v, t)
    ensures DecodePoint(bs, t, v).used == -2 <==> bs != [] && IsApplication(bs[0]) && !TagMatches(bs[0], t)
  {
  }

  lemma StillIncomplete(t: DataType, v: Value, bs: seq<Byte>, more: seq<Byte>)
    requires HasType(v, t) && bs != []
    ensures DecodePoint(bs + more, t, v).used == -2 <==> DecodePoint(bs, t, v).used == -2
  {
    hide DecodePoint;
    RejectedByTag(t, v, bs);
    RejectedByTag(t, v, bs + more);
  }

  lemma RetryIncomplete(t: DataType, v: Value, bs: seq<Byte>)
    requires HasType(v, t)
    ensures DecodePoint(bs, t, DecodePoint(bs, t, v).value) == DecodePoint(bs, t, v)
  {
    PointRetry(bs, [], t, v);
    assert bs + [] == bs;
  }

  /** What is left over is empty or an incomplete point. */
  lemma {:induction false} LeftIncomplete(ts: seq<DataType>, rds: seq<Value>, at: nat, bs: seq<Byte>)
    requires WellTyped(ts, rds, at)
    ensures var c := Consume(ts, rds, at, bs);
      c.mistyped || c.left == [] || Incomplete(ts, c.rds, c.at, c.left)
    decreases |bs|
  {
    if bs != [] {
      if ts == [] {
        LeftIncomplete(ts, rds, at, bs[1..]);
      } else {
        var d := DecodePoint(bs, ts[at], rds[at]);
        if d.used > 0 {
          LeftIncomplete(ts, rds[at := d.value], if at + 1 == |ts| then 0 else at + 1, bs[d.used..]);
        } else if d.used != -2 {
          RetryIncomplete(ts[at], rds[at], bs);
        }
      }
    }
  }

  lemma ReceiveKeepsValid(ts: seq<DataType>, s: Rx, bs: seq<Byte>)
    requires Valid(ts, s)
    ensures Valid(ts, Receive(ts, s, bs))
  {
    var all := s.pending + bs;
    LeftIncomplete(ts, s.rds, s.at, all);
    if s.pending != [] {
      StillIncomplete(ts[s.at], s.rds[s.at], s.pending, bs);
      RetryIncomplete(ts[s.at], s.rds[s.at], all);
    }
  }

  /** In every state a delivery can leave behind, the code delivers as it should exactly when
      the delivery is not of the faulty kind. */
  lemma ReceivesRightIffNoTailLost(ts: seq<DataType>, s: Rx, bs: seq<Byte>)
    requires Valid(ts, s)
    ensures Receive(ts, s, bs) == Feed(ts, s, bs) <==> !LosesTail(ts, s, bs)
  {
    if s.pending != [] {
      StillIncomplete(ts[s.at], s.rds[s.at], s.pending, bs);
    }
  }

  lemma ConsumeNothing(ts: seq<DataType>, rds: seq<Value>, at: nat)
    requires WellTyped(ts, rds, at)
    ensures Consume(ts, rds, at, []) == Consumed(rds, at, [], 0, 0, false)
  {
  }

  lemma ConsumeIncomplete(ts: seq<DataType>, rds: seq<Value>, at: nat, bs: seq<Byte>)
    requires WellTyped(ts, rds, at) && bs != [] && Incomplete(ts, rds, at, bs)
    ensures var v := DecodePoint(bs, ts[at], rds[at]).value;
      Consume(ts, rds, at, bs) == Consumed(rds[at := v], at, bs, 0, 0, false)
  {
  }

  /** What an attempt on an incomplete point leaves in its RD does not show in the next attempt. */
  lemma AttemptForgotten(ts: seq<DataType>, rds: seq<Value>, at: nat, a: seq<Byte>, b: seq<Byte>)
    requires WellTyped(ts, rds, at) && a != [] && Incomplete(ts, rds, at, a)
    ensures var v := DecodePoint(a, ts[at], rds[at]).value;
      && WellTyped(ts, rds[at := v], at)
      && Consume(ts, rds[at := v], at, a + b) == Consume(ts, rds, at, a + b)
  {
    hide HasType, DecodePoint;
    var v, all := DecodePoint(a, ts[at], rds[at]).value, a + b;
    PointRetry(a, b, ts[at], rds[at]);
    StillIncomplete(ts[at], rds[at], a, b);
    var w := DecodePoint(all, ts[at], rds[at]).value;
    assert rds[at := v][at := w] == rds[at := w];
  }

  /** Working through a point at the front of the bytes. */
  lemma ConsumeFirst(ts: seq<DataType>, rds: seq<Value>, at: nat, a: seq<Byte>, b: seq<Byte>)
    requires WellTyped(ts, rds, at) && ts != [] && a != [] && DecodePoint(a, ts[at], rds[at]).used > 0
    ensures var d, full := DecodePoint(a, ts[at], rds[at]), at + 1 == |ts|;
      && WellTyped(ts, rds[at := d.value], if full then 0 else at + 1)
      && var c := Consume(ts, rds[at := d.value], if full then 0 else at + 1, a[d.used..] + b);
        Consume(ts, rds, at, a + b)
          == c.(points := c.points + 1, packets := if full then c.packets + 1 else c.packets)
  {
    hide HasType, DecodePoint;
    var d := DecodePoint(a, ts[at], rds[at]);
    PointExtends(a, b, ts[at], rds[at]);
    assert (a + b)[d.used..] == a[d.used..] + b;
  }

  /** Without RDs every byte passes for a point. */
  lemma ConsumeByte(rds: seq<Value>, a: seq<Byte>, b: seq<Byte>)
    requires WellTyped([], rds, 0) && a != []
    ensures var c := Consume([], rds, 0, a[1..] + b);
      Consume([], rds, 0, a + b) == c.(points := c.points + 1, packets := c.packets + 1)
  {
    assert (a + b)[1..] == a[1..] + b;
  }

  lemma ConsumeRejected(ts: seq<DataType>, rds: seq<Value>, at: nat, bs: seq<Byte>)
    requires WellTyped(ts, rds, at) && bs != [] && ts != [] && DecodePoint(bs, ts[at], rds[at]).used == -2
    ensures Consume(ts, rds, at, bs).mistyped
  {
  }

  /** Working through a stream can be interrupted anywhere before a mistyped point. */
  lemma {:induction false} ConsumeResumes(ts: seq<DataType>, rds: seq<Value>, at: nat, a: seq<Byte>, b: seq<Byte>)
    requires WellTyped(ts, rds, at) && !Consume(ts, rds, at, a).mistyped
    ensures var c := Consume(ts, rds, at, a);
      var r := Consume(ts, c.rds, c.at, c.left + b);
      Consume(ts, rds, at, a + b) == r.(points := c.points + r.points, packets := c.packets + r.packets)
    decreases |a|
  {
    hide HasType, DecodePoint, Consume;
    assert a + [] == a && [] + b == b;
    if a == [] {
      ConsumeNothing(ts, rds, at);
    } else if ts == [] {
      ConsumeByte(rds, a, b);
      ConsumeByte(rds, a, []);
      assert a[1..] + [] == a[1..];
      ConsumeResumes(ts, rds, at, a[1..], b);
    } else {
      var d := DecodePoint(a, ts[at], rds[at]);
      if d.used > 0 {
        ConsumeFirst(ts, rds, at, a, b);
        ConsumeFirst(ts, rds, at, a, []);
        assert a[d.used..] + [] == a[d.used..];
        ConsumeResumes(ts, rds[at := d.value], if at + 1 == |ts| then 0 else at + 1, a[d.used..], b);
      } else if d.used == -2 {
        ConsumeRejected(ts, rds, at, a);
      } else {
        ConsumeIncomplete(ts, rds, at, a);
        AttemptForgotten(ts, rds, at, a, b);
      }
    }
  }

  lemma OnePacketMore(packets: nat, n: nat)
    ensures (packets + 1) * n == packets * n + n
  {
  }

  /** Every completed point fills the next RD, and the last RD completes a packet. */
  lemma {:induction false} PacketsCounted(ts: seq<DataType>, rds: seq<Value>, at: nat, bs: seq<Byte>)
    requires WellTyped(ts, rds, at)
    ensures var c := Consume(ts, rds, at, bs);
      if ts == [] then c.points == c.packets == |bs| else c.packets * |ts| + c.at == at + c.points && c.at < |ts|
    decreases |bs|
  {
    hide HasType, DecodePoint, Consume;
    assert bs + [] == bs;
    if bs == [] {
      ConsumeNothing(ts, rds, at);
    } else if ts == [] {
      ConsumeByte(rds, bs, []);
      assert bs[1..] + [] == bs[1..];
      PacketsCounted(ts, rds, at, bs[1..]);
    } else {
      var d := DecodePoint(bs, ts[at], rds[at]);
      if d.used > 0 {
        ConsumeFirst(ts, rds, at, bs, []);
        assert bs[d.used..] + [] == bs[d.used..];
        var next := if at + 1 == |ts| then 0 else at + 1;
        PacketsCounted(ts, rds[at := d.value], next, bs[d.used..]);
        OnePacketMore(Consume(ts, rds[at := d.value], next, bs[d.used..]).packets, |ts|);
      } else {
        NoPointTaken(ts, rds, at, bs);
      }
    }
  }

  lemma NoPointTaken(ts: seq<DataType>, rds: seq<Value>, at: nat, bs: seq<Byte>)
    requires WellTyped(ts, rds, at) && bs != [] && ts != [] && DecodePoint(bs, ts[at], rds[at]).used <= 0
    ensures var c := Consume(ts, rds, at, bs);
      c.points == c.packets == 0 && c.at == at && c.left == bs
  {
    hide HasType, DecodePoint;
  }

  /** An octet with the class bit of an application type, bit 7, that no value of the type is sent with. */
  ghost predicate SentWithAnotherOctet(b: Byte, t: DataType) {
    b / 64 % 2 == 1 && forall v :: HasType(v, t) ==> EncodePoint(v, t)[0] != b
  }

  lemma OtherOctet(b: Byte, t: DataType, w: Value)
    requires HasType(w, t)
    ensures SentWithAnotherOctet(b, t) <==> IsApplication(b) && !TagMatches(b, t)
  {
    hide EncodeValue;
    if t.BOOL? {
      assert EncodePoint(Bool(true), BOOL)[0] == APPLICATION + 1 && EncodePoint(Bool(false), BOOL)[0] == APPLICATION;
    } else {
      assert EncodePoint(w, t)[0] == TypeTag(t);
    }
  }

  /** The work stops for a wrong type exactly at such an octet. */
  lemma {:induction false} MistypedIff(ts: seq<DataType>, rds: seq<Value>, at: nat, bs: seq<Byte>)
    requires WellTyped(ts, rds, at)
    ensures var c := Consume(ts, rds, at, bs);
      c.mistyped <==> ts != [] && c.left != [] && SentWithAnotherOctet(c.left[0], ts[c.at])
    decreases |bs|
  {
    hide HasType, DecodePoint, SentWithAnotherOctet;
    if bs != [] {
      if ts == [] {
        MistypedIff(ts, rds, at, bs[1..]);
      } else {
        var d := DecodePoint(bs, ts[at], rds[at]);
        if d.used > 0 {
          MistypedIff(ts, rds[at := d.value], if at + 1 == |ts| then 0 else at + 1, bs[d.used..]);
        } else {
          RejectedByTag(ts[at], rds[at], bs);
          OtherOctet(bs[0], ts[at], rds[at]);
        }
      }
    }
  }

  // ---- whole streams ----

  function Concat(fragments: seq<seq<Byte>>): seq<Byte> {
    if fragments == [] then [] else fragments[0] + Concat(fragments[1..])
  }

  function ReceiveAll(ts: seq<DataType>, s: Rx, fragments: seq<seq<Byte>>): Rx
    requires WellTyped(ts, s.rds, s.at)
    decreases |fragments|
  {
    if fragments == [] then s else ReceiveAll(ts, Receive(ts, s, fragments[0]), fragments[1..])
  }

  ghost predicate NoTailLost(ts: seq<DataType>, s: Rx, fragments: seq<seq<Byte>>)
    requires WellTyped(ts, s.rds, s.at)
    decreases |fragments|
  {
    fragments == [] ||
    (!LosesTail(ts, s, fragments[0]) && NoTailLost(ts, Receive(ts, s, fragments[0]), fragments[1..]))
  }

  /** Reassembly. Delivering a stream that holds no mistyped point in fragments, none of the
      faulty kind, leaves the same RD values, position and buffered bytes as delivering it at once. */
  lemma {:induction false} Reassembly(ts: seq<DataType>, s: Rx, fragments: seq<seq<Byte>>)
    requires Valid(ts, s) && NoTailLost(ts, s, fragments) && fragments != []
    requires !Consume(ts, s.rds, s.at, s.pending + Concat(fragments)).mistyped
    ensures ReceiveAll(ts, s, fragments) == Feed(ts, s, Concat(fragments))
    decreases |fragments|
  {
    hide HasType, DecodePoint, Consume;
    var a, rest := fragments[0], fragments[1..];
    var next := Receive(ts, s, a);
    ReceivesRightIffNoTailLost(ts, s, a);
    ReceiveKeepsValid(ts, s, a);
    if rest == [] {
      assert Concat(fragments) == a;
    } else {
      assert s.pending + Concat(fragments) == s.pending + a + Concat(rest);
      NotMistypedBefore(ts, s.rds, s.at, s.pending + a, Concat(rest));
      ConsumeResumes(ts, s.rds, s.at, s.pending + a, Concat(rest));
      Reassembly(ts, next, rest);
    }
  }

  lemma {:induction false} NotMistypedBefore(ts: seq<DataType>, rds: seq<Value>, at: nat, a: seq<Byte>, b: seq<Byte>)
    requires WellTyped(ts, rds, at) && !Consume(ts, rds, at, a + b).mistyped
    ensures !Consume(ts, rds, at, a).mistyped
    decreases |a|
  {
    hide HasType, DecodePoint, Consume;
    assert a + [] == a;
    if a == [] {
      ConsumeNothing(ts, rds, at);
    } else if ts == [] {
      ConsumeByte(rds, a, b);
      ConsumeByte(rds, a, []);
      assert a[1..] + [] == a[1..];
      NotMistypedBefore(ts, rds, at, a[1..], b);
    } else {
      var d := DecodePoint(a, ts[at], rds[at]);
      if d.used > 0 {
        ConsumeFirst(ts, rds, at, a, b);
        ConsumeFirst(ts, rds, at, a, []);
        assert a[d.used..] + [] == a[d.used..];
        NotMistypedBefore(ts, rds[at := d.value], if at + 1 == |ts| then 0 else at + 1, a[d.used..], b);
      } else {
        StillIncomplete(ts[at], rds[at], a, b);
        if d.used == -2 {
          ConsumeRejected(ts, rds, at, a + b);
        } else {
          ConsumeIncomplete(ts, rds, at, a);
        }
      }
    }
  }

  // ---- packets ----

  /** The data points of a function block, one after the other. */
  function EncodePacket(vs: seq<Value>, ts: seq<DataType>): seq<Byte>
    requires HaveTypes(vs, ts)
  {
    if ts == [] then [] else EncodePoint(vs[0], ts[0]) + EncodePacket(vs[1..], ts[1..])
  }

  predicate AllReadable(ts: seq<DataType>) {
    forall i :: 0 <= i < |ts| ==> IsApplication(TypeTag(ts[i]))
  }

  lemma ConsumePoint(ts: seq<DataType>, rds: seq<Value>, at: nat, first: seq<Byte>, rest: seq<Byte>, r: Value)
    requires WellTyped(ts, rds, at) && ts != [] && first != []
    requires DecodePoint(first + rest, ts[at], rds[at]) == Decoded(|first|, r)
    ensures var full := at + 1 == |ts|;
      && WellTyped(ts, rds[at := r], if full then 0 else at + 1)
      && var c := Consume(ts, rds[at := r], if full then 0 else at + 1, rest);
        Consume(ts, rds, at, first + rest)
          == c.(points := c.points + 1, packets := if full then c.packets + 1 else c.packets)
  {
    hide HasType, DecodePoint;
    assert (first + rest)[|first|..] == rest;
  }

  /** The first RDs hold the done values, the packet goes on with values vs for the targets ws. */
  ghost predicate MidPacket(
      ts: seq<DataType>, done: seq<Value>, vs: seq<Value>, ws: seq<Value>, us: seq<DataType>)
  {
    && HaveTypes(vs, us) && HaveTypes(ws, us) && HaveTypes(done + ws, ts) && AllReadable(ts)
    && us != [] && |ts| == |done| + |us| && ts[|done|..] == us
  }

  lemma MidPacketStep(ts: seq<DataType>, done: seq<Value>, vs: seq<Value>, ws: seq<Value>, us: seq<DataType>)
    returns (r: Value)
    requires MidPacket(ts, done, vs, ws, us)
    ensures |vs| == |ws| == |us| > 0
    ensures var i, full := |done|, |us| == 1;
      && HaveTypes(done + [r] + ws[1..], ts) && HaveTypes(vs[1..], us[1..]) && HaveTypes(ws[1..], us[1..])
      && done + ReceivedFields(vs, ws, us) == done + [r] + ReceivedFields(vs[1..], ws[1..], us[1..])
      && (!full ==> MidPacket(ts, done + [r], vs[1..], ws[1..], us[1..]))
      && var c := Consume(ts, done + [r] + ws[1..], if full then 0 else i + 1, EncodePacket(vs[1..], us[1..]));
        Consume(ts, done + ws, i, EncodePacket(vs, us))
          == c.(points := c.points + 1, packets := if full then c.packets + 1 else c.packets)
  {
    hide DecodePoint, Consume, EncodePoint, Received, HasType;
    var i, rds := |done|, done + ws;
    assert ts[i] == us[0] && rds[i] == ws[0];
    var first, rest := EncodePoint(vs[0], us[0]), EncodePacket(vs[1..], us[1..]);
    r := Received(vs[0], ws[0], us[0]);
    PointRoundTrip(vs[0], ws[0], us[0], rest);
    ConsumePoint(ts, rds, i, first, rest, r);
    assert rds[i := r] == done + [r] + ws[1..];
    Regroup(done, [r], ReceivedFields(vs[1..], ws[1..], us[1..]));
  }

  lemma {:induction false} RestOfPacket(
      ts: seq<DataType>, done: seq<Value>, vs: seq<Value>, ws: seq<Value>, us: seq<DataType>)
    requires MidPacket(ts, done, vs, ws, us)
    ensures Consume(ts, done + ws, |done|, EncodePacket(vs, us))
      == Consumed(done + ReceivedFields(vs, ws, us), 0, [], |us|, 1, false)
    decreases |us|
  {
    hide DecodePoint, Consume, EncodePoint, EncodePacket, Received, HasType, HaveTypes;
    var r := MidPacketStep(ts, done, vs, ws, us);
    if |us| > 1 {
      RestOfPacket(ts, done + [r], vs[1..], ws[1..], us[1..]);
    } else {
      ConsumeNothing(ts, done + [r] + ws[1..], 0);
      assert EncodePacket(vs[1..], us[1..]) == [] by { NothingToEncode(vs[1..], us[1..]); }
    }
  }

  lemma NothingToEncode(vs: seq<Value>, us: seq<DataType>)
    requires HaveTypes(vs, us) && us == []
    ensures EncodePacket(vs, us) == []
  {
  }

  /** One delivery of a whole packet stores every value, returns to the first RD and buffers nothing. */
  lemma PacketDelivered(vs: seq<Value>, ts: seq<DataType>, rds: seq<Value>)
    requires HaveTypes(vs, ts) && HaveTypes(rds, ts) && AllReadable(ts) && ts != []
    ensures Consume(ts, rds, 0, EncodePacket(vs, ts))
      == Consumed(ReceivedFields(vs, rds, ts), 0, [], |ts|, 1, false)
  {
    assert [] + rds == rds && [] + ReceivedFields(vs, rds, ts) == ReceivedFields(vs, rds, ts);
    RestOfPacket(ts, [], vs, rds, ts);
  }

  /** A packet may be cut in two anywhere. */
  lemma TwoFragmentsSuffice(vs: seq<Value>, ts: seq<DataType>, rds: seq<Value>, a: seq<Byte>, b: seq<Byte>)
    requires HaveTypes(vs, ts) && HaveTypes(rds, ts) && AllReadable(ts) && ts != []
    requires a + b == EncodePacket(vs, ts)
    ensures ReceiveAll(ts, Rx(rds, 0, []), [a, b]) == Rx(ReceivedFields(vs, rds, ts), 0, [])
  {
    hide HasType, DecodePoint, EncodePacket, ReceivedFields;
    var s := Rx(rds, 0, []);
    PacketDelivered(vs, ts, rds);
    NotMistypedBefore(ts, rds, 0, a, b);
    ConsumeResumes(ts, rds, 0, a, b);
    assert s.pending + a == a;
    assert Receive(ts, s, a) == Rx(Consume(ts, rds, 0, a).rds, Consume(ts, rds, 0, a).at, Consume(ts, rds, 0, a).left);
    assert [a, b][1..] == [b] && [b][1..] == [];
    var next := Receive(ts, s, a);
    assert Receive(ts, next, b) == Rx(ReceivedFields(vs, rds, ts), 0, []);
    assert ReceiveAll(ts, next, [b]) == Receive(ts, next, b);
  }

  /** The faulty case occurs for every packet of two or more points: if the first delivery ends
      inside the first point and the second one inside the second point, then the j bytes of the
      second point that have arrived are lost, where they should be buffered. */
  lemma CutInsideTwoPointsLosesTail(
      vs: seq<Value>, ts: seq<DataType>, rds: seq<Value>, i: nat, j: nat)
    requires HaveTypes(vs, ts) && HaveTypes(rds, ts) && AllReadable(ts) && |ts| >= 2
    requires 0 < i < |EncodePoint(vs[0], ts[0])| && 0 < j < |EncodePoint(vs[1], ts[1])|
    ensures var first, second := EncodePoint(vs[0], ts[0]), EncodePoint(vs[1], ts[1]);
      var s := Receive(ts, Rx(rds, 0, []), first[..i]);
      var b := first[i..] + second[..j];
      && LosesTail(ts, s, b)
      && Feed(ts, s, b).pending == second[..j]
      && Receive(ts, s, b) == Feed(ts, s, b).(pending := [])
  {
    hide DecodePoint, EncodePoint, Consume, HasType, Received;
    var first, second := EncodePoint(vs[0], ts[0]), EncodePoint(vs[1], ts[1]);
    var a, b := first[..i], first[i..] + second[..j];
    PointPrefixIncomplete(vs[0], rds[0], ts[0], i);
    assert [] + a == a;
    ConsumeIncomplete(ts, rds, 0, a);
    var s := Receive(ts, Rx(rds, 0, []), a);
    assert s.pending + b == first + second[..j];
    PointRoundTrip(vs[0], s.rds[0], ts[0], second[..j]);
    var r := Received(vs[0], s.rds[0], ts[0]);
    ConsumePoint(ts, s.rds, 0, first, second[..j], r);
    var rds' := s.rds[0 := r];
    PointPrefixIncomplete(vs[1], rds'[1], ts[1], j);
    ConsumeIncomplete(ts, rds', 1, second[..j]);
  }

  // ---- after an array with other elements ----

  /** The bytes of an array whose element type is not that of the RD are never taken. */
  lemma StaysDeaf(ts: seq<DataType>, rds: seq<Value>, at: nat, v: Value, e: DataType, behind: seq<Byte>)
    requires WellTyped(ts, rds, at) && at < |ts| && ts[at].ARRAY? && StructFree(ts[at].elem)
    requires HasType(v, ARRAY(e)) && StructFree(e) && e != ts[at].elem
    ensures var bs := EncodePoint(v, ARRAY(e)) + behind;
      bs != [] && Consume(ts, rds, at, bs) == Consumed(rds, at, bs, 0, 0, false)
  {
    hide DecodePoint, EncodePoint, MeetsBool;
    ArrayMismatchLooksIncomplete(v, e, rds[at], ts[at].elem, behind);
    assert ts[at] == ARRAY(ts[at].elem) && rds[at := rds[at]] == rds;
    ConsumeIncomplete(ts, rds, at, EncodePoint(v, ARRAY(e)) + behind);
  }

  /** From then on the receiver is deaf: whatever is delivered, no RD changes any more, and all of it
      is buffered behind the bytes of the array. */
  lemma {:induction false} DeafForEver(
      ts: seq<DataType>, rds: seq<Value>, at: nat, v: Value, e: DataType, behind: seq<Byte>, fragments: seq<seq<Byte>>)
    requires WellTyped(ts, rds, at) && at < |ts| && ts[at].ARRAY? && StructFree(ts[at].elem)
    requires HasType(v, ARRAY(e)) && StructFree(e) && e != ts[at].elem
    ensures var bs := EncodePoint(v, ARRAY(e)) + behind;
      ReceiveAll(ts, Rx(rds, at, bs), fragments) == Rx(rds, at, bs + Concat(fragments))
    decreases |fragments|
  {
    hide HasType, HaveTypes, DecodePoint, EncodePoint, Consume;
    var bs := EncodePoint(v, ARRAY(e)) + behind;
    if fragments == [] {
      assert bs + Concat(fragments) == bs;
    } else {
      var f, rest := fragments[0], fragments[1..];
      Regroup(EncodePoint(v, ARRAY(e)), behind, f);
      Regroup(bs, f, Concat(rest));
      StaysDeaf(ts, rds, at, v, e, behind);
      StaysDeaf(ts, rds, at, v, e, behind + f);
      assert Receive(ts, Rx(rds, at, bs), f) == Rx(rds, at, bs + f);
      DeafForEver(ts, rds, at, v, e, behind + f, rest);
    }
  }

  /** One delivery that begins with such an array is enough. */
  lemma DeafAfterMismatch(
      ts: seq<DataType>, rds: seq<Value>, at: nat, v: Value, e: DataType, behind: seq<Byte>, fragments: seq<seq<Byte>>)
    requires WellTyped(ts, rds, at) && at < |ts| && ts[at].ARRAY? && StructFree(ts[at].elem)
    requires HasType(v, ARRAY(e)) && StructFree(e) && e != ts[at].elem
    ensures var bs := EncodePoint(v, ARRAY(e)) + behind;
      ReceiveAll(ts, Rx(rds, at, []), [bs] + fragments) == Rx(rds, at, bs + Concat(fragments))
  {
    hide HasType, HaveTypes, DecodePoint, EncodePoint, Consume;
    var bs := EncodePoint(v, ARRAY(e)) + behind;
    StaysDeaf(ts, rds, at, v, e, behind);
    assert [] + bs == bs;
    assert Receive(ts, Rx(rds, at, []), bs) == Rx(rds, at, bs);
    assert ([bs] + fragments)[1..] == fragments;
    DeafForEver(ts, rds, at, v, e, behind, fragments);
  }
}
