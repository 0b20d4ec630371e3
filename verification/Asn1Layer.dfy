/** The communication layer object: its serialization buffer, its fragment buffer and the two
    directions of data. */
module Asn1Layer {
  import opened Bytes
  import opened DataPoints
  import opened Asn1Codec
  import opened Asn1Properties
  import opened Asn1Reassembly
  import opened Asn1Attempts
  import opened Asn1Sending
  import opened Asn1Serializer
  import opened Asn1Deserializer

  datatype Response = Nothing | ProcessDataOk | DataTypeError

  method SumOfSizes(ts: seq<DataType>) returns (n: nat)
    ensures n == KnownSizes(ts)
  {
    n := 0;
    for i := 0 to |ts|
      invariant n + KnownSizes(ts[i..]) == KnownSizes(ts)
    {
      assert ts[i..][1..] == ts[i + 1..];
      var typeSize := TableSize(ts[i]);
      if typeSize.Some? {
        n := n + typeSize.value + 1;
      }
    }
  }

  function ResponseTo(c: Consumed): Response {
    if c.mistyped then DataTypeError else if c.packets > 0 then ProcessDataOk else Nothing
  }

  /** A delivery is answered with an error if and only if it stops at a data point of another type,
      with success if it has filled the last RD at least once before that, and otherwise not at all. */
  lemma AnsweredIff(ts: seq<DataType>, rds: seq<Value>, at: nat, bs: seq<Byte>)
    requires WellTyped(ts, rds, at)
    ensures var c := Consume(ts, rds, at, bs);
      var wrong := ts != [] && c.left != [] && SentWithAnotherOctet(c.left[0], ts[c.at]);
      && (ResponseTo(c) == DataTypeError <==> wrong)
      && (ResponseTo(c) == ProcessDataOk <==> !wrong && c.points > 0 && at + c.points >= |ts|)
  {
    hide HasType, HaveTypes, Consume, SentWithAnotherOctet;
    MistypedIff(ts, rds, at, bs);
    PacketsCounted(ts, rds, at, bs);
    var c := Consume(ts, rds, at, bs);
    if |ts| > 0 {
      AnyPacket(c.packets, |ts|, c.at, at + c.points);
    }
  }

  lemma AnyPacket(packets: nat, n: nat, at: nat, points: nat)
    requires packets * n + at == points && at < n
    ensures packets > 0 <==> points >= n
  {
    if packets > 0 {
      assert packets * n == (packets - 1) * n + n;
      assert (packets - 1) * n >= 0;
    }
  }

  lemma PacketNotEmpty(vs: seq<Value>, ts: seq<DataType>)
    requires HaveTypes(vs, ts)
    ensures |vs| == |ts| && (|ts| > 0 ==> |EncodePacket(vs, ts)| > 0)
  {
    hide HasType, EncodePoint;
  }

  /** Where the packet loop stands: the first n bytes of packet and attempt are in the buffer, what
      is left of both belongs to the data points from i on. */
  ghost predicate PointsDone(vs: seq<Value>, ts: seq<DataType>, size: nat, i: nat, n: int)
    requires HaveTypes(vs, ts) && i <= |ts|
  {
    && n <= size
    && Abreast(EncodePacket(vs, ts), AttemptPacket(vs, ts, size), n,
      EncodePacket(vs[i..], ts[i..]), AttemptPacket(vs[i..], ts[i..], size - n))
  }

  lemma NoneDone(vs: seq<Value>, ts: seq<DataType>, size: nat)
    requires HaveTypes(vs, ts)
    ensures PointsDone(vs, ts, size, 0, 0)
  {
    hide HasType, EncodePacket, AttemptPacket;
    assert vs[0..] == vs && ts[0..] == ts;
  }

  /** The data points from i on begin with the i-th. */
  lemma PointsFrom(vs: seq<Value>, ts: seq<DataType>, i: nat, room: nat)
    requires HaveTypes(vs, ts) && i < |ts|
    ensures HasType(vs[i], ts[i])
    ensures var part, left := EncodePoint(vs[i], ts[i]), EncodePacket(vs[i + 1..], ts[i + 1..]);
      && EncodePacket(vs[i..], ts[i..]) == part + left
      && AttemptPacket(vs[i..], ts[i..], room)
        == if |part| <= room then part + AttemptPacket(vs[i + 1..], ts[i + 1..], room - |part|)
           else AttemptPoint(vs[i], ts[i], room)
  {
    hide HasType, EncodePoint, AttemptPoint;
    assert vs[i..][0] == vs[i] && ts[i..][0] == ts[i];
    assert vs[i..][1..] == vs[i + 1..] && ts[i..][1..] == ts[i + 1..];
  }

  lemma PointWritten(vs: seq<Value>, ts: seq<DataType>, size: nat, i: nat, n: nat)
    requires HaveTypes(vs, ts) && i < |ts| && PointsDone(vs, ts, size, i, n)
    requires n + |EncodePoint(vs[i], ts[i])| <= size
    ensures var part, attempt := EncodePoint(vs[i], ts[i]), AttemptPacket(vs, ts, size);
      && PointsDone(vs, ts, size, i + 1, n + |part|) && n + |part| <= |attempt|
      && AttemptPoint(vs[i], ts[i], size - n) == part && attempt[..n + |part|] == attempt[..n] + part
  {
    hide HasType, EncodePoint, EncodePacket, AttemptPoint, AttemptPacket, Abreast;
    PointsFrom(vs, ts, i, size - n);
    PointFits(vs[i], ts[i], size - n);
    var part, all, attempt := EncodePoint(vs[i], ts[i]), EncodePacket(vs, ts), AttemptPacket(vs, ts, size);
    AbreastBehind(all, attempt, n, part,
      EncodePacket(vs[i + 1..], ts[i + 1..]), AttemptPacket(vs[i + 1..], ts[i + 1..], size - n - |part|));
  }

  lemma PointRefused(vs: seq<Value>, ts: seq<DataType>, size: nat, i: nat, n: nat)
    requires HaveTypes(vs, ts) && i < |ts| && PointsDone(vs, ts, size, i, n)
    requires n + |EncodePoint(vs[i], ts[i])| > size
    ensures |EncodePacket(vs, ts)| > size
    ensures var attempt, next := AttemptPacket(vs, ts, size), AttemptPoint(vs[i], ts[i], size - n);
      n + |next| == |attempt| && attempt == attempt[..n] + next
  {
    hide HasType, EncodePoint, EncodePacket, AttemptPoint, AttemptPacket;
    PointsFrom(vs, ts, i, size - n);
    AbreastUpTo(EncodePacket(vs, ts), AttemptPacket(vs, ts, size), n,
      EncodePoint(vs[i], ts[i]), EncodePacket(vs[i + 1..], ts[i + 1..]), AttemptPoint(vs[i], ts[i], size - n));
  }

  lemma NoPoints(vs: seq<Value>, ts: seq<DataType>, size: nat)
    requires vs == [] && ts == []
    ensures EncodePacket(vs, ts) == [] && AttemptPacket(vs, ts, size) == []
  {
  }

  lemma LastPoint(vs: seq<Value>, ts: seq<DataType>, size: nat, n: nat)
    requires HaveTypes(vs, ts) && PointsDone(vs, ts, size, |ts|, n)
    ensures n == |EncodePacket(vs, ts)| <= size && AttemptPacket(vs, ts, size) == EncodePacket(vs, ts)
  {
    hide HasType, EncodePacket, AttemptPacket;
    assert vs[|ts|..] == [] && ts[|ts|..] == [];
    NoPoints(vs[|ts|..], ts[|ts|..], size - n);
    var all, attempt := EncodePacket(vs, ts), AttemptPacket(vs, ts, size);
    assert all[..n] == all && attempt[..n] == attempt;
  }

  /** The buffer at the head of the packet loop. */
  ghost predicate BufferAt(
      before: seq<Byte>, now: seq<Byte>, size: nat, vs: seq<Value>, ts: seq<DataType>, i: nat, n: int)
    requires HaveTypes(vs, ts) && i <= |ts|
  {
    var attempt := AttemptPacket(vs, ts, size);
    && 0 <= n <= |attempt| && PointsDone(vs, ts, size, i, n)
    && |attempt| <= |before| && now == Overwritten(before, 0, attempt[..n])
  }

  lemma BufferAtStart(before: seq<Byte>, size: nat, vs: seq<Value>, ts: seq<DataType>)
    requires HaveTypes(vs, ts) && |AttemptPacket(vs, ts, size)| <= |before|
    ensures |vs| == |ts| && BufferAt(before, before, size, vs, ts, 0, 0)
  {
    hide HasType, EncodePacket, AttemptPacket, PointsDone, Overwritten;
    NoneDone(vs, ts, size);
    OverwrittenByNothing(before, 0);
  }

  lemma BufferAtEnd(before: seq<Byte>, now: seq<Byte>, size: nat, vs: seq<Value>, ts: seq<DataType>, n: int)
    requires HaveTypes(vs, ts) && BufferAt(before, now, size, vs, ts, |ts|, n)
    ensures n == |EncodePacket(vs, ts)| <= size && AttemptPacket(vs, ts, size) == EncodePacket(vs, ts)
    ensures n <= |before| && now == Overwritten(before, 0, AttemptPacket(vs, ts, size))
  {
    hide HasType, EncodePacket, AttemptPacket, PointsDone, Overwritten;
    LastPoint(vs, ts, size, n);
    var attempt := AttemptPacket(vs, ts, size);
    assert attempt[..n] == attempt;
  }

  /** One turn of the loop, in which a data point has been written or refused. */
  lemma BufferNext(
      before: seq<Byte>, now: seq<Byte>, size: nat, vs: seq<Value>, ts: seq<DataType>, i: nat, n: int)
    requires HaveTypes(vs, ts) && i < |ts| && BufferAt(before, now, size, vs, ts, i, n)
    ensures 0 <= n <= size && i < |vs| && HasType(vs[i], ts[i])
    ensures var part, next := EncodePoint(vs[i], ts[i]), AttemptPoint(vs[i], ts[i], size - n);
      && part != [] && |now| == |before| && n + |next| <= |now|
      && var after := Overwritten(now, n, next);
        if n + |part| <= size then BufferAt(before, after, size, vs, ts, i + 1, n + |part|)
        else
          && |AttemptPacket(vs, ts, size)| <= |before| && |EncodePacket(vs, ts)| > size
          && after == Overwritten(before, 0, AttemptPacket(vs, ts, size))
  {
    hide HasType, EncodePoint, EncodePacket, AttemptPoint, AttemptPacket, Overwritten, Abreast;
    var attempt, next := AttemptPacket(vs, ts, size), AttemptPoint(vs[i], ts[i], size - n);
    if n + |EncodePoint(vs[i], ts[i])| <= size {
      PointWritten(vs, ts, size, i, n);
    } else {
      PointRefused(vs, ts, size, i, n);
    }
    hide PointsDone;
    OverwrittenBehind(before, 0, attempt[..n], next);
  }

  /** Serializes the data points one behind the other into the first size bytes of a buffer. */
  method SerializePoints(buf: array<Byte>, size: nat, vs: seq<Value>, ghost ts: seq<DataType>) returns (n: int)
    requires HaveTypes(vs, ts)
    requires if |ts| == 0 then buf.Length > 0 else |AttemptPacket(vs, ts, size)| <= buf.Length
    modifies buf
    ensures |ts| == 0 ==> n == 1 && buf[..] == Overwritten(old(buf[..]), 0, [NULL_TAG])
    ensures |ts| > 0 ==>
      && n == (if |EncodePacket(vs, ts)| <= size then |EncodePacket(vs, ts)| else -1)
      && (n >= 0 ==> AttemptPacket(vs, ts, size) == EncodePacket(vs, ts))
      && buf[..] == Overwritten(old(buf[..]), 0, AttemptPacket(vs, ts, size))
  {
    hide *;
    ghost var before := buf[..];
    PacketNotEmpty(vs, ts);
    if |vs| == 0 {
      buf[0] := NULL_TAG;
      OverwrittenByte(before, 0, NULL_TAG);
      return 1;
    }
    BufferAtStart(before, size, vs, ts);
    n := 0;
    for i := 0 to |vs|
      invariant BufferAt(before, buf[..], size, vs, ts, i, n)
    {
      BufferNext(before, buf[..], size, vs, ts, i, n);
      var k := SerializeDataPoint(buf, n, size - n, vs[i], ts[i]);
      if k <= 0 {
        return -1;
      }
      n := n + k;
    }
    BufferAtEnd(before, buf[..], size, vs, ts, n);
  }

  /** What the loop has counted, and what is still to be counted. */
  ghost predicate Progress(whole: Consumed, points: nat, packets: nat, c: Consumed) {
    whole == c.(points := points + c.points, packets := packets + c.packets)
  }

  /** One turn of the receive loop on the bytes used: it has taken nBuf of them for a point, or
      stopped, and gone on from one state of the RDs to another. */
  ghost predicate Turn(
      ts: seq<DataType>, rds: seq<Value>, at: nat, used: seq<Byte>, nBuf: int, full: bool,
      nextRds: seq<Value>, nextAt: nat)
  {
    && WellTyped(ts, rds, at) && WellTyped(ts, nextRds, nextAt) && nBuf <= |used|
    && var c := Consume(ts, rds, at, used);
      && (nBuf <= 0 ==> c == Consumed(nextRds, nextAt, used, 0, 0, nBuf == -2))
      && (nBuf > 0 ==>
        Progress(c, 1, if full then 1 else 0, Consume(ts, nextRds, nextAt, used[nBuf..])))
  }

  lemma StillTyped(ts: seq<DataType>, rds: seq<Value>, at: nat, v: Value)
    requires HaveTypes(rds, ts) && at < |ts| && HasType(v, ts[at])
    ensures HaveTypes(rds[at := v], ts)
  {
  }

  lemma AsManyTypes(ts: seq<DataType>, rds: seq<Value>, at: nat, used: seq<Byte>)
    requires WellTyped(ts, rds, at)
    ensures |rds| == |ts| && (|ts| > 0 ==> at < |ts|) && Left(used, |used|)
  {
  }

  /** One point taken from the bytes. */
  lemma PointTaken(ts: seq<DataType>, rds: seq<Value>, at: nat, bs: seq<Byte>)
    requires WellTyped(ts, rds, at) && |ts| != 0 && bs != []
    ensures at < |rds| == |ts| && HasType(rds[at], ts[at])
    ensures var d, last := DecodePoint(bs, ts[at], rds[at]), at + 1 >= |rds|;
      Turn(ts, rds, at, bs, d.used, d.used > 0 && last, rds[at := d.value],
        if d.used <= 0 then at else if last then 0 else at + 1)
  {
    assert rds[at := rds[at]] == rds;
    var d := DecodePoint(bs, ts[at], rds[at]);
    StillTyped(ts, rds, at, d.value);
    hide HasType, HaveTypes, DecodePoint;
  }

  /** Without RDs every byte passes for a point, and for a packet. */
  lemma ByteTaken(ts: seq<DataType>, rds: seq<Value>, at: nat, bs: seq<Byte>)
    requires WellTyped(ts, rds, at) && |ts| == 0 && bs != []
    ensures Turn(ts, rds, at, bs, 1, true, rds, 0)
  {
    hide HasType, HaveTypes;
  }

  class Layer {
    ghost const rdTypes: seq<DataType>
    var rds: seq<Value>
    var statSerBuf: array<Byte>
    var deserBuf: array<Byte>
    var deserBufPos: nat
    var doPos: nat

    ghost predicate Consistent()
      reads this, deserBuf
    {
      deserBufPos <= deserBuf.Length && Valid(rdTypes, State())
    }

    ghost function State(): Rx
      requires deserBufPos <= deserBuf.Length
      reads this, deserBuf
    {
      Rx(rds, doPos, deserBuf[..deserBufPos])
    }

    /** The buffers get room for the data points whose size the tag table knows. */
    constructor (rds: seq<Value>, sdTypes: seq<DataType>, rdTypes: seq<DataType>)
      requires HaveTypes(rds, rdTypes)
      ensures Consistent() && State() == Rx(rds, 0, []) && this.rdTypes == rdTypes
      ensures statSerBuf.Length == KnownSizes(sdTypes) && deserBuf.Length == KnownSizes(rdTypes)
      ensures fresh(statSerBuf) && fresh(deserBuf)
    {
      this.rds, this.rdTypes := rds, rdTypes;
      var serSize := SumOfSizes(sdTypes);
      var deserSize := SumOfSizes(rdTypes);
      statSerBuf := new Byte[serSize](_ => 0);
      deserBuf := new Byte[deserSize](_ => 0);
      deserBufPos, doPos := 0, 0;
    }

    method ResizeDeserBuffer(size: nat)
      requires deserBufPos <= deserBuf.Length && deserBufPos <= size
      modifies this`deserBuf
      ensures fresh(deserBuf) && deserBuf.Length == size
      ensures deserBuf[..deserBufPos] == old(deserBuf[..deserBufPos])
    {
      var newBuf := new Byte[size](_ => 0);
      for i := 0 to deserBufPos
        invariant deserBuf == old(deserBuf)
        invariant newBuf[..i] == deserBuf[..i]
      {
        newBuf[i] := deserBuf[i];
      }
      deserBuf := newBuf;
    }

    method SizeOf(vs: seq<Value>, ts: seq<DataType>) returns (n: nat)
      requires HaveTypes(vs, ts)
      ensures n == PacketSize(vs, ts)
    {
      n := 0;
      for i := 0 to |vs|
        invariant n + PacketSize(vs[i..], ts[i..]) == PacketSize(vs, ts)
      {
        assert vs[i..][1..] == vs[i + 1..] && ts[i..][1..] == ts[i + 1..];
        n := n + RequiredSize(vs[i], ts[i]);
      }
    }

    /** The bytes that reach the layer below, for everything that can be sent without writing
        behind the buffer. */
    method SendData(sds: seq<Value>, sdTypes: seq<DataType>) returns (sent: Sent)
      requires HaveTypes(sds, sdTypes) && !SendOverruns(sds, sdTypes, statSerBuf.Length)
      modifies statSerBuf
      ensures sent == PacketFor(sds, sdTypes)
      ensures if PacketSize(sds, sdTypes) <= statSerBuf.Length
        then
          && |SendWrites(sds, sdTypes)| <= statSerBuf.Length
          && statSerBuf[..] == Overwritten(old(statSerBuf[..]), 0, SendWrites(sds, sdTypes))
        else statSerBuf[..] == old(statSerBuf[..])
    {
      hide HasType, HaveTypes, EncodePacket, PacketSize, AttemptPacket, PacketStraddles, SendOverruns, Overwritten;
      SendOverrunsIff(sds, sdTypes, statSerBuf.Length);
      PacketNotEmpty(sds, sdTypes);
      var needed := SizeOf(sds, sdTypes);
      var buf := statSerBuf;
      if needed > statSerBuf.Length {
        buf := new Byte[needed](_ => 0);
      }
      ghost var before := buf[..];
      var n := SerializePoints(buf, needed, sds, sdTypes);
      OverwrittenUpTo(before, 0, SendWrites(sds, sdTypes));
      if n > 0 {
        assert buf[..n] == buf[..][..n];
        sent := Packet(buf[..n]);
      } else {
        sent := NotSent;
      }
    }

    /** Bytes of a point that is not complete, kept for the next delivery. */
    method StoreRest(rest: seq<Byte>)
      modifies this`deserBuf, this`deserBufPos, deserBuf
      ensures deserBufPos == |rest| <= deserBuf.Length && deserBuf[..deserBufPos] == rest
      ensures deserBuf == old(deserBuf) || fresh(deserBuf)
    {
      deserBufPos := 0;
      if deserBuf.Length < |rest| {
        ResizeDeserBuffer(|rest|);
      }
      CopyTo(deserBuf, 0, rest);
      deserBufPos := |rest|;
    }

    /** Puts a delivery behind the bytes that are buffered already. */
    method AppendToBuffered(data: seq<Byte>) returns (all: seq<Byte>)
      requires deserBufPos <= deserBuf.Length
      modifies this`deserBuf, this`deserBufPos, deserBuf
      ensures deserBufPos == old(deserBufPos) + |data| <= deserBuf.Length
      ensures all == deserBuf[..deserBufPos] == old(deserBuf[..deserBufPos]) + data
      ensures deserBuf == old(deserBuf) || fresh(deserBuf)
    {
      if |data| + deserBufPos > deserBuf.Length {
        ResizeDeserBuffer(|data| + deserBufPos);
      }
      CopyTo(deserBuf, deserBufPos, data);
      deserBufPos := deserBufPos + |data|;
      all := deserBuf[..deserBufPos];
    }

    /** One delivery. The octet that the memory holds behind its bytes, which the deserializer may
        read, is not seen in the outcome. */
    method RecvData(data: seq<Byte>, behind: Byte) returns (response: Response)
      requires Consistent()
      modifies this`rds, this`deserBuf, this`deserBufPos, this`doPos, deserBuf
      ensures Consistent()
      ensures State() == Receive(rdTypes, old(State()), data)
      ensures response == ResponseTo(Consume(rdTypes, old(rds), old(doPos), old(State()).pending + data))
    {
      ReceiveKeepsValid(rdTypes, State(), data);
      hide HasType, HaveTypes, Incomplete, Consume, DecodePoint;
      ghost var all := State().pending + data;
      if deserBufPos == 0 {
        assert all == data;
        response := ProcessBytes(data, behind, true);
      } else {
        var used := AppendToBuffered(data);
        response := ProcessBytes(used, behind, false);
      }
    }

    /** The receive loop. Direct tells that the bytes were not taken from the fragment buffer. */
    method ProcessBytes(all: seq<Byte>, behind: Byte, direct: bool) returns (response: Response)
      requires WellTyped(rdTypes, rds, doPos)
      requires deserBufPos <= deserBuf.Length && deserBuf[..deserBufPos] == if direct then [] else all
      modifies this`rds, this`deserBuf, this`deserBufPos, this`doPos, deserBuf
      ensures deserBufPos <= deserBuf.Length && WellTyped(rdTypes, rds, doPos)
      ensures var c := old(Consume(rdTypes, rds, doPos, all));
        && response == ResponseTo(c) && rds == c.rds && doPos == c.at
        && deserBuf[..deserBufPos] ==
          if direct then (if c.mistyped then [] else c.left) else if c.points == 0 then all else []
    {
      hide HasType, HaveTypes, Consume, DecodePoint;
      ghost var whole := Consume(rdTypes, rds, doPos, all);
      response := Nothing;
      var used := all;
      ghost var points, packets := 0, 0;
      while used != []
        invariant WellTyped(rdTypes, rds, doPos)
        invariant deserBuf == old(deserBuf) && unchanged(deserBuf)
        invariant deserBufPos == if points > 0 then 0 else old(deserBufPos)
        invariant points == 0 ==> used == all
        invariant response == if packets > 0 then ProcessDataOk else Nothing
        invariant Progress(whole, points, packets, Consume(rdTypes, rds, doPos, used))
        decreases |used|
      {
        var nBuf, full := ReceivePoint(used, behind);
        if nBuf <= 0 {
          if nBuf == -2 {
            response := DataTypeError;
          } else if direct {
            StoreRest(used);
          }
          return;
        }
        deserBufPos, points := 0, points + 1;
        used := used[nBuf..];
        if full {
          packets := packets + 1;
          response := ProcessDataOk;
        }
      }
      ConsumeNothing(rdTypes, rds, doPos);
    }

    /** One turn of the receive loop as far as the RDs are concerned. */
    method ReceivePoint(used: seq<Byte>, behind: Byte) returns (nBuf: int, full: bool)
      requires WellTyped(rdTypes, rds, doPos) && used != []
      modifies this`rds, this`doPos
      ensures Turn(rdTypes, old(rds), old(doPos), used, nBuf, full, rds, doPos)
    {
      hide *;
      ghost var ts, before, at := rdTypes, rds, doPos;
      AsManyTypes(ts, before, at, used);
      nBuf, full := 1, false;
      if |rds| != 0 {
        PointTaken(ts, before, at, used);
        ghost var d := DecodePoint(used, ts[at], before[at]);
        var value;
        nBuf, value := DeserializeDataPoint(used, |used|, behind, rds[doPos], rdTypes[doPos]);
        assert nBuf == d.used && value == d.value;
        rds := rds[doPos := value];
      } else {
        ByteTaken(ts, before, at, used);
      }
      if nBuf > 0 {
        doPos := doPos + 1;
        if doPos >= |rds| {
          doPos, full := 0, true;
        }
      }
    }
  }
}
