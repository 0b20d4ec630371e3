/** What sending a packet comes to: the bytes that go out, the size that is predicted for them and
    the bytes that are written to the buffer on the way. */
module Asn1Sending {
  import opened Options
  import opened Bytes
  import opened DataPoints
  import opened Asn1Codec
  import opened Asn1RoundTrip
  import opened Asn1Properties
  import opened Asn1Reassembly
  import opened Asn1Attempts

  /** What sendData does: hand bytes to the layer below, or fail. */
  datatype Sent = Packet(bytes: seq<Byte>) | NotSent

  const NULL_TAG: Byte := 5

  /** The buffer size that sendData reserves. */
  function PacketSize(vs: seq<Value>, ts: seq<DataType>): nat
    requires HaveTypes(vs, ts)
  {
    if ts == [] then 0 else RequiredSize(vs[0], ts[0]) + PacketSize(vs[1..], ts[1..])
  }

  predicate AllStructFree(ts: seq<DataType>) {
    forall i :: 0 <= i < |ts| ==> StructFree(ts[i])
  }

  /** Without structs the reserved size is exactly the size of the packet. */
  lemma {:induction false} PacketSizeExact(vs: seq<Value>, ts: seq<DataType>)
    requires HaveTypes(vs, ts) && AllStructFree(ts)
    ensures PacketSize(vs, ts) == |EncodePacket(vs, ts)|
  {
    if ts != [] {
      SizeExact(vs[0], ts[0]);
      PacketSizeExact(vs[1..], ts[1..]);
    }
  }

  /** What a packet of the given values is, or the failure: a packet fits if its encoding is not
      longer than the reserved size. Sending nothing sends a single null tag. */
  function PacketFor(vs: seq<Value>, ts: seq<DataType>): Sent
    requires HaveTypes(vs, ts)
  {
    if ts == [] then Packet([NULL_TAG])
    else if |EncodePacket(vs, ts)| <= PacketSize(vs, ts) then Packet(EncodePacket(vs, ts))
    else NotSent
  }

  /** Struct-free data points are always sent, and the receiver stores what the sender had. */
  lemma SentAndDelivered(vs: seq<Value>, ts: seq<DataType>, rds: seq<Value>)
    requires HaveTypes(vs, ts) && HaveTypes(rds, ts) && AllStructFree(ts) && ts != []
    ensures PacketFor(vs, ts).Packet?
    ensures Receive(ts, Rx(rds, 0, []), PacketFor(vs, ts).bytes) == Rx(ReceivedFields(vs, rds, ts), 0, [])
  {
    PacketSizeExact(vs, ts);
    forall i | 0 <= i < |ts| ensures IsApplication(TypeTag(ts[i])) {
      TagsDistinct(ts[i], ts[i]);
    }
    PacketDelivered(vs, ts, rds);
    assert [] + EncodePacket(vs, ts) == EncodePacket(vs, ts);
  }

  /** A struct on its own is sent if and only if its encoding has at most 255 bytes. */
  lemma StructSentIff(v: Value, t: DataType)
    requires HasType(v, t) && t.STRUCT?
    ensures PacketFor([v], [t]) == if |EncodePoint(v, t)| <= 255 then Packet(EncodePoint(v, t)) else NotSent
  {
    hide HasType, EncodePoint;
    assert [v][1..] == [] && [t][1..] == [];
    assert EncodePacket([v], [t]) == EncodePoint(v, t) + EncodePacket([], []);
    assert PacketSize([v], [t]) == RequiredSize(v, t) + PacketSize([], []);
  }

  /** The size of a data point with its tag, as far as the tag table knows it. */
  function TableSize(t: DataType): Option<nat> {
    match t
    case BOOL => Some(1)
    case ScalarType(s) => Some(Width(s) + 1)
    case TIME => Some(9)
    case _ => None
  }

  /** What the constructor reserves: one byte more than the size for each point of known size. */
  function KnownSizes(ts: seq<DataType>): nat {
    if ts == [] then 0
    else (if TableSize(ts[0]).Some? then TableSize(ts[0]).value + 1 else 0) + KnownSizes(ts[1..])
  }

  /** Data points of known size are sent from the buffer that the constructor has reserved. */
  lemma {:induction false} KnownSizesSuffice(vs: seq<Value>, ts: seq<DataType>)
    requires HaveTypes(vs, ts) && forall i :: 0 <= i < |ts| ==> TableSize(ts[i]).Some?
    ensures |EncodePacket(vs, ts)| == PacketSize(vs, ts)
    ensures KnownSizes(ts) == PacketSize(vs, ts) + |ts|
  {
    if ts != [] {
      SizeExact(vs[0], ts[0]);
      KnownSizesSuffice(vs[1..], ts[1..]);
    }
  }

  /** The bytes that the constructor reserves for a data point of each type. */
  lemma ReservedFor(t: DataType)
    ensures t.BOOL? ==> KnownSizes([t]) == 2
    ensures t.TIME? ==> KnownSizes([t]) == 10
    ensures t.ScalarType? && t.s in {SINT, USINT, BYTE} ==> KnownSizes([t]) == 3
    ensures t.ScalarType? && t.s in {INT, UINT, WORD} ==> KnownSizes([t]) == 4
    ensures t.ScalarType? && t.s in {DINT, UDINT, DWORD, REAL} ==> KnownSizes([t]) == 6
    ensures t.ScalarType? && t.s in {LINT, ULINT, LWORD, DATE, TIME_OF_DAY, DATE_AND_TIME, LREAL} ==>
      KnownSizes([t]) == 10
    ensures t.STRING? || t.ARRAY? || t.STRUCT? ==> KnownSizes([t]) == 0
  {
    assert [t][1..] == [];
  }

  lemma ReservedForAll(ts: seq<DataType>)
    ensures KnownSizes([]) == 0 && (ts != [] ==> KnownSizes(ts) == KnownSizes(ts[..1]) + KnownSizes(ts[1..]))
  {
    if ts != [] {
      assert ts[..1][1..] == [];
    }
  }

  // ---- what is written ----

  /** Whole data points as long as they fit, then the attempt on the first that does not. */
  function AttemptPacket(vs: seq<Value>, ts: seq<DataType>, size: nat): seq<Byte>
    requires HaveTypes(vs, ts)
  {
    if ts == [] then []
    else
      var first := EncodePoint(vs[0], ts[0]);
      if |first| <= size then first + AttemptPacket(vs[1..], ts[1..], size - |first|)
      else AttemptPoint(vs[0], ts[0], size)
  }

  /** The room ends inside the header of an array of the first data point that does not fit. */
  predicate PacketStraddles(vs: seq<Value>, ts: seq<DataType>, size: nat)
    requires HaveTypes(vs, ts)
  {
    ts != [] &&
    var first := |EncodePoint(vs[0], ts[0])|;
    if first <= size then PacketStraddles(vs[1..], ts[1..], size - first)
    else size > 0 && Straddles(vs[0], ts[0], size - 1)
  }

  lemma {:induction false} PacketFits(vs: seq<Value>, ts: seq<DataType>, size: nat)
    requires HaveTypes(vs, ts) && |EncodePacket(vs, ts)| <= size
    ensures AttemptPacket(vs, ts, size) == EncodePacket(vs, ts)
  {
    if ts != [] {
      hide HasType, EncodePoint, AttemptPoint;
      PacketFits(vs[1..], ts[1..], size - |EncodePoint(vs[0], ts[0])|);
    }
  }

  /** The packet loop writes behind its room if and only if the room ends inside the header of an array. */
  lemma {:induction false} PacketOverrunsIff(vs: seq<Value>, ts: seq<DataType>, size: nat)
    requires HaveTypes(vs, ts)
    ensures |AttemptPacket(vs, ts, size)| > size <==> PacketStraddles(vs, ts, size)
  {
    if ts != [] {
      var first := |EncodePoint(vs[0], ts[0])|;
      if first <= size {
        hide HasType, EncodePoint, AttemptPoint, Straddles;
        PacketOverrunsIff(vs[1..], ts[1..], size - first);
      } else if size > 0 {
        PointOverrunsIff(vs[0], ts[0], size);
        hide HasType, EncodePoint, AttemptPoint, Straddles;
      }
    }
  }

  /** What sendData writes to the buffer it uses: the one that was reserved if that is large
      enough for the predicted size, a new one of that size otherwise. */
  function SendWrites(vs: seq<Value>, ts: seq<DataType>): seq<Byte>
    requires HaveTypes(vs, ts)
  {
    if ts == [] then [NULL_TAG] else AttemptPacket(vs, ts, PacketSize(vs, ts))
  }

  function BufferSize(vs: seq<Value>, ts: seq<DataType>, reserved: nat): nat
    requires HaveTypes(vs, ts)
  {
    if PacketSize(vs, ts) <= reserved then reserved else PacketSize(vs, ts)
  }

  /** Sending writes behind its buffer: nothing to send and nothing reserved for the null tag, or
      the predicted size ends inside the header of an array and what is reserved does not hold it. */
  predicate SendOverruns(vs: seq<Value>, ts: seq<DataType>, reserved: nat)
    requires HaveTypes(vs, ts)
  {
    if ts == [] then reserved == 0
    else
      var size := PacketSize(vs, ts);
      PacketStraddles(vs, ts, size) && (size <= reserved ==> |AttemptPacket(vs, ts, size)| > reserved)
  }

  lemma SendOverrunsIff(vs: seq<Value>, ts: seq<DataType>, reserved: nat)
    requires HaveTypes(vs, ts)
    ensures |SendWrites(vs, ts)| > BufferSize(vs, ts, reserved) <==> SendOverruns(vs, ts, reserved)
  {
    PacketOverrunsIff(vs, ts, PacketSize(vs, ts));
  }

  /** A packet that is not longer than predicted stays in its buffer; so does every struct-free one. */
  lemma PredictedStaysInside(vs: seq<Value>, ts: seq<DataType>, reserved: nat)
    requires HaveTypes(vs, ts) && ts != []
    requires |EncodePacket(vs, ts)| <= PacketSize(vs, ts) || AllStructFree(ts)
    ensures !SendOverruns(vs, ts, reserved)
  {
    if AllStructFree(ts) {
      PacketSizeExact(vs, ts);
    }
    var size := PacketSize(vs, ts);
    PacketFits(vs, ts, size);
    PacketOverrunsIff(vs, ts, size);
  }

  /** Nothing to send is the one octet of a null, 5. */
  lemma NothingToSend()
    ensures PacketFor([], []) == Packet([5]) && SendWrites([], []) == [5]
  {
  }

  /** A layer without SDs has reserved nothing, and writes its null tag behind that. */
  lemma NullTagOverruns()
    ensures SendOverruns([], [], KnownSizes([]))
  {
  }

  // ---- a struct that does, and one that does not ----

  lemma OneMember(v: Value, t: DataType, size: int)
    requires HasType(v, t)
    ensures var part := EncodeMember(v, t);
      && EncodeFields([v], [t]) == part
      && (FieldsStraddle([v], [t], size) <==> |part| > size && Straddles(v, t, size))
      && AttemptFields([v], [t], size) == if |part| <= size then part else AttemptMember(v, t, size)
  {
    hide HasType, EncodeMember, AttemptMember, Straddles;
    assert [v][1..] == [] && [t][1..] == [];
    var room := size - |EncodeMember(v, t)|;
    assert EncodeFields([], []) == [] && AttemptFields([], [], room) == [] && !FieldsStraddle([], [], room);
  }

  lemma TwoMembers(a: Value, b: Value, s: DataType, t: DataType, size: int)
    requires HasType(a, s) && HasType(b, t)
    ensures var first, second, left := |EncodeMember(a, s)|, |EncodeMember(b, t)|, size - |EncodeMember(a, s)|;
      && |EncodeFields([a, b], [s, t])| == first + second
      && (FieldsStraddle([a, b], [s, t], size) <==>
        if first > size then Straddles(a, s, size) else second > left && Straddles(b, t, left))
      && |AttemptFields([a, b], [s, t], size)| ==
        if first > size then |AttemptMember(a, s, size)|
        else first + if second <= left then second else |AttemptMember(b, t, left)|
  {
    hide HasType, EncodeMember, AttemptMember, Straddles;
    var vs, ms := [a, b], [s, t];
    assert vs[1..] == [b] && ms[1..] == [t];
    OneMember(b, t, size - |EncodeMember(a, s)|);
    assert EncodeFields(vs, ms) == EncodeMember(a, s) + EncodeFields([b], [t]);
  }

  lemma StructAlone(v: Value, t: DataType)
    requires HasType(v, t) && t.STRUCT?
    ensures PacketSize([v], [t]) == 255
    ensures SendOverruns([v], [t], 0) <==>
      |EncodeFields(v.fields, t.members)| > 254 && FieldsStraddle(v.fields, t.members, 254)
    ensures |EncodeFields(v.fields, t.members)| > 254 ==>
      |SendWrites([v], [t])| == 1 + |AttemptFields(v.fields, t.members, 254)|
  {
    assert HaveTypes(v.fields, t.members) && [v][1..] == [] && [t][1..] == [];
    hide HasType, EncodeFields, AttemptFields, FieldsStraddle;
    assert PacketSize([v], [t]) == RequiredSize(v, t) + PacketSize([], []);
    assert EncodePoint(v, t) == [TagOf(v, t)] + EncodeFields(v.fields, t.members);
    assert AttemptPoint(v, t, 255) == [TagOf(v, t)] + AttemptFields(v.fields, t.members, 254);
    assert Straddles(v, t, 254) <==> FieldsStraddle(v.fields, t.members, 254);
    var left := 255 - |EncodePoint(v, t)|;
    assert left >= 0 ==> !PacketStraddles([], [], left);
  }

  const INT_ARRAY := ARRAY(ScalarType(INT))

  function OneInt(data: seq<Byte>): Value {
    Array([ScalarValue(INT, data)])
  }

  lemma OneIntAttempt(data: seq<Byte>, size: int)
    requires |data| == 8
    ensures HasType(OneInt(data), INT_ARRAY) && |EncodeMember(OneInt(data), INT_ARRAY)| == 5
    ensures Straddles(OneInt(data), INT_ARRAY, size) <==> size < 3
    ensures size < 5 ==> |AttemptMember(OneInt(data), INT_ARRAY, size)| == 3
  {
    var vs, e := OneInt(data).elems, ScalarType(INT);
    assert Repeat(e, 1) == [e] && vs[1..] == [] && [e][1..] == [];
    assert |ArrayHeader(1, e)| == 3 && |EncodeMember(vs[0], e)| == 2;
    assert EncodeFields(vs, [e]) == EncodeMember(vs[0], e) + EncodeFields([], []);
  }

  lemma TextLength(chars: seq<Byte>, size: int)
    requires |chars| <= 65535
    ensures HasType(Text(chars), STRING) && |EncodeMember(Text(chars), STRING)| == |chars| + 2
    ensures !Straddles(Text(chars), STRING, size)
  {
  }

  /** A text and an array in a struct, which is always predicted to take 255 bytes: sending them
      writes behind the buffer if and only if the text ends less than three bytes before the
      prediction does. */
  lemma TextThenArray(tag: Byte, chars: seq<Byte>, data: seq<Byte>)
    requires |chars| <= 65535 && |data| == 8
    ensures var v, t := Struct(tag, [Text(chars), OneInt(data)]), STRUCT(tag, [STRING, INT_ARRAY]);
      && HasType(v, t)
      && (SendOverruns([v], [t], 0) <==> 250 <= |chars| <= 252)
      && (250 <= |chars| <= 252 ==> |SendWrites([v], [t])| == |chars| + 6)
  {
    var v, t := Struct(tag, [Text(chars), OneInt(data)]), STRUCT(tag, [STRING, INT_ARRAY]);
    TextLength(chars, 254);
    OneIntAttempt(data, 252 - |chars|);
    TwoMembers(Text(chars), OneInt(data), STRING, INT_ARRAY, 254);
    StructAlone(v, t);
    hide *;
  }

  /** The same members the other way round never do, however long the text is. */
  lemma ArrayThenText(tag: Byte, chars: seq<Byte>, data: seq<Byte>)
    requires |chars| <= 65535 && |data| == 8
    ensures var v, t := Struct(tag, [OneInt(data), Text(chars)]), STRUCT(tag, [INT_ARRAY, STRING]);
      HasType(v, t) && !SendOverruns([v], [t], 0)
  {
    var v, t := Struct(tag, [OneInt(data), Text(chars)]), STRUCT(tag, [INT_ARRAY, STRING]);
    TextLength(chars, 249);
    OneIntAttempt(data, 254);
    TwoMembers(OneInt(data), Text(chars), INT_ARRAY, STRING, 254);
    StructAlone(v, t);
    hide *;
  }

  const ONE: seq<Byte> := [1, 0, 0, 0, 0, 0, 0, 0]

  function Letters(n: nat): (s: seq<Byte>)
    ensures |s| == n
  {
    seq(n, _ => 0x41)
  }

  /** For example a text of 251 characters: 257 bytes in a buffer of 255. */
  lemma StructOverruns()
    ensures var v, t := Struct(95, [Text(Letters(251)), OneInt(ONE)]), STRUCT(95, [STRING, INT_ARRAY]);
      HasType(v, t) && BufferSize([v], [t], 0) == 255 && |SendWrites([v], [t])| == 257
  {
    hide HasType, HaveTypes, SendWrites, PacketSize, SendOverruns;
    var v, t := Struct(95, [Text(Letters(251)), OneInt(ONE)]), STRUCT(95, [STRING, INT_ARRAY]);
    TextThenArray(95, Letters(251), ONE);
    StructAlone(v, t);
  }
}
