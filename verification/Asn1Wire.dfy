/** The wire format in literal octets, data type by data type, and what a target holds afterwards. */
module Asn1Wire {
  import opened Sequences
  import opened Bytes
  import opened Machine
  import opened DataPoints
  import opened Asn1Codec
  import opened Asn1RoundTrip

  function Sent(s: Scalar, d: seq<Byte>): seq<Byte>
    requires |d| == 8
  {
    EncodePoint(ScalarValue(s, d), ScalarType(s))
  }

  /** What a target of the type holds after the union d has been sent to it. */
  function Arrived(s: Scalar, d: seq<Byte>): seq<Byte>
    requires |d| == 8
  {
    var v := ScalarValue(s, d);
    Received(v, v, ScalarType(s)).data
  }

  // ---- the identifier octet and the payload of every elementary type ----

  lemma Reversed1(d: seq<Byte>)
    requires |d| == 8
    ensures Reverse(d[..1]) == [d[0]]
  {
  }

  lemma Reversed2(d: seq<Byte>)
    requires |d| == 8
    ensures Reverse(d[..2]) == [d[1], d[0]]
  {
  }

  lemma Reversed4(d: seq<Byte>)
    requires |d| == 8
    ensures Reverse(d[..4]) == [d[3], d[2], d[1], d[0]]
  {
  }

  lemma Reversed8(d: seq<Byte>)
    requires |d| == 8
    ensures Reverse(d[..8]) == [d[7], d[6], d[5], d[4], d[3], d[2], d[1], d[0]]
  {
  }

  lemma TagAndBytes(s: Scalar, d: seq<Byte>)
    requires |d| == 8
    ensures Sent(s, d) == [ScalarTag(s)] + Reverse(d[..Width(s)])
  {
    hide Reverse, Width, ScalarTag;
  }

  lemma Sent1(d: seq<Byte>)
    requires |d| == 8
    ensures Sent(SINT, d) == [0x42, d[0]]
    ensures Sent(USINT, d) == [0x46, d[0]]
    ensures Sent(BYTE, d) == [0x51, d[0]]
  {
    hide Sent, Reverse;
    assert Reverse(d[..1]) == [d[0]] by { Reversed1(d); }
    TagAndBytes(SINT, d);
    TagAndBytes(USINT, d);
    TagAndBytes(BYTE, d);
  }

  lemma Sent2(d: seq<Byte>)
    requires |d| == 8
    ensures Sent(INT, d) == [0x43, d[1], d[0]]
    ensures Sent(UINT, d) == [0x47, d[1], d[0]]
    ensures Sent(WORD, d) == [0x52, d[1], d[0]]
  {
    hide Sent, Reverse;
    assert Reverse(d[..2]) == [d[1], d[0]] by { Reversed2(d); }
    TagAndBytes(INT, d);
    TagAndBytes(UINT, d);
    TagAndBytes(WORD, d);
  }

  lemma Sent4(d: seq<Byte>)
    requires |d| == 8
    ensures Sent(DINT, d) == [0x44, d[3], d[2], d[1], d[0]]
    ensures Sent(UDINT, d) == [0x48, d[3], d[2], d[1], d[0]]
    ensures Sent(DWORD, d) == [0x53, d[3], d[2], d[1], d[0]]
    ensures Sent(REAL, d) == [0x4A, d[3], d[2], d[1], d[0]]
  {
    hide Sent, Reverse;
    assert Reverse(d[..4]) == [d[3], d[2], d[1], d[0]] by { Reversed4(d); }
    TagAndBytes(DINT, d);
    TagAndBytes(UDINT, d);
    TagAndBytes(DWORD, d);
    TagAndBytes(REAL, d);
  }

  lemma Sent8(d: seq<Byte>)
    requires |d| == 8
    ensures Sent(LINT, d) == [0x45, d[7], d[6], d[5], d[4], d[3], d[2], d[1], d[0]]
    ensures Sent(ULINT, d) == [0x49, d[7], d[6], d[5], d[4], d[3], d[2], d[1], d[0]]
    ensures Sent(LWORD, d) == [0x54, d[7], d[6], d[5], d[4], d[3], d[2], d[1], d[0]]
    ensures Sent(LREAL, d) == [0x4B, d[7], d[6], d[5], d[4], d[3], d[2], d[1], d[0]]
    ensures Sent(DATE, d) == [0x4D, d[7], d[6], d[5], d[4], d[3], d[2], d[1], d[0]]
    ensures Sent(TIME_OF_DAY, d) == [0x4E, d[7], d[6], d[5], d[4], d[3], d[2], d[1], d[0]]
    ensures Sent(DATE_AND_TIME, d) == [0x4F, d[7], d[6], d[5], d[4], d[3], d[2], d[1], d[0]]
  {
    hide Sent, Reverse;
    assert Reverse(d[..8]) == [d[7], d[6], d[5], d[4], d[3], d[2], d[1], d[0]] by { Reversed8(d); }
    TagAndBytes(LINT, d);
    TagAndBytes(ULINT, d);
    TagAndBytes(LWORD, d);
    TagAndBytes(LREAL, d);
    TagAndBytes(DATE, d);
    TagAndBytes(TIME_OF_DAY, d);
    TagAndBytes(DATE_AND_TIME, d);
  }

  lemma SentBool()
    ensures EncodePoint(Bool(false), BOOL) == [0x40] && EncodePoint(Bool(true), BOOL) == [0x41]
  {
  }

  lemma SentText(chars: seq<Byte>)
    requires |chars| <= 65535
    ensures EncodePoint(Text(chars), STRING) == [0x50, |chars| / 256, |chars| % 256] + chars
  {
  }

  // ---- TIME, counted in nanoseconds ----

  /** Whole microseconds, toward zero. */
  function Micros(ticks: int): int {
    if ticks >= 0 then ticks / 1000 else -(-ticks / 1000)
  }

  function TwosComplement(x: int): nat
    requires -0x8000_0000_0000_0000 <= x < 0x8000_0000_0000_0000
  {
    if x >= 0 then x else x + 0x1_0000_0000_0000_0000
  }

  lemma LastOctet(u: nat, k: nat)
    ensures BigEndian(u, k + 1) == BigEndian(u / 256, k) + [u % 256]
  {
  }

  lemma Quotients(u: nat)
    ensures u / 0x100 / 256 == u / 0x1_0000 && u / 0x1_0000 / 256 == u / 0x100_0000
    ensures u / 0x100_0000 / 256 == u / 0x1_0000_0000 && u / 0x1_0000_0000 / 256 == u / 0x100_0000_0000
    ensures u / 0x100_0000_0000 / 256 == u / 0x1_0000_0000_0000
    ensures u / 0x1_0000_0000_0000 / 256 == u / 0x100_0000_0000_0000
  {
  }

  lemma EightOctets(u: nat)
    ensures BigEndian(u, 8) == [
      u / 0x100_0000_0000_0000 % 256, u / 0x1_0000_0000_0000 % 256, u / 0x100_0000_0000 % 256,
      u / 0x1_0000_0000 % 256, u / 0x100_0000 % 256, u / 0x1_0000 % 256, u / 0x100 % 256, u % 256]
  {
    hide BigEndian;
    Quotients(u);
    LastOctet(u, 7);
    LastOctet(u / 0x100, 6);
    LastOctet(u / 0x1_0000, 5);
    LastOctet(u / 0x100_0000, 4);
    LastOctet(u / 0x1_0000_0000, 3);
    LastOctet(u / 0x100_0000_0000, 2);
    LastOctet(u / 0x1_0000_0000_0000, 1);
    LastOctet(u / 0x100_0000_0000_0000, 0);
  }

  lemma MicrosOnWire(ticks: int)
    requires -0x8000_0000_0000_0000 <= ticks < 0x8000_0000_0000_0000
    ensures ToMicros(ticks) == Micros(ticks)
    ensures -0x8000_0000_0000_0000 <= Micros(ticks) < 0x8000_0000_0000_0000
    ensures ToUint64(Micros(ticks)) == TwosComplement(Micros(ticks))
  {
  }

  lemma SentTime(ticks: int)
    requires -0x8000_0000_0000_0000 <= ticks < 0x8000_0000_0000_0000
    ensures -0x8000_0000_0000_0000 <= Micros(ticks) < 0x8000_0000_0000_0000
    ensures var u := TwosComplement(Micros(ticks));
      EncodePoint(Time(ticks), TIME) == [
        0x4C, u / 0x100_0000_0000_0000 % 256, u / 0x1_0000_0000_0000 % 256, u / 0x100_0000_0000 % 256,
        u / 0x1_0000_0000 % 256, u / 0x100_0000 % 256, u / 0x1_0000 % 256, u / 0x100 % 256, u % 256]
  {
    hide BigEndian, Micros, ToMicros, ToUint64, TwosComplement;
    MicrosOnWire(ticks);
    EightOctets(TwosComplement(Micros(ticks)));
    assert EncodePoint(Time(ticks), TIME) == [0x4C] + BigEndian(TwosComplement(Micros(ticks)), 8);
    hide *;
  }

  lemma TimeArrives(ticks: int, w: Value)
    requires HasType(Time(ticks), TIME) && HasType(w, TIME)
    ensures Received(Time(ticks), w, TIME) == Time(Micros(ticks) * 1000)
  {
  }

  // ---- arrays and structs ----

  /** The encodings of the elements without their identifier octets. */
  function Payloads(vs: seq<Value>, e: DataType): seq<Byte>
    requires AllHaveType(vs, e)
  {
    if vs == [] then [] else EncodePoint(vs[0], e)[1..] + Payloads(vs[1..], e)
  }

  /** Without their identifier octets, but a BOOL, which is nothing else. */
  function MemberOctets(vs: seq<Value>, ms: seq<DataType>): seq<Byte>
    requires HaveTypes(vs, ms)
  {
    if ms == [] then []
    else
      var first := EncodePoint(vs[0], ms[0]);
      (if ms[0].BOOL? then first else first[1..]) + MemberOctets(vs[1..], ms[1..])
  }

  lemma MemberIs(v: Value, t: DataType)
    requires HasType(v, t)
    ensures EncodeMember(v, t) == if t.BOOL? then EncodePoint(v, t) else EncodePoint(v, t)[1..]
  {
  }

  lemma {:induction false} MembersAre(vs: seq<Value>, ms: seq<DataType>)
    requires HaveTypes(vs, ms)
    ensures EncodeFields(vs, ms) == MemberOctets(vs, ms)
  {
    hide HasType, EncodePoint, EncodeMember;
    if ms != [] {
      MemberIs(vs[0], ms[0]);
      MembersAre(vs[1..], ms[1..]);
    }
  }

  lemma {:induction false} PayloadsAre(vs: seq<Value>, e: DataType)
    requires AllHaveType(vs, e) && !e.BOOL?
    ensures MemberOctets(vs, Repeat(e, |vs|)) == Payloads(vs, e)
  {
    hide HasType, EncodePoint;
    if vs != [] {
      assert Repeat(e, |vs|)[1..] == Repeat(e, |vs| - 1);
      PayloadsAre(vs[1..], e);
    }
  }

  lemma SentStruct(v: Value, t: DataType)
    requires HasType(v, t) && t.STRUCT?
    ensures EncodePoint(v, t) == [t.tag] + MemberOctets(v.fields, t.members)
  {
    MembersAre(v.fields, t.members);
  }

  lemma {:induction false} BoolOctets(vs: seq<Value>)
    requires AllHaveType(vs, BOOL)
    ensures var bs := EncodeFields(vs, Repeat(BOOL, |vs|));
      |bs| == |vs| && forall i :: 0 <= i < |vs| ==> bs[i] == if vs[i].b then 0x41 else 0x40
  {
    if vs != [] {
      assert Repeat(BOOL, |vs|)[1..] == Repeat(BOOL, |vs| - 1);
      BoolOctets(vs[1..]);
    }
  }

  lemma ElementTypes(vs: seq<Value>, e: DataType)
    requires HasType(Array(vs), ARRAY(e))
    ensures AllHaveType(vs, e) && 1 <= |vs| <= 65535 && HasType(vs[0], e)
  {
  }

  lemma ArrayTag(e: DataType)
    ensures TypeTag(ARRAY(e)) == 0x76
  {
  }

  lemma PlainHeader(m: nat, e: DataType)
    requires m < 0x1_0000
    ensures ArrayHeader(m, e) == [m / 256, m % 256] + if e.BOOL? then [] else [TypeTag(e)]
  {
    hide TypeTag;
  }

  lemma ArrayPayload(v: Value, t: DataType)
    requires HasType(v, t) && t.ARRAY?
    ensures AllHaveType(v.elems, t.elem) && EncodeValue(v, t) == EncodeArray(v.elems, t.elem)
  {
    hide EncodeArray;
  }

  lemma PointIs(v: Value, t: DataType)
    requires HasType(v, t) && !t.BOOL?
    ensures EncodePoint(v, t) == [TypeTag(t)] + EncodeValue(v, t)
  {
    hide EncodeValue, TypeTag;
  }

  lemma ArrayPoint(vs: seq<Value>, e: DataType)
    requires HasType(Array(vs), ARRAY(e)) && AllHaveType(vs, e) && |vs| < 0x1_0000
    ensures EncodePoint(Array(vs), ARRAY(e)) == [0x76] + (ArrayHeader(|vs|, e) + EncodeFields(vs, Repeat(e, |vs|)))
  {
    hide HasType, AllHaveType, EncodePoint, EncodeValue, EncodeFields, ArrayHeader, TypeTag, Repeat;
    ArrayTag(e);
    ArrayPayload(Array(vs), ARRAY(e));
    PointIs(Array(vs), ARRAY(e));
  }

  /** The number of elements, the identifier octet of the first element, then all payloads. */
  lemma SentArray(vs: seq<Value>, e: DataType)
    requires HasType(Array(vs), ARRAY(e)) && !e.BOOL?
    ensures AllHaveType(vs, e) && |vs| > 0
    ensures EncodePoint(Array(vs), ARRAY(e))
      == [0x76, |vs| / 256, |vs| % 256, EncodePoint(vs[0], e)[0]] + Payloads(vs, e)
  {
    hide HasType, AllHaveType, EncodePoint, EncodeFields, Payloads, MemberOctets, TypeTag, ArrayHeader;
    ElementTypes(vs, e);
    ArrayPoint(vs, e);
    PlainHeader(|vs|, e);
    PointIs(vs[0], e);
    MembersAre(vs, Repeat(e, |vs|));
    PayloadsAre(vs, e);
  }

  /** The number of elements, then one octet for each. */
  lemma SentBoolArray(vs: seq<Value>)
    requires HasType(Array(vs), ARRAY(BOOL))
    ensures var bs := EncodePoint(Array(vs), ARRAY(BOOL));
      && bs[..3] == [0x76, |vs| / 256, |vs| % 256] && |bs| == 3 + |vs|
      && forall i :: 0 <= i < |vs| ==> bs[3 + i] == if vs[i].b then 0x41 else 0x40
  {
    hide HasType, AllHaveType, EncodePoint, EncodeFields, TypeTag, Repeat, ArrayHeader;
    ElementTypes(vs, BOOL);
    BoolOctets(vs);
    ArrayPoint(vs, BOOL);
    PlainHeader(|vs|, BOOL);
    var octets := EncodeFields(vs, Repeat(BOOL, |vs|));
    assert EncodePoint(Array(vs), ARRAY(BOOL)) == [0x76, |vs| / 256, |vs| % 256] + octets;
  }

  // ---- what arrives ----

  /** Eight octets fill the union: every value arrives unchanged. */
  lemma Arrived8(s: Scalar, d: seq<Byte>)
    requires |d| == 8 && s in {LINT, ULINT, LWORD, DATE, TIME_OF_DAY, DATE_AND_TIME, LREAL}
    ensures Arrived(s, d) == d
  {
  }

  lemma Arrived4(d: seq<Byte>)
    requires |d| == 8
    ensures forall s :: s in {UDINT, DWORD, REAL} ==> Arrived(s, d) == [d[0], d[1], d[2], d[3], 0, 0, 0, 0]
    ensures var f: Byte := if d[3] >= 128 then 255 else 0;
      Arrived(DINT, d) == [d[0], d[1], d[2], d[3], f, f, f, f]
  {
  }

  lemma Arrived2(d: seq<Byte>)
    requires |d| == 8
    ensures forall s :: s in {UINT, WORD} ==> Arrived(s, d) == [d[0], d[1], 0, 0, 0, 0, 0, 0]
    ensures var f: Byte := if d[1] >= 128 then 255 else 0;
      Arrived(INT, d) == [d[0], d[1], f, f, f, f, f, f]
  {
  }

  lemma Arrived1(d: seq<Byte>)
    requires |d| == 8
    ensures forall s :: s in {USINT, BYTE} ==> Arrived(s, d) == [d[0], 0, 0, 0, 0, 0, 0, 0]
    ensures var f: Byte := if d[0] >= 128 then 255 else 0;
      Arrived(SINT, d) == [d[0], f, f, f, f, f, f, f]
  {
  }

  lemma Split(d: seq<Byte>, x: seq<Byte>)
    requires |d| == |x| == 8
    ensures d == x <==> d[..4] == x[..4] && d[4..] == x[4..]
    ensures d == x <==> d[..2] == x[..2] && d[2..] == x[2..]
    ensures d == x <==> d[..1] == x[..1] && d[1..] == x[1..]
  {
    assert d == d[..4] + d[4..] == d[..2] + d[2..] == d[..1] + d[1..];
    assert x == x[..4] + x[4..] == x[..2] + x[2..] == x[..1] + x[1..];
  }

  /** Of fewer octets exactly the values arrive unchanged that these octets extend to. */
  lemma UnchangedIff4(d: seq<Byte>)
    requires |d| == 8
    ensures forall s :: s in {UDINT, DWORD, REAL} ==> (Arrived(s, d) == d <==> d[4..] == [0, 0, 0, 0])
    ensures var f: Byte := if d[3] >= 128 then 255 else 0; Arrived(DINT, d) == d <==> d[4..] == [f, f, f, f]
  {
    hide Arrived;
    Arrived4(d);
    Split(d, Arrived(UDINT, d));
    Split(d, Arrived(DINT, d));
  }

  lemma UnchangedIff2(d: seq<Byte>)
    requires |d| == 8
    ensures forall s :: s in {UINT, WORD} ==> (Arrived(s, d) == d <==> d[2..] == [0, 0, 0, 0, 0, 0])
    ensures var f: Byte := if d[1] >= 128 then 255 else 0; Arrived(INT, d) == d <==> d[2..] == [f, f, f, f, f, f]
  {
    hide Arrived;
    Arrived2(d);
    Split(d, Arrived(UINT, d));
    Split(d, Arrived(INT, d));
  }

  lemma UnchangedIff1(d: seq<Byte>)
    requires |d| == 8
    ensures forall s :: s in {USINT, BYTE} ==> (Arrived(s, d) == d <==> d[1..] == [0, 0, 0, 0, 0, 0, 0])
    ensures var f: Byte := if d[0] >= 128 then 255 else 0; Arrived(SINT, d) == d <==> d[1..] == [f, f, f, f, f, f, f]
  {
    hide Arrived;
    Arrived1(d);
    Split(d, Arrived(USINT, d));
    Split(d, Arrived(SINT, d));
  }

  /** The target plays no part in what arrives. */
  lemma ArrivedAnywhere(s: Scalar, d: seq<Byte>, w: Value)
    requires |d| == 8 && HasType(w, ScalarType(s))
    ensures Received(ScalarValue(s, d), w, ScalarType(s)) == ScalarValue(s, Arrived(s, d))
  {
  }

  // ---- the first octet decides ----

  /** Without bit 7 an identifier octet is waited for; with it, it must be the octet that the
      type is sent with. Neither touches the target. */
  lemma FirstOctet(bs: seq<Byte>, t: DataType, v: Value, w: Value)
    requires HasType(v, t) && HasType(w, t) && bs != []
    ensures bs[0] < 64 || 128 <= bs[0] < 192 ==> DecodePoint(bs, t, w) == Decoded(-1, w)
    ensures 64 <= bs[0] < 128 || 192 <= bs[0] ==>
      if t.BOOL? then bs[0] != 0x40 && bs[0] != 0x41 <==> DecodePoint(bs, t, w).used == -2
      else bs[0] != EncodePoint(v, t)[0] <==> DecodePoint(bs, t, w).used == -2
    ensures DecodePoint(bs, t, w).used == -2 ==> DecodePoint(bs, t, w).value == w
  {
    hide EncodeValue;
    assert t.BOOL? || EncodePoint(v, t)[0] == TypeTag(t);
  }

  /** An array without elements on the wire is taken with its length octets alone. */
  lemma EmptyArrayTaken(suffix: seq<Byte>, e: DataType, w: Value)
    requires HasType(w, ARRAY(e))
    ensures DecodePoint([0x76, 0, 0] + suffix, ARRAY(e), w) == Decoded(3, w)
  {
    var bs := [0x76, 0, 0] + suffix;
    assert bs[1..][0] == 0 && bs[1..][1] == 0 && bs[0] == 0x76;
    assert DecodeArray(bs[1..], e, w.elems) == DecodedSeq(2, w.elems);
  }

  /** A TIME of any number of microseconds is taken, in nanoseconds as far as they fit 64 bits. */
  lemma TimeTaken(us: int, suffix: seq<Byte>, w: Value)
    requires -0x8000_0000_0000_0000 <= us < 0x8000_0000_0000_0000 && HasType(w, TIME)
    ensures var u := TwosComplement(us);
      var octets := [
        u / 0x100_0000_0000_0000 % 256, u / 0x1_0000_0000_0000 % 256, u / 0x100_0000_0000 % 256,
        u / 0x1_0000_0000 % 256, u / 0x100_0000 % 256, u / 0x1_0000 % 256, u / 0x100 % 256, u % 256];
      DecodePoint([0x4C] + (octets + suffix), TIME, w) == Decoded(9, Time(WrapInt64(us * 1000)))
  {
    hide BigEndian, TwosComplement, TimeOnWire, WrapInt64, DecodePoint;
    EightOctets(TwosComplement(us));
    TimeReadBack(us);
    TimeFrom(BigEndian(TwosComplement(us), 8), us, suffix, w);
  }

  lemma TimeFrom(octets: seq<Byte>, us: int, suffix: seq<Byte>, w: Value)
    requires |octets| == 8 && TimeOnWire(octets) == us && HasType(w, TIME)
    ensures DecodePoint([0x4C] + (octets + suffix), TIME, w) == Decoded(9, Time(WrapInt64(us * 1000)))
  {
    hide TimeOnWire, WrapInt64;
    var bs := [0x4C] + (octets + suffix);
    assert bs[1..] == octets + suffix && (octets + suffix)[..8] == octets;
  }

  lemma TimeReadBack(us: int)
    requires -0x8000_0000_0000_0000 <= us < 0x8000_0000_0000_0000
    ensures TimeOnWire(BigEndian(TwosComplement(us), 8)) == us
  {
    hide BigEndian, ToNat, Range;
    Range8();
    ReadBack(TwosComplement(us), 8);
    WrapToUint64(us);
    assert TwosComplement(us) == ToUint64(us);
  }

  // ---- what an incomplete struct leaves ----

  /** The first member is what the attempt on it leaves, and if that fails the others are left alone. */
  lemma FirstMemberDecoded(bs: seq<Byte>, ms: seq<DataType>, vs: seq<Value>)
    requires HaveTypes(vs, ms) && ms != []
    ensures var d := DecodeMember(bs, ms[0], vs[0]);
      DecodeFields(bs, ms, vs).values
        == [d.value] + if d.used > 0 then DecodeFields(bs[d.used..], ms[1..], vs[1..]).values else vs[1..]
  {
    hide HasType, DecodeMember;
  }

  lemma FirstMemberReceived(vs: seq<Value>, ws: seq<Value>, us: seq<DataType>)
    requires HaveTypes(vs, us) && HaveTypes(ws, us) && us != []
    ensures EncodeFields(vs, us) == EncodeMember(vs[0], us[0]) + EncodeFields(vs[1..], us[1..])
    ensures ReceivedFields(vs, ws, us) == [Received(vs[0], ws[0], us[0])] + ReceivedFields(vs[1..], ws[1..], us[1..])
  {
    hide HasType, EncodeMember, Received;
  }

  lemma AsManyMembers(vs: seq<Value>, us: seq<DataType>)
    requires HaveTypes(vs, us)
    ensures |vs| == |us| && (us != [] ==> HasType(vs[0], us[0]) && HaveTypes(vs[1..], us[1..]))
  {
  }

  lemma NoMembers(vs: seq<Value>, ws: seq<Value>, us: seq<DataType>)
    requires HaveTypes(vs, us) && HaveTypes(ws, us) && us == []
    ensures EncodeFields(vs, us) == [] && ReceivedFields(vs, ws, us) == []
  {
  }

  lemma JoinedTypes(ws: seq<Value>, us: seq<DataType>, xs: seq<Value>, ms: seq<DataType>)
    requires HaveTypes(ws, us) && HaveTypes(xs, ms)
    ensures HaveTypes(ws + xs, us + ms)
  {
  }

  /** Members that have arrived in full are stored, whether the rest of the struct arrives or not. */
  lemma {:induction false} MembersSoFar(
      vs: seq<Value>, us: seq<DataType>, ws: seq<Value>, ms: seq<DataType>, xs: seq<Value>, tail: seq<Byte>)
    requires HaveTypes(vs, us) && HaveTypes(ws, us) && HaveTypes(xs, ms)
    ensures HaveTypes(ws + xs, us + ms)
    ensures DecodeFields(EncodeFields(vs, us) + tail, us + ms, ws + xs).values
      == ReceivedFields(vs, ws, us) + DecodeFields(tail, ms, xs).values
    decreases |us|
  {
    hide *;
    JoinedTypes(ws, us, xs, ms);
    AsManyMembers(vs, us);
    AsManyMembers(ws, us);
    if us == [] {
      NoMembers(vs, ws, us);
      assert us + ms == ms && ws + xs == xs && [] + tail == tail;
      assert [] + DecodeFields(tail, ms, xs).values == DecodeFields(tail, ms, xs).values;
    } else {
      var first, left := EncodeMember(vs[0], us[0]), EncodeFields(vs[1..], us[1..]);
      FirstMemberReceived(vs, ws, us);
      MembersSoFar(vs[1..], us[1..], ws[1..], ms, xs, tail);
      FrontOf(us, ms);
      FrontOf(ws, xs);
      Regroup(first, left, tail);
      Halves(first, left + tail);
      MemberRoundTrip(vs[0], ws[0], us[0], left + tail);
      FirstMemberDecoded(first + (left + tail), us + ms, ws + xs);
      var done := [Received(vs[0], ws[0], us[0])];
      Regroup(done, ReceivedFields(vs[1..], ws[1..], us[1..]), DecodeFields(tail, ms, xs).values);
    }
  }
}
