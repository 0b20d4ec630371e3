/** What the ASN.1 layer puts on the wire and what it makes of received bytes, as functions. */
module Asn1Codec {
  import opened Bytes
  import opened Machine
  import opened DataPoints

  // ---- sending ----

  function TagOf(v: Value, t: DataType): Byte {
    if v.Bool? && !v.b then APPLICATION else TypeTag(t)
  }

  /** The payload of a data point, without its identifier octet. */
  function EncodeValue(v: Value, t: DataType): (bs: seq<Byte>)
    requires HasType(v, t)
    decreases Depth(t), 0
  {
    match t
    case BOOL => []
    case ScalarType(s) => Reverse(v.data[..Width(s)])
    case TIME => BigEndian(ToUint64(ToMicros(v.ticks)), 8)
    case STRING => LengthBytes(|v.chars|) + v.chars
    case ARRAY(e) => EncodeArray(v.elems, e)
    case STRUCT(_, ms) => EncodeFields(v.fields, ms)
  }

  function EncodeArray(vs: seq<Value>, e: DataType): seq<Byte>
    requires AllHaveType(vs, e) && |vs| < 0x1_0000
    decreases Depth(e), 4
  {
    ArrayHeader(|vs|, e) + EncodeFields(vs, Repeat(e, |vs|))
  }

  /** The number of elements, then the tag that all elements share; a BOOL element has its own. */
  function ArrayHeader(m: nat, e: DataType): seq<Byte>
    requires m < 0x1_0000
  {
    LengthBytes(m) + if e.BOOL? then [] else [TypeTag(e)]
  }

  lemma ValueNotEmpty(v: Value, t: DataType)
    requires HasType(v, t) && !t.BOOL?
    ensures |EncodeValue(v, t)| > 0
    decreases Depth(t), 1
  {
    if t.STRUCT? {
      assert MaxDepth(t.members) >= Depth(t.members[0]);
      assert |EncodeMember(v.fields[0], t.members[0])| > 0;
    }
  }

  /** Inside arrays and structs only a BOOL keeps its identifier octet. */
  function EncodeMember(v: Value, t: DataType): (bs: seq<Byte>)
    requires HasType(v, t)
    ensures |bs| > 0
    decreases Depth(t), 2
  {
    if t.BOOL? then [TagOf(v, t)] else
    ValueNotEmpty(v, t);
    EncodeValue(v, t)
  }

  function EncodeFields(vs: seq<Value>, ms: seq<DataType>): seq<Byte>
    requires HaveTypes(vs, ms)
    decreases MaxDepth(ms), 3, |ms|
  {
    if ms == [] then [] else EncodeMember(vs[0], ms[0]) + EncodeFields(vs[1..], ms[1..])
  }

  /** A data point as it travels on its own: identifier octet, then payload. */
  function EncodePoint(v: Value, t: DataType): (bs: seq<Byte>)
    requires HasType(v, t)
    ensures bs != []
  {
    [TagOf(v, t)] + EncodeValue(v, t)
  }

  // ---- receiving ----

  /** Used is the result code of the code: bytes consumed, or a value <= 0 for failure. */
  datatype Decoded = Decoded(used: int, value: Value)
  datatype DecodedSeq = DecodedSeq(used: int, values: seq<Value>)

  predicate TagMatches(b: Byte, t: DataType) {
    if t.BOOL? then b == APPLICATION || b == APPLICATION + 1 else b == TypeTag(t)
  }

  /** Matching the tag of a BOOL already stores its value. */
  function AfterTag(b: Byte, t: DataType, v: Value): Value {
    if t.BOOL? then Bool(b == APPLICATION + 1) else v
  }

  function DecodePoint(bs: seq<Byte>, t: DataType, v: Value): (d: Decoded)
    requires HasType(v, t)
    ensures HasType(d.value, t)
    ensures -2 <= d.used <= |bs|
    decreases Depth(t), 1
  {
    if bs == [] || !IsApplication(bs[0]) then Decoded(-1, v)
    else if !TagMatches(bs[0], t) then Decoded(-2, v)
    else
      var d := DecodeValue(bs[1..], t, AfterTag(bs[0], t, v));
      Decoded(d.used + 1, d.value)
  }

  /** The received low bytes, extended to the eight bytes of the union. */
  function Extend(low: seq<Byte>, s: Scalar): (data: seq<Byte>)
    requires |low| == Width(s)
    ensures |data| == 8
  {
    var fill: Byte := if SignExtended(s) && low[|low| - 1] >= 128 then 255 else 0;
    low + seq(8 - |low|, _ => fill)
  }

  function DecodeValue(bs: seq<Byte>, t: DataType, v: Value): (d: Decoded)
    requires HasType(v, t)
    ensures HasType(d.value, t)
    ensures d.used <= |bs|
    ensures t.BOOL? || d.used == -1 || d.used == -2 || d.used > 0
    decreases Depth(t), 0
  {
    match t
    case BOOL => Decoded(0, v)
    case ScalarType(s) =>
      if |bs| < Width(s) then Decoded(-1, v)
      else Decoded(Width(s), ScalarValue(s, Extend(Reverse(bs[..Width(s)]), s)))
    case TIME =>
      if |bs| < 8 then Decoded(-1, v)
      else Decoded(8, Time(FromMicros(TimeOnWire(bs[..8]))))
    case STRING =>
      if |bs| < 2 || |bs| < LengthOf(bs) + 2 then Decoded(-1, v)
      else
        Decoded(LengthOf(bs) + 2, Text(bs[2..LengthOf(bs) + 2]))
    case ARRAY(e) =>
      var d := DecodeArray(bs, e, v.elems);
      Decoded(d.used, Array(d.values))
    case STRUCT(tag, ms) =>
      var d := DecodeFields(bs, ms, v.fields);
      Decoded(d.used, Struct(tag, d.values))
  }

  function DecodeMember(bs: seq<Byte>, t: DataType, v: Value): (d: Decoded)
    requires HasType(v, t)
    ensures HasType(d.value, t)
    ensures d.used <= |bs|
    ensures d.used == -1 || d.used == -2 || d.used > 0
    decreases Depth(t), 2
  {
    if t.BOOL? then DecodePoint(bs, t, v) else DecodeValue(bs, t, v)
  }

  function DecodeArray(bs: seq<Byte>, e: DataType, vs: seq<Value>): (d: DecodedSeq)
    requires vs != [] && AllHaveType(vs, e)
    ensures |d.values| == |vs| && AllHaveType(d.values, e)
    ensures d.used <= |bs|
    ensures d.used == -1 || d.used == -2 || d.used > 0
    decreases Depth(e), 5
  {
    if |bs| < 2 then DecodedSeq(-1, vs)
    else if LengthOf(bs) == 0 then DecodedSeq(2, vs)
    else if e.BOOL? then
      After(2, DecodeElems(bs[2..], LengthOf(bs), e, vs))
    else if |bs| == 2 || !TagMatches(bs[2], e) then DecodedSeq(-1, vs)
    else
      After(3, DecodeElems(bs[3..], LengthOf(bs), e, vs))
  }

  function After(header: nat, d: DecodedSeq): DecodedSeq {
    DecodedSeq(if d.used < 0 then d.used else header + d.used, d.values)
  }

  /** The targets of m received elements: those of the array, then as many clones as needed. */
  function Targets(vs: seq<Value>, m: nat): (ws: seq<Value>)
    requires vs != []
    ensures |ws| == m
  {
    if m <= |vs| then vs[..m] else vs + seq(m - |vs|, _ => vs[0])
  }

  /** The array after its targets have been written; clones are dropped. */
  function WrittenBack(vs: seq<Value>, ws: seq<Value>): (us: seq<Value>)
    ensures |us| == |vs|
  {
    if |ws| <= |vs| then ws + vs[|ws|..] else ws[..|vs|]
  }

  function DecodeElems(bs: seq<Byte>, m: nat, e: DataType, vs: seq<Value>): (d: DecodedSeq)
    requires vs != [] && AllHaveType(vs, e)
    ensures |d.values| == |vs| && AllHaveType(d.values, e)
    ensures d.used <= |bs|
    ensures d.used == -1 || d.used == -2 || d.used >= m
    decreases Depth(e), 4, 0
  {
    var d := DecodeFields(bs, Repeat(e, m), Targets(vs, m));
    DecodedSeq(d.used, WrittenBack(vs, d.values))
  }

  function DecodeFields(bs: seq<Byte>, ms: seq<DataType>, vs: seq<Value>): (d: DecodedSeq)
    requires HaveTypes(vs, ms)
    ensures HaveTypes(d.values, ms)
    ensures d.used <= |bs|
    ensures d.used == -1 || d.used == -2 || d.used >= |ms|
    decreases MaxDepth(ms), 3, |ms|
  {
    if ms == [] then DecodedSeq(0, vs)
    else
      var d := DecodeMember(bs, ms[0], vs[0]);
      if d.used <= 0 then DecodedSeq(d.used, [d.value] + vs[1..])
      else Then(d.used, d.value, DecodeFields(bs[d.used..], ms[1..], vs[1..]))
  }

  /** One part done with its bytes, then the rest; a failure of the rest is the failure of both. */
  function Then(used: nat, done: Value, rest: DecodedSeq): DecodedSeq {
    DecodedSeq(if rest.used < 0 then rest.used else used + rest.used, [done] + rest.values)
  }
}
