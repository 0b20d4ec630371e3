/** Sending a data point and receiving it again. */
module Asn1RoundTrip {
  import opened Bytes
  import opened Machine
  import opened DataPoints
  import opened Asn1Codec

  /** What a target w of the same type holds after v has been sent to it. Array elements that
      v does not provide keep their value; those w has no room for are dropped. */
  function Received(v: Value, w: Value, t: DataType): (r: Value)
    requires HasType(v, t) && HasType(w, t)
    ensures HasType(r, t)
    decreases Depth(t), 0
  {
    match t
    case BOOL => v
    case ScalarType(s) => ScalarValue(s, Extend(v.data[..Width(s)], s))
    case TIME => Time(ToMicros(v.ticks) * NANOS_PER_MICRO)
    case STRING => v
    case ARRAY(e) => Array(ReceivedElems(v.elems, w.elems, e))
    case STRUCT(tag, ms) => Struct(tag, ReceivedFields(v.fields, w.fields, ms))
  }

  function ReceivedElems(vs: seq<Value>, ws: seq<Value>, e: DataType): (rs: seq<Value>)
    requires AllHaveType(vs, e) && AllHaveType(ws, e) && ws != []
    ensures |rs| == |ws| && AllHaveType(rs, e)
    decreases Depth(e), 2
  {
    WrittenBack(ws, ReceivedFields(vs, Targets(ws, |vs|), Repeat(e, |vs|)))
  }

  function ReceivedFields(vs: seq<Value>, ws: seq<Value>, ms: seq<DataType>): (rs: seq<Value>)
    requires HaveTypes(vs, ms) && HaveTypes(ws, ms)
    ensures HaveTypes(rs, ms)
    decreases MaxDepth(ms), 1, |ms|
  {
    if ms == [] then [] else [Received(vs[0], ws[0], ms[0])] + ReceivedFields(vs[1..], ws[1..], ms[1..])
  }

  lemma {:induction false} ReceivedFieldAt(vs: seq<Value>, ws: seq<Value>, ms: seq<DataType>, j: nat)
    requires HaveTypes(vs, ms) && HaveTypes(ws, ms)
    requires j < |ms|
    ensures ReceivedFields(vs, ws, ms)[j] == Received(vs[j], ws[j], ms[j])
  {
    if j > 0 {
      ReceivedFieldAt(vs[1..], ws[1..], ms[1..], j - 1);
    }
  }

  /** Array framing: of m sent elements a target of k elements takes the first min(m, k) and
      keeps the rest of its own. */
  lemma ReceivedElemAt(vs: seq<Value>, ws: seq<Value>, e: DataType, j: nat)
    requires AllHaveType(vs, e) && AllHaveType(ws, e)
    requires j < |ws|
    ensures ReceivedElems(vs, ws, e)[j] == if j < |vs| then Received(vs[j], ws[j], e) else ws[j]
  {
    var us, ms := Targets(ws, |vs|), Repeat(e, |vs|);
    assert HaveTypes(vs, ms) && HaveTypes(us, ms);
    assert ReceivedElems(vs, ws, e) == WrittenBack(ws, ReceivedFields(vs, us, ms));
    hide HasType, HaveTypes, AllHaveType, Repeat, Received, ReceivedFields, ReceivedElems;
    if j < |vs| {
      ReceivedFieldAt(vs, us, ms, j);
      assert us[j] == ws[j] && ms[j] == e;
    }
  }

  lemma Range8()
    ensures Range(8) == 0x1_0000_0000_0000_0000
  {
    assert Range(2) == 256 * Range(1) && Range(4) == 256 * Range(3) && Range(6) == 256 * Range(5);
    assert Range(3) == 256 * Range(2) && Range(5) == 256 * Range(4) && Range(7) == 256 * Range(6);
  }

  lemma MicrosInRange(ticks: int)
    requires INT64_MIN <= ticks <= INT64_MAX
    ensures INT64_MIN <= ToMicros(ticks) * NANOS_PER_MICRO <= INT64_MAX
    ensures INT64_MIN <= ToMicros(ticks) <= INT64_MAX
  {
  }

  lemma WrapToUint64(x: int)
    requires INT64_MIN <= x <= INT64_MAX
    ensures WrapInt64(ToUint64(x)) == x
  {
  }

  lemma TimeRoundTrip(ticks: int)
    requires INT64_MIN <= ticks <= INT64_MAX
    ensures FromMicros(TimeOnWire(BigEndian(ToUint64(ToMicros(ticks)), 8))) == ToMicros(ticks) * NANOS_PER_MICRO
  {
    var us := ToMicros(ticks);
    MicrosInRange(ticks);
    WrapToUint64(us);
    Range8();
    ReadBack(ToUint64(us), 8);
    assert TimeOnWire(BigEndian(ToUint64(us), 8)) == us;
  }

  lemma ScalarRoundTrip(v: Value, w: Value, s: Scalar, suffix: seq<Byte>)
    requires HasType(v, ScalarType(s)) && HasType(w, ScalarType(s))
    ensures DecodeValue(EncodeValue(v, ScalarType(s)) + suffix, ScalarType(s), w)
      == Decoded(Width(s), Received(v, w, ScalarType(s)))
  {
    var bs := EncodeValue(v, ScalarType(s)) + suffix;
    assert bs[..Width(s)] == EncodeValue(v, ScalarType(s));
    assert Reverse(bs[..Width(s)]) == v.data[..Width(s)];
  }

  lemma TextRoundTrip(v: Value, w: Value, suffix: seq<Byte>)
    requires HasType(v, STRING) && HasType(w, STRING)
    ensures DecodeValue(EncodeValue(v, STRING) + suffix, STRING, w) == Decoded(|v.chars| + 2, v)
  {
    var bs := EncodeValue(v, STRING) + suffix;
    assert bs[2..|v.chars| + 2] == v.chars;
  }

  lemma HeaderRoundTrip(m: nat, e: DataType, body: seq<Byte>)
    requires m < 0x1_0000
    ensures var bs, h := ArrayHeader(m, e) + body, |ArrayHeader(m, e)|;
      && LengthOf(bs) == m
      && bs[h..] == body
      && (!e.BOOL? ==> h == 3 && bs[2] == TypeTag(e))
  {
    var head := if e.BOOL? then [] else [TypeTag(e)];
    assert ArrayHeader(m, e) + body == LengthBytes(m) + (head + body);
  }

  lemma {:induction false} ValueRoundTrip(v: Value, w: Value, t: DataType, suffix: seq<Byte>)
    requires HasType(v, t) && HasType(w, t) && !t.BOOL?
    ensures DecodeValue(EncodeValue(v, t) + suffix, t, w) == Decoded(|EncodeValue(v, t)|, Received(v, w, t))
    decreases Depth(t), 0
  {
    match t
    case ScalarType(s) => ScalarRoundTrip(v, w, s, suffix);
    case TIME =>
      assert (EncodeValue(v, t) + suffix)[..8] == EncodeValue(v, t);
      TimeRoundTrip(v.ticks);
    case STRING => TextRoundTrip(v, w, suffix);
    case ARRAY(e) =>
      ArrayRoundTrip(v.elems, w.elems, e, suffix);
    case STRUCT(_, ms) =>
      FieldsRoundTrip(v.fields, ms, w.fields, suffix);
  }

  lemma {:induction false} ArrayRoundTrip(vs: seq<Value>, ws: seq<Value>, e: DataType, suffix: seq<Byte>)
    requires AllHaveType(vs, e) && AllHaveType(ws, e) && 0 < |vs| < 0x1_0000 && ws != []
    ensures DecodeArray(EncodeArray(vs, e) + suffix, e, ws)
      == DecodedSeq(|EncodeArray(vs, e)|, ReceivedElems(vs, ws, e))
    decreases Depth(e), 3
  {
    var m := |vs|;
    var body := EncodeFields(vs, Repeat(e, m));
    assert EncodeArray(vs, e) + suffix == ArrayHeader(m, e) + (body + suffix);
    HeaderRoundTrip(m, e, body + suffix);
    FieldsRoundTrip(vs, Repeat(e, m), Targets(ws, m), suffix);
  }

  lemma {:induction false} MemberRoundTrip(v: Value, w: Value, t: DataType, suffix: seq<Byte>)
    requires HasType(v, t) && HasType(w, t)
    ensures DecodeMember(EncodeMember(v, t) + suffix, t, w) == Decoded(|EncodeMember(v, t)|, Received(v, w, t))
    decreases Depth(t), 1
  {
    if !t.BOOL? {
      ValueRoundTrip(v, w, t, suffix);
    }
  }

  lemma {:induction false} FieldsRoundTrip(vs: seq<Value>, ms: seq<DataType>, ws: seq<Value>, suffix: seq<Byte>)
    requires HaveTypes(vs, ms) && HaveTypes(ws, ms)
    ensures DecodeFields(EncodeFields(vs, ms) + suffix, ms, ws)
      == DecodedSeq(|EncodeFields(vs, ms)|, ReceivedFields(vs, ws, ms))
    decreases MaxDepth(ms), 2, |ms|
  {
    if ms != [] {
      var first := EncodeMember(vs[0], ms[0]);
      var tail := EncodeFields(vs[1..], ms[1..]) + suffix;
      assert EncodeFields(vs, ms) + suffix == first + tail;
      MemberRoundTrip(vs[0], ws[0], ms[0], tail);
      assert (first + tail)[|first|..] == tail;
      FieldsRoundTrip(vs[1..], ms[1..], ws[1..], suffix);
    }
  }

  /** The round trip. Decoding an encoded data point, whatever bytes follow it, consumes exactly
      its bytes and leaves Received in the target. Only the class bit of a struct's own tag
      decides whether the point is readable at all. */
  lemma PointRoundTrip(v: Value, w: Value, t: DataType, suffix: seq<Byte>)
    requires HasType(v, t) && HasType(w, t)
    ensures var d := DecodePoint(EncodePoint(v, t) + suffix, t, w);
      if IsApplication(TypeTag(t))
      then d == Decoded(|EncodePoint(v, t)|, Received(v, w, t))
      else d == Decoded(-1, w)
  {
    var bs := EncodePoint(v, t) + suffix;
    if !t.BOOL? {
      assert bs[1..] == EncodeValue(v, t) + suffix;
      ValueRoundTrip(v, w, t, suffix);
    }
  }

  // ---- when nothing is lost ----

  /** The wire carries the value in full: the union bytes above a scalar's width are its sign or
      zero extension, and a TIME is a whole number of microseconds. */
  predicate Representable(v: Value, t: DataType)
    requires HasType(v, t)
    decreases t
  {
    match t
    case ScalarType(s) => v.data == Extend(v.data[..Width(s)], s)
    case TIME => v.ticks % NANOS_PER_MICRO == 0
    case ARRAY(e) => forall i :: 0 <= i < |v.elems| ==> Representable(v.elems[i], e)
    case STRUCT(_, ms) => forall i :: 0 <= i < |ms| ==> Representable(v.fields[i], ms[i])
    case _ => true
  }

  predicate SameShape(v: Value, w: Value, t: DataType)
    requires HasType(v, t) && HasType(w, t)
    decreases t
  {
    match t
    case ARRAY(e) =>
      |v.elems| == |w.elems| && forall i :: 0 <= i < |v.elems| ==> SameShape(v.elems[i], w.elems[i], e)
    case STRUCT(_, ms) => forall i :: 0 <= i < |ms| ==> SameShape(v.fields[i], w.fields[i], ms[i])
    case _ => true
  }

  predicate Restored(v: Value, w: Value, t: DataType)
    requires HasType(v, t) && HasType(w, t)
  {
    Received(v, w, t) == v <==> SameShape(v, w, t) && Representable(v, t)
  }

  lemma ArraysEqual(r: Value, v: Value)
    requires r.Array? && v.Array?
    ensures r == v <==> |r.elems| == |v.elems| && forall i :: 0 <= i < |v.elems| ==> r.elems[i] == v.elems[i]
  {
    assert r == v <==> r.elems == v.elems;
  }

  lemma StructsEqual(r: Value, v: Value)
    requires r.Struct? && v.Struct? && r.tag == v.tag && |r.fields| == |v.fields|
    ensures r == v <==> forall i :: 0 <= i < |v.fields| ==> r.fields[i] == v.fields[i]
  {
    assert r == v <==> r.fields == v.fields;
  }

  lemma ElemRestored(v: Value, w: Value, t: DataType, i: nat)
    requires HasType(v, t) && HasType(w, t) && t.ARRAY? && i < |v.elems| && i < |w.elems|
    requires Restored(v.elems[i], w.elems[i], t.elem)
    ensures var r := Received(v, w, t);
      && r.Array? && |r.elems| == |w.elems|
      && (r.elems[i] == v.elems[i] <==>
        SameShape(v.elems[i], w.elems[i], t.elem) && Representable(v.elems[i], t.elem))
  {
    hide SameShape, Representable;
    ReceivedElemAt(v.elems, w.elems, t.elem, i);
  }

  lemma SameLength(v: Value, w: Value, t: DataType)
    requires HasType(v, t) && HasType(w, t) && t.ARRAY?
    ensures Received(v, w, t).Array? && |Received(v, w, t).elems| == |w.elems|
  {
  }

  lemma ArrayMeans(v: Value, w: Value, t: DataType)
    requires HasType(v, t) && HasType(w, t) && t.ARRAY?
    ensures SameShape(v, w, t) <==>
      |v.elems| == |w.elems| && forall i :: 0 <= i < |v.elems| ==> SameShape(v.elems[i], w.elems[i], t.elem)
    ensures Representable(v, t) <==> forall i :: 0 <= i < |v.elems| ==> Representable(v.elems[i], t.elem)
  {
  }

  lemma ArrayRestored(v: Value, w: Value, t: DataType)
    requires HasType(v, t) && HasType(w, t) && t.ARRAY?
    requires forall i :: 0 <= i < |v.elems| && i < |w.elems| ==> Restored(v.elems[i], w.elems[i], t.elem)
    ensures Restored(v, w, t)
  {
    SameLength(v, w, t);
    ArrayMeans(v, w, t);
    assert AllHaveType(v.elems, t.elem) && AllHaveType(w.elems, t.elem);
    hide Received, SameShape, Representable, HasType;
    var r, e := Received(v, w, t), t.elem;
    ArraysEqual(r, v);
    if r == v {
      forall i | 0 <= i < |v.elems| ensures SameShape(v.elems[i], w.elems[i], e) && Representable(v.elems[i], e) {
        ElemRestored(v, w, t, i);
      }
    } else if |v.elems| == |w.elems| {
      var i :| 0 <= i < |v.elems| && r.elems[i] != v.elems[i];
      ElemRestored(v, w, t, i);
    }
  }

  lemma FieldRestored(v: Value, w: Value, t: DataType, i: nat)
    requires HasType(v, t) && HasType(w, t) && t.STRUCT? && i < |t.members|
    requires Restored(v.fields[i], w.fields[i], t.members[i])
    ensures var r := Received(v, w, t);
      && r.Struct? && |r.fields| == |v.fields|
      && (r.fields[i] == v.fields[i] <==>
        SameShape(v.fields[i], w.fields[i], t.members[i]) && Representable(v.fields[i], t.members[i]))
  {
    hide SameShape, Representable;
    ReceivedFieldAt(v.fields, w.fields, t.members, i);
  }

  lemma StructMeans(v: Value, w: Value, t: DataType)
    requires HasType(v, t) && HasType(w, t) && t.STRUCT?
    ensures var r, n := Received(v, w, t), |t.members|;
      r.Struct? && r.tag == v.tag && |r.fields| == |v.fields| == |w.fields| == n
    ensures SameShape(v, w, t) <==>
      forall i :: 0 <= i < |t.members| ==> SameShape(v.fields[i], w.fields[i], t.members[i])
    ensures Representable(v, t) <==>
      forall i :: 0 <= i < |t.members| ==> Representable(v.fields[i], t.members[i])
  {
  }

  lemma StructRestored(v: Value, w: Value, t: DataType)
    requires HasType(v, t) && HasType(w, t) && t.STRUCT?
    requires forall i :: 0 <= i < |t.members| ==> Restored(v.fields[i], w.fields[i], t.members[i])
    ensures Restored(v, w, t)
  {
    StructMeans(v, w, t);
    assert HaveTypes(v.fields, t.members) && HaveTypes(w.fields, t.members);
    hide Received, SameShape, Representable, HasType;
    var r, ms := Received(v, w, t), t.members;
    StructsEqual(r, v);
    if r == v {
      forall i | 0 <= i < |ms| ensures SameShape(v.fields[i], w.fields[i], ms[i]) && Representable(v.fields[i], ms[i]) {
        FieldRestored(v, w, t, i);
      }
    } else {
      var i :| 0 <= i < |ms| && r.fields[i] != v.fields[i];
      FieldRestored(v, w, t, i);
    }
  }

  /** The value arrives unchanged if and only if the target has its shape and the wire format
      can represent it. */
  lemma {:induction false} RestoredIffRepresentable(v: Value, w: Value, t: DataType)
    requires HasType(v, t) && HasType(w, t)
    ensures Received(v, w, t) == v <==> SameShape(v, w, t) && Representable(v, t)
    decreases t
  {
    match t
    case TIME =>
      assert ToMicros(v.ticks) * NANOS_PER_MICRO == v.ticks <==> v.ticks % NANOS_PER_MICRO == 0;
    case ARRAY(e) =>
      forall i | 0 <= i < |v.elems| && i < |w.elems| ensures Restored(v.elems[i], w.elems[i], e) {
        RestoredIffRepresentable(v.elems[i], w.elems[i], e);
      }
      ArrayRestored(v, w, t);
    case STRUCT(_, ms) =>
      forall i | 0 <= i < |ms| ensures Restored(v.fields[i], w.fields[i], ms[i]) {
        RestoredIffRepresentable(v.fields[i], w.fields[i], ms[i]);
      }
      StructRestored(v, w, t);
    case _ =>
  }
}
