/** Incomplete data, wrong types and predicted sizes. */
module Asn1Properties {
  import opened Bytes
  import opened DataPoints
  import opened Asn1Codec
  import opened Asn1RoundTrip

  // ---- proper prefixes ----

  lemma {:induction false} ValuePrefixFails(v: Value, w: Value, t: DataType, n: nat)
    requires HasType(v, t) && HasType(w, t) && !t.BOOL?
    requires n < |EncodeValue(v, t)|
    ensures DecodeValue(EncodeValue(v, t)[..n], t, w).used == -1
    decreases Depth(t), 0
  {
    match t
    case ARRAY(e) => ArrayPrefixFails(v.elems, w.elems, e, n);
    case STRUCT(_, ms) => FieldsPrefixFail(v.fields, w.fields, ms, n);
    case STRING => TextPrefixFails(v, w, n);
    case ScalarType(s) => assert |EncodeValue(v, t)| == Width(s);
    case TIME => assert |EncodeValue(v, t)| == 8;
  }

  lemma TextPrefixFails(v: Value, w: Value, n: nat)
    requires HasType(v, STRING) && HasType(w, STRING) && n < |EncodeValue(v, STRING)|
    ensures DecodeValue(EncodeValue(v, STRING)[..n], STRING, w).used == -1
  {
    var bs := EncodeValue(v, STRING)[..n];
    assert n >= 2 ==> LengthOf(bs) == |v.chars|;
  }

  lemma {:induction false} ArrayPrefixFails(vs: seq<Value>, ws: seq<Value>, e: DataType, n: nat)
    requires AllHaveType(vs, e) && AllHaveType(ws, e) && 0 < |vs| < 0x1_0000 && ws != []
    requires n < |EncodeArray(vs, e)|
    ensures DecodeArray(EncodeArray(vs, e)[..n], e, ws).used == -1
    decreases Depth(e), 4
  {
    hide HasType, EncodeFields, DecodeElems, ArrayHeader;
    var h := if e.BOOL? then 2 else 3;
    HeaderPrefix(|vs|, e, EncodeFields(vs, Repeat(e, |vs|)), n);
    if n >= h {
      ElemsPrefixFail(vs, ws, e, n - h);
    }
  }

  lemma HeaderPrefix(m: nat, e: DataType, body: seq<Byte>, n: nat)
    requires m < 0x1_0000 && n < |ArrayHeader(m, e) + body|
    ensures var bs, h := (ArrayHeader(m, e) + body)[..n], if e.BOOL? then 2 else 3;
      && |ArrayHeader(m, e)| == h
      && (n >= 2 ==> LengthOf(bs) == m)
      && (n >= h ==> bs[h..] == body[..n - h])
  {
  }

  lemma {:induction false} ElemsPrefixFail(vs: seq<Value>, ws: seq<Value>, e: DataType, n: nat)
    requires AllHaveType(vs, e) && AllHaveType(ws, e) && 0 < |vs| && ws != []
    requires n < |EncodeFields(vs, Repeat(e, |vs|))|
    ensures DecodeElems(EncodeFields(vs, Repeat(e, |vs|))[..n], |vs|, e, ws).used == -1
    decreases Depth(e), 3
  {
    FieldsPrefixFail(vs, Targets(ws, |vs|), Repeat(e, |vs|), n);
  }

  lemma {:induction false} FieldsPrefixFail(vs: seq<Value>, ws: seq<Value>, ms: seq<DataType>, n: nat)
    requires HaveTypes(vs, ms) && HaveTypes(ws, ms)
    requires n < |EncodeFields(vs, ms)|
    ensures DecodeFields(EncodeFields(vs, ms)[..n], ms, ws).used == -1
    decreases MaxDepth(ms), 2, |ms|
  {
    var first, tail := EncodeMember(vs[0], ms[0]), EncodeFields(vs[1..], ms[1..]);
    if n < |first| {
      assert EncodeFields(vs, ms)[..n] == first[..n];
      if !ms[0].BOOL? {
        ValuePrefixFails(vs[0], ws[0], ms[0], n);
      }
    } else {
      var k := n - |first|;
      assert EncodeFields(vs, ms)[..n] == first + tail[..k];
      MemberRoundTrip(vs[0], ws[0], ms[0], tail[..k]);
      assert (first + tail[..k])[|first|..] == tail[..k];
      FieldsPrefixFail(vs[1..], ws[1..], ms[1..], k);
    }
  }

  /** A data point that has arrived in part is never taken for a complete or a mistyped one:
      every proper prefix gives 0, the empty one -1. */
  lemma PointPrefixIncomplete(v: Value, w: Value, t: DataType, n: nat)
    requires HasType(v, t) && HasType(w, t) && IsApplication(TypeTag(t))
    requires n < |EncodePoint(v, t)|
    ensures DecodePoint(EncodePoint(v, t)[..n], t, w).used == if n == 0 then -1 else 0
  {
    if n > 0 {
      assert EncodePoint(v, t)[..n][1..] == EncodeValue(v, t)[..n - 1];
      ValuePrefixFails(v, w, t, n - 1);
    }
  }

  // ---- wrong types ----

  /** The types that one identifier octet stands for; all arrays share theirs. */
  predicate SameKind(t: DataType, u: DataType) {
    (t.ARRAY? && u.ARRAY?) || t == u
  }

  lemma TagsDistinct(t: DataType, u: DataType)
    requires StructFree(t) && StructFree(u)
    ensures TypeTag(t) == TypeTag(u) <==> SameKind(t, u)
    ensures TypeTag(t) != APPLICATION && IsApplication(TypeTag(t))
  {
  }

  /** A data point of another kind is rejected with -2 and leaves the target alone; the
      rejection happens for no data point of the same kind. */
  lemma RejectedIffOtherKind(v: Value, t: DataType, w: Value, u: DataType, suffix: seq<Byte>)
    requires HasType(v, t) && HasType(w, u) && StructFree(t) && StructFree(u)
    ensures DecodePoint(EncodePoint(v, t) + suffix, u, w).used == -2 <==> !SameKind(t, u)
    ensures !SameKind(t, u) ==> DecodePoint(EncodePoint(v, t) + suffix, u, w).value == w
  {
    TagsDistinct(t, u);
    assert (EncodePoint(v, t) + suffix)[0] == TagOf(v, t);
    assert TagMatches(TagOf(v, t), u) <==> SameKind(t, u);
    assert IsApplication(TagOf(v, t));
    hide HasType, DecodeValue, EncodeValue, EncodePoint, Width, TypeTag, TagMatches, TagOf;
    hide SameKind, StructFree, IsApplication;
  }

  lemma ElementTag(vs: seq<Value>, e: DataType, rest: seq<Byte>)
    requires AllHaveType(vs, e) && 0 < |vs| < 0x1_0000
    ensures var bs := EncodeArray(vs, e) + rest;
      |bs| > 2 && LengthOf(bs) == |vs| && bs[2] == TagOf(vs[0], e)
  {
    var body := EncodeFields(vs, Repeat(e, |vs|));
    assert body == EncodeMember(vs[0], e) + EncodeFields(vs[1..], Repeat(e, |vs|)[1..]);
  }

  /** The types of two arrays first differ where a BOOL is expected. */
  predicate MeetsBool(e: DataType, u: DataType) {
    if e.ARRAY? && u.ARRAY? then MeetsBool(e.elem, u.elem) else u.BOOL?
  }

  lemma ArrayMismatch(vs: seq<Value>, e: DataType, ws: seq<Value>, u: DataType, bs: seq<Byte>)
    requires AllHaveType(vs, e) && 0 < |vs| && AllHaveType(ws, u) && ws != []
    requires StructFree(e) && StructFree(u) && !SameKind(e, u)
    requires |bs| > 2 && LengthOf(bs) == |vs| && bs[2] == TagOf(vs[0], e)
    ensures DecodeArray(bs, u, ws) == DecodedSeq(if u.BOOL? then -2 else -1, ws)
  {
    if u.BOOL? {
      BoolMismatch(vs, e, ws, bs[2..]);
    } else {
      OtherTag(vs, e, u);
      hide HasType, DecodeElems, TypeTag;
    }
  }

  lemma OtherTag(vs: seq<Value>, e: DataType, u: DataType)
    requires AllHaveType(vs, e) && 0 < |vs| && StructFree(e) && StructFree(u) && !SameKind(e, u) && !u.BOOL?
    ensures !TagMatches(TagOf(vs[0], e), u)
  {
    TagsDistinct(e, u);
  }

  lemma BoolMismatch(vs: seq<Value>, e: DataType, ws: seq<Value>, bs: seq<Byte>)
    requires AllHaveType(vs, e) && 0 < |vs| && AllHaveType(ws, BOOL) && ws != []
    requires StructFree(e) && !SameKind(e, BOOL) && bs != [] && bs[0] == TagOf(vs[0], e)
    ensures DecodeElems(bs, |vs|, BOOL, ws) == DecodedSeq(-2, ws)
  {
    TagsDistinct(e, BOOL);
    assert DecodeMember(bs, BOOL, ws[0]) == Decoded(-2, ws[0]);
    FirstFails(bs, |vs|, BOOL, ws, -2);
  }

  /** A first element that fails and leaves its target alone leaves the whole array alone. */
  lemma FirstFails(bs: seq<Byte>, m: nat, u: DataType, ws: seq<Value>, code: int)
    requires 0 < m && AllHaveType(ws, u) && ws != [] && code <= 0
    requires DecodeMember(bs, u, ws[0]) == Decoded(code, ws[0])
    ensures DecodeElems(bs, m, u, ws) == DecodedSeq(code, ws)
  {
    hide HasType, DecodeMember;
    var us := Targets(ws, m);
    assert us[0] == ws[0] && us == [us[0]] + us[1..];
    assert Repeat(u, m)[0] == u;
    assert DecodeFields(bs, Repeat(u, m), us) == DecodedSeq(code, us);
    assert WrittenBack(ws, us) == ws;
  }

  /** Element types may differ at any depth of nesting: nothing is stored, and nothing accepted. */
  lemma {:induction false} NestedMismatch(vs: seq<Value>, e: DataType, ws: seq<Value>, u: DataType, suffix: seq<Byte>)
    requires AllHaveType(vs, e) && 0 < |vs| < 0x1_0000 && AllHaveType(ws, u) && ws != []
    requires StructFree(e) && StructFree(u) && e != u
    ensures DecodeArray(EncodeArray(vs, e) + suffix, u, ws) == DecodedSeq(if MeetsBool(e, u) then -2 else -1, ws)
    decreases Depth(e)
  {
    if SameKind(e, u) {
      NestedMismatch(vs[0].elems, e.elem, ws[0].elems, u.elem, RestOfElems(vs, e) + suffix);
      InnerArrays(vs, e, ws, u, suffix);
    } else {
      ElementTag(vs, e, suffix);
      ArrayMismatch(vs, e, ws, u, EncodeArray(vs, e) + suffix);
    }
  }

  /** The elements behind the first one. */
  function RestOfElems(vs: seq<Value>, e: DataType): seq<Byte>
    requires AllHaveType(vs, e) && 0 < |vs|
  {
    EncodeFields(vs[1..], Repeat(e, |vs|)[1..])
  }

  lemma InnerArrays(vs: seq<Value>, e: DataType, ws: seq<Value>, u: DataType, suffix: seq<Byte>)
    requires AllHaveType(vs, e) && 0 < |vs| < 0x1_0000 && AllHaveType(ws, u) && ws != []
    requires e.ARRAY? && u.ARRAY?
    requires DecodeArray(EncodeArray(vs[0].elems, e.elem) + (RestOfElems(vs, e) + suffix), u.elem, ws[0].elems)
      == DecodedSeq(if MeetsBool(e, u) then -2 else -1, ws[0].elems)
    ensures DecodeArray(EncodeArray(vs, e) + suffix, u, ws) == DecodedSeq(if MeetsBool(e, u) then -2 else -1, ws)
  {
    var code := if MeetsBool(e, u) then -2 else -1;
    var bs := EncodeArray(vs, e) + suffix;
    InnerBytes(vs, e, suffix);
    assert TypeTag(e) == TypeTag(u);
    ArrayMember(bs[3..], u, ws[0]);
    hide HasType, EncodeArray, EncodeFields, RestOfElems, DecodeElems, DecodeMember, TypeTag, MeetsBool;
    FirstFails(bs[3..], |vs|, u, ws, code);
  }

  lemma ArrayMember(bs: seq<Byte>, u: DataType, w: Value)
    requires HasType(w, u) && u.ARRAY?
    ensures var d := DecodeArray(bs, u.elem, w.elems);
      DecodeMember(bs, u, w) == Decoded(d.used, Array(d.values))
    ensures w == Array(w.elems)
  {
  }

  lemma FirstElement(vs: seq<Value>, e: DataType)
    requires AllHaveType(vs, e) && 0 < |vs| && e.ARRAY?
    ensures EncodeFields(vs, Repeat(e, |vs|)) == EncodeArray(vs[0].elems, e.elem) + RestOfElems(vs, e)
  {
    var ms := Repeat(e, |vs|);
    assert EncodeFields(vs, ms) == EncodeMember(vs[0], ms[0]) + EncodeFields(vs[1..], ms[1..]);
    assert ms[0] == e;
    hide EncodeFields;
    assert EncodeMember(vs[0], e) == EncodeValue(vs[0], e);
  }

  lemma InnerBytes(vs: seq<Value>, e: DataType, suffix: seq<Byte>)
    requires AllHaveType(vs, e) && 0 < |vs| < 0x1_0000 && e.ARRAY?
    ensures var bs := EncodeArray(vs, e) + suffix;
      && |bs| > 2 && LengthOf(bs) == |vs| && bs[2] == TypeTag(e)
      && bs[3..] == EncodeArray(vs[0].elems, e.elem) + (RestOfElems(vs, e) + suffix)
  {
    FirstElement(vs, e);
    assert EncodeArray(vs, e) == LengthBytes(|vs|) + [TypeTag(e)] + EncodeFields(vs, Repeat(e, |vs|));
    ThreeBytes(EncodeArray(vs, e), |vs|, TypeTag(e), EncodeArray(vs[0].elems, e.elem), RestOfElems(vs, e), suffix);
  }

  lemma ThreeBytes(bs: seq<Byte>, m: nat, tag: Byte, first: seq<Byte>, rest: seq<Byte>, suffix: seq<Byte>)
    requires m < 0x1_0000 && bs == LengthBytes(m) + [tag] + (first + rest)
    ensures |bs + suffix| > 2 && LengthOf(bs + suffix) == m && (bs + suffix)[2] == tag
    ensures (bs + suffix)[3..] == first + (rest + suffix)
  {
    assert bs + suffix == LengthBytes(m) + [tag] + (first + (rest + suffix));
  }

  /** An array with other elements, at whatever depth they differ, is not rejected: it reads as
      incomplete whatever bytes follow, and the target is left alone. */
  lemma ArrayMismatchLooksIncomplete(v: Value, e: DataType, w: Value, u: DataType, suffix: seq<Byte>)
    requires HasType(v, ARRAY(e)) && HasType(w, ARRAY(u)) && StructFree(e) && StructFree(u) && e != u
    ensures DecodePoint(EncodePoint(v, ARRAY(e)) + suffix, ARRAY(u), w)
      == Decoded(if MeetsBool(e, u) then -1 else 0, w)
  {
    hide EncodeArray, EncodeFields, DecodeArray, MeetsBool;
    NestedMismatch(v.elems, e, w.elems, u, suffix);
    var bs := EncodePoint(v, ARRAY(e)) + suffix;
    assert bs == [TypeTag(ARRAY(u))] + (EncodeArray(v.elems, e) + suffix);
    ArrayPoint(bs, u, w);
    hide *;
  }

  lemma ArrayPoint(bs: seq<Byte>, u: DataType, w: Value)
    requires bs != [] && bs[0] == TypeTag(ARRAY(u)) && HasType(w, ARRAY(u))
    ensures var d := DecodeArray(bs[1..], u, w.elems);
      DecodePoint(bs, ARRAY(u), w) == Decoded(d.used + 1, Array(d.values))
    ensures w == Array(w.elems)
  {
    hide DecodeArray;
    assert w.elems != [] && AllHaveType(w.elems, u) && w == Array(w.elems);
    hide HasType;
    var t, d := ARRAY(u), DecodeArray(bs[1..], u, w.elems);
    assert DecodeValue(bs[1..], t, w) == Decoded(d.used, Array(d.values));
    assert TagMatches(bs[0], t) && IsApplication(bs[0]) && AfterTag(bs[0], t, w) == w;
    hide DecodeValue, TagMatches, IsApplication, AfterTag;
  }

  /** Whatever follows, a struct-free data point is accepted exactly by the targets of its own type,
      at every depth of nesting, and every other target is left alone. */
  lemma AcceptedIffSameType(v: Value, t: DataType, w: Value, u: DataType, suffix: seq<Byte>)
    requires HasType(v, t) && HasType(w, u) && StructFree(t) && StructFree(u)
    ensures DecodePoint(EncodePoint(v, t) + suffix, u, w).used > 0 <==> t == u
    ensures t != u ==> DecodePoint(EncodePoint(v, t) + suffix, u, w).value == w
  {
    if t == u {
      TagsDistinct(t, u);
      PointRoundTrip(v, w, t, suffix);
    } else if SameKind(t, u) {
      ArrayMismatchLooksIncomplete(v, t.elem, w, u.elem, suffix);
    } else {
      RejectedIffOtherKind(v, t, w, u, suffix);
    }
    hide HasType, DecodePoint, EncodePoint;
  }

  // ---- size prediction ----

  /** The buffer size reserved for one data point; structs count 255 whatever they hold. */
  function RequiredSize(v: Value, t: DataType): (n: nat)
    requires HasType(v, t)
    ensures n >= 1
    decreases Depth(t), 0
  {
    match t
    case BOOL => 1
    case ScalarType(s) => Width(s) + 1
    case TIME => 9
    case STRING => |v.chars| + 3
    case ARRAY(e) =>
      if e.BOOL? then 3 + |v.elems| else 3 + ElemSizes(v.elems, e) - (|v.elems| - 1)
    case STRUCT(_, _) => 255
  }

  function ElemSizes(vs: seq<Value>, e: DataType): (n: nat)
    requires AllHaveType(vs, e)
    ensures n >= |vs|
    decreases Depth(e), 1, |vs|
  {
    if vs == [] then 0 else RequiredSize(vs[0], e) + ElemSizes(vs[1..], e)
  }

  lemma {:induction false} SizeExact(v: Value, t: DataType)
    requires HasType(v, t) && StructFree(t)
    ensures RequiredSize(v, t) == |EncodePoint(v, t)|
    decreases Depth(t), 0
  {
    assert |EncodePoint(v, t)| == 1 + |EncodeValue(v, t)|;
    match t
    case ARRAY(e) =>
      ElemSizesExact(v.elems, e);
      var m := |v.elems|;
      assert EncodeValue(v, t) == ArrayHeader(m, e) + EncodeFields(v.elems, Repeat(e, m));
      assert |ArrayHeader(m, e)| == if e.BOOL? then 2 else 3;
      hide EncodeFields, ElemSizes, ArrayHeader;
    case _ =>
  }

  lemma {:induction false} ElemSizesExact(vs: seq<Value>, e: DataType)
    requires AllHaveType(vs, e) && StructFree(e)
    ensures |EncodeFields(vs, Repeat(e, |vs|))| == if e.BOOL? then |vs| else ElemSizes(vs, e) - |vs|
    decreases Depth(e), 1, |vs|
  {
    if vs != [] {
      SizeExact(vs[0], e);
      assert Repeat(e, |vs|)[1..] == Repeat(e, |vs| - 1);
      ElemSizesExact(vs[1..], e);
    }
  }
}
