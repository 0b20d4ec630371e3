/** Decoding from a part of the bytes: what a later, longer attempt can rely on. */
module Asn1Prefixes {
  import opened Bytes
  import opened DataPoints
  import opened Asn1Codec

  // ---- the result code depends on the bytes and the type, not on the target ----

  lemma {:induction false} ValueLength(bs: seq<Byte>, t: DataType, v: Value, w: Value)
    requires HasType(v, t) && HasType(w, t)
    ensures DecodeValue(bs, t, v).used == DecodeValue(bs, t, w).used
    decreases Depth(t), 0
  {
    match t
    case ARRAY(e) => ArrayLength(bs, e, v.elems, w.elems);
    case STRUCT(_, ms) => FieldsLength(bs, ms, v.fields, w.fields);
    case _ =>
  }

  /** Array framing: the bytes consumed do not depend on how many elements the target has. */
  lemma {:induction false} ArrayLength(bs: seq<Byte>, e: DataType, vs: seq<Value>, ws: seq<Value>)
    requires vs != [] && AllHaveType(vs, e) && ws != [] && AllHaveType(ws, e)
    ensures DecodeArray(bs, e, vs).used == DecodeArray(bs, e, ws).used
    decreases Depth(e), 5
  {
    hide HasType, DecodeElems, Width;
    var h := if e.BOOL? then 2 else 3;
    if |bs| >= h {
      ElemsLength(bs[h..], LengthOf(bs), e, vs, ws);
      hide AllHaveType;
    }
  }

  lemma {:induction false} ElemsLength(bs: seq<Byte>, m: nat, e: DataType, vs: seq<Value>, ws: seq<Value>)
    requires vs != [] && AllHaveType(vs, e) && ws != [] && AllHaveType(ws, e)
    ensures DecodeElems(bs, m, e, vs).used == DecodeElems(bs, m, e, ws).used
    decreases Depth(e), 4
  {
    FieldsLength(bs, Repeat(e, m), Targets(vs, m), Targets(ws, m));
  }

  lemma {:induction false} PointLength(bs: seq<Byte>, t: DataType, v: Value, w: Value)
    requires HasType(v, t) && HasType(w, t)
    ensures DecodePoint(bs, t, v).used == DecodePoint(bs, t, w).used
    decreases Depth(t), 1
  {
    if bs != [] {
      ValueLength(bs[1..], t, AfterTag(bs[0], t, v), AfterTag(bs[0], t, w));
    }
  }

  lemma {:induction false} MemberLength(bs: seq<Byte>, t: DataType, v: Value, w: Value)
    requires HasType(v, t) && HasType(w, t)
    ensures DecodeMember(bs, t, v).used == DecodeMember(bs, t, w).used
    decreases Depth(t), 2
  {
    ValueLength(bs, t, v, w);
    PointLength(bs, t, v, w);
  }

  lemma {:induction false} FieldsLength(bs: seq<Byte>, ms: seq<DataType>, vs: seq<Value>, ws: seq<Value>)
    requires HaveTypes(vs, ms) && HaveTypes(ws, ms)
    ensures DecodeFields(bs, ms, vs).used == DecodeFields(bs, ms, ws).used
    decreases MaxDepth(ms), 3, |ms|
  {
    if ms != [] {
      MemberLength(bs, ms[0], vs[0], ws[0]);
      var u := DecodeMember(bs, ms[0], vs[0]).used;
      if u > 0 {
        FieldsLength(bs[u..], ms[1..], vs[1..], ws[1..]);
      }
    }
  }

  /** What ends up in the first k targets does not depend on the other targets, so the clones
      that take surplus array elements have no influence. */
  lemma {:induction false} FieldsPrefix(
      bs: seq<Byte>, ms: seq<DataType>, vs: seq<Value>, ws: seq<Value>, k: nat)
    requires HaveTypes(vs, ms) && HaveTypes(ws, ms) && k <= |ms|
    requires forall i :: 0 <= i < k ==> vs[i] == ws[i]
    ensures forall i :: 0 <= i < k ==> DecodeFields(bs, ms, vs).values[i] == DecodeFields(bs, ms, ws).values[i]
    decreases |ms|
  {
    if k > 0 {
      var d := DecodeMember(bs, ms[0], vs[0]);
      if d.used > 0 {
        FieldsPrefix(bs[d.used..], ms[1..], vs[1..], ws[1..], k - 1);
      }
    }
  }

  // ---- a success is not changed by bytes that follow ----

  lemma ScalarExtends(bs: seq<Byte>, more: seq<Byte>, s: Scalar, v: Value)
    requires HasType(v, ScalarType(s)) && DecodeValue(bs, ScalarType(s), v).used >= 0
    ensures DecodeValue(bs + more, ScalarType(s), v) == DecodeValue(bs, ScalarType(s), v)
  {
    assert (bs + more)[..Width(s)] == bs[..Width(s)];
  }

  lemma TimeExtends(bs: seq<Byte>, more: seq<Byte>, v: Value)
    requires HasType(v, TIME) && DecodeValue(bs, TIME, v).used >= 0
    ensures DecodeValue(bs + more, TIME, v) == DecodeValue(bs, TIME, v)
  {
    assert (bs + more)[..8] == bs[..8];
  }

  lemma TextExtends(bs: seq<Byte>, more: seq<Byte>, v: Value)
    requires HasType(v, STRING) && DecodeValue(bs, STRING, v).used >= 0
    ensures DecodeValue(bs + more, STRING, v) == DecodeValue(bs, STRING, v)
  {
    var n := LengthOf(bs);
    assert (bs + more)[2..n + 2] == bs[2..n + 2];
  }

  lemma {:induction false} ElemsExtend(bs: seq<Byte>, more: seq<Byte>, m: nat, e: DataType, vs: seq<Value>)
    requires vs != [] && AllHaveType(vs, e) && DecodeElems(bs, m, e, vs).used >= 0
    ensures DecodeElems(bs + more, m, e, vs) == DecodeElems(bs, m, e, vs)
    decreases Depth(e), 4
  {
    FieldsExtend(bs, more, Repeat(e, m), Targets(vs, m));
  }

  lemma {:induction false} ArrayExtends(bs: seq<Byte>, more: seq<Byte>, e: DataType, vs: seq<Value>)
    requires vs != [] && AllHaveType(vs, e) && DecodeArray(bs, e, vs).used >= 0
    ensures DecodeArray(bs + more, e, vs) == DecodeArray(bs, e, vs)
    decreases Depth(e), 5
  {
    hide HasType, DecodeElems;
    var m := LengthOf(bs);
    if m > 0 {
      if e.BOOL? {
        assert (bs + more)[2..] == bs[2..] + more;
        ElemsExtend(bs[2..], more, m, e, vs);
      } else {
        assert (bs + more)[3..] == bs[3..] + more;
        ElemsExtend(bs[3..], more, m, e, vs);
      }
    }
  }

  lemma {:induction false} ValueExtends(bs: seq<Byte>, more: seq<Byte>, t: DataType, v: Value)
    requires HasType(v, t) && DecodeValue(bs, t, v).used >= 0
    ensures DecodeValue(bs + more, t, v) == DecodeValue(bs, t, v)
    decreases Depth(t), 0
  {
    match t
    case BOOL =>
    case ScalarType(s) => ScalarExtends(bs, more, s, v);
    case TIME => TimeExtends(bs, more, v);
    case STRING => TextExtends(bs, more, v);
    case ARRAY(e) => ArrayExtends(bs, more, e, v.elems);
    case STRUCT(_, ms) => FieldsExtend(bs, more, ms, v.fields);
  }

  lemma {:induction false} PointExtends(bs: seq<Byte>, more: seq<Byte>, t: DataType, v: Value)
    requires HasType(v, t) && DecodePoint(bs, t, v).used > 0
    ensures DecodePoint(bs + more, t, v) == DecodePoint(bs, t, v)
    decreases Depth(t), 1
  {
    assert (bs + more)[1..] == bs[1..] + more;
    ValueExtends(bs[1..], more, t, AfterTag(bs[0], t, v));
  }

  lemma {:induction false} MemberExtends(bs: seq<Byte>, more: seq<Byte>, t: DataType, v: Value)
    requires HasType(v, t) && DecodeMember(bs, t, v).used > 0
    ensures DecodeMember(bs + more, t, v) == DecodeMember(bs, t, v)
    decreases Depth(t), 2
  {
    if t.BOOL? {
      PointExtends(bs, more, t, v);
    } else {
      ValueExtends(bs, more, t, v);
    }
  }

  lemma {:induction false} FieldsExtend(bs: seq<Byte>, more: seq<Byte>, ms: seq<DataType>, vs: seq<Value>)
    requires HaveTypes(vs, ms) && DecodeFields(bs, ms, vs).used >= 0
    ensures DecodeFields(bs + more, ms, vs) == DecodeFields(bs, ms, vs)
    decreases MaxDepth(ms), 3, |ms|
  {
    if ms != [] {
      MemberExtends(bs, more, ms[0], vs[0]);
      var u := DecodeMember(bs, ms[0], vs[0]).used;
      assert (bs + more)[u..] == bs[u..] + more;
      FieldsExtend(bs[u..], more, ms[1..], vs[1..]);
    }
  }

  // ---- an attempt on fewer bytes leaves nothing behind that a later attempt can see ----

  lemma {:induction false} ValueRetry(bs: seq<Byte>, more: seq<Byte>, t: DataType, v: Value)
    requires HasType(v, t)
    ensures DecodeValue(bs + more, t, DecodeValue(bs, t, v).value) == DecodeValue(bs + more, t, v)
    decreases Depth(t), 0
  {
    match t
    case ARRAY(e) => ArrayRetry(bs, more, e, v.elems);
    case STRUCT(_, ms) => FieldsRetry(bs, more, ms, v.fields);
    case _ =>
  }

  lemma {:induction false} ArrayRetry(bs: seq<Byte>, more: seq<Byte>, e: DataType, vs: seq<Value>)
    requires vs != [] && AllHaveType(vs, e)
    ensures DecodeArray(bs + more, e, DecodeArray(bs, e, vs).values) == DecodeArray(bs + more, e, vs)
    decreases Depth(e), 5
  {
    hide HasType, DecodeElems, Width;
    if |bs| >= 2 && LengthOf(bs) > 0 {
      var m := LengthOf(bs);
      if e.BOOL? {
        assert (bs + more)[2..] == bs[2..] + more;
        ElemsRetry(bs[2..], more, m, e, vs);
      } else if |bs| > 2 && TagMatches(bs[2], e) {
        assert (bs + more)[3..] == bs[3..] + more;
        ElemsRetry(bs[3..], more, m, e, vs);
      }
    }
  }

  lemma {:induction false} PointRetry(bs: seq<Byte>, more: seq<Byte>, t: DataType, v: Value)
    requires HasType(v, t)
    ensures DecodePoint(bs + more, t, DecodePoint(bs, t, v).value) == DecodePoint(bs + more, t, v)
    decreases Depth(t), 1
  {
    if bs != [] {
      assert (bs + more)[1..] == bs[1..] + more;
      ValueRetry(bs[1..], more, t, v);
    }
  }

  lemma {:induction false} MemberRetry(bs: seq<Byte>, more: seq<Byte>, t: DataType, v: Value)
    requires HasType(v, t)
    ensures DecodeMember(bs + more, t, DecodeMember(bs, t, v).value) == DecodeMember(bs + more, t, v)
    decreases Depth(t), 2
  {
    if t.BOOL? {
      PointRetry(bs, more, t, v);
    } else {
      ValueRetry(bs, more, t, v);
    }
  }

  lemma {:induction false} ElemsRetry(bs: seq<Byte>, more: seq<Byte>, m: nat, e: DataType, vs: seq<Value>)
    requires vs != [] && AllHaveType(vs, e)
    ensures DecodeElems(bs + more, m, e, DecodeElems(bs, m, e, vs).values) == DecodeElems(bs + more, m, e, vs)
    decreases Depth(e), 4
  {
    var ms := Repeat(e, m);
    FieldsRetry(bs, more, ms, Targets(vs, m));
    var ws := DecodeFields(bs, ms, Targets(vs, m)).values;
    if m > |vs| {
      assert WrittenBack(vs, ws) == ws[..|vs|];
      SurplusForgotten(bs + more, ms, e, ws, |vs|);
    } else {
      assert Targets(WrittenBack(vs, ws), m) == ws;
    }
  }

  lemma SurplusTargets(ms: seq<DataType>, e: DataType, ws: seq<Value>, k: nat)
    requires ms == Repeat(e, |ms|) && HaveTypes(ws, ms) && 0 < k < |ms|
    ensures AllHaveType(ws[..k], e) && HaveTypes(Targets(ws[..k], |ms|), ms)
    ensures forall i :: 0 <= i < k ==> Targets(ws[..k], |ms|)[i] == ws[i]
  {
    assert forall i :: 0 <= i < |ms| ==> ms[i] == e;
    hide HasType, Repeat;
  }

  /** Only the first k elements matter for what the first k elements become. */
  lemma SurplusForgotten(bs: seq<Byte>, ms: seq<DataType>, e: DataType, ws: seq<Value>, k: nat)
    requires ms == Repeat(e, |ms|) && HaveTypes(ws, ms) && 0 < k < |ms|
    ensures AllHaveType(ws[..k], e) && HaveTypes(Targets(ws[..k], |ms|), ms)
    ensures var d, d' := DecodeFields(bs, ms, Targets(ws[..k], |ms|)), DecodeFields(bs, ms, ws);
      d.used == d'.used && d.values[..k] == d'.values[..k]
  {
    SurplusTargets(ms, e, ws, k);
    hide HasType, HaveTypes, AllHaveType, DecodeFields, Repeat, Targets;
    var us := Targets(ws[..k], |ms|);
    FieldsPrefix(bs, ms, us, ws, k);
    FieldsLength(bs, ms, us, ws);
  }

  lemma {:induction false} FieldsRetry(bs: seq<Byte>, more: seq<Byte>, ms: seq<DataType>, vs: seq<Value>)
    requires HaveTypes(vs, ms)
    ensures DecodeFields(bs + more, ms, DecodeFields(bs, ms, vs).values) == DecodeFields(bs + more, ms, vs)
    decreases MaxDepth(ms), 3, |ms|
  {
    if ms != [] {
      MemberRetry(bs, more, ms[0], vs[0]);
      var u := DecodeMember(bs, ms[0], vs[0]).used;
      if u > 0 {
        MemberExtends(bs, more, ms[0], vs[0]);
        assert (bs + more)[u..] == bs[u..] + more;
        FieldsRetry(bs[u..], more, ms[1..], vs[1..]);
      }
    }
  }
}
