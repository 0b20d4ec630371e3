/** The deserializer of the ASN.1 layer. A byte string stands for a read pointer, which drops bytes
    when it advances; size is the number of bytes that the code takes to be left. The code reads
    one octet behind the bytes where an array ends before the tag of its elements: that octet,
    behind, is whatever the memory holds. Every method also returns the data point as it is left,
    after a failure too. */
module Asn1Deserializer {
  import opened Sequences
  import opened Bytes
  import opened DataPoints
  import opened Asn1Codec
  import opened Asn1Prefixes

  /** Behind the octet that was not there the code has minus one byte left. */
  predicate Left(bs: seq<Byte>, size: int) {
    size == |bs| || (bs == [] && size == -1)
  }

  method DeserializeDataPoint(bs: seq<Byte>, size: int, behind: Byte, v: Value, ghost t: DataType)
    returns (n: int, v': Value)
    requires HasType(v, t) && Left(bs, size)
    ensures Decoded(n, v') == DecodePoint(bs, t, v)
    decreases Depth(t), 1
  {
    n, v' := -1, v;
    if 0 < size {
      if IsApplication(bs[0]) {
        var ok;
        ok, v' := DeserializeTag(bs[0], v, t);
        if ok {
          n, v' := DeserializeValue(bs[1..], size - 1, behind, v', t);
          n := n + 1;
        } else {
          n := -2;
        }
      }
    }
  }

  method DeserializeTag(b: Byte, v: Value, ghost t: DataType) returns (ok: bool, v': Value)
    requires HasType(v, t)
    ensures ok == TagMatches(b, t)
    ensures v' == if ok then AfterTag(b, t, v) else v
  {
    v' := v;
    match v {
      case Bool(_) =>
        ok := b == APPLICATION || b == APPLICATION + 1;
        if ok {
          v' := Bool(b == APPLICATION + 1);
        }
      case ScalarValue(s, _) => ok := ScalarTag(s) == b;
      case Time(_) => ok := APPLICATION + 12 == b;
      case Text(_) => ok := APPLICATION + 16 == b;
      case Array(_) => ok := APPLICATION + CONSTRUCTED + 22 == b;
      case Struct(tag, _) => ok := tag == b;
    }
  }

  method DeserializeValue(bs: seq<Byte>, size: int, behind: Byte, v: Value, ghost t: DataType)
    returns (n: int, v': Value)
    requires HasType(v, t) && Left(bs, size)
    ensures Decoded(n, v') == DecodeValue(bs, t, v)
    decreases Depth(t), 0
  {
    n, v' := -1, v;
    match v {
      case Bool(_) => n := 0;
      case ScalarValue(s, _) =>
        if size >= Width(s) {
          var data := DeserializeScalar(bs[..Width(s)], s);
          n, v' := Width(s), ScalarValue(s, data);
        }
      case Time(_) =>
        if size >= 8 {
          n, v' := 8, Time(FromMicros(TimeOnWire(bs[..8])));
        }
      case Text(_) =>
        if size >= 2 {
          var len := LengthOf(bs);
          if size >= len + 2 {
            n, v' := 2 + len, Text(bs[2..2 + len]);
          }
        }
      case Array(elems) =>
        var elems';
        n, elems' := DeserializeArray(bs, size, behind, elems, t.elem);
        v' := Array(elems');
      case Struct(tag, fields) =>
        var fields';
        n, fields' := DeserializeFields(bs, size, behind, fields, t.members);
        v' := Struct(tag, fields');
    }
  }

  /** Fills the eight bytes of the union: zero or all ones first, then the received bytes. */
  method DeserializeScalar(bs: seq<Byte>, s: Scalar) returns (data: seq<Byte>)
    requires |bs| == Width(s)
    ensures data == Extend(Reverse(bs), s)
  {
    var width := Width(s);
    var union := new Byte[8](_ => 0);
    if SignExtended(s) && bs[0] >= 128 {
      union := new Byte[8](_ => 255);
    }
    ghost var fill: Byte := union[0];
    for i := 0 to width
      invariant forall j :: 0 <= j < 8 ==> union[j] == if j < i then bs[width - 1 - j] else fill
    {
      union[i] := bs[width - 1 - i];
    }
    data := union[..];
  }

  /** Where a decoding loop stands: of the whole decoding, n bytes and the done values are
      settled, what is left is to decode rest into the targets ws. */
  ghost predicate Pending(
      whole: DecodedSeq, n: nat, done: seq<Value>, rest: seq<Byte>, ts: seq<DataType>, ws: seq<Value>)
  {
    HaveTypes(ws, ts) &&
    var left := DecodeFields(rest, ts, ws);
    whole == DecodedSeq(if left.used < 0 then left.used else n + left.used, done + left.values)
  }

  lemma PendingStart(bs: seq<Byte>, ts: seq<DataType>, ws: seq<Value>)
    requires HaveTypes(ws, ts)
    ensures Pending(DecodeFields(bs, ts, ws), 0, [], bs, ts, ws)
  {
    hide HasType;
  }

  lemma PendingStep(
      whole: DecodedSeq, n: nat, done: seq<Value>, rest: seq<Byte>, ts: seq<DataType>, ws: seq<Value>)
    requires Pending(whole, n, done, rest, ts, ws) && ws != []
    ensures ts != [] && HasType(ws[0], ts[0])
    ensures Depth(ts[0]) <= MaxDepth(ts) && MaxDepth(ts[1..]) <= MaxDepth(ts)
    ensures var d := DecodeMember(rest, ts[0], ws[0]);
      if d.used <= 0 then whole == DecodedSeq(d.used, done + ([d.value] + ws[1..]))
      else Pending(whole, n + d.used, done + [d.value], rest[d.used..], ts[1..], ws[1..])
  {
    hide HasType, DecodeMember;
    var d := DecodeMember(rest, ts[0], ws[0]);
    if d.used > 0 {
      var left := DecodeFields(rest[d.used..], ts[1..], ws[1..]);
      Regroup(done, [d.value], left.values);
    }
  }

  lemma PendingEnd(whole: DecodedSeq, n: nat, done: seq<Value>, rest: seq<Byte>, ts: seq<DataType>)
    requires Pending(whole, n, done, rest, ts, [])
    ensures whole == DecodedSeq(n, done)
  {
  }

  method DeserializeMember(bs: seq<Byte>, size: int, behind: Byte, v: Value, ghost t: DataType)
    returns (n: int, v': Value)
    requires HasType(v, t) && Left(bs, size)
    ensures Decoded(n, v') == DecodeMember(bs, t, v)
    decreases Depth(t), 2
  {
    if v.Bool? {
      n, v' := DeserializeDataPoint(bs, size, behind, v, t);
    } else {
      n, v' := DeserializeValue(bs, size, behind, v, t);
    }
  }

  method DeserializeFields(bs: seq<Byte>, size: int, behind: Byte, vs: seq<Value>, ghost ms: seq<DataType>)
    returns (n: int, vs': seq<Value>)
    requires HaveTypes(vs, ms) && Left(bs, size)
    ensures DecodedSeq(n, vs') == DecodeFields(bs, ms, vs)
    decreases MaxDepth(ms), 3
  {
    hide Pending, HasType, HaveTypes, DecodeFields, DecodeMember;
    n, vs' := 0, vs;
    var rest, left := bs, size;
    ghost var ts, ws, done := ms, vs, [];
    ghost var whole := DecodeFields(bs, ms, vs);
    PendingStart(bs, ms, vs);
    for i := 0 to |vs|
      invariant n >= 0 && |done| == i && vs' == done + ws && |vs'| == |vs| && Left(rest, left)
      invariant Pending(whole, n, done, rest, ts, ws) && MaxDepth(ts) <= MaxDepth(ms)
    {
      PendingStep(whole, n, done, rest, ts, ws);
      var k, r := DeserializeMember(rest, left, behind, vs'[i], ts[0]);
      ts, ws, done, vs' := ts[1..], ws[1..], done + [r], vs'[i := r];
      if k <= 0 {
        return k, vs';
      }
      n := n + k;
      rest, left := rest[k..], left - k;
    }
    PendingEnd(whole, n, done, rest, ts);
  }

  /** Without bytes there is no value, at whatever depth, and the target is left alone. */
  lemma {:induction false} NothingDecoded(t: DataType, v: Value)
    requires HasType(v, t)
    ensures DecodeMember([], t, v) == Decoded(-1, v)
    decreases t
  {
    match t
    case STRUCT(tag, ms) =>
      NothingDecoded(ms[0], v.fields[0]);
      NoFieldsDecoded(ms, v.fields);
      assert v == Struct(tag, v.fields);
    case ARRAY(e) =>
      assert DecodeArray([], e, v.elems) == DecodedSeq(-1, v.elems) && v == Array(v.elems);
    case _ =>
  }

  lemma NoFieldsDecoded(ms: seq<DataType>, vs: seq<Value>)
    requires HaveTypes(vs, ms) && ms != [] && DecodeMember([], ms[0], vs[0]) == Decoded(-1, vs[0])
    ensures DecodeFields([], ms, vs) == DecodedSeq(-1, vs)
  {
    hide HasType, DecodeMember;
    assert [vs[0]] + vs[1..] == vs;
  }

  lemma NoElemsDecoded(m: nat, e: DataType, vs: seq<Value>)
    requires m > 0 && vs != [] && AllHaveType(vs, e)
    ensures DecodeElems([], m, e, vs) == DecodedSeq(-1, vs)
  {
    var ms, ws := Repeat(e, m), Targets(vs, m);
    NothingDecoded(ms[0], ws[0]);
    NoFieldsDecoded(ms, ws);
    StoreStart(vs, m);
    assert [] + ws == ws;
  }

  lemma ElementTyped(vs: seq<Value>, e: DataType, i: nat)
    requires AllHaveType(vs, e) && i < |vs|
    ensures HasType(vs[i], e) && (vs[i].Bool? <==> e.BOOL?)
  {
  }

  /** Whatever the octet behind the bytes is, it is not seen in the outcome. */
  method DeserializeArray(bs: seq<Byte>, size: int, behind: Byte, vs: seq<Value>, ghost e: DataType)
    returns (n: int, vs': seq<Value>)
    requires vs != [] && AllHaveType(vs, e) && Left(bs, size)
    ensures DecodedSeq(n, vs') == DecodeArray(bs, e, vs)
    decreases Depth(e), 4
  {
    hide HasType, AllHaveType, DecodeElems;
    ElementTyped(vs, e, 0);
    n, vs' := -1, vs;
    if size >= 2 {
      var m := LengthOf(bs);
      n := 2;
      if m > 0 {
        var rest := bs[2..];
        if !vs[0].Bool? {
          // the tag octet is read without asking whether it has arrived
          var ok, _ := DeserializeTag(if rest == [] then behind else rest[0], vs[0], e);
          if !ok {
            return -1, vs';
          }
          if rest == [] {
            NoElemsDecoded(m, e, vs);
          } else {
            rest := rest[1..];
          }
          n := 3;
        }
        var k;
        k, vs' := DeserializeElems(rest, size - n, behind, m, vs, e);
        n := if k < 0 then k else n + k;
      }
    }
  }

  lemma ElementReplaced(vs: seq<Value>, e: DataType, i: nat, r: Value)
    requires AllHaveType(vs, e) && i < |vs| && HasType(r, e)
    ensures AllHaveType(vs[i := r], e)
  {
  }

  /** Surplus elements are decoded into one buffer object, cloned when it is first needed. */
  method DeserializeElems(bs: seq<Byte>, size: int, behind: Byte, m: nat, vs: seq<Value>, ghost e: DataType)
    returns (n: int, vs': seq<Value>)
    requires vs != [] && AllHaveType(vs, e) && Left(bs, size)
    ensures DecodedSeq(n, vs') == DecodeElems(bs, m, e, vs)
    decreases Depth(e), 3
  {
    hide Pending, HasType, AllHaveType, HaveTypes, DecodeFields, DecodeElems, DecodeMember;
    hide StoredSoFar, WrittenBack, Targets;
    n, vs' := 0, vs;
    ElementTyped(vs, e, 0);
    var rest, left, spare := bs, size, vs[0];
    ghost var ts, ws, done, whole := ElemsStart(bs, m, e, vs);
    for i := 0 to m
      invariant n >= 0 && |done| == i && |ws| == |ts| == m - i && |vs'| == |vs|
      invariant AllHaveType(vs', e) && HasType(spare, e) && Left(rest, left)
      invariant forall j :: 0 <= j < m - i ==> ts[j] == e
      invariant StoredSoFar(vs, done, ws, vs')
      invariant Pending(whole, n, done, rest, ts, ws)
    {
      PendingStep(whole, n, done, rest, ts, ws);
      var k, r;
      StoreStep(vs, done, ws, vs', DecodeMember(rest, e, ws[0]).value);
      if i < |vs'| {
        k, r := DeserializeMember(rest, left, behind, vs'[i], e);
        ElementReplaced(vs', e, i, r);
        vs' := vs'[i := r];
      } else {
        if i == |vs'| {
          ElementTyped(vs', e, 0);
          spare := vs'[0];
        }
        MemberLength(rest, e, spare, ws[0]);
        k, r := DeserializeMember(rest, left, behind, spare, e);
        spare := r;
      }
      ts, ws, done := ts[1..], ws[1..], done + [DecodeMember(rest, e, ws[0]).value];
      if k <= 0 {
        StoreEnd(vs, done, ws, vs');
        assert done + ws == whole.values;
        return k, vs';
      }
      n := n + k;
      rest, left := rest[k..], left - k;
    }
    PendingEnd(whole, n, done, rest, ts);
    StoreEnd(vs, done, ws, vs');
    assert done + ws == done;
  }

  lemma StoreEnd(vs: seq<Value>, done: seq<Value>, ws: seq<Value>, cur: seq<Value>)
    requires StoredSoFar(vs, done, ws, cur)
    ensures cur == WrittenBack(vs, done + ws)
  {
  }

  lemma ElemsStart(bs: seq<Byte>, m: nat, e: DataType, vs: seq<Value>)
    returns (ts: seq<DataType>, ws: seq<Value>, done: seq<Value>, whole: DecodedSeq)
    requires vs != [] && AllHaveType(vs, e)
    ensures |ts| == |ws| == m && done == [] && Pending(whole, 0, done, bs, ts, ws)
    ensures forall j :: 0 <= j < m ==> ts[j] == e
    ensures DecodeElems(bs, m, e, vs) == DecodedSeq(whole.used, WrittenBack(vs, whole.values))
    ensures StoredSoFar(vs, done, ws, vs)
  {
    ts, ws, done := Repeat(e, m), Targets(vs, m), [];
    whole := DecodeFields(bs, ts, ws);
    PendingStart(bs, ts, ws);
    hide HasType, AllHaveType, HaveTypes;
    StoreStart(vs, m);
  }

  lemma StoreStart(vs: seq<Value>, m: nat)
    requires vs != []
    ensures StoredSoFar(vs, [], Targets(vs, m), vs)
  {
    assert [] + Targets(vs, m) == Targets(vs, m);
    assert WrittenBack(vs, Targets(vs, m)) == vs;
  }

  /** The array cur holds the done values, then the targets that are still to come. */
  ghost predicate StoredSoFar(vs: seq<Value>, done: seq<Value>, ws: seq<Value>, cur: seq<Value>) {
    cur == WrittenBack(vs, done + ws) && forall j :: 0 <= j < |ws| && |done| + j < |vs| ==> ws[j] == vs[|done| + j]
  }

  lemma StoreStep(vs: seq<Value>, done: seq<Value>, ws: seq<Value>, cur: seq<Value>, r: Value)
    requires StoredSoFar(vs, done, ws, cur) && ws != []
    ensures |cur| == |vs| && (|done| < |vs| ==> cur[|done|] == ws[0])
    ensures StoredSoFar(vs, done + [r], ws[1..], if |done| < |vs| then cur[|done| := r] else cur)
  {
    var next := done + [r] + ws[1..];
    assert |next| == |done + ws|;
    assert forall j :: 0 <= j < |next| ==> next[j] == if j == |done| then r else (done + ws)[j];
  }
}
