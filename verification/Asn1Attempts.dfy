/** What the serializer writes when it is told that there is room for a number of bytes, whether
    the data point fits or not: the header of an array is written before the room is checked. */
module Asn1Attempts {
  import opened Sequences
  import opened Bytes
  import opened DataPoints
  import opened Asn1Codec

  /** The bytes that an attempt to serialize a data point into size bytes leaves in the buffer. */
  function AttemptPoint(v: Value, t: DataType, size: int): seq<Byte>
    requires HasType(v, t)
    decreases Depth(t), 1
  {
    if size <= 0 then [] else [TagOf(v, t)] + AttemptValue(v, t, size - 1)
  }

  function AttemptValue(v: Value, t: DataType, size: int): seq<Byte>
    requires HasType(v, t)
    decreases Depth(t), 0
  {
    match t
    case ARRAY(e) => AttemptArray(v.elems, e, size)
    case STRUCT(_, ms) => AttemptFields(v.fields, ms, size)
    case _ => if |EncodeValue(v, t)| <= size then EncodeValue(v, t) else []
  }

  function AttemptArray(vs: seq<Value>, e: DataType, size: int): seq<Byte>
    requires AllHaveType(vs, e) && |vs| < 0x1_0000
    decreases Depth(e), 4
  {
    var header := ArrayHeader(|vs|, e);
    header + AttemptFields(vs, Repeat(e, |vs|), size - |header|)
  }

  function AttemptMember(v: Value, t: DataType, size: int): seq<Byte>
    requires HasType(v, t)
    decreases Depth(t), 2
  {
    if t.BOOL? then AttemptPoint(v, t, size) else AttemptValue(v, t, size)
  }

  /** Whole members as long as they fit, then the attempt on the first that does not. */
  function AttemptFields(vs: seq<Value>, ms: seq<DataType>, size: int): seq<Byte>
    requires HaveTypes(vs, ms)
    decreases MaxDepth(ms), 3, |ms|
  {
    if ms == [] then []
    else
      var first := EncodeMember(vs[0], ms[0]);
      if |first| <= size then first + AttemptFields(vs[1..], ms[1..], size - |first|)
      else AttemptMember(vs[0], ms[0], size)
  }

  // ---- what fits is written as it is encoded ----

  lemma {:induction false} ValueFits(v: Value, t: DataType, size: int)
    requires HasType(v, t) && |EncodeValue(v, t)| <= size
    ensures AttemptValue(v, t, size) == EncodeValue(v, t)
    decreases Depth(t), 0
  {
    match t
    case ARRAY(e) => ArrayFits(v.elems, e, size);
    case STRUCT(_, ms) => FieldsFit(v.fields, ms, size);
    case _ =>
  }

  lemma {:induction false} ArrayFits(vs: seq<Value>, e: DataType, size: int)
    requires AllHaveType(vs, e) && |vs| < 0x1_0000 && |EncodeArray(vs, e)| <= size
    ensures AttemptArray(vs, e, size) == EncodeArray(vs, e)
    decreases Depth(e), 4
  {
    hide HasType, ArrayHeader, EncodeFields, AttemptFields;
    FieldsFit(vs, Repeat(e, |vs|), size - |ArrayHeader(|vs|, e)|);
  }

  lemma {:induction false} PointFits(v: Value, t: DataType, size: int)
    requires HasType(v, t) && |EncodePoint(v, t)| <= size
    ensures AttemptPoint(v, t, size) == EncodePoint(v, t)
    decreases Depth(t), 1
  {
    ValueFits(v, t, size - 1);
  }

  lemma {:induction false} MemberFits(v: Value, t: DataType, size: int)
    requires HasType(v, t) && |EncodeMember(v, t)| <= size
    ensures AttemptMember(v, t, size) == EncodeMember(v, t)
    decreases Depth(t), 2
  {
    if !t.BOOL? {
      ValueFits(v, t, size);
    }
  }

  lemma {:induction false} FieldsFit(vs: seq<Value>, ms: seq<DataType>, size: int)
    requires HaveTypes(vs, ms) && |EncodeFields(vs, ms)| <= size
    ensures AttemptFields(vs, ms, size) == EncodeFields(vs, ms)
    decreases MaxDepth(ms), 3, |ms|
  {
    if ms != [] {
      FieldsFit(vs[1..], ms[1..], size - |EncodeMember(vs[0], ms[0])|);
    }
  }

  // ---- what does not fit is begun ----

  /** Whatever the room is, what is written is the beginning of the encoding. */
  lemma {:induction false} PointBegun(v: Value, t: DataType, size: int)
    requires HasType(v, t)
    ensures AttemptPoint(v, t, size) <= EncodePoint(v, t)
    decreases Depth(t), 1
  {
    hide EncodeValue, AttemptValue;
    ValueBegun(v, t, size - 1);
  }

  lemma {:induction false} ValueBegun(v: Value, t: DataType, size: int)
    requires HasType(v, t)
    ensures AttemptValue(v, t, size) <= EncodeValue(v, t)
    decreases Depth(t), 0
  {
    match t
    case ARRAY(e) => ArrayBegun(v.elems, e, size);
    case STRUCT(_, ms) => FieldsBegun(v.fields, ms, size);
    case _ =>
  }

  lemma {:induction false} ArrayBegun(vs: seq<Value>, e: DataType, size: int)
    requires AllHaveType(vs, e) && |vs| < 0x1_0000
    ensures AttemptArray(vs, e, size) <= EncodeArray(vs, e)
    decreases Depth(e), 4
  {
    hide HasType, ArrayHeader, EncodeFields, AttemptFields;
    FieldsBegun(vs, Repeat(e, |vs|), size - |ArrayHeader(|vs|, e)|);
  }

  lemma {:induction false} MemberBegun(v: Value, t: DataType, size: int)
    requires HasType(v, t)
    ensures AttemptMember(v, t, size) <= EncodeMember(v, t)
    decreases Depth(t), 2
  {
    if !t.BOOL? {
      hide EncodeValue, AttemptValue;
      ValueBegun(v, t, size);
    }
  }

  lemma {:induction false} FieldsBegun(vs: seq<Value>, ms: seq<DataType>, size: int)
    requires HaveTypes(vs, ms)
    ensures AttemptFields(vs, ms, size) <= EncodeFields(vs, ms)
    decreases MaxDepth(ms), 3, |ms|
  {
    hide HasType, EncodeMember, AttemptMember;
    if ms != [] {
      MemberBegun(vs[0], ms[0], size);
      FieldsBegun(vs[1..], ms[1..], size - |EncodeMember(vs[0], ms[0])|);
    }
  }

  /** A data point of an elementary type is written as a whole, or as its identifier octet alone. */
  lemma ElementaryAttempt(v: Value, t: DataType, size: nat)
    requires HasType(v, t) && !t.ARRAY? && !t.STRUCT?
    ensures AttemptPoint(v, t, size) ==
      if |EncodePoint(v, t)| <= size then EncodePoint(v, t) else EncodePoint(v, t)[..if size == 0 then 0 else 1]
  {
    hide EncodeValue;
  }

  // ---- when an attempt leaves its room ----

  /** The room ends inside the header of an array that is reached. */
  predicate Straddles(v: Value, t: DataType, size: int)
    requires HasType(v, t)
    decreases Depth(t), 0
  {
    match t
    case ARRAY(e) => ArrayStraddles(v.elems, e, size)
    case STRUCT(_, ms) => FieldsStraddle(v.fields, ms, size)
    case _ => false
  }

  predicate ArrayStraddles(vs: seq<Value>, e: DataType, size: int)
    requires AllHaveType(vs, e) && |vs| < 0x1_0000
    decreases Depth(e), 4
  {
    var header := |ArrayHeader(|vs|, e)|;
    size < header || FieldsStraddle(vs, Repeat(e, |vs|), size - header)
  }

  /** The first member that does not fit decides. */
  predicate FieldsStraddle(vs: seq<Value>, ms: seq<DataType>, size: int)
    requires HaveTypes(vs, ms)
    decreases MaxDepth(ms), 3, |ms|
  {
    ms != [] &&
    var first := |EncodeMember(vs[0], ms[0])|;
    if first <= size then FieldsStraddle(vs[1..], ms[1..], size - first) else Straddles(vs[0], ms[0], size)
  }

  lemma {:induction false} ValueOverrunsIff(v: Value, t: DataType, size: nat)
    requires HasType(v, t)
    ensures |AttemptValue(v, t, size)| > size <==> Straddles(v, t, size)
    decreases Depth(t), 0
  {
    match t
    case ARRAY(e) => ArrayOverrunsIff(v.elems, e, size);
    case STRUCT(_, ms) => FieldsOverrunIff(v.fields, ms, size);
    case _ =>
  }

  lemma {:induction false} ArrayOverrunsIff(vs: seq<Value>, e: DataType, size: nat)
    requires AllHaveType(vs, e) && |vs| < 0x1_0000
    ensures |AttemptArray(vs, e, size)| > size <==> ArrayStraddles(vs, e, size)
    decreases Depth(e), 4
  {
    hide HasType, ArrayHeader, EncodeFields, AttemptFields, FieldsStraddle;
    var header := |ArrayHeader(|vs|, e)|;
    if size >= header {
      FieldsOverrunIff(vs, Repeat(e, |vs|), size - header);
    }
  }

  lemma {:induction false} FieldsOverrunIff(vs: seq<Value>, ms: seq<DataType>, size: nat)
    requires HaveTypes(vs, ms)
    ensures |AttemptFields(vs, ms, size)| > size <==> FieldsStraddle(vs, ms, size)
    decreases MaxDepth(ms), 3, |ms|
  {
    hide HasType, EncodeMember, AttemptMember, Straddles;
    if ms != [] {
      var first := |EncodeMember(vs[0], ms[0])|;
      if first <= size {
        FieldsOverrunIff(vs[1..], ms[1..], size - first);
      } else {
        MemberOverrunsIff(vs[0], ms[0], size);
      }
    }
  }

  lemma {:induction false} MemberOverrunsIff(v: Value, t: DataType, size: nat)
    requires HasType(v, t) && |EncodeMember(v, t)| > size
    ensures |AttemptMember(v, t, size)| > size <==> Straddles(v, t, size)
    decreases Depth(t), 2
  {
    ValueOverrunsIff(v, t, size);
  }

  /** An attempt writes behind its room if and only if the room ends inside the header of an array. */
  lemma PointOverrunsIff(v: Value, t: DataType, size: nat)
    requires HasType(v, t) && size > 0
    ensures |AttemptPoint(v, t, size)| > size <==> Straddles(v, t, size - 1)
  {
    ValueOverrunsIff(v, t, size - 1);
  }

  // ---- how far behind ----

  /** Three bytes at most for each array inside the other. */
  function Overrun(t: DataType): nat
    decreases t
  {
    match t
    case ARRAY(e) => 3 + Overrun(e)
    case STRUCT(_, ms) => MaxOverrun(ms)
    case _ => 0
  }

  function MaxOverrun(ms: seq<DataType>): (n: nat)
    decreases ms, 0
  {
    if ms == [] then 0
    else if Overrun(ms[0]) >= MaxOverrun(ms[1..]) then Overrun(ms[0]) else MaxOverrun(ms[1..])
  }

  lemma {:induction false} RepeatOverrun(e: DataType, m: nat)
    ensures MaxOverrun(Repeat(e, m)) <= Overrun(e)
  {
    if m > 0 {
      assert Repeat(e, m)[1..] == Repeat(e, m - 1);
      RepeatOverrun(e, m - 1);
    }
  }

  function Room(size: int): nat {
    if size > 0 then size else 0
  }

  lemma {:induction false} ValueOverrunBound(v: Value, t: DataType, size: int)
    requires HasType(v, t)
    ensures |AttemptValue(v, t, size)| <= Room(size) + Overrun(t)
    decreases Depth(t), 0
  {
    match t
    case ARRAY(e) => ArrayOverrunBound(v.elems, e, size);
    case STRUCT(_, ms) => FieldsOverrunBound(v.fields, ms, size);
    case _ =>
  }

  lemma {:induction false} ArrayOverrunBound(vs: seq<Value>, e: DataType, size: int)
    requires AllHaveType(vs, e) && |vs| < 0x1_0000
    ensures |AttemptArray(vs, e, size)| <= Room(size) + 3 + Overrun(e)
    decreases Depth(e), 4
  {
    hide HasType, AttemptFields, EncodeFields, Overrun, MaxOverrun;
    var m := |vs|;
    FieldsOverrunBound(vs, Repeat(e, m), size - |ArrayHeader(m, e)|);
    RepeatOverrun(e, m);
  }

  lemma {:induction false} FieldsOverrunBound(vs: seq<Value>, ms: seq<DataType>, size: int)
    requires HaveTypes(vs, ms)
    ensures |AttemptFields(vs, ms, size)| <= Room(size) + MaxOverrun(ms)
    decreases MaxDepth(ms), 3, |ms|
  {
    if ms != [] {
      var first := |EncodeMember(vs[0], ms[0])|;
      if first <= size {
        FieldsOverrunBound(vs[1..], ms[1..], size - first);
      } else {
        ValueOverrunBound(vs[0], ms[0], size);
        BoolAttempt(vs[0], ms[0], size);
      }
    }
  }

  /** A BOOL has its identifier octet or nothing. */
  lemma BoolAttempt(v: Value, t: DataType, size: int)
    requires HasType(v, t)
    ensures t.BOOL? ==> |AttemptMember(v, t, size)| <= Room(size)
  {
  }

  lemma PointOverrunBound(v: Value, t: DataType, size: int)
    requires HasType(v, t)
    ensures |AttemptPoint(v, t, size)| <= Room(size) + Overrun(t)
  {
    ValueOverrunBound(v, t, size - 1);
  }

  // ---- where a loop stands ----

  /** Encoding and attempt agree in their first n bytes; left and next are what follows. */
  ghost predicate Abreast(all: seq<Byte>, attempt: seq<Byte>, n: int, left: seq<Byte>, next: seq<Byte>) {
    && 0 <= n <= |all| && n <= |attempt| && all[..n] == attempt[..n]
    && all[n..] == left && attempt[n..] == next
  }

  lemma AbreastBehind(
      all: seq<Byte>, attempt: seq<Byte>, n: nat, part: seq<Byte>, left: seq<Byte>, next: seq<Byte>)
    requires Abreast(all, attempt, n, part + left, part + next)
    ensures Abreast(all, attempt, n + |part|, left, next)
    ensures n + |part| <= |attempt| && attempt[..n + |part|] == attempt[..n] + part
  {
    CutOff(all, n, part, left);
    CutOff(attempt, n, part, next);
  }

  /** The attempt ends with a part that does not fit. */
  lemma AbreastUpTo(
      all: seq<Byte>, attempt: seq<Byte>, n: nat, part: seq<Byte>, left: seq<Byte>, next: seq<Byte>)
    requires Abreast(all, attempt, n, part + left, next)
    ensures |all| >= n + |part| && n + |next| == |attempt| && attempt == attempt[..n] + next
  {
    CutOff(all, n, part, left);
  }
}
