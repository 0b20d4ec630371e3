/** The serializer of the ASN.1 layer: writes through a position in a byte buffer and keeps
    track of the room that is left. */
module Asn1Serializer {
  import opened Bytes
  import opened Machine
  import opened DataPoints
  import opened Asn1Codec
  import opened Asn1Attempts

  /** A buffer after bytes have been written to a position of it, and nothing else. */
  function Overwritten(s: seq<Byte>, pos: nat, bs: seq<Byte>): (r: seq<Byte>)
    requires pos + |bs| <= |s|
    ensures |r| == |s|
  {
    s[..pos] + bs + s[pos + |bs|..]
  }

  lemma OverwrittenBehind(s: seq<Byte>, pos: nat, a: seq<Byte>, b: seq<Byte>)
    requires pos + |a| + |b| <= |s|
    ensures Overwritten(Overwritten(s, pos, a), pos + |a|, b) == Overwritten(s, pos, a + b)
  {
  }

  lemma OverwrittenAgain(s: seq<Byte>, pos: nat, a: seq<Byte>, b: seq<Byte>)
    requires pos + |a| <= |s| && |a| == |b|
    ensures Overwritten(Overwritten(s, pos, a), pos, b) == Overwritten(s, pos, b)
  {
  }

  lemma OverwrittenByNothing(s: seq<Byte>, pos: nat)
    requires pos <= |s|
    ensures Overwritten(s, pos, []) == s
  {
  }

  lemma OverwrittenUpTo(s: seq<Byte>, pos: nat, bs: seq<Byte>)
    requires pos + |bs| <= |s|
    ensures Overwritten(s, pos, bs)[..pos + |bs|] == s[..pos] + bs
  {
  }

  lemma OverwrittenByte(s: seq<Byte>, pos: nat, b: Byte)
    requires pos < |s|
    ensures s[pos := b] == Overwritten(s, pos, [b])
  {
  }

  lemma OverwrittenFrom(before: seq<Byte>, after: seq<Byte>, pos: nat, bs: seq<Byte>)
    requires pos + |bs| <= |before| == |after|
    requires after[..pos + |bs|] == before[..pos] + bs && after[pos + |bs|..] == before[pos + |bs|..]
    ensures after == Overwritten(before, pos, bs)
  {
    assert after == after[..pos + |bs|] + after[pos + |bs|..];
  }

  method SerializeTag(buf: array<Byte>, pos: nat, v: Value, ghost t: DataType)
    requires HasType(v, t) && pos < buf.Length
    modifies buf
    ensures buf[pos] == TypeTag(t) && buf[..] == Overwritten(old(buf[..]), pos, [TypeTag(t)])
  {
    ghost var before := buf[..];
    match v {
      case Bool(_) => buf[pos] := APPLICATION + 1;
      case ScalarValue(s, _) => buf[pos] := ScalarTag(s);
      case Time(_) => buf[pos] := APPLICATION + 12;
      case Text(_) => buf[pos] := APPLICATION + 16;
      case Array(_) => buf[pos] := APPLICATION + CONSTRUCTED + 22;
      case Struct(tag, _) => buf[pos] := tag;
    }
    OverwrittenByte(before, pos, TypeTag(t));
  }

  lemma PointParts(v: Value, t: DataType, size: int)
    requires HasType(v, t)
    ensures v.Bool? <==> t.BOOL?
    ensures EncodePoint(v, t) == [TagOf(v, t)] + EncodeValue(v, t)
    ensures AttemptPoint(v, t, size) == if size <= 0 then [] else [TagOf(v, t)] + AttemptValue(v, t, size - 1)
    ensures if t.BOOL? then EncodeValue(v, t) == [] && AttemptValue(v, t, size - 1) == [] else TagOf(v, t) == TypeTag(t)
  {
  }

  /** Writes exactly the attempt, which is the encoding if that fits. */
  method SerializeDataPoint(buf: array<Byte>, pos: nat, size: int, v: Value, ghost t: DataType) returns (n: int)
    requires HasType(v, t) && pos + |AttemptPoint(v, t, size)| <= buf.Length
    modifies buf
    ensures n == if |EncodePoint(v, t)| <= size then |EncodePoint(v, t)| else -1
    ensures n >= 0 ==> AttemptPoint(v, t, size) == EncodePoint(v, t)
    ensures buf[..] == Overwritten(old(buf[..]), pos, AttemptPoint(v, t, size))
    decreases Depth(t), 1
  {
    hide *;
    PointParts(v, t, size);
    ghost var before := buf[..];
    n := -1;
    if 0 < size {
      SerializeTag(buf, pos, v, t);
      n := SerializeValue(buf, pos + 1, size - 1, v, t);
      if v.Bool? {
        OverwrittenAgain(before, pos, [TypeTag(t)], [TagOf(v, t)]);
        assert [TagOf(v, t)] + [] == [TagOf(v, t)];
      } else {
        OverwrittenBehind(before, pos, [TagOf(v, t)], AttemptValue(v, t, size - 1));
      }
      if 0 <= n {
        n := n + 1;
      }
    } else {
      OverwrittenByNothing(before, pos);
    }
  }

  /** A BOOL has no payload; its value goes into the tag in front of the position. */
  method SerializeValue(buf: array<Byte>, pos: nat, size: int, v: Value, ghost t: DataType) returns (n: int)
    requires HasType(v, t)
    requires t.BOOL? ==> 1 <= pos <= buf.Length && buf[pos - 1] == TypeTag(t)
    requires pos + |AttemptValue(v, t, size)| <= buf.Length
    modifies buf
    ensures n == if t.BOOL? || |EncodeValue(v, t)| <= size then |EncodeValue(v, t)| else -1
    ensures n >= 0 ==> AttemptValue(v, t, size) == EncodeValue(v, t)
    ensures buf[..] == if t.BOOL? then Overwritten(old(buf[..]), pos - 1, [TagOf(v, t)])
      else Overwritten(old(buf[..]), pos, AttemptValue(v, t, size))
    decreases Depth(t), 0
  {
    hide EncodeArray, EncodeFields, AttemptArray, AttemptFields, Overwritten;
    hide BigEndian, LengthBytes, ToUint64, ToMicros, Reverse;
    ghost var before := buf[..];
    match v {
      case Bool(b) =>
        if !b {
          buf[pos - 1] := buf[pos - 1] - 1;
        }
        OverwrittenByte(before, pos - 1, TagOf(v, t));
        n := 0;
      case ScalarValue(s, data) => n := SerializeScalar(buf, pos, size, s, data);
      case Time(ticks) => n := SerializeTime(buf, pos, size, ticks);
      case Text(chars) => n := SerializeString(buf, pos, size, chars);
      case Array(elems) => n := SerializeArray(buf, pos, size, elems, t.elem);
      case Struct(_, fields) => n := SerializeMembers(buf, pos, size, fields, t.members);
    }
    if n < 0 {
      OverwrittenByNothing(before, pos);
    }
  }

  /** The payloads that are refused without a write: nothing changes with -1. */
  method SerializeScalar(buf: array<Byte>, pos: nat, size: int, s: Scalar, data: seq<Byte>) returns (n: int)
    requires |data| == 8 && pos <= buf.Length && (Width(s) <= size ==> pos + Width(s) <= buf.Length)
    modifies buf
    ensures n == if Width(s) <= size then Width(s) else -1
    ensures buf[..] == if n >= 0 then Overwritten(old(buf[..]), pos, Reverse(data[..n])) else old(buf[..])
  {
    n := Width(s);
    if n <= size {
      hide Overwritten;
      ghost var before := buf[..];
      for i := 0 to n
        invariant forall j :: 0 <= j < i ==> buf[pos + n - 1 - j] == data[j]
        invariant forall k :: 0 <= k < buf.Length && !(pos + n - i <= k < pos + n) ==> buf[k] == before[k]
      {
        buf[pos + n - 1 - i] := data[i];
      }
      forall k | 0 <= k < n ensures buf[pos + k] == Reverse(data[..n])[k] {
        assert buf[pos + n - 1 - (n - 1 - k)] == data[n - 1 - k];
      }
      assert buf[..][..pos + n] == before[..pos] + Reverse(data[..n]);
      assert buf[..][pos + n..] == before[pos + n..];
      OverwrittenFrom(before, buf[..], pos, Reverse(data[..n]));
    } else {
      n := -1;
    }
  }

  /** Copies bytes to a position of a buffer. */
  method CopyTo(buf: array<Byte>, pos: nat, bs: seq<Byte>)
    requires pos + |bs| <= buf.Length
    modifies buf
    ensures buf[..] == Overwritten(old(buf[..]), pos, bs)
    ensures buf[..pos + |bs|] == old(buf[..pos]) + bs
  {
    hide Overwritten;
    ghost var before := buf[..];
    for i := 0 to |bs|
      invariant buf[..pos + i] == before[..pos] + bs[..i] && buf[pos + i..] == before[pos + i..]
    {
      buf[pos + i] := bs[i];
    }
    assert buf[..][..pos + |bs|] == before[..pos] + bs && buf[..][pos + |bs|..] == before[pos + |bs|..];
    OverwrittenFrom(before, buf[..], pos, bs);
  }

  method SerializeTime(buf: array<Byte>, pos: nat, size: int, ticks: int) returns (n: int)
    requires pos <= buf.Length && (8 <= size ==> pos + 8 <= buf.Length)
    modifies buf
    ensures n == if 8 <= size then 8 else -1
    ensures buf[..] ==
      if n >= 0 then Overwritten(old(buf[..]), pos, BigEndian(ToUint64(ToMicros(ticks)), 8)) else old(buf[..])
  {
    n := -1;
    if 8 <= size {
      CopyTo(buf, pos, BigEndian(ToUint64(ToMicros(ticks)), 8));
      n := 8;
    }
  }

  method SerializeLength(buf: array<Byte>, pos: nat, len: nat)
    requires len < 0x1_0000 && pos + 2 <= buf.Length
    modifies buf
    ensures buf[..] == Overwritten(old(buf[..]), pos, LengthBytes(len))
  {
    ghost var before := buf[..];
    buf[pos] := len / 256;
    buf[pos + 1] := len % 256;
    assert buf[..] == before[..pos] + LengthBytes(len) + before[pos + 2..];
  }

  method SerializeString(buf: array<Byte>, pos: nat, size: int, chars: seq<Byte>) returns (n: int)
    requires |chars| < 0x1_0000 && pos <= buf.Length && (|chars| + 2 <= size ==> pos + |chars| + 2 <= buf.Length)
    modifies buf
    ensures n == if |chars| + 2 <= size then |chars| + 2 else -1
    ensures buf[..] ==
      if n >= 0 then Overwritten(old(buf[..]), pos, LengthBytes(|chars|) + chars) else old(buf[..])
  {
    n := -1;
    if |chars| + 2 <= size {
      ghost var before := buf[..];
      SerializeLength(buf, pos, |chars|);
      CopyTo(buf, pos + 2, chars);
      OverwrittenBehind(before, pos, LengthBytes(|chars|), chars);
      n := |chars| + 2;
    }
  }

  lemma ArrayParts(elems: seq<Value>, e: DataType, size: int)
    requires AllHaveType(elems, e) && |elems| < 0x1_0000
    ensures var head, ms := ArrayHeader(|elems|, e), Repeat(e, |elems|);
      && (elems != [] ==> ms != []) && HaveTypes(elems, ms)
      && EncodeArray(elems, e) == head + EncodeFields(elems, ms)
      && AttemptArray(elems, e, size) == head + AttemptFields(elems, ms, size - |head|)
  {
  }

  method SerializeHeader(buf: array<Byte>, pos: nat, elems: seq<Value>, ghost e: DataType) returns (n: nat)
    requires AllHaveType(elems, e) && 0 < |elems| < 0x1_0000
    requires pos + |ArrayHeader(|elems|, e)| <= buf.Length
    modifies buf
    ensures n == |ArrayHeader(|elems|, e)|
    ensures buf[..] == Overwritten(old(buf[..]), pos, ArrayHeader(|elems|, e))
  {
    ghost var before := buf[..];
    SerializeLength(buf, pos, |elems|);
    n := 2;
    assert ArrayHeader(|elems|, e) == LengthBytes(|elems|) + if e.BOOL? then [] else [TypeTag(e)];
    assert elems[0].Bool? <==> e.BOOL?;
    hide Overwritten;
    if !elems[0].Bool? {
      SerializeTag(buf, pos + 2, elems[0], e);
      OverwrittenBehind(before, pos, LengthBytes(|elems|), [TypeTag(e)]);
      n := 3;
    }
  }

  /** The header is written whatever the room is. */
  method SerializeArray(buf: array<Byte>, pos: nat, size: int, elems: seq<Value>, ghost e: DataType)
    returns (n: int)
    requires AllHaveType(elems, e) && 0 < |elems| < 0x1_0000
    requires pos + |AttemptArray(elems, e, size)| <= buf.Length
    modifies buf
    ensures n == if |EncodeArray(elems, e)| <= size then |EncodeArray(elems, e)| else -1
    ensures n >= 0 ==> AttemptArray(elems, e, size) == EncodeArray(elems, e)
    ensures buf[..] == Overwritten(old(buf[..]), pos, AttemptArray(elems, e, size))
    decreases Depth(e), 4, 0
  {
    hide *;
    ghost var before, ms, head := buf[..], Repeat(e, |elems|), ArrayHeader(|elems|, e);
    ArrayParts(elems, e, size);
    n := SerializeHeader(buf, pos, elems, e);
    var k := SerializeMembers(buf, pos + n, size - n, elems, ms);
    OverwrittenBehind(before, pos, head, AttemptFields(elems, ms, size - n));
    n := if k < 0 then -1 else n + k;
  }

  lemma MemberParts(v: Value, t: DataType, size: int)
    requires HasType(v, t)
    ensures v.Bool? <==> t.BOOL?
    ensures EncodeMember(v, t) == if t.BOOL? then EncodePoint(v, t) else EncodeValue(v, t)
    ensures AttemptMember(v, t, size) == if t.BOOL? then AttemptPoint(v, t, size) else AttemptValue(v, t, size)
  {
  }

  /** The body of the element loop of arrays and of the member loop of structs. */
  method SerializeMember(buf: array<Byte>, pos: nat, size: int, v: Value, ghost t: DataType) returns (k: int)
    requires HasType(v, t) && pos + |AttemptMember(v, t, size)| <= buf.Length
    modifies buf
    ensures k == if |EncodeMember(v, t)| <= size then |EncodeMember(v, t)| else -1
    ensures k >= 0 ==> AttemptMember(v, t, size) == EncodeMember(v, t)
    ensures buf[..] == Overwritten(old(buf[..]), pos, AttemptMember(v, t, size))
    decreases Depth(t), 2, 0
  {
    hide *;
    MemberParts(v, t, size);
    if v.Bool? {
      k := SerializeDataPoint(buf, pos, size, v, t);
    } else {
      k := SerializeValue(buf, pos, size, v, t);
    }
  }

  /** Where the member loop stands: the first n bytes of encoding and attempt are written, what is
      left of both belongs to the members from i on. */
  ghost predicate MembersDone(vs: seq<Value>, ms: seq<DataType>, size: int, i: nat, n: int)
    requires HaveTypes(vs, ms) && i <= |ms|
  {
    && Abreast(EncodeFields(vs, ms), AttemptFields(vs, ms, size), n,
      EncodeFields(vs[i..], ms[i..]), AttemptFields(vs[i..], ms[i..], size - n))
    && (if i == 0 then n == 0 else n <= size)
  }

  lemma NoneDone(vs: seq<Value>, ms: seq<DataType>, size: int)
    requires HaveTypes(vs, ms)
    ensures MembersDone(vs, ms, size, 0, 0)
  {
    hide HasType, EncodeFields, AttemptFields;
    assert vs[0..] == vs && ms[0..] == ms;
  }

  /** The members from i on begin with the i-th. */
  lemma MembersFrom(vs: seq<Value>, ms: seq<DataType>, i: nat, room: int)
    requires HaveTypes(vs, ms) && i < |ms|
    ensures var part, left := EncodeMember(vs[i], ms[i]), EncodeFields(vs[i + 1..], ms[i + 1..]);
      && EncodeFields(vs[i..], ms[i..]) == part + left
      && AttemptFields(vs[i..], ms[i..], room)
        == if |part| <= room then part + AttemptFields(vs[i + 1..], ms[i + 1..], room - |part|)
           else AttemptMember(vs[i], ms[i], room)
  {
    assert vs[i..][0] == vs[i] && ms[i..][0] == ms[i];
    assert vs[i..][1..] == vs[i + 1..] && ms[i..][1..] == ms[i + 1..];
    hide HasType, EncodeMember, AttemptMember;
  }

  lemma MemberWritten(vs: seq<Value>, ms: seq<DataType>, size: int, i: nat, n: nat)
    requires HaveTypes(vs, ms) && i < |ms| && MembersDone(vs, ms, size, i, n)
    requires n + |EncodeMember(vs[i], ms[i])| <= size
    ensures var part, attempt := EncodeMember(vs[i], ms[i]), AttemptFields(vs, ms, size);
      && MembersDone(vs, ms, size, i + 1, n + |part|) && n + |part| <= |attempt|
      && AttemptMember(vs[i], ms[i], size - n) == part && attempt[..n + |part|] == attempt[..n] + part
  {
    hide HasType, EncodeFields, EncodeMember, AttemptFields, AttemptMember, Abreast;
    MembersFrom(vs, ms, i, size - n);
    MemberFits(vs[i], ms[i], size - n);
    var part, all, attempt := EncodeMember(vs[i], ms[i]), EncodeFields(vs, ms), AttemptFields(vs, ms, size);
    AbreastBehind(all, attempt, n, part,
      EncodeFields(vs[i + 1..], ms[i + 1..]), AttemptFields(vs[i + 1..], ms[i + 1..], size - n - |part|));
  }

  lemma MemberRefused(vs: seq<Value>, ms: seq<DataType>, size: int, i: nat, n: nat)
    requires HaveTypes(vs, ms) && i < |ms| && MembersDone(vs, ms, size, i, n)
    requires n + |EncodeMember(vs[i], ms[i])| > size
    ensures |EncodeFields(vs, ms)| > size
    ensures var attempt, next := AttemptFields(vs, ms, size), AttemptMember(vs[i], ms[i], size - n);
      n + |next| == |attempt| && attempt == attempt[..n] + next
  {
    hide HasType, EncodeFields, EncodeMember, AttemptFields, AttemptMember;
    MembersFrom(vs, ms, i, size - n);
    AbreastUpTo(EncodeFields(vs, ms), AttemptFields(vs, ms, size), n,
      EncodeMember(vs[i], ms[i]), EncodeFields(vs[i + 1..], ms[i + 1..]), AttemptMember(vs[i], ms[i], size - n));
  }

  lemma {:induction false} DepthBound(ms: seq<DataType>, i: nat)
    requires i < |ms|
    ensures Depth(ms[i]) <= MaxDepth(ms)
  {
    if i > 0 {
      DepthBound(ms[1..], i - 1);
    }
  }

  lemma NextMember(vs: seq<Value>, ms: seq<DataType>, size: int, i: nat, n: nat)
    requires HaveTypes(vs, ms) && i < |ms| && MembersDone(vs, ms, size, i, n)
    ensures i < |vs| && HasType(vs[i], ms[i]) && Depth(ms[i]) <= MaxDepth(ms)
    ensures var part, next := EncodeMember(vs[i], ms[i]), AttemptMember(vs[i], ms[i], size - n);
      var attempt := AttemptFields(vs, ms, size);
      && n + |next| <= |attempt| && attempt[..n + |next|] == attempt[..n] + next
      && (if n + |part| <= size then next == part && MembersDone(vs, ms, size, i + 1, n + |part|)
          else attempt == attempt[..n] + next && |EncodeFields(vs, ms)| > size)
  {
    hide HasType, EncodeFields, EncodeMember, AttemptFields, AttemptMember, Abreast, Depth, MaxDepth;
    DepthBound(ms, i);
    if n + |EncodeMember(vs[i], ms[i])| <= size {
      MemberWritten(vs, ms, size, i, n);
    } else {
      MemberRefused(vs, ms, size, i, n);
    }
  }

  lemma NoMembers(vs: seq<Value>, ms: seq<DataType>, size: int)
    requires vs == [] && ms == []
    ensures EncodeFields(vs, ms) == [] && AttemptFields(vs, ms, size) == []
  {
  }

  lemma LastMember(vs: seq<Value>, ms: seq<DataType>, size: int, n: nat)
    requires HaveTypes(vs, ms) && ms != [] && MembersDone(vs, ms, size, |ms|, n)
    ensures n == |EncodeFields(vs, ms)| <= size && n == |AttemptFields(vs, ms, size)|
    ensures AttemptFields(vs, ms, size) == EncodeFields(vs, ms)
  {
    hide HasType, EncodeFields, AttemptFields;
    assert vs[|ms|..] == [] && ms[|ms|..] == [];
    NoMembers(vs[|ms|..], ms[|ms|..], size - n);
    var all, attempt := EncodeFields(vs, ms), AttemptFields(vs, ms, size);
    assert all[..n] == all && attempt[..n] == attempt;
  }

  /** The buffer at the head of the member loop. */
  ghost predicate BufferAt(
      before: seq<Byte>, now: seq<Byte>, pos: nat, size: int, vs: seq<Value>, ms: seq<DataType>, i: nat, n: int)
    requires HaveTypes(vs, ms) && i <= |ms|
  {
    var attempt := AttemptFields(vs, ms, size);
    && 0 <= n <= |attempt| && MembersDone(vs, ms, size, i, n)
    && pos + |attempt| <= |before| && now == Overwritten(before, pos, attempt[..n])
  }

  lemma BufferAtStart(before: seq<Byte>, pos: nat, size: int, vs: seq<Value>, ms: seq<DataType>)
    requires HaveTypes(vs, ms) && pos + |AttemptFields(vs, ms, size)| <= |before|
    ensures |vs| == |ms| && BufferAt(before, before, pos, size, vs, ms, 0, 0)
  {
    NoneDone(vs, ms, size);
    OverwrittenByNothing(before, pos);
  }

  lemma BufferAtEnd(
      before: seq<Byte>, now: seq<Byte>, pos: nat, size: int, vs: seq<Value>, ms: seq<DataType>, n: int)
    requires HaveTypes(vs, ms) && ms != [] && BufferAt(before, now, pos, size, vs, ms, |ms|, n)
    ensures n == |EncodeFields(vs, ms)| <= size && AttemptFields(vs, ms, size) == EncodeFields(vs, ms)
    ensures pos + n <= |before| && now == Overwritten(before, pos, AttemptFields(vs, ms, size))
  {
    LastMember(vs, ms, size, n);
    var attempt := AttemptFields(vs, ms, size);
    assert attempt[..n] == attempt;
  }

  /** One turn of the loop, in which a member has been written or refused. */
  lemma BufferNext(
      before: seq<Byte>, now: seq<Byte>, pos: nat, size: int, vs: seq<Value>, ms: seq<DataType>, i: nat, n: int)
    requires HaveTypes(vs, ms) && i < |ms| && BufferAt(before, now, pos, size, vs, ms, i, n)
    ensures n >= 0 && HasType(vs[i], ms[i]) && Depth(ms[i]) <= MaxDepth(ms)
    ensures var part, next := EncodeMember(vs[i], ms[i]), AttemptMember(vs[i], ms[i], size - n);
      && |now| == |before| && pos + n + |next| <= |now|
      && var after := Overwritten(now, pos + n, next);
        if n + |part| <= size then BufferAt(before, after, pos, size, vs, ms, i + 1, n + |part|)
        else
          && pos + |AttemptFields(vs, ms, size)| <= |before| && |EncodeFields(vs, ms)| > size
          && after == Overwritten(before, pos, AttemptFields(vs, ms, size))
  {
    hide HasType, HaveTypes, EncodeFields, EncodeMember, AttemptFields, AttemptMember, MembersDone, Depth, MaxDepth;
    hide Overwritten;
    NextMember(vs, ms, size, i, n);
    var attempt, next := AttemptFields(vs, ms, size), AttemptMember(vs[i], ms[i], size - n);
    OverwrittenBehind(before, pos, attempt[..n], next);
  }

  method SerializeMembers(buf: array<Byte>, pos: nat, size: int, vs: seq<Value>, ghost ms: seq<DataType>)
    returns (n: int)
    requires HaveTypes(vs, ms) && ms != []
    requires pos + |AttemptFields(vs, ms, size)| <= buf.Length
    modifies buf
    ensures n == if |EncodeFields(vs, ms)| <= size then |EncodeFields(vs, ms)| else -1
    ensures n >= 0 ==> AttemptFields(vs, ms, size) == EncodeFields(vs, ms)
    ensures buf[..] == Overwritten(old(buf[..]), pos, AttemptFields(vs, ms, size))
    decreases MaxDepth(ms), 3, |ms|
  {
    hide *;
    ghost var before := buf[..];
    BufferAtStart(before, pos, size, vs, ms);
    n := 0;
    for i := 0 to |vs|
      invariant BufferAt(before, buf[..], pos, size, vs, ms, i, n)
    {
      BufferNext(before, buf[..], pos, size, vs, ms, i, n);
      var k := SerializeMember(buf, pos + n, size - n, vs[i], ms[i]);
      if k < 0 {
        return -1;
      }
      n := n + k;
    }
    BufferAtEnd(before, buf[..], pos, size, vs, ms, n);
  }
}
