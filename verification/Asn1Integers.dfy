/** The numbers behind the bytes of integer data points. */
module Asn1Integers {
  import opened Bytes
  import opened DataPoints
  import opened Asn1Codec

  /** The number in a union, least significant byte first. */
  function LittleEndian(data: seq<Byte>): (n: nat)
  {
    if data == [] then 0 else data[0] + 256 * LittleEndian(data[1..])
  }

  /** The union read as a two's complement number. */
  function SignedUnion(data: seq<Byte>): int
    requires |data| == 8
  {
    LittleEndian(data) - if data[7] >= 128 then Range(8) else 0
  }

  /** Received bytes read as a two's complement number of their own length. */
  function SignedOnWire(bs: seq<Byte>): int
    requires bs != []
  {
    ToNat(bs) - if bs[0] >= 128 then Range(|bs|) else 0
  }

  lemma {:induction false} LittleEndianAppend(a: seq<Byte>, b: seq<Byte>)
    ensures LittleEndian(a + b) == LittleEndian(a) + Range(|a|) * LittleEndian(b)
  {
    if a == [] {
      assert a + b == b;
    } else {
      assert (a + b)[1..] == a[1..] + b;
      LittleEndianAppend(a[1..], b);
    }
  }

  lemma {:induction false} ReadEitherWay(bs: seq<Byte>)
    ensures LittleEndian(Reverse(bs)) == ToNat(bs)
  {
    if bs != [] {
      var last := |bs| - 1;
      assert Reverse(bs)[1..] == Reverse(bs[..last]);
      ReadEitherWay(bs[..last]);
    }
  }

  function Fill(k: nat, b: Byte): (bs: seq<Byte>)
    ensures |bs| == k && forall i :: 0 <= i < k ==> bs[i] == b
  {
    seq(k, _ => b)
  }

  lemma {:induction false} FilledWith(k: nat, b: Byte)
    requires b == 0 || b == 255
    ensures LittleEndian(Fill(k, b)) == if b == 0 then 0 else Range(k) - 1
  {
    if k > 0 {
      assert Fill(k, b)[1..] == Fill(k - 1, b);
      FilledWith(k - 1, b);
    }
  }

  lemma {:induction false} RangeSplit(j: nat, k: nat)
    ensures Range(j + k) == Range(j) * Range(k)
  {
    if j > 0 {
      RangeSplit(j - 1, k);
      assert Range(j + k) == 256 * Range(j - 1 + k);
    }
  }

  lemma Extended(bs: seq<Byte>, s: Scalar)
    requires |bs| == Width(s)
    ensures var fill: Byte := if SignExtended(s) && bs[0] >= 128 then 255 else 0;
      var tail := Fill(8 - Width(s), fill);
      && Extend(Reverse(bs), s) == Reverse(bs) + tail
      && (Reverse(bs) + tail)[7] == if Width(s) == 8 then bs[0] else fill
  {
  }

  /** Sign extension keeps the number: what a SINT, INT, DINT or LINT target holds afterwards is
      the two's complement number that was on the wire. */
  lemma SignedNumberArrives(s: Scalar, bs: seq<Byte>)
    requires s in {SINT, INT, DINT, LINT} && |bs| == Width(s)
    ensures SignedUnion(Extend(Reverse(bs), s)) == SignedOnWire(bs)
  {
    var low, w := Reverse(bs), Width(s);
    var fill: Byte := if SignExtended(s) && bs[0] >= 128 then 255 else 0;
    var tail := Fill(8 - w, fill);
    Extended(bs, s);
    hide Extend, Range, LittleEndian, ToNat, Reverse, Fill;
    LittleEndianAppend(low, tail);
    ReadEitherWay(bs);
    FilledWith(8 - w, fill);
    if fill == 255 {
      RangeSplit(w, 8 - w);
      OneLess(Range(w), Range(8 - w));
    }
  }

  /** Zero extension keeps the number of every other scalar. */
  lemma UnsignedNumberArrives(s: Scalar, bs: seq<Byte>)
    requires !SignExtended(s) && |bs| == Width(s)
    ensures LittleEndian(Extend(Reverse(bs), s)) == ToNat(bs)
  {
    var low, k := Reverse(bs), 8 - Width(s);
    Extended(bs, s);
    FilledWith(k, 0);
    hide *;
    LittleEndianAppend(low, Fill(k, 0));
    ReadEitherWay(bs);
    Vanishes(Range(|low|), LittleEndian(Fill(k, 0)));
  }

  lemma Vanishes(a: int, b: int)
    requires b == 0
    ensures a * b == 0
  {
  }

  lemma OneLess(a: int, b: int)
    ensures a * (b - 1) == a * b - a
  {
  }
}
