/** Bytes and the big-endian numbers of the wire format. */
module Bytes {

  type Byte = x: int | 0 <= x < 256

  /** 256 to the power k: the number of values k bytes can hold. */
  function Range(k: nat): (r: nat)
    ensures r > 0
  {
    if k == 0 then 1 else 256 * Range(k - 1)
  }

  /** The k lowest bytes of u, most significant byte first. */
  function BigEndian(u: nat, k: nat): (bs: seq<Byte>)
    ensures |bs| == k
  {
    if k == 0 then [] else BigEndian(u / 256, k - 1) + [u % 256]
  }

  /** The number that a most-significant-first byte string denotes. */
  function ToNat(bs: seq<Byte>): nat {
    if bs == [] then 0 else 256 * ToNat(bs[..|bs| - 1]) + bs[|bs| - 1]
  }

  /** The two length octets in front of strings and arrays. */
  function LengthBytes(n: nat): (bs: seq<Byte>)
    requires n < 0x1_0000
    ensures |bs| == 2
  {
    [n / 256, n % 256]
  }

  function LengthOf(bs: seq<Byte>): (n: nat)
    requires |bs| >= 2
    ensures n < 0x1_0000
  {
    var high: int := bs[0];
    256 * high + bs[1]
  }

  function Reverse<T>(s: seq<T>): (r: seq<T>)
    ensures |r| == |s|
    ensures forall i :: 0 <= i < |s| ==> r[i] == s[|s| - 1 - i]
  {
    seq(|s|, i requires 0 <= i < |s| => s[|s| - 1 - i])
  }

  lemma {:induction false} ToNatBound(bs: seq<Byte>)
    ensures ToNat(bs) < Range(|bs|)
  {
    if bs != [] {
      ToNatBound(bs[..|bs| - 1]);
    }
  }

  /** Writing a number that fits and reading it back restores it. */
  lemma {:induction false} ReadBack(u: nat, k: nat)
    requires u < Range(k)
    ensures ToNat(BigEndian(u, k)) == u
  {
    if k > 0 {
      ReadBack(u / 256, k - 1);
      assert BigEndian(u, k)[..k - 1] == BigEndian(u / 256, k - 1);
    }
  }
}
