/** Integers of the machine. */
module Machine {

  const INT64_MIN := -0x8000_0000_0000_0000
  const INT64_MAX := 0x7FFF_FFFF_FFFF_FFFF

  function WrapInt64(x: int): (r: int)
    ensures INT64_MIN <= r <= INT64_MAX
    ensures INT64_MIN <= x <= INT64_MAX ==> r == x
  {
    var m := x % 0x1_0000_0000_0000_0000;
    if m > INT64_MAX then m - 0x1_0000_0000_0000_0000 else m
  }

  /** Numbers that differ by a multiple of 2 to the power 64 are the same to the machine. */
  lemma WrapsAround(x: int, k: int)
    requires -0x8000_0000_0000_0000 <= x < 0x8000_0000_0000_0000
    ensures WrapInt64(x + k * 0x1_0000_0000_0000_0000) == x
    ensures ToUint64(x + k * 0x1_0000_0000_0000_0000) == if x < 0 then x + 0x1_0000_0000_0000_0000 else x
  {
    var unsigned := if x < 0 then x + 0x1_0000_0000_0000_0000 else x;
    var q := if x < 0 then k - 1 else k;
    assert x + k * 0x1_0000_0000_0000_0000 == unsigned + q * 0x1_0000_0000_0000_0000;
    assert (x + k * 0x1_0000_0000_0000_0000) % 0x1_0000_0000_0000_0000 == unsigned;
  }

  /** Division that truncates toward zero. */
  function Truncate(x: int, d: int): (q: int)
    requires d > 0
    ensures x >= 0 ==> d * q <= x < d * q + d
    ensures x <= 0 ==> d * q - d < x <= d * q
  {
    if x >= 0 then x / d else -((-x) / d)
  }

  function ToUint64(x: int): (r: nat)
    ensures r < 0x1_0000_0000_0000_0000
  {
    x % 0x1_0000_0000_0000_0000
  }
}
