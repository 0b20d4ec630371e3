/** The 64-bit tick counter of the runtime, kept in two 32-bit words. */
module ForteTime {

  const WORD_RANGE := 0x1_0000_0000
  const TIME_RANGE := 0x1_0000_0000_0000_0000

  type Word = x: int | 0 <= x < 0x1_0000_0000

  datatype Time = Time(lower: Word, upper: Word)

  function Value(t: Time): (n: nat)
    ensures n < TIME_RANGE
  {
    t.upper * WORD_RANGE + t.lower
  }

  function WrapWord(x: int): Word { x % WORD_RANGE }

  /** operator++ */
  function Increment(t: Time): Time {
    var lower := WrapWord(t.lower + 1);
    Time(lower, if lower == 0 then WrapWord(t.upper + 1) else t.upper)
  }

  /** operator+= */
  function Plus(t: Time, n: Word): Time {
    var lower := WrapWord(t.lower + n);
    Time(lower, if t.lower > lower then WrapWord(t.upper + 1) else t.upper)
  }

  /** operator-= with a number of ticks */
  function Minus(t: Time, n: Word): Time {
    var lower := WrapWord(t.lower - n);
    Time(lower, if t.lower < lower then WrapWord(t.upper - 1) else t.upper)
  }

  /** operator-= with a time */
  function MinusTime(t: Time, u: Time): Time {
    var upper := WrapWord(t.upper - u.upper);
    if t.lower < u.lower
    then Time(WrapWord(WrapWord(t.lower - 1) - u.lower), WrapWord(upper - 1))
    else Time(WrapWord(t.lower - u.lower), upper)
  }

  /** operator> */
  predicate Later(t: Time, u: Time) {
    t.upper > u.upper || (t.upper == u.upper && t.lower > u.lower)
  }

  lemma IncrementExact(t: Time)
    ensures Value(Increment(t)) == (Value(t) + 1) % TIME_RANGE
  {
    assert t.lower + 1 < WORD_RANGE ==> Increment(t) == Time(t.lower + 1, t.upper);
  }

  lemma PlusExact(t: Time, n: Word)
    ensures Value(Plus(t, n)) == (Value(t) + n) % TIME_RANGE
  {
    if t.lower + n < WORD_RANGE {
      assert Plus(t, n) == Time(t.lower + n, t.upper);
    } else {
      assert Plus(t, n) == Time(t.lower + n - WORD_RANGE, WrapWord(t.upper + 1));
    }
  }

  lemma PlusInRange(t: Time, n: Word)
    requires Value(t) + n < TIME_RANGE
    ensures Value(Plus(t, n)) == Value(t) + n
  {
    hide Plus, Value;
    PlusExact(t, n);
  }

  lemma MinusExact(t: Time, n: Word)
    ensures Value(Minus(t, n)) == (Value(t) - n) % TIME_RANGE
  {
    if t.lower >= n {
      assert Minus(t, n) == Time(t.lower - n, t.upper);
    } else {
      assert Minus(t, n) == Time(t.lower - n + WORD_RANGE, WrapWord(t.upper - 1));
    }
  }

  /** Adding and taking away the same number of ticks cancels out, across any wrap-around. */
  lemma MinusUndoesPlus(t: Time, n: Word)
    ensures Minus(Plus(t, n), n) == t
  {
  }

  lemma LaterExact(t: Time, u: Time)
    ensures Later(t, u) <==> Value(t) > Value(u)
  {
  }

  /** Two words, of which the upper one is reduced to its range, as a number. */
  lemma Assemble(upper: int, lower: Word)
    ensures WrapWord(upper) * WORD_RANGE + lower == (upper * WORD_RANGE + lower) % TIME_RANGE
  {
    var q := upper / WORD_RANGE;
    assert upper == q * WORD_RANGE + WrapWord(upper);
    assert upper * WORD_RANGE + lower == q * TIME_RANGE + (WrapWord(upper) * WORD_RANGE + lower);
  }

  lemma MinusTimeWithoutBorrow(t: Time, u: Time)
    requires t.lower >= u.lower
    ensures Value(MinusTime(t, u)) == (Value(t) - Value(u)) % TIME_RANGE
  {
    var t1: int, t0: int, u1: int, u0: int := t.upper, t.lower, u.upper, u.lower;
    Assemble(t1 - u1, t0 - u0);
  }

  lemma MinusTimeWithBorrow(t: Time, u: Time)
    requires t.lower < u.lower
    ensures Value(MinusTime(t, u)) + 1 == (Value(t) - Value(u)) % TIME_RANGE
  {
    var upper: int, low: int := t.upper - u.upper - 1, t.lower - u.lower + WORD_RANGE;
    BorrowedWords(t, u);
    Assemble(upper, low);
    assert Value(t) - Value(u) == upper * WORD_RANGE + low;
  }

  lemma BorrowedWords(t: Time, u: Time)
    requires t.lower < u.lower
    ensures MinusTime(t, u).lower == t.lower - u.lower + WORD_RANGE - 1
    ensures MinusTime(t, u).upper == WrapWord(t.upper - u.upper - 1)
  {
    hide WrapWord;
    LessInRange(t.lower, u.lower);
    LessTwice(t.upper - u.upper);
  }

  lemma LessInRange(x: Word, y: Word)
    requires x < y
    ensures WrapWord(WrapWord(x - 1) - y) == x - y + WORD_RANGE - 1
  {
    var below := if x == 0 then WORD_RANGE - 1 else x - 1;
    assert WrapWord(x - 1) == below;
  }

  lemma LessTwice(x: int)
    ensures WrapWord(WrapWord(x) - 1) == WrapWord(x - 1)
  {
    var q := x / WORD_RANGE;
    assert x == q * WORD_RANGE + x % WORD_RANGE;
  }

  /** The difference of two times is right if and only if the lower words need no borrow; with a
      borrow it is one tick too small. */
  lemma MinusTimeRightIffNoBorrow(t: Time, u: Time)
    ensures Value(MinusTime(t, u)) == (Value(t) - Value(u)) % TIME_RANGE <==> t.lower >= u.lower
    ensures t.lower < u.lower ==> Value(MinusTime(t, u)) + 1 == (Value(t) - Value(u)) % TIME_RANGE
  {
    if t.lower >= u.lower {
      MinusTimeWithoutBorrow(t, u);
    } else {
      MinusTimeWithBorrow(t, u);
    }
  }
}
