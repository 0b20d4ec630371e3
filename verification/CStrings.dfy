/** Strings of C: bytes up to a terminating zero. */
module CStrings {
  import opened Bytes

  /** The contents of a C string, without its terminator. */
  type Text = seq<Byte>

  predicate IsCString(t: Text) {
    0 !in t
  }

  /** The C string that begins a piece of memory. */
  function CString(memory: seq<Byte>): (t: Text)
    ensures IsCString(t)
  {
    if memory == [] || memory[0] == 0 then [] else [memory[0]] + CString(memory[1..])
  }

  /** strcmp: the bytes are compared as unsigned numbers, the terminator being smaller than all others. */
  function StrCmp(a: Text, b: Text): int {
    if a == [] then (if b == [] then 0 else -1)
    else if b == [] then 1
    else if a[0] != b[0] then a[0] - b[0]
    else StrCmp(a[1..], b[1..])
  }

  predicate Before(a: Text, b: Text) {
    StrCmp(a, b) < 0
  }

  lemma {:induction false} StrCmpIsAnOrder(a: Text, b: Text)
    ensures StrCmp(a, b) == 0 <==> a == b
    ensures Before(a, b) <==> StrCmp(b, a) > 0
  {
    if a != [] && b != [] && a[0] == b[0] {
      StrCmpIsAnOrder(a[1..], b[1..]);
      assert a == [a[0]] + a[1..] && b == [b[0]] + b[1..];
    }
  }

  lemma {:induction false} BeforeIsTransitive(a: Text, b: Text, c: Text)
    requires Before(a, b) && Before(b, c)
    ensures Before(a, c)
  {
    if a != [] && a[0] == b[0] == c[0] {
      BeforeIsTransitive(a[1..], b[1..], c[1..]);
    }
  }

  /** The order is the one of dictionaries: the first byte that differs decides, and of a text and its
      beginning the beginning comes first. */
  lemma {:induction false} BeforeMeans(front: Text, a: Text, b: Text)
    requires a != [] || b != []
    requires a == [] || b == [] || a[0] != b[0]
    ensures Before(front + a, front + b) <==> b != [] && (a == [] || a[0] < b[0])
  {
    if front == [] {
      assert front + a == a && front + b == b;
    } else {
      assert (front + a)[1..] == front[1..] + a && (front + b)[1..] == front[1..] + b;
      BeforeMeans(front[1..], a, b);
    }
  }

  lemma {:induction false} CStringOf(t: Text, rest: seq<Byte>)
    requires IsCString(t)
    ensures CString(t + [0] + rest) == t
  {
    var memory := t + [0] + rest;
    if t != [] {
      CStringOf(t[1..], rest);
      assert memory[1..] == t[1..] + [0] + rest;
      assert t == [t[0]] + t[1..];
    }
  }
}
