/** Facts about sequences that proofs apply to long expressions, by name. */
module Sequences {

  lemma Regroup<T>(a: seq<T>, b: seq<T>, c: seq<T>)
    ensures a + (b + c) == a + b + c
  {
  }

  /** What a concatenation consists of. */
  lemma Halves<T>(a: seq<T>, b: seq<T>)
    ensures (a + b)[..|a|] == a && (a + b)[|a|..] == b
  {
  }

  /** Going on behind a part at position n. */
  lemma CutOff<T>(all: seq<T>, n: nat, part: seq<T>, rest: seq<T>)
    requires n <= |all| && all[n..] == part + rest
    ensures n + |part| <= |all|
    ensures all[n..n + |part|] == part && all[n + |part|..] == rest
    ensures all[..n + |part|] == all[..n] + part
  {
    var tail := all[n..];
    assert |tail| == |part| + |rest|;
    assert tail[..|part|] == part && tail[|part|..] == rest;
  }

  /** What is put behind does not show at the front. */
  lemma FrontOf<T>(s: seq<T>, t: seq<T>)
    requires s != []
    ensures (s + t)[0] == s[0] && (s + t)[1..] == s[1..] + t
  {
  }

  /** One place of a sequence and what is around it. */
  lemma Around<T>(s: seq<T>, k: nat, x: T)
    requires k < |s|
    ensures s == s[..k] + [s[k]] + s[k + 1..] && s[k := x] == s[..k] + [x] + s[k + 1..]
  {
  }
}
