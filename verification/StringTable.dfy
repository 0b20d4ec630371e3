/** What a string dictionary holds: texts in the order of their insertion, laid out one behind the
    other with their terminators, and an index of their positions sorted by text. */
module StringTable {
  import opened Sequences
  import opened Options
  import opened Bytes
  import opened CStrings

  /** The used part of the string buffer. */
  function Tiled(ss: seq<Text>): seq<Byte> {
    if ss == [] then [] else ss[0] + [0] + Tiled(ss[1..])
  }

  /** The position of a text in the buffer, which is its id. */
  function IdOf(ss: seq<Text>, k: nat): nat
    requires k <= |ss|
  {
    |Tiled(ss[..k])|
  }

  predicate Proper(t: Text) {
    t != [] && IsCString(t)
  }

  predicate AllProper(ss: seq<Text>) {
    forall k :: 0 <= k < |ss| ==> Proper(ss[k])
  }

  lemma {:induction false} TiledConcat(ss: seq<Text>, ts: seq<Text>)
    ensures Tiled(ss + ts) == Tiled(ss) + Tiled(ts)
  {
    if ss == [] {
      assert ss + ts == ts;
    } else {
      TiledConcat(ss[1..], ts);
      assert (ss + ts)[1..] == ss[1..] + ts;
      assert ss[0] + [0] + (Tiled(ss[1..]) + Tiled(ts)) == ss[0] + [0] + Tiled(ss[1..]) + Tiled(ts);
    }
  }

  /** Adding texts moves none of those that are already there. */
  lemma IdsStay(ss: seq<Text>, ts: seq<Text>, k: nat)
    requires k <= |ss|
    ensures IdOf(ss + ts, k) == IdOf(ss, k)
  {
    assert (ss + ts)[..k] == ss[..k];
  }

  lemma IdOfNext(ss: seq<Text>, k: nat)
    requires k < |ss|
    ensures IdOf(ss, k + 1) == IdOf(ss, k) + |ss[k]| + 1
  {
    assert ss[..k + 1] == ss[..k] + [ss[k]];
    TiledConcat(ss[..k], [ss[k]]);
  }

  lemma {:induction false} IdsGrow(ss: seq<Text>, j: nat, k: nat)
    requires j < k <= |ss|
    ensures IdOf(ss, j) + |ss[j]| < IdOf(ss, k)
    decreases k
  {
    IdOfNext(ss, k - 1);
    if j < k - 1 {
      IdsGrow(ss, j, k - 1);
    }
  }

  /** Where a text starts, the buffer reads as exactly that text, whatever lies behind the used part. */
  lemma TextAtId(ss: seq<Text>, k: nat, unused: seq<Byte>)
    requires AllProper(ss) && k < |ss|
    ensures IdOf(ss, k) < |Tiled(ss)|
    ensures CString((Tiled(ss) + unused)[IdOf(ss, k)..]) == ss[k]
  {
    assert Proper(ss[k]);
    assert ss == ss[..k] + ss[k..] && ss[k..][1..] == ss[k + 1..];
    TiledConcat(ss[..k], ss[k..]);
    var before, rest := Tiled(ss[..k]), Tiled(ss[k + 1..]);
    assert Tiled(ss) == before + (ss[k] + [0] + rest);
    hide *;
    Regroup(before, ss[k] + [0] + rest, unused);
    Regroup(ss[k] + [0], rest, unused);
    Halves(before, ss[k] + [0] + (rest + unused));
    CStringOf(ss[k], rest + unused);
  }

  /** The test that `get` makes on an id: it starts the buffer or follows a terminator. */
  predicate LooksIssued(used: seq<Byte>, id: nat) {
    id < |used| && (id > 0 ==> used[id - 1] == 0)
  }

  predicate Issued(ss: seq<Text>, id: nat) {
    exists k :: 0 <= k < |ss| && IdOf(ss, k) == id
  }

  /** The test never mistakes the inside of a text for a text. */
  lemma {:induction false} LooksIssuedIffIssued(ss: seq<Text>, id: nat)
    requires AllProper(ss)
    ensures LooksIssued(Tiled(ss), id) <==> Issued(ss, id)
  {
    if ss == [] {
    } else {
      var first, rest, n := ss[0], ss[1..], |ss[0]| + 1;
      assert Proper(first);
      assert AllProper(rest) by {
        forall k | 0 <= k < |rest| ensures Proper(rest[k]) { assert rest[k] == ss[k + 1]; }
      }
      assert ss[..0] == [];
      if id == 0 {
        assert IdOf(ss, 0) == 0;
      } else if id < n {
        assert Tiled(ss)[id - 1] == first[id - 1];
        assert !Issued(ss, id) by {
          forall k | 0 <= k < |ss| ensures IdOf(ss, k) != id { StartOfRest(ss, k); }
        }
      } else {
        LooksIssuedIffIssued(rest, id - n);
        assert id > n ==> LooksIssued(Tiled(ss), id) == LooksIssued(Tiled(rest), id - n);
        forall k | 0 <= k < |ss| ensures IdOf(ss, k) == if k == 0 then 0 else n + IdOf(rest, k - 1) {
          StartOfRest(ss, k);
        }
        if Issued(rest, id - n) {
          var k :| 0 <= k < |rest| && IdOf(rest, k) == id - n;
          assert IdOf(ss, k + 1) == id;
        }
        if Issued(ss, id) {
          var k :| 0 <= k < |ss| && IdOf(ss, k) == id;
          assert IdOf(rest, k - 1) == id - n;
        }
      }
    }
  }

  lemma StartOfRest(ss: seq<Text>, k: nat)
    requires k < |ss|
    ensures IdOf(ss, k) == if k == 0 then 0 else |ss[0]| + 1 + IdOf(ss[1..], k - 1)
  {
    if k > 0 {
      assert ss[..k][1..] == ss[1..][..k - 1];
    }
  }

  // ---- the sorted index ----

  /** `order` lists the numbers of all texts, sorted by text. */
  predicate SortedIndex(ss: seq<Text>, order: seq<nat>) {
    && |order| == |ss|
    && AllBelow(order, |ss|)
    && (forall k :: 0 <= k < |ss| ==> k in order)
    && (forall i, j :: 0 <= i < j < |order| ==> Before(ss[order[i]], ss[order[j]]))
  }

  predicate AllBelow(order: seq<nat>, n: nat) {
    forall i :: 0 <= i < |order| ==> order[i] < n
  }

  /** The ids in the order of their texts: the contents of the index. */
  function IdsFor(ss: seq<Text>, order: seq<nat>): (ids: seq<nat>)
    requires AllBelow(order, |ss|)
    ensures |ids| == |order|
    ensures forall i :: 0 <= i < |order| ==> ids[i] == IdOf(ss, order[i])
  {
    seq(|order|, i requires 0 <= i < |order| => IdOf(ss, order[i]))
  }

  lemma IdsForStay(ss: seq<Text>, order: seq<nat>, t: Text)
    requires AllBelow(order, |ss|)
    ensures AllBelow(order, |ss + [t]|) && IdsFor(ss + [t], order) == IdsFor(ss, order)
  {
    forall i | 0 <= i < |order| ensures IdOf(ss + [t], order[i]) == IdOf(ss, order[i]) {
      IdsStay(ss, [t], order[i]);
    }
  }

  lemma IdsForSplit(ss: seq<Text>, order: seq<nat>, at: nat)
    requires AllBelow(order, |ss|) && at <= |order|
    ensures AllBelow(order[..at], |ss|) && IdsFor(ss, order[..at]) == IdsFor(ss, order)[..at]
    ensures AllBelow(order[at..], |ss|) && IdsFor(ss, order[at..]) == IdsFor(ss, order)[at..]
  {
    hide IdOf;
  }

  lemma IdsForConcat(ss: seq<Text>, front: seq<nat>, back: seq<nat>)
    requires AllBelow(front, |ss|) && AllBelow(back, |ss|)
    ensures AllBelow(front + back, |ss|) && IdsFor(ss, front + back) == IdsFor(ss, front) + IdsFor(ss, back)
  {
    hide IdOf;
  }

  lemma IdsForGrown(ss: seq<Text>, order: seq<nat>, t: Text, at: nat)
    requires at <= |order| && AllBelow(order, |ss|)
    ensures var wider := order[..at] + [|ss|] + order[at..];
      && AllBelow(wider, |ss + [t]|)
      && IdsFor(ss + [t], wider) == IdsFor(ss, order)[..at] + [|Tiled(ss)|] + IdsFor(ss, order)[at..]
  {
    var more := ss + [t];
    assert more[..|ss|] == ss;
    IdsForStay(ss, order, t);
    IdsForSplit(more, order, at);
    assert IdsFor(more, [|ss|]) == [|Tiled(ss)|];
    hide IdsFor, IdOf, Tiled;
    IdsForConcat(more, order[..at], [|ss|]);
    IdsForConcat(more, order[..at] + [|ss|], order[at..]);
  }

  /** The only place at which t can be inserted without disturbing the order. */
  predicate PlaceFor(ss: seq<Text>, order: seq<nat>, t: Text, at: nat)
    requires SortedIndex(ss, order)
  {
    && at <= |order|
    && (forall i :: 0 <= i < at ==> Before(ss[order[i]], t))
    && (forall i :: at <= i < |order| ==> Before(t, ss[order[i]]))
  }

  lemma PlaceIsUnique(ss: seq<Text>, order: seq<nat>, t: Text, at: nat, other: nat)
    requires SortedIndex(ss, order) && PlaceFor(ss, order, t, at) && PlaceFor(ss, order, t, other)
    ensures at == other
  {
    if at < other {
      StrCmpIsAnOrder(ss[order[at]], t);
    } else if other < at {
      StrCmpIsAnOrder(ss[order[other]], t);
    }
  }

  lemma PlaceMeansAbsent(ss: seq<Text>, order: seq<nat>, t: Text, at: nat)
    requires SortedIndex(ss, order) && PlaceFor(ss, order, t, at)
    ensures t !in ss
  {
    forall k | 0 <= k < |ss| ensures ss[k] != t {
      assert k in order;
      var i :| 0 <= i < |order| && order[i] == k;
      StrCmpIsAnOrder(ss[k], t);
    }
  }

  lemma TextsDiffer(ss: seq<Text>, order: seq<nat>, j: nat, k: nat)
    requires SortedIndex(ss, order) && j < |ss| && k < |ss| && ss[j] == ss[k]
    ensures j == k
  {
    assert j in order && k in order;
    var i :| 0 <= i < |order| && order[i] == j;
    var l :| 0 <= l < |order| && order[l] == k;
    StrCmpIsAnOrder(ss[j], ss[k]);
  }

  lemma IndexGrows(ss: seq<Text>, order: seq<nat>, t: Text, at: nat)
    requires SortedIndex(ss, order) && PlaceFor(ss, order, t, at)
    ensures SortedIndex(ss + [t], order[..at] + [|ss|] + order[at..])
  {
    var wider := order[..at] + [|ss|] + order[at..];
    forall k | 0 <= k < |ss| + 1 ensures k in wider {
      if k < |ss| {
        assert k in order;
        var i :| 0 <= i < |order| && order[i] == k;
        assert wider[if i < at then i else i + 1] == k;
      } else {
        assert wider[at] == k;
      }
    }
  }

  // ---- what a run of insertions answers ----

  /** A request to insert a text, and whether the memory it may need can be had. */
  datatype Request = Request(text: Text, memory: bool)

  function IndexOf(ss: seq<Text>, t: Text): (k: nat)
    requires t in ss
    ensures k < |ss| && ss[k] == t
  {
    if ss[0] == t then 0 else 1 + IndexOf(ss[1..], t)
  }

  function Inserted(ss: seq<Text>, r: Request): seq<Text> {
    if r.text == [] || r.text in ss || !r.memory then ss else ss + [r.text]
  }

  /** The id given out, or None for the invalid id. */
  function Reply(ss: seq<Text>, r: Request): Option<nat> {
    if r.text == [] then None
    else if r.text in ss then Some(IdOf(ss, IndexOf(ss, r.text)))
    else if !r.memory then None
    else Some(|Tiled(ss)|)
  }

  /** What `get` finds at an id. */
  function Resolved(ss: seq<Text>, id: nat): Option<Text> {
    if LooksIssued(Tiled(ss), id) then Some(CString(Tiled(ss)[id..])) else None
  }

  function After(ss: seq<Text>, rs: seq<Request>): seq<Text>
    decreases rs
  {
    if rs == [] then ss else After(Inserted(ss, rs[0]), rs[1..])
  }

  function Replies(ss: seq<Text>, rs: seq<Request>): (ids: seq<Option<nat>>)
    ensures |ids| == |rs|
    decreases rs
  {
    if rs == [] then [] else [Reply(ss, rs[0])] + Replies(Inserted(ss, rs[0]), rs[1..])
  }

  predicate AllDiffer(ss: seq<Text>) {
    forall j, k :: 0 <= j < k < |ss| ==> ss[j] != ss[k]
  }

  ghost predicate CStringsOnly(rs: seq<Request>) {
    forall i :: 0 <= i < |rs| ==> IsCString(rs[i].text)
  }

  lemma InsertionKeeps(ss: seq<Text>, r: Request)
    requires AllProper(ss) && AllDiffer(ss) && IsCString(r.text)
    ensures AllProper(Inserted(ss, r)) && AllDiffer(Inserted(ss, r))
  {
  }

  /** Texts are only ever added behind the others. */
  lemma {:induction false} OnlyAppends(ss: seq<Text>, rs: seq<Request>)
    requires AllProper(ss) && AllDiffer(ss) && CStringsOnly(rs)
    ensures AllProper(After(ss, rs)) && AllDiffer(After(ss, rs))
    ensures ss <= After(ss, rs)
    decreases rs
  {
    if rs != [] {
      InsertionKeeps(ss, rs[0]);
      OnlyAppends(Inserted(ss, rs[0]), rs[1..]);
    }
  }

  lemma ResolvesTo(ss: seq<Text>, k: nat)
    requires AllProper(ss) && k < |ss|
    ensures Resolved(ss, IdOf(ss, k)) == Some(ss[k])
  {
    LooksIssuedIffIssued(ss, IdOf(ss, k));
    TextAtId(ss, k, []);
    assert Tiled(ss) + [] == Tiled(ss);
  }

  /** An id resolves exactly if some text of the table has it, and then to that text. */
  lemma ResolvedIffIssued(ss: seq<Text>, id: nat)
    requires AllProper(ss)
    ensures Resolved(ss, id).Some? <==> Issued(ss, id)
    ensures forall k :: 0 <= k < |ss| && IdOf(ss, k) == id ==> Resolved(ss, id) == Some(ss[k])
  {
    LooksIssuedIffIssued(ss, id);
    forall k | 0 <= k < |ss| && IdOf(ss, k) == id ensures Resolved(ss, id) == Some(ss[k]) {
      ResolvesTo(ss, k);
    }
  }

  /** The reply names the place of the text in the table after the request. */
  lemma ReplyNames(ss: seq<Text>, r: Request) returns (k: nat)
    requires AllProper(ss) && AllDiffer(ss) && IsCString(r.text) && Reply(ss, r).Some?
    ensures k < |Inserted(ss, r)| && Inserted(ss, r)[k] == r.text
    ensures Reply(ss, r) == Some(IdOf(Inserted(ss, r), k))
  {
    if r.text in ss {
      k := IndexOf(ss, r.text);
    } else {
      k := |ss|;
      assert (ss + [r.text])[..k] == ss;
    }
  }

  /** An id given out keeps resolving to the text it was given out for, whatever is inserted later. */
  lemma {:induction false} IdsKeepResolving(ss: seq<Text>, rs: seq<Request>, i: nat)
    requires AllProper(ss) && AllDiffer(ss) && CStringsOnly(rs) && i < |rs| && Replies(ss, rs)[i].Some?
    ensures Resolved(After(ss, rs), Replies(ss, rs)[i].value) == Some(rs[i].text)
    decreases i
  {
    var next := Inserted(ss, rs[0]);
    InsertionKeeps(ss, rs[0]);
    if i == 0 {
      var k := ReplyNames(ss, rs[0]);
      OnlyAppends(next, rs[1..]);
      var last := After(ss, rs);
      assert last == next + last[|next|..];
      IdsStay(next, last[|next|..], k);
      ResolvesTo(last, k);
    } else {
      IdsKeepResolving(next, rs[1..], i - 1);
    }
  }

  /** Over every run of insertions, two requests get the same id exactly when their texts agree. */
  lemma SameIdIffSameText(ss: seq<Text>, rs: seq<Request>, i: nat, j: nat)
    requires AllProper(ss) && AllDiffer(ss) && CStringsOnly(rs) && i < j < |rs|
    requires Replies(ss, rs)[i].Some? && Replies(ss, rs)[j].Some?
    ensures Replies(ss, rs)[i] == Replies(ss, rs)[j] <==> rs[i].text == rs[j].text
  {
    IdsKeepResolving(ss, rs, i);
    IdsKeepResolving(ss, rs, j);
    if rs[i].text == rs[j].text {
      var k, last := PlaceOfReply(ss, rs, i);
      var l, _ := PlaceOfReply(ss, rs, j);
      assert k == l;
    }
  }

  lemma {:induction false} PlaceOfReply(ss: seq<Text>, rs: seq<Request>, i: nat) returns (k: nat, last: seq<Text>)
    requires AllProper(ss) && AllDiffer(ss) && CStringsOnly(rs) && i < |rs| && Replies(ss, rs)[i].Some?
    ensures last == After(ss, rs) && AllDiffer(last)
    ensures k < |last| && last[k] == rs[i].text && Replies(ss, rs)[i] == Some(IdOf(last, k))
    decreases i
  {
    last := After(ss, rs);
    OnlyAppends(ss, rs);
    var next := Inserted(ss, rs[0]);
    InsertionKeeps(ss, rs[0]);
    if i == 0 {
      k := ReplyNames(ss, rs[0]);
      OnlyAppends(next, rs[1..]);
      assert last == next + last[|next|..];
      IdsStay(next, last[|next|..], k);
    } else {
      k, last := PlaceOfReply(next, rs[1..], i - 1);
    }
  }

  /** A request is refused exactly when its text is empty, or it is new and there is no memory for it. */
  lemma {:induction false} RefusedIff(ss: seq<Text>, rs: seq<Request>, i: nat)
    requires i < |rs|
    ensures Replies(ss, rs)[i] == None
      <==> rs[i].text == [] || (rs[i].text !in After(ss, rs[..i]) && !rs[i].memory)
    decreases i
  {
    if i > 0 {
      RefusedIff(Inserted(ss, rs[0]), rs[1..], i - 1);
      assert rs[1..][..i - 1] == rs[..i][1..];
    }
  }

  lemma HoldsAfterOne(ss: seq<Text>, r: Request, t: Text)
    ensures t in Inserted(ss, r) <==> t in ss || (t == r.text && Reply(ss, r).Some?)
    ensures Reply(ss, r) == None ==> Inserted(ss, r) == ss
  {
  }

  /** Over every run the dictionary holds exactly the texts it had and those that were given an id. */
  lemma {:induction false} HoldsIffAccepted(ss: seq<Text>, rs: seq<Request>, t: Text)
    ensures t in After(ss, rs) <==>
      t in ss || exists i :: 0 <= i < |rs| && rs[i].text == t && Replies(ss, rs)[i].Some?
    decreases rs
  {
    if rs != [] {
      hide Inserted, Reply;
      var next, rest := Inserted(ss, rs[0]), rs[1..];
      HoldsAfterOne(ss, rs[0], t);
      HoldsIffAccepted(next, rest, t);
      assert forall i :: 0 <= i < |rest| ==> rest[i] == rs[i + 1] && Replies(next, rest)[i] == Replies(ss, rs)[i + 1];
      assert Replies(ss, rs)[0] == Reply(ss, rs[0]);
      if i :| 0 < i < |rs| && rs[i].text == t && Replies(ss, rs)[i].Some? {
        assert rest[i - 1].text == t && Replies(next, rest)[i - 1].Some?;
      }
    }
  }
}
