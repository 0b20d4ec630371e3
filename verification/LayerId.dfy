/** Communication IDs: a stack of layers written as name[params], joined by a separator. */
module LayerId {
  import opened Options
  import opened Bytes
  import opened CStrings

  const OPENING: Byte := 0x5B
  const CLOSING: Byte := 0x5D
  const DOT: Byte := 0x2E

  datatype Layer = Layer(name: Text, params: Text)

  // ---- the notation ----

  /** A layer as written, with whatever follows it. */
  function Written(l: Layer, behind: Text): Text {
    l.name + [OPENING] + (l.params + [CLOSING] + behind)
  }

  function Print(ls: seq<Layer>): Text {
    if ls == [] then []
    else Written(ls[0], if |ls| == 1 then [] else [DOT] + Print(ls[1..]))
  }

  /** The part of s in front of the first c, which is all of s if there is no c. */
  function UpTo(s: Text, c: Byte): (front: Text)
    ensures |front| <= |s| && front == s[..|front|] && c !in front
    ensures |front| < |s| ==> s[|front|] == c
  {
    if s == [] || s[0] == c then [] else [s[0]] + UpTo(s[1..], c)
  }

  lemma {:induction false} UpToFirst(front: Text, c: Byte, rest: Text)
    requires c !in front
    ensures UpTo(front + [c] + rest, c) == front
  {
    if front != [] {
      UpToFirst(front[1..], c, rest);
      assert (front + [c] + rest)[1..] == front[1..] + [c] + rest;
    }
  }

  /** The text behind the first closing bracket that follows an opening one. */
  function Behind(s: Text): (rest: Text)
    ensures s != [] ==> |rest| < |s|
  {
    var name := UpTo(s, OPENING);
    if |name| == |s| then []
    else
      var tail := s[|name| + 1..];
      var params := UpTo(tail, CLOSING);
      if |params| == |tail| then [] else tail[|params| + 1..]
  }

  /** The first layer of s and what is left for the next one. Whatever single character follows the
      closing bracket is taken for the separator. */
  function Extracted(s: Text): (e: Option<(Layer, Text)>)
    ensures e.Some? ==> |e.value.1| < |s|
  {
    var name := UpTo(s, OPENING);
    if |name| == |s| then None
    else
      var tail := s[|name| + 1..];
      var params := UpTo(tail, CLOSING);
      if |params| == |tail| then None
      else Some((Layer(name, params), if Behind(s) == [] then [] else Behind(s)[1..]))
  }

  function Parse(s: Text): (r: Option<seq<Layer>>)
    decreases |s|
  {
    if s == [] then Some([])
    else
      var e := Extracted(s);
      if e.None? then None
      else
        var more := Parse(e.value.1);
        if more.None? then None else Some([e.value.0] + more.value)
  }

  predicate Plain(l: Layer) {
    OPENING !in l.name && CLOSING !in l.params
  }

  ghost predicate AllPlain(ls: seq<Layer>) {
    forall i :: 0 <= i < |ls| ==> Plain(ls[i])
  }

  lemma CutAt(front: Text, c: Byte, rest: Text)
    requires c !in front
    ensures UpTo(front + [c] + rest, c) == front
    ensures (front + [c] + rest)[|front| + 1..] == rest
  {
    UpToFirst(front, c, rest);
  }

  /** A name that holds an opening bracket, or parameters that hold a closing one, come out shortened. */
  lemma ExtractedFirst(l: Layer, behind: Text)
    ensures Plain(l) ==> Extracted(Written(l, behind)) == Some((l, if behind == [] then behind else behind[1..]))
    ensures !Plain(l) ==> Extracted(Written(l, behind)).None? || Extracted(Written(l, behind)).value.0 != l
  {
    var tail := l.params + [CLOSING] + behind;
    hide UpTo;
    if OPENING !in l.name {
      CutAt(l.name, OPENING, tail);
      if CLOSING !in l.params {
        CutAt(l.params, CLOSING, behind);
      }
    }
  }

  lemma AllPlainSplits(ls: seq<Layer>)
    requires ls != []
    ensures AllPlain(ls) <==> Plain(ls[0]) && AllPlain(ls[1..])
  {
    assert forall i :: 0 < i < |ls| ==> ls[i] == ls[1..][i - 1];
  }

  /** Parsing gives back what was printed exactly when no name holds an opening bracket and no
      parameter text a closing one; names may be empty and parameters may hold opening brackets. */
  lemma {:induction false} ParsedBackIff(ls: seq<Layer>)
    ensures Parse(Print(ls)) == Some(ls) <==> AllPlain(ls)
    decreases |ls|
  {
    assert ls == [] ==> AllPlain(ls);
    if ls != [] {
      var behind := if |ls| == 1 then [] else [DOT] + Print(ls[1..]);
      assert Print(ls) == Written(ls[0], behind) != [];
      assert (if behind == [] then behind else behind[1..]) == Print(ls[1..]);
      hide Extracted, Written, Plain, AllPlain, Print;
      ExtractedFirst(ls[0], behind);
      AllPlainSplits(ls);
      if Plain(ls[0]) {
        ParsedBackIff(ls[1..]);
        ParsedFirst(Print(ls), ls, Print(ls[1..]));
      }
    }
  }

  lemma ParsedFirst(s: Text, ls: seq<Layer>, rest: Text)
    requires s != [] && ls != [] && Extracted(s) == Some((ls[0], rest))
    ensures Parse(s) == Some(ls) <==> Parse(rest) == Some(ls[1..])
  {
    hide Extracted;
    assert ls == [ls[0]] + ls[1..];
    assert Parse(rest).Some? ==> ([ls[0]] + Parse(rest).value)[1..] == Parse(rest).value;
  }

  // ---- what else is accepted ----

  /** Each closing bracket ends the ID or is followed by a dot and a further layer. */
  predicate DotSeparated(s: Text)
    decreases |s|
  {
    s == [] || Behind(s) == []
    || (Behind(s)[0] == DOT && |Behind(s)| > 1 && DotSeparated(Behind(s)[1..]))
  }

  lemma SplitTwice(s: Text, i: nat, tail: Text, j: nat)
    requires i < |s| && tail == s[i + 1..] && j < |tail|
    ensures s == s[..i] + [s[i]] + (tail[..j] + [tail[j]] + tail[j + 1..])
  {
    assert tail == tail[..j] + [tail[j]] + tail[j + 1..];
    assert s == s[..i] + [s[i]] + s[i + 1..];
  }

  lemma WrittenAsExtracted(s: Text)
    requires Extracted(s).Some?
    ensures s == Written(Extracted(s).value.0, Behind(s)) && Plain(Extracted(s).value.0)
    ensures Extracted(s).value.1 == if Behind(s) == [] then [] else Behind(s)[1..]
  {
    hide UpTo;
    var name := UpTo(s, OPENING);
    var tail := s[|name| + 1..];
    SplitTwice(s, |name|, tail, |UpTo(tail, CLOSING)|);
  }

  lemma WrittenOnce(l: Layer, a: Text, b: Text)
    ensures Written(l, a) == Written(l, b) <==> a == b
  {
    var i := |l.name| + 1 + |l.params| + 1;
    assert Written(l, a)[i..] == a && Written(l, b)[i..] == b;
  }

  lemma ParsedHead(s: Text)
    requires s != [] && Parse(s).Some?
    ensures Extracted(s).Some?
    ensures var (l, rest) := Extracted(s).value;
      Parse(rest).Some? && Parse(s).value == [l] + Parse(rest).value
  {
  }

  lemma PrintedHead(l: Layer, more: seq<Layer>)
    ensures Print([l] + more) == Written(l, if more == [] then [] else [DOT] + Print(more))
  {
    assert ([l] + more)[1..] == more;
  }

  lemma DotStep(s: Text, rest: Text, printed: Text)
    requires s != [] && rest == (if Behind(s) == [] then [] else Behind(s)[1..])
    requires printed == rest <==> DotSeparated(rest)
    requires printed == [] <==> rest == []
    ensures DotSeparated(s) <==> (if rest == [] then [] else [DOT] + printed) == Behind(s)
  {
    hide Behind;
    if Behind(s) != [] {
      assert Behind(s) == [Behind(s)[0]] + rest;
    }
  }

  lemma PrintedNotEmpty(ls: seq<Layer>)
    ensures Print(ls) == [] <==> ls == []
  {
  }

  lemma ParsedEmpty(s: Text)
    requires Parse(s).Some?
    ensures Parse(s).value == [] <==> s == []
  {
  }

  /** An ID that parses is the print of what it parses into exactly if its layers are separated by
      dots and none follows the last one. Every other ID that parses is accepted all the same. */
  lemma {:induction false} PrintedAgainIff(s: Text)
    requires Parse(s).Some?
    ensures Print(Parse(s).value) == s <==> DotSeparated(s)
    decreases |s|
  {
    if s != [] {
      ParsedHead(s);
      WrittenAsExtracted(s);
      var (l, rest) := Extracted(s).value;
      hide Extracted, Written, Print, Parse, Behind, DotSeparated;
      var more := Parse(rest).value;
      ParsedEmpty(rest);
      PrintedNotEmpty(more);
      PrintedAgainIff(rest);
      PrintedHead(l, more);
      DotStep(s, rest, Print(more));
      WrittenOnce(l, if more == [] then [] else [DOT] + Print(more), Behind(s));
    }
  }

  /** The parser accepts exactly these texts beyond the printed ones. */
  lemma PrintedIff(s: Text)
    ensures (exists ls :: AllPlain(ls) && Print(ls) == s) <==> Parse(s).Some? && DotSeparated(s)
  {
    if Parse(s).Some? && DotSeparated(s) {
      PrintedAgainIff(s);
      ParsedBackIff(Parse(s).value);
    }
    if ls :| AllPlain(ls) && Print(ls) == s {
      ParsedBackIff(ls);
      PrintedAgainIff(s);
    }
  }

  /** What a layer and any text behind it parse into. */
  lemma ParsedFrom(l: Layer, behind: Text)
    requires Plain(l)
    ensures var s, more := Written(l, behind), Parse(if behind == [] then [] else behind[1..]);
      && Parse(s) == (if more.None? then None else Some([l] + more.value))
      && Behind(s) == behind
  {
    var s := Written(l, behind);
    assert s != [];
    ExtractedFirst(l, behind);
    WrittenAsExtracted(s);
    WrittenOnce(l, behind, Behind(s));
    hide Extracted, Behind, Written;
  }

  /** Any separator is accepted, also with nothing behind it; only the dot in front of another layer
      keeps an ID dot-separated. */
  lemma SeparatorAccepted(l: Layer, c: Byte, rest: Text)
    requires Plain(l)
    ensures var s := Written(l, [c] + rest);
      && Parse(s) == (if Parse(rest).None? then None else Some([l] + Parse(rest).value))
      && (DotSeparated(s) <==> c == DOT && rest != [] && DotSeparated(rest))
  {
    var behind := [c] + rest;
    assert behind != [] && behind[1..] == rest;
    ParsedFrom(l, behind);
    assert Written(l, behind) != [];
    hide Written, Behind, Parse;
  }

  lemma OneLayerParsed(l: Layer)
    requires Plain(l)
    ensures Parse(Written(l, [])) == Some([l])
  {
    ParsedFrom(l, []);
    assert Parse([]) == Some([]);
    assert [l] + [] == [l];
  }

  lemma WrittenShort(x: Byte, y: Byte, behind: Text)
    ensures Written(Layer([x], [y]), behind) == [x, 0x5B, y, 0x5D] + behind
  {
  }

  /** For example a[b].c[d] is what two layers are written as, and a[b]Xc[d] is taken for the same. */
  lemma AcceptedThoughNotDotSeparated()
    ensures var a, b := Layer([0x61], [0x62]), Layer([0x63], [0x64]);
      var s: Text := [0x61, 0x5B, 0x62, 0x5D] + ([0x58] + [0x63, 0x5B, 0x64, 0x5D]);
      && Print([a, b]) == [0x61, 0x5B, 0x62, 0x5D] + ([0x2E] + [0x63, 0x5B, 0x64, 0x5D])
      && Parse(s) == Some([a, b]) && !DotSeparated(s)
  {
    var a, b := Layer([0x61], [0x62]), Layer([0x63], [0x64]);
    var second: Text := [0x63, 0x5B, 0x64, 0x5D];
    OneLayerParsed(b);
    SeparatorAccepted(a, 0x58, second);
    assert [a] + [b] == [a, b] && [b] + [] == [b];
    PrintedHead(a, [b]);
    PrintedHead(b, []);
    hide Parse, DotSeparated, Written, Print;
    WrittenShort(0x63, 0x64, []);
    assert second + [] == second;
    WrittenShort(0x61, 0x62, [0x58] + second);
    WrittenShort(0x61, 0x62, [0x2E] + second);
  }

  // ---- the stack of layers ----

  datatype ComResponse = InitOk | InitInvalidId | OpenFailed(code: nat)

  /** Which layers the layer manager knows, and how their opening goes. */
  datatype Environment = Environment(known: Text -> bool, opens: Layer -> ComResponse)

  /** The layers created, topmost first, and the response. */
  datatype Stack = Stack(layers: seq<Layer>, response: ComResponse)

  function Stacked(s: Text, env: Environment, last: ComResponse): (st: Stack)
    decreases |s|
  {
    if s == [] then Stack([], last)
    else
      var e := Extracted(s);
      if e.None? || !env.known(e.value.0.name) then Stack([], InitInvalidId)
      else
        var l, r := e.value.0, env.opens(e.value.0);
        if r != InitOk then Stack([l], r)
        else
          var lower := Stacked(e.value.1, env, InitOk);
          Stack([l] + lower.layers, lower.response)
  }

  ghost predicate AllOpen(ls: seq<Layer>, env: Environment) {
    forall i :: 0 <= i < |ls| ==> env.known(ls[i].name) && env.opens(ls[i]) == InitOk
  }

  lemma AllOpenSplits(l: Layer, ls: seq<Layer>, env: Environment)
    ensures AllOpen([l] + ls, env) <==> env.known(l.name) && env.opens(l) == InitOk && AllOpen(ls, env)
  {
    var all := [l] + ls;
    assert all[0] == l;
    assert forall i :: 0 <= i < |ls| ==> ls[i] == all[i + 1];
  }

  /** A stack comes up exactly for an ID that parses into layers all of which are known and open,
      and it is then made of these layers. */
  lemma {:induction false} StackIsUpIff(s: Text, env: Environment, last: ComResponse)
    ensures Stacked(s, env, last).response == InitOk
      <==> (if s == [] then last == InitOk else Parse(s).Some? && AllOpen(Parse(s).value, env))
    ensures Stacked(s, env, last).response == InitOk ==> Parse(s) == Some(Stacked(s, env, last).layers)
    decreases |s|
  {
    hide Extracted, AllOpen;
    if s != [] && Extracted(s).Some? {
      var (l, rest) := Extracted(s).value;
      StackIsUpIff(rest, env, InitOk);
      NothingOpen(env);
      if Parse(rest).Some? {
        AllOpenSplits(l, Parse(rest).value, env);
      }
    }
  }

  lemma NothingOpen(env: Environment)
    ensures AllOpen([], env)
  {
  }

  /** The layers that can be taken off an ID one after the other, up to where it does not parse. */
  function Leading(s: Text): seq<Layer>
    decreases |s|
  {
    if s == [] || Extracted(s).None? then [] else [Extracted(s).value.0] + Leading(Extracted(s).value.1)
  }

  lemma {:induction false} LeadingParsed(s: Text)
    ensures Parse(s).Some? ==> Leading(s) == Parse(s).value
    decreases |s|
  {
    hide Extracted;
    if s != [] && Extracted(s).Some? {
      LeadingParsed(Extracted(s).value.1);
    }
  }

  /** Which failure is answered, and which layers are there then: the layers of the ID are created in
      turn, up to the first that is unknown, which is not, or that fails to open, which is. */
  lemma {:induction false} StackEndsAt(s: Text, env: Environment, last: ComResponse) returns (k: nat)
    ensures var ls := Leading(s);
      && k <= |ls| && (forall i :: 0 <= i < k ==> env.known(ls[i].name) && env.opens(ls[i]) == InitOk)
      && (k < |ls| ==> !env.known(ls[k].name) || env.opens(ls[k]) != InitOk)
      && Stacked(s, env, last) ==
        if k < |ls| && !env.known(ls[k].name) then Stack(ls[..k], InitInvalidId)
        else if k < |ls| then Stack(ls[..k + 1], env.opens(ls[k]))
        else Stack(ls, if s == [] then last else if Parse(s).Some? then InitOk else InitInvalidId)
    decreases |s|
  {
    hide Extracted;
    k := 0;
    if s != [] && Extracted(s).Some? {
      var (l, rest) := Extracted(s).value;
      var ls, more := Leading(s), Leading(rest);
      assert ls == [l] + more;
      if env.known(l.name) && env.opens(l) == InitOk {
        k := StackEndsAt(rest, env, InitOk);
        OneMore(l, more, k);
        k := k + 1;
      } else {
        assert ls[..1] == [l] && ls[..0] == [];
      }
    }
  }

  lemma OneMore(l: Layer, ls: seq<Layer>, k: nat)
    requires k <= |ls|
    ensures ([l] + ls)[..k + 1] == [l] + ls[..k] && (k < |ls| ==> ([l] + ls)[..k + 2] == [l] + ls[..k + 1])
    ensures forall i :: 0 < i <= k && i <= |ls| ==> ([l] + ls)[i] == ls[i - 1]
    ensures k < |ls| ==> ([l] + ls)[k + 1] == ls[k]
  {
  }

  /** Every stack that can be written down and opens comes up as it was written. */
  lemma WrittenStackComesUp(ls: seq<Layer>, env: Environment)
    requires ls != [] && AllPlain(ls)
    ensures Stacked(Print(ls), env, InitInvalidId).response == InitOk <==> AllOpen(ls, env)
    ensures AllOpen(ls, env) ==> Stacked(Print(ls), env, InitInvalidId).layers == ls
  {
    ParsedBackIff(ls);
    StackIsUpIff(Print(ls), env, InitInvalidId);
  }

  // ---- the parser, which cuts the ID in place ----

  /** id[from..limit] is a C string, terminated at limit. */
  predicate TextAt(id: seq<Byte>, from: nat, limit: nat) {
    from <= limit < |id| && id[limit] == 0 && IsCString(id[from..limit])
  }

  method StrChr(id: array<Byte>, from: nat, c: Byte, ghost limit: nat) returns (at: Option<nat>)
    requires TextAt(id[..], from, limit) && c != 0
    ensures var front := UpTo(id[from..limit], c);
      at == if |front| < limit - from then Some(from + |front|) else None
  {
    hide UpTo;
    var i := from;
    ghost var text := id[from..limit];
    assert forall k :: from <= k < limit ==> id[k] == text[k - from];
    while id[i] != 0
      invariant from <= i <= limit
      invariant c !in id[from..i]
      decreases limit - i
    {
      if id[i] == c {
        CutAt(id[from..i], c, id[i + 1..limit]);
        assert text == id[from..i] + [c] + id[i + 1..limit];
        return Some(i);
      }
      i := i + 1;
    }
    at := None;
  }

  lemma Terminated(id: seq<Byte>, from: nat, to: nat)
    requires from <= to < |id| && id[to] == 0 && IsCString(id[from..to])
    ensures CString(id[from..]) == id[from..to]
  {
    CStringOf(id[from..to], id[to + 1..]);
    assert id[from..] == id[from..to] + [0] + id[to + 1..];
  }

  lemma SuffixOfText(id: seq<Byte>, from: nat, later: nat, limit: nat)
    requires TextAt(id, from, limit) && from <= later <= limit
    ensures TextAt(id, later, limit) && id[later..limit] == id[from..limit][later - from..]
  {
    assert forall k :: later <= k < limit ==> id[k] == id[from..limit][k - from];
  }

  /** Finds the bracket and puts a zero in its place. */
  method CutAtBracket(id: array<Byte>, from: nat, c: Byte, ghost limit: nat) returns (at: Option<nat>)
    requires TextAt(id[..], from, limit) && c != 0
    modifies id
    ensures var text := old(id[from..limit]);
      var front := UpTo(text, c);
      if |front| == |text| then at == None
      else
        && at == Some(from + |front|) && from + |front| < limit
        && id[from..at.value] == front && id[at.value] == 0 && IsCString(front)
        && TextAt(id[..], at.value + 1, limit) && id[at.value + 1..limit] == text[|front| + 1..]
    ensures forall k :: 0 <= k < id.Length && at != Some(k) ==> id[k] == old(id[k])
  {
    ghost var text := id[from..limit];
    ghost var front := UpTo(text, c);
    at := StrChr(id, from, c, limit);
    if at.Some? {
      SuffixOfText(id[..], from, at.value + 1, limit);
      assert forall k :: from <= k < limit ==> id[k] == text[k - from];
      assert IsCString(front);
      hide UpTo;
      ghost var tail := id[at.value + 1..limit];
      id[at.value] := 0;
      assert id[at.value + 1..limit] == tail;
      assert id[from..at.value] == front;
    }
  }

  /** Cuts the first layer off. The name and the parameters stay where they are, each ended by a
      zero in the place of its bracket; `remaining` moves behind them or becomes a null pointer. */
  method ExtractLayerIdAndParams(id: array<Byte>, remaining: nat, params: nat, ghost limit: nat)
    returns (layerId: nat, rest: Option<nat>, newParams: nat)
    requires TextAt(id[..], remaining, limit) && remaining < limit
    modifies id
    ensures layerId == remaining
    ensures var e := Extracted(old(id[remaining..limit]));
      && (e.Some? <==> rest.Some?)
      && (e.Some? ==>
            && TextAt(id[..], rest.value, limit) && id[rest.value..limit] == e.value.1
            && newParams < id.Length && CString(id[newParams..]) == e.value.0.params
            && CString(id[remaining..]) == e.value.0.name)
  {
    hide UpTo, CString, IsCString;
    layerId, newParams, rest := remaining, params, None;
    ghost var s := id[remaining..limit];
    ghost var name := UpTo(s, OPENING);
    var opening := CutAtBracket(id, remaining, OPENING, limit);
    if opening.Some? {
      newParams := opening.value + 1;
      ghost var behind := id[newParams..limit];
      var closing := CutAtBracket(id, newParams, CLOSING, limit);
      assert id[remaining..opening.value] == name;
      Terminated(id[..], remaining, opening.value);
      assert id[..][remaining..] == id[remaining..];
      if closing.Some? {
        Terminated(id[..], newParams, closing.value);
        assert id[..][newParams..] == id[newParams..];
        var next := SkipSeparator(id, closing.value + 1, limit);
        rest := Some(next);
      }
    }
  }

  method SkipSeparator(id: array<Byte>, from: nat, ghost limit: nat) returns (next: nat)
    requires TextAt(id[..], from, limit)
    ensures TextAt(id[..], next, limit)
    ensures id[next..limit] == if id[from..limit] == [] then [] else id[from..limit][1..]
  {
    next := from;
    EmptyIffAtEnd(id[..], from, limit);
    if id[next] != 0 {
      SuffixOfText(id[..], from, from + 1, limit);
      next := next + 1;
    }
  }

  lemma EmptyIffAtEnd(id: seq<Byte>, from: nat, limit: nat)
    requires TextAt(id, from, limit)
    ensures id[from] == 0 <==> id[from..limit] == []
  {
    assert from < limit ==> id[from..limit][0] != 0;
  }

  /** Builds the stack from the top: every layer is created and opened before the next is looked at.
      No layer has an empty name; with one, an ID like "[" would make the loop follow a null pointer. */
  method CreateComstack(id: array<Byte>, env: Environment, ghost limit: nat) returns (stack: Stack)
    requires TextAt(id[..], 0, limit)
    requires !env.known([])
    modifies id
    ensures stack == Stacked(old(id[..limit]), env, InitInvalidId)
  {
    ghost var text := id[..limit];
    var layers: seq<Layer>, response: ComResponse := [], InitInvalidId;
    var commId, layerParams := 0, 0;
    while id[commId] != 0
      invariant commId <= limit && TextAt(id[..], commId, limit)
      invariant Extends(layers, Stacked(id[commId..limit], env, response)) == Stacked(text, env, InitInvalidId)
      decreases limit - commId
    {
      ghost var rest := id[commId..limit];
      EmptyIffAtEnd(id[..], commId, limit);
      var layerId, remaining, newParams := ExtractLayerIdAndParams(id, commId, layerParams, limit);
      layerParams := newParams;
      if remaining.None? && id[layerId] != 0 {
        return Stack(layers, InitInvalidId);
      }
      var name := CString(id[layerId..]);
      if !env.known(name) {
        return Stack(layers, InitInvalidId);
      }
      var layer := Layer(name, CString(id[layerParams..]));
      layers := layers + [layer];
      response := env.opens(layer);
      if response != InitOk {
        return Stack(layers, response);
      }
      commId := remaining.value;
    }
    EmptyIffAtEnd(id[..], commId, limit);
    stack := Stack(layers, response);
  }

  ghost function Extends(upper: seq<Layer>, st: Stack): Stack {
    Stack(upper + st.layers, st.response)
  }
}
