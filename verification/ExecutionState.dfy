/** The execution states of function blocks, and state commands that travel through composite
    blocks, containers and resources. */
module ExecutionState {
  import opened Sequences
  import opened Options
  import opened Management

  datatype State = Running | Idle | Stopped | Killed

  datatype Command = Start | Stop | Kill | Reset | OtherCommand

  /** The state a block goes to, or None for a command that its state does not admit. */
  function Next(s: State, cmd: Command): Option<State> {
    match cmd
    case Start => if s == Idle || s == Stopped then Some(Running) else None
    case Stop => if s == Running then Some(Stopped) else None
    case Kill => if s == Running then Some(Killed) else None
    case Reset => if s == Stopped || s == Killed then Some(Idle) else None
    case OtherCommand => None
  }

  function Refusal(cmd: Command): Response {
    if cmd == OtherCommand then INVALID_OPERATION else INVALID_STATE
  }

  function Adapted(s: State, cmd: Command): State {
    if Next(s, cmd).Some? then Next(s, cmd).value else s
  }

  /** A function block with the states of its adapters; a composite has internal blocks, a resource
      holds a container. */
  datatype Block = Block(name: nat, deletable: bool, state: State, adapters: seq<State>,
                         internals: seq<Block>, inside: Option<Container>)

  /** A container with its function blocks and subcontainers, both in the order of their creation. */
  datatype Container = Container(name: nat, blocks: seq<Block>, subs: seq<Container>)

  // ---- the command, as it is passed on from part to part ----

  /** The block's own state, and that of its adapters, whose responses are ignored. */
  function ChangedItself(b: Block, cmd: Command): Block {
    if Next(b.state, cmd).None? then b
    else b.(state := Next(b.state, cmd).value,
            adapters := seq(|b.adapters|, i requires 0 <= i < |b.adapters| => Adapted(b.adapters[i], cmd)))
  }

  function Change(b: Block, cmd: Command): (r: (Block, Response))
    ensures r.0.name == b.name && r.0.deletable == b.deletable
    decreases b, 1
  {
    if Next(b.state, cmd).None? then (b, Refusal(cmd))
    else
      var (internals, inside, response) := ChangeBelow(b, cmd);
      (ChangedItself(b, cmd).(internals := internals, inside := inside), response)
  }

  /** The internal blocks, then the container. */
  function ChangeBelow(b: Block, cmd: Command): (r: (seq<Block>, Option<Container>, Response))
    ensures r.1.Some? == b.inside.Some?
    decreases b, 0
  {
    var (internals, response) := ChangeAll(b.internals, cmd);
    if response == RDY && b.inside.Some? then
      var (inside, response) := ChangeContained(b.inside.value, cmd);
      (internals, Some(inside), response)
    else
      (internals, b.inside, response)
  }

  /** One block after the other, up to the first that refuses. */
  function ChangeAll(bs: seq<Block>, cmd: Command): (r: (seq<Block>, Response))
    ensures |r.0| == |bs|
    decreases bs, 0
  {
    if bs == [] then ([], RDY)
    else
      var (b, response) := Change(bs[0], cmd);
      if response != RDY then ([b] + bs[1..], response)
      else
        var (rest, response) := ChangeAll(bs[1..], cmd);
        ([b] + rest, response)
  }

  function ChangeAllSubs(cs: seq<Container>, cmd: Command): (r: (seq<Container>, Response))
    ensures |r.0| == |cs|
    decreases cs, 0
  {
    if cs == [] then ([], RDY)
    else
      var (c, response) := ChangeContained(cs[0], cmd);
      if response != RDY then ([c] + cs[1..], response)
      else
        var (rest, response) := ChangeAllSubs(cs[1..], cmd);
        ([c] + rest, response)
  }

  /** The subcontainers first, then the blocks. */
  function ChangeContained(c: Container, cmd: Command): (r: (Container, Response))
    ensures r.0.name == c.name
    decreases c
  {
    var (subs, response) := ChangeAllSubs(c.subs, cmd);
    if response != RDY then (c.(subs := subs), response)
    else
      var (blocks, response) := ChangeAll(c.blocks, cmd);
      (c.(subs := subs, blocks := blocks), response)
  }

  // ---- the same command on the list of all states ----

  /** The states of a block and of everything below it, in the order in which a command comes by. */
  function States(b: Block): (ss: seq<State>)
    ensures |ss| > 0 && ss[0] == b.state
    decreases b, 1
  {
    [b.state] + StatesBelow(b)
  }

  function StatesBelow(b: Block): seq<State>
    decreases b, 0
  {
    StatesOfAll(b.internals) + if b.inside.Some? then StatesInside(b.inside.value) else []
  }

  function StatesOfAll(bs: seq<Block>): seq<State>
    decreases bs, 0
  {
    if bs == [] then [] else States(bs[0]) + StatesOfAll(bs[1..])
  }

  function StatesOfSubs(cs: seq<Container>): seq<State>
    decreases cs, 0
  {
    if cs == [] then [] else StatesInside(cs[0]) + StatesOfSubs(cs[1..])
  }

  function StatesInside(c: Container): seq<State>
    decreases c
  {
    StatesOfSubs(c.subs) + StatesOfAll(c.blocks)
  }

  /** A command on a plain list of states, up to the first that does not admit it. */
  function Swept(ss: seq<State>, cmd: Command): (r: (seq<State>, Response))
    ensures |r.0| == |ss|
  {
    if ss == [] then ([], RDY)
    else if Next(ss[0], cmd).None? then (ss, Refusal(cmd))
    else
      var (rest, response) := Swept(ss[1..], cmd);
      ([Next(ss[0], cmd).value] + rest, response)
  }

  predicate Admits(ss: seq<State>, cmd: Command) {
    forall i :: 0 <= i < |ss| ==> Next(ss[i], cmd).Some?
  }

  lemma {:induction false} SweptConcat(ss: seq<State>, ts: seq<State>, cmd: Command)
    ensures Swept(ss + ts, cmd) ==
      if Swept(ss, cmd).1 == RDY then (Swept(ss, cmd).0 + Swept(ts, cmd).0, Swept(ts, cmd).1)
      else (Swept(ss, cmd).0 + ts, Swept(ss, cmd).1)
  {
    if ss == [] {
      assert ss + ts == ts && ss + Swept(ts, cmd).0 == Swept(ts, cmd).0;
    } else {
      SweptConcat(ss[1..], ts, cmd);
      assert (ss + ts)[0] == ss[0] && (ss + ts)[1..] == ss[1..] + ts;
      if Next(ss[0], cmd).Some? {
        var first, rest := [Next(ss[0], cmd).value], Swept(ss[1..], cmd).0;
        Regroup(first, rest, Swept(ts, cmd).0);
        Regroup(first, rest, ts);
      }
    }
  }

  /** What a sweep does: it is answered with RDY exactly if every state admits the command, and it
      changes exactly the states in front of the first that does not. */
  lemma {:induction false} SweptMeans(ss: seq<State>, cmd: Command) returns (k: nat)
    ensures k <= |ss| && (k < |ss| ==> Next(ss[k], cmd).None?)
    ensures forall i :: 0 <= i < k ==> Next(ss[i], cmd).Some?
    ensures Swept(ss, cmd).1 == if k == |ss| then RDY else Refusal(cmd)
    ensures forall i :: 0 <= i < |ss| ==> Swept(ss, cmd).0[i] == if i < k then Next(ss[i], cmd).value else ss[i]
  {
    if ss == [] || Next(ss[0], cmd).None? {
      k := 0;
    } else {
      k := SweptMeans(ss[1..], cmd);
      k := k + 1;
      assert forall i :: 0 < i < |ss| ==> ss[i] == ss[1..][i - 1];
    }
  }

  // ---- the two agree ----

  /** A command on a block, however deep, is the sweep over the states below it. */
  lemma {:induction false} ChangeIsSweep(b: Block, cmd: Command)
    ensures (States(Change(b, cmd).0), Change(b, cmd).1) == Swept(States(b), cmd)
    decreases b, 1
  {
    if Next(b.state, cmd).Some? {
      ChangeBelowIsSweep(b, cmd);
      assert States(b)[1..] == StatesBelow(b);
    }
  }

  lemma {:induction false} ChangeBelowIsSweep(b: Block, cmd: Command)
    ensures var (internals, inside, response) := ChangeBelow(b, cmd);
      (StatesBelow(b.(internals := internals, inside := inside)), response) == Swept(StatesBelow(b), cmd)
    decreases b, 0
  {
    ChangeAllIsSweep(b.internals, cmd);
    if b.inside.Some? {
      ChangeContainedIsSweep(b.inside.value, cmd);
      SweptConcat(StatesOfAll(b.internals), StatesInside(b.inside.value), cmd);
    } else {
      var (internals, inside, _) := ChangeBelow(b, cmd);
      assert StatesBelow(b) == StatesOfAll(b.internals);
      assert StatesBelow(b.(internals := internals, inside := inside)) == StatesOfAll(internals);
    }
  }

  lemma {:induction false} ChangeAllIsSweep(bs: seq<Block>, cmd: Command)
    ensures (StatesOfAll(ChangeAll(bs, cmd).0), ChangeAll(bs, cmd).1) == Swept(StatesOfAll(bs), cmd)
    decreases bs, 0
  {
    if bs != [] {
      ChangeIsSweep(bs[0], cmd);
      ChangeAllIsSweep(bs[1..], cmd);
      SweptConcat(States(bs[0]), StatesOfAll(bs[1..]), cmd);
    }
  }

  lemma {:induction false} ChangeAllSubsIsSweep(cs: seq<Container>, cmd: Command)
    ensures (StatesOfSubs(ChangeAllSubs(cs, cmd).0), ChangeAllSubs(cs, cmd).1) == Swept(StatesOfSubs(cs), cmd)
    decreases cs, 0
  {
    if cs != [] {
      ChangeContainedIsSweep(cs[0], cmd);
      ChangeAllSubsIsSweep(cs[1..], cmd);
      SweptConcat(StatesInside(cs[0]), StatesOfSubs(cs[1..]), cmd);
    }
  }

  lemma {:induction false} ChangeContainedIsSweep(c: Container, cmd: Command)
    ensures (StatesInside(ChangeContained(c, cmd).0), ChangeContained(c, cmd).1) == Swept(StatesInside(c), cmd)
    decreases c
  {
    ChangeAllSubsIsSweep(c.subs, cmd);
    ChangeAllIsSweep(c.blocks, cmd);
    SweptConcat(StatesOfSubs(c.subs), StatesOfAll(c.blocks), cmd);
  }

  /** RDY means that every block below reached the target of the command, and the command is
      answered with RDY exactly if every block below admits it. */
  lemma ReadyIffAllAdmit(b: Block, cmd: Command)
    ensures Change(b, cmd).1 == RDY <==> Admits(States(b), cmd)
    ensures |States(Change(b, cmd).0)| == |States(b)|
    ensures Change(b, cmd).1 == RDY ==>
      forall i :: 0 <= i < |States(b)| ==> Next(States(b)[i], cmd) == Some(States(Change(b, cmd).0)[i])
  {
    ChangeIsSweep(b, cmd);
    var k := SweptMeans(States(b), cmd);
  }

  /** A command that fails leaves the tree as it was exactly if it is the root that does not admit it;
      if it fails further down, the blocks in front are changed. */
  lemma FailureChangesNothingIff(b: Block, cmd: Command)
    requires Change(b, cmd).1 != RDY
    ensures Change(b, cmd).0 == b <==> Next(b.state, cmd).None?
  {
    RootMoves(b, cmd);
    hide Change;
  }

  lemma RootMoves(b: Block, cmd: Command)
    ensures Next(b.state, cmd).None? ==> Change(b, cmd).0 == b
    ensures Next(b.state, cmd).Some? ==> Change(b, cmd).0.state == Next(b.state, cmd).value != b.state
  {
    hide ChangeBelow;
  }

  predicate AllAre(ss: seq<State>, s: State) {
    forall i :: 0 <= i < |ss| ==> ss[i] == s
  }

  lemma RefusedUnchanged(b: Block, cmd: Command)
    requires Next(b.state, cmd).None?
    ensures Change(b, cmd) == (b, Refusal(cmd))
  {
  }

  /** Where all states agree, the root alone decides, and all states still agree afterwards. */
  lemma UniformStaysUniform(b: Block, cmd: Command)
    requires AllAre(States(b), b.state)
    ensures Change(b, cmd).1 == RDY <==> Next(b.state, cmd).Some?
    ensures AllAre(States(Change(b, cmd).0), Change(b, cmd).0.state)
    ensures Change(b, cmd).1 == RDY ==> Change(b, cmd).0.state == Next(b.state, cmd).value
  {
    hide States, Change;
    ReadyIffAllAdmit(b, cmd);
    assert States(b)[0] == b.state;
    var after := Change(b, cmd).0;
    if Next(b.state, cmd).Some? {
      forall i | 0 <= i < |States(after)| ensures States(after)[i] == Next(b.state, cmd).value {
        assert States(b)[i] == b.state;
      }
    } else {
      RefusedUnchanged(b, cmd);
    }
  }

  // ---- what a new block starts with ----

  /** A function block type: its adapters, the parts of a composite, and whether it is a resource. */
  datatype FBType = FBType(adapters: nat, parts: seq<Part>, resource: bool)

  datatype Part = Part(name: nat, fbType: FBType)

  /** A block as its constructor leaves it: the parts of a composite are complete, itself is killed. */
  function Constructed(p: Part): Block
    decreases p, 0
  {
    Block(p.name, true, Killed, seq(p.fbType.adapters, _ => Killed), NewParts(p.fbType.parts),
          if p.fbType.resource then Some(Container(0, [], [])) else None)
  }

  /** After construction a block is sent a reset, whose response is ignored. */
  function NewBlock(p: Part): (b: Block)
    ensures b.name == p.name && b.deletable
    decreases p, 1
  {
    Change(Constructed(p), Reset).0
  }

  function NewParts(parts: seq<Part>): seq<Block>
    decreases parts, 0
  {
    if parts == [] then [] else [NewBlock(parts[0])] + NewParts(parts[1..])
  }

  /** The reset of a composite is refused by its parts, and still a new block is idle throughout. */
  lemma {:induction false} NewBlockIsIdle(p: Part)
    ensures AllAre(States(NewBlock(p)), Idle)
    decreases p, 1
  {
    var b := Constructed(p);
    NewPartsAreIdle(p.fbType.parts);
    assert StatesBelow(b) == StatesOfAll(b.internals) by {
      if p.fbType.resource {
        assert StatesInside(b.inside.value) == [];
      }
    }
    ChangeIsSweep(b, Reset);
    assert States(b)[1..] == StatesBelow(b);
    assert Swept(StatesBelow(b), Reset).0 == StatesBelow(b);
  }

  lemma {:induction false} NewPartsAreIdle(parts: seq<Part>)
    ensures AllAre(StatesOfAll(NewParts(parts)), Idle)
    decreases parts, 0
  {
    if parts != [] {
      NewBlockIsIdle(parts[0]);
      NewPartsAreIdle(parts[1..]);
      assert NewParts(parts)[1..] == NewParts(parts[1..]);
    }
  }

  // ---- adapters, whose responses nobody looks at ----

  /** Adapters are in the state of their block. */
  predicate InStep(b: Block) {
    forall i :: 0 <= i < |b.adapters| ==> b.adapters[i] == b.state
  }

  /** Being in step, no adapter ever refuses what its block accepts, so nothing is lost by not looking. */
  lemma AdaptersStayInStep(b: Block, cmd: Command)
    requires InStep(b)
    ensures InStep(Change(b, cmd).0)
    ensures Next(b.state, cmd).Some? ==> forall i :: 0 <= i < |b.adapters| ==> Next(b.adapters[i], cmd).Some?
  {
  }

  // ---- a block that is late ----

  /** The resource with one more block. */
  function WithBlock(r: Block, b: Block): Block
    requires r.inside.Some?
  {
    r.(inside := Some(r.inside.value.(blocks := r.inside.value.blocks + [b])))
  }

  lemma StatesWithBlock(r: Block, b: Block)
    requires r.inside.Some?
    ensures States(WithBlock(r, b)) == States(r) + States(b)
  {
    var c := r.inside.value;
    StatesOfConcat(c.blocks, [b]);
    assert StatesOfAll([b]) == States(b);
    hide States, StatesOfAll, StatesOfSubs;
    Regroup(StatesOfSubs(c.subs), StatesOfAll(c.blocks), States(b));
    Regroup(StatesOfAll(r.internals), StatesInside(c), States(b));
    Regroup([r.state], StatesBelow(r), States(b));
    StatesAre(r);
    StatesAre(WithBlock(r, b));
  }

  lemma StatesAre(b: Block)
    ensures States(b) == [b.state] + StatesBelow(b)
  {
  }

  /** Stopping a resource that runs throughout, except for a new block, fails, and leaves everything
      stopped but the new block. */
  lemma NewBlockBlocksStop(r: Block, p: Part)
    requires r.inside.Some? && AllAre(States(r), Running)
    ensures var (after, response) := Change(WithBlock(r, NewBlock(p)), Stop);
      && response == INVALID_STATE
      && |States(after)| == |States(r)| + |States(NewBlock(p))|
      && forall i :: 0 <= i < |States(after)| ==> States(after)[i] == if i < |States(r)| then Stopped else Idle
  {
    hide States, Change, WithBlock, NewBlock;
    var newcomer := NewBlock(p);
    var late := WithBlock(r, newcomer);
    StatesWithBlock(r, newcomer);
    NewBlockIsIdle(p);
    ChangeIsSweep(late, Stop);
    var k := SweptMeans(States(late), Stop);
    assert States(late)[|States(r)|] == States(newcomer)[0] == Idle;
    assert k == |States(r)|;
  }

  /** A command that has got past the root cannot be sent again to finish what it left undone. */
  lemma NoCommandTwice(b: Block, cmd: Command)
    requires Next(b.state, cmd).Some?
    ensures var halfway := Change(b, cmd).0;
      Change(halfway, cmd) == (halfway, Refusal(cmd))
  {
    var halfway := Change(b, cmd).0;
    assert halfway.state == Next(b.state, cmd).value;
    RefusedUnchanged(halfway, cmd);
  }

  /** The way out of the half-stopped resource is to start it: then everything runs, the new block too. */
  lemma StartRecovers(r: Block, p: Part)
    requires r.inside.Some? && AllAre(States(r), Running)
    ensures var halfway := Change(WithBlock(r, NewBlock(p)), Stop).0;
      var (after, response) := Change(halfway, Start);
      response == RDY && AllAre(States(after), Running)
  {
    hide States, Change, WithBlock, NewBlock;
    NewBlockBlocksStop(r, p);
    var halfway := Change(WithBlock(r, NewBlock(p)), Stop).0;
    ReadyIffAllAdmit(halfway, Start);
    assert Admits(States(halfway), Start);
  }

  lemma {:induction false} StatesOfConcat(bs: seq<Block>, cs: seq<Block>)
    ensures StatesOfAll(bs + cs) == StatesOfAll(bs) + StatesOfAll(cs)
  {
    hide States;
    if bs == [] {
      assert bs + cs == cs && StatesOfAll(bs) + StatesOfAll(cs) == StatesOfAll(cs);
    } else {
      StatesOfConcat(bs[1..], cs);
      assert (bs + cs)[0] == bs[0] && (bs + cs)[1..] == bs[1..] + cs;
      Regroup(States(bs[0]), StatesOfAll(bs[1..]), StatesOfAll(cs));
    }
  }
}
