/** State commands over whole runs: what a new block is, where each command leads and which commands
    it answers with RDY. */
module CommandRuns {
  import opened Options
  import opened Management
  import opened ExecutionState

  // ---- what a new block is ----

  lemma NewPartAt(parts: seq<Part>, i: nat)
    requires i < |parts|
    ensures |NewParts(parts)| == |parts| && NewParts(parts)[i] == NewBlock(parts[i])
  {
    hide NewBlock;
    NewPartsLength(parts);
    if i > 0 {
      NewPartAt(parts[1..], i - 1);
    }
  }

  lemma {:induction false} NewPartsLength(parts: seq<Part>)
    ensures |NewParts(parts)| == |parts|
  {
    hide NewBlock;
    if parts != [] {
      NewPartsLength(parts[1..]);
    }
  }

  /** The reset of a composite does not get past its first part. */
  lemma PartsUntouched(parts: seq<Part>)
    ensures ChangeAll(NewParts(parts), Reset).0 == NewParts(parts)
    ensures parts != [] ==> ChangeAll(NewParts(parts), Reset).1 != RDY
  {
    if parts != [] {
      NewBlockIsIdle(parts[0]);
      assert States(NewBlock(parts[0]))[0] == Idle;
      RefusedUnchanged(NewBlock(parts[0]), Reset);
      hide NewBlock, Change;
      var bs := NewParts(parts);
      assert bs == [bs[0]] + bs[1..];
    }
  }

  lemma EmptyContainer(cmd: Command)
    ensures ChangeContained(Container(0, [], []), cmd) == (Container(0, [], []), RDY)
  {
  }

  /** A new block is idle, with as many idle adapters as its type has, a new block for each of the
      parts of its type in their order, and, if it is a resource, an empty container. */
  lemma NewBlockHas(p: Part)
    ensures var b, t := NewBlock(p), p.fbType;
      && b.name == p.name && b.deletable && b.state == Idle
      && |b.adapters| == t.adapters && (forall i :: 0 <= i < t.adapters ==> b.adapters[i] == Idle)
      && |b.internals| == |t.parts| && (forall i :: 0 <= i < |t.parts| ==> b.internals[i] == NewBlock(t.parts[i]))
      && b.inside == if t.resource then Some(Container(0, [], [])) else None
  {
    var c := Constructed(p);
    NewPartsLength(p.fbType.parts);
    PartsUntouched(p.fbType.parts);
    EmptyContainer(Reset);
    hide NewParts, ChangeAll, ChangeContained;
    var (internals, inside, response) := ChangeBelow(c, Reset);
    assert internals == NewParts(p.fbType.parts) && inside == c.inside;
    forall i | 0 <= i < |p.fbType.parts| ensures NewBlock(p).internals[i] == NewBlock(p.fbType.parts[i]) {
      NewPartAt(p.fbType.parts, i);
    }
  }

  // ---- one command on any tree of blocks ----

  predicate AllIn(ss: seq<State>, allowed: set<State>) {
    forall i :: 0 <= i < |ss| ==> ss[i] in allowed
  }

  /** What is answered with RDY, and where it leads. */
  lemma ReadyMeans(b: Block, cmd: Command)
    ensures cmd == Start ==> (Change(b, cmd).1 == RDY <==> AllIn(States(b), {Idle, Stopped}))
    ensures cmd == Stop || cmd == Kill ==> (Change(b, cmd).1 == RDY <==> AllIn(States(b), {Running}))
    ensures cmd == Reset ==> (Change(b, cmd).1 == RDY <==> AllIn(States(b), {Stopped, Killed}))
    ensures Change(b, cmd).1 != RDY ==>
      Change(b, cmd).1 == if cmd == OtherCommand then INVALID_OPERATION else INVALID_STATE
    ensures Change(b, cmd).1 == RDY ==>
      cmd != OtherCommand && AllAre(States(Change(b, cmd).0),
        if cmd == Start then Running else if cmd == Stop then Stopped else if cmd == Kill then Killed else Idle)
  {
    hide States, Change;
    ReadyIffAllAdmit(b, cmd);
    ChangeIsSweep(b, cmd);
    var k := SweptMeans(States(b), cmd);
    assert States(b)[0] == b.state;
  }

  /** A killed block stays as it is, whatever it is sent, until a reset. */
  lemma {:induction false} KilledUntilReset(b: Block, cmds: seq<Command>)
    requires b.state == Killed && Reset !in cmds
    ensures Commanded(b, cmds) == b
    decreases |cmds|
  {
    if cmds != [] {
      hide Change;
      var last := |cmds| - 1;
      assert cmds[last] in cmds && forall cmd :: cmd in cmds[..last] ==> cmd in cmds;
      KilledUntilReset(b, cmds[..last]);
      RefusedUnchanged(b, cmds[last]);
    }
  }

  // ---- runs of commands ----

  /** A block after some commands, whatever their answers were. */
  function Commanded(b: Block, cmds: seq<Command>): Block {
    if cmds == [] then b else Change(Commanded(b, cmds[..|cmds| - 1]), cmds[|cmds| - 1]).0
  }

  /** Which command is in order, told from the last one that was. */
  predicate InOrder(last: Option<Command>, cmd: Command) {
    match cmd
    case Start => last.None? || last.value == Stop || last.value == Reset
    case Stop => last == Some(Start)
    case Kill => last == Some(Start)
    case Reset => last == Some(Stop) || last == Some(Kill)
    case OtherCommand => false
  }

  function LastInOrder(cmds: seq<Command>): Option<Command> {
    if cmds == [] then None
    else
      var last := LastInOrder(cmds[..|cmds| - 1]);
      if InOrder(last, cmds[|cmds| - 1]) then Some(cmds[|cmds| - 1]) else last
  }

  function LeadsTo(last: Option<Command>): State {
    match last
    case None => Idle
    case Some(cmd) =>
      match cmd
      case Start => Running
      case Stop => Stopped
      case Kill => Killed
      case _ => Idle
  }

  lemma NextInOrder(last: Option<Command>, cmd: Command)
    requires last != Some(OtherCommand)
    ensures Next(LeadsTo(last), cmd) == if InOrder(last, cmd) then Some(LeadsTo(Some(cmd))) else None
    ensures InOrder(last, cmd) ==> cmd != OtherCommand
  {
  }

  lemma OneCommand(b: Block, last: Option<Command>, cmd: Command)
    requires last != Some(OtherCommand) && AllAre(States(b), LeadsTo(last)) && InStep(b)
    ensures Change(b, cmd).1 ==
      if InOrder(last, cmd) then RDY else if cmd == OtherCommand then INVALID_OPERATION else INVALID_STATE
    ensures var after := if InOrder(last, cmd) then Some(cmd) else last;
      AllAre(States(Change(b, cmd).0), LeadsTo(after)) && InStep(Change(b, cmd).0)
  {
    hide States, Change, InOrder, LeadsTo, Next, InStep;
    assert States(b)[0] == b.state;
    NextInOrder(last, cmd);
    UniformStaysUniform(b, cmd);
    AdaptersStayInStep(b, cmd);
    if Next(b.state, cmd).None? {
      RefusedUnchanged(b, cmd);
    }
  }

  /** The protocol of the state commands. After any commands on a new block, however deep it is, the
      last one that was in order tells the state of everything below, and exactly a command that is
      in order then is answered with RDY. */
  lemma {:induction false} CommandsOnNewBlock(p: Part, cmds: seq<Command>, next: Command)
    ensures var b, last := Commanded(NewBlock(p), cmds), LastInOrder(cmds);
      && AllAre(States(b), LeadsTo(last)) && InStep(b)
      && Change(b, next).1 ==
        if InOrder(last, next) then RDY else if next == OtherCommand then INVALID_OPERATION else INVALID_STATE
    ensures LastInOrder(cmds) != Some(OtherCommand)
    decreases |cmds|
  {
    hide States, Change, InStep, LeadsTo;
    if cmds == [] {
      NewBlockIsIdle(p);
      NewInStep(p);
      assert LeadsTo(None) == Idle by { NothingYet(); }
    } else {
      var before := cmds[..|cmds| - 1];
      CommandsOnNewBlock(p, before, cmds[|cmds| - 1]);
      OneCommand(Commanded(NewBlock(p), before), LastInOrder(before), cmds[|cmds| - 1]);
    }
    OneCommand(Commanded(NewBlock(p), cmds), LastInOrder(cmds), next);
  }

  lemma NothingYet()
    ensures LeadsTo(None) == Idle
  {
  }

  lemma NewInStep(p: Part)
    ensures InStep(NewBlock(p))
  {
    AdaptersStayInStep(Constructed(p), Reset);
  }

  // ---- the order in which a command comes by ----

  function Leaf(s: State): Block {
    Block(0, true, s, [], [], None)
  }

  lemma TwoLeaves(a: State, b: State)
    ensures StatesOfAll([Leaf(a), Leaf(b)]) == [a, b]
  {
    assert [Leaf(a), Leaf(b)][1..] == [Leaf(b)] && [Leaf(b)][1..] == [];
    assert StatesBelow(Leaf(a)) == [] && StatesBelow(Leaf(b)) == [];
    assert States(Leaf(a)) == [a] && States(Leaf(b)) == [b];
    assert StatesOfAll([Leaf(b)]) == [b];
  }

  lemma TwoSubs(a: State, b: State, c: State, d: State)
    ensures StatesOfSubs([Container(1, [Leaf(a), Leaf(b)], []), Container(2, [Leaf(c), Leaf(d)], [])]) == [a, b, c, d]
  {
    TwoLeaves(a, b);
    TwoLeaves(c, d);
    hide Leaf, StatesOfAll;
    var first, second := Container(1, [Leaf(a), Leaf(b)], []), Container(2, [Leaf(c), Leaf(d)], []);
    assert StatesInside(first) == [a, b] && StatesInside(second) == [c, d];
    assert [first, second][1..] == [second] && [second][1..] == [];
  }

  /** A command comes by the block itself, then its internal blocks, then its container: there the
      subcontainers before the blocks, everything in the order of creation. */
  lemma CommandOrder(r: Block, s: seq<State>)
    requires |s| == 9 && r.state == s[0] && r.internals == [Leaf(s[1]), Leaf(s[2])]
    requires r.inside == Some(Container(0, [Leaf(s[7]), Leaf(s[8])],
      [Container(1, [Leaf(s[3]), Leaf(s[4])], []), Container(2, [Leaf(s[5]), Leaf(s[6])], [])]))
    ensures States(r) == s
  {
    TwoLeaves(s[1], s[2]);
    TwoLeaves(s[7], s[8]);
    TwoSubs(s[3], s[4], s[5], s[6]);
    hide Leaf, StatesOfAll, StatesOfSubs;
    assert StatesInside(r.inside.value) == [s[3], s[4], s[5], s[6]] + [s[7], s[8]];
    assert States(r) == [s[0]] + ([s[1], s[2]] + ([s[3], s[4], s[5], s[6]] + [s[7], s[8]]));
  }
}
