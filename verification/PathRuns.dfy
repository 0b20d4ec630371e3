/** Runs of management commands on a container tree, told in terms of paths alone. */
module PathRuns {
  import opened Options
  import opened Management
  import opened ExecutionState
  import opened CommandRuns
  import opened PathMap

  datatype Op =
    | CreateFB(path: Path, lib: Lookup)
    | DeleteFB(path: Path)
    | StateCommand(path: Path, cmd: Command)

  ghost predicate ValidOp(op: Op) {
    ValidPath(op.path) && (op.CreateFB? && op.lib.Failed? ==> op.lib.error != RDY)
  }

  /** On the tree of containers. */
  function Applied(c: Container, op: Op): (Container, Response)
    requires op.path != []
  {
    match op
    case CreateFB(path, lib) => Create(c, path, lib)
    case DeleteFB(path) => Delete(c, path)
    case StateCommand(path, cmd) => CommandAt(c, path, cmd)
  }

  // ---- the same on a plain map and a set ----

  datatype View = View(blocks: map<Path, Block>, containers: set<Path>)

  predicate Clear(v: View, path: Path, n: nat)
    requires n <= |path|
  {
    forall j :: 0 < j <= n ==> path[..j] !in v.blocks
  }

  /** The containers on the way to the path. */
  function Way(v: View, path: Path): set<Path> {
    set j | 0 < j < |path| && Clear(v, path, j) :: path[..j]
  }

  /** How far down the path there are containers. */
  function Reach(v: View, path: Path, j: nat): (at: nat)
    requires j < |path|
    ensures at < |path|
    decreases |path| - j
  {
    if j + 1 < |path| && path[..j + 1] in v.containers then Reach(v, path, j + 1) else j
  }

  function Viewed(v: View, op: Op): (View, Response)
    requires op.path != []
  {
    match op
    case CreateFB(path, lib) =>
      var wider := v.(containers := v.containers + Way(v, path));
      if path in v.containers || !Clear(v, path, |path|) then (wider, INVALID_STATE)
      else if lib.Failed? then (wider, lib.error)
      else (wider.(blocks := v.blocks[path := NewBlock(Part(path[|path| - 1], lib.fbType))]), RDY)
    case DeleteFB(path) =>
      var wider := v.(containers := v.containers + Way(v, path));
      if path !in v.blocks then (wider, NO_SUCH_OBJECT)
      else if !v.blocks[path].deletable || v.blocks[path].state == Running then (wider, INVALID_STATE)
      else (wider.(blocks := v.blocks - {path}), RDY)
    case StateCommand(path, cmd) =>
      var reached := path[..Reach(v, path, 0) + 1];
      if reached !in v.blocks then (v, NO_SUCH_OBJECT)
      else
        var (b, response) := Change(v.blocks[reached], cmd);
        (v.(blocks := v.blocks[reached := b]), response)
  }

  ghost predicate Refines(c: Container, v: View) {
    && (forall q :: At(c, q) == if q in v.blocks then Some(v.blocks[q]) else None)
    && (forall q :: HasContainer(c, q) <==> q in v.containers)
  }

  lemma WayIsOpened(c: Container, v: View, path: Path, q: Path)
    requires Refines(c, v)
    ensures q in Way(v, path) <==> Opens(c, path, q)
  {
    hide At, HasContainer;
    if Opens(c, path, q) {
      assert Clear(v, path, |q|);
    }
    if q in Way(v, path) {
      var j :| 0 < j < |path| && Clear(v, path, j) && q == path[..j];
      assert NoBlockAlong(c, path, j);
    }
  }

  lemma ClearMeansCreatable(c: Container, v: View, path: Path)
    requires Refines(c, v)
    ensures Creatable(c, path) <==> path !in v.containers && Clear(v, path, |path|)
  {
    hide At, HasContainer;
    if Clear(v, path, |path|) {
      assert NoBlockAlong(c, path, |path|);
    }
    if NoBlockAlong(c, path, |path|) {
      assert Clear(v, path, |path|);
    }
  }

  lemma {:induction false} ContainersNest(c: Container, path: Path, j: nat, k: nat)
    requires j <= k <= |path| && HasContainer(c, path[..k])
    ensures HasContainer(c, path[..j])
    decreases |path|
  {
    if 0 < j {
      var sub := FindSub(c.subs, path[0]).value;
      assert path[..k][1..] == path[1..][..k - 1] && path[..j][1..] == path[1..][..j - 1];
      ContainersNest(c.subs[sub], path[1..], j - 1, k - 1);
    }
  }

  /** A lookup goes as far as the view says. */
  lemma {:induction false} ReachIsPosition(c: Container, v: View, path: Path, j: nat)
    requires Refines(c, v) && path != [] && j <= Get(c, path).1
    ensures Reach(v, path, j) == Get(c, path).1
    decreases |path| - j
  {
    var at := Get(c, path).1;
    hide At, Get;
    GetMeans(c, path);
    if j < at {
      ContainersNest(c, path, j + 1, at);
      ReachIsPosition(c, v, path, j + 1);
    }
  }

  /** Every step on the tree is the step on the view, with the same answer. */
  lemma StepRefines(c: Container, v: View, op: Op)
    requires Distinct(c) && Refines(c, v) && ValidOp(op)
    ensures Distinct(Applied(c, op).0) && Refines(Applied(c, op).0, Viewed(v, op).0)
    ensures Applied(c, op).1 == Viewed(v, op).1
  {
    match op
    case CreateFB(path, lib) => CreateRefines(c, v, op);
    case DeleteFB(path) => DeleteRefines(c, v, op);
    case StateCommand(path, cmd) => CommandRefines(c, v, op);
  }

  lemma CreateRefines(c: Container, v: View, op: Op)
    requires Distinct(c) && Refines(c, v) && ValidOp(op) && op.CreateFB?
    ensures Distinct(Applied(c, op).0) && Refines(Applied(c, op).0, Viewed(v, op).0)
    ensures Applied(c, op).1 == Viewed(v, op).1
  {
    var path, lib, after := op.path, op.lib, Viewed(v, op).0;
    hide At, HasContainer, Create, NewBlock, Opens, Creatable, Way, Clear;
    CreateKeepsDistinct(c, path, lib);
    ClearMeansCreatable(c, v, path);
    forall q
      ensures At(Create(c, path, lib).0, q) == if q in after.blocks then Some(after.blocks[q]) else None
      ensures HasContainer(Create(c, path, lib).0, q) <==> q in after.containers
    {
      CreateSeen(c, path, lib, q);
      WayIsOpened(c, v, path, q);
    }
    CreateSeen(c, path, lib, path);
  }

  lemma DeleteRefinesAt(c: Container, v: View, path: Path, q: Path)
    requires Distinct(c) && Refines(c, v) && ValidPath(path)
    ensures var after := Viewed(v, DeleteFB(path)).0;
      && At(Delete(c, path).0, q) == (if q in after.blocks then Some(after.blocks[q]) else None)
      && (HasContainer(Delete(c, path).0, q) <==> q in after.containers)
    ensures Delete(c, path).1 == Viewed(v, DeleteFB(path)).1
  {
    DeleteSeen(c, path, q);
    WayIsOpened(c, v, path, q);
    hide At, HasContainer, Delete, Opens, Way, Clear, Distinct, ValidPath;
  }

  lemma DeleteRefines(c: Container, v: View, op: Op)
    requires Distinct(c) && Refines(c, v) && ValidOp(op) && op.DeleteFB?
    ensures Distinct(Applied(c, op).0) && Refines(Applied(c, op).0, Viewed(v, op).0)
    ensures Applied(c, op).1 == Viewed(v, op).1
  {
    var after := Viewed(v, op).0;
    hide At, HasContainer, Delete, Viewed;
    DeleteKeepsDistinct(c, op.path);
    forall q
      ensures At(Delete(c, op.path).0, q) == if q in after.blocks then Some(after.blocks[q]) else None
      ensures HasContainer(Delete(c, op.path).0, q) <==> q in after.containers
    {
      DeleteRefinesAt(c, v, op.path, q);
    }
    DeleteRefinesAt(c, v, op.path, []);
  }

  lemma CommandRefinesAt(c: Container, v: View, path: Path, cmd: Command, q: Path)
    requires Refines(c, v) && ValidPath(path)
    ensures var after := Viewed(v, StateCommand(path, cmd)).0;
      && At(CommandAt(c, path, cmd).0, q) == (if q in after.blocks then Some(after.blocks[q]) else None)
      && (HasContainer(CommandAt(c, path, cmd).0, q) <==> q in after.containers)
    ensures CommandAt(c, path, cmd).1 == Viewed(v, StateCommand(path, cmd)).1
  {
    hide At, HasContainer, CommandAt, Change, Get, Reach;
    ReachIsPosition(c, v, path, 0);
    GetMeans(c, path);
    CommandSeen(c, path, cmd, q);
    hide ValidPath;
  }

  lemma CommandRefines(c: Container, v: View, op: Op)
    requires Distinct(c) && Refines(c, v) && ValidOp(op) && op.StateCommand?
    ensures Distinct(Applied(c, op).0) && Refines(Applied(c, op).0, Viewed(v, op).0)
    ensures Applied(c, op).1 == Viewed(v, op).1
  {
    var path, cmd, after := op.path, op.cmd, Viewed(v, op).0;
    hide At, HasContainer, CommandAt, Viewed;
    CommandKeepsDistinct(c, path, cmd);
    forall q
      ensures At(CommandAt(c, path, cmd).0, q) == if q in after.blocks then Some(after.blocks[q]) else None
      ensures HasContainer(CommandAt(c, path, cmd).0, q) <==> q in after.containers
    {
      CommandRefinesAt(c, v, path, cmd, q);
    }
    CommandRefinesAt(c, v, path, cmd, []);
  }

  // ---- whole runs ----

  ghost predicate ValidOps(ops: seq<Op>) {
    forall i :: 0 <= i < |ops| ==> ValidOp(ops[i])
  }

  ghost function Run(c: Container, ops: seq<Op>): (Container, seq<Response>)
    requires ValidOps(ops)
    decreases |ops|
  {
    if ops == [] then (c, [])
    else
      assert ValidOp(ops[0]);
      var (next, response) := Applied(c, ops[0]);
      var (last, rest) := Run(next, ops[1..]);
      (last, [response] + rest)
  }

  ghost function RunOfView(v: View, ops: seq<Op>): (View, seq<Response>)
    requires ValidOps(ops)
    decreases |ops|
  {
    if ops == [] then (v, [])
    else
      assert ValidOp(ops[0]);
      var (next, response) := Viewed(v, ops[0]);
      var (last, rest) := RunOfView(next, ops[1..]);
      (last, [response] + rest)
  }

  /** Over every run the tree answers as the view does and shows what the view holds, and no two
      things in one container ever share a name. */
  lemma {:induction false} RunRefines(c: Container, v: View, ops: seq<Op>)
    requires Distinct(c) && Refines(c, v) && ValidOps(ops)
    ensures Run(c, ops).1 == RunOfView(v, ops).1
    ensures Distinct(Run(c, ops).0) && Refines(Run(c, ops).0, RunOfView(v, ops).0)
    decreases |ops|
  {
    hide Distinct, Refines, Applied, Viewed;
    if ops != [] {
      assert ValidOp(ops[0]);
      StepRefines(c, v, ops[0]);
      RunRefines(Applied(c, ops[0]).0, Viewed(v, ops[0]).0, ops[1..]);
    }
  }

  /** A new resource has no blocks, and no containers but itself. */
  lemma NewResource(name: nat)
    ensures Distinct(Container(name, [], [])) && Refines(Container(name, [], []), View(map[], {[]}))
  {
  }

  // ---- running blocks ----

  /** A command that stops or kills the block at q; one for a path that goes on behind q comes to it too. */
  predicate Stops(op: Op, q: Path) {
    op.StateCommand? && (op.cmd == Stop || op.cmd == Kill) && q <= op.path
  }

  predicate Runs(c: Container, q: Path) {
    At(c, q).Some? && At(c, q).value.state == Running
  }

  lemma RunningBlock(b: Block, cmd: Command)
    requires b.state == Running
    ensures Change(b, cmd).0.state == Running <==> cmd != Stop && cmd != Kill
  {
    RootMoves(b, cmd);
    hide Change;
  }

  lemma NothingAtRoot(c: Container)
    ensures At(c, []).None?
  {
  }

  lemma CommandLeavesRunning(c: Container, q: Path, op: Op)
    requires Distinct(c) && Runs(c, q) && ValidOp(op) && op.StateCommand?
    ensures Runs(CommandAt(c, op.path, op.cmd).0, q) <==> !Stops(op, q)
  {
    hide At, Distinct, Get, CommandAt, Change;
    var (b, at) := Get(c, op.path);
    GetMeans(c, op.path);
    CommandSeen(c, op.path, op.cmd, q);
    NothingAtRoot(c);
    if q <= op.path {
      assert op.path[..|q|] == q;
      BlockStopsLookup(c, op.path, |q|);
      RunningBlock(b.value, op.cmd);
    } else {
      assert q != op.path[..at + 1];
    }
  }

  /** A block that is running runs on through every step but a STOP or KILL that comes to it. */
  lemma RunsOnIff(c: Container, q: Path, op: Op)
    requires Distinct(c) && Runs(c, q) && ValidOp(op)
    ensures Runs(Applied(c, op).0, q) <==> !Stops(op, q)
    ensures op == DeleteFB(q) ==> Applied(c, op).1 == INVALID_STATE
  {
    match op
    case CreateFB(path, lib) =>
      hide At, Create, NewBlock, Opens, Distinct, NoBlockAlong, HasContainer;
      CreateSeen(c, path, lib, q);
      if q == path {
        TakenIsTaken(c, path);
      }
    case DeleteFB(path) =>
      hide At, Delete, Opens, Distinct, HasContainer;
      DeleteSeen(c, path, q);
    case StateCommand(path, cmd) =>
      CommandLeavesRunning(c, q, op);
  }

  lemma TakenIsTaken(c: Container, path: Path)
    requires path != [] && At(c, path).Some?
    ensures !Creatable(c, path)
  {
    hide At, HasContainer;
    assert path[..|path|] == path;
  }

  lemma {:induction false} RunsOn(c: Container, q: Path, ops: seq<Op>)
    requires Distinct(c) && Runs(c, q) && ValidOps(ops) && forall i :: 0 <= i < |ops| ==> !Stops(ops[i], q)
    ensures Runs(Run(c, ops).0, q) && |Run(c, ops).1| == |ops|
    ensures forall i :: 0 <= i < |ops| && ops[i] == DeleteFB(q) ==> Run(c, ops).1[i] == INVALID_STATE
    decreases |ops|
  {
    if ops != [] {
      hide Distinct, Runs, Stops, Applied, ValidOp;
      var rest := ops[1..];
      assert ValidOp(ops[0]) && forall i :: 0 <= i < |rest| ==> rest[i] == ops[i + 1];
      RunsOnIff(c, q, ops[0]);
      StaysDistinct(c, ops[0]);
      RunsOn(Applied(c, ops[0]).0, q, rest);
      forall i | 0 < i < |ops| ensures Run(c, ops).1[i] == Run(Applied(c, ops[0]).0, rest).1[i - 1] {
      }
    }
  }

  lemma StaysDistinct(c: Container, op: Op)
    requires Distinct(c) && ValidOp(op)
    ensures Distinct(Applied(c, op).0)
  {
    match op
    case CreateFB(path, lib) => CreateKeepsDistinct(c, path, lib);
    case DeleteFB(path) => DeleteKeepsDistinct(c, path);
    case StateCommand(path, cmd) => CommandKeepsDistinct(c, path, cmd);
  }

  /** A block that has answered START with RDY stays at its path and runs, whatever is created,
      deleted and commanded then, as long as no STOP or KILL comes to it; every attempt to delete it
      is answered with INVALID_STATE. */
  lemma StartedStays(c: Container, q: Path, ops: seq<Op>)
    requires Distinct(c) && ValidPath(q) && At(c, q).Some? && CommandAt(c, q, Start).1 == RDY
    requires ValidOps(ops) && forall i :: 0 <= i < |ops| ==> !Stops(ops[i], q)
    ensures var (last, responses) := Run(CommandAt(c, q, Start).0, ops);
      && At(last, q).Some? && At(last, q).value.state == Running && |responses| == |ops|
      && forall i :: 0 <= i < |ops| && ops[i] == DeleteFB(q) ==> responses[i] == INVALID_STATE
  {
    hide At, Distinct, Get, CommandAt, Change, States, Run;
    assert q[..|q|] == q;
    BlockStopsLookup(c, q, |q|);
    GetMeans(c, q);
    CommandSeen(c, q, Start, q);
    var b := At(c, q).value;
    ReadyMeans(b, Start);
    assert States(Change(b, Start).0)[0] == Running;
    CommandKeepsDistinct(c, q, Start);
    RunsOn(CommandAt(c, q, Start).0, q, ops);
  }

  /** A command with a target, sent to a resource, changes nothing but the block that the lookup comes to. */
  lemma TargetedCommand(r: Block, target: Path, cmd: Command, q: Path)
    requires r.inside.Some? && target != []
    ensures var (after, response) := HandleStateCommand(r, target, cmd);
      var (b, at) := Get(r.inside.value, target);
      && after.inside.Some? && after == r.(inside := after.inside)
      && response == (if b.None? then NO_SUCH_OBJECT else Change(b.value, cmd).1)
      && At(after.inside.value, q) ==
        (if b.Some? && q == target[..at + 1] then Some(Change(b.value, cmd).0) else At(r.inside.value, q))
  {
    hide CommandAt, Get, At, Change;
    CommandSeen(r.inside.value, target, cmd, q);
  }

  /** One without a target is for everything that the resource holds. */
  lemma UntargetedCommand(r: Block)
    requires r.inside.Some?
    ensures HandleStateCommand(r, [], Start).1 == RDY <==> AllIn(States(r), {Idle, Stopped})
    ensures HandleStateCommand(r, [], Stop).1 == RDY <==> AllIn(States(r), {Running})
    ensures HandleStateCommand(r, [], Kill).1 == RDY <==> AllIn(States(r), {Running})
    ensures HandleStateCommand(r, [], Reset).1 == RDY <==> AllIn(States(r), {Stopped, Killed})
    ensures AllIn(States(r), {Running}) ==> AllAre(States(HandleStateCommand(r, [], Kill).0), Killed)
  {
    hide Change, States;
    ReadyMeans(r, Start);
    ReadyMeans(r, Stop);
    ReadyMeans(r, Kill);
    ReadyMeans(r, Reset);
  }
}
