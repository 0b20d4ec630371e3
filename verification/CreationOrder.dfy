/** Where creating and deleting blocks shows in the order in which state commands come by. */
module CreationOrder {
  import opened Sequences
  import opened Options
  import opened Management
  import opened ExecutionState
  import opened CommandRuns
  import opened PathMap

  // ---- the states of lists with one place changed ----

  lemma {:induction false} SubsConcat(cs: seq<Container>, ds: seq<Container>)
    ensures StatesOfSubs(cs + ds) == StatesOfSubs(cs) + StatesOfSubs(ds)
  {
    hide StatesInside;
    if cs == [] {
      assert cs + ds == ds && StatesOfSubs(cs) + StatesOfSubs(ds) == StatesOfSubs(ds);
    } else {
      FrontOf(cs, ds);
      SubsConcat(cs[1..], ds);
      Regroup(StatesInside(cs[0]), StatesOfSubs(cs[1..]), StatesOfSubs(ds));
    }
  }

  lemma OneSub(c: Container)
    ensures StatesOfSubs([c]) == StatesInside(c)
  {
    hide StatesInside;
    assert [c][1..] == [];
  }

  lemma OneBlock(b: Block)
    ensures StatesOfAll([b]) == States(b)
  {
    hide States;
    assert [b][1..] == [];
  }

  lemma SubsAround(cs: seq<Container>, k: nat, sub: Container)
    requires k < |cs|
    ensures var front, back := StatesOfSubs(cs[..k]), StatesOfSubs(cs[k + 1..]);
      && StatesOfSubs(cs) == front + StatesInside(cs[k]) + back
      && StatesOfSubs(cs[k := sub]) == front + StatesInside(sub) + back
  {
    hide StatesInside, StatesOfSubs;
    Around(cs, k, sub);
    SubsConcat(cs[..k] + [cs[k]], cs[k + 1..]);
    SubsConcat(cs[..k] + [sub], cs[k + 1..]);
    SubsConcat(cs[..k], [cs[k]]);
    SubsConcat(cs[..k], [sub]);
    OneSub(cs[k]);
    OneSub(sub);
  }

  lemma BlocksAround(bs: seq<Block>, k: nat)
    requires k < |bs|
    ensures var front, back := StatesOfAll(bs[..k]), StatesOfAll(bs[k + 1..]);
      && StatesOfAll(bs) == front + States(bs[k]) + back
      && StatesOfAll(bs[..k] + bs[k + 1..]) == front + back
  {
    hide States, StatesOfAll;
    Around(bs, k, bs[k]);
    StatesOfConcat(bs[..k] + [bs[k]], bs[k + 1..]);
    StatesOfConcat(bs[..k], [bs[k]]);
    StatesOfConcat(bs[..k], bs[k + 1..]);
    OneBlock(bs[k]);
  }

  lemma ContainerStates(c: Container)
    ensures StatesInside(c) == StatesOfSubs(c.subs) + StatesOfAll(c.blocks)
  {
  }

  lemma OpeningAddsNothing(c: Container, name: nat)
    ensures StatesInside(FindOrCreate(c, name).0) == StatesInside(c)
  {
    var grown := FindOrCreate(c, name).0;
    var empty := Container(name, [], []);
    assert StatesInside(empty) == [];
    hide StatesInside, StatesOfSubs, StatesOfAll, FindSub, FindBlock;
    ContainerStates(c);
    ContainerStates(grown);
    if grown != c {
      SubsConcat(c.subs, [empty]);
      OneSub(empty);
      assert StatesOfSubs(c.subs) + [] == StatesOfSubs(c.subs);
    }
  }

  // ---- one stretch of states more, or less ----

  /** The states of one block put in at place k. */
  function PutIn(ss: seq<State>, k: nat, more: seq<State>): seq<State>
    requires k <= |ss|
  {
    ss[..k] + more + ss[k..]
  }

  lemma PutInFurther(front: seq<State>, ss: seq<State>, back: seq<State>, k: nat, more: seq<State>)
    requires k <= |ss|
    ensures PutIn(front + ss + back, |front| + k, more) == front + PutIn(ss, k, more) + back
  {
    assert (front + ss + back)[..|front| + k] == front + ss[..k];
    assert (front + ss + back)[|front| + k..] == ss[k..] + back;
  }

  lemma PutInAtEnd(ss: seq<State>, more: seq<State>)
    ensures PutIn(ss, |ss|, more) == ss + more
  {
  }

  lemma SubChanged(c: Container, k: nat, sub: Container)
    requires k < |c.subs|
    ensures var front, back := StatesOfSubs(c.subs[..k]), StatesOfSubs(c.subs[k + 1..]) + StatesOfAll(c.blocks);
      && StatesInside(c) == front + StatesInside(c.subs[k]) + back
      && StatesInside(Put(c, k, sub)) == front + StatesInside(sub) + back
  {
    hide StatesInside, StatesOfSubs, StatesOfAll;
    SubsAround(c.subs, k, sub);
    ContainerStates(c);
    ContainerStates(Put(c, k, sub));
    var front, back := StatesOfSubs(c.subs[..k]), StatesOfSubs(c.subs[k + 1..]);
    Regroup(front + StatesInside(c.subs[k]), back, StatesOfAll(c.blocks));
    Regroup(front + StatesInside(sub), back, StatesOfAll(c.blocks));
  }

  lemma CreatedHere(c: Container, b: Block)
    ensures StatesInside(c.(blocks := c.blocks + [b])) == StatesInside(c) + States(b)
  {
    hide StatesInside, StatesOfSubs, StatesOfAll, States;
    ContainerStates(c);
    ContainerStates(c.(blocks := c.blocks + [b]));
    StatesOfConcat(c.blocks, [b]);
    OneBlock(b);
    Regroup(StatesOfSubs(c.subs), StatesOfAll(c.blocks), States(b));
  }

  /** Creating a block puts exactly its states into the order, behind everything if it is created
      directly in the container; where nothing is created, nothing changes. */
  lemma {:induction false} CreatedStates(c: Container, path: Path, lib: Lookup) returns (k: nat)
    requires path != []
    ensures k <= |StatesInside(c)| && (|path| == 1 ==> k == |StatesInside(c)|)
    ensures var (after, response) := Create(c, path, lib);
      StatesInside(after) ==
        if lib.Known? && response == RDY
        then PutIn(StatesInside(c), k, States(NewBlock(Part(path[|path| - 1], lib.fbType))))
        else StatesInside(c)
    decreases |path|
  {
    hide StatesInside, States, NewBlock, PutIn, FindSub, FindBlock;
    k := |StatesInside(c)|;
    if |path| == 1 {
      if lib.Known? {
        var b := NewBlock(Part(path[0], lib.fbType));
        CreatedHere(c, b);
        PutInAtEnd(StatesInside(c), States(b));
      }
    } else {
      var (grown, at) := FindOrCreate(c, path[0]);
      OpeningAddsNothing(c, path[0]);
      if at.Some? {
        var sub := grown.subs[at.value];
        var below := CreatedStates(sub, path[1..], lib);
        var created := Create(sub, path[1..], lib).0;
        SubChanged(grown, at.value, created);
        var front := StatesOfSubs(grown.subs[..at.value]);
        var back := StatesOfSubs(grown.subs[at.value + 1..]) + StatesOfAll(grown.blocks);
        k := |front| + below;
        if lib.Known? {
          PutInFurther(front, StatesInside(sub), back, below, States(NewBlock(Part(path[|path| - 1], lib.fbType))));
        }
      }
    }
  }

  lemma DeletedHere(c: Container, k: nat)
    requires k < |c.blocks|
    ensures var front, back := StatesOfSubs(c.subs) + StatesOfAll(c.blocks[..k]), StatesOfAll(c.blocks[k + 1..]);
      && StatesInside(c) == front + States(c.blocks[k]) + back
      && StatesInside(c.(blocks := c.blocks[..k] + c.blocks[k + 1..])) == front + back
  {
    hide StatesInside, StatesOfSubs, StatesOfAll, States;
    ContainerStates(c);
    ContainerStates(c.(blocks := c.blocks[..k] + c.blocks[k + 1..]));
    BlocksAround(c.blocks, k);
    var subs, front, back := StatesOfSubs(c.subs), StatesOfAll(c.blocks[..k]), StatesOfAll(c.blocks[k + 1..]);
    Regroup(subs, front, back);
    Regroup(subs, front + States(c.blocks[k]), back);
    Regroup(subs, front, States(c.blocks[k]));
  }

  lemma PutInBetween(front: seq<State>, more: seq<State>, back: seq<State>)
    ensures PutIn(front + back, |front|, more) == front + more + back
  {
  }

  /** Deleting a block takes exactly its states out of the order. */
  lemma {:induction false} DeletedStates(c: Container, path: Path) returns (k: nat)
    requires path != []
    ensures var (after, response) := Delete(c, path);
      if response == RDY
      then
        && At(c, path).Some? && k <= |StatesInside(after)|
        && StatesInside(c) == PutIn(StatesInside(after), k, States(At(c, path).value))
      else StatesInside(after) == StatesInside(c)
    decreases |path|
  {
    hide StatesInside, States, PutIn, CurrentlyDeletable;
    k := 0;
    if |path| == 1 {
      var at := FindBlock(c.blocks, path[0]);
      if at.Some? {
        DeletedHere(c, at.value);
        var front := StatesOfSubs(c.subs) + StatesOfAll(c.blocks[..at.value]);
        k := |front|;
        PutInBetween(front, States(c.blocks[at.value]), StatesOfAll(c.blocks[at.value + 1..]));
      }
    } else {
      var (grown, at) := FindOrCreate(c, path[0]);
      OpeningAddsNothing(c, path[0]);
      if at.Some? {
        var sub := grown.subs[at.value];
        var below := DeletedStates(sub, path[1..]);
        var (left, response) := Delete(sub, path[1..]);
        SubChanged(grown, at.value, left);
        var front := StatesOfSubs(grown.subs[..at.value]);
        var back := StatesOfSubs(grown.subs[at.value + 1..]) + StatesOfAll(grown.blocks);
        if response == RDY {
          DeletedBelow(c, path);
          k := |front| + below;
          PutInFurther(front, StatesInside(left), back, below, States(At(sub, path[1..]).value));
        }
      }
    }
  }

  lemma {:induction false} NothingInNew(name: nat, path: Path)
    requires path != []
    ensures Delete(Container(name, [], []), path).1 == NO_SUCH_OBJECT
    decreases |path|
  {
    if |path| > 1 {
      var (grown, k) := FindOrCreate(Container(name, [], []), path[0]);
      if k.Some? {
        NothingInNew(path[0], path[1..]);
      }
    }
  }

  /** What is deleted below was there before. */
  lemma DeletedBelow(c: Container, path: Path)
    requires |path| > 1 && Delete(c, path).1 == RDY
    ensures var (grown, k) := FindOrCreate(c, path[0]);
      k.Some? && At(c, path) == At(grown.subs[k.value], path[1..])
  {
    var (grown, k) := FindOrCreate(c, path[0]);
    if k.Some? && FindSub(c.subs, path[0]).None? {
      NothingInNew(path[0], path[1..]);
    }
  }

  /** A block created anywhere below a resource that runs keeps it from being stopped. */
  lemma CreatedBlocksStop(r: Block, path: Path, lib: Lookup)
    requires r.inside.Some? && path != [] && lib.Known? && AllAre(States(r), Running)
    requires Create(r.inside.value, path, lib).1 == RDY
    ensures Change(r.(inside := Some(Create(r.inside.value, path, lib).0)), Stop).1 == INVALID_STATE
  {
    hide Change, Create, StatesInside, StatesOfAll, NewBlock;
    var c, newcomer := r.inside.value, NewBlock(Part(path[|path| - 1], lib.fbType));
    var late := r.(inside := Some(Create(c, path, lib).0));
    var k := CreatedStates(c, path, lib);
    NewBlockIsIdle(Part(path[|path| - 1], lib.fbType));
    var ss := StatesInside(late.inside.value);
    assert ss[k] == States(newcomer)[0] == Idle;
    var at := 1 + |StatesOfAll(r.internals)| + k;
    assert States(late) == [late.state] + (StatesOfAll(r.internals) + ss);
    assert States(late)[at] == Idle;
    hide States;
    ReadyMeans(late, Stop);
  }
}
