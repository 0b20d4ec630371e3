/** Function blocks and their containers as objects that own each other. */
module FBContainer {
  import opened Options
  import opened Management
  import opened ExecutionState
  import opened PathMap

  // ---- lists of objects ----

  /** The blocks of a list are in good order; the objects they own are among `owned`, and no two of
      them share one. */
  ghost predicate BlocksValid(bs: seq<FunctionBlock>, owned: set<object>)
    reads owned
    decreases owned, 1
  {
    && (forall i :: 0 <= i < |bs| ==>
          bs[i] in owned && bs[i] in bs[i].Repr && bs[i].Repr <= owned && bs[i].Valid())
    && (forall i, j :: 0 <= i < j < |bs| ==> bs[i].Repr !! bs[j].Repr)
  }

  ghost function Values(bs: seq<FunctionBlock>, owned: set<object>): (vs: seq<Block>)
    requires BlocksValid(bs, owned)
    reads owned
    ensures |vs| == |bs|
    ensures forall i :: 0 <= i < |vs| ==> vs[i] == bs[i].Value()
    decreases owned, 1
  {
    seq(|bs|, i requires 0 <= i < |bs| && BlocksValid(bs, owned) reads owned => bs[i].Value())
  }

  ghost predicate SubsValid(cs: seq<FBContainer>, owned: set<object>)
    reads owned
    decreases owned, 1
  {
    && (forall i :: 0 <= i < |cs| ==>
          cs[i] in owned && cs[i] in cs[i].Repr && cs[i].Repr <= owned && cs[i].Valid())
    && (forall i, j :: 0 <= i < j < |cs| ==> cs[i].Repr !! cs[j].Repr)
  }

  ghost function SubValues(cs: seq<FBContainer>, owned: set<object>): (vs: seq<Container>)
    requires SubsValid(cs, owned)
    reads owned
    ensures |vs| == |cs|
    ensures forall i :: 0 <= i < |vs| ==> vs[i] == cs[i].Value()
    decreases owned, 1
  {
    seq(|cs|, i requires 0 <= i < |cs| && SubsValid(cs, owned) reads owned => cs[i].Value())
  }

  // ---- the objects ----

  /** A function block. The blocks of a composite are `internals`; a resource is also a container. */
  class FunctionBlock {
    const name: nat
    var deletable: bool
    var state: State
    var adapters: seq<State>
    const internals: seq<FunctionBlock>
    const inside: FBContainer?
    ghost const internalObjects: set<object>
    ghost var Repr: set<object>

    ghost predicate Valid()
      reads this, Repr
      decreases Repr, 0
    {
      && {this} + internalObjects <= Repr && this !in internalObjects
      && BlocksValid(internals, internalObjects)
      && (inside != null ==>
            && inside in Repr && inside in inside.Repr && inside.Repr <= Repr - {this} && inside.Valid()
            && internalObjects !! inside.Repr)
    }

    ghost function Value(): (v: Block)
      requires Valid()
      reads this, Repr
      ensures v.name == name && v.deletable == deletable && v.state == state
      decreases Repr, 0
    {
      Block(name, deletable, state, adapters, Values(internals, internalObjects),
            if inside == null then None else Some(inside.Value()))
    }

    constructor (name: nat, adapters: seq<State>, internals: seq<FunctionBlock>, inside: FBContainer?,
                 ghost internalObjects: set<object>)
      requires BlocksValid(internals, internalObjects)
      requires inside != null ==> inside.Valid() && internalObjects !! inside.Repr
      ensures Valid() && Repr == {this} + internalObjects + if inside == null then {} else inside.Repr
      ensures Value() == Block(name, true, Killed, adapters, Values(internals, internalObjects),
                               if inside == null then None else Some(inside.Value()))
    {
      this.name, deletable, state, this.adapters := name, true, Killed, adapters;
      this.internals, this.inside, this.internalObjects := internals, inside, internalObjects;
      Repr := {this} + internalObjects + if inside == null then {} else inside.Repr;
    }

    method IsCurrentlyDeletable() returns (yes: bool)
      requires Valid()
      ensures yes == CurrentlyDeletable(Value())
    {
      yes := deletable && state != Running;
    }

    /** What every kind of block does. */
    method ChangeItself(cmd: Command) returns (r: Response)
      modifies this`state, this`adapters
      ensures r == if Next(old(state), cmd).Some? then RDY else Refusal(cmd)
      ensures r != RDY ==> state == old(state) && adapters == old(adapters)
      ensures r == RDY ==> state == Next(old(state), cmd).value && |adapters| == |old(adapters)|
      ensures r == RDY ==> forall i :: 0 <= i < |adapters| ==> adapters[i] == Adapted(old(adapters)[i], cmd)
    {
      r := INVALID_STATE;
      match cmd {
        case Start =>
          if state == Idle || state == Stopped {
            state, r := Running, RDY;
          }
        case Stop =>
          if state == Running {
            state, r := Stopped, RDY;
          }
        case Kill =>
          if state == Running {
            state, r := Killed, RDY;
          }
        case Reset =>
          if state == Stopped || state == Killed {
            state, r := Idle, RDY;
          }
        case OtherCommand =>
          r := INVALID_OPERATION;
      }
      if r == RDY {
        ghost var before := adapters;
        for i := 0 to |adapters|
          invariant state == Next(old(state), cmd).value && |adapters| == |before|
          invariant forall k :: 0 <= k < |before| ==>
            adapters[k] == if k < i then Adapted(before[k], cmd) else before[k]
        {
          adapters := adapters[i := Adapted(adapters[i], cmd)];
        }
      }
    }

    /** The blocks of a composite, the container of a resource. */
    method ChangeParts(cmd: Command) returns (r: Response)
      requires Valid()
      modifies internalObjects, if inside == null then {} else inside.Repr
      ensures Valid() && Repr == old(Repr)
      ensures var (internals, inside, response) := ChangeBelow(old(Value()), cmd);
        r == response && Value() == old(Value()).(internals := internals, inside := inside)
      decreases Repr, 0
    {
      hide BlocksValid, SubsValid, Values, SubValues, ChangeAll, ChangeContained, FBContainer.Valid, FBContainer.Value;
      r := ChangeBlocks(internals, cmd, internalObjects);
      if r == RDY && inside != null {
        r := inside.ChangeContainedFBsExecutionState(cmd);
      }
    }

    method ChangeFBExecutionState(cmd: Command) returns (r: Response)
      requires Valid()
      modifies Repr
      ensures Valid() && Repr == old(Repr)
      ensures (Value(), r) == Change(old(Value()), cmd)
      decreases Repr, 1
    {
      ghost var before := Value();
      hide BlocksValid, SubsValid, Values, SubValues, ChangeBelow, FBContainer.Valid, FBContainer.Value;
      r := ChangeItself(cmd);
      if r == RDY {
        assert adapters == ChangedItself(before, cmd).adapters;
        assert Value() == ChangedItself(before, cmd);
        BelowIsUnchanged(before, Value(), cmd);
        r := ChangeParts(cmd);
      }
    }

    method HandleExecutionStateCmd(cmd: Command, target: Path) returns (r: Response)
      requires Valid() && inside != null
      modifies Repr
      ensures Valid() && Repr == old(Repr)
      ensures (Value(), r) == HandleStateCommand(old(Value()), target, cmd)
    {
      hide BlocksValid, Values, FBContainer.Valid, FBContainer.Value, Change, CommandAt;
      if target == [] {
        r := ChangeFBExecutionState(cmd);
      } else {
        r := inside.CommandFB(target, cmd);
      }
    }
  }

  lemma BelowIsUnchanged(b: Block, c: Block, cmd: Command)
    requires b.internals == c.internals && b.inside == c.inside
    ensures ChangeBelow(b, cmd) == ChangeBelow(c, cmd)
  {
  }

  /** The first i parts have had a command, the last of them with response r; `rest` is what the
      others still give, and `total` what they give all together. */
  ghost predicate Passed<T>(total: (seq<T>, Response), before: seq<T>, now: seq<T>, i: nat,
                            rest: (seq<T>, Response), r: Response)
  {
    && i <= |before| == |now| && now[i..] == before[i..]
    && total == if r == RDY then (now[..i] + rest.0, rest.1) else (now, r)
  }

  lemma NothingPassed<T>(total: (seq<T>, Response), before: seq<T>)
    ensures Passed(total, before, before, 0, total, RDY)
  {
    assert before[..0] + total.0 == total.0;
  }

  lemma PassedNext<T>(total: (seq<T>, Response), before: seq<T>, now: seq<T>, i: nat, rest: (seq<T>, Response),
                      after: seq<T>, r: Response, fewer: (seq<T>, Response))
    requires Passed(total, before, now, i, rest, RDY) && i < |before| == |after|
    requires forall k :: 0 <= k < |after| && k != i ==> after[k] == now[k]
    requires rest == if r != RDY then ([after[i]] + before[i + 1..], r) else ([after[i]] + fewer.0, fewer.1)
    ensures Passed(total, before, after, i + 1, fewer, r)
  {
    assert after[..i + 1] == now[..i] + [after[i]];
    assert before[i + 1..] == before[i..][1..] == now[i..][1..] == after[i + 1..];
    assert now[..i] + ([after[i]] + fewer.0) == now[..i] + [after[i]] + fewer.0;
    assert now[..i] + ([after[i]] + before[i + 1..]) == after;
  }

  lemma StillToCome<T>(total: (seq<T>, Response), before: seq<T>, now: seq<T>, i: nat, rest: (seq<T>, Response))
    requires Passed(total, before, now, i, rest, RDY) && i < |before|
    ensures i < |now| && now[i] == before[i]
  {
    assert now[i] == now[i..][0] == before[i..][0];
  }

  lemma AllPassed<T>(
      total: (seq<T>, Response), before: seq<T>, now: seq<T>, i: nat, rest: (seq<T>, Response), r: Response)
    requires Passed(total, before, now, i, rest, r)
    requires r != RDY || (i == |before| && rest == ([], RDY))
    ensures total == (now, r)
  {
    assert i == |before| ==> now[..i] + [] == now;
  }

  lemma ChangeAllAt(bs: seq<Block>, i: nat, cmd: Command)
    requires i <= |bs|
    ensures i == |bs| ==> ChangeAll(bs[i..], cmd) == ([], RDY)
    ensures i < |bs| ==>
      var (b, r) := Change(bs[i], cmd);
      var fewer := ChangeAll(bs[i + 1..], cmd);
      ChangeAll(bs[i..], cmd) == if r != RDY then ([b] + bs[i + 1..], r) else ([b] + fewer.0, fewer.1)
  {
    if i < |bs| {
      assert bs[i..][0] == bs[i] && bs[i..][1..] == bs[i + 1..];
    }
  }

  lemma ChangeAllSubsAt(cs: seq<Container>, i: nat, cmd: Command)
    requires i <= |cs|
    ensures i == |cs| ==> ChangeAllSubs(cs[i..], cmd) == ([], RDY)
    ensures i < |cs| ==>
      var (c, r) := ChangeContained(cs[i], cmd);
      var fewer := ChangeAllSubs(cs[i + 1..], cmd);
      ChangeAllSubs(cs[i..], cmd) == if r != RDY then ([c] + cs[i + 1..], r) else ([c] + fewer.0, fewer.1)
  {
    if i < |cs| {
      assert cs[i..][0] == cs[i] && cs[i..][1..] == cs[i + 1..];
    }
  }

  /** Sends the command to one block of a list, which leaves the others as they are. */
  method ChangeOneBlock(bs: seq<FunctionBlock>, fb: FunctionBlock, ghost i: nat, cmd: Command, ghost owned: set<object>)
    returns (r: Response)
    requires BlocksValid(bs, owned) && i < |bs| && fb == bs[i]
    modifies fb.Repr
    ensures BlocksValid(bs, owned) && bs[i].Repr == old(bs[i].Repr)
    ensures (Values(bs, owned)[i], r) == Change(old(Values(bs, owned)[i]), cmd)
    ensures forall k :: 0 <= k < |bs| && k != i ==> Values(bs, owned)[k] == old(Values(bs, owned)[k])
    decreases owned, 2, 0
  {
    hide FunctionBlock.Valid, FunctionBlock.Value, FBContainer.Valid, FBContainer.Value, Change;
    ghost var before := Values(bs, owned);
    r := fb.ChangeFBExecutionState(cmd);
    assert forall k :: 0 <= k < |bs| && k != i ==> bs[k].Repr !! bs[i].Repr;
    assert forall k :: 0 <= k < |bs| && k != i ==> bs[k].Valid() && bs[k].Value() == before[k];
  }

  /** Sends the command to one block after the other, up to the first that refuses. */
  method ChangeBlocks(bs: seq<FunctionBlock>, cmd: Command, ghost owned: set<object>) returns (r: Response)
    requires BlocksValid(bs, owned)
    modifies owned
    ensures BlocksValid(bs, owned) && forall b :: b in bs ==> b.Repr == old(b.Repr)
    ensures (Values(bs, owned), r) == ChangeAll(old(Values(bs, owned)), cmd)
    decreases owned, 2, 1
  {
    hide FunctionBlock.Valid, FunctionBlock.Value, FBContainer.Valid, FBContainer.Value;
    hide Change, ChangeAll, Passed;
    r := RDY;
    ghost var before := Values(bs, owned);
    ghost var total := ChangeAll(before, cmd);
    NothingPassed(total, before);
    assert before[0..] == before;
    var i := 0;
    while i < |bs| && r == RDY
      invariant i <= |bs|
      invariant forall k :: 0 <= k < |bs| ==> bs[k].Repr == old(bs[k].Repr)
      invariant BlocksValid(bs, owned)
      invariant Passed(total, before, Values(bs, owned), i, ChangeAll(before[i..], cmd), r)
    {
      ghost var now := Values(bs, owned);
      StillToCome(total, before, now, i, ChangeAll(before[i..], cmd));
      ChangeAllAt(before, i, cmd);
      r := ChangeOneBlock(bs, bs[i], i, cmd, owned);
      PassedNext(total, before, now, i, ChangeAll(before[i..], cmd), Values(bs, owned), r,
        ChangeAll(before[i + 1..], cmd));
      i := i + 1;
    }
    ChangeAllAt(before, i, cmd);
    AllPassed(total, before, Values(bs, owned), i, ChangeAll(before[i..], cmd), r);
  }

  /** Sends the command to one of several containers, which leaves the others as they are. */
  method ChangeOneSub(cs: seq<FBContainer>, i: nat, cmd: Command, ghost owned: set<object>) returns (r: Response)
    requires SubsValid(cs, owned) && i < |cs|
    modifies cs[i].Repr
    ensures SubsValid(cs, owned) && cs[i].Repr == old(cs[i].Repr)
    ensures (SubValues(cs, owned)[i], r) == ChangeContained(old(SubValues(cs, owned)[i]), cmd)
    ensures forall k :: 0 <= k < |cs| && k != i ==> SubValues(cs, owned)[k] == old(SubValues(cs, owned)[k])
    decreases owned, 2, 0
  {
    hide FunctionBlock.Valid, FunctionBlock.Value, FBContainer.Valid, FBContainer.Value, ChangeContained;
    ghost var before := SubValues(cs, owned);
    r := cs[i].ChangeContainedFBsExecutionState(cmd);
    assert forall k :: 0 <= k < |cs| && k != i ==> cs[k].Repr !! cs[i].Repr;
    assert forall k :: 0 <= k < |cs| && k != i ==> cs[k].Valid() && cs[k].Value() == before[k];
  }

  method ChangeSubs(cs: seq<FBContainer>, cmd: Command, ghost owned: set<object>) returns (r: Response)
    requires SubsValid(cs, owned)
    modifies owned
    ensures SubsValid(cs, owned) && forall c :: c in cs ==> c.Repr == old(c.Repr)
    ensures (SubValues(cs, owned), r) == ChangeAllSubs(old(SubValues(cs, owned)), cmd)
    decreases owned, 2, 1
  {
    hide FunctionBlock.Valid, FunctionBlock.Value, FBContainer.Valid, FBContainer.Value;
    hide ChangeContained, ChangeAllSubs, Passed;
    r := RDY;
    ghost var before := SubValues(cs, owned);
    ghost var total := ChangeAllSubs(before, cmd);
    NothingPassed(total, before);
    assert before[0..] == before;
    var i := 0;
    while i < |cs| && r == RDY
      invariant i <= |cs|
      invariant forall k :: 0 <= k < |cs| ==> cs[k].Repr == old(cs[k].Repr)
      invariant SubsValid(cs, owned)
      invariant Passed(total, before, SubValues(cs, owned), i, ChangeAllSubs(before[i..], cmd), r)
    {
      ghost var now := SubValues(cs, owned);
      StillToCome(total, before, now, i, ChangeAllSubs(before[i..], cmd));
      ChangeAllSubsAt(before, i, cmd);
      r := ChangeOneSub(cs, i, cmd, owned);
      PassedNext(total, before, now, i, ChangeAllSubs(before[i..], cmd), SubValues(cs, owned), r,
                 ChangeAllSubs(before[i + 1..], cmd));
      i := i + 1;
    }
    ChangeAllSubsAt(before, i, cmd);
    AllPassed(total, before, SubValues(cs, owned), i, ChangeAllSubs(before[i..], cmd), r);
  }

  class FBContainer {
    const name: nat
    var functionBlocks: seq<FunctionBlock>
    var subContainers: seq<FBContainer>
    ghost var blockObjects: set<object>
    ghost var subObjects: set<object>
    ghost var Repr: set<object>

    ghost predicate Valid()
      reads this, Repr
      decreases Repr, 0
    {
      && Repr == {this} + blockObjects + subObjects
      && this !in blockObjects && this !in subObjects && blockObjects !! subObjects
      && BlocksValid(functionBlocks, blockObjects)
      && SubsValid(subContainers, subObjects)
    }

    ghost function Value(): (v: Container)
      requires Valid()
      reads this, Repr
      ensures v.name == name
      decreases Repr, 0
    {
      Container(name, Values(functionBlocks, blockObjects), SubValues(subContainers, subObjects))
    }

    /** The subcontainers first, then the blocks, up to the first refusal. */
    method ChangeContainedFBsExecutionState(cmd: Command) returns (r: Response)
      requires Valid()
      modifies Repr
      ensures Valid() && Repr == old(Repr)
      ensures (Value(), r) == ChangeContained(old(Value()), cmd)
      decreases Repr, 0
    {
      hide BlocksValid, SubsValid, Values, SubValues;
      r := ChangeSubs(subContainers, cmd, subObjects);
      if r == RDY {
        r := ChangeBlocks(functionBlocks, cmd, blockObjects);
      }
    }

    constructor (name: nat)
      ensures Valid() && Value() == Container(name, [], []) && Repr == {this}
    {
      this.name := name;
      functionBlocks, subContainers := [], [];
      blockObjects, subObjects, Repr := {}, {}, {this};
    }

    method GetFB(name: nat) returns (fb: FunctionBlock?)
      requires Valid()
      ensures match FindBlock(Value().blocks, name)
        case None => fb == null
        case Some(k) => fb == functionBlocks[k] && fb.Valid() && fb.Value() == Value().blocks[k]
    {
      fb := null;
      if name != INVALID_NAME {
        var i := 0;
        while i < |functionBlocks|
          invariant i <= |functionBlocks|
          invariant forall j :: 0 <= j < i ==> functionBlocks[j].name != name
        {
          if name == functionBlocks[i].name {
            FindBlockUnique(Value().blocks, name, i);
            return functionBlocks[i];
          }
          i := i + 1;
        }
      }
    }

    method GetFBContainer(name: nat) returns (sub: FBContainer?)
      requires Valid()
      ensures match FindSub(Value().subs, name)
        case None => sub == null
        case Some(k) => sub == subContainers[k] && sub.Valid() && sub.Value() == Value().subs[k]
    {
      sub := null;
      if name != INVALID_NAME {
        var i := 0;
        while i < |subContainers|
          invariant i <= |subContainers|
          invariant forall j :: 0 <= j < i ==> subContainers[j].name != name
        {
          if name == subContainers[i].name {
            FindSubUnique(Value().subs, name, i);
            return subContainers[i];
          }
          i := i + 1;
        }
      }
    }

    /** The block that a lookup comes to, and how many names it has used before the last. */
    method GetContainedFB(path: Path) returns (fb: FunctionBlock?, at: nat)
      requires Valid() && path != []
      ensures at == Get(Value(), path).1
      ensures match Get(Value(), path).0
        case None => fb == null
        case Some(b) => fb != null && fb.Valid() && fb.Value() == b
      decreases |path|
    {
      if |path| > 1 {
        var child := GetFBContainer(path[0]);
        if child != null {
          fb, at := child.GetContainedFB(path[1..]);
          at := at + 1;
          return;
        }
      }
      fb := GetFB(path[0]);
      at := 0;
    }

    /** The subcontainer of that name, made if need be, unless a block has the name. */
    method FindOrCreateContainer(name: nat) returns (sub: FBContainer?)
      requires Valid()
      modifies this
      ensures Valid() && fresh(Repr - old(Repr))
      ensures Value() == FindOrCreate(old(Value()), name).0
      ensures match FindOrCreate(old(Value()), name).1
        case None => sub == null
        case Some(k) => k < |subContainers| && sub == subContainers[k]
    {
      sub := GetFBContainer(name);
      if sub == null {
        var fb := GetFB(name);
        if fb == null {
          sub := new FBContainer(name);
          AddSub(sub);
        }
      }
    }

    method AddSub(sub: FBContainer)
      requires Valid() && sub.Valid() && sub.Repr !! Repr
      modifies this
      ensures Valid() && Repr == old(Repr) + sub.Repr
      ensures subContainers == old(subContainers) + [sub]
      ensures Value() == old(Value()).(subs := old(Value()).subs + [sub.Value()])
    {
      ghost var before := Value();
      hide FunctionBlock.Valid, FunctionBlock.Value, Values, BlocksValid;
      subContainers := subContainers + [sub];
      subObjects := subObjects + sub.Repr;
      Repr := Repr + sub.Repr;
      assert SubValues(subContainers, subObjects) == before.subs + [sub.Value()];
    }

    method AddBlock(fb: FunctionBlock)
      requires Valid() && fb.Valid() && fb.Repr !! Repr
      modifies this
      ensures Valid() && Repr == old(Repr) + fb.Repr
      ensures Value() == old(Value()).(blocks := old(Value()).blocks + [fb.Value()])
    {
      ghost var before := Value();
      hide SubValues, SubsValid;
      functionBlocks := functionBlocks + [fb];
      blockObjects := blockObjects + fb.Repr;
      Repr := Repr + fb.Repr;
      assert Values(functionBlocks, blockObjects) == before.blocks + [fb.Value()];
    }

    method IsFree(name: nat) returns (free: bool)
      requires Valid()
      ensures free <==> FindBlock(Value().blocks, name).None? && FindSub(Value().subs, name).None?
    {
      var fb := GetFB(name);
      var sub := GetFBContainer(name);
      free := fb == null && sub == null;
    }

    method CreateHere(name: nat, lib: Lookup) returns (r: Response)
      requires Valid()
      modifies this
      ensures Valid() && fresh(Repr - old(Repr))
      ensures (Value(), r) == Create(old(Value()), [name], lib)
    {
      hide FunctionBlock.Valid, FunctionBlock.Value, FBContainer.Valid, FBContainer.Value, NewBlock, FindBlock, FindSub;
      r := INVALID_STATE;
      var free := IsFree(name);
      if free {
        if lib.Known? {
          var newFB := CreateBlock(Part(name, lib.fbType));
          AddBlock(newFB);
          r := RDY;
        } else {
          r := lib.error;
        }
      }
    }

    method CreateInChild(child: FBContainer, ghost k: nat, path: Path, lib: Lookup) returns (r: Response)
      requires Valid() && path != [] && k < |subContainers| && child == subContainers[k]
      modifies Repr
      ensures Valid() && fresh(Repr - old(Repr)) && this in Repr
      ensures var (sub, response) := Create(old(Value()).subs[k], path, lib);
        r == response && Value() == Put(old(Value()), k, sub)
      decreases |path|, 2
    {
      hide FunctionBlock.Valid, FunctionBlock.Value, BlocksValid, Values, SubsValid, Create;
      ghost var before, subs, owned := Value(), SubValues(subContainers, subObjects), {};
      OwnsSub(subContainers, subObjects, k);
      r, owned := CreateInSub(subContainers, child, k, path, lib, subObjects);
      Repr := Repr + owned;
      subObjects := owned;
      assert SubValues(subContainers, owned) == subs[k := SubValues(subContainers, owned)[k]];
    }

    method CreateFB(path: Path, lib: Lookup) returns (r: Response)
      requires Valid() && path != []
      modifies Repr
      ensures Valid() && fresh(Repr - old(Repr)) && this in Repr
      ensures (Value(), r) == Create(old(Value()), path, lib)
      decreases |path|, 0
    {
      if |path| == 1 {
        assert path == [path[0]];
        r := CreateHere(path[0], lib);
      } else {
        r := INVALID_STATE;
        var child := FindOrCreateContainer(path[0]);
        if child != null {
          r := CreateInChild(child, FindOrCreate(old(Value()), path[0]).1.value, path[1..], lib);
        }
      }
    }

    /** Walks the list to the block of that name and takes it out, if it may be deleted now. */
    method DeleteHere(name: nat) returns (r: Response)
      requires Valid()
      modifies this
      ensures Valid() && Repr == old(Repr)
      ensures (Value(), r) == Delete(old(Value()), [name])
    {
      r := NO_SUCH_OBJECT;
      if name != INVALID_NAME {
        var i := 0;
        while i < |functionBlocks|
          invariant i <= |functionBlocks|
          invariant forall j :: 0 <= j < i ==> functionBlocks[j].name != name
        {
          if name == functionBlocks[i].name {
            FindBlockUnique(Value().blocks, name, i);
            var deletable := functionBlocks[i].IsCurrentlyDeletable();
            if deletable {
              EraseBlock(i);
              r := RDY;
            } else {
              r := INVALID_STATE;
            }
            return;
          }
          i := i + 1;
        }
      }
    }

    method EraseBlock(k: nat)
      requires Valid() && k < |functionBlocks|
      modifies this
      ensures Valid() && Repr == old(Repr)
      ensures Value() == old(Value()).(blocks := old(Value()).blocks[..k] + old(Value()).blocks[k + 1..])
    {
      ghost var before := Value();
      hide SubValues, SubsValid, FunctionBlock.Valid, FunctionBlock.Value;
      functionBlocks := functionBlocks[..k] + functionBlocks[k + 1..];
      assert Values(functionBlocks, blockObjects) == before.blocks[..k] + before.blocks[k + 1..];
    }

    method DeleteInChild(child: FBContainer, ghost k: nat, path: Path) returns (r: Response)
      requires Valid() && path != [] && k < |subContainers| && child == subContainers[k]
      modifies Repr
      ensures Valid() && fresh(Repr - old(Repr)) && this in Repr
      ensures var (sub, response) := Delete(old(Value()).subs[k], path);
        r == response && Value() == Put(old(Value()), k, sub)
      decreases |path|, 2
    {
      hide FunctionBlock.Valid, FunctionBlock.Value, BlocksValid, Values, SubsValid, Delete;
      ghost var before, subs, owned := Value(), SubValues(subContainers, subObjects), {};
      OwnsSub(subContainers, subObjects, k);
      r, owned := DeleteInSub(subContainers, child, k, path, subObjects);
      Repr := Repr + owned;
      subObjects := owned;
      assert SubValues(subContainers, owned) == subs[k := SubValues(subContainers, owned)[k]];
    }

    method DeleteFB(path: Path) returns (r: Response)
      requires Valid() && path != []
      modifies Repr
      ensures Valid() && fresh(Repr - old(Repr)) && this in Repr
      ensures (Value(), r) == Delete(old(Value()), path)
      decreases |path|, 0
    {
      if |path| == 1 {
        assert path == [path[0]];
        r := DeleteHere(path[0]);
      } else {
        r := NO_SUCH_OBJECT;
        var child := FindOrCreateContainer(path[0]);
        if child != null {
          r := DeleteInChild(child, FindOrCreate(old(Value()), path[0]).1.value, path[1..]);
        }
      }
    }

    method CommandHere(name: nat, cmd: Command) returns (r: Response)
      requires Valid()
      modifies Repr
      ensures Valid() && Repr == old(Repr)
      ensures match FindBlock(old(Value()).blocks, name)
        case None => r == NO_SUCH_OBJECT && Value() == old(Value())
        case Some(k) =>
          var (b, response) := Change(old(Value()).blocks[k], cmd);
          r == response && Value() == old(Value()).(blocks := old(Value()).blocks[k := b])
    {
      r := NO_SUCH_OBJECT;
      var fb := GetFB(name);
      if fb != null {
        ghost var before := Value();
        ghost var k := FindBlock(before.blocks, name).value;
        OwnsBlock(functionBlocks, blockObjects, k);
        hide FunctionBlock.Valid, FunctionBlock.Value, BlocksValid, SubsValid, SubValues, Change, FindBlock;
        r := ChangeOneBlock(functionBlocks, fb, k, cmd, blockObjects);
        assert Values(functionBlocks, blockObjects) == before.blocks[k := Values(functionBlocks, blockObjects)[k]];
      }
    }

    /** A state command for the block that the lookup comes to: the lookup and the change of the
        block found are one walk down. */
    method CommandFB(path: Path, cmd: Command) returns (r: Response)
      requires Valid() && path != []
      modifies Repr
      ensures Valid() && Repr == old(Repr) && this in Repr
      ensures (Value(), r) == CommandAt(old(Value()), path, cmd)
      decreases |path|, 0
    {
      if |path| > 1 {
        var child := GetFBContainer(path[0]);
        if child != null {
          r := CommandInChild(child, FindSub(Value().subs, path[0]).value, path[1..], cmd);
          return;
        }
      }
      r := CommandHere(path[0], cmd);
    }

    method CommandInChild(child: FBContainer, ghost k: nat, path: Path, cmd: Command) returns (r: Response)
      requires Valid() && path != [] && k < |subContainers| && child == subContainers[k]
      modifies Repr
      ensures Valid() && Repr == old(Repr)
      ensures var (sub, response) := CommandAt(old(Value()).subs[k], path, cmd);
        r == response && Value() == Put(old(Value()), k, sub)
      decreases |path|, 2
    {
      OwnsSub(subContainers, subObjects, k);
      hide FunctionBlock.Valid, FunctionBlock.Value, BlocksValid, Values, SubsValid, CommandAt;
      ghost var subs := SubValues(subContainers, subObjects);
      r := CommandInSub(subContainers, child, k, path, cmd, subObjects);
      assert SubValues(subContainers, subObjects) == subs[k := SubValues(subContainers, subObjects)[k]];
    }
  }

  lemma OwnsBlock(bs: seq<FunctionBlock>, owned: set<object>, k: nat)
    requires BlocksValid(bs, owned) && k < |bs|
    ensures bs[k].Repr <= owned
  {
  }

  method CommandInSub(cs: seq<FBContainer>, child: FBContainer, ghost k: nat, path: Path, cmd: Command,
                      ghost owned: set<object>)
    returns (r: Response)
    requires SubsValid(cs, owned) && path != [] && k < |cs| && child == cs[k]
    modifies child.Repr
    ensures SubsValid(cs, owned)
    ensures (SubValues(cs, owned)[k], r) == CommandAt(old(SubValues(cs, owned)[k]), path, cmd)
    ensures forall j :: 0 <= j < |cs| && j != k ==> SubValues(cs, owned)[j] == old(SubValues(cs, owned)[j])
    decreases |path|, 1
  {
    hide FunctionBlock.Valid, FunctionBlock.Value, FBContainer.Valid, FBContainer.Value, CommandAt;
    ghost var before := SubValues(cs, owned);
    r := child.CommandFB(path, cmd);
    assert forall j :: 0 <= j < |cs| && j != k ==> cs[j].Repr !! child.Repr;
    assert forall j :: 0 <= j < |cs| && j != k ==> cs[j].Valid() && cs[j].Value() == before[j];
  }

  lemma OwnsSub(cs: seq<FBContainer>, owned: set<object>, k: nat)
    requires SubsValid(cs, owned) && k < |cs|
    ensures cs[k].Repr <= owned
  {
  }

  /** Hands a creation to one of several containers, which leaves the others as they are. */
  method CreateInSub(cs: seq<FBContainer>, child: FBContainer, ghost k: nat, path: Path, lib: Lookup,
                     ghost owned: set<object>)
    returns (r: Response, ghost wider: set<object>)
    requires SubsValid(cs, owned) && path != [] && k < |cs| && child == cs[k]
    modifies child.Repr
    ensures wider == owned + child.Repr && fresh(wider - owned) && SubsValid(cs, wider)
    ensures (SubValues(cs, wider)[k], r) == Create(old(SubValues(cs, owned)[k]), path, lib)
    ensures forall j :: 0 <= j < |cs| && j != k ==> SubValues(cs, wider)[j] == old(SubValues(cs, owned)[j])
    decreases |path|, 1
  {
    hide FunctionBlock.Valid, FunctionBlock.Value, FBContainer.Valid, FBContainer.Value, Create;
    ghost var before := SubValues(cs, owned);
    r := child.CreateFB(path, lib);
    wider := owned + child.Repr;
    assert forall j :: 0 <= j < |cs| && j != k ==> cs[j].Repr !! child.Repr;
    assert forall j :: 0 <= j < |cs| && j != k ==> cs[j].Valid() && cs[j].Value() == before[j];
  }

  /** Hands a deletion to one of several containers, which leaves the others as they are. */
  method DeleteInSub(cs: seq<FBContainer>, child: FBContainer, ghost k: nat, path: Path,
                     ghost owned: set<object>)
    returns (r: Response, ghost wider: set<object>)
    requires SubsValid(cs, owned) && path != [] && k < |cs| && child == cs[k]
    modifies child.Repr
    ensures wider == owned + child.Repr && fresh(wider - owned) && SubsValid(cs, wider)
    ensures (SubValues(cs, wider)[k], r) == Delete(old(SubValues(cs, owned)[k]), path)
    ensures forall j :: 0 <= j < |cs| && j != k ==> SubValues(cs, wider)[j] == old(SubValues(cs, owned)[j])
    decreases |path|, 1
  {
    hide FunctionBlock.Valid, FunctionBlock.Value, FBContainer.Valid, FBContainer.Value, Delete;
    ghost var before := SubValues(cs, owned);
    r := child.DeleteFB(path);
    wider := owned + child.Repr;
    assert forall j :: 0 <= j < |cs| && j != k ==> cs[j].Repr !! child.Repr;
    assert forall j :: 0 <= j < |cs| && j != k ==> cs[j].Valid() && cs[j].Value() == before[j];
  }

  // ---- the type library ----

  /** Constructs a block and moves it into its idle state; the response to the reset is dropped. */
  method CreateBlock(p: Part) returns (fb: FunctionBlock)
    ensures fb.Valid() && fb in fb.Repr && fresh(fb.Repr) && fb.Value() == NewBlock(p)
    decreases p, 1
  {
    var internals, owned := CreateInternalFBs(p.fbType.parts);
    var inside: FBContainer? := null;
    if p.fbType.resource {
      inside := new FBContainer(0);
    }
    fb := new FunctionBlock(p.name, seq(p.fbType.adapters, _ => Killed), internals, inside, owned);
    assert fb.Value() == Constructed(p);
    var _ := fb.ChangeFBExecutionState(Reset);
  }

  method CreateInternalFBs(parts: seq<Part>) returns (bs: seq<FunctionBlock>, ghost owned: set<object>)
    ensures BlocksValid(bs, owned) && fresh(owned) && Values(bs, owned) == NewParts(parts)
    decreases parts, 0
  {
    hide FunctionBlock.Valid, FunctionBlock.Value, NewBlock;
    bs, owned := [], {};
    for i := 0 to |parts|
      invariant BlocksValid(bs, owned) && fresh(owned) && Values(bs, owned) == NewParts(parts[..i])
    {
      var fb := CreateBlock(parts[i]);
      ghost var before := Values(bs, owned);
      NewPartsConcat(parts[..i], parts[i]);
      assert parts[..i + 1] == parts[..i] + [parts[i]];
      bs := bs + [fb];
      owned := owned + fb.Repr;
      assert Values(bs, owned) == before + [fb.Value()];
    }
    assert parts[..|parts|] == parts;
  }

  lemma {:induction false} NewPartsConcat(parts: seq<Part>, p: Part)
    ensures NewParts(parts + [p]) == NewParts(parts) + [NewBlock(p)]
  {
    if parts == [] {
      assert parts + [p] == [p];
    } else {
      NewPartsConcat(parts[1..], p);
      assert (parts + [p])[1..] == parts[1..] + [p];
    }
  }
}
