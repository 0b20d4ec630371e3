/** The container tree of a resource seen as a map from name paths to function blocks. */
module PathMap {
  import opened Options
  import opened Management
  import opened ExecutionState

  const INVALID_NAME := 0xFFFF_FFFF

  type Path = seq<nat>

  ghost predicate ValidPath(p: Path) {
    |p| > 0 && forall i :: 0 <= i < |p| ==> p[i] != INVALID_NAME
  }

  // ---- the container operations ----

  /** The first block of that name; the invalid name never matches. */
  function FindBlock(bs: seq<Block>, name: nat): (k: Option<nat>)
    ensures k.Some? ==> k.value < |bs| && bs[k.value].name == name && name != INVALID_NAME
    ensures k.Some? ==> forall i :: 0 <= i < k.value ==> bs[i].name != name
    ensures k.None? && name != INVALID_NAME ==> forall i :: 0 <= i < |bs| ==> bs[i].name != name
  {
    if bs == [] || name == INVALID_NAME then None
    else if bs[0].name == name then Some(0)
    else
      var k := FindBlock(bs[1..], name);
      if k.Some? then Some(k.value + 1) else None
  }

  /** The id that the dictionary never gives out is nobody's name. */
  lemma NamelessFound(bs: seq<Block>, cs: seq<Container>)
    ensures FindBlock(bs, 0xFFFF_FFFF).None? && FindSub(cs, 0xFFFF_FFFF).None?
  {
  }

  function FindSub(cs: seq<Container>, name: nat): (k: Option<nat>)
    ensures k.Some? ==> k.value < |cs| && cs[k.value].name == name && name != INVALID_NAME
    ensures k.Some? ==> forall i :: 0 <= i < k.value ==> cs[i].name != name
    ensures k.None? && name != INVALID_NAME ==> forall i :: 0 <= i < |cs| ==> cs[i].name != name
  {
    if cs == [] || name == INVALID_NAME then None
    else if cs[0].name == name then Some(0)
    else
      var k := FindSub(cs[1..], name);
      if k.Some? then Some(k.value + 1) else None
  }

  /** The subcontainer of that name, made if need be, unless a block has the name. */
  function FindOrCreate(c: Container, name: nat): (r: (Container, Option<nat>))
    ensures r.1.Some? ==> r.1.value < |r.0.subs| && r.0.subs[r.1.value].name == name
  {
    var k := FindSub(c.subs, name);
    if k.Some? then (c, k)
    else if FindBlock(c.blocks, name).None? then
      (c.(subs := c.subs + [Container(name, [], [])]), Some(|c.subs|))
    else (c, None)
  }

  /** What the type library makes of a type name. */
  datatype Lookup = Known(fbType: FBType) | Failed(error: Response)

  function Put(c: Container, k: nat, sub: Container): Container
    requires k < |c.subs|
  {
    c.(subs := c.subs[k := sub])
  }

  function Create(c: Container, path: Path, lib: Lookup): (r: (Container, Response))
    requires path != []
    ensures r.0.name == c.name
    decreases |path|
  {
    if |path| == 1 then
      if FindBlock(c.blocks, path[0]).None? && FindSub(c.subs, path[0]).None? then
        if lib.Known? then (c.(blocks := c.blocks + [NewBlock(Part(path[0], lib.fbType))]), RDY)
        else (c, lib.error)
      else (c, INVALID_STATE)
    else
      var (grown, k) := FindOrCreate(c, path[0]);
      if k.None? then (c, INVALID_STATE)
      else
        var (sub, response) := Create(grown.subs[k.value], path[1..], lib);
        (Put(grown, k.value, sub), response)
  }

  predicate CurrentlyDeletable(b: Block) {
    b.deletable && b.state != Running
  }

  function Delete(c: Container, path: Path): (r: (Container, Response))
    requires path != []
    ensures r.0.name == c.name
    decreases |path|
  {
    if |path| == 1 then
      var k := FindBlock(c.blocks, path[0]);
      if k.None? then (c, NO_SUCH_OBJECT)
      else if CurrentlyDeletable(c.blocks[k.value]) then
        (c.(blocks := c.blocks[..k.value] + c.blocks[k.value + 1..]), RDY)
      else (c, INVALID_STATE)
    else
      var (grown, k) := FindOrCreate(c, path[0]);
      if k.None? then (c, NO_SUCH_OBJECT)
      else
        var (sub, response) := Delete(grown.subs[k.value], path[1..]);
        (Put(grown, k.value, sub), response)
  }

  /** The block that a lookup comes to, and the position in the path of the name it has. */
  function Get(c: Container, path: Path): (r: (Option<Block>, nat))
    requires path != []
    ensures r.1 < |path|
    decreases |path|
  {
    var k := FindSub(c.subs, path[0]);
    if |path| > 1 && k.Some? then
      var (b, at) := Get(c.subs[k.value], path[1..]);
      (b, at + 1)
    else
      var k := FindBlock(c.blocks, path[0]);
      (if k.Some? then Some(c.blocks[k.value]) else None, 0)
  }

  /** A state command for the block that the lookup comes to; nobody asks whether that is the block named. */
  function CommandAt(c: Container, path: Path, cmd: Command): (r: (Container, Response))
    requires path != []
    ensures r.0.name == c.name
    decreases |path|
  {
    var k := FindSub(c.subs, path[0]);
    if |path| > 1 && k.Some? then
      var (sub, response) := CommandAt(c.subs[k.value], path[1..], cmd);
      (Put(c, k.value, sub), response)
    else
      var k := FindBlock(c.blocks, path[0]);
      if k.None? then (c, NO_SUCH_OBJECT)
      else
        var (b, response) := Change(c.blocks[k.value], cmd);
        (c.(blocks := c.blocks[k.value := b]), response)
  }

  /** A state command to a resource: without a target it is for the resource itself. */
  function HandleStateCommand(r: Block, target: Path, cmd: Command): (Block, Response)
    requires r.inside.Some?
  {
    if target == [] then Change(r, cmd)
    else
      var (inside, response) := CommandAt(r.inside.value, target, cmd);
      (r.(inside := Some(inside)), response)
  }

  // ---- the map ----

  /** The block at exactly this path. */
  function At(c: Container, path: Path): Option<Block>
    decreases |path|
  {
    if path == [] then None
    else if |path| == 1 then
      var k := FindBlock(c.blocks, path[0]);
      if k.Some? then Some(c.blocks[k.value]) else None
    else
      var k := FindSub(c.subs, path[0]);
      if k.Some? then At(c.subs[k.value], path[1..]) else None
  }

  predicate HasContainer(c: Container, path: Path)
    decreases |path|
  {
    path == [] ||
    var k := FindSub(c.subs, path[0]);
    k.Some? && HasContainer(c.subs[k.value], path[1..])
  }

  /** No two blocks or subcontainers of one container share a name, at any depth. */
  predicate Distinct(c: Container) {
    && (forall i, j :: 0 <= i < j < |c.blocks| ==> c.blocks[i].name != c.blocks[j].name)
    && (forall i, j :: 0 <= i < j < |c.subs| ==> c.subs[i].name != c.subs[j].name)
    && (forall i, j :: 0 <= i < |c.blocks| && 0 <= j < |c.subs| ==> c.blocks[i].name != c.subs[j].name)
    && (forall i :: 0 <= i < |c.subs| ==> Distinct(c.subs[i]))
  }

  lemma OpeningKeepsDistinct(c: Container, name: nat)
    requires Distinct(c) && name != INVALID_NAME
    ensures Distinct(FindOrCreate(c, name).0)
  {
    assert Distinct(Container(name, [], []));
  }

  lemma PuttingKeepsDistinct(c: Container, k: nat, sub: Container)
    requires Distinct(c) && k < |c.subs| && Distinct(sub) && sub.name == c.subs[k].name
    ensures Distinct(Put(c, k, sub))
  {
  }

  lemma {:induction false} CreateKeepsDistinct(c: Container, path: Path, lib: Lookup)
    requires Distinct(c) && ValidPath(path)
    ensures Distinct(Create(c, path, lib).0)
    decreases |path|
  {
    if |path| > 1 {
      var (grown, k) := FindOrCreate(c, path[0]);
      OpeningKeepsDistinct(c, path[0]);
      if k.Some? {
        CreateKeepsDistinct(grown.subs[k.value], path[1..], lib);
        PuttingKeepsDistinct(grown, k.value, Create(grown.subs[k.value], path[1..], lib).0);
      }
    }
  }

  lemma {:induction false} DeleteKeepsDistinct(c: Container, path: Path)
    requires Distinct(c) && ValidPath(path)
    ensures Distinct(Delete(c, path).0)
    decreases |path|
  {
    if |path| > 1 {
      var (grown, k) := FindOrCreate(c, path[0]);
      OpeningKeepsDistinct(c, path[0]);
      if k.Some? {
        DeleteKeepsDistinct(grown.subs[k.value], path[1..]);
        PuttingKeepsDistinct(grown, k.value, Delete(grown.subs[k.value], path[1..]).0);
      }
    }
  }

  lemma {:induction false} CommandKeepsDistinct(c: Container, path: Path, cmd: Command)
    requires Distinct(c) && ValidPath(path)
    ensures Distinct(CommandAt(c, path, cmd).0)
    decreases |path|
  {
    var k := FindSub(c.subs, path[0]);
    if |path| > 1 && k.Some? {
      CommandKeepsDistinct(c.subs[k.value], path[1..], cmd);
      PuttingKeepsDistinct(c, k.value, CommandAt(c.subs[k.value], path[1..], cmd).0);
    }
  }

  // ---- how the map sees the steps of an operation ----

  lemma FindSubUnique(cs: seq<Container>, name: nat, k: nat)
    requires k < |cs| && cs[k].name == name != INVALID_NAME && forall i :: 0 <= i < k ==> cs[i].name != name
    ensures FindSub(cs, name) == Some(k)
  {
  }

  /** Making a subcontainer shows only in the containers there are. */
  lemma OpeningSeen(c: Container, name: nat, q: Path)
    requires name != INVALID_NAME
    ensures var grown := FindOrCreate(c, name).0;
      && At(grown, q) == At(c, q)
      && (HasContainer(grown, q) <==> HasContainer(c, q) || (q == [name] && FindBlock(c.blocks, name).None?))
  {
    var (grown, k) := FindOrCreate(c, name);
    if q != [] && FindSub(c.subs, name).None? && FindBlock(c.blocks, name).None? {
      var was, now := FindSub(c.subs, q[0]), FindSub(grown.subs, q[0]);
      if q[0] == name {
        FindSubUnique(grown.subs, name, |c.subs|);
        assert At(Container(name, [], []), q[1..]).None?;
        assert HasContainer(Container(name, [], []), q[1..]) <==> q[1..] == [];
      } else if was.Some? {
        FindSubUnique(grown.subs, q[0], was.value);
      } else {
        assert now.None?;
      }
    }
  }

  /** Replacing a subcontainer shows only behind its name. */
  lemma PuttingSeen(c: Container, k: nat, sub: Container, q: Path)
    requires FindSub(c.subs, sub.name) == Some(k)
    ensures At(Put(c, k, sub), q) == if |q| > 1 && q[0] == sub.name then At(sub, q[1..]) else At(c, q)
    ensures HasContainer(Put(c, k, sub), q)
      <==> if q != [] && q[0] == sub.name then HasContainer(sub, q[1..]) else HasContainer(c, q)
  {
    if q != [] {
      var now := Put(c, k, sub);
      if q[0] == sub.name {
        FindSubUnique(now.subs, q[0], k);
      } else {
        var was := FindSub(c.subs, q[0]);
        if was.Some? {
          FindSubUnique(now.subs, q[0], was.value);
        } else {
          assert FindSub(now.subs, q[0]).None?;
        }
      }
    }
  }

  /** No block stands at any of the first n names of the path. */
  predicate NoBlockAlong(c: Container, path: Path, n: nat)
    requires n <= |path|
  {
    forall j :: 0 < j <= n ==> At(c, path[..j]).None?
  }

  lemma BehindSub(c: Container, k: nat, path: Path, n: nat)
    requires Distinct(c) && 0 < n <= |path| && FindSub(c.subs, path[0]) == Some(k)
    ensures NoBlockAlong(c, path, n) <==> NoBlockAlong(c.subs[k], path[1..], n - 1)
  {
    hide Distinct;
    assert At(c, path[..1]).None? by { NamedOnce(c, k); }
    forall j | 1 < j <= n ensures At(c, path[..j]) == At(c.subs[k], path[1..][..j - 1]) {
      assert path[..j][1..] == path[1..][..j - 1];
    }
    if NoBlockAlong(c, path, n) {
      forall j | 0 < j <= n - 1 ensures At(c.subs[k], path[1..][..j]).None? {
        assert At(c, path[..j + 1]).None?;
      }
    }
  }

  lemma NamedOnce(c: Container, k: nat)
    requires Distinct(c) && k < |c.subs|
    ensures FindBlock(c.blocks, c.subs[k].name).None? && Distinct(c.subs[k])
  {
  }

  /** The containers that a walk down the path makes: one for every name in front of the last, up to
      the first that a block has. */
  predicate Opens(c: Container, path: Path, q: Path) {
    0 < |q| < |path| && q == path[..|q|] && NoBlockAlong(c, path, |q|)
  }

  /** A block can be created where neither a block nor a container is, below no block. */
  predicate Creatable(c: Container, path: Path) {
    NoBlockAlong(c, path, |path|) && !HasContainer(c, path)
  }

  /** Opens, one name further down. */
  lemma OpensBelow(c: Container, path: Path, q: Path)
    requires Distinct(c) && ValidPath(path) && |path| > 1
    ensures var (grown, k) := FindOrCreate(c, path[0]);
      if k.None? then !Opens(c, path, q)
      else
        Opens(c, path, q) <==>
          q != [] && q[0] == path[0] && (|q| == 1 || Opens(grown.subs[k.value], path[1..], q[1..]))
  {
    var (grown, k) := FindOrCreate(c, path[0]);
    OpeningKeepsDistinct(c, path[0]);
    if 0 < |q| < |path| {
      AlongGrown(c, path, |q|);
      if k.Some? {
        FoundOrCreated(c, path[0]);
        hide FindOrCreate, FindSub, NoBlockAlong, Distinct, ValidPath;
        BehindSub(grown, k.value, path, |q|);
        OneNameFurther(path, q, |q| - 1);
      } else {
        assert At(c, path[..1]).Some?;
      }
    }
  }

  /** Making the first container on the path does not change which blocks are on it. */
  lemma AlongGrown(c: Container, path: Path, n: nat)
    requires ValidPath(path) && n <= |path|
    ensures NoBlockAlong(FindOrCreate(c, path[0]).0, path, n) <==> NoBlockAlong(c, path, n)
  {
    var grown := FindOrCreate(c, path[0]).0;
    hide At, FindOrCreate;
    forall j | 0 < j <= n ensures At(grown, path[..j]) == At(c, path[..j]) {
      OpeningSeen(c, path[0], path[..j]);
    }
  }

  lemma FoundOrCreated(c: Container, name: nat)
    requires name != INVALID_NAME
    ensures var (grown, k) := FindOrCreate(c, name);
      k.Some? ==> FindSub(grown.subs, name) == k
  {
    var (grown, k) := FindOrCreate(c, name);
    if FindSub(c.subs, name).None? && k.Some? {
      FindSubUnique(grown.subs, name, |c.subs|);
    }
  }

  lemma CreatableBelow(c: Container, path: Path)
    requires Distinct(c) && ValidPath(path) && |path| > 1
    ensures var (grown, k) := FindOrCreate(c, path[0]);
      Creatable(c, path) <==> k.Some? && Creatable(grown.subs[k.value], path[1..])
  {
    var (grown, k) := FindOrCreate(c, path[0]);
    OpeningKeepsDistinct(c, path[0]);
    OpeningSeen(c, path[0], path);
    AlongGrown(c, path, |path|);
    if k.Some? {
      FoundOrCreated(c, path[0]);
      BehindSub(grown, k.value, path, |path|);
      assert |path| > 1 ==> path != [path[0]];
    } else {
      assert At(c, path[..1]).Some?;
    }
  }

  // ---- what the operations do to the map ----

  /** Creating adds exactly the path named, where that is possible, and answers accordingly; whether
      it succeeds or not it leaves the containers on the way. */
  lemma {:induction false} CreateSeen(c: Container, path: Path, lib: Lookup, q: Path)
    requires Distinct(c) && ValidPath(path)
    ensures var (after, response) := Create(c, path, lib);
      && (response == if !Creatable(c, path) then INVALID_STATE else if lib.Known? then RDY else lib.error)
      && (At(after, q) ==
          if Creatable(c, path) && lib.Known? && q == path then Some(NewBlock(Part(path[|path| - 1], lib.fbType)))
          else At(c, q))
      && (HasContainer(after, q) <==> HasContainer(c, q) || Opens(c, path, q))
    decreases |path|
  {
    hide NewBlock, Opens, Creatable, Distinct;
    if |path| == 1 {
      CreateHereSeen(c, path, lib, q);
      assert !Opens(c, path, q) by { NothingOnTheWay(c, path, q); }
    } else {
      var (grown, k) := FindOrCreate(c, path[0]);
      OpeningSeen(c, path[0], q);
      OpensBelow(c, path, q);
      CreatableBelow(c, path);
      if k.Some? {
        OpeningKeepsDistinct(c, path[0]);
        FoundOrCreated(c, path[0]);
        NamedOnce(grown, k.value);
        var sub := grown.subs[k.value];
        var rest := if q == [] then [] else q[1..];
        assert Create(c, path, lib).0 == Put(grown, k.value, Create(sub, path[1..], lib).0);
        assert Create(c, path, lib).1 == Create(sub, path[1..], lib).1;
        hide *;
        CreateSeen(sub, path[1..], lib, rest);
        PuttingSeen(grown, k.value, Create(sub, path[1..], lib).0, q);
        PuttingSeen(grown, k.value, sub, q);
      }
    }
  }

  lemma NothingOnTheWay(c: Container, path: Path, q: Path)
    requires |path| <= 1
    ensures !Opens(c, path, q)
  {
  }

  lemma CreateHereSeen(c: Container, path: Path, lib: Lookup, q: Path)
    requires ValidPath(path) && |path| == 1
    ensures var (after, response) := Create(c, path, lib);
      && (response == if !Creatable(c, path) then INVALID_STATE else if lib.Known? then RDY else lib.error)
      && (At(after, q) ==
          if Creatable(c, path) && lib.Known? && q == path then Some(NewBlock(Part(path[0], lib.fbType)))
          else At(c, q))
      && (HasContainer(after, q) <==> HasContainer(c, q))
  {
    hide NewBlock;
    assert path[..1] == path && path[1..] == [];
    assert NoBlockAlong(c, path, 1) <==> At(c, path[..1]).None?;
    assert At(c, path).None? <==> FindBlock(c.blocks, path[0]).None?;
    assert HasContainer(c, path) <==> FindSub(c.subs, path[0]).Some?;
    assert Creatable(c, path) <==> FindBlock(c.blocks, path[0]).None? && FindSub(c.subs, path[0]).None?;
    if |q| == 1 && Creatable(c, path) && lib.Known? {
      AddedBlock(c.blocks, NewBlock(Part(path[0], lib.fbType)), q[0]);
    }
  }

  lemma {:induction false} AddedBlock(bs: seq<Block>, b: Block, name: nat)
    requires FindBlock(bs, b.name).None? && b.name != INVALID_NAME
    ensures FindBlock(bs + [b], name) == if name == b.name then Some(|bs|) else FindBlock(bs, name)
  {
    hide NewBlock;
    var more := bs + [b];
    if bs == [] {
      assert more[0] == b;
    } else if name != INVALID_NAME {
      assert more[0] == bs[0] && more[1..] == bs[1..] + [b];
      if bs[0].name != name {
        AddedBlock(bs[1..], b, name);
      }
    }
  }

  /** Deleting takes away exactly the path named, if its block is deletable and not running, and answers
      accordingly. It leaves the same containers on the way as creating does. */
  lemma {:induction false} DeleteSeen(c: Container, path: Path, q: Path)
    requires Distinct(c) && ValidPath(path)
    ensures var (after, response) := Delete(c, path);
      var b := At(c, path);
      && (response == if b.None? then NO_SUCH_OBJECT
          else if b.value.deletable && b.value.state != Running then RDY else INVALID_STATE)
      && (At(after, q) == if response == RDY && q == path then None else At(c, q))
      && (HasContainer(after, q) <==> HasContainer(c, q) || Opens(c, path, q))
    decreases |path|
  {
    if |path| == 1 {
      NothingOnTheWay(c, path, q);
      DeleteHereSeen(c, path, q);
    } else {
      hide Opens, Distinct;
      var (grown, k) := FindOrCreate(c, path[0]);
      OpeningSeen(c, path[0], q);
      OpeningSeen(c, path[0], path);
      OpensBelow(c, path, q);
      if k.Some? {
        OpeningKeepsDistinct(c, path[0]);
        FoundOrCreated(c, path[0]);
        NamedOnce(grown, k.value);
        var sub := grown.subs[k.value];
        var rest := if q == [] then [] else q[1..];
        assert Delete(c, path).0 == Put(grown, k.value, Delete(sub, path[1..]).0);
        assert Delete(c, path).1 == Delete(sub, path[1..]).1;
        assert At(c, path) == At(sub, path[1..]);
        hide *;
        DeleteSeen(sub, path[1..], rest);
        PuttingSeen(grown, k.value, Delete(sub, path[1..]).0, q);
        PuttingSeen(grown, k.value, sub, q);
      }
    }
  }

  lemma DeleteHereSeen(c: Container, path: Path, q: Path)
    requires Distinct(c) && ValidPath(path) && |path| == 1
    ensures var (after, response) := Delete(c, path);
      var b := At(c, path);
      && (response == if b.None? then NO_SUCH_OBJECT
          else if b.value.deletable && b.value.state != Running then RDY else INVALID_STATE)
      && (At(after, q) == if response == RDY && q == path then None else At(c, q))
      && (HasContainer(after, q) <==> HasContainer(c, q))
  {
    var k := FindBlock(c.blocks, path[0]);
    if |q| == 1 && k.Some? {
      RemovedBlock(c.blocks, k.value, q[0]);
    }
  }

  lemma FindBlockUnique(bs: seq<Block>, name: nat, k: nat)
    requires k < |bs| && bs[k].name == name != INVALID_NAME && forall i :: 0 <= i < k ==> bs[i].name != name
    ensures FindBlock(bs, name) == Some(k)
  {
  }

  lemma RemovedBlock(bs: seq<Block>, k: nat, name: nat)
    requires k < |bs| && forall i, j :: 0 <= i < j < |bs| ==> bs[i].name != bs[j].name
    ensures var rest := bs[..k] + bs[k + 1..];
      var was, now := FindBlock(bs, name), FindBlock(rest, name);
      if name == bs[k].name then now == None
      else now.Some? == was.Some? && (now.Some? ==> rest[now.value] == bs[was.value])
  {
    var rest := bs[..k] + bs[k + 1..];
    var was, now := FindBlock(bs, name), FindBlock(rest, name);
    if name == bs[k].name {
      assert forall i :: 0 <= i < |rest| ==> rest[i].name != name;
    } else if was.Some? {
      FindBlockUnique(rest, name, if was.value < k then was.value else was.value - 1);
    } else if name != INVALID_NAME {
      assert forall i :: 0 <= i < |rest| ==> rest[i].name != name;
    }
  }

  /** A deletion that fails can keep later creations from succeeding: exactly those at the containers
      it has left behind. */
  lemma FailedDeleteBlocksIff(c: Container, path: Path, q: Path)
    requires Distinct(c) && ValidPath(path) && ValidPath(q) && At(c, path).None?
    ensures Creatable(Delete(c, path).0, q) <==> Creatable(c, q) && !Opens(c, path, q)
  {
    DeleteSeen(c, path, q);
    var after := Delete(c, path).0;
    forall j | 0 < j <= |q| ensures At(after, q[..j]) == At(c, q[..j]) {
      DeleteSeen(c, path, q[..j]);
    }
    assert NoBlockAlong(after, q, |q|) <==> NoBlockAlong(c, q, |q|);
  }

  // ---- lookup and state commands ----

  /** A lookup goes down as far as there are containers and takes the block it finds there. */
  lemma {:induction false} GetMeans(c: Container, path: Path)
    requires path != []
    ensures var (b, at) := Get(c, path);
      && b == At(c, path[..at + 1])
      && HasContainer(c, path[..at])
      && (at + 1 < |path| ==> !HasContainer(c, path[..at + 1]) && At(c, path).None?)
    decreases |path|
  {
    var k := FindSub(c.subs, path[0]);
    if |path| > 1 && k.Some? {
      var (b, at) := Get(c.subs[k.value], path[1..]);
      GetMeans(c.subs[k.value], path[1..]);
      assert path[..at + 2][1..] == path[1..][..at + 1];
      assert path[..at + 1][1..] == path[1..][..at];
    } else {
      assert path[..1] == [path[0]] && path[..0] == [];
    }
  }

  /** A block on the path is where the lookup ends. */
  lemma {:induction false} BlockStopsLookup(c: Container, path: Path, j: nat)
    requires Distinct(c) && ValidPath(path) && 0 < j <= |path| && At(c, path[..j]).Some?
    ensures Get(c, path).1 == j - 1
    decreases |path|
  {
    if j > 1 {
      var k := FindSub(c.subs, path[0]).value;
      assert path[..j][1..] == path[1..][..j - 1];
      NamedOnce(c, k);
      BlockStopsLookup(c.subs[k], path[1..], j - 1);
    } else {
      var k := FindSub(c.subs, path[0]);
      if k.Some? {
        NamedOnce(c, k.value);
      }
    }
  }

  /** A lookup is right about a path exactly if no block stands at a proper part of it. */
  lemma GetIsRightIff(c: Container, path: Path)
    requires Distinct(c) && ValidPath(path)
    ensures Get(c, path).0 == At(c, path) <==> NoBlockAlong(c, path, |path| - 1)
  {
    hide Distinct, Get, At;
    GetMeans(c, path);
    assert path[..|path|] == path;
    forall j | 0 < j < |path| && At(c, path[..j]).Some? ensures Get(c, path).1 == j - 1 {
      BlockStopsLookup(c, path, j);
    }
  }

  /** A state command changes exactly the block that the lookup comes to, named or not. */
  lemma {:induction false} CommandSeen(c: Container, path: Path, cmd: Command, q: Path)
    requires path != []
    ensures var (after, response) := CommandAt(c, path, cmd);
      var (b, at) := Get(c, path);
      && response == (if b.None? then NO_SUCH_OBJECT else Change(b.value, cmd).1)
      && At(after, q) == (if b.Some? && q == path[..at + 1] then Some(Change(b.value, cmd).0) else At(c, q))
      && (HasContainer(after, q) <==> HasContainer(c, q))
    decreases |path|
  {
    hide Change, FindSub, FindBlock;
    var k := FindSub(c.subs, path[0]);
    if |path| > 1 && k.Some? {
      var sub := c.subs[k.value];
      var (_, at) := Get(sub, path[1..]);
      var rest := if q == [] then [] else q[1..];
      CommandSeen(sub, path[1..], cmd, rest);
      PuttingSeen(c, k.value, CommandAt(sub, path[1..], cmd).0, q);
      OneNameFurther(path, q, at + 1);
    } else {
      CommandHereSeen(c, path, cmd, q);
    }
  }

  lemma OneNameFurther(path: Path, q: Path, n: nat)
    requires n < |path|
    ensures q == path[..n + 1] <==> q != [] && q[0] == path[0] && q[1..] == path[1..][..n]
  {
    assert path[..n + 1] == [path[0]] + path[1..][..n];
    assert q != [] ==> q == [q[0]] + q[1..];
  }

  lemma CommandHereSeen(c: Container, path: Path, cmd: Command, q: Path)
    requires path != [] && (|path| == 1 || FindSub(c.subs, path[0]).None?)
    ensures var (after, response) := CommandAt(c, path, cmd);
      var (b, at) := Get(c, path);
      && response == (if b.None? then NO_SUCH_OBJECT else Change(b.value, cmd).1)
      && At(after, q) == (if b.Some? && q == path[..at + 1] then Some(Change(b.value, cmd).0) else At(c, q))
      && (HasContainer(after, q) <==> HasContainer(c, q))
  {
    hide Change;
    var k := FindBlock(c.blocks, path[0]);
    if k.Some? && |q| == 1 {
      ReplacedBlock(c.blocks, k.value, Change(c.blocks[k.value], cmd).0, q[0]);
    }
    assert path[..1] == [path[0]];
  }

  lemma ReplacedBlock(bs: seq<Block>, k: nat, b: Block, name: nat)
    requires k < |bs| && b.name == bs[k].name
    ensures FindBlock(bs[k := b], name) == FindBlock(bs, name)
  {
    var was := FindBlock(bs, name);
    if was.Some? {
      FindBlockUnique(bs[k := b], name, was.value);
    } else if name != INVALID_NAME {
      var now := bs[k := b];
      assert forall i :: 0 <= i < |now| ==> now[i].name != name;
    }
  }

  lemma ChangeAnswers(b: Block, cmd: Command)
    ensures Change(b, cmd).1 == RDY || Change(b, cmd).1 == Refusal(cmd)
  {
    ChangeIsSweep(b, cmd);
    var _ := SweptMeans(States(b), cmd);
  }

  /** A command that names no block is carried out all the same, on another block, exactly if a block
      stands at a proper part of the path. */
  lemma CommandGoesAstrayIff(c: Container, path: Path, cmd: Command)
    requires Distinct(c) && ValidPath(path)
    ensures At(c, path).None? && CommandAt(c, path, cmd).1 != NO_SUCH_OBJECT
      <==> exists j :: 0 < j < |path| && At(c, path[..j]).Some?
  {
    hide Change, Distinct, Get, At, CommandAt;
    var (b, at) := Get(c, path);
    GetMeans(c, path);
    CommandSeen(c, path, cmd, path);
    assert path[..|path|] == path;
    if b.Some? {
      ChangeAnswers(b.value, cmd);
    }
    forall j | 0 < j < |path| && At(c, path[..j]).Some? ensures at == j - 1 {
      BlockStopsLookup(c, path, j);
    }
  }
}
