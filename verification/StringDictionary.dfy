/** The string dictionary: a character buffer that is only appended to, and an index of ids sorted by
    text, both grown by half when they are full. */
module StringDictionary {
  import opened Options
  import opened Bytes
  import opened CStrings
  import opened StringTable

  const INVALID_ID := 0xFFFF_FFFF
  const UNSIGNED_RANGE := 0x1_0000_0000

  /** (x * 3) >> 1 in 32 bits. */
  function Grown(x: nat): (g: nat)
    ensures g < UNSIGNED_RANGE
  {
    (x * 3) % UNSIGNED_RANGE / 2
  }

  /** The id buffer really grows exactly from two entries on, and while the product fits 32 bits; then
      it grows by half. */
  lemma IdBufferGrowsIff(capacity: nat)
    requires capacity < 0x1_0000_0000
    ensures Grown(capacity) > capacity <==> 2 <= capacity <= 0x5555_5555
    ensures capacity <= 0x5555_5555 ==> Grown(capacity) == capacity + capacity / 2
  {
  }

  /** The string buffer gets room for the new text exactly while the product fits 32 bits. */
  lemma BufferGrowsEnoughIff(required: nat)
    requires required < UNSIGNED_RANGE
    ensures Grown(required) >= required <==> required <= 0x5555_5555
  {
  }

  class StringDictionary {
    var buffer: array<Byte>
    var ids: array<nat>
    var count: nat
    var next: nat

    /** The texts in the order of their insertion, and their numbers sorted by text. */
    ghost var texts: seq<Text>
    ghost var order: seq<nat>

    ghost predicate Valid()
      reads this, buffer, ids
    {
      && next <= buffer.Length < UNSIGNED_RANGE && count <= ids.Length < UNSIGNED_RANGE
      && AllProper(texts) && SortedIndex(texts, order)
      && buffer[..next] == Tiled(texts)
      && count == |texts|
      && ids[..count] == IdsFor(texts, order)
    }

    /** The constant strings come as a ready buffer and a ready index. */
    constructor (stringBufSize: nat, maxNrOfStrings: nat, constStrings: seq<Byte>, constIds: seq<nat>,
                 ghost constTexts: seq<Text>, ghost constOrder: seq<nat>)
      requires stringBufSize < UNSIGNED_RANGE && maxNrOfStrings < UNSIGNED_RANGE
      requires AllProper(constTexts) && SortedIndex(constTexts, constOrder)
      requires constStrings == Tiled(constTexts) && |constStrings| <= 0x5555_5555
      requires |constTexts| <= 0x5555_5555
      requires constIds == IdsFor(constTexts, constOrder)
      ensures Valid() && texts == constTexts && fresh(buffer) && fresh(ids)
      ensures buffer.Length ==
        if stringBufSize < |constStrings| then |constStrings| + |constStrings| / 2 else stringBufSize
      ensures ids.Length == if maxNrOfStrings < |constIds| then |constIds| + |constIds| / 2 else maxNrOfStrings
    {
      hide Tiled, SortedIndex, IdsFor, IdOf, AllProper, Grown;
      IndexAsLong(constTexts, constOrder);
      IdBufferGrowsIff(|constStrings|);
      IdBufferGrowsIff(|constIds|);
      var bufSize := if stringBufSize < |constStrings| then Grown(|constStrings|) else stringBufSize;
      var maxStrings := if maxNrOfStrings < |constIds| then Grown(|constIds|) else maxNrOfStrings;
      buffer := new Byte[bufSize];
      ids := new nat[maxStrings];
      count := |constIds|;
      next := |constStrings|;
      texts, order := constTexts, constOrder;
      new;
      forall i | 0 <= i < |constStrings| {
        buffer[i] := constStrings[i];
      }
      forall i | 0 <= i < |constIds| {
        ids[i] := constIds[i];
      }
    }

    lemma Used()
      requires Valid()
      ensures buffer[..] == Tiled(texts) + buffer[next..]
    {
    }

    lemma TextOfEntry(i: nat)
      requires Valid() && i < count
      ensures order[i] < |texts| && ids[i] == IdOf(texts, order[i]) < next
      ensures CString(buffer[..][ids[i]..]) == texts[order[i]]
    {
      assert ids[..count][i] == ids[i];
      Used();
      TextAtId(texts, order[i], buffer[next..]);
    }

    /** The text at an id, or nothing for a number that is not an id. */
    method Get(id: nat) returns (text: Option<Text>)
      requires Valid()
      ensures text == Resolved(texts, id)
      ensures text.Some? <==> Issued(texts, id)
      ensures forall k :: 0 <= k < |texts| && id == IdOf(texts, k) ==> text == Some(texts[k])
    {
      LooksIssuedIffIssued(texts, id);
      forall k | 0 <= k < |texts| && id == IdOf(texts, k) ensures Resolved(texts, id) == Some(texts[k]) {
        ResolvesTo(texts, k);
      }
      assert forall i :: 0 <= i < next ==> buffer[i] == Tiled(texts)[i];
      if id >= next {
        return None;
      }
      if id > 0 && buffer[id - 1] != 0 {
        return None;
      }
      text := Some(CString(buffer[..][id..]));
      ghost var k :| 0 <= k < |texts| && id == IdOf(texts, k);
      Used();
      TextAtId(texts, k, buffer[next..]);
    }

    /** The id of a text that is there, or its place in the index. */
    method FindEntry(str: Text) returns (id: nat, at: nat)
      requires Valid()
      ensures id != INVALID_ID <==> str in texts
      ensures str in texts ==> id == IdOf(texts, IndexOf(texts, str))
      ensures str !in texts ==> PlaceFor(texts, order, str, at)
    {
      at := 0;
      if count == 0 {
        return INVALID_ID, at;
      }
      var r := 0;
      var low, high := 0, count;
      while low < high
        invariant low <= high <= count && at < count
        invariant forall i :: 0 <= i < low ==> Before(texts[order[i]], str)
        invariant forall i :: high <= i < count ==> Before(str, texts[order[i]])
        invariant low < high || r != 0
        invariant r > 0 ==> low == at + 1
        invariant r < 0 ==> high == at
      {
        at := (low + high) / 2;
        TextOfEntry(at);
        r := StrCmp(str, CString(buffer[..][ids[at]..]));
        StrCmpIsAnOrder(str, texts[order[at]]);
        StrCmpIsAnOrder(texts[order[at]], str);
        if r == 0 {
          TextsDiffer(texts, order, order[at], IndexOf(texts, str));
          return ids[at], at;
        }
        SidesOf(str, at);
        if r > 0 {
          low := at + 1;
        } else {
          high := at;
        }
      }
      if r > 0 {
        at := at + 1;
      }
      PlaceMeansAbsent(texts, order, str, at);
      id := INVALID_ID;
    }

    lemma SidesOf(str: Text, at: nat)
      requires Valid() && at < count
      ensures Before(texts[order[at]], str) ==> forall i :: 0 <= i <= at ==> Before(texts[order[i]], str)
      ensures Before(str, texts[order[at]]) ==> forall i :: at <= i < count ==> Before(str, texts[order[i]])
    {
      if Before(texts[order[at]], str) {
        forall i | 0 <= i < at ensures Before(texts[order[i]], str) {
          BeforeIsTransitive(texts[order[i]], texts[order[at]], str);
        }
      }
      if Before(str, texts[order[at]]) {
        forall i | at < i < count ensures Before(str, texts[order[i]]) {
          BeforeIsTransitive(str, texts[order[at]], texts[order[i]]);
        }
      }
    }

    method GetId(str: Text) returns (id: nat)
      requires Valid()
      ensures id != 0xFFFF_FFFF <==> str in texts
      ensures str in texts ==> id == IdOf(texts, IndexOf(texts, str))
    {
      var at;
      id, at := FindEntry(str);
    }

    /** `memory` is whether the allocator has what is asked of it. */
    method ReallocateStringIdBuf(newMaxNrOfStrings: nat, memory: bool) returns (ok: bool)
      requires Valid() && newMaxNrOfStrings < UNSIGNED_RANGE
      modifies this`ids
      ensures Valid() && (ids == old(ids) || fresh(ids))
      ensures ok <==> newMaxNrOfStrings <= old(ids.Length) || memory
      ensures ids.Length == if ok && newMaxNrOfStrings > old(ids.Length) then newMaxNrOfStrings else old(ids.Length)
    {
      ok := true;
      if newMaxNrOfStrings > ids.Length {
        if memory {
          var copy := new nat[newMaxNrOfStrings];
          forall i | 0 <= i < ids.Length {
            copy[i] := ids[i];
          }
          ids := copy;
        } else {
          ok := false;
        }
      }
    }

    method ReallocateStringBuf(newBufSize: nat, memory: bool) returns (ok: bool)
      requires Valid() && newBufSize < UNSIGNED_RANGE
      modifies this`buffer
      ensures Valid() && (buffer == old(buffer) || fresh(buffer))
      ensures ok <==> newBufSize <= old(buffer.Length) || memory
      ensures buffer.Length == if ok && newBufSize > old(buffer.Length) then newBufSize else old(buffer.Length)
    {
      ok := true;
      if newBufSize > buffer.Length {
        if memory {
          var copy := new Byte[newBufSize];
          forall i | 0 <= i < buffer.Length {
            copy[i] := buffer[i];
          }
          assert copy[..next] == buffer[..next];
          buffer := copy;
        } else {
          ok := false;
        }
      }
    }

    /** Copies the text and its terminator behind the used part of the buffer. */
    method CopyText(str: Text)
      requires next + |str| + 1 <= buffer.Length
      modifies buffer
      ensures buffer[..next + |str| + 1] == old(buffer[..next]) + str + [0]
    {
      forall i | 0 <= i < |str| {
        buffer[next + i] := str[i];
      }
      buffer[next + |str|] := 0;
    }

    /** Makes room in the index and puts an id there. */
    method PlaceId(id: nat, at: nat)
      requires at <= count < ids.Length
      modifies this`count, ids
      ensures count == old(count) + 1
      ensures ids[..count] == old(ids[..at]) + [id] + old(ids[at..count])
    {
      if at < count {
        forall i | at < i <= count {
          ids[i] := ids[i - 1];
        }
      }
      ids[at] := id;
      count := count + 1;
    }

    method InsertAt(str: Text, at: nat) returns (id: nat)
      requires Valid() && Proper(str) && PlaceFor(texts, order, str, at)
      requires next + |str| + 1 <= buffer.Length && count < ids.Length
      modifies this`count, this`next, this`texts, this`order, buffer, ids
      ensures Valid() && texts == old(texts) + [str]
      ensures id == old(next) == IdOf(texts, |old(texts)|)
    {
      hide StrCmp, Tiled, IdOf, IdsFor, SortedIndex, PlaceFor;
      ghost var before := ids[..count];
      assert at <= |order| == count && AllBelow(order, |texts|) by { PlaceInRange(texts, order, str, at); }
      id := next;
      CopyText(str);
      next := next + |str| + 1;
      PlaceId(id, at);
      IndexGrows(texts, order, str, at);
      TableGrows(texts, str);
      IdsForGrown(texts, order, str, at);
      order := order[..at] + [|texts|] + order[at..];
      texts := texts + [str];
    }

    /** Returns the id the text has, gives it a new one, or refuses it. */
    method Insert(str: Option<Text>, idMemory: bool, bufferMemory: bool) returns (id: nat)
      requires Valid() && (str.Some? ==> IsCString(str.value))
      requires str.Some? && str.value != [] && str.value !in texts ==>
        var required := next + |str.value| + 1;
        && (count < ids.Length || 2 <= ids.Length <= 0x5555_5555)
        && (required <= buffer.Length || required <= 0x5555_5555)
      modifies this, buffer, ids
      ensures Valid() && (buffer == old(buffer) || fresh(buffer)) && (ids == old(ids) || fresh(ids))
      ensures ids.Length == old(ids.Length)
        || (old(count == ids.Length) && ids.Length == old(ids.Length + ids.Length / 2))
      ensures buffer.Length == old(buffer.Length) || (str.Some? &&
        var required := old(next) + |str.value| + 1;
        required > old(buffer.Length) && buffer.Length == required + required / 2)
      ensures str.None? ==> id == INVALID_ID && texts == old(texts)
      ensures str.Some? ==>
        var room := (old(count < ids.Length) || idMemory)
          && (old(next + |str.value| + 1 <= buffer.Length) || bufferMemory);
        var request := Request(str.value, room);
        && texts == Inserted(old(texts), request)
        && (id == INVALID_ID <==> Reply(old(texts), request) == None)
        && (id != INVALID_ID ==> Reply(old(texts), request) == Some(id))
    {
      hide SortedIndex, AllProper, StrCmp, Tiled, IndexOf, IdOf, Grown;
      id := INVALID_ID;
      if str.None? || str.value == [] {
        return;
      }
      var text := str.value;
      var at;
      id, at := FindEntry(text);
      if id != INVALID_ID {
        return;
      }
      var required := next + |text| + 1;
      if count >= ids.Length {
        IdBufferGrowsIff(ids.Length);
        var ok := ReallocateStringIdBuf(Grown(ids.Length), idMemory);
        if !ok {
          return;
        }
      }
      if required > buffer.Length {
        BufferGrowsEnoughIff(required);
        IdBufferGrowsIff(required);
        var ok := ReallocateStringBuf(Grown(required), bufferMemory);
        if !ok {
          return;
        }
      }
      id := InsertAt(text, at);
    }
  }

  lemma IndexAsLong(texts: seq<Text>, order: seq<nat>)
    requires SortedIndex(texts, order)
    ensures |order| == |texts| && AllBelow(order, |texts|)
  {
  }

  lemma PlaceInRange(texts: seq<Text>, order: seq<nat>, str: Text, at: nat)
    requires SortedIndex(texts, order) && PlaceFor(texts, order, str, at)
    ensures at <= |order| == |texts| && AllBelow(order, |texts|)
  {
  }

  lemma TableGrows(texts: seq<Text>, str: Text)
    ensures Tiled(texts + [str]) == Tiled(texts) + str + [0]
    ensures IdOf(texts + [str], |texts|) == |Tiled(texts)|
  {
    TiledConcat(texts, [str]);
    assert (texts + [str])[..|texts|] == texts;
  }
}
