/**
 The object stack itself: the macros of obstack.h as methods on a mutable
 object.  Every method leaves the invariant of ObstackState in force.
 */
module ObstackMacros {
  import opened Basics
  import opened ObstackState
  import opened ObstackSteps

  /** The chunk function: a block of the requested size, apart from every chunk in use, contents arbitrary. */
  method ChunkAlloc(chunks: seq<Chunk>, size: nat) returns (c: Chunk)
    ensures |c.data| == size
    ensures forall i | 0 <= i < |chunks| :: Disjoint(chunks[i], c)
  {
    var addr := 0;
    for k := 0 to |chunks|
      invariant forall i | 0 <= i < k :: chunks[i].Limit() <= addr
    {
      if chunks[k].Limit() > addr { addr := chunks[k].Limit(); }
    }
    c := Chunk(addr, seq(size, _ => 0));
  }

  lemma ChunkSuits(s: State, c: Chunk, length: nat)
    requires IsMask(s.mask) && Bounds(s)
    requires |c.data| >= HEADER + s.mask + (s.nextFree - s.objectBase) + length
    requires forall i | 0 <= i < |s.chunks| :: Disjoint(s.chunks[i], c)
    ensures Suits(s, c) && c.Start(s.mask) + |Growing(s)| + length <= c.Limit()
    ensures |Growing(s)| == s.nextFree - s.objectBase
  {
    StartAboveHeader(c, s.mask);
  }

  lemma MoveShape(s: State, c: Chunk)
    requires Bounds(s) && Suits(s, c)
    ensures var kept := if KeepsOld(s) then s.chunks else s.chunks[..|s.chunks| - 1];
            && Move(s, c).chunks == kept + [c.Write(c.Start(s.mask), Growing(s))]
            && Move(s, c).chunks[..|Move(s, c).chunks| - 1] == kept
            && Move(s, c).chunks[|Move(s, c).chunks| - 1].Start(s.mask) == c.Start(s.mask)
  {}

  /** _obstack_begin takes 0 for "the default". */
  function OrDefault(x: nat, dflt: nat): nat {
    if x == 0 then dflt else x
  }

  /** Chunks of this size can hold their own header and an aligned start. */
  ghost predicate Workable(size: nat, alignment: nat) {
    alignment >= 1 && IsMask(alignment - 1) && size >= HEADER + alignment - 1
  }

  lemma GrowingLength(s: State)
    requires Inv(s)
    ensures Bounds(s) && |Growing(s)| == s.nextFree - s.objectBase
  {}

  class Obstack {
    const mask: nat
    var chunkSize: nat
    var chunks: seq<Chunk>
    var objectBase: nat
    var nextFree: nat
    var chunkLimit: nat
    var maybeEmpty: bool
    ghost var finished: seq<Obj>

    ghost function View(): State
      reads this
    {
      State(chunks, objectBase, nextFree, chunkLimit, mask, maybeEmpty, finished)
    }

    ghost predicate Valid()
      reads this
    {
      Inv(View()) && chunkSize >= HEADER + mask
    }

    /** The bytes of the growing object. */
    ghost function Current(): seq<Byte>
      requires Valid()
      reads this
    {
      Growing(View())
    }

    /** obstack_init, obstack_begin and obstack_specify_allocation: 0 asks for the default size or alignment. */
    constructor (size: nat, alignment: nat, defaultSize: nat, defaultAlignment: nat)
      requires Workable(OrDefault(size, defaultSize), OrDefault(alignment, defaultAlignment))
      ensures Valid() && finished == [] && Current() == []
      ensures |chunks| == 1 && objectBase == nextFree == chunks[0].Start(mask) && !maybeEmpty
      ensures mask == (if alignment == 0 then defaultAlignment else alignment) - 1
      ensures chunkSize == if size == 0 then defaultSize else size
    {
      mask := OrDefault(alignment, defaultAlignment) - 1;
      chunks := [];
      new;
      Begin(OrDefault(size, defaultSize));
    }

    /** The first chunk of a stack that has none. */
    method Begin(size: nat)
      requires chunks == [] && IsMask(mask) && size >= HEADER + mask
      modifies this
      ensures Valid() && finished == [] && Current() == [] && chunkSize == size
      ensures |chunks| == 1 && |chunks[0].data| == size
      ensures objectBase == nextFree == chunks[0].Start(mask) && !maybeEmpty
    {
      hide PtrAlign, IsMask;
      var c := ChunkAlloc([], size);
      StartAboveHeader(c, mask);
      chunkSize := size;
      chunks := [c];
      objectBase, nextFree, chunkLimit := c.Start(mask), c.Start(mask), c.Limit();
      maybeEmpty, finished := false, [];
      assert Packed(chunks, mask, All(View()), 0);
    }

    /** _obstack_newchunk: a larger chunk takes over; the growing object is copied to its start. */
    method NewChunk(length: nat)
      requires Valid()
      modifies this
      ensures Valid() && finished == old(finished) && Current() == old(Current())
      ensures nextFree + length <= chunkLimit && objectBase == chunks[|chunks| - 1].Start(mask)
      ensures chunks[..|chunks| - 1] ==
              if old(maybeEmpty || objectBase != chunks[|chunks| - 1].Start(mask)) then old(chunks)
              else old(chunks[..|chunks| - 1])
      ensures |chunks[|chunks| - 1].data| >= chunkSize
      ensures !maybeEmpty && chunkSize == old(chunkSize)
    {
      hide PtrAlign, Packed, Placed, FlagOk, ChunksOk, Growing;
      ghost var s := View();
      var want := HEADER + mask + (nextFree - objectBase) + length;
      var c := ChunkAlloc(chunks, if want < chunkSize then chunkSize else want);
      ChunkSuits(s, c, length);
      MoveKeeps(s, c);
      MoveShape(s, c);
      Relocate(c);
    }

    /** The growing object moves to chunk c, and the old chunk leaves the chain if the object was alone in it. */
    method Relocate(c: Chunk)
      requires Bounds(View()) && Suits(View(), c)
      modifies this
      ensures View() == Move(old(View()), c) && chunkSize == old(chunkSize)
    {
      hide PtrAlign;
      var from, start, size := chunks[|chunks| - 1], c.Start(mask), nextFree - objectBase;
      var copied := c.Write(start, from.Bytes(objectBase, size));
      if !maybeEmpty && objectBase == from.Start(mask) {
        chunks := chunks[..|chunks| - 1];
      }
      chunks := chunks + [copied];
      chunkLimit := c.Limit();
      objectBase := start;
      nextFree := start + size;
      maybeEmpty := false;
    }

    /** obstack_make_room. */
    method MakeRoom(length: nat)
      requires Valid()
      modifies this
      ensures Valid() && finished == old(finished) && Current() == old(Current()) && chunkSize == old(chunkSize)
      ensures nextFree + length <= chunkLimit
      ensures old(nextFree + length <= chunkLimit) ==> View() == old(View())
      ensures old(nextFree + length > chunkLimit) ==> objectBase == chunks[|chunks| - 1].Start(mask)
    {
      if chunkLimit - nextFree < length {
        NewChunk(length);
      }
    }

    /** The store common to the growing macros, once there is room. */
    method Put(bytes: seq<Byte>)
      requires Valid() && nextFree + |bytes| <= chunkLimit
      modifies this
      ensures Valid() && View() == Append(old(View()), bytes) && chunkSize == old(chunkSize)
      ensures finished == old(finished) && Current() == old(Current()) + bytes
      ensures SameGeometry(old(View()), View())
    {
      AppendKeeps(View(), bytes);
      hide Growing, PtrAlign, Packed, Placed, FlagOk, ChunksOk;
      var last := |chunks| - 1;
      chunks := chunks[last := chunks[last].Write(nextFree, bytes)];
      nextFree := nextFree + |bytes|;
      assert View() == Append(old(View()), bytes);
    }

    /** obstack_grow. */
    method Grow(bytes: seq<Byte>)
      requires Valid()
      modifies this
      ensures Valid() && finished == old(finished) && Current() == old(Current()) + bytes
      ensures old(nextFree + |bytes| <= chunkLimit) ==> View() == Append(old(View()), bytes)
      ensures old(nextFree + |bytes| <= chunkLimit) ==>
                && SameGeometry(old(View()), View()) && objectBase == old(objectBase) && nextFree == old(nextFree) + |bytes|
                && chunkLimit == old(chunkLimit) && maybeEmpty == old(maybeEmpty)
      ensures old(nextFree + |bytes| > chunkLimit) ==> objectBase == chunks[|chunks| - 1].Start(mask)
      ensures chunkSize == old(chunkSize)
    {
      hide Inv, Growing;
      if nextFree + |bytes| > chunkLimit {
        NewChunk(|bytes|);
      }
      Put(bytes);
    }

    /** obstack_grow0: the bytes and a terminating zero. */
    method Grow0(bytes: seq<Byte>)
      requires Valid()
      modifies this
      ensures Valid() && finished == old(finished) && Current() == old(Current()) + bytes + [0]
      ensures old(nextFree + |bytes| + 1 <= chunkLimit) ==>
                && SameGeometry(old(View()), View()) && objectBase == old(objectBase) && nextFree == old(nextFree) + |bytes| + 1
                && chunkLimit == old(chunkLimit) && maybeEmpty == old(maybeEmpty)
      ensures chunkSize == old(chunkSize)
    {
      hide Inv, Growing;
      if nextFree + |bytes| + 1 > chunkLimit {
        NewChunk(|bytes| + 1);
      }
      Put(bytes);
      Put([0]);
    }

    /** obstack_1grow. */
    method Grow1(datum: Byte)
      requires Valid()
      modifies this
      ensures Valid() && finished == old(finished) && Current() == old(Current()) + [datum]
      ensures old(nextFree + 1 <= chunkLimit) ==>
                && SameGeometry(old(View()), View()) && objectBase == old(objectBase) && nextFree == old(nextFree) + 1
                && chunkLimit == old(chunkLimit) && maybeEmpty == old(maybeEmpty)
      ensures chunkSize == old(chunkSize)
    {
      hide Inv, Growing;
      if nextFree + 1 > chunkLimit {
        NewChunk(1);
      }
      Put([datum]);
    }

    /** obstack_blank: n uninitialised bytes more, or -n bytes less. */
    method Blank(n: int)
      requires Valid() && nextFree - objectBase + n >= 0
      modifies this
      ensures Valid() && finished == old(finished) && |Current()| == |old(Current())| + n
      ensures n >= 0 ==> old(Current()) <= Current()
      ensures n <= 0 ==> Current() <= old(Current())
      ensures old(nextFree + n <= chunkLimit) ==>
                && SameGeometry(old(View()), View()) && objectBase == old(objectBase) && nextFree == old(nextFree) + n
                && chunkLimit == old(chunkLimit) && maybeEmpty == old(maybeEmpty)
      ensures old(nextFree + n > chunkLimit) ==> objectBase == chunks[|chunks| - 1].Start(mask)
      ensures chunkSize == old(chunkSize)
    {
      hide Inv, Growing;
      GrowingLength(View());
      if chunkLimit - nextFree < n {
        NewChunk(n);
        GrowingLength(View());
      }
      BlankFast(n);
    }

    /** obstack_blank_fast: the caller has made sure that the new end lies inside the chunk. */
    method BlankFast(n: int)
      requires Valid() && objectBase <= nextFree + n <= chunkLimit
      modifies `nextFree
      ensures Valid() && nextFree == old(nextFree) + n && |Current()| == |old(Current())| + n
      ensures n >= 0 ==> old(Current()) <= Current()
      ensures n <= 0 ==> Current() <= old(Current())
    {
      ResizeKeeps(View(), n);
      hide Growing, PtrAlign, Packed, Placed, FlagOk, ChunksOk;
      nextFree := nextFree + n;
      assert View() == Resize(old(View()), n);
    }

    /** obstack_finish: hands out the growing object and starts an empty one after it. */
    method Finish() returns (value: nat)
      requires Valid()
      modifies this
      ensures Valid() && Current() == []
      ensures value == old(objectBase)
      ensures finished == old(finished) + [Obj(value, old(Current()), |chunks| - 1)]
      ensures View() == ObstackSteps.Finish(old(View()))
      ensures chunks == old(chunks) && chunkLimit == old(chunkLimit) && chunkSize == old(chunkSize)
      ensures maybeEmpty == old(maybeEmpty || nextFree == objectBase)
      ensures objectBase == nextFree == NextPlace(old(nextFree), mask, chunkLimit)
      ensures old(nextFree) <= objectBase && (objectBase % (mask + 1) == 0 || objectBase == chunkLimit)
    {
      hide PtrAlign, Packed, Placed, FlagOk, ChunksOk;
      FinishKeeps(View());
      NextPlaceIsLeast(nextFree, mask, chunkLimit, chunkLimit);
      value := objectBase;
      if nextFree == value {
        maybeEmpty := true;
      }
      finished := All(View());
      nextFree := PtrAlign(nextFree, mask);
      if nextFree - chunks[|chunks| - 1].addr > chunkLimit - chunks[|chunks| - 1].addr {
        nextFree := chunkLimit;
      }
      objectBase := nextFree;
    }

    /** obstack_copy: grow and finish in one. */
    method Copy(bytes: seq<Byte>) returns (value: nat)
      requires Valid()
      modifies this
      ensures Valid() && Current() == []
      ensures finished == old(finished) + [Obj(value, old(Current()) + bytes, |chunks| - 1)]
      ensures value == if old(nextFree + |bytes| <= chunkLimit) then old(objectBase) else chunks[|chunks| - 1].Start(mask)
    {
      Grow(bytes);
      value := Finish();
    }

    /** obstack_alloc: an uninitialised object of n more bytes. */
    method Alloc(n: nat) returns (value: nat)
      requires Valid()
      modifies this
      ensures Valid() && Current() == []
      ensures |finished| == |old(finished)| + 1 && finished[..|old(finished)|] == old(finished)
      ensures finished[|old(finished)|].addr == value
      ensures value == if old(nextFree + n <= chunkLimit) then old(objectBase) else chunks[|chunks| - 1].Start(mask)
      ensures |finished[|old(finished)|].bytes| == |old(Current())| + n && old(Current()) <= finished[|old(finished)|].bytes
    {
      hide Growing;
      assert nextFree - objectBase >= 0;
      hide Inv;
      Blank(n);
      value := Finish();
    }

    /**
     obstack_free: obj is the address of finished object i, or of the growing
     object when i counts all finished ones.
     */
    method Free(obj: nat, ghost i: nat)
      requires Valid() && i <= |finished| && All(View())[i].addr == obj
      modifies this
      ensures All(old(View()))[i].home < |old(chunks)|
      ensures Valid() && View() == Cut(old(View()), i)
      ensures finished == old(finished)[..i] && Current() == [] && objectBase == nextFree == obj
      ensures 1 <= |chunks| <= |old(chunks)| && chunks == old(chunks)[..|chunks|] && chunks[|chunks| - 1].Holds(obj)
      ensures chunkLimit == chunks[|chunks| - 1].Limit() && chunkSize == old(chunkSize)
      ensures maybeEmpty == (old(maybeEmpty) || |chunks| < |old(chunks)|)
    {
      hide PtrAlign, Packed, Placed, FlagOk, ChunksOk;
      ghost var s := View();
      ghost var home := All(s)[i].home;
      ObjectPlaced(s, i);
      CutKeeps(s, i);
      StartAboveHeader(chunks[home], mask);
      ghost var last := |chunks| - 1;
      if chunks[|chunks| - 1].addr < obj && obj < chunkLimit {
        if home != last { OneChunkHolds(s, home, last, obj); }
        assert chunks[..home + 1] == chunks;
        nextFree, objectBase := obj, obj;
        finished := finished[..i];
      } else {
        SlowFree(obj, i);
      }
    }

    /** __obstack_free for the address of an object. */
    method SlowFree(obj: nat, ghost i: nat)
      requires Valid() && i <= |finished| && All(View())[i].addr == obj
      requires All(View())[i].home < |chunks| && chunks[All(View())[i].home].Holds(obj)
      modifies this
      ensures View() == Cut(old(View()), i) && chunkSize == old(chunkSize)
    {
      hide PtrAlign, Packed, Placed, FlagOk, ChunksOk;
      ghost var s := View();
      ghost var home := All(s)[i].home;
      Unwind(obj);
      assert home < |chunks|;
      if |chunks| - 1 != home { OneChunkHolds(s, home, |chunks| - 1, obj); }
      objectBase, nextFree := obj, obj;
      chunkLimit := chunks[|chunks| - 1].Limit();
      finished := finished[..i];
    }

    /** The loop of __obstack_free: chunks are released from the newest back to the one that holds obj, if any does. */
    method Unwind(obj: nat)
      modifies `chunks, `maybeEmpty
      ensures |chunks| <= |old(chunks)| && chunks == old(chunks)[..|chunks|]
      ensures chunks == [] || chunks[|chunks| - 1].Holds(obj)
      ensures forall k | |chunks| <= k < |old(chunks)| :: !old(chunks)[k].Holds(obj)
      ensures maybeEmpty == (old(maybeEmpty) || |chunks| < |old(chunks)|)
    {
      while chunks != [] && (chunks[|chunks| - 1].addr >= obj || chunks[|chunks| - 1].Limit() < obj)
        invariant |chunks| <= |old(chunks)| && chunks == old(chunks)[..|chunks|]
        invariant forall k | |chunks| <= k < |old(chunks)| :: !old(chunks)[k].Holds(obj)
        invariant maybeEmpty == (old(maybeEmpty) || |chunks| < |old(chunks)|)
        decreases |chunks|
      {
        chunks := chunks[..|chunks| - 1];
        maybeEmpty := true;
      }
    }

    /** obstack_free of the null pointer: no chunk and no object is left, and the stack must be begun anew. */
    method FreeAll()
      requires Valid()
      modifies this
      ensures chunks == [] && finished == [] && chunkSize == old(chunkSize)
    {
      Unwind(0);
      finished := [];
    }

    /** obstack_empty_p. */
    method EmptyP() returns (empty: bool)
      requires Valid()
      ensures empty <==> |chunks| == 1 && forall i | 0 <= i < |All(View())| :: All(View())[i].bytes == []
    {
      hide PtrAlign, Packed, Placed, FlagOk, ChunksOk;
      if |chunks| == 1 { EmptyExactlyWhen(View()); }
      empty := |chunks| == 1 && nextFree == chunks[|chunks| - 1].Start(mask);
    }
  }
}
