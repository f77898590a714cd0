/**
 The state changes of the obstack macros as functions, and the proof that
 each keeps the invariant.
 */
module ObstackSteps {
  import opened Basics
  import opened ObstackState

  function Last(s: State): nat
    requires |s.chunks| >= 1
  {
    |s.chunks| - 1
  }

  // ----- Moving the invariant from one list of objects or chunks to another -----

  lemma PlacedPrefix(chunks: seq<Chunk>, mask: nat, objs: seq<Obj>, k: nat)
    requires Placed(chunks, mask, objs) && k <= |objs|
    ensures Placed(chunks, mask, objs[..k])
  {
    forall i | 0 <= i < k ensures Stored(chunks, mask, objs[..k][i]) && Packed(chunks, mask, objs[..k], i) {
      assert objs[..k][i] == objs[i];
      assert Packed(chunks, mask, objs, i);
    }
  }

  lemma PlacedSnoc(chunks: seq<Chunk>, mask: nat, objs: seq<Obj>, o: Obj)
    requires Placed(chunks, mask, objs)
    requires Stored(chunks, mask, o) && Packed(chunks, mask, objs + [o], |objs|)
    ensures Placed(chunks, mask, objs + [o])
  {
    var objs' := objs + [o];
    forall i | 0 <= i < |objs'| ensures Stored(chunks, mask, objs'[i]) && Packed(chunks, mask, objs', i) {
      if i < |objs| {
        assert objs'[i] == objs[i];
        assert Packed(chunks, mask, objs, i);
      }
    }
  }

  /** The chunk looks the same to object o: same place, same extent, same bytes under o. */
  ghost predicate SameFor(c: Chunk, c': Chunk, o: Obj)
    requires c.Contains(o.addr, |o.bytes|)
  {
    && c'.addr == c.addr
    && |c'.data| == |c.data|
    && c'.Bytes(o.addr, |o.bytes|) == c.Bytes(o.addr, |o.bytes|)
  }

  lemma PlacedFrame(chunks: seq<Chunk>, chunks': seq<Chunk>, mask: nat, objs: seq<Obj>)
    requires Placed(chunks, mask, objs)
    requires forall i | 0 <= i < |objs| ::
               && Stored(chunks, mask, objs[i])
               && objs[i].home < |chunks'|
               && SameFor(chunks[objs[i].home], chunks'[objs[i].home], objs[i])
    ensures Placed(chunks', mask, objs)
  {
    hide PtrAlign, Packed, Stored, SameFor;
    forall i | 0 <= i < |objs| ensures Stored(chunks', mask, objs[i]) && Packed(chunks', mask, objs, i) {
      StoredFrame(chunks, chunks', mask, objs[i]);
      PackedFrame(chunks, chunks', mask, objs, i);
    }
  }

  lemma StoredFrame(chunks: seq<Chunk>, chunks': seq<Chunk>, mask: nat, o: Obj)
    requires Stored(chunks, mask, o) && o.home < |chunks'| && SameFor(chunks[o.home], chunks'[o.home], o)
    ensures Stored(chunks', mask, o)
  {
    hide PtrAlign;
  }

  lemma PackedFrame(chunks: seq<Chunk>, chunks': seq<Chunk>, mask: nat, objs: seq<Obj>, i: nat)
    requires i < |objs| && objs[i].home < |chunks'| && Stored(chunks, mask, objs[i]) && Packed(chunks, mask, objs, i)
    requires SameFor(chunks[objs[i].home], chunks'[objs[i].home], objs[i])
    ensures Packed(chunks', mask, objs, i)
  {
    hide PtrAlign;
  }

  lemma WriteFrame(c: Chunk, p: int, bytes: seq<Byte>, q: int, n: int)
    requires c.Contains(p, |bytes|) && c.Contains(q, n) && q + n <= p
    ensures |c.Write(p, bytes).data| == |c.data|
    ensures c.Write(p, bytes).Bytes(q, n) == c.Bytes(q, n)
  {
    assert c.Write(p, bytes).Bytes(q, n) == c.Bytes(q, n);
  }

  lemma WriteReads(c: Chunk, p: int, bytes: seq<Byte>)
    requires c.Contains(p, |bytes|)
    ensures |c.Write(p, bytes).data| == |c.data|
    ensures c.Write(p, bytes).Bytes(p, |bytes|) == bytes
  {
    assert c.Write(p, bytes).Bytes(p, |bytes|) == bytes;
  }

  lemma BytesSplit(c: Chunk, p: int, m: int, n: int)
    requires 0 <= m && 0 <= n && c.Contains(p, m + n)
    ensures c.Bytes(p, m + n) == c.Bytes(p, m) + c.Bytes(p + m, n)
  {
    assert c.Bytes(p, m + n) == c.Bytes(p, m) + c.Bytes(p + m, n);
  }

  /** Finished objects in the current chunk lie below the growing one. */
  lemma FinishedBelow(s: State, i: nat)
    requires Inv(s) && i < |s.finished|
    ensures Stored(s.chunks, s.mask, s.finished[i])
    ensures s.finished[i].home == Last(s) ==> s.finished[i].End() <= s.objectBase
  {
    var objs := All(s);
    assert objs[i] == s.finished[i];
    assert Stored(s.chunks, s.mask, objs[i]);
    EndsBefore(s.chunks, s.mask, objs, i, |s.finished|);
  }

  lemma ObjectPlaced(s: State, i: nat)
    requires Inv(s) && i < |All(s)|
    ensures All(s)[i].home < |s.chunks|
    ensures Stored(s.chunks, s.mask, All(s)[i]) && Packed(s.chunks, s.mask, All(s), i)
  {
    hide PtrAlign;
    assert Stored(s.chunks, s.mask, All(s)[i]);
  }

  /** The growing object, seen through the packing rule. */
  lemma GrowingPlaced(s: State)
    requires Inv(s)
    ensures Placed(s.chunks, s.mask, s.finished)
    ensures Packed(s.chunks, s.mask, All(s), |s.finished|)
  {
    PlacedPrefix(s.chunks, s.mask, All(s), |s.finished|);
    assert All(s)[..|s.finished|] == s.finished;
    assert Packed(s.chunks, s.mask, All(s), |s.finished|);
  }

  // ----- Growing within the chunk -----

  function Append(s: State, bytes: seq<Byte>): State
    requires Bounds(s) && s.nextFree + |bytes| <= s.chunkLimit
  {
    var cur := s.chunks[Last(s)].Write(s.nextFree, bytes);
    s.(chunks := s.chunks[Last(s) := cur], nextFree := s.nextFree + |bytes|)
  }

  lemma AppendGrows(s: State, bytes: seq<Byte>)
    requires Bounds(s) && s.nextFree + |bytes| <= s.chunkLimit
    ensures Bounds(Append(s, bytes)) && SameGeometry(s, Append(s, bytes))
    ensures Growing(Append(s, bytes)) == Growing(s) + bytes
  {
    var s' := Append(s, bytes);
    var c, n := s.chunks[Last(s)], s.nextFree - s.objectBase;
    WriteReads(c, s.nextFree, bytes);
    WriteFrame(c, s.nextFree, bytes, s.objectBase, n);
    BytesSplit(s'.chunks[Last(s)], s.objectBase, n, |bytes|);
  }

  lemma AppendKeeps(s: State, bytes: seq<Byte>)
    requires Inv(s) && s.nextFree + |bytes| <= s.chunkLimit
    ensures Inv(Append(s, bytes))
    ensures Growing(Append(s, bytes)) == Growing(s) + bytes
  {
    hide PtrAlign, ChunksOk, Packed, Placed, FlagOk;
    var s' := Append(s, bytes);
    AppendGrows(s, bytes);
    GrowingPlaced(s);
    forall i | 0 <= i < |s.finished|
      ensures Stored(s.chunks, s.mask, s.finished[i])
      ensures SameFor(s.chunks[s.finished[i].home], s'.chunks[s.finished[i].home], s.finished[i])
    {
      FinishedBelow(s, i);
      var o := s.finished[i];
      if o.home == Last(s) { WriteFrame(s.chunks[Last(s)], s.nextFree, bytes, o.addr, |o.bytes|); }
    }
    PlacedFrame(s.chunks, s'.chunks, s.mask, s.finished);
    RegrowKeeps(s, s');
  }

  /** Chunks stand where they stood; only bytes may differ. */
  predicate SameGeometry(s: State, s': State) {
    && |s'.chunks| == |s.chunks|
    && forall i | 0 <= i < |s.chunks| ::
         s'.chunks[i].addr == s.chunks[i].addr && |s'.chunks[i].data| == |s.chunks[i].data|
  }

  lemma GrowingStored(s: State)
    requires Bounds(s)
    ensures Stored(s.chunks, s.mask, Obj(s.objectBase, Growing(s), Last(s)))
  {}

  lemma RegrowPacked(s: State, s': State)
    requires Bounds(s) && Bounds(s') && SameGeometry(s, s')
    requires s'.objectBase == s.objectBase && s'.mask == s.mask && s'.finished == s.finished
    requires Packed(s.chunks, s.mask, All(s), |s.finished|)
    ensures Packed(s'.chunks, s'.mask, All(s'), |s.finished|)
  {
    hide PtrAlign, Growing;
    var n := |s.finished|;
    assert All(s)[n].home == All(s')[n].home == Last(s);
    assert s'.chunks[Last(s)].Limit() == s.chunks[Last(s)].Limit();
    if n > 0 {
      assert All(s)[n - 1] == s.finished[n - 1] == All(s')[n - 1];
    }
  }

  lemma RegrowFlag(s: State, s': State)
    requires FlagOk(s) && |s'.chunks| == |s.chunks| && s'.finished == s.finished && s'.maybeEmpty == s.maybeEmpty
    ensures FlagOk(s')
  {}

  /** Only the growing object's extent and bytes changed. */
  lemma RegrowKeeps(s: State, s': State)
    requires Inv(s) && Bounds(s') && SameGeometry(s, s')
    requires s'.objectBase == s.objectBase && s'.mask == s.mask
    requires s'.finished == s.finished && s'.maybeEmpty == s.maybeEmpty
    requires Placed(s'.chunks, s'.mask, s.finished)
    ensures Inv(s')
  {
    hide PtrAlign, ChunksOk, Packed, Stored, Placed, FlagOk;
    GrowingPlaced(s);
    SameChunks(s, s');
    GrowingStored(s');
    RegrowPacked(s, s');
    RegrowFlag(s, s');
    PlacedSnoc(s'.chunks, s'.mask, s'.finished, Obj(s'.objectBase, Growing(s'), Last(s')));
  }

  lemma SameChunks(s: State, s': State)
    requires Inv(s) && SameGeometry(s, s') && s'.mask == s.mask
    ensures ChunksOk(s'.chunks, s'.mask)
  {
    hide PtrAlign, Placed, FlagOk, IsMask;
    forall i, j | 0 <= i < j < |s'.chunks| ensures Disjoint(s'.chunks[i], s'.chunks[j]) {
      assert Disjoint(s.chunks[i], s.chunks[j]);
    }
  }

  /** obstack_blank_fast: n may be negative. */
  function Resize(s: State, n: int): State
    requires s.nextFree + n >= 0
  {
    s.(nextFree := s.nextFree + n)
  }

  lemma ResizeGrowing(s: State, n: int)
    requires Bounds(s) && s.objectBase <= s.nextFree + n <= s.chunkLimit
    ensures Bounds(Resize(s, n)) && |Growing(Resize(s, n))| == |Growing(s)| + n
    ensures n >= 0 ==> Growing(s) <= Growing(Resize(s, n))
    ensures n <= 0 ==> Growing(Resize(s, n)) <= Growing(s)
  {
    hide PtrAlign;
    var c, m := s.chunks[Last(s)], s.nextFree - s.objectBase;
    if n >= 0 { BytesSplit(c, s.objectBase, m, n); } else { BytesSplit(c, s.objectBase, m + n, -n); }
  }

  lemma ResizeKeeps(s: State, n: int)
    requires Inv(s) && s.objectBase <= s.nextFree + n <= s.chunkLimit
    ensures Inv(Resize(s, n))
    ensures |Growing(Resize(s, n))| == |Growing(s)| + n
    ensures n >= 0 ==> Growing(s) <= Growing(Resize(s, n))
    ensures n <= 0 ==> Growing(Resize(s, n)) <= Growing(s)
  {
    hide PtrAlign, ChunksOk, Packed, Stored, Placed, FlagOk, IsMask;
    var s' := Resize(s, n);
    ResizeGrowing(s, n);
    hide Growing;
    GrowingPlaced(s);
    RegrowKeeps(s, s');
  }

  // ----- Finishing -----

  function Finish(s: State): State
    requires Bounds(s)
  {
    var next := NextPlace(s.nextFree, s.mask, s.chunkLimit);
    s.(maybeEmpty := s.maybeEmpty || s.nextFree == s.objectBase,
       nextFree := next,
       objectBase := next,
       finished := All(s))
  }

  lemma FinishBounds(s: State)
    requires IsMask(s.mask) && Bounds(s)
    ensures Bounds(Finish(s)) && Growing(Finish(s)) == []
    ensures Finish(s).finished == All(s)
    ensures s.nextFree <= Finish(s).objectBase == NextPlace(s.nextFree, s.mask, s.chunkLimit)
  {
    PtrAligned(s.nextFree, s.mask);
  }

  lemma FinishPacked(s: State, g: Obj)
    requires Bounds(s) && g.home == Last(s) && g.addr == NextPlace(s.nextFree, s.mask, s.chunkLimit)
    ensures Packed(s.chunks, s.mask, All(s) + [g], |All(s)|)
  {
    hide PtrAlign;
    var objs := All(s) + [g];
    assert objs[|All(s)| - 1] == All(s)[|s.finished|];
    assert objs[|All(s)| - 1].End() == s.nextFree;
  }

  lemma FinishFlag(s: State)
    requires Bounds(s) && FlagOk(s) && Finish(s).finished == All(s)
    ensures FlagOk(Finish(s))
  {
    hide PtrAlign;
    var s' := Finish(s);
    forall i | 0 <= i < |s'.finished| && s'.finished[i].home == Last(s) && s'.finished[i].bytes == []
      ensures s'.maybeEmpty
    {
      if i < |s.finished| { assert s'.finished[i] == s.finished[i]; }
    }
  }

  lemma FinishKeeps(s: State)
    requires Inv(s)
    ensures Inv(Finish(s))
    ensures Finish(s).finished == s.finished + [Obj(s.objectBase, Growing(s), Last(s))]
    ensures Growing(Finish(s)) == []
    ensures s.nextFree <= Finish(s).objectBase
  {
    hide PtrAlign, NextPlace, ChunksOk, Packed, Stored, Placed, FlagOk;
    var s' := Finish(s);
    FinishBounds(s);
    FinishFlag(s);
    GrowingStored(s');
    var g := Obj(s'.objectBase, [], Last(s));
    FinishPacked(s, g);
    PlacedSnoc(s.chunks, s.mask, All(s), g);
  }

  // ----- Freeing -----

  /** Object i and everything after it goes; the chunks after its own are released. */
  function Cut(s: State, i: nat): State
    requires Bounds(s) && i < |All(s)| && All(s)[i].home < |s.chunks|
  {
    var o := All(s)[i];
    s.(chunks := s.chunks[..o.home + 1],
       objectBase := o.addr,
       nextFree := o.addr,
       chunkLimit := s.chunks[o.home].Limit(),
       maybeEmpty := s.maybeEmpty || o.home < Last(s),
       finished := s.finished[..i])
  }

  lemma CutBounds(s: State, i: nat)
    requires IsMask(s.mask) && Bounds(s) && i < |All(s)| && Stored(s.chunks, s.mask, All(s)[i])
    ensures Bounds(Cut(s, i)) && Growing(Cut(s, i)) == []
    ensures Cut(s, i).finished == All(s)[..i]
  {
    StartAboveHeader(s.chunks[All(s)[i].home], s.mask);
    assert All(s)[..i] == s.finished[..i];
  }

  lemma CutPlaced(s: State, i: nat)
    requires Inv(s) && i < |All(s)| && Stored(s.chunks, s.mask, All(s)[i])
    ensures Placed(Cut(s, i).chunks, s.mask, All(s)[..i])
  {
    var objs, chunks' := All(s), Cut(s, i).chunks;
    PlacedPrefix(s.chunks, s.mask, objs, i);
    var kept := objs[..i];
    forall k | 0 <= k < i
      ensures Stored(s.chunks, s.mask, kept[k])
      ensures kept[k].home < |chunks'|
      ensures SameFor(s.chunks[kept[k].home], chunks'[kept[k].home], kept[k])
    {
      EndsBefore(s.chunks, s.mask, objs, k, i);
      assert Stored(s.chunks, s.mask, objs[k]);
    }
    hide Placed, Stored, PtrAlign;
    PlacedFrame(s.chunks, chunks', s.mask, kept);
  }

  lemma CutPacked(s: State, i: nat, g: Obj)
    requires Bounds(s) && i < |All(s)| && All(s)[i].home < |s.chunks|
    requires Packed(s.chunks, s.mask, All(s), i)
    requires g.addr == All(s)[i].addr && g.home == All(s)[i].home
    ensures Packed(Cut(s, i).chunks, s.mask, All(s)[..i] + [g], i)
  {
    hide PtrAlign;
    var objs := All(s)[..i] + [g];
    assert objs[i] == g;
    if i > 0 { assert objs[i - 1] == All(s)[i - 1]; }
    assert Cut(s, i).chunks[g.home] == s.chunks[g.home];
  }

  lemma CutFlag(s: State, i: nat)
    requires Bounds(s) && FlagOk(s) && i < |All(s)| && All(s)[i].home < |s.chunks|
    ensures FlagOk(Cut(s, i))
  {
    hide PtrAlign;
    var s' := Cut(s, i);
    forall k | 0 <= k < |s'.finished| && s'.finished[k].home == |s'.chunks| - 1 && s'.finished[k].bytes == []
      ensures s'.maybeEmpty
    {
      assert s'.finished[k] == s.finished[k];
    }
  }

  lemma CutKeeps(s: State, i: nat)
    requires Inv(s) && i < |All(s)|
    ensures All(s)[i].home < |s.chunks| && Inv(Cut(s, i))
    ensures Growing(Cut(s, i)) == []
  {
    hide PtrAlign, ChunksOk, Packed, Stored, Placed, FlagOk;
    var o := All(s)[i];
    ObjectPlaced(s, i);
    var s' := Cut(s, i);
    CutBounds(s, i);
    CutPlaced(s, i);
    CutFlag(s, i);
    ChunksPrefix(s.chunks, s.mask, o.home + 1);
    GrowingStored(s');
    var g := Obj(o.addr, [], o.home);
    CutPacked(s, i, g);
    PlacedSnoc(s'.chunks, s.mask, s'.finished, g);
  }

  lemma ChunksPrefix(chunks: seq<Chunk>, mask: nat, k: nat)
    requires ChunksOk(chunks, mask) && k <= |chunks|
    ensures ChunksOk(chunks[..k], mask)
  {
    forall i, j | 0 <= i < j < k ensures Disjoint(chunks[..k][i], chunks[..k][j]) {
      assert Disjoint(chunks[i], chunks[j]);
    }
  }

  // ----- Moving to a new chunk -----

  /** The old chunk stays in the chain unless the growing object was alone in it. */
  predicate KeepsOld(s: State)
    requires |s.chunks| >= 1
  {
    s.maybeEmpty || s.objectBase != s.chunks[Last(s)].Start(s.mask)
  }

  predicate Suits(s: State, c: Chunk)
    requires Bounds(s)
  {
    && c.addr + HEADER <= c.Start(s.mask)
    && c.Start(s.mask) + |Growing(s)| <= c.Limit()
    && forall i | 0 <= i < |s.chunks| :: Disjoint(s.chunks[i], c)
  }

  function Move(s: State, c: Chunk): State
    requires Bounds(s) && Suits(s, c)
  {
    var start := c.Start(s.mask);
    s.(chunks := (if KeepsOld(s) then s.chunks else s.chunks[..Last(s)]) + [c.Write(start, Growing(s))],
       objectBase := start,
       nextFree := start + |Growing(s)|,
       chunkLimit := c.Limit(),
       maybeEmpty := false)
  }

  /** Nothing finished lies in a chunk that is dropped. */
  lemma DroppedIsBare(s: State, i: nat)
    requires Inv(s) && !KeepsOld(s) && i < |s.finished|
    ensures s.finished[i].home < Last(s)
  {
    FinishedBelow(s, i);
    if s.finished[i].home == Last(s) { FlagProtects(s, i); }
  }

  lemma MoveBounds(s: State, c: Chunk)
    requires Bounds(s) && Suits(s, c)
    ensures Bounds(Move(s, c)) && Growing(Move(s, c)) == Growing(s)
  {
    hide PtrAlign;
    WriteReads(c, c.Start(s.mask), Growing(s));
  }

  lemma MovePlaced(s: State, c: Chunk)
    requires Inv(s) && Suits(s, c)
    ensures Placed(Move(s, c).chunks, s.mask, s.finished)
    ensures forall k | 0 <= k < |s.finished| :: s.finished[k].home < |Move(s, c).chunks| - 1
  {
    hide Placed, PtrAlign, ChunksOk;
    var chunks' := Move(s, c).chunks;
    GrowingPlaced(s);
    forall k | 0 <= k < |s.finished|
      ensures Stored(s.chunks, s.mask, s.finished[k])
      ensures s.finished[k].home < |chunks'| - 1
      ensures SameFor(s.chunks[s.finished[k].home], chunks'[s.finished[k].home], s.finished[k])
    {
      FinishedBelow(s, k);
      if !KeepsOld(s) { DroppedIsBare(s, k); }
    }
    PlacedFrame(s.chunks, chunks', s.mask, s.finished);
  }

  lemma MoveKeeps(s: State, c: Chunk)
    requires Inv(s) && Suits(s, c)
    ensures Inv(Move(s, c))
    ensures Growing(Move(s, c)) == Growing(s)
  {
    hide PtrAlign, ChunksOk, Stored, Placed;
    var s' := Move(s, c);
    MoveBounds(s, c);
    MovePlaced(s, c);
    MoveChunks(s, c);
    GrowingStored(s');
    WriteReads(c, c.Start(s.mask), Growing(s));
    var g := Obj(s'.objectBase, Growing(s), Last(s'));
    assert s'.chunks[g.home] == c.Write(c.Start(s.mask), Growing(s));
    assert Packed(s'.chunks, s.mask, s.finished + [g], |s.finished|);
    PlacedSnoc(s'.chunks, s.mask, s.finished, g);
  }

  lemma MoveChunks(s: State, c: Chunk)
    requires Inv(s) && Suits(s, c)
    ensures ChunksOk(Move(s, c).chunks, s.mask)
  {
    hide PtrAlign, Placed, FlagOk, IsMask;
    var s' := Move(s, c);
    WriteReads(c, c.Start(s.mask), Growing(s));
    ChunksPrefix(s.chunks, s.mask, Last(s));
    forall i, j | 0 <= i < j < |s'.chunks| ensures Disjoint(s'.chunks[i], s'.chunks[j]) {
      assert s'.chunks[i] == s.chunks[i];
      if j < |s'.chunks| - 1 {
        assert Disjoint(s.chunks[i], s.chunks[j]);
      } else {
        assert Disjoint(s.chunks[i], c);
      }
    }
  }

  /** After a free, the next object that fits starts exactly at the freed address, and earlier ones are as before. */
  lemma FreedPlaceReused(s: State, i: nat, bytes: seq<Byte>)
    requires Inv(s) && i < |All(s)| && All(s)[i].home < |s.chunks|
    requires Cut(s, i).nextFree + |bytes| <= Cut(s, i).chunkLimit
    ensures Bounds(Cut(s, i)) && Bounds(Append(Cut(s, i), bytes))
    ensures Finish(Append(Cut(s, i), bytes)).finished ==
            All(s)[..i] + [Obj(All(s)[i].addr, bytes, All(s)[i].home)]
  {
    hide PtrAlign, NextPlace, ChunksOk, Packed, Placed, FlagOk;
    ObjectPlaced(s, i);
    CutKeeps(s, i);
    CutBounds(s, i);
    AppendKeeps(Cut(s, i), bytes);
    FinishKeeps(Append(Cut(s, i), bytes));
  }
}
