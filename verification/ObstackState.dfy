/**
 The state of an object stack and what is true of it.

 A chunk is a block of bytes at an address, header included.  The chain of
 chunks is kept oldest first; the last one is current.  The finished objects
 are recorded, oldest first, with the address and the bytes they were
 finished with: the invariant says that memory still holds exactly those.
 */
module ObstackState {
  import opened Basics
  import opened LimbValue
  import opened Words

  /** Offset of `contents` in struct _obstack_chunk: two pointers. */
  const HEADER := 8

  // ----- Alignment -----

  /** mask is one less than a power of two. */
  ghost predicate IsMask(mask: nat) {
    exists k: nat :: mask + 1 == Pow(2, k)
  }

  /** __PTR_ALIGN: (p + mask) & ~mask, the cleared bits being those of mask. */
  function PtrAlign(p: nat, mask: nat): nat {
    p + mask - BitAnd(p + mask, mask)
  }

  lemma BitAndOdd(x: nat, m: nat)
    requires m >= 1
    ensures BitAnd(x, 2 * m - 1) == x % 2 + 2 * BitAnd(x / 2, m - 1)
  {
    assert (2 * m - 1) % 2 == 1 && (2 * m - 1) / 2 == m - 1;
  }

  // One more bit of mask: from m - 1 to 2m - 1.
  lemma LowBitsStep(x: nat, m: nat)
    requires m >= 1 && BitAnd(x / 2, m - 1) == (x / 2) % m
    ensures BitAnd(x, 2 * m - 1) == x % (2 * m)
  {
    hide BitAnd;
    BitAndOdd(x, m);
    HalveMod(x, m);
  }

  lemma {:induction false} LowBits(x: nat, k: nat)
    ensures Pow(2, k) >= 1 && BitAnd(x, Pow(2, k) - 1) == x % Pow(2, k)
  {
    hide BitAnd;
    PowPositive(2, k);
    if k == 0 {
      LowBitsBase(x);
    } else {
      PowPositive(2, k - 1);
      LowBits(x / 2, k - 1);
      LowBitsStep(x, Pow(2, k - 1));
    }
  }

  lemma LowBitsBase(x: nat)
    ensures BitAnd(x, 0) == 0 == x % 1
  {}

  lemma HalveMod(x: nat, m: nat)
    requires m >= 1
    ensures x % (2 * m) == x % 2 + 2 * ((x / 2) % m)
  {
    var h := x / 2;
    var q, r := h / m, h % m;
    assert h == m * q + r;
    assert x == (2 * m) * q + (x % 2 + 2 * r);
    DivideMagnitudes(x, 2 * m, q, x % 2 + 2 * r);
  }

  /** The result is aligned and less than one alignment unit above p. */
  lemma PtrAligned(p: nat, mask: nat)
    requires IsMask(mask)
    ensures PtrAlign(p, mask) % (mask + 1) == 0
    ensures p <= PtrAlign(p, mask) <= p + mask
  {
    hide BitAnd, Pow;
    var k: nat :| mask + 1 == Pow(2, k);
    LowBits(p + mask, k);
    RoundDown(p + mask, mask + 1);
  }

  lemma RoundDown(v: nat, a: nat)
    requires a >= 1
    ensures (v - v % a) % a == 0
  {
    assert v == a * (v / a) + v % a;
    DivideMagnitudes(a * (v / a), a, v / a, 0);
  }

  lemma LeastMultiple(a: nat, p: int, t: int, m: int)
    requires a >= 1 && t % a == 0 && m % a == 0 && t < p + a && p <= m
    ensures t <= m
  {
    var x, y := m / a, t / a;
    assert m == a * x && t == a * y;
    if x + 1 <= y { MulMono(a, x + 1, y); } else { MulMono(a, y, x); }
  }

  /** No aligned address lies between p and the result. */
  lemma PtrAlignIsLeast(p: nat, mask: nat, m: int)
    requires IsMask(mask) && m >= p && m % (mask + 1) == 0
    ensures PtrAlign(p, mask) <= m
  {
    PtrAligned(p, mask);
    LeastMultiple(mask + 1, p, PtrAlign(p, mask), m);
  }

  /** Where obstack_finish lets the next object start: aligned, but never past the chunk. */
  function NextPlace(p: nat, mask: nat, limit: nat): nat {
    if PtrAlign(p, mask) > limit then limit else PtrAlign(p, mask)
  }

  /** That place is the least aligned address in the chunk that is not below p, and the end of the chunk if there is none. */
  lemma NextPlaceIsLeast(p: nat, mask: nat, limit: nat, m: int)
    requires IsMask(mask) && p <= limit
    ensures p <= NextPlace(p, mask, limit) <= limit
    ensures NextPlace(p, mask, limit) % (mask + 1) == 0 || NextPlace(p, mask, limit) == limit
    ensures p <= m <= limit && m % (mask + 1) == 0 ==>
              NextPlace(p, mask, limit) <= m && NextPlace(p, mask, limit) % (mask + 1) == 0
  {
    PtrAligned(p, mask);
    if p <= m <= limit && m % (mask + 1) == 0 { PtrAlignIsLeast(p, mask, m); }
  }

  /** Every power of two is a legal alignment. */
  lemma PowersAreMasks(k: nat)
    ensures Pow(2, k) >= 1 && IsMask(Pow(2, k) - 1)
  {
    PowPositive(2, k);
  }

  // ----- State -----

  datatype Chunk = Chunk(addr: nat, data: seq<Byte>) {
    function Limit(): nat {
      addr + |data|
    }

    /** The aligned address of its first object. */
    function Start(mask: nat): nat {
      PtrAlign(addr + HEADER, mask)
    }

    /** p is an address an object of this chunk may have, its end included. */
    predicate Holds(p: int) {
      addr < p <= Limit()
    }

    predicate Contains(p: int, n: int) {
      addr <= p && 0 <= n && p + n <= Limit()
    }

    function Bytes(p: int, n: int): seq<Byte>
      requires Contains(p, n)
    {
      data[p - addr..p - addr + n]
    }

    /** memcpy to address p. */
    function Write(p: int, bytes: seq<Byte>): Chunk
      requires Contains(p, |bytes|)
    {
      Chunk(addr, data[..p - addr] + bytes + data[p - addr + |bytes|..])
    }
  }

  predicate Disjoint(c: Chunk, d: Chunk) {
    c.Limit() <= d.addr || d.Limit() <= c.addr
  }

  /** An object: where it starts, what it holds, and the position in the chain of the chunk it lies in. */
  datatype Obj = Obj(addr: nat, bytes: seq<Byte>, home: nat) {
    function End(): nat {
      addr + |bytes|
    }
  }

  datatype State = State(
    chunks: seq<Chunk>,
    objectBase: nat,
    nextFree: nat,
    chunkLimit: nat,
    mask: nat,
    maybeEmpty: bool,
    finished: seq<Obj>)

  predicate Bounds(s: State) {
    && |s.chunks| >= 1
    && s.chunkLimit == s.chunks[|s.chunks| - 1].Limit()
    && s.chunks[|s.chunks| - 1].Start(s.mask) <= s.objectBase <= s.nextFree <= s.chunkLimit
    && s.chunks[|s.chunks| - 1].addr <= s.objectBase
  }

  /** The bytes of the object that is still growing. */
  function Growing(s: State): seq<Byte>
    requires Bounds(s)
  {
    s.chunks[|s.chunks| - 1].Bytes(s.objectBase, s.nextFree - s.objectBase)
  }

  /** All objects, the growing one last. */
  function All(s: State): seq<Obj>
    requires Bounds(s)
  {
    s.finished + [Obj(s.objectBase, Growing(s), |s.chunks| - 1)]
  }

  /** Object o lies inside its chunk and memory holds its bytes. */
  ghost predicate Stored(chunks: seq<Chunk>, mask: nat, o: Obj) {
    && o.home < |chunks|
    && chunks[o.home].Start(mask) <= o.addr
    && chunks[o.home].Contains(o.addr, |o.bytes|)
    && chunks[o.home].Bytes(o.addr, |o.bytes|) == o.bytes
  }

  /** Object i stands right after object i - 1, or opens a later chunk. */
  ghost predicate Packed(chunks: seq<Chunk>, mask: nat, objs: seq<Obj>, i: nat)
    requires i < |objs| && objs[i].home < |chunks|
  {
    var o := objs[i];
    if i > 0 && objs[i - 1].home == o.home then
      o.addr == NextPlace(objs[i - 1].End(), mask, chunks[o.home].Limit())
    else
      (i > 0 ==> objs[i - 1].home < o.home) && o.addr == chunks[o.home].Start(mask)
  }

  ghost predicate Placed(chunks: seq<Chunk>, mask: nat, objs: seq<Obj>) {
    forall i | 0 <= i < |objs| :: Stored(chunks, mask, objs[i]) && Packed(chunks, mask, objs, i)
  }

  ghost predicate ChunksOk(chunks: seq<Chunk>, mask: nat) {
    && (forall i | 0 <= i < |chunks| :: chunks[i].Start(mask) <= chunks[i].Limit())
    && (forall i, j | 0 <= i < j < |chunks| :: Disjoint(chunks[i], chunks[j]))
  }

  /** A live zero-length object in the current chunk is never forgotten. */
  ghost predicate FlagOk(s: State) {
    forall i | 0 <= i < |s.finished| ::
      s.finished[i].home == |s.chunks| - 1 && s.finished[i].bytes == [] ==> s.maybeEmpty
  }

  ghost predicate Inv(s: State) {
    && IsMask(s.mask)
    && Bounds(s)
    && ChunksOk(s.chunks, s.mask)
    && Placed(s.chunks, s.mask, All(s))
    && FlagOk(s)
  }

  // ----- What the invariant means -----

  lemma StartAboveHeader(c: Chunk, mask: nat)
    requires IsMask(mask)
    ensures c.addr + HEADER <= c.Start(mask) <= c.addr + HEADER + mask
    ensures c.Start(mask) % (mask + 1) == 0
  {
    PtrAligned(c.addr + HEADER, mask);
  }

  lemma Neighbours(chunks: seq<Chunk>, mask: nat, objs: seq<Obj>, j: nat)
    requires IsMask(mask) && Placed(chunks, mask, objs) && 0 < j < |objs|
    ensures objs[j - 1].home <= objs[j].home
    ensures objs[j - 1].home == objs[j].home ==> objs[j - 1].End() <= objs[j].addr
  {
    hide PtrAlign, IsMask;
    assert Stored(chunks, mask, objs[j - 1]) && Packed(chunks, mask, objs, j);
    PtrAligned(objs[j - 1].End(), mask);
  }

  /** In the same chunk, an earlier object ends before a later one starts. */
  lemma {:induction false} EndsBefore(chunks: seq<Chunk>, mask: nat, objs: seq<Obj>, i: nat, j: nat)
    requires IsMask(mask) && Placed(chunks, mask, objs) && i < j < |objs|
    ensures objs[i].home <= objs[j].home
    ensures objs[i].home == objs[j].home ==> objs[i].End() <= objs[j].addr
    decreases j - i
  {
    Neighbours(chunks, mask, objs, j);
    if i < j - 1 {
      assert Stored(chunks, mask, objs[j - 1]);
      hide PtrAlign, Packed, Placed;
      EndsBefore(chunks, mask, objs, i, j - 1);
    }
  }

  /** No two objects share a byte, whether finished or growing, in the same chunk or not. */
  lemma ObjectsDisjoint(s: State, i: nat, j: nat)
    requires Inv(s) && i < j < |All(s)|
    ensures All(s)[i].End() <= All(s)[j].addr || All(s)[j].End() <= All(s)[i].addr
  {
    var objs := All(s);
    EndsBefore(s.chunks, s.mask, objs, i, j);
    assert Stored(s.chunks, s.mask, objs[i]) && Stored(s.chunks, s.mask, objs[j]);
    if objs[i].home < objs[j].home {
      assert Disjoint(s.chunks[objs[i].home], s.chunks[objs[j].home]);
    }
  }

  /** Every object start is aligned, or is the end of its chunk; a non-empty object is always aligned. */
  lemma ObjectsAligned(s: State, i: nat)
    requires Inv(s) && i < |All(s)|
    ensures var o := All(s)[i];
            o.addr % (s.mask + 1) == 0 || (o.bytes == [] && o.addr == s.chunks[o.home].Limit())
  {
    var objs := All(s);
    assert Stored(s.chunks, s.mask, objs[i]) && Packed(s.chunks, s.mask, objs, i);
    StartAboveHeader(s.chunks[objs[i].home], s.mask);
    if i > 0 {
      PtrAligned(objs[i - 1].End(), s.mask);
    }
  }

  /** The growing object may be moved away and its chunk dropped only if no finished object lies there:
      base at the aligned start with a live object in the chunk implies the flag. */
  lemma FlagProtects(s: State, i: nat)
    requires Inv(s) && i < |s.finished|
    requires s.finished[i].home == |s.chunks| - 1
    requires s.objectBase == s.chunks[|s.chunks| - 1].Start(s.mask)
    ensures s.maybeEmpty
  {
    var objs := All(s);
    assert objs[i] == s.finished[i];
    EndsBefore(s.chunks, s.mask, objs, i, |s.finished|);
    assert Stored(s.chunks, s.mask, objs[i]);
  }

  /** An address names an object of one chunk only. */
  lemma OneChunkHolds(s: State, h: nat, k: nat, p: nat)
    requires Inv(s) && h < |s.chunks| && k < |s.chunks| && h != k
    requires s.chunks[h].Holds(p)
    ensures !s.chunks[k].Holds(p)
  {
    assert Disjoint(s.chunks[if h < k then h else k], s.chunks[if h < k then k else h]);
  }

  /** obstack_empty_p is true exactly when one chunk is left and every object in it, growing included, is empty. */
  lemma EmptyExactlyWhen(s: State)
    requires Inv(s) && |s.chunks| == 1
    ensures s.nextFree == s.chunks[0].Start(s.mask) <==> forall i | 0 <= i < |All(s)| :: All(s)[i].bytes == []
  {
    var objs := All(s);
    var n := |s.finished|;
    assert Stored(s.chunks, s.mask, objs[n]) && Packed(s.chunks, s.mask, objs, n);
    if s.nextFree == s.chunks[0].Start(s.mask) {
      forall i | 0 <= i < |objs| ensures objs[i].bytes == [] {
        assert Stored(s.chunks, s.mask, objs[i]);
        if i < n { EndsBefore(s.chunks, s.mask, objs, i, n); }
      }
    } else if forall i | 0 <= i < |objs| :: objs[i].bytes == [] {
      AllEmptyStack(s, n);
      assert false;
    }
  }

  lemma {:induction false} AllEmptyStack(s: State, i: nat)
    requires Inv(s) && |s.chunks| == 1 && i < |All(s)|
    requires forall k | 0 <= k < |All(s)| :: All(s)[k].bytes == []
    ensures All(s)[i].addr == s.chunks[0].Start(s.mask)
  {
    var objs := All(s);
    assert Stored(s.chunks, s.mask, objs[i]) && Packed(s.chunks, s.mask, objs, i);
    if i > 0 {
      AllEmptyStack(s, i - 1);
      StartAboveHeader(s.chunks[0], s.mask);
      PtrAligned(objs[i - 1].End(), s.mask);
      PtrAlignIsLeast(objs[i - 1].End(), s.mask, objs[i - 1].End());
      assert Stored(s.chunks, s.mask, objs[i - 1]);
    }
  }
}
