/**
 Whole runs of an obstack: any script of operations from a fresh stack, with
 the history of finished objects and of the growing object.
 */
module ObstackRuns {
  import opened Basics
  import opened ObstackState
  import opened ObstackSteps
  import opened ObstackMacros

  datatype Op =
    | GrowOp(bytes: seq<Byte>)
    | Grow0Op(bytes: seq<Byte>)
    | Grow1Op(datum: Byte)
    | BlankOp(n: int)
    | RoomOp(room: nat)
    | FinishOp
    | FreeOp(i: nat)
    | RestartOp

  /** What a client can see: the finished objects and the bytes grown so far. */
  datatype Seen = Seen(finished: seq<Obj>, growing: seq<Byte>)

  function Visible(s: State): Seen
    requires Bounds(s)
  {
    Seen(s.finished, Growing(s))
  }

  /**
   The effect of one operation.  Shrinking below zero and freeing an unknown
   object are skipped; a restart frees everything and begins again.
   */
  ghost predicate Step(op: Op, a: Seen, a': Seen) {
    match op
    case GrowOp(bytes) => a' == Seen(a.finished, a.growing + bytes)
    case Grow0Op(bytes) => a' == Seen(a.finished, a.growing + bytes + [0])
    case Grow1Op(datum) => a' == Seen(a.finished, a.growing + [datum])
    case BlankOp(n) =>
      if |a.growing| + n < 0 then a' == a
      else
        && a'.finished == a.finished
        && |a'.growing| == |a.growing| + n
        && (if n >= 0 then a.growing <= a'.growing else a'.growing <= a.growing)
    case RoomOp(_) => a' == a
    case FinishOp =>
      var n := |a.finished|;
      && |a'.finished| == n + 1
      && a'.finished[..n] == a.finished
      && a'.finished[n].bytes == a.growing
      && a'.growing == []
    case FreeOp(i) =>
      if i > |a.finished| then a' == a else a' == Seen(a.finished[..i], [])
    case RestartOp => a' == Seen([], [])
  }

  ghost predicate IsRun(script: seq<Op>, hist: seq<Seen>) {
    && |hist| == |script| + 1
    && hist[0] == Seen([], [])
    && forall t | 0 <= t < |script| :: Step(script[t], hist[t], hist[t + 1])
  }

  ghost predicate Names(handles: seq<nat>, finished: seq<Obj>) {
    && |handles| == |finished|
    && forall k | 0 <= k < |handles| :: handles[k] == finished[k].addr
  }

  /** How far an operation moves the end of the growing object. */
  function Length(op: Op): int {
    match op
    case GrowOp(bytes) => |bytes|
    case Grow0Op(bytes) => |bytes| + 1
    case Grow1Op(_) => 1
    case BlankOp(n) => n
    case RoomOp(n) => n
    case _ => 0
  }

  predicate Builds(op: Op) {
    !op.FinishOp? && !op.FreeOp? && !op.RestartOp?
  }

  /** Where things are: what fits stays, an object is finished where it was built, a freed place is taken up again. */
  ghost predicate Located(op: Op, s: State, s': State) {
    && (Builds(op) && s.nextFree + Length(op) <= s.chunkLimit ==>
          SameGeometry(s, s') && s'.objectBase == s.objectBase && s'.chunkLimit == s.chunkLimit)
    && (op.FinishOp? ==> |s'.finished| == |s.finished| + 1 && s'.finished[|s.finished|].addr == s.objectBase)
    && (op.FreeOp? && op.i < |s.finished| ==> s'.objectBase == s.finished[op.i].addr)
  }

  /** One operation, by a client that keeps the addresses it was given. */
  method Perform(o: Obstack, op: Op, handles: seq<nat>) returns (handles': seq<nat>)
    requires o.Valid() && Names(handles, o.finished)
    modifies o
    ensures o.Valid() && Names(handles', o.finished)
    ensures Step(op, old(Visible(o.View())), Visible(o.View()))
    ensures Located(op, old(o.View()), o.View())
    ensures Builds(op) ==> handles' == handles && o.finished == old(o.finished)
    ensures op.GrowOp? ==> o.Current() == old(o.Current()) + op.bytes
    ensures op.Grow0Op? ==> o.Current() == old(o.Current()) + op.bytes + [0]
    ensures op.Grow1Op? ==> o.Current() == old(o.Current()) + [op.datum]
    ensures op.RoomOp? ==> o.Current() == old(o.Current())
    ensures op.BlankOp? && |old(o.Current())| + op.n >= 0 ==> |o.Current()| == |old(o.Current())| + op.n
    ensures op.FinishOp? ==> o.finished == old(o.finished) + [Obj(old(o.objectBase), old(o.Current()), |o.chunks| - 1)]
    ensures op.FreeOp? && op.i <= |handles| ==> o.finished == old(o.finished)[..op.i] && o.Current() == []
    ensures op.RestartOp? ==> o.finished == [] && o.Current() == []
  {
    hide Inv, Growing;
    handles' := handles;
    match op {
      case GrowOp(bytes) => o.Grow(bytes);
      case Grow0Op(bytes) => o.Grow0(bytes);
      case Grow1Op(datum) => o.Grow1(datum);
      case RoomOp(n) =>
        GeometryKept(o.View());
        o.MakeRoom(n);
      case BlankOp(n) =>
        CurrentSize(o);
        if o.nextFree - o.objectBase + n >= 0 { o.Blank(n); } else { GeometryKept(o.View()); }
      case FinishOp =>
        var value := o.Finish();
        handles' := handles + [value];
      case FreeOp(i) =>
        if i <= |handles| {
          AddressOf(o, handles, i);
          o.Free(if i < |handles| then handles[i] else o.objectBase, i);
          handles' := handles[..i];
        }
      case RestartOp =>
        MaskOf(o);
        o.FreeAll();
        o.Begin(o.chunkSize);
        handles' := [];
    }
  }

  lemma GeometryKept(s: State)
    ensures SameGeometry(s, s)
  {}

  lemma MaskOf(o: Obstack)
    requires o.Valid()
    ensures IsMask(o.mask)
  {}

  lemma CurrentSize(o: Obstack)
    requires o.Valid()
    ensures |o.Current()| == o.nextFree - o.objectBase
  {}

  lemma AddressOf(o: Obstack, handles: seq<nat>, i: nat)
    requires o.Valid() && Names(handles, o.finished) && i <= |handles|
    ensures Bounds(o.View()) && All(o.View())[i].addr == if i < |handles| then handles[i] else o.objectBase
  {}

  /** A history with the memory behind it: at every step the invariant holds and the client sees hist. */
  ghost predicate Traces(states: seq<State>, hist: seq<Seen>, mask: nat) {
    && |states| == |hist|
    && forall v | 0 <= v < |states| :: Inv(states[v]) && states[v].mask == mask && hist[v] == Visible(states[v])
  }

  lemma TracesFirst(s: State)
    requires Inv(s)
    ensures Traces([s], [Visible(s)], s.mask)
  {}

  lemma TracesNext(states: seq<State>, hist: seq<Seen>, mask: nat, s: State)
    requires Traces(states, hist, mask) && Inv(s) && s.mask == mask
    ensures Traces(states + [s], hist + [Visible(s)], mask)
  {
    hide Inv, Growing;
  }

  /** Any script from a fresh stack is a run, and at each of its steps the invariant holds of memory. */
  method Run(size: nat, alignment: nat, defaultSize: nat, defaultAlignment: nat, script: seq<Op>)
    returns (o: Obstack, handles: seq<nat>, ghost hist: seq<Seen>, ghost states: seq<State>)
    requires Workable(OrDefault(size, defaultSize), OrDefault(alignment, defaultAlignment))
    ensures o.Valid() && Names(handles, o.finished)
    ensures IsRun(script, hist) && Traces(states, hist, OrDefault(alignment, defaultAlignment) - 1)
    ensures states[|script|] == o.View()
    ensures forall t | 0 <= t < |script| :: Located(script[t], states[t], states[t + 1])
  {
    hide PtrAlign, Growing, Placed, ChunksOk, FlagOk, IsMask, Step, Located, Traces;
    o := new Obstack(size, alignment, defaultSize, defaultAlignment);
    TracesFirst(o.View());
    handles, hist, states := [], [Visible(o.View())], [o.View()];
    for t := 0 to |script|
      invariant fresh(o) && o.Valid() && Names(handles, o.finished)
      invariant |hist| == t + 1 && hist[0] == Seen([], []) && hist[t] == Visible(o.View())
      invariant forall u | 0 <= u < t :: Step(script[u], hist[u], hist[u + 1])
      invariant Traces(states, hist, o.mask) && |states| == t + 1 && states[t] == o.View()
      invariant forall u | 0 <= u < t :: Located(script[u], states[u], states[u + 1])
    {
      handles := Perform(o, script[t], handles);
      TracesNext(states, hist, o.mask, o.View());
      hist, states := hist + [Visible(o.View())], states + [o.View()];
    }
  }

  // ----- What holds along every run -----

  ghost predicate NotFreed(script: seq<Op>, t: nat, u: nat, k: nat)
    requires u <= |script|
  {
    forall v | t <= v < u :: !script[v].RestartOp? && (script[v].FreeOp? ==> script[v].i > k)
  }

  /** A finished object keeps its address, its chunk and its bytes until it, or an earlier object, is freed. */
  lemma {:induction false} ObjectPersists(script: seq<Op>, hist: seq<Seen>, t: nat, u: nat, k: nat)
    requires IsRun(script, hist) && t <= u <= |script|
    requires k < |hist[t].finished| && NotFreed(script, t, u, k)
    ensures k < |hist[u].finished| && hist[u].finished[k] == hist[t].finished[k]
    decreases u - t
  {
    if t < u {
      ObjectPersists(script, hist, t, u - 1, k);
      assert Step(script[u - 1], hist[u - 1], hist[u - 1 + 1]);
    }
  }

  // ----- Contents, from the script alone -----

  /** Bytes of which some are unspecified. */
  type Image = seq<Option<Byte>>

  function Known(bytes: seq<Byte>): (g: Image)
    ensures |g| == |bytes| && forall i | 0 <= i < |g| :: g[i] == Some(bytes[i])
  {
    seq(|bytes|, i requires 0 <= i < |bytes| => Some(bytes[i]))
  }

  function Unknown(n: nat): (g: Image)
    ensures |g| == n && forall i | 0 <= i < n :: g[i] == None
  {
    seq(n, _ => None)
  }

  /** The bytes agree with the image wherever it specifies one. */
  ghost predicate Fits(bytes: seq<Byte>, g: Image) {
    |bytes| == |g| && forall i | 0 <= i < |g| :: g[i].Some? ==> bytes[i] == g[i].value
  }

  /** The growing object after an operation that neither finishes nor frees. */
  function Extended(g: Image, op: Op): Image {
    match op
    case GrowOp(bytes) => g + Known(bytes)
    case Grow0Op(bytes) => g + Known(bytes + [0])
    case Grow1Op(datum) => g + Known([datum])
    case BlankOp(n) => if |g| + n < 0 then g else if n >= 0 then g + Unknown(n) else g[..|g| + n]
    case _ => g
  }

  lemma ExtendedFits(op: Op, a: Seen, a': Seen, g: Image)
    requires Step(op, a, a') && Builds(op) && Fits(a.growing, g)
    ensures a'.finished == a.finished && Fits(a'.growing, Extended(g, op))
  {}

  /** What a script says each live object holds. */
  datatype Plan = Plan(finished: seq<Image>, growing: Image)

  function After(p: Plan, op: Op): Plan {
    match op
    case FinishOp => Plan(p.finished + [p.growing], [])
    case FreeOp(i) => if i > |p.finished| then p else Plan(p.finished[..i], [])
    case RestartOp => Plan([], [])
    case _ => Plan(p.finished, Extended(p.growing, op))
  }

  function Planned(script: seq<Op>): Plan {
    if script == [] then Plan([], []) else After(Planned(script[..|script| - 1]), script[|script| - 1])
  }

  ghost predicate Realises(a: Seen, p: Plan) {
    && |a.finished| == |p.finished|
    && (forall k | 0 <= k < |p.finished| :: Fits(a.finished[k].bytes, p.finished[k]))
    && Fits(a.growing, p.growing)
  }

  lemma StepRealises(op: Op, a: Seen, a': Seen, p: Plan)
    requires Step(op, a, a') && Realises(a, p)
    ensures Realises(a', After(p, op))
  {
    hide Fits, Extended;
    assert Fits([], []) by { EmptyFits(); }
    if Builds(op) {
      ExtendedFits(op, a, a', p.growing);
    } else if op.FinishOp? {
      var n := |a.finished|;
      forall k | 0 <= k < n + 1 ensures Fits(a'.finished[k].bytes, After(p, op).finished[k]) {
        if k < n { assert a'.finished[..n][k] == a.finished[k]; }
      }
    }
  }

  lemma EmptyFits()
    ensures Fits([], [])
  {}

  /**
   Every run of grow, blank, finish, free and restart, at every step: the live
   objects are as many as the script says, each as long as it says, and each
   byte the script has put there is still there.
   */
  lemma {:induction false} RunRealisesPlan(script: seq<Op>, hist: seq<Seen>, v: nat)
    requires IsRun(script, hist) && v <= |script|
    ensures Realises(hist[v], Planned(script[..v]))
  {
    hide Step, After;
    if v > 0 {
      RunRealisesPlan(script, hist, v - 1);
      assert script[..v][..v - 1] == script[..v - 1] && script[..v][v - 1] == script[v - 1];
      assert Step(script[v - 1], hist[v - 1], hist[v - 1 + 1]);
      StepRealises(script[v - 1], hist[v - 1], hist[v], Planned(script[..v - 1]));
    }
  }

  // ----- Contents, object by object -----

  /** What a series of operations builds, starting from nothing. */
  function Built(ops: seq<Op>): Image {
    if ops == [] then [] else Extended(Built(ops[..|ops| - 1]), ops[|ops| - 1])
  }

  lemma {:induction false} BuiltSoFar(script: seq<Op>, hist: seq<Seen>, t: nat, u: nat)
    requires IsRun(script, hist) && t <= u <= |script| && hist[t].growing == []
    requires forall w | t <= w < u :: Builds(script[w])
    ensures Fits(hist[u].growing, Built(script[t..u]))
    ensures hist[u].finished == hist[t].finished
    decreases u - t
  {
    hide Step, Extended, Builds, Fits;
    if t < u {
      BuiltSoFar(script, hist, t, u - 1);
      assert Step(script[u - 1], hist[u - 1], hist[u - 1 + 1]);
      var ops := script[t..u];
      assert ops[..|ops| - 1] == script[t..u - 1] && ops[|ops| - 1] == script[u - 1];
      ExtendedFits(script[u - 1], hist[u - 1], hist[u], Built(script[t..u - 1]));
    } else {
      EmptyFits();
    }
  }

  /**
   An object begun at step t, grown, blanked and shrunk until u and finished
   there holds what was built, at every later step v of the run up to which it
   is not freed, however many chunks were crossed in between.
   */
  lemma FinishedHoldsWhatWasBuilt(script: seq<Op>, hist: seq<Seen>, t: nat, u: nat, v: nat)
    requires IsRun(script, hist) && t <= u < v <= |script| && hist[t].growing == []
    requires (forall w | t <= w < u :: Builds(script[w])) && script[u].FinishOp?
    requires NotFreed(script, u + 1, v, |hist[t].finished|)
    ensures var k := |hist[t].finished|;
            && k < |hist[u + 1].finished| && k < |hist[v].finished|
            && hist[v].finished[k] == hist[u + 1].finished[k]
            && Fits(hist[v].finished[k].bytes, Built(script[t..u]))
  {
    hide Fits, Built;
    BuiltSoFar(script, hist, t, u);
    assert Step(script[u], hist[u], hist[u + 1]);
    ObjectPersists(script, hist, u + 1, v, |hist[t].finished|);
  }

  /** The bytes an operation adds to the growing object. */
  function Added(op: Op): seq<Byte> {
    match op
    case GrowOp(bytes) => bytes
    case Grow0Op(bytes) => bytes + [0]
    case Grow1Op(datum) => [datum]
    case _ => []
  }

  function Grown(ops: seq<Op>): seq<Byte> {
    if ops == [] then [] else Grown(ops[..|ops| - 1]) + Added(ops[|ops| - 1])
  }

  lemma {:induction false} BuiltByGrowing(ops: seq<Op>)
    requires forall w | 0 <= w < |ops| :: Builds(ops[w]) && !ops[w].BlankOp?
    ensures Built(ops) == Known(Grown(ops))
  {
    hide Known, Extended, Added, Builds;
    if ops != [] {
      var front, op := ops[..|ops| - 1], ops[|ops| - 1];
      BuiltByGrowing(front);
      KnownAdded(Grown(front), op);
    } else {
      assert Known([]) == [];
    }
  }

  lemma KnownAdded(s: seq<Byte>, op: Op)
    requires Builds(op) && !op.BlankOp?
    ensures Extended(Known(s), op) == Known(s + Added(op))
  {
    assert Known(s) + Known(Added(op)) == Known(s + Added(op));
  }

  /** Without blanks, the object is the concatenation of what was grown into it. */
  lemma FinishedHoldsWhatWasGrown(script: seq<Op>, hist: seq<Seen>, t: nat, u: nat, v: nat)
    requires IsRun(script, hist) && t <= u < v <= |script| && hist[t].growing == []
    requires (forall w | t <= w < u :: Builds(script[w]) && !script[w].BlankOp?) && script[u].FinishOp?
    requires NotFreed(script, u + 1, v, |hist[t].finished|)
    ensures var k := |hist[t].finished|;
            k < |hist[v].finished| && hist[v].finished[k].bytes == Grown(script[t..u])
  {
    FinishedHoldsWhatWasBuilt(script, hist, t, u, v);
    BuiltByGrowing(script[t..u]);
  }

  // ----- Addresses -----

  /**
   An object whose every extension fits is never moved: it is finished at the
   address the base had when it was begun.
   */
  lemma {:induction false} BuiltInPlace(script: seq<Op>, hist: seq<Seen>, states: seq<State>, mask: nat, t: nat, u: nat)
    requires IsRun(script, hist) && Traces(states, hist, mask) && t <= u <= |script|
    requires forall w | 0 <= w < |script| :: Located(script[w], states[w], states[w + 1])
    requires forall w | t <= w < u :: Builds(script[w]) && states[w].nextFree + Length(script[w]) <= states[w].chunkLimit
    ensures states[u].objectBase == states[t].objectBase && |states[u].chunks| == |states[t].chunks|
    ensures hist[u].finished == hist[t].finished
    ensures u < |script| && script[u].FinishOp? ==>
              var k := |hist[t].finished|;
              k < |hist[u + 1].finished| && hist[u + 1].finished[k].addr == states[t].objectBase
    decreases u - t
  {
    hide Inv, Growing, Length, Builds;
    if t < u {
      BuiltInPlace(script, hist, states, mask, t, u - 1);
      assert Located(script[u - 1], states[u - 1], states[u - 1 + 1]);
      assert Step(script[u - 1], hist[u - 1], hist[u - 1 + 1]);
      BuildingFinishesNothing(script[u - 1], hist[u - 1], hist[u]);
    }
    if u < |script| { assert Located(script[u], states[u], states[u + 1]); }
  }

  lemma BuildingFinishesNothing(op: Op, a: Seen, a': Seen)
    requires Step(op, a, a') && Builds(op)
    ensures a'.finished == a.finished
  {}

  // ----- Memory -----

  /**
   Along a run, memory read at step u at the address an object had at step t
   yields the bytes it had then; the object is aligned unless it is empty, and
   no other object of step u, finished or growing, shares a byte with it.
   */
  lemma MemoryHoldsObject(script: seq<Op>, hist: seq<Seen>, states: seq<State>, mask: nat, t: nat, u: nat, k: nat)
    requires IsRun(script, hist) && Traces(states, hist, mask) && t <= u <= |script|
    requires k < |hist[t].finished| && NotFreed(script, t, u, k)
    ensures var o, s := hist[t].finished[k], states[u];
            && o.home < |s.chunks| && s.chunks[o.home].Contains(o.addr, |o.bytes|)
            && s.chunks[o.home].Bytes(o.addr, |o.bytes|) == o.bytes
            && (o.addr % (mask + 1) == 0 || o.bytes == [])
            && k < |s.finished| && Bounds(s)
            && forall j | 0 <= j < |All(s)| && j != k :: Apart(o, All(s)[j])
  {
    hide Step, Packed, ChunksOk, FlagOk, PtrAlign;
    ObjectPersists(script, hist, t, u, k);
    var o, s := hist[t].finished[k], states[u];
    assert All(s)[k] == o;
    ObjectPlaced(s, k);
    ObjectsAligned(s, k);
    forall j | 0 <= j < |All(s)| && j != k ensures Apart(o, All(s)[j]) {
      if j < k { ObjectsDisjoint(s, j, k); } else { ObjectsDisjoint(s, k, j); }
    }
  }

  /** Strings copied onto a fresh stack are found in memory, each at the address obstack_copy returned for it. */
  method StoreAll(size: nat, alignment: nat, strs: seq<seq<Byte>>) returns (o: Obstack, handles: seq<nat>)
    requires Workable(size, alignment)
    ensures fresh(o) && o.Valid() && |handles| == |o.finished| == |strs|
    ensures forall k | 0 <= k < |strs| :: ReadsAt(o.chunks, handles[k], strs[k])
  {
    hide Inv, Growing;
    o := new Obstack(size, alignment, size, alignment);
    handles := [];
    for t := 0 to |strs|
      invariant fresh(o) && o.Valid() && o.Current() == [] && |handles| == |o.finished| == t
      invariant forall k | 0 <= k < t :: o.finished[k].addr == handles[k] && o.finished[k].bytes == strs[k]
    {
      var p := o.Copy(strs[t]);
      handles := handles + [p];
    }
    forall k | 0 <= k < |strs| ensures ReadsAt(o.chunks, handles[k], strs[k]) {
      FoundInMemory(o.View(), k);
    }
  }

  /** Some chunk holds s at address p. */
  ghost predicate ReadsAt(chunks: seq<Chunk>, p: nat, s: seq<Byte>) {
    exists h | 0 <= h < |chunks| ::
      var c := chunks[h];
      c.addr <= p && p + |s| <= c.addr + |c.data| && c.data[p - c.addr..p - c.addr + |s|] == s
  }

  lemma FoundInMemory(s: State, k: nat)
    requires Inv(s) && k < |s.finished|
    ensures ReadsAt(s.chunks, s.finished[k].addr, s.finished[k].bytes)
  {
    assert All(s)[k] == s.finished[k];
    ObjectPlaced(s, k);
    var c := s.chunks[s.finished[k].home];
  }

  predicate Apart(o: Obj, o': Obj) {
    o.End() <= o'.addr || o'.End() <= o.addr
  }
}
