/**
 How many temporaries an evaluation needs, compound assignment, and whole
 programs of assignments compared with their meaning on a store.
 */
module MpzExprLaws {
  import opened Basics
  import opened MpzOps
  import opened MpzExpr

  // ----- Temporaries, exactly -----

  /** Nodes both of whose operands are compound. */
  function TwoCompound(e: Expr): nat {
    match e
    case Leaf(_) => 0
    case Un(_, e) => TwoCompound(e)
    case BinLit(_, l, _) => TwoCompound(l)
    case LitBin(_, _, r) => TwoCompound(r)
    case Shift(_, e, _, _) => TwoCompound(e)
    case Bin(_, l, r) => TwoCompound(l) + TwoCompound(r) + (if l.Leaf? || r.Leaf? then 0 else 1)
  }

  /** Walking down the operands that are evaluated in place, p is met as the plain operand of a half-compound node. */
  predicate MetOnSpine(e: Expr, p: Cell?) {
    match e
    case Leaf(_) => false
    case Un(_, e) => MetOnSpine(e, p)
    case BinLit(_, l, _) => MetOnSpine(l, p)
    case LitBin(_, _, r) => MetOnSpine(r, p)
    case Shift(_, e, _, _) => MetOnSpine(e, p)
    case Bin(_, l, r) =>
      if l.Leaf? && r.Leaf? then false
      else if l.Leaf? then l.c == p || MetOnSpine(r, p)
      else if r.Leaf? then r.c == p || MetOnSpine(l, p)
      else MetOnSpine(l, p)
  }

  /** One temporary per doubly compound node, and one more in all, however often p occurs, if p is met on the spine. */
  lemma {:induction false} TempsExact(e: Expr, p: Cell?)
    ensures Temps(e, p) == TwoCompound(e) + (if p != null && MetOnSpine(e, p) then 1 else 0)
  {
    match e
    case Leaf(_) =>
    case Un(_, e) => TempsExact(e, p);
    case BinLit(_, l, _) => TempsExact(l, p);
    case LitBin(_, _, r) => TempsExact(r, p);
    case Shift(_, e, _, _) => TempsExact(e, p);
    case Bin(_, l, r) =>
      TempsExact(l, p);
      TempsExact(r, p);
      TempsExact(l, null);
      TempsExact(r, null);
      assert l.Leaf? ==> TwoCompound(l) == 0;
      assert r.Leaf? ==> TwoCompound(r) == 0;
  }

  /** No temporary at all exactly when no node is doubly compound and p is not met on the spine. */
  lemma NoTempsExactlyWhen(e: Expr, p: Cell)
    ensures Temps(e, p) == 0 <==> TwoCompound(e) == 0 && !MetOnSpine(e, p)
  {
    TempsExact(e, p);
  }

  function BinaryCompound(e: Expr): nat {
    match e
    case Leaf(_) => 0
    case Un(_, e) => BinaryCompound(e)
    case BinLit(_, l, _) => BinaryCompound(l)
    case LitBin(_, _, r) => BinaryCompound(r)
    case Shift(_, e, _, _) => BinaryCompound(e)
    case Bin(_, l, r) => BinaryCompound(l) + BinaryCompound(r) + (if l.Leaf? && r.Leaf? then 0 else 1)
  }

  /** At most one temporary per binary node with a compound operand. */
  lemma {:induction false} TempsBounded(e: Expr, p: Cell?)
    ensures Temps(e, p) <= BinaryCompound(e)
  {
    match e
    case Leaf(_) =>
    case Un(_, e) => TempsBounded(e, p);
    case BinLit(_, l, _) => TempsBounded(l, p);
    case LitBin(_, _, r) => TempsBounded(r, p);
    case Shift(_, e, _, _) => TempsBounded(e, p);
    case Bin(_, l, r) =>
      TempsBounded(l, p);
      TempsBounded(r, p);
      TempsBounded(l, null);
      TempsBounded(r, null);
  }

  function Height(e: Expr): nat {
    match e
    case Leaf(_) => 0
    case Un(_, e) => 1 + Height(e)
    case BinLit(_, l, _) => 1 + Height(l)
    case LitBin(_, _, r) => 1 + Height(r)
    case Shift(_, e, _, _) => 1 + Height(e)
    case Bin(_, l, r) => 1 + Max(Height(l), Height(r))
  }

  /** Fewer temporaries than the height of the tree are alive at any time. */
  lemma {:induction false} DepthBelowHeight(e: Expr, p: Cell?)
    requires !e.Leaf?
    ensures Depth(e, p) < Height(e)
  {
    match e
    case Un(_, e) => if !e.Leaf? { DepthBelowHeight(e, p); }
    case BinLit(_, l, _) => if !l.Leaf? { DepthBelowHeight(l, p); }
    case LitBin(_, _, r) => if !r.Leaf? { DepthBelowHeight(r, p); }
    case Shift(_, e, _, _) => if !e.Leaf? { DepthBelowHeight(e, p); }
    case Bin(_, l, r) =>
      if !l.Leaf? { DepthBelowHeight(l, p); DepthBelowHeight(l, null); }
      if !r.Leaf? { DepthBelowHeight(r, p); DepthBelowHeight(r, null); }
  }

  // ----- Compound assignment -----

  /**
   x op= e for an arbitrary tree e, x occurring in it or not.  A compound e
   always goes through the aliasing branch: one temporary more than its
   doubly compound nodes.
   */
  method OpAssign(x: Cell, op: BinOp, e: Expr, pool: Pool) returns (ok: bool)
    modifies x, pool
    ensures ok <==> old(Defined(e)) && BinSem(op, old(x.v), old(Value(e)).value).Some?
    ensures ok ==> Some(x.v) == BinSem(op, old(x.v), old(Value(e)).value)
    ensures ok && old(pool.live <= pool.peak) ==>
              && pool.live == old(pool.live)
              && pool.made == old(pool.made) + (if e.Leaf? then 0 else 1 + TwoCompound(e))
              && pool.peak == Max(old(pool.peak), old(pool.live) + (if e.Leaf? then 0 else 1 + Depth(e, null)))
  {
    var tree := Bin(op, Leaf(x), e);
    LeafValue(Leaf(x));
    assert Cells(tree) == {x} + Cells(e);
    assert Defined(tree) <==> Defined(e) && BinSem(op, x.v, Value(e).value).Some?;
    TempsExact(e, null);
    ok := SetExpr(x, tree, pool);
  }

  /** x op= l for a machine integer. */
  method OpAssignLit(x: Cell, op: BinOp, l: Lit, pool: Pool) returns (ok: bool)
    modifies x, pool
    ensures ok <==> BinSem(op, old(x.v), LitValue(l)).Some?
    ensures ok ==> Some(x.v) == BinSem(op, old(x.v), LitValue(l))
  {
    var tree := BinLit(op, Leaf(x), l);
    LeafValue(Leaf(x));
    assert !Overflows(tree);
    ok := SetExpr(x, tree, pool);
  }

  // ----- Whole programs -----

  type Store = map<Cell, int>

  ghost function ValueIn(e: Expr, st: Store): Option<int>
    requires Cells(e) <= st.Keys
  {
    match e
    case Leaf(c) => Some(st[c])
    case Un(op, e) =>
      var x := ValueIn(e, st);
      if x.Some? then Some(UnSem(op, x.value)) else None
    case Bin(op, l, r) =>
      var x, y := ValueIn(l, st), ValueIn(r, st);
      if x.Some? && y.Some? then BinSem(op, x.value, y.value) else None
    case BinLit(op, l, lit) =>
      var x := ValueIn(l, st);
      if x.Some? then BinSem(op, x.value, LitValue(lit)) else None
    case LitBin(op, lit, r) =>
      var y := ValueIn(r, st);
      if y.Some? && !WordOverflow(op, lit, y.value) then BinSem(op, LitValue(lit), y.value) else None
    case Shift(op, e, n, _) =>
      var x := ValueIn(e, st);
      if x.Some? then Some(ShiftSem(op, x.value, n)) else None
  }

  ghost predicate Mirrors(st: Store)
    reads st.Keys
  {
    forall c | c in st :: c.v == st[c]
  }

  /** On a store that mirrors the heap, the store meaning is the heap meaning, traps included. */
  lemma {:induction false} ValueInIsValue(e: Expr, st: Store)
    requires Cells(e) <= st.Keys && Mirrors(st)
    ensures ValueIn(e, st) == if Defined(e) then Value(e) else None
  {
    match e
    case Leaf(_) =>
    case Un(_, e) => ValueInIsValue(e, st);
    case BinLit(_, l, _) => ValueInIsValue(l, st);
    case LitBin(_, _, r) => ValueInIsValue(r, st);
    case Shift(_, e, _, _) => ValueInIsValue(e, st);
    case Bin(_, l, r) => ValueInIsValue(l, st); ValueInIsValue(r, st);
  }

  datatype Stmt = Assign(x: Cell, e: Expr) | Update(x: Cell, op: BinOp, e: Expr)

  ghost function Mentioned(prog: seq<Stmt>): set<Cell> {
    if prog == [] then {} else {prog[0].x} + Cells(prog[0].e) + Mentioned(prog[1..])
  }

  /** The variables a program assigns to. */
  ghost function Targets(prog: seq<Stmt>): set<Cell> {
    if prog == [] then {} else {prog[0].x} + Targets(prog[1..])
  }

  /** The store a program leads to; None if it traps on the way. */
  ghost function Exec(prog: seq<Stmt>, st: Store): Option<Store>
    requires Mentioned(prog) <= st.Keys
  {
    if prog == [] then Some(st)
    else
      var s := prog[0];
      var v := ValueIn(s.e, st);
      var v' := if s.Update? && v.Some? then BinSem(s.op, st[s.x], v.value) else v;
      if v'.None? then None else Exec(prog[1..], st[s.x := v'.value])
  }

  /** Running p and then q is running q from the store p leads to, and variables that are not assigned keep their value. */
  lemma {:induction false} ExecComposes(p: seq<Stmt>, q: seq<Stmt>, st: Store)
    requires Mentioned(p) <= st.Keys && Mentioned(q) <= st.Keys
    ensures Mentioned(p + q) == Mentioned(p) + Mentioned(q)
    ensures Exec(p, st).Some? ==> Exec(p, st).value.Keys == st.Keys
    ensures Exec(p, st).Some? ==> forall c | c in st && c !in Targets(p) :: Exec(p, st).value[c] == st[c]
    ensures Exec(p + q, st) == if Exec(p, st).Some? then Exec(q, Exec(p, st).value) else None
    decreases |p|
  {
    if p == [] {
      assert p + q == q;
    } else {
      assert (p + q)[0] == p[0] && (p + q)[1..] == p[1..] + q;
      var v := ValueIn(p[0].e, st);
      var v' := if p[0].Update? && v.Some? then BinSem(p[0].op, st[p[0].x], v.value) else v;
      ExecComposes(p[1..], q, if v'.Some? then st[p[0].x := v'.value] else st);
    }
  }

  /** Destination-passing evaluation of a whole program reaches exactly the store its meaning prescribes. */
  method Run(prog: seq<Stmt>, pool: Pool, ghost st: Store) returns (ok: bool)
    requires Mentioned(prog) <= st.Keys && Mirrors(st)
    modifies Targets(prog), pool
    ensures ok <==> Exec(prog, st).Some?
    ensures ok ==> forall c | c in st :: c in Exec(prog, st).value && c.v == Exec(prog, st).value[c]
    ensures |prog| == 1 && prog[0].Assign? ==>
              && (ok <==> old(Defined(prog[0].e)))
              && (ok ==> Some(prog[0].x.v) == old(Value(prog[0].e)))
    ensures |prog| == 1 && prog[0].Update? ==>
              var x, y := old(prog[0].x.v), old(Value(prog[0].e));
              && (ok <==> old(Defined(prog[0].e)) && BinSem(prog[0].op, x, y.value).Some?)
              && (ok ==> Some(prog[0].x.v) == BinSem(prog[0].op, x, y.value))
    decreases |prog|
  {
    if prog == [] {
      return true;
    }
    var s := prog[0];
    ValueInIsValue(s.e, st);
    match s {
      case Assign(x, e) => ok := SetExpr(x, e, pool);
      case Update(x, op, e) => ok := OpAssign(x, op, e, pool);
    }
    if !ok { return; }
    ghost var st' := st[s.x := s.x.v];
    assert st'.Keys == st.Keys;
    ok := Run(prog[1..], pool, st');
  }
}
