/**
 The lazy expression trees of gmpxx.h and their evaluation into a destination
 cell.  eval(p) writes intermediate results straight into p, which may itself
 be a leaf of the tree, and makes a temporary only where the tree shape and
 the identity of p demand it.
 */
module MpzExpr {
  import opened Basics
  import opened LimbValue
  import opened Words
  import opened MpzOps

  datatype Expr =
    | Leaf(c: Cell)
    | Un(uop: UnOp, e: Expr)
    | Bin(op: BinOp, l: Expr, r: Expr)
    | BinLit(op: BinOp, l: Expr, lit: Lit)
    | LitBin(op: BinOp, lit: Lit, r: Expr)
    | Shift(sop: ShiftOp, e: Expr, n: nat, known: bool)

  ghost function Cells(e: Expr): set<Cell> {
    match e
    case Leaf(c) => {c}
    case Un(_, e) => Cells(e)
    case Bin(_, l, r) => Cells(l) + Cells(r)
    case BinLit(_, l, _) => Cells(l)
    case LitBin(_, _, r) => Cells(r)
    case Shift(_, e, _, _) => Cells(e)
  }

  /** The mathematical value of a tree in the current state; None if a divisor is zero. */
  ghost function Value(e: Expr): Option<int>
    reads Cells(e)
  {
    match e
    case Leaf(c) => Some(c.v)
    case Un(op, e) =>
      var x := Value(e);
      if x.Some? then Some(UnSem(op, x.value)) else None
    case Bin(op, l, r) =>
      var x, y := Value(l), Value(r);
      if x.Some? && y.Some? then BinSem(op, x.value, y.value) else None
    case BinLit(op, l, lit) =>
      var x := Value(l);
      if x.Some? then BinSem(op, x.value, LitValue(lit)) else None
    case LitBin(op, lit, r) =>
      var y := Value(r);
      if y.Some? then BinSem(op, LitValue(lit), y.value) else None
    case Shift(op, e, n, _) =>
      var x := Value(e);
      if x.Some? then Some(ShiftSem(op, x.value, n)) else None
  }

  /** Some node divides the literal LONG_MIN by a subtree whose value is -1. */
  ghost predicate Overflows(e: Expr)
    reads Cells(e)
  {
    match e
    case Leaf(_) => false
    case Un(_, e) => Overflows(e)
    case Bin(_, l, r) => Overflows(l) || Overflows(r)
    case BinLit(_, l, _) => Overflows(l)
    case LitBin(op, lit, r) => Overflows(r) || (Value(r).Some? && WordOverflow(op, lit, Value(r).value))
    case Shift(_, e, _, _) => Overflows(e)
  }

  /** The tree can be evaluated without a trap. */
  ghost predicate Defined(e: Expr)
    reads Cells(e)
  {
    Value(e).Some? && !Overflows(e)
  }

  lemma LeafValue(e: Expr)
    requires e.Leaf?
    ensures Value(e) == Some(e.c.v) && Defined(e)
  {}

  // ----- What a node means, in terms of its operands -----

  /** When a tree can be evaluated: its operands can, no divisor is zero, and LONG_MIN does not meet -1. */
  lemma DefinedMeans(e: Expr)
    ensures e.Un? ==> (Defined(e) <==> Defined(e.e))
    ensures e.Shift? ==> (Defined(e) <==> Defined(e.e))
    ensures e.Bin? ==>
              (Defined(e) <==> Defined(e.l) && Defined(e.r) && !((e.op.Div? || e.op.Mod?) && Value(e.r).value == 0))
    ensures e.BinLit? ==> (Defined(e) <==> Defined(e.l) && !((e.op.Div? || e.op.Mod?) && LitValue(e.lit) == 0))
    ensures e.LitBin? ==>
              (Defined(e) <==>
                 && Defined(e.r)
                 && ((e.op.Div? || e.op.Mod?) ==>
                       && Value(e.r).value != 0
                       && !(e.lit.SI? && e.lit.s == LONG_MIN && Value(e.r).value == -1)))
  {
    hide Quot, Rem;
  }

  /** What a node delivers: each operator by its law, operands in the order they are written. */
  lemma NodeMeans(e: Expr)
    requires Defined(e)
    ensures e.Un? ==>
              var x := Value(e.e).value;
              && (e.uop.Pos? ==> Value(e).value == x)
              && (e.uop.Minus? ==> Value(e).value + x == 0)
              && (e.uop.Com? ==> Value(e).value + x == -1)
              && (e.uop.Magnitude? ==> Value(e).value >= 0 && (Value(e).value == x || Value(e).value == -x))
    ensures e.Shift? ==>
              var x, m := Value(e.e).value, Pow(2, e.n);
              if e.sop.Left? then Value(e).value == x * m else Value(e).value * m <= x < (Value(e).value + 1) * m
    ensures e.Bin? ==>
              var x, y := Value(e.l).value, Value(e.r).value;
              && (e.op.Add? ==> Value(e).value - y == x)
              && (e.op.Sub? ==> Value(e).value + y == x)
              && (e.op.Mul? ==> Value(e).value == x * y)
              && (e.op.Div? ==> y != 0 && Value(e).value == Quot(x, y))
              && (e.op.Mod? ==> y != 0 && Value(e).value == Rem(x, y))
    ensures e.BinLit? ==>
              var x, y := Value(e.l).value, LitValue(e.lit);
              && (e.op.Add? ==> Value(e).value - y == x)
              && (e.op.Sub? ==> Value(e).value + y == x)
              && (e.op.Mul? ==> Value(e).value == x * y)
              && (e.op.Div? ==> y != 0 && Value(e).value == Quot(x, y))
              && (e.op.Mod? ==> y != 0 && Value(e).value == Rem(x, y))
    ensures e.LitBin? ==>
              var x, y := LitValue(e.lit), Value(e.r).value;
              && (e.op.Add? ==> Value(e).value - y == x)
              && (e.op.Sub? ==> Value(e).value + y == x)
              && (e.op.Mul? ==> Value(e).value == x * y)
              && (e.op.Div? ==> y != 0 && Value(e).value == Quot(x, y))
              && (e.op.Mod? ==> y != 0 && Value(e).value == Rem(x, y))
  {
    hide BinSem, ShiftSem, Quot, Rem, Pow;
    match e
    case Leaf(_) =>
    case Un(_, _) =>
    case Shift(_, a, n, _) => ShiftLaws(Value(a).value, n);
    case Bin(op, l, r) => BinDelivers(op, Value(l).value, Value(r).value);
    case BinLit(op, l, lit) => BinDelivers(op, Value(l).value, LitValue(lit));
    case LitBin(op, lit, r) => BinDelivers(op, LitValue(lit), Value(r).value);
  }

  lemma BinDelivers(op: BinOp, x: int, y: int)
    requires BinSem(op, x, y).Some?
    ensures var v := BinSem(op, x, y).value;
            && (op.Add? ==> v - y == x)
            && (op.Sub? ==> v + y == x)
            && (op.Mul? ==> v == x * y)
            && (op.Div? ==> y != 0 && v == Quot(x, y))
            && (op.Mod? ==> y != 0 && v == Rem(x, y))
  {
    hide Quot, Rem;
  }

  /** A literal stands for any variable that holds it. */
  lemma LiteralAsVariable(op: BinOp, lit: Lit, e: Expr, t: Cell)
    requires t.v == (if lit.UI? then lit.u else lit.s)
    ensures Value(LitBin(op, lit, e)) == Value(Bin(op, Leaf(t), e))
    ensures Value(BinLit(op, e, lit)) == Value(Bin(op, e, Leaf(t)))
  {}

  // ----- Temporaries -----

  /** Accounts for the mpz and mpq variables that evaluation creates and clears. */
  class Pool {
    var made: nat
    var live: nat
    var peak: nat

    /** One temporary more. */
    method Enter()
      modifies this
      ensures made == old(made) + 1 && live == old(live) + 1 && peak == Max(old(peak), live)
    {
      made, live := made + 1, live + 1;
      peak := Max(peak, live);
    }

    /** mpz_init of a temporary. */
    method Acquire() returns (t: Cell)
      modifies this
      ensures fresh(t)
      ensures made == old(made) + 1 && live == old(live) + 1 && peak == Max(old(peak), live)
    {
      t := new Cell(0);
      Enter();
    }

    /** The temporary's destructor. */
    method Release()
      requires live > 0
      modifies this`live
      ensures live == old(live) - 1
    {
      live := live - 1;
    }
  }

  /** Temporaries made by evaluating e into p; null stands for a destination outside the tree. */
  function Temps(e: Expr, p: Cell?): nat {
    match e
    case Leaf(_) => 0
    case Un(_, e) => Temps(e, p)
    case BinLit(_, l, _) => Temps(l, p)
    case LitBin(_, _, r) => Temps(r, p)
    case Shift(_, e, _, _) => Temps(e, p)
    case Bin(_, l, r) =>
      if l.Leaf? && r.Leaf? then 0
      else if l.Leaf? then if l.c == p then 1 + Temps(r, null) else Temps(r, p)
      else if r.Leaf? then if r.c == p then 1 + Temps(l, null) else Temps(l, p)
      else 1 + Temps(r, null) + Temps(l, p)
  }

  /** How many of them exist at the same time. */
  function Depth(e: Expr, p: Cell?): nat {
    match e
    case Leaf(_) => 0
    case Un(_, e) => Depth(e, p)
    case BinLit(_, l, _) => Depth(l, p)
    case LitBin(_, _, r) => Depth(r, p)
    case Shift(_, e, _, _) => Depth(e, p)
    case Bin(_, l, r) =>
      if l.Leaf? && r.Leaf? then 0
      else if l.Leaf? then if l.c == p then 1 + Depth(r, null) else Depth(r, p)
      else if r.Leaf? then if r.c == p then 1 + Depth(l, null) else Depth(l, p)
      else 1 + Max(Depth(r, null), Depth(l, p))
  }

  lemma {:induction false} FreshDestination(e: Expr, p: Cell)
    requires p !in Cells(e)
    ensures Temps(e, p) == Temps(e, null) && Depth(e, p) == Depth(e, null)
  {
    match e
    case Leaf(_) =>
    case Un(_, e) => FreshDestination(e, p);
    case BinLit(_, l, _) => FreshDestination(l, p);
    case LitBin(_, _, r) => FreshDestination(r, p);
    case Shift(_, e, _, _) => FreshDestination(e, p);
    case Bin(_, l, r) => FreshDestination(l, p); FreshDestination(r, p);
  }

  /** Evaluation of e into p kept the pool's accounts. */
  twostate predicate Accounted(pool: Pool, temps: nat, depth: nat)
    reads pool
  {
    && pool.live == old(pool.live)
    && pool.made == old(pool.made) + temps
    && pool.peak == Max(old(pool.peak), old(pool.live) + depth)
  }

  /** A temporary was set up and is still alive; temps and depth include it. */
  twostate predicate Holding(pool: Pool, temps: nat, depth: nat)
    reads pool
  {
    && pool.live == old(pool.live) + 1
    && pool.made == old(pool.made) + temps
    && pool.peak == Max(old(pool.peak), old(pool.live) + depth)
  }

  // ----- Evaluation -----

  /** __gmp_set_expr: a plain variable is copied, anything else evaluated. */
  method SetExpr(p: Cell, e: Expr, pool: Pool) returns (ok: bool)
    modifies p, pool
    ensures ok <==> old(Defined(e))
    ensures ok ==> Some(p.v) == old(Value(e))
    ensures ok && old(pool.live <= pool.peak) ==> Accounted(pool, Temps(e, p), Depth(e, p))
    ensures ok && e.Leaf? ==> pool.made == old(pool.made)
    decreases e, 3
  {
    if e.Leaf? {
      p.v := e.c.v;
      ok := true;
    } else {
      ok := Eval(e, p, pool);
    }
  }

  method Eval(e: Expr, p: Cell, pool: Pool) returns (ok: bool)
    requires !e.Leaf?
    modifies p, pool
    ensures ok <==> old(Defined(e))
    ensures ok ==> Some(p.v) == old(Value(e))
    ensures ok && old(pool.live <= pool.peak) ==> Accounted(pool, Temps(e, p), Depth(e, p))
    ensures ok && e.Un? ==>
              var x := old(Value(e.e)).value;
              && (e.uop.Pos? ==> p.v == x)
              && (e.uop.Minus? ==> p.v + x == 0)
              && (e.uop.Com? ==> p.v + x == -1)
              && (e.uop.Magnitude? ==> p.v >= 0 && (p.v == x || p.v == -x))
    ensures ok && e.Shift? ==>
              var x, m := old(Value(e.e)).value, Pow(2, e.n);
              if e.sop.Left? then p.v == x * m else p.v * m <= x < (p.v + 1) * m
    ensures ok && e.Bin? ==>
              var x, y := old(Value(e.l)).value, old(Value(e.r)).value;
              && (e.op.Add? ==> p.v - y == x)
              && (e.op.Sub? ==> p.v + y == x)
              && (e.op.Mul? ==> p.v == x * y)
              && (e.op.Div? ==> y != 0 && p.v == Quot(x, y))
              && (e.op.Mod? ==> y != 0 && p.v == Rem(x, y))
    ensures ok && e.BinLit? ==>
              var x, y := old(Value(e.l)).value, LitValue(e.lit);
              && (e.op.Add? ==> p.v - y == x)
              && (e.op.Sub? ==> p.v + y == x)
              && (e.op.Mul? ==> p.v == x * y)
              && (e.op.Div? ==> y != 0 && p.v == Quot(x, y))
              && (e.op.Mod? ==> y != 0 && p.v == Rem(x, y))
    ensures ok && e.LitBin? ==>
              var x, y := LitValue(e.lit), old(Value(e.r)).value;
              && (e.op.Add? ==> p.v - y == x)
              && (e.op.Sub? ==> p.v + y == x)
              && (e.op.Mul? ==> p.v == x * y)
              && (e.op.Div? ==> y != 0 && p.v == Quot(x, y))
              && (e.op.Mod? ==> y != 0 && p.v == Rem(x, y))
    decreases e, 2
  {
    hide *;
    if Defined(e) { NodeMeans(e); }
    ok := EvalNode(e, p, pool);
  }

  /** eval of one node, by the shape of its operands. */
  method EvalNode(e: Expr, p: Cell, pool: Pool) returns (ok: bool)
    requires !e.Leaf?
    modifies p, pool
    ensures ok <==> old(Defined(e))
    ensures ok ==> Some(p.v) == old(Value(e))
    ensures ok && old(pool.live <= pool.peak) ==> Accounted(pool, Temps(e, p), Depth(e, p))
    ensures ok && e.Bin? && e.l.Leaf? && e.r.Leaf? ==> pool.made == old(pool.made)
    decreases e, 1
  {
    hide UnSem, BinSem, ShiftSem, Quot, Rem, Pow;
    match e {
      case Un(op, a) =>
        if a.Leaf? {
          LeafValue(a);
          ApplyUn(op, p, a.c);
        } else {
          ok := EvalNode(a, p, pool);
          if !ok { return; }
          ApplyUn(op, p, p);
        }
        ok := true;
      case Shift(op, a, n, known) =>
        var s := p;
        if a.Leaf? {
          LeafValue(a);
          s := a.c;
        } else {
          ok := EvalNode(a, p, pool);
          if !ok { return; }
        }
        if op.Left? { Lshift(p, s, n, known); } else { Rshift(p, s, n, known); }
        ok := true;
      case BinLit(op, l, lit) =>
        if l.Leaf? {
          LeafValue(l);
          ok := ApplyVL(op, p, l.c, lit);
        } else {
          ok := EvalNode(l, p, pool);
          if !ok { return; }
          ok := ApplyVL(op, p, p, lit);
        }
      case LitBin(op, lit, r) =>
        if r.Leaf? {
          LeafValue(r);
          ok := ApplyLV(op, p, lit, r.c);
        } else {
          ok := EvalNode(r, p, pool);
          if !ok { return; }
          ok := ApplyLV(op, p, lit, p);
        }
      case Bin(op, l, r) =>
        if l.Leaf? && r.Leaf? {
          LeafValue(l);
          LeafValue(r);
          ok := ApplyVV(op, p, l.c, r.c);
        } else if l.Leaf? {
          ok := EvalLeafLeft(e, p, pool);
        } else if r.Leaf? {
          ok := EvalLeafRight(e, p, pool);
        } else {
          ok := EvalBoth(e, p, pool);
        }
    }
  }

  /** Variable op compound. */
  method EvalLeafLeft(e: Expr, p: Cell, pool: Pool) returns (ok: bool)
    requires e.Bin? && e.l.Leaf? && !e.r.Leaf?
    modifies p, pool
    ensures ok <==> old(Defined(e))
    ensures ok ==> Some(p.v) == old(Value(e))
    ensures ok && old(pool.live <= pool.peak) ==> Accounted(pool, Temps(e, p), Depth(e, p))
    ensures ok && old(pool.live <= pool.peak) ==>
              pool.made == old(pool.made) + if p == e.l.c then 1 + Temps(e.r, null) else Temps(e.r, p)
    decreases e.r, 4
  {
    LeafValue(e.l);
    if p != e.l.c {
      ok := SetExpr(p, e.r, pool);
      if !ok { return; }
      ok := ApplyVV(e.op, p, e.l.c, p);
    } else {
      assert allocated(Cells(e.r));
      var t := pool.Acquire();
      assert t !in Cells(e.r);
      ok := SetExpr(t, e.r, pool);
      if !ok { return; }
      FreshDestination(e.r, t);
      ok := ApplyVV(e.op, p, e.l.c, t);
      pool.Release();
    }
  }

  /** Compound op variable. */
  method EvalLeafRight(e: Expr, p: Cell, pool: Pool) returns (ok: bool)
    requires e.Bin? && !e.l.Leaf? && e.r.Leaf?
    modifies p, pool
    ensures ok <==> old(Defined(e))
    ensures ok ==> Some(p.v) == old(Value(e))
    ensures ok && old(pool.live <= pool.peak) ==> Accounted(pool, Temps(e, p), Depth(e, p))
    ensures ok && old(pool.live <= pool.peak) ==>
              pool.made == old(pool.made) + if p == e.r.c then 1 + Temps(e.l, null) else Temps(e.l, p)
    decreases e.l, 4
  {
    LeafValue(e.r);
    if p != e.r.c {
      ok := SetExpr(p, e.l, pool);
      if !ok { return; }
      ok := ApplyVV(e.op, p, p, e.r.c);
    } else {
      assert allocated(Cells(e.l));
      var t := pool.Acquire();
      assert t !in Cells(e.l);
      ok := SetExpr(t, e.l, pool);
      if !ok { return; }
      FreshDestination(e.l, t);
      ok := ApplyVV(e.op, p, t, e.r.c);
      pool.Release();
    }
  }

  /** Compound op compound: the right operand goes to a temporary first. */
  method EvalBoth(e: Expr, p: Cell, pool: Pool) returns (ok: bool)
    requires e.Bin? && !e.l.Leaf? && !e.r.Leaf?
    modifies p, pool
    ensures ok <==> old(Defined(e))
    ensures ok ==> Some(p.v) == old(Value(e))
    ensures ok && old(pool.live <= pool.peak) ==> Accounted(pool, Temps(e, p), Depth(e, p))
    ensures ok && old(pool.live <= pool.peak) ==> pool.made == old(pool.made) + 1 + Temps(e.r, null) + Temps(e.l, p)
    decreases e, 0
  {
    hide BinSem, UnSem, ShiftSem;
    assert allocated(Cells(e.r)) && allocated(Cells(e.l));
    var t := pool.Acquire();
    assert t !in Cells(e.r) && t !in Cells(e.l);
    ok := SetExpr(t, e.r, pool);
    if !ok { return; }
    FreshDestination(e.r, t);
    ok := EvalNode(e.l, p, pool);
    if !ok { return; }
    ok := ApplyVV(e.op, p, p, t);
    pool.Release();
  }
}
