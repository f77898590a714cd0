/**
 Rational expression trees, with integer subtrees as operands.  The
 destination is an mpq variable; a rational leaf may be that very variable,
 and an integer leaf may be its numerator or denominator.
 */
module MixedExpr {
  import opened Basics
  import opened LimbValue
  import opened Words
  import opened Rationals
  import opened MpzOps
  import opened MpqOps
  import opened MpzExpr

  datatype QExpr =
    | QLeaf(rat: Rat)
    | QUn(uop: QUnOp, e: QExpr)
    | QBin(op: QBinOp, l: QExpr, r: QExpr)
    | QBinLit(op: QBinOp, l: QExpr, lit: Lit)
    | LitQBin(op: QBinOp, lit: Lit, r: QExpr)
    | QScale(sop: ShiftOp, e: QExpr, n: nat, known: bool)
    | QZ(op: QBinOp, l: QExpr, z: Expr)
    | ZQ(op: QBinOp, z: Expr, r: QExpr)

  ghost function QCells(e: QExpr): set<Cell> {
    match e
    case QLeaf(r) => {r.num, r.den}
    case QUn(_, e) => QCells(e)
    case QBin(_, l, r) => QCells(l) + QCells(r)
    case QBinLit(_, l, _) => QCells(l)
    case LitQBin(_, _, r) => QCells(r)
    case QScale(_, e, _, _) => QCells(e)
    case QZ(_, l, z) => QCells(l) + Cells(z)
    case ZQ(_, z, r) => Cells(z) + QCells(r)
  }

  /** Every rational leaf is canonical. */
  ghost predicate LeavesOk(e: QExpr)
    reads QCells(e)
  {
    match e
    case QLeaf(r) => r.Ok()
    case QUn(_, e) => LeavesOk(e)
    case QBin(_, l, r) => LeavesOk(l) && LeavesOk(r)
    case QBinLit(_, l, _) => LeavesOk(l)
    case LitQBin(_, _, r) => LeavesOk(r)
    case QScale(_, e, _, _) => LeavesOk(e)
    case QZ(_, l, _) => LeavesOk(l)
    case ZQ(_, _, r) => LeavesOk(r)
  }

  /** Every rational leaf is q itself or shares no cell with it; integer leaves are unrestricted. */
  ghost predicate WholeOrApart(e: QExpr, q: Rat) {
    match e
    case QLeaf(r) => SameOrApart(q, r)
    case QUn(_, e) => WholeOrApart(e, q)
    case QBin(_, l, r) => WholeOrApart(l, q) && WholeOrApart(r, q)
    case QBinLit(_, l, _) => WholeOrApart(l, q)
    case LitQBin(_, _, r) => WholeOrApart(r, q)
    case QScale(_, e, _, _) => WholeOrApart(e, q)
    case QZ(_, l, _) => WholeOrApart(l, q)
    case ZQ(_, _, r) => WholeOrApart(r, q)
  }

  lemma {:induction false} FreshIsApart(e: QExpr, t: Rat)
    requires t.num !in QCells(e) && t.den !in QCells(e)
    ensures WholeOrApart(e, t)
  {
    match e
    case QLeaf(r) =>
    case QUn(_, e) => FreshIsApart(e, t);
    case QBin(_, l, r) => FreshIsApart(l, t); FreshIsApart(r, t);
    case QBinLit(_, l, _) => FreshIsApart(l, t);
    case LitQBin(_, _, r) => FreshIsApart(r, t);
    case QScale(_, e, _, _) => FreshIsApart(e, t);
    case QZ(_, l, _) => FreshIsApart(l, t);
    case ZQ(_, _, r) => FreshIsApart(r, t);
  }

  /** The rational number a tree denotes; None if it divides by zero. */
  ghost function QValue(e: QExpr): Option<real>
    requires LeavesOk(e)
    reads QCells(e)
  {
    match e
    case QLeaf(r) => Some(r.Value())
    case QUn(op, e) =>
      var x := QValue(e);
      if x.Some? then Some(QUnSem(op, x.value)) else None
    case QBin(op, l, r) =>
      var x, y := QValue(l), QValue(r);
      if x.Some? && y.Some? then QBinSem(op, x.value, y.value) else None
    case QBinLit(op, l, lit) =>
      var x := QValue(l);
      if x.Some? then QBinSem(op, x.value, LitValue(lit) as real) else None
    case LitQBin(op, lit, r) =>
      var y := QValue(r);
      if y.Some? then QBinSem(op, LitValue(lit) as real, y.value) else None
    case QScale(op, e, n, _) =>
      var x := QValue(e);
      if x.Some? then Some(QShiftSem(op, x.value, n)) else None
    case QZ(op, l, z) =>
      var x, y := QValue(l), Value(z);
      if x.Some? && y.Some? then QBinSem(op, x.value, y.value as real) else None
    case ZQ(op, z, r) =>
      var x, y := Value(z), QValue(r);
      if x.Some? && y.Some? then QBinSem(op, x.value as real, y.value) else None
  }

  ghost predicate QOverflows(e: QExpr)
    reads QCells(e)
  {
    match e
    case QLeaf(_) => false
    case QUn(_, e) => QOverflows(e)
    case QBin(_, l, r) => QOverflows(l) || QOverflows(r)
    case QBinLit(_, l, _) => QOverflows(l)
    case LitQBin(_, _, r) => QOverflows(r)
    case QScale(_, e, _, _) => QOverflows(e)
    case QZ(_, l, z) => QOverflows(l) || Overflows(z)
    case ZQ(_, z, r) => Overflows(z) || QOverflows(r)
  }

  ghost predicate QDefined(e: QExpr)
    requires LeavesOk(e)
    reads QCells(e)
  {
    QValue(e).Some? && !QOverflows(e)
  }

  lemma QLeafValue(e: QExpr)
    requires e.QLeaf? && LeavesOk(e)
    ensures QValue(e) == Some(e.rat.Value()) && QDefined(e)
  {}

  // ----- What a node means, in terms of its operands -----

  /** When a tree can be evaluated: its operands can, and no divisor is zero. */
  lemma QDefinedMeans(e: QExpr)
    requires LeavesOk(e)
    ensures e.QUn? ==> (QDefined(e) <==> QDefined(e.e))
    ensures e.QScale? ==> (QDefined(e) <==> QDefined(e.e))
    ensures e.QBin? ==>
              (QDefined(e) <==> QDefined(e.l) && QDefined(e.r) && !(e.op.QDiv? && QValue(e.r).value == 0.0))
    ensures e.QBinLit? ==> (QDefined(e) <==> QDefined(e.l) && !(e.op.QDiv? && LitValue(e.lit) == 0))
    ensures e.LitQBin? ==> (QDefined(e) <==> QDefined(e.r) && !(e.op.QDiv? && QValue(e.r).value == 0.0))
    ensures e.QZ? ==> (QDefined(e) <==> QDefined(e.l) && Defined(e.z) && !(e.op.QDiv? && Value(e.z).value == 0))
    ensures e.ZQ? ==> (QDefined(e) <==> Defined(e.z) && QDefined(e.r) && !(e.op.QDiv? && QValue(e.r).value == 0.0))
  {
    hide QUnSem, QShiftSem;
  }

  /** What a node delivers: each operator by its law, operands in the order they are written. */
  lemma QNodeMeans(e: QExpr)
    requires LeavesOk(e) && QDefined(e)
    ensures e.QUn? ==>
              var x := QValue(e.e).value;
              && (e.uop.QPos? ==> QValue(e).value == x)
              && (e.uop.QMinus? ==> QValue(e).value + x == 0.0)
              && (e.uop.QMagnitude? ==> QValue(e).value >= 0.0 && (QValue(e).value == x || QValue(e).value == -x))
    ensures e.QScale? ==>
              var x, m := QValue(e.e).value, Pow(2, e.n) as real;
              if e.sop.Left? then QValue(e).value == Times(x, m) else Times(QValue(e).value, m) == x
    ensures e.QBin? ==>
              var x, y := QValue(e.l).value, QValue(e.r).value;
              && (e.op.QAdd? ==> QValue(e).value - y == x)
              && (e.op.QSub? ==> QValue(e).value + y == x)
              && (e.op.QMul? ==> QValue(e).value == Times(x, y))
              && (e.op.QDiv? ==> Times(QValue(e).value, y) == x)
    ensures e.QBinLit? ==>
              var x, y := QValue(e.l).value, LitValue(e.lit) as real;
              && (e.op.QAdd? ==> QValue(e).value - y == x)
              && (e.op.QSub? ==> QValue(e).value + y == x)
              && (e.op.QMul? ==> QValue(e).value == Times(x, y))
              && (e.op.QDiv? ==> Times(QValue(e).value, y) == x)
    ensures e.LitQBin? ==>
              var x, y := LitValue(e.lit) as real, QValue(e.r).value;
              && (e.op.QAdd? ==> QValue(e).value - y == x)
              && (e.op.QSub? ==> QValue(e).value + y == x)
              && (e.op.QMul? ==> QValue(e).value == Times(x, y))
              && (e.op.QDiv? ==> Times(QValue(e).value, y) == x)
    ensures e.QZ? ==>
              var x, y := QValue(e.l).value, Value(e.z).value as real;
              && (e.op.QAdd? ==> QValue(e).value - y == x)
              && (e.op.QSub? ==> QValue(e).value + y == x)
              && (e.op.QMul? ==> QValue(e).value == Times(x, y))
              && (e.op.QDiv? ==> Times(QValue(e).value, y) == x)
    ensures e.ZQ? ==>
              var x, y := Value(e.z).value as real, QValue(e.r).value;
              && (e.op.QAdd? ==> QValue(e).value - y == x)
              && (e.op.QSub? ==> QValue(e).value + y == x)
              && (e.op.QMul? ==> QValue(e).value == Times(x, y))
              && (e.op.QDiv? ==> Times(QValue(e).value, y) == x)
  {
    hide QUnSem, QBinSem, QShiftSem, Pow, LeavesOk, QOverflows, QValue, Value, Times;
    OperandsDefined(e);
    match e
    case QLeaf(_) =>
    case QUn(op, a) => QUnLaws(op, QValue(a).value);
    case QScale(_, a, n, _) => QShiftLaws(QValue(a).value, n);
    case QBin(op, l, r) => QBinLaws(op, QValue(l).value, QValue(r).value);
    case QBinLit(op, l, lit) => QBinLaws(op, QValue(l).value, LitValue(lit) as real);
    case LitQBin(op, lit, r) => QBinLaws(op, LitValue(lit) as real, QValue(r).value);
    case QZ(op, l, z) => QBinLaws(op, QValue(l).value, Value(z).value as real);
    case ZQ(op, z, r) => QBinLaws(op, Value(z).value as real, QValue(r).value);
  }

  lemma OperandsDefined(e: QExpr)
    requires LeavesOk(e) && QDefined(e)
    ensures match e
            case QLeaf(_) => true
            case QUn(op, a) => LeavesOk(a) && QValue(a).Some? && QValue(e) == Some(QUnSem(op, QValue(a).value))
            case QScale(op, a, n, _) => LeavesOk(a) && QValue(a).Some? && QValue(e) == Some(QShiftSem(op, QValue(a).value, n))
            case QBin(op, l, r) =>
              && LeavesOk(l) && QValue(l).Some? && LeavesOk(r) && QValue(r).Some?
              && QValue(e) == QBinSem(op, QValue(l).value, QValue(r).value)
            case QBinLit(op, l, lit) =>
              LeavesOk(l) && QValue(l).Some? && QValue(e) == QBinSem(op, QValue(l).value, LitValue(lit) as real)
            case LitQBin(op, lit, r) =>
              LeavesOk(r) && QValue(r).Some? && QValue(e) == QBinSem(op, LitValue(lit) as real, QValue(r).value)
            case QZ(op, l, z) =>
              && LeavesOk(l) && QValue(l).Some? && Value(z).Some?
              && QValue(e) == QBinSem(op, QValue(l).value, Value(z).value as real)
            case ZQ(op, z, r) =>
              && LeavesOk(r) && QValue(r).Some? && Value(z).Some?
              && QValue(e) == QBinSem(op, Value(z).value as real, QValue(r).value)
  {
    hide QUnSem, QBinSem, QShiftSem;
  }

  /** A literal stands for any rational variable that holds it, on either side. */
  lemma QLiteralAsVariable(op: QBinOp, lit: Lit, e: QExpr, t: Rat)
    requires LeavesOk(e) && t.Holds((if lit.UI? then lit.u else lit.s) as real)
    ensures QValue(LitQBin(op, lit, e)) == QValue(QBin(op, QLeaf(t), e))
    ensures QValue(QBinLit(op, e, lit)) == QValue(QBin(op, e, QLeaf(t)))
  {
    assert LeavesOk(QLeaf(t));
  }

  /** An integer operand stands for any rational variable that holds its value, on either side. */
  lemma IntegerAsVariable(op: QBinOp, z: Expr, e: QExpr, t: Rat)
    requires LeavesOk(e) && Defined(z) && t.Holds(Value(z).value as real)
    ensures QValue(ZQ(op, z, e)) == QValue(QBin(op, QLeaf(t), e))
    ensures QValue(QZ(op, e, z)) == QValue(QBin(op, e, QLeaf(t)))
  {
    assert LeavesOk(QLeaf(t));
  }

  // ----- Temporaries -----

  function Numerator(q: Rat?): Cell? {
    if q == null then null else q.num
  }

  /** Temporaries made by evaluating e into q; null stands for a destination outside the tree. */
  function QTemps(e: QExpr, q: Rat?): nat
    decreases e, 0
  {
    match e
    case QLeaf(_) => 0
    case QUn(_, e) => QTemps(e, q)
    case QScale(_, e, _, _) => QTemps(e, q)
    case QBinLit(_, l, _) => QTemps(l, q)
    case LitQBin(_, _, r) => QTemps(r, q)
    case QZ(op, l, z) => MixedTemps(op, l, z, q)
    case ZQ(op, z, r) => MixedTemps(op, r, z, q)
    case QBin(_, l, r) =>
      if l.QLeaf? && r.QLeaf? then 0
      else if l.QLeaf? then if l.rat == q then 1 + QTemps(r, null) else QTemps(r, q)
      else if r.QLeaf? then if r.rat == q then 1 + QTemps(l, null) else QTemps(l, q)
      else 1 + QTemps(r, null) + QTemps(l, q)
  }

  /** The same for a rational operand a and an integer operand z, in either order. */
  function MixedTemps(op: QBinOp, a: QExpr, z: Expr, q: Rat?): nat
    decreases a, 1
  {
    if op.QAdd? || op.QSub? then
      if a.QLeaf? && z.Leaf? then 0
      else if a.QLeaf? then 1 + Temps(z, null)
      else if z.Leaf? then 1 + QTemps(a, null)
      else 1 + Temps(z, null) + QTemps(a, q)
    else if a.QLeaf? then
      if a.rat == q then 1 + Temps(z, null) else Temps(z, Numerator(q))
    else
      1 + Temps(z, null) + QTemps(a, q)
  }

  /** How many of them exist at the same time. */
  function QDepth(e: QExpr, q: Rat?): nat
    decreases e, 0
  {
    match e
    case QLeaf(_) => 0
    case QUn(_, e) => QDepth(e, q)
    case QScale(_, e, _, _) => QDepth(e, q)
    case QBinLit(_, l, _) => QDepth(l, q)
    case LitQBin(_, _, r) => QDepth(r, q)
    case QZ(op, l, z) => MixedDepth(op, l, z, q)
    case ZQ(op, z, r) => MixedDepth(op, r, z, q)
    case QBin(_, l, r) =>
      if l.QLeaf? && r.QLeaf? then 0
      else if l.QLeaf? then if l.rat == q then 1 + QDepth(r, null) else QDepth(r, q)
      else if r.QLeaf? then if r.rat == q then 1 + QDepth(l, null) else QDepth(l, q)
      else 1 + Max(QDepth(r, null), QDepth(l, q))
  }

  function MixedDepth(op: QBinOp, a: QExpr, z: Expr, q: Rat?): nat
    decreases a, 1
  {
    if op.QAdd? || op.QSub? then
      if a.QLeaf? && z.Leaf? then 0
      else if a.QLeaf? then 1 + Depth(z, null)
      else if z.Leaf? then 1 + QDepth(a, null)
      else 1 + Max(Depth(z, null), QDepth(a, q))
    else if a.QLeaf? then
      if a.rat == q then 1 + Depth(z, null) else Depth(z, Numerator(q))
    else
      1 + Max(Depth(z, null), QDepth(a, q))
  }

  lemma {:induction false} QFreshDestination(e: QExpr, t: Rat)
    requires t.num !in QCells(e) && t.den !in QCells(e)
    ensures QTemps(e, t) == QTemps(e, null) && QDepth(e, t) == QDepth(e, null)
  {
    match e
    case QLeaf(r) =>
    case QUn(_, e) => QFreshDestination(e, t);
    case QBin(_, l, r) => QFreshDestination(l, t); QFreshDestination(r, t);
    case QBinLit(_, l, _) => QFreshDestination(l, t);
    case LitQBin(_, _, r) => QFreshDestination(r, t);
    case QScale(_, e, _, _) => QFreshDestination(e, t);
    case QZ(_, l, z) => QFreshDestination(l, t); FreshDestination(z, t.num);
    case ZQ(_, z, r) => QFreshDestination(r, t); FreshDestination(z, t.num);
  }

  // ----- Evaluation -----

  /** __gmp_set_expr(mpq, mpz expression): into the numerator, then denominator 1. */
  method SetQFromZ(q: Rat, z: Expr, pool: Pool) returns (ok: bool)
    requires q.num != q.den
    modifies q.num, q.den, pool
    ensures ok <==> old(Defined(z))
    ensures ok ==> q.Holds(old(Value(z)).value as real)
    ensures ok && old(pool.live <= pool.peak) ==> Accounted(pool, Temps(z, q.num), Depth(z, q.num))
  {
    if z.Leaf? {
      LeafValue(z);
      WholeCanonical(z.c.v);
      q.num.v, q.den.v := z.c.v, 1;
      ok := true;
    } else {
      ok := SetExpr(q.num, z, pool);
      if !ok { return; }
      WholeCanonical(q.num.v);
      q.den.v := 1;
    }
  }

  /** A fresh mpz temporary holding z. */
  method TempZ(z: Expr, pool: Pool) returns (ok: bool, t: Cell)
    modifies pool
    ensures fresh(t)
    ensures ok <==> old(Defined(z))
    ensures ok ==> Some(t.v) == old(Value(z))
    ensures ok ==> Holding(pool, 1 + Temps(z, null), 1 + Depth(z, null))
  {
    assert allocated(Cells(z));
    t := pool.Acquire();
    assert t !in Cells(z);
    FreshDestination(z, t);
    ok := SetExpr(t, z, pool);
  }

  /** A fresh mpq temporary holding the integer z. */
  method TempQFromZ(z: Expr, pool: Pool) returns (ok: bool, t: Rat)
    modifies pool
    ensures fresh(t) && fresh(t.num) && fresh(t.den)
    ensures ok <==> old(Defined(z))
    ensures ok ==> t.Holds(old(Value(z)).value as real)
    ensures ok ==> Holding(pool, 1 + Temps(z, null), 1 + Depth(z, null))
  {
    assert allocated(Cells(z));
    t := new Rat(0);
    pool.Enter();
    assert t.num !in Cells(z) && t.den !in Cells(z);
    FreshDestination(z, t.num);
    ok := SetQFromZ(t, z, pool);
  }

  /** A fresh mpq temporary holding e. */
  method TempQ(e: QExpr, pool: Pool) returns (ok: bool, t: Rat)
    requires LeavesOk(e)
    modifies pool
    ensures fresh(t) && fresh(t.num) && fresh(t.den)
    ensures ok <==> old(QDefined(e))
    ensures ok ==> t.Holds(old(QValue(e)).value)
    ensures ok ==> Holding(pool, 1 + QTemps(e, null), 1 + QDepth(e, null))
    decreases e, 5
  {
    hide Canonical, Ratio, QTemps, QDepth, QOverflows, WholeOrApart;
    assert allocated(QCells(e));
    t := new Rat(0);
    pool.Enter();
    assert t.num !in QCells(e) && t.den !in QCells(e);
    FreshIsApart(e, t);
    QFreshDestination(e, t);
    ok := SetQ(t, e, pool);
  }

  /** __gmp_set_expr(mpq, mpq expression). */
  method SetQ(q: Rat, e: QExpr, pool: Pool) returns (ok: bool)
    requires q.num != q.den && LeavesOk(e) && WholeOrApart(e, q)
    modifies q.num, q.den, pool
    ensures ok <==> old(QDefined(e))
    ensures ok ==> q.Holds(old(QValue(e)).value)
    ensures ok && old(pool.live <= pool.peak) ==> Accounted(pool, QTemps(e, q), QDepth(e, q))
    decreases e, 4
  {
    if e.QLeaf? {
      QLeafValue(e);
      ApplyQUn(QPos, q, e.rat);
      ok := true;
    } else {
      ok := EvalQ(e, q, pool);
    }
  }

  method EvalQ(e: QExpr, q: Rat, pool: Pool) returns (ok: bool)
    requires !e.QLeaf?
    requires q.num != q.den && LeavesOk(e) && WholeOrApart(e, q)
    modifies q.num, q.den, pool
    ensures ok <==> old(QDefined(e))
    ensures ok ==> q.Holds(old(QValue(e)).value)
    ensures ok && old(pool.live <= pool.peak) ==> Accounted(pool, QTemps(e, q), QDepth(e, q))
    ensures ok && e.QUn? ==>
              var x := old(QValue(e.e)).value;
              && (e.uop.QPos? ==> q.Value() == x)
              && (e.uop.QMinus? ==> q.Value() + x == 0.0)
              && (e.uop.QMagnitude? ==> q.Value() >= 0.0 && (q.Value() == x || q.Value() == -x))
    ensures ok && e.QScale? ==>
              var x, m := old(QValue(e.e)).value, Pow(2, e.n) as real;
              if e.sop.Left? then q.Value() == Times(x, m) else Times(q.Value(), m) == x
    ensures ok && e.QBin? ==>
              var x, y := old(QValue(e.l)).value, old(QValue(e.r)).value;
              && (e.op.QAdd? ==> q.Value() - y == x)
              && (e.op.QSub? ==> q.Value() + y == x)
              && (e.op.QMul? ==> q.Value() == Times(x, y))
              && (e.op.QDiv? ==> Times(q.Value(), y) == x)
    ensures ok && e.QBinLit? ==>
              var x, y := old(QValue(e.l)).value, LitValue(e.lit) as real;
              && (e.op.QAdd? ==> q.Value() - y == x)
              && (e.op.QSub? ==> q.Value() + y == x)
              && (e.op.QMul? ==> q.Value() == Times(x, y))
              && (e.op.QDiv? ==> Times(q.Value(), y) == x)
    ensures ok && e.LitQBin? ==>
              var x, y := LitValue(e.lit) as real, old(QValue(e.r)).value;
              && (e.op.QAdd? ==> q.Value() - y == x)
              && (e.op.QSub? ==> q.Value() + y == x)
              && (e.op.QMul? ==> q.Value() == Times(x, y))
              && (e.op.QDiv? ==> Times(q.Value(), y) == x)
    ensures ok && e.QZ? ==>
              var x, y := old(QValue(e.l)).value, old(Value(e.z)).value as real;
              && (e.op.QAdd? ==> q.Value() - y == x)
              && (e.op.QSub? ==> q.Value() + y == x)
              && (e.op.QMul? ==> q.Value() == Times(x, y))
              && (e.op.QDiv? ==> Times(q.Value(), y) == x)
    ensures ok && e.ZQ? ==>
              var x, y := old(Value(e.z)).value as real, old(QValue(e.r)).value;
              && (e.op.QAdd? ==> q.Value() - y == x)
              && (e.op.QSub? ==> q.Value() + y == x)
              && (e.op.QMul? ==> q.Value() == Times(x, y))
              && (e.op.QDiv? ==> Times(q.Value(), y) == x)
    decreases e, 3
  {
    hide Canonical, Ratio, QValue, Value, QOverflows, LeavesOk, WholeOrApart, QTemps, QDepth, Accounted, Pow, Times;
    if QDefined(e) { QNodeMeans(e); }
    ok := EvalQNode(e, q, pool);
  }

  /** eval of one node, by the kind and shape of its operands. */
  method EvalQNode(e: QExpr, q: Rat, pool: Pool) returns (ok: bool)
    requires !e.QLeaf?
    requires q.num != q.den && LeavesOk(e) && WholeOrApart(e, q)
    modifies q.num, q.den, pool
    ensures ok <==> old(QDefined(e))
    ensures ok ==> q.Holds(old(QValue(e)).value)
    ensures ok && old(pool.live <= pool.peak) ==> Accounted(pool, QTemps(e, q), QDepth(e, q))
    decreases e, 2
  {
    hide Canonical, Ratio, QUnSem, QBinSem, QShiftSem, Temps, Depth, Value, Overflows;
    var s := q;
    match e {
      case QUn(op, a) =>
        if a.QLeaf? {
          QLeafValue(a);
          s := a.rat;
        } else {
          ok := EvalQNode(a, q, pool);
          if !ok { return; }
        }
        ApplyQUn(op, q, s);
        ok := true;
      case QScale(op, a, n, known) =>
        if a.QLeaf? {
          QLeafValue(a);
          s := a.rat;
        } else {
          ok := EvalQNode(a, q, pool);
          if !ok { return; }
        }
        QShift(op, q, s, n, known);
        ok := true;
      case QBinLit(op, l, lit) =>
        if l.QLeaf? {
          QLeafValue(l);
          s := l.rat;
        } else {
          ok := EvalQNode(l, q, pool);
          if !ok { return; }
        }
        ok := ApplyQL(op, q, s, lit);
      case LitQBin(op, lit, r) =>
        if r.QLeaf? {
          QLeafValue(r);
          s := r.rat;
        } else {
          ok := EvalQNode(r, q, pool);
          if !ok { return; }
        }
        ok := ApplyLQ(op, q, lit, s);
      case QBin(_, _, _) =>
        ok := EvalQBin(e, q, pool);
      case QZ(_, _, _) =>
        if e.op.QAdd? || e.op.QSub? { ok := EvalAddSubZ(e, q, pool); } else { ok := EvalMulDivZ(e, q, pool); }
      case ZQ(_, _, _) =>
        if e.op.QAdd? || e.op.QSub? { ok := EvalZAddSub(e, q, pool); } else { ok := EvalZMulDiv(e, q, pool); }
    }
  }

  /** Rational op rational. */
  method EvalQBin(e: QExpr, q: Rat, pool: Pool) returns (ok: bool)
    requires e.QBin?
    requires q.num != q.den && LeavesOk(e) && WholeOrApart(e, q)
    modifies q.num, q.den, pool
    ensures ok <==> old(QDefined(e))
    ensures ok ==> q.Holds(old(QValue(e)).value)
    ensures ok && old(pool.live <= pool.peak) ==> Accounted(pool, QTemps(e, q), QDepth(e, q))
    ensures ok && old(pool.live <= pool.peak) ==>
              pool.made == old(pool.made) +
                if e.l.QLeaf? && e.r.QLeaf? then 0
                else if e.l.QLeaf? then if q == e.l.rat then 1 + QTemps(e.r, null) else QTemps(e.r, q)
                else if e.r.QLeaf? then if q == e.r.rat then 1 + QTemps(e.l, null) else QTemps(e.l, q)
                else 1 + QTemps(e.r, null) + QTemps(e.l, q)
    decreases e, 1
  {
    hide Canonical, Ratio, QUnSem, QBinSem, QShiftSem, MixedTemps, MixedDepth, Temps, Depth, Value, Overflows;
    if e.l.QLeaf? && e.r.QLeaf? {
      QLeafValue(e.l);
      QLeafValue(e.r);
      ok := ApplyQQ(e.op, q, e.l.rat, e.r.rat);
    } else if e.l.QLeaf? {
      QLeafValue(e.l);
      if q != e.l.rat {
        ok := SetQ(q, e.r, pool);
        if !ok { return; }
        ok := ApplyQQ(e.op, q, e.l.rat, q);
      } else {
        var t;
        ok, t := TempQ(e.r, pool);
        if !ok { return; }
        ok := ApplyQQ(e.op, q, e.l.rat, t);
        pool.Release();
      }
    } else if e.r.QLeaf? {
      QLeafValue(e.r);
      if q != e.r.rat {
        ok := SetQ(q, e.l, pool);
        if !ok { return; }
        ok := ApplyQQ(e.op, q, q, e.r.rat);
      } else {
        var t;
        ok, t := TempQ(e.l, pool);
        if !ok { return; }
        ok := ApplyQQ(e.op, q, t, e.r.rat);
        pool.Release();
      }
    } else {
      ok := EvalQBoth(e, q, pool);
    }
  }

  /** Both operands compound: the right one goes to a temporary first. */
  method EvalQBoth(e: QExpr, q: Rat, pool: Pool) returns (ok: bool)
    requires e.QBin? && !e.l.QLeaf? && !e.r.QLeaf?
    requires q.num != q.den && LeavesOk(e) && WholeOrApart(e, q)
    modifies q.num, q.den, pool
    ensures ok <==> old(QDefined(e))
    ensures ok ==> q.Holds(old(QValue(e)).value)
    ensures ok && old(pool.live <= pool.peak) ==> Accounted(pool, QTemps(e, q), QDepth(e, q))
    ensures ok && old(pool.live <= pool.peak) ==> pool.made == old(pool.made) + 1 + QTemps(e.r, null) + QTemps(e.l, q)
    decreases e, 0
  {
    hide Canonical, Ratio, QUnSem, QBinSem, QShiftSem, MixedTemps, MixedDepth, Temps, Depth, Value, Overflows;
    assert allocated(QCells(e.l));
    var t;
    ok, t := TempQ(e.r, pool);
    if !ok { return; }
    ok := EvalQNode(e.l, q, pool);
    if !ok { return; }
    ok := ApplyQQ(e.op, q, q, t);
    pool.Release();
  }

  lemma AddSubSem(op: QBinOp, x: real, k: int)
    requires op.QAdd? || op.QSub?
    ensures QBinSem(op, x, k as real) == Some(x + PlusMinus(op.QSub?, k) as real)
    ensures QBinSem(op, k as real, x) == Some(k as real + (if op.QSub? then -x else x))
  {}

  /** Rational +- integer: the special cases that never convert the integer. */
  method EvalAddSubZ(e: QExpr, q: Rat, pool: Pool) returns (ok: bool)
    requires e.QZ? && (e.op.QAdd? || e.op.QSub?)
    requires q.num != q.den && LeavesOk(e) && WholeOrApart(e, q)
    modifies q.num, q.den, pool
    ensures ok <==> old(QDefined(e))
    ensures ok ==> q.Holds(old(QValue(e)).value)
    ensures ok && old(pool.live <= pool.peak) ==> Accounted(pool, QTemps(e, q), QDepth(e, q))
    ensures ok && old(pool.live <= pool.peak) ==>
              pool.made == old(pool.made) +
                if e.l.QLeaf? && e.z.Leaf? then 0
                else if e.z.Leaf? then 1 + QTemps(e.l, null)
                else 1 + Temps(e.z, null) + if e.l.QLeaf? then 0 else QTemps(e.l, q)
    decreases e, 1
  {
    hide Canonical, Ratio, QUnSem, QBinSem, QShiftSem, Temps, Depth, Value, Overflows;
    if QValue(e.l).Some? && Value(e.z).Some? { AddSubSem(e.op, QValue(e.l).value, Value(e.z).value); }
    var sub := e.op.QSub?;
    if e.l.QLeaf? && e.z.Leaf? {
      QLeafValue(e.l);
      LeafValue(e.z);
      AddSubZ(sub, q, e.l.rat, e.z.c);
      ok := true;
    } else if e.l.QLeaf? {
      QLeafValue(e.l);
      var t;
      ok, t := TempZ(e.z, pool);
      if !ok { return; }
      AddSubZ(sub, q, e.l.rat, t);
      pool.Release();
    } else if e.z.Leaf? {
      LeafValue(e.z);
      var t;
      ok, t := TempQ(e.l, pool);
      if !ok { return; }
      AddSubZ(sub, q, t, e.z.c);
      pool.Release();
    } else {
      ok := EvalAddSubBoth(e, q, pool);
    }
  }

  /** Both operands compound: the integer goes to a temporary first. */
  method EvalAddSubBoth(e: QExpr, q: Rat, pool: Pool) returns (ok: bool)
    requires e.QZ? && (e.op.QAdd? || e.op.QSub?) && !e.l.QLeaf? && !e.z.Leaf?
    requires q.num != q.den && LeavesOk(e) && WholeOrApart(e, q)
    modifies q.num, q.den, pool
    ensures ok <==> old(QDefined(e))
    ensures ok ==> q.Holds(old(QValue(e)).value)
    ensures ok && old(pool.live <= pool.peak) ==> Accounted(pool, QTemps(e, q), QDepth(e, q))
    ensures ok && old(pool.live <= pool.peak) ==> pool.made == old(pool.made) + 1 + Temps(e.z, null) + QTemps(e.l, q)
    decreases e, 0
  {
    hide Canonical, Ratio, QUnSem, QBinSem, QShiftSem, Temps, Depth, Value, Overflows;
    if QValue(e.l).Some? && Value(e.z).Some? { AddSubSem(e.op, QValue(e.l).value, Value(e.z).value); }
    var sub := e.op.QSub?;
    assert allocated(QCells(e.l));
    var t;
    ok, t := TempZ(e.z, pool);
    if !ok { return; }
    ok := EvalQNode(e.l, q, pool);
    if !ok { return; }
    AddSubZ(sub, q, q, t);
    pool.Release();
  }

  /** Integer +- rational. */
  method EvalZAddSub(e: QExpr, q: Rat, pool: Pool) returns (ok: bool)
    requires e.ZQ? && (e.op.QAdd? || e.op.QSub?)
    requires q.num != q.den && LeavesOk(e) && WholeOrApart(e, q)
    modifies q.num, q.den, pool
    ensures ok <==> old(QDefined(e))
    ensures ok ==> q.Holds(old(QValue(e)).value)
    ensures ok && old(pool.live <= pool.peak) ==> Accounted(pool, QTemps(e, q), QDepth(e, q))
    ensures ok && old(pool.live <= pool.peak) ==>
              pool.made == old(pool.made) +
                if e.r.QLeaf? && e.z.Leaf? then 0
                else if e.z.Leaf? then 1 + QTemps(e.r, null)
                else 1 + Temps(e.z, null) + if e.r.QLeaf? then 0 else QTemps(e.r, q)
    decreases e, 1
  {
    hide Canonical, Ratio, QUnSem, QBinSem, QShiftSem, Temps, Depth, Value, Overflows;
    if QValue(e.r).Some? && Value(e.z).Some? { AddSubSem(e.op, QValue(e.r).value, Value(e.z).value); }
    var sub := e.op.QSub?;
    if e.r.QLeaf? && e.z.Leaf? {
      QLeafValue(e.r);
      LeafValue(e.z);
      AddSubFromZ(sub, q, e.z.c, e.r.rat);
      ok := true;
    } else if e.z.Leaf? {
      LeafValue(e.z);
      var t;
      ok, t := TempQ(e.r, pool);
      if !ok { return; }
      AddSubFromZ(sub, q, e.z.c, t);
      pool.Release();
    } else if e.r.QLeaf? {
      QLeafValue(e.r);
      var t;
      ok, t := TempZ(e.z, pool);
      if !ok { return; }
      AddSubFromZ(sub, q, t, e.r.rat);
      pool.Release();
    } else {
      ok := EvalBothAddSub(e, q, pool);
    }
  }

  /** Both operands compound: the integer goes to a temporary first. */
  method EvalBothAddSub(e: QExpr, q: Rat, pool: Pool) returns (ok: bool)
    requires e.ZQ? && (e.op.QAdd? || e.op.QSub?) && !e.r.QLeaf? && !e.z.Leaf?
    requires q.num != q.den && LeavesOk(e) && WholeOrApart(e, q)
    modifies q.num, q.den, pool
    ensures ok <==> old(QDefined(e))
    ensures ok ==> q.Holds(old(QValue(e)).value)
    ensures ok && old(pool.live <= pool.peak) ==> Accounted(pool, QTemps(e, q), QDepth(e, q))
    ensures ok && old(pool.live <= pool.peak) ==> pool.made == old(pool.made) + 1 + Temps(e.z, null) + QTemps(e.r, q)
    decreases e, 0
  {
    hide Canonical, Ratio, QUnSem, QBinSem, QShiftSem, Temps, Depth, Value, Overflows;
    if QValue(e.r).Some? && Value(e.z).Some? { AddSubSem(e.op, QValue(e.r).value, Value(e.z).value); }
    var sub := e.op.QSub?;
    assert allocated(QCells(e.r));
    var t;
    ok, t := TempZ(e.z, pool);
    if !ok { return; }
    ok := EvalQNode(e.r, q, pool);
    if !ok { return; }
    AddSubFromZ(sub, q, t, q);
    pool.Release();
  }

  /** Rational * or / integer: the integer is converted to a rational, in q itself if q is free. */
  method EvalMulDivZ(e: QExpr, q: Rat, pool: Pool) returns (ok: bool)
    requires e.QZ?
    requires q.num != q.den && LeavesOk(e) && WholeOrApart(e, q)
    modifies q.num, q.den, pool
    ensures ok <==> old(QDefined(e))
    ensures ok ==> q.Holds(old(QValue(e)).value)
    ensures (e.op.QMul? || e.op.QDiv?) && ok && old(pool.live <= pool.peak) ==> Accounted(pool, QTemps(e, q), QDepth(e, q))
    ensures (e.op.QMul? || e.op.QDiv?) && ok && old(pool.live <= pool.peak) ==>
              pool.made == old(pool.made) +
                if e.l.QLeaf? && q != e.l.rat then Temps(e.z, q.num)
                else 1 + Temps(e.z, null) + if e.l.QLeaf? then 0 else QTemps(e.l, q)
    decreases e, 1
  {
    hide Canonical, Ratio, QUnSem, QBinSem, QShiftSem, Temps, Depth, Value, Overflows;
    if e.l.QLeaf? && q != e.l.rat {
      QLeafValue(e.l);
      ok := SetQFromZ(q, e.z, pool);
      if !ok { return; }
      ok := ApplyQQ(e.op, q, e.l.rat, q);
    } else if e.l.QLeaf? {
      QLeafValue(e.l);
      var t;
      ok, t := TempQFromZ(e.z, pool);
      if !ok { return; }
      ok := ApplyQQ(e.op, q, e.l.rat, t);
      pool.Release();
    } else {
      assert allocated(QCells(e.l));
      var t;
      ok, t := TempQFromZ(e.z, pool);
      if !ok { return; }
      ok := EvalQNode(e.l, q, pool);
      if !ok { return; }
      ok := ApplyQQ(e.op, q, q, t);
      pool.Release();
    }
  }

  /** Integer * or / rational. */
  method EvalZMulDiv(e: QExpr, q: Rat, pool: Pool) returns (ok: bool)
    requires e.ZQ?
    requires q.num != q.den && LeavesOk(e) && WholeOrApart(e, q)
    modifies q.num, q.den, pool
    ensures ok <==> old(QDefined(e))
    ensures ok ==> q.Holds(old(QValue(e)).value)
    ensures (e.op.QMul? || e.op.QDiv?) && ok && old(pool.live <= pool.peak) ==> Accounted(pool, QTemps(e, q), QDepth(e, q))
    ensures (e.op.QMul? || e.op.QDiv?) && ok && old(pool.live <= pool.peak) ==>
              pool.made == old(pool.made) +
                if e.r.QLeaf? && q != e.r.rat then Temps(e.z, q.num)
                else 1 + Temps(e.z, null) + if e.r.QLeaf? then 0 else QTemps(e.r, q)
    decreases e, 1
  {
    hide Canonical, Ratio, QUnSem, QBinSem, QShiftSem, Temps, Depth, Value, Overflows;
    if e.r.QLeaf? && q != e.r.rat {
      QLeafValue(e.r);
      ok := SetQFromZ(q, e.z, pool);
      if !ok { return; }
      ok := ApplyQQ(e.op, q, q, e.r.rat);
    } else if e.r.QLeaf? {
      QLeafValue(e.r);
      var t;
      ok, t := TempQFromZ(e.z, pool);
      if !ok { return; }
      ok := ApplyQQ(e.op, q, t, e.r.rat);
      pool.Release();
    } else {
      assert allocated(QCells(e.r));
      var t;
      ok, t := TempQFromZ(e.z, pool);
      if !ok { return; }
      ok := EvalQNode(e.r, q, pool);
      if !ok { return; }
      ok := ApplyQQ(e.op, q, t, q);
      pool.Release();
    }
  }

  // ----- Assignments between the two kinds -----

  /** A compound operand goes to a temporary of its own, a plain one is used as it is. */
  function OperandTemps(e: QExpr): nat {
    if e.QLeaf? then 0 else 1 + QTemps(e, null)
  }

  function OperandDepth(e: QExpr): nat {
    if e.QLeaf? then 0 else 1 + QDepth(e, null)
  }

  /** z = e for a rational e: the value truncated toward zero, even when z is part of a leaf of e. */
  method SetZFromQ(z: Cell, e: QExpr, pool: Pool) returns (ok: bool)
    requires LeavesOk(e)
    modifies z, pool
    ensures ok <==> old(QDefined(e))
    ensures ok ==> z.v == Truncate(old(QValue(e)).value)
    ensures ok ==>
              var x := old(QValue(e)).value;
              && (x >= 0.0 ==> 0.0 <= z.v as real <= x < z.v as real + 1.0)
              && (x <= 0.0 ==> z.v as real - 1.0 < x <= z.v as real <= 0.0)
    ensures ok && old(pool.live <= pool.peak) ==> Accounted(pool, OperandTemps(e), OperandDepth(e))
  {
    hide Truncate, Ratio, Quot;
    if QDefined(e) { TruncateMeans(QValue(e).value); }
    if e.QLeaf? {
      QLeafValue(e);
      var s := e.rat;
      QuotTruncates(s.num.v, s.den.v);
      z.v := Quot(s.num.v, s.den.v);
      ok := true;
    } else {
      var t;
      ok, t := TempQ(e, pool);
      if !ok { return; }
      QuotTruncates(t.num.v, t.den.v);
      z.v := Quot(t.num.v, t.den.v);
      pool.Release();
    }
  }

  /** z op= e for a rational e: e is truncated first, then the integer operation applied. */
  method OpAssignZ(z: Cell, op: BinOp, e: QExpr, pool: Pool) returns (ok: bool)
    requires LeavesOk(e)
    modifies z, pool
    ensures ok <==> old(QDefined(e)) && BinSem(op, old(z.v), Truncate(old(QValue(e)).value)).Some?
    ensures ok ==> Some(z.v) == BinSem(op, old(z.v), Truncate(old(QValue(e)).value))
    ensures ok && old(pool.live <= pool.peak) ==> Accounted(pool, 1 + OperandTemps(e), 1 + OperandDepth(e))
  {
    hide Truncate, QTemps, QDepth, QOverflows;
    assert allocated(QCells(e));
    var t := pool.Acquire();
    assert t !in QCells(e);
    ok := SetZFromQ(t, e, pool);
    if !ok { return; }
    ok := ApplyVV(op, z, z, t);
    pool.Release();
  }

  /** q op= e for a rational e in which q may occur. */
  method OpAssignQ(q: Rat, op: QBinOp, e: QExpr, pool: Pool) returns (ok: bool)
    requires q.Ok() && LeavesOk(e) && WholeOrApart(e, q)
    modifies q.num, q.den, pool
    ensures ok <==> old(QDefined(e)) && QBinSem(op, old(q.Value()), old(QValue(e)).value).Some?
    ensures ok ==> q.Holds(QBinSem(op, old(q.Value()), old(QValue(e)).value).value)
    ensures ok && old(pool.live <= pool.peak) ==> Accounted(pool, OperandTemps(e), OperandDepth(e))
  {
    hide Canonical, Ratio, QBinSem;
    var leaf := QLeaf(q);
    var tree := QBin(op, leaf, e);
    assert LeavesOk(leaf) && WholeOrApart(leaf, q);
    QLeafValue(leaf);
    assert QCells(tree) == QCells(leaf) + QCells(e);
    assert LeavesOk(tree) && QOverflows(tree) == QOverflows(e);
    assert QValue(tree) == if QValue(e).Some? then QBinSem(op, q.Value(), QValue(e).value) else None;
    ok := SetQ(q, tree, pool);
  }

  /** q op= z for an integer tree z, which may mention the numerator or denominator of q. */
  method OpAssignQFromZ(q: Rat, op: QBinOp, z: Expr, pool: Pool) returns (ok: bool)
    requires q.Ok()
    modifies q.num, q.den, pool
    ensures ok <==> old(Defined(z)) && QBinSem(op, old(q.Value()), old(Value(z)).value as real).Some?
    ensures ok ==> q.Holds(QBinSem(op, old(q.Value()), old(Value(z)).value as real).value)
    ensures ok && old(pool.live <= pool.peak) ==> Accounted(pool, MixedTemps(op, QLeaf(q), z, q), MixedDepth(op, QLeaf(q), z, q))
  {
    hide Canonical, Ratio, QBinSem;
    var leaf := QLeaf(q);
    var tree := QZ(op, leaf, z);
    assert LeavesOk(leaf) && WholeOrApart(leaf, q);
    QLeafValue(leaf);
    assert QCells(tree) == QCells(leaf) + Cells(z);
    assert LeavesOk(tree) && QOverflows(tree) == Overflows(z);
    assert QValue(tree) == if Value(z).Some? then QBinSem(op, q.Value(), Value(z).value as real) else None;
    ok := SetQ(q, tree, pool);
  }
}
