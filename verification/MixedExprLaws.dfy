/**
 How many temporaries a rational tree with integer subtrees needs.
 */
module MixedExprLaws {
  import opened Basics
  import opened MpqOps
  import opened MpzExpr
  import opened MpzExprLaws
  import opened MixedExpr

  /** Temporaries that the shape of the tree demands, whatever the destination. */
  function QShape(e: QExpr): nat
    decreases e, 0
  {
    match e
    case QLeaf(_) => 0
    case QUn(_, e) => QShape(e)
    case QScale(_, e, _, _) => QShape(e)
    case QBinLit(_, l, _) => QShape(l)
    case LitQBin(_, _, r) => QShape(r)
    case QBin(_, l, r) => QShape(l) + QShape(r) + (if l.QLeaf? || r.QLeaf? then 0 else 1)
    case QZ(op, l, z) => QShape(l) + TwoCompound(z) + MixedNode(op, l, z)
    case ZQ(op, z, r) => QShape(r) + TwoCompound(z) + MixedNode(op, r, z)
  }

  /** A sum or difference needs one unless both operands are plain, a product or quotient only for a compound rational. */
  function MixedNode(op: QBinOp, a: QExpr, z: Expr): nat {
    if op.QAdd? || op.QSub? then if a.QLeaf? && z.Leaf? then 0 else 1
    else if a.QLeaf? then 0 else 1
  }

  /**
   Walking down the operands that are evaluated in place, q is met as the plain
   operand of a node that must keep it, or its numerator is met in an integer
   operand that is converted in q itself.
   */
  predicate QMet(e: QExpr, q: Rat)
    decreases e, 0
  {
    match e
    case QLeaf(_) => false
    case QUn(_, e) => QMet(e, q)
    case QScale(_, e, _, _) => QMet(e, q)
    case QBinLit(_, l, _) => QMet(l, q)
    case LitQBin(_, _, r) => QMet(r, q)
    case QZ(op, l, z) => MixedMet(op, l, z, q)
    case ZQ(op, z, r) => MixedMet(op, r, z, q)
    case QBin(_, l, r) =>
      if l.QLeaf? && r.QLeaf? then false
      else if l.QLeaf? then l.rat == q || QMet(r, q)
      else if r.QLeaf? then r.rat == q || QMet(l, q)
      else QMet(l, q)
  }

  predicate MixedMet(op: QBinOp, a: QExpr, z: Expr, q: Rat)
    decreases a, 1
  {
    if op.QAdd? || op.QSub? then !z.Leaf? && QMet(a, q)
    else if a.QLeaf? then a.rat == q || MetOnSpine(z, q.num)
    else QMet(a, q)
  }

  /** The shape decides the count, and the destination adds at most one, exactly if it is met. */
  lemma {:induction false} QTempsExact(e: QExpr, q: Rat?)
    ensures QTemps(e, q) == QShape(e) + (if q != null && QMet(e, q) then 1 else 0)
    decreases e, 0
  {
    hide MixedTemps, MixedNode, MixedMet, TwoCompound;
    match e
    case QLeaf(_) =>
    case QUn(_, e) => QTempsExact(e, q);
    case QScale(_, e, _, _) => QTempsExact(e, q);
    case QBinLit(_, l, _) => QTempsExact(l, q);
    case LitQBin(_, _, r) => QTempsExact(r, q);
    case QZ(op, l, z) => MixedTempsExact(op, l, z, q);
    case ZQ(op, z, r) => MixedTempsExact(op, r, z, q);
    case QBin(_, l, r) =>
      QTempsExact(l, q);
      QTempsExact(r, q);
      QTempsExact(l, null);
      QTempsExact(r, null);
  }

  lemma {:induction false} MixedTempsExact(op: QBinOp, a: QExpr, z: Expr, q: Rat?)
    ensures MixedTemps(op, a, z, q) ==
            QShape(a) + TwoCompound(z) + MixedNode(op, a, z) + (if q != null && MixedMet(op, a, z, q) then 1 else 0)
    decreases a, 1
  {
    hide QTemps, QShape, QMet, Temps, TwoCompound, MetOnSpine;
    PlainShape(a, z, q);
    QTempsExact(a, q);
    QTempsExact(a, null);
    TempsExact(z, null);
    TempsExact(z, Numerator(q));
  }

  lemma PlainShape(a: QExpr, z: Expr, q: Rat?)
    ensures a.QLeaf? ==> QShape(a) == 0 && (q != null ==> !QMet(a, q))
    ensures z.Leaf? ==> TwoCompound(z) == 0
  {}

  /** No temporary at all exactly when the shape demands none and the destination is not met. */
  lemma QNoTempsExactlyWhen(e: QExpr, q: Rat)
    ensures QTemps(e, q) == 0 <==> QShape(e) == 0 && !QMet(e, q)
  {
    QTempsExact(e, q);
  }

  function QHeight(e: QExpr): nat {
    match e
    case QLeaf(_) => 0
    case QUn(_, e) => 1 + QHeight(e)
    case QScale(_, e, _, _) => 1 + QHeight(e)
    case QBinLit(_, l, _) => 1 + QHeight(l)
    case LitQBin(_, _, r) => 1 + QHeight(r)
    case QBin(_, l, r) => 1 + Max(QHeight(l), QHeight(r))
    case QZ(_, l, z) => 1 + Max(QHeight(l), Height(z))
    case ZQ(_, z, r) => 1 + Max(Height(z), QHeight(r))
  }

  /** At no time are more temporaries alive than the tree is high. */
  lemma {:induction false} QDepthWithinHeight(e: QExpr, q: Rat?)
    ensures QDepth(e, q) <= QHeight(e)
    decreases e, 0
  {
    hide MixedDepth, Height;
    match e
    case QLeaf(_) =>
    case QUn(_, e) => QDepthWithinHeight(e, q);
    case QScale(_, e, _, _) => QDepthWithinHeight(e, q);
    case QBinLit(_, l, _) => QDepthWithinHeight(l, q);
    case LitQBin(_, _, r) => QDepthWithinHeight(r, q);
    case QZ(op, l, z) => MixedDepthWithinHeight(op, l, z, q);
    case ZQ(op, z, r) => MixedDepthWithinHeight(op, r, z, q);
    case QBin(_, l, r) =>
      QDepthWithinHeight(l, q);
      QDepthWithinHeight(r, q);
      QDepthWithinHeight(l, null);
      QDepthWithinHeight(r, null);
  }

  lemma {:induction false} MixedDepthWithinHeight(op: QBinOp, a: QExpr, z: Expr, q: Rat?)
    ensures MixedDepth(op, a, z, q) <= 1 + Max(QHeight(a), Height(z))
    decreases a, 1
  {
    hide QDepth, QHeight, Depth, Height;
    QDepthWithinHeight(a, q);
    QDepthWithinHeight(a, null);
    DepthWithinHeight(z, q);
  }

  lemma DepthWithinHeight(z: Expr, q: Rat?)
    ensures Depth(z, Numerator(q)) <= Height(z) && Depth(z, null) <= Height(z)
  {
    if !z.Leaf? {
      DepthBelowHeight(z, Numerator(q));
      DepthBelowHeight(z, null);
    }
  }
}
