/**
 The mpq function objects of gmpxx.h.  A Rat is one mpq variable: two mpz
 cells, numerator and denominator, either of which may also be named as an
 mpz operand (get_num, get_den).
 */
module MpqOps {
  import opened Basics
  import opened LimbValue
  import opened Words
  import opened Rationals
  import opened MpzOps

  class Rat {
    const num: Cell
    const den: Cell

    constructor (n: int)
      ensures fresh(num) && fresh(den) && num != den
      ensures num.v == n && den.v == 1
    {
      num := new Cell(n);
      den := new Cell(1);
    }

    ghost predicate Ok()
      reads num, den
    {
      num != den && Canonical(num.v, den.v)
    }

    /** The rational number held. */
    ghost function Value(): real
      requires Ok()
      reads num, den
    {
      Ratio(num.v, den.v)
    }

    ghost predicate Holds(x: real)
      reads num, den
    {
      Ok() && Value() == x
    }
  }

  /** Two mpq variables are the same object or share no cell. */
  predicate SameOrApart(q: Rat, r: Rat) {
    q == r || {q.num, q.den} !! {r.num, r.den}
  }

  datatype QUnOp = QPos | QMinus | QMagnitude

  datatype QBinOp = QAdd | QSub | QMul | QDiv

  ghost function QUnSem(op: QUnOp, x: real): real {
    match op
    case QPos => x
    case QMinus => -x
    case QMagnitude => if x < 0.0 then -x else x
  }

  ghost function QBinSem(op: QBinOp, x: real, y: real): Option<real> {
    match op
    case QAdd => Some(x + y)
    case QSub => Some(x - y)
    case QMul => Some(x * y)
    case QDiv => if y == 0.0 then None else Some(x / y)
  }

  ghost function QShiftSem(op: ShiftOp, x: real, n: nat): real {
    PowPositive(2, n);
    match op
    case Left => x * Pow(2, n) as real
    case Right => x / Pow(2, n) as real
  }

  /** The product of two real numbers, by name so that proofs can keep it closed. */
  ghost function Times(x: real, y: real): real {
    x * y
  }

  /** The operators by their laws, over the real numbers. */
  lemma QBinLaws(op: QBinOp, x: real, y: real)
    ensures QBinSem(op, x, y).None? <==> op.QDiv? && y == 0.0
    ensures op.QAdd? ==> QBinSem(op, x, y).value - y == x
    ensures op.QSub? ==> QBinSem(op, x, y).value + y == x
    ensures op.QMul? ==> QBinSem(op, x, y).value == Times(x, y)
    ensures op.QDiv? && y != 0.0 ==> Times(QBinSem(op, x, y).value, y) == x
  {
    if y != 0.0 { DivideThenMultiply(x, y); }
  }

  lemma DivideThenMultiply(x: real, y: real)
    requires y != 0.0
    ensures x / y * y == x
  {}

  lemma QUnLaws(op: QUnOp, x: real)
    ensures op.QPos? ==> QUnSem(op, x) == x
    ensures op.QMinus? ==> QUnSem(op, x) + x == 0.0
    ensures op.QMagnitude? ==> QUnSem(op, x) >= 0.0 && (QUnSem(op, x) == x || QUnSem(op, x) == -x)
  {}

  /** Rational shifts lose nothing, unlike the integer right shift. */
  lemma QShiftLaws(x: real, n: nat)
    ensures QShiftSem(Left, x, n) == Times(x, Pow(2, n) as real)
    ensures Times(QShiftSem(Right, x, n), Pow(2, n) as real) == x
  {
    PowPositive(2, n);
    DivideThenMultiply(x, Pow(2, n) as real);
  }

  /** Two mpq variables with the same value have the same numerator and the same denominator. */
  lemma SameValueSameParts(q: Rat, r: Rat)
    requires q.Ok() && r.Ok() && q.Value() == r.Value()
    ensures q.num.v == r.num.v && q.den.v == r.den.v
  {
    LowestTermsUnique(q.num.v, q.den.v, r.num.v, r.den.v);
  }

  // ----- Library primitives -----

  /** Stores n/d in canonical form. */
  method Store(q: Rat, n: int, d: int)
    requires q.num != q.den && d != 0
    modifies q.num, q.den
    ensures q.Holds(Ratio(n, d))
  {
    LowestRight(n, d);
    var (n', d') := Lowest(n, d);
    q.num.v, q.den.v := n', d';
  }

  /** mpq_set, mpq_neg, mpq_abs. */
  method ApplyQUn(op: QUnOp, q: Rat, r: Rat)
    requires q.num != q.den && r.Ok()
    modifies q.num, q.den
    ensures q.Holds(QUnSem(op, old(r.Value())))
    ensures op.QPos? ==> q.Value() == old(r.Value())
    ensures op.QMinus? ==> q.Value() + old(r.Value()) == 0.0
    ensures op.QMagnitude? ==> q.Value() >= 0.0 && (q.Value() == old(r.Value()) || q.Value() == -old(r.Value()))
  {
    QUnLaws(op, r.Value());
    NegateCanonical(r.num.v, r.den.v);
    RatioSign(r.num.v, r.den.v);
    var n := r.num.v;
    q.num.v, q.den.v := match op {
      case QPos => n
      case QMinus => -n
      case QMagnitude => if n < 0 then -n else n
    }, r.den.v;
  }

  lemma RatioSign(n: int, d: int)
    requires d > 0
    ensures Ratio(n, d) < 0.0 <==> n < 0
    ensures Ratio(n, d) == 0.0 <==> n == 0
  {}

  /** mpq_add, mpq_sub, mpq_mul, mpq_div. */
  method ApplyQQ(op: QBinOp, q: Rat, r: Rat, s: Rat) returns (ok: bool)
    requires q.num != q.den && r.Ok() && s.Ok()
    modifies q.num, q.den
    ensures ok <==> QBinSem(op, old(r.Value()), old(s.Value())).Some?
    ensures ok ==> q.Holds(QBinSem(op, old(r.Value()), old(s.Value())).value)
  {
    var a, b, c, d := r.num.v, r.den.v, s.num.v, s.den.v;
    assert b > 0 && d > 0;
    hide Canonical, Ratio, QBinSem, Fraction;
    FractionRight(op, a, b, c, d);
    if op.QDiv? && c == 0 { return false; }
    var f := Fraction(op, a, b, c, d);
    Store(q, f.0, f.1);
    ok := true;
  }

  /** a/b op c/d as one fraction. */
  function Fraction(op: QBinOp, a: int, b: int, c: int, d: int): (int, int) {
    match op
    case QAdd => (a * d + c * b, b * d)
    case QSub => (a * d - c * b, b * d)
    case QMul => (a * c, b * d)
    case QDiv => (a * d, b * c)
  }

  lemma FractionRight(op: QBinOp, a: int, b: int, c: int, d: int)
    requires b > 0 && d > 0
    ensures QBinSem(op, Ratio(a, b), Ratio(c, d)).Some? <==> !(op.QDiv? && c == 0)
    ensures var f := Fraction(op, a, b, c, d);
            !(op.QDiv? && c == 0) ==> f.1 != 0 && QBinSem(op, Ratio(a, b), Ratio(c, d)) == Some(Ratio(f.0, f.1))
  {
    hide Ratio;
    RatioSign(c, d);
    RatioArithmetic(a, b, c, d);
    match op
    case QAdd =>
    case QSub =>
    case QMul => ProductSem(Ratio(a, b), Ratio(c, d), Ratio(a * c, b * d));
    case QDiv => assert c != 0 ==> QBinSem(op, Ratio(a, b), Ratio(c, d)) == Some(Ratio(a, b) / Ratio(c, d));
  }

  lemma ProductSem(x: real, y: real, z: real)
    requires z == x * y
    ensures QBinSem(QMul, x, y) == Some(z)
  {}

  lemma RatioArithmetic(a: int, b: int, c: int, d: int)
    requires b > 0 && d > 0
    ensures b * d > 0 && (c != 0 ==> b * c != 0 && Ratio(c, d) != 0.0)
    ensures Ratio(a * d + c * b, b * d) == Ratio(a, b) + Ratio(c, d)
    ensures Ratio(a * d - c * b, b * d) == Ratio(a, b) - Ratio(c, d)
    ensures Ratio(a * c, b * d) == Ratio(a, b) * Ratio(c, d)
    ensures c != 0 ==> Ratio(a * d, b * c) == Ratio(a, b) / Ratio(c, d)
  {
    MulMono(b, 1, d);
    RatioSum(a, b, c, d);
    RatioProduct(a, b, c, d);
    if c != 0 { RatioQuotient(a, b, c, d); }
  }

  lemma RatioSum(a: int, b: int, c: int, d: int)
    requires b > 0 && d > 0 && b * d > 0
    ensures Ratio(a * d + c * b, b * d) == Ratio(a, b) + Ratio(c, d)
    ensures Ratio(a * d - c * b, b * d) == Ratio(a, b) - Ratio(c, d)
  {
    var x, y, z, w := a as real, b as real, c as real, d as real;
    assert (b * d) as real == y * w && (a * d) as real == x * w && (c * b) as real == z * y;
    FractionSum(x, y, z, w);
  }

  lemma FractionSum(x: real, y: real, z: real, w: real)
    requires y != 0.0 && w != 0.0
    ensures y * w != 0.0
    ensures (x * w + z * y) / (y * w) == x / y + z / w
    ensures (x * w - z * y) / (y * w) == x / y - z / w
  {}

  lemma RatioProduct(a: int, b: int, c: int, d: int)
    requires b > 0 && d > 0 && b * d > 0
    ensures Ratio(a * c, b * d) == Ratio(a, b) * Ratio(c, d)
  {
    var x, y, z, w := a as real, b as real, c as real, d as real;
    assert (b * d) as real == y * w && (a * c) as real == x * z;
    assert (x * z) / (y * w) == (x / y) * (z / w);
  }

  lemma RatioQuotient(a: int, b: int, c: int, d: int)
    requires b > 0 && d > 0 && c != 0
    ensures b * c != 0 && Ratio(c, d) != 0.0
    ensures Ratio(a * d, b * c) == Ratio(a, b) / Ratio(c, d)
  {
    var x, y, z, w := a as real, b as real, c as real, d as real;
    assert (b * c) as real == y * z && (a * d) as real == x * w;
    FractionQuotient(x, y, z, w);
  }

  lemma FractionQuotient(x: real, y: real, z: real, w: real)
    requires y != 0.0 && w != 0.0 && z != 0.0
    ensures y * z != 0.0 && z / w != 0.0
    ensures (x * w) / (y * z) == (x / y) / (z / w)
  {}

  /** __gmp_binary_lshift and __gmp_binary_rshift: mpq_mul_2exp, mpq_div_2exp. */
  method QShift(op: ShiftOp, q: Rat, r: Rat, l: nat, known: bool)
    requires q.num != q.den && r.Ok()
    modifies q.num, q.den
    ensures q.Holds(QShiftSem(op, old(r.Value()), l))
    ensures op.Left? ==> q.Value() == Times(old(r.Value()), Pow(2, l) as real)
    ensures op.Right? ==> Times(q.Value(), Pow(2, l) as real) == old(r.Value())
  {
    QShiftLaws(r.Value(), l);
    ShiftFraction(op, r.num.v, r.den.v, l);
    hide Canonical, Ratio, QShiftSem, Times, Pow;
    var a, b, m := r.num.v, r.den.v, Pow(2, l);
    if known && l == 0 {
      if q != r { q.num.v, q.den.v := a, b; }
    } else {
      if op.Left? { Store(q, a * m, b); } else { Store(q, a, b * m); }
    }
  }

  lemma ShiftFraction(op: ShiftOp, a: int, b: int, l: nat)
    requires b > 0
    ensures b * Pow(2, l) > 0
    ensures op.Left? ==> QShiftSem(op, Ratio(a, b), l) == Ratio(a * Pow(2, l), b)
    ensures op.Right? ==> QShiftSem(op, Ratio(a, b), l) == Ratio(a, b * Pow(2, l))
    ensures l == 0 ==> QShiftSem(op, Ratio(a, b), l) == Ratio(a, b)
  {
    PowPositive(2, l);
    var m := Pow(2, l);
    RatioArithmetic(a, b, m, 1);
    WholeCanonical(m);
    assert b * 1 == b && a * 1 == a;
  }

  // ----- Rational plus or minus an integer, without canonicalisation -----

  function PlusMinus(sub: bool, k: int): int {
    if sub then -k else k
  }

  /** mpq + mpz and mpq - mpz.  z may be the numerator or denominator of q or of r. */
  method AddSubZ(sub: bool, q: Rat, r: Rat, z: Cell)
    requires q.num != q.den && r.Ok() && SameOrApart(q, r)
    modifies q.num, q.den
    ensures q.Holds(old(r.Value()) + PlusMinus(sub, old(z.v)) as real)
  {
    hide Canonical, Ratio;
    ghost var n, d, k := r.num.v, r.den.v, z.v;
    AddInteger(n, d, PlusMinus(sub, k));
    SignedProduct(sub, d, k);
    if q == r {
      q.num.v := if sub then q.num.v - q.den.v * z.v else q.num.v + q.den.v * z.v;
    } else {
      q.num.v := r.den.v * z.v;
      q.num.v := if sub then r.num.v - q.num.v else q.num.v + r.num.v;
      q.den.v := r.den.v;
    }
  }

  lemma SignedProduct(sub: bool, d: int, k: int)
    ensures PlusMinus(sub, k) * d == PlusMinus(sub, d * k)
  {}

  method AddSubUi(sub: bool, q: Rat, r: Rat, l: Ulong, known: bool)
    requires q.num != q.den && r.Ok() && SameOrApart(q, r)
    modifies q.num, q.den
    ensures q.Holds(old(r.Value()) + PlusMinus(sub, l) as real)
  {
    if known && l == 0 {
      if q != r { q.num.v, q.den.v := r.num.v, r.den.v; }
    } else {
      hide Canonical, Ratio;
      AddInteger(r.num.v, r.den.v, PlusMinus(sub, l));
      SignedProduct(sub, r.den.v, l);
      if q == r {
        q.num.v := if sub then q.num.v - q.den.v * l else q.num.v + q.den.v * l;
      } else {
        q.num.v := r.den.v * l;
        q.num.v := if sub then r.num.v - q.num.v else q.num.v + r.num.v;
        q.den.v := r.den.v;
      }
    }
  }

  /** A signed literal is routed to the unsigned form of the opposite operation when negative. */
  method AddSubSi(sub: bool, q: Rat, r: Rat, l: Slong, known: bool)
    requires q.num != q.den && r.Ok() && SameOrApart(q, r)
    modifies q.num, q.den
    ensures q.Holds(old(r.Value()) + PlusMinus(sub, l) as real)
  {
    hide Canonical, Ratio;
    if l >= 0 {
      AddSubUi(sub, q, r, ToUlong(l), known);
    } else {
      AddSubUi(!sub, q, r, AbsUi(l), known);
    }
  }

  /** mpq_neg(q, q). */
  method NegateInPlace(q: Rat)
    requires q.Ok()
    modifies q.num
    ensures q.Holds(-old(q.Value()))
  {
    NegateCanonical(q.num.v, q.den.v);
    q.num.v := -q.num.v;
  }

  /** ++q and --q. */
  method Step(q: Rat, down: bool)
    requires q.Ok()
    modifies q.num
    ensures q.Holds(old(q.Value()) + (if down then -1.0 else 1.0))
  {
    AddInteger(q.num.v, q.den.v, if down then -1 else 1);
    q.num.v := if down then q.num.v - q.den.v else q.num.v + q.den.v;
  }

  // ----- Multiplication and division by a machine integer -----

  /** __GMPXX_TMPQ_UI and __GMPXX_TMPQ_SI: a literal as a temporary rational. */
  method LiteralTemp(l: int) returns (t: Rat)
    ensures fresh(t) && fresh(t.num) && fresh(t.den) && t.Holds(l as real)
  {
    WholeCanonical(l);
    t := new Rat(l);
  }

  lemma RealZero(x: real)
    ensures x * 0.0 == 0.0
  {}

  lemma RealNegate(x: real, y: real)
    ensures -(x * y) == x * -y
  {}

  lemma RealDivNegate(x: real, y: real)
    requires y > 0.0
    ensures -(x / y) == x / -y
  {}

  method QMulUi(q: Rat, r: Rat, l: Ulong, known: bool)
    requires q.num != q.den && r.Ok()
    modifies q.num, q.den
    ensures q.Holds(old(r.Value()) * l as real)
  {
    PowerTestExact(l);
    hide Canonical, Ratio, PowerTest, TrailingZeros, Pow;
    if known && PowerTest(l) {
      if l == 0 {
        WholeCanonical(0);
        RealZero(r.Value());
        q.num.v, q.den.v := 0, 1;
      } else {
        QShift(Left, q, r, TrailingZeros(l), known);
      }
    } else {
      var t := LiteralTemp(l);
      var _ := ApplyQQ(QMul, q, r, t);
    }
  }

  method QMulSi(q: Rat, r: Rat, l: Slong, known: bool, signKnown: bool)
    requires q.num != q.den && r.Ok()
    modifies q.num, q.den
    ensures q.Holds(old(r.Value()) * l as real)
  {
    hide Canonical, Ratio;
    if signKnown && l >= 0 {
      assert ToUlong(l) == l;
      QMulUi(q, r, ToUlong(l), known);
    } else if signKnown && l <= 0 {
      RealNegate(r.Value(), Abs(l) as real);
      QMulUi(q, r, AbsUi(l), known);
      NegateInPlace(q);
    } else {
      var t := LiteralTemp(l);
      var _ := ApplyQQ(QMul, q, r, t);
    }
  }

  method QDivUi(q: Rat, r: Rat, l: Ulong, known: bool) returns (ok: bool)
    requires q.num != q.den && r.Ok()
    modifies q.num, q.den
    ensures ok <==> l != 0
    ensures ok ==> q.Holds(old(r.Value()) / l as real)
  {
    PowerTestExact(l);
    hide Canonical, Ratio;
    if known && PowerTest(l) && l != 0 {
      QShift(Right, q, r, TrailingZeros(l), known);
      ok := true;
    } else {
      var t := LiteralTemp(l);
      ok := ApplyQQ(QDiv, q, r, t);
    }
  }

  method QDivSi(q: Rat, r: Rat, l: Slong, known: bool, signKnown: bool) returns (ok: bool)
    requires q.num != q.den && r.Ok()
    modifies q.num, q.den
    ensures ok <==> l != 0
    ensures ok ==> q.Holds(old(r.Value()) / l as real)
  {
    hide Canonical, Ratio;
    if signKnown && l >= 0 {
      assert ToUlong(l) == l;
      ok := QDivUi(q, r, ToUlong(l), known);
    } else if signKnown && l <= 0 {
      if l != 0 { RealDivNegate(r.Value(), Abs(l) as real); }
      ok := QDivUi(q, r, AbsUi(l), known);
      if ok { NegateInPlace(q); }
    } else {
      var t := LiteralTemp(l);
      ok := ApplyQQ(QDiv, q, r, t);
    }
  }

  // ----- Dispatch -----

  /** Rational op literal. */
  method ApplyQL(op: QBinOp, q: Rat, r: Rat, l: Lit) returns (ok: bool)
    requires q.num != q.den && r.Ok() && SameOrApart(q, r)
    modifies q.num, q.den
    ensures ok <==> QBinSem(op, old(r.Value()), LitValue(l) as real).Some?
    ensures ok ==> q.Holds(QBinSem(op, old(r.Value()), LitValue(l) as real).value)
  {
    hide Canonical, Ratio, QBinSem;
    AddSubForms(op, r.Value(), LitValue(l));
    ok := true;
    match op {
      case QAdd => AddSubLit(false, q, r, l);
      case QSub => AddSubLit(true, q, r, l);
      case QMul => MulLit(q, r, l);
      case QDiv => ok := DivLit(q, r, l);
    }
  }

  lemma AddSubForms(op: QBinOp, x: real, k: int)
    ensures op.QAdd? ==> QBinSem(op, x, k as real) == Some(x + PlusMinus(false, k) as real)
    ensures op.QSub? ==> QBinSem(op, x, k as real) == Some(x + PlusMinus(true, k) as real)
    ensures op.QMul? ==> QBinSem(op, x, k as real).Some?
    ensures op.QDiv? ==> (QBinSem(op, x, k as real).Some? <==> k != 0)
  {}

  lemma QuotientSem(x: real, y: real, z: real)
    requires y != 0.0 && z == x / y
    ensures QBinSem(QDiv, x, y) == Some(z)
  {}

  method MulLit(q: Rat, r: Rat, l: Lit)
    requires q.num != q.den && r.Ok()
    modifies q.num, q.den
    ensures QBinSem(QMul, old(r.Value()), LitValue(l) as real).Some?
    ensures q.Holds(QBinSem(QMul, old(r.Value()), LitValue(l) as real).value)
  {
    ghost var x := r.Value();
    hide Canonical, Ratio, QBinSem;
    match l {
      case UI(u, known) => QMulUi(q, r, u, known);
      case SI(s, known, signKnown) => QMulSi(q, r, s, known, signKnown);
    }
    ProductSem(x, LitValue(l) as real, q.Value());
  }

  method DivLit(q: Rat, r: Rat, l: Lit) returns (ok: bool)
    requires q.num != q.den && r.Ok()
    modifies q.num, q.den
    ensures ok <==> LitValue(l) != 0
    ensures ok ==>
              && QBinSem(QDiv, old(r.Value()), LitValue(l) as real).Some?
              && q.Holds(QBinSem(QDiv, old(r.Value()), LitValue(l) as real).value)
  {
    ghost var x := r.Value();
    hide Canonical, Ratio, QBinSem;
    match l {
      case UI(u, known) => ok := QDivUi(q, r, u, known);
      case SI(s, known, signKnown) => ok := QDivSi(q, r, s, known, signKnown);
    }
    if ok { QuotientSem(x, LitValue(l) as real, q.Value()); }
  }

  method AddSubLit(sub: bool, q: Rat, r: Rat, l: Lit)
    requires q.num != q.den && r.Ok() && SameOrApart(q, r)
    modifies q.num, q.den
    ensures q.Holds(old(r.Value()) + PlusMinus(sub, LitValue(l)) as real)
  {
    hide Canonical, Ratio;
    match l {
      case UI(u, known) => AddSubUi(sub, q, r, u, known);
      case SI(s, known, _) => AddSubSi(sub, q, r, s, known);
    }
  }

  /** Literal op rational: l - r is -(r - l), l / r goes through a temporary. */
  method ApplyLQ(op: QBinOp, q: Rat, l: Lit, r: Rat) returns (ok: bool)
    requires q.num != q.den && r.Ok() && SameOrApart(q, r)
    modifies q.num, q.den
    ensures ok <==> QBinSem(op, LitValue(l) as real, old(r.Value())).Some?
    ensures ok ==> q.Holds(QBinSem(op, LitValue(l) as real, old(r.Value())).value)
  {
    hide Canonical, Ratio;
    match op {
      case QAdd => ok := ApplyQL(op, q, r, l);
      case QSub =>
        ok := ApplyQL(op, q, r, l);
        NegateInPlace(q);
      case QMul => ok := ApplyQL(op, q, r, l);
      case QDiv =>
        var t := LiteralTemp(LitValue(l));
        ok := ApplyQQ(op, q, t, r);
    }
  }

  /** Integer minus rational, integer plus rational. */
  method AddSubFromZ(sub: bool, q: Rat, z: Cell, r: Rat)
    requires q.num != q.den && r.Ok() && SameOrApart(q, r)
    modifies q.num, q.den
    ensures q.Holds(old(z.v) as real + (if sub then -old(r.Value()) else old(r.Value())))
  {
    hide Canonical, Ratio;
    AddSubZ(sub, q, r, z);
    if sub {
      NegateInPlace(q);
    }
  }
}
