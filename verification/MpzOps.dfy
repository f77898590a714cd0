/**
 The mpz function objects of gmpxx.h.  A Cell is one mpz variable; a library
 call such as mpz_add(z, w, v) is one assignment to z.v, computed from the
 sources before the store, so z may be any of the sources.

 `known` and `signKnown` on a literal say whether the compiler sees its value
 or its sign as a constant (__builtin_constant_p); results hold either way.
 A result ok == false means that the operation traps: a division by zero, or
 the C division LONG_MIN / -1.
 */
module MpzOps {
  import opened Basics
  import opened LimbValue
  import opened Words

  class Cell {
    var v: int

    constructor (v: int)
      ensures this.v == v
    {
      this.v := v;
    }
  }

  datatype Lit = UI(u: Ulong, known: bool) | SI(s: Slong, known: bool, signKnown: bool)

  datatype UnOp = Pos | Minus | Com | Magnitude

  datatype BinOp = Add | Sub | Mul | Div | Mod

  datatype ShiftOp = Left | Right

  function LitValue(l: Lit): int {
    match l
    case UI(u, _) => u
    case SI(s, _, _) => s
  }

  // ----- What the operators mean -----

  function UnSem(op: UnOp, x: int): int {
    match op
    case Pos => x
    case Minus => -x
    case Com => -x - 1
    case Magnitude => if x < 0 then -x else x
  }

  function BinSem(op: BinOp, x: int, y: int): Option<int> {
    match op
    case Add => Some(x + y)
    case Sub => Some(x - y)
    case Mul => Some(x * y)
    case Div => if y == 0 then None else Some(Quot(x, y))
    case Mod => if y == 0 then None else Some(Rem(x, y))
  }

  function ShiftSem(op: ShiftOp, x: int, n: nat): int {
    PowPositive(2, n);
    match op
    case Left => x * Pow(2, n)
    case Right => x / Pow(2, n)
  }

  /** The binary operators by their laws: a difference is what is missing, a quotient truncates, a remainder is what is left. */
  lemma BinLaws(op: BinOp, x: int, y: int)
    ensures BinSem(op, x, y).None? <==> (op.Div? || op.Mod?) && y == 0
    ensures op.Add? ==> BinSem(op, x, y).value - y == x
    ensures op.Sub? ==> BinSem(op, x, y).value + y == x
    ensures op.Mul? ==> BinSem(op, x, y).value == x * y
    ensures op.Div? && y != 0 ==>
              var r := x - BinSem(op, x, y).value * y;
              (-y < r < y || y < r < -y) && (x >= 0 ==> r >= 0) && (x <= 0 ==> r <= 0)
    ensures op.Mod? && y != 0 ==> BinSem(Div, x, y).value * y + BinSem(op, x, y).value == x
  {
    if y != 0 { QuotRemTruncate(x, y); }
  }

  /** A right shift is the floor, and it is the truncated quotient exactly unless bits of a negative number are lost. */
  lemma ShiftLaws(x: int, n: nat)
    ensures ShiftSem(Left, x, n) == x * Pow(2, n)
    ensures ShiftSem(Right, x, n) * Pow(2, n) <= x < (ShiftSem(Right, x, n) + 1) * Pow(2, n)
    ensures Pow(2, n) != 0
    ensures Some(ShiftSem(Right, x, n)) != BinSem(Div, x, Pow(2, n)) <==> x < 0 && x % Pow(2, n) != 0
  {
    PowPositive(2, n);
    FloorAgreesExactlyWhen(x, n);
    FloorBounds(x, Pow(2, n));
  }

  lemma FloorBounds(x: int, m: int)
    requires m >= 1
    ensures (x / m) * m <= x < (x / m + 1) * m
  {
    assert x == m * (x / m) + x % m;
    assert (x / m + 1) * m == (x / m) * m + m;
  }

  /** The one quotient of machine words that a C division cannot deliver. */
  predicate WordOverflow(op: BinOp, l: Lit, y: int) {
    (op.Div? || op.Mod?) && l.SI? && l.s == LONG_MIN && y == -1
  }

  // ----- Queries -----

  predicate FitsUlong(x: int) {
    0 <= x <= ULONG_MAX
  }

  predicate FitsSlong(x: int) {
    LONG_MIN <= x <= LONG_MAX
  }

  // ----- Unary operators and operators on two variables -----

  method ApplyUn(op: UnOp, z: Cell, w: Cell)
    modifies z
    ensures z.v == UnSem(op, old(w.v))
    ensures op.Pos? ==> z.v == old(w.v)
    ensures op.Minus? ==> z.v + old(w.v) == 0
    ensures op.Com? ==> z.v + old(w.v) == -1
    ensures op.Magnitude? ==> z.v >= 0 && (z.v == old(w.v) || z.v == -old(w.v))
  {
    z.v := match op {
      case Pos => w.v
      case Minus => -w.v
      case Com => -(w.v + 1)
      case Magnitude => if w.v >= 0 then w.v else -w.v
    };
  }

  method ApplyVV(op: BinOp, z: Cell, w: Cell, v: Cell) returns (ok: bool)
    modifies z
    ensures ok <==> BinSem(op, old(w.v), old(v.v)).Some?
    ensures ok ==> Some(z.v) == BinSem(op, old(w.v), old(v.v))
    ensures !ok <==> (op.Div? || op.Mod?) && old(v.v) == 0
    ensures ok && op.Sub? ==> z.v + old(v.v) == old(w.v)
    ensures ok && op.Div? ==> z.v == Quot(old(w.v), old(v.v))
    ensures ok && op.Mod? ==> z.v == Rem(old(w.v), old(v.v))
  {
    match op {
      case Add => z.v := w.v + v.v;
      case Sub => z.v := w.v - v.v;
      case Mul => z.v := w.v * v.v;
      case Div =>
        if v.v == 0 { return false; }
        z.v := Quot(w.v, v.v);
      case Mod =>
        if v.v == 0 { return false; }
        z.v := Rem(w.v, v.v);
    }
    ok := true;
  }

  method Lshift(z: Cell, w: Cell, l: nat, known: bool)
    modifies z
    ensures z.v == ShiftSem(Left, old(w.v), l)
    ensures z.v == old(w.v) * Pow(2, l)
  {
    if known && l == 0 {
      if z != w { z.v := w.v; }
    } else {
      z.v := w.v * Pow(2, l);
    }
  }

  method Rshift(z: Cell, w: Cell, l: nat, known: bool)
    modifies z
    ensures z.v == ShiftSem(Right, old(w.v), l)
    ensures z.v * Pow(2, l) <= old(w.v) < (z.v + 1) * Pow(2, l)
    ensures Pow(2, l) != 0 && (z.v != Quot(old(w.v), Pow(2, l)) <==> old(w.v) < 0 && old(w.v) % Pow(2, l) != 0)
  {
    PowPositive(2, l);
    ShiftLaws(w.v, l);
    if known && l == 0 {
      if z != w { z.v := w.v; }
    } else {
      z.v := w.v / Pow(2, l);
    }
  }

  // ----- Addition and subtraction of a machine integer -----

  method AddUi(z: Cell, w: Cell, l: Ulong, known: bool)
    modifies z
    ensures z.v == old(w.v) + l
  {
    if known && l == 0 {
      if z != w { z.v := w.v; }
    } else {
      z.v := w.v + l;
    }
  }

  method AddSi(z: Cell, w: Cell, l: Slong, known: bool)
    modifies z
    ensures z.v == old(w.v) + l
  {
    if l >= 0 {
      AddUi(z, w, ToUlong(l), known);
    } else {
      z.v := w.v - AbsUi(l);
    }
  }

  method SubUi(z: Cell, w: Cell, l: Ulong, known: bool)
    modifies z
    ensures z.v == old(w.v) - l
  {
    if known && l == 0 {
      if z != w { z.v := w.v; }
    } else {
      z.v := w.v - l;
    }
  }

  method UiSub(z: Cell, l: Ulong, w: Cell, known: bool)
    modifies z
    ensures z.v == l - old(w.v)
  {
    if known && l == 0 {
      z.v := -w.v;
    } else {
      z.v := l - w.v;
    }
  }

  method SubSi(z: Cell, w: Cell, l: Slong, known: bool)
    modifies z
    ensures z.v == old(w.v) - l
  {
    if l >= 0 {
      SubUi(z, w, ToUlong(l), known);
    } else {
      z.v := w.v + AbsUi(l);
    }
  }

  method SiSub(z: Cell, l: Slong, w: Cell, known: bool)
    modifies z
    ensures z.v == l - old(w.v)
  {
    if l >= 0 {
      UiSub(z, ToUlong(l), w, known);
    } else {
      z.v := w.v + AbsUi(l);
      z.v := -z.v;
    }
  }

  // ----- Multiplication: shifts for constant powers of two -----

  method MulUi(z: Cell, w: Cell, l: Ulong, known: bool)
    modifies z
    ensures z.v == old(w.v) * l
  {
    PowerTestExact(l);
    if known && PowerTest(l) {
      if l == 0 {
        z.v := 0;
      } else {
        Lshift(z, w, TrailingZeros(l), known);
      }
    } else {
      z.v := w.v * l;
    }
  }

  method MulSi(z: Cell, w: Cell, l: Slong, known: bool, signKnown: bool)
    modifies z
    ensures z.v == old(w.v) * l
  {
    if signKnown && l >= 0 {
      MulUi(z, w, ToUlong(l), known);
    } else if signKnown && l <= 0 {
      MulUi(z, w, AbsUi(l), known);
      z.v := -z.v;
    } else {
      z.v := w.v * l;
    }
  }

  // ----- Division -----

  method DivUi(z: Cell, w: Cell, l: Ulong, known: bool) returns (ok: bool)
    modifies z
    ensures ok <==> l != 0
    ensures ok ==> z.v == Quot(old(w.v), l)
  {
    PowerTestExact(l);
    if known && PowerTest(l) && l != 0 {
      if l == 1 {
        QuotByOne(w.v);
        if z != w { z.v := w.v; }
      } else {
        z.v := Quot(w.v, Pow(2, TrailingZeros(l)));
      }
    } else {
      if l == 0 { return false; }
      z.v := Quot(w.v, l);
    }
    ok := true;
  }

  lemma QuotByOne(x: int)
    ensures Quot(x, 1) == x
  {
    TruncationUnique(x, 1, x, 0);
  }

  method DivSi(z: Cell, w: Cell, l: Slong, known: bool) returns (ok: bool)
    modifies z
    ensures ok <==> l != 0
    ensures ok ==> z.v == Quot(old(w.v), l)
  {
    if l >= 0 {
      ok := DivUi(z, w, ToUlong(l), known);
    } else {
      ok := DivUi(z, w, AbsUi(l), known);
      z.v := -z.v;
    }
  }

  method UiDiv(z: Cell, l: Ulong, w: Cell) returns (ok: bool)
    modifies z
    ensures ok <==> old(w.v) != 0
    ensures ok ==> z.v == Quot(l, old(w.v))
  {
    if Abs(w.v) > l { SmallDividend(l, w.v); }
    if w.v >= 0 {
      if FitsUlong(w.v) {
        if w.v == 0 { return false; }
        z.v := l / w.v;
      } else {
        z.v := 0;
      }
    } else {
      z.v := -w.v;
      if FitsUlong(z.v) {
        z.v := l / z.v;
        z.v := -z.v;
      } else {
        z.v := 0;
      }
    }
    ok := true;
  }

  method SiDiv(z: Cell, l: Slong, w: Cell) returns (ok: bool)
    modifies z
    ensures ok <==> old(w.v) != 0 && !(l == LONG_MIN && old(w.v) == -1)
    ensures ok ==> z.v == Quot(l, old(w.v))
  {
    if FitsSlong(w.v) {
      if w.v == 0 || (l == LONG_MIN && w.v == -1) { return false; }
      z.v := Quot(l, w.v);
    } else {
      BeyondLong(l, w.v);
      z.v := if Abs(w.v) == AbsUi(l) then -1 else 0;
    }
    ok := true;
  }

  /** A divisor outside the long range has a zero quotient, except 2^31 under LONG_MIN. */
  lemma BeyondLong(l: Slong, w: int)
    requires !FitsSlong(w)
    ensures Quot(l, w) == (if Abs(w) == Abs(l) then -1 else 0)
    ensures Rem(l, w) == (if Abs(w) == Abs(l) then 0 else l)
  {
    if Abs(w) == Abs(l) { TruncationUnique(l, w, -1, 0); } else { SmallDividend(l, w); }
  }

  /** The quotient of two longs is a long for every pair but LONG_MIN and -1: the trap is not avoidable there. */
  lemma QuotRepresentable(l: Slong, w: Slong)
    requires w != 0
    ensures FitsSlong(Quot(l, w)) <==> !(l == LONG_MIN && w == -1)
  {
    var a: int, m: int := Abs(l), Abs(w);
    var q: int, r: int := a / m, a % m;
    assert a == m * q + r;
    if m >= 2 { QuotientHalves(a, m); } else { QuotByOne(a); }
  }

  lemma QuotientHalves(a: nat, m: nat)
    requires m >= 2
    ensures 0 <= 2 * (a / m) <= a
  {
    assert a == m * (a / m) + a % m;
    MulMono(a / m, 2, m);
  }

  method UiMod(z: Cell, l: Ulong, w: Cell) returns (ok: bool)
    modifies z
    ensures ok <==> old(w.v) != 0
    ensures ok ==> z.v == Rem(l, old(w.v))
  {
    if Abs(w.v) > l { SmallDividend(l, w.v); }
    if w.v >= 0 {
      if FitsUlong(w.v) {
        if w.v == 0 { return false; }
        z.v := l % w.v;
      } else {
        z.v := l;
      }
    } else {
      z.v := -w.v;
      if FitsUlong(z.v) {
        z.v := l % z.v;
      } else {
        z.v := l;
      }
    }
    ok := true;
  }

  method SiMod(z: Cell, l: Slong, w: Cell) returns (ok: bool)
    modifies z
    ensures ok <==> old(w.v) != 0 && !(l == LONG_MIN && old(w.v) == -1)
    ensures ok ==> z.v == Rem(l, old(w.v))
  {
    if FitsSlong(w.v) {
      if w.v == 0 || (l == LONG_MIN && w.v == -1) { return false; }
      z.v := Rem(l, w.v);
    } else {
      BeyondLong(l, w.v);
      z.v := if Abs(w.v) == AbsUi(l) then 0 else l;
    }
    ok := true;
  }

  /** mpz_tdiv_r_ui, for both signed and unsigned divisors. */
  method ModAbs(z: Cell, w: Cell, l: Ulong) returns (ok: bool)
    modifies z
    ensures ok <==> l != 0
    ensures ok ==> z.v == Rem(old(w.v), l)
  {
    if l == 0 { return false; }
    z.v := Rem(w.v, l);
    ok := true;
  }

  // ----- Dispatch on operator and operand kinds -----

  /** Variable op literal. */
  method ApplyVL(op: BinOp, z: Cell, w: Cell, l: Lit) returns (ok: bool)
    modifies z
    ensures ok <==> BinSem(op, old(w.v), LitValue(l)).Some?
    ensures ok ==> Some(z.v) == BinSem(op, old(w.v), LitValue(l))
    ensures !ok <==> (op.Div? || op.Mod?) && (if l.UI? then l.u == 0 else l.s == 0)
    ensures ok && op.Sub? ==> z.v + (if l.UI? then l.u else l.s) == old(w.v)
    ensures ok && op.Div? ==> z.v == Quot(old(w.v), if l.UI? then l.u else l.s)
  {
    hide Quot, Rem, AbsUi;
    ok := true;
    match l {
      case UI(u, known) =>
        match op {
          case Add => AddUi(z, w, u, known);
          case Sub => SubUi(z, w, u, known);
          case Mul => MulUi(z, w, u, known);
          case Div => ok := DivUi(z, w, u, known);
          case Mod => ok := ModAbs(z, w, u);
        }
      case SI(s, known, signKnown) =>
        match op {
          case Add => AddSi(z, w, s, known);
          case Sub => SubSi(z, w, s, known);
          case Mul => MulSi(z, w, s, known, signKnown);
          case Div => ok := DivSi(z, w, s, known);
          case Mod =>
            if s != 0 { RemByMagnitude(w.v, s); }
            ok := ModAbs(z, w, AbsUi(s));
        }
    }
  }

  /** Literal op variable. */
  method ApplyLV(op: BinOp, z: Cell, l: Lit, w: Cell) returns (ok: bool)
    modifies z
    ensures ok <==> BinSem(op, LitValue(l), old(w.v)).Some? && !WordOverflow(op, l, old(w.v))
    ensures ok ==> Some(z.v) == BinSem(op, LitValue(l), old(w.v))
    ensures !ok <==> (op.Div? || op.Mod?) && (old(w.v) == 0 || (l.SI? && l.s == LONG_MIN && old(w.v) == -1))
    ensures ok && op.Sub? ==> z.v + old(w.v) == if l.UI? then l.u else l.s
    ensures ok && op.Div? ==> z.v == Quot(if l.UI? then l.u else l.s, old(w.v))
    ensures ok && op.Mod? ==> z.v == Rem(if l.UI? then l.u else l.s, old(w.v))
  {
    hide Quot, Rem, AbsUi, BinSem;
    BinForms(op, LitValue(l), w.v);
    ok := true;
    match op {
      case Add => ok := ApplyVL(op, z, w, l);
      case Mul => ok := ApplyVL(op, z, w, l);
      case Sub => if l.UI? { UiSub(z, l.u, w, l.known); } else { SiSub(z, l.s, w, l.known); }
      case Div => if l.UI? { ok := UiDiv(z, l.u, w); } else { ok := SiDiv(z, l.s, w); }
      case Mod => if l.UI? { ok := UiMod(z, l.u, w); } else { ok := SiMod(z, l.s, w); }
    }
  }

  lemma BinForms(op: BinOp, x: int, y: int)
    ensures BinSem(op, x, y).None? <==> (op.Div? || op.Mod?) && y == 0
    ensures op.Add? || op.Mul? ==> BinSem(op, x, y) == BinSem(op, y, x)
    ensures op.Sub? ==> BinSem(op, x, y) == Some(x - y)
    ensures op.Div? && y != 0 ==> BinSem(op, x, y) == Some(Quot(x, y))
    ensures op.Mod? && y != 0 ==> BinSem(op, x, y) == Some(Rem(x, y))
  {
    assert x * y == y * x;
  }

  /** The sign of a divisor does not matter to the remainder. */
  lemma RemByMagnitude(n: int, d: int)
    requires d != 0
    ensures Rem(n, d) == Rem(n, Abs(d))
  {}
}
