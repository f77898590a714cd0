/**
 What the mpn contracts mean together: results are unique, subtraction undoes
 addition, comparison agrees with borrowing, negation is the additive inverse.
 */
module MpnLaws {
  import opened LimbValue
  import opened MpnInlines

  lemma SameCarry(op: Aors, p: nat, v: nat, c: nat, v': nat, c': nat)
    requires v < p && v' < p
    requires v + Signed(op, p * c) == v' + Signed(op, p * c')
    ensures v == v' && c == c'
  {
    var k: int, k': int := Signed(op, c), Signed(op, c');
    assert Signed(op, p * c) == p * k && Signed(op, p * c') == p * k';
    QuotientUnique(p, k, v, k', v');
  }

  /** The contract of an addition or subtraction leaves no freedom: limbs and carry are determined. */
  lemma ResultUnique(op: Aors, w: seq<nat>, c: nat, w': seq<nat>, c': nat, x: seq<nat>, y: int, b: nat)
    requires CarryResult(op, w, c, x, y, b) && CarryResult(op, w', c', x, y, b)
    ensures w == w' && c == c'
  {
    hide Val, Pow;
    ValBound(w, b);
    ValBound(w', b);
    SameCarry(op, Pow(b, |x|), Val(w, b), c, Val(w', b), c');
    ValInjective(w, w', b);
  }

  function Inverse(op: Aors): Aors {
    if op.Add? then Sub else Add
  }

  /** mpn_sub after mpn_add (or the reverse) gives back every limb, and the borrow equals the carry. */
  lemma InverseRestores(op: Aors, w: seq<nat>, c: nat, v: seq<nat>, d: nat, x: seq<nat>, y: int, b: nat)
    requires Limbs(x, b)
    requires CarryResult(op, w, c, x, y, b) && CarryResult(Inverse(op), v, d, w, y, b)
    ensures v == x && d == c
  {
    hide Val, Pow;
    ValBound(x, b);
    ValBound(v, b);
    SameCarry(op, Pow(b, |x|), Val(v, b), c, Val(x, b), d);
    ValInjective(v, x, b);
  }

  /** The contract written out: n limbs below the base, one carry, and the positional equation. */
  lemma CarryEquation(op: Aors, w: seq<nat>, c: nat, x: seq<nat>, y: int, b: nat)
    requires CarryResult(op, w, c, x, y, b)
    ensures |w| == |x| && (c == 0 || c == 1) && forall i | 0 <= i < |w| :: 0 <= w[i] < b
    ensures op.Add? ==> Val(w, b) + Pow(b, |x|) * c == Val(x, b) + y
    ensures op.Sub? ==> Val(w, b) + y == Val(x, b) + Pow(b, |x|) * c
  {}

  /** A subtraction borrows exactly when the subtrahend is larger (mpn_cmp negative), an addition
      carries exactly when the sum needs one more limb. */
  lemma CarryMeansOverflow(op: Aors, w: seq<nat>, c: nat, x: seq<nat>, y: nat, b: nat)
    requires Limbs(x, b) && CarryResult(op, w, c, x, y, b)
    ensures op.Sub? ==> (c == 1 <==> Val(x, b) < y)
    ensures op.Add? ==> (c == 1 <==> Val(x, b) + y >= Pow(b, |x|))
  {
    hide Val, Pow;
    ValBound(w, b);
    ValBound(x, b);
    assert c == 0 ==> Pow(b, |x|) * c == 0;
    assert c == 1 ==> Pow(b, |x|) * c == Pow(b, |x|);
  }

  /** mpn_neg: r is c*b^n - u, and c is 0 exactly for u = 0. */
  lemma NegValue(r: seq<nat>, c: nat, u: seq<nat>, b: nat)
    requires b >= 2 && Limbs(u, b) && CarryResult(Sub, r, c, Zeros(|u|), Val(u, b), b)
    ensures Val(r, b) == Pow(b, |u|) * c - Val(u, b)
    ensures c == 0 <==> Val(u, b) == 0
  {
    hide Val, Pow;
    ValZero(Zeros(|u|), b);
    ValBound(r, b);
    ValBound(u, b);
    assert c == 1 ==> Pow(b, |u|) * c == Pow(b, |u|);
    assert c == 0 ==> Pow(b, |u|) * c == 0;
  }

  /** mpn_com maps u to b^n - 1 - u, so doing it twice gives u back. */
  lemma {:induction false} ComplementValue(u: seq<nat>, b: nat)
    requires Limbs(u, b)
    ensures Val(Complemented(u, b), b) == Pow(b, |u|) - 1 - Val(u, b)
    ensures Limbs(Complemented(u, b), b) && Complemented(Complemented(u, b), b) == u
  {
    hide Complemented, Val, Pow;
    var v := Complemented(u, b);
    ComplementSum(v, u, b);
    assert Complemented(v, b) == u;
  }

  lemma {:induction false} ComplementSum(v: seq<nat>, u: seq<nat>, b: nat)
    requires |v| == |u| && forall i | 0 <= i < |u| :: v[i] + u[i] == b - 1
    ensures Val(v, b) + Val(u, b) == Pow(b, |u|) - 1
  {
    if u != [] {
      ComplementSum(v[1..], u[1..], b);
      assert Val(v, b) == v[0] + b * Val(v[1..], b) && Val(u, b) == u[0] + b * Val(u[1..], b);
      ComplementStep(b, v[0], u[0], Val(v[1..], b), Val(u[1..], b), Pow(b, |u| - 1));
    }
  }

  lemma ComplementStep(b: int, v0: int, u0: int, v: int, u: int, p: int)
    requires v0 + u0 == b - 1 && v + u == p - 1
    ensures v0 + b * v + (u0 + b * u) == b * p - 1
  {
    assert b * v + b * u == b * (v + u);
  }

  /** Adding a vector to its negation leaves n zero limbs and carries out the negation's borrow. */
  lemma NegIsAdditiveInverse(r: seq<nat>, c: nat, u: seq<nat>, s: seq<nat>, e: nat, b: nat)
    requires b >= 2 && Limbs(u, b)
    requires CarryResult(Sub, r, c, Zeros(|u|), Val(u, b), b)
    requires CarryResult(Add, s, e, u, Val(r, b), b)
    ensures s == Zeros(|u|) && e == c
  {
    hide Val, Pow;
    NegValue(r, c, u, b);
    ValBound(s, b);
    QuotientUnique(Pow(b, |u|), c, 0, e, Val(s, b));
    ValZero(s, b);
  }

  /** Adding one limb is adding the one-limb vector: mpn_add_1 and mpn_add(.., 1) agree limb for limb. */
  lemma OneLimbAgrees(op: Aors, w: seq<nat>, c: nat, w': seq<nat>, c': nat, x: seq<nat>, v: nat, b: nat)
    requires CarryResult(op, w, c, x, v, b) && CarryResult(op, w', c', x, Val([v], b), b)
    ensures w == w' && c == c'
  {
    ValSingle(v, b);
    ResultUnique(op, w, c, w', c', x, v, b);
  }

  /** A run: w := x + y, then w := w - y in place.  Needs y outside w, as the second call reads it again. */
  method AddThenSub(mem: array<nat>, wp: int, xp: int, xsize: int, yp: int, ysize: int, b: nat, nails: nat)
    returns (carry: nat, borrow: nat)
    requires Layout(Long, b, nails)
    requires 0 <= ysize <= xsize
    requires In(mem[..], wp, xsize) && In(mem[..], xp, xsize) && In(mem[..], yp, ysize)
    requires SameOrSeparate(wp, xsize, xp, xsize)
    requires wp + xsize <= yp || yp + ysize <= wp
    requires Limbs(Block(mem[..], xp, xsize), b) && Limbs(Block(mem[..], yp, ysize), b)
    modifies mem
    ensures carry == borrow
    ensures Block(mem[..], wp, xsize) == old(Block(mem[..], xp, xsize))
    ensures wp == xp ==> mem[..] == old(mem[..])
  {
    hide Val, Pow, Block, OnlyChanged, CarryResult;
    ghost var m := mem[..];
    ghost var x, ys := Block(m, xp, xsize), Block(m, yp, ysize);
    carry := AorsLong(Add, mem, wp, xp, xsize, yp, ysize, b, nails);
    ghost var m1 := mem[..];
    ghost var w := Block(m1, wp, xsize);
    Kept(m1, m, wp, xsize, yp, ysize);
    SumIsLimbs(Add, w, carry, x, Val(ys, b), b);
    borrow := AorsLong(Sub, mem, wp, wp, xsize, yp, ysize, b, nails);
    InverseRestores(Add, w, carry, Block(mem[..], wp, xsize), borrow, x, Val(ys, b), b);
    if wp == xp { SameImage(mem[..], m1, m, wp, xsize); }
  }

  lemma SumIsLimbs(op: Aors, w: seq<nat>, c: nat, x: seq<nat>, y: int, b: nat)
    requires CarryResult(op, w, c, x, y, b)
    ensures Limbs(w, b)
  {}

  /** Two images that differ from a third only in one range, and agree with it there, are that image. */
  lemma SameImage(m2: seq<nat>, m1: seq<nat>, m0: seq<nat>, p: int, n: int)
    requires OnlyChanged(m1, m0, p, n) && OnlyChanged(m2, m1, p, n) && Block(m2, p, n) == Block(m0, p, n)
    ensures m2 == m0
  {
    assert m2 == m2[..p] + m2[p..p + n] + m2[p + n..];
    assert m0 == m0[..p] + m0[p..p + n] + m0[p + n..];
  }

  /** A run: r := -u, then r := r + u.  The zero test taken first predicts the carry. */
  method NegThenAdd(mem: array<nat>, rp: int, up: int, n: int, b: nat, nails: nat) returns (zero: bool, carry: nat)
    requires Layout(Long, b, nails) && n >= 1
    requires In(mem[..], rp, n) && In(mem[..], up, n)
    requires rp + n <= up || up + n <= rp
    requires Limbs(Block(mem[..], up, n), b)
    modifies mem
    ensures Block(mem[..], rp, n) == Zeros(n)
    ensures carry == 0 <==> zero
    ensures OnlyChanged(mem[..], old(mem[..]), rp, n)
  {
    hide Val, Pow, Block, OnlyChanged, CarryResult, Zeros;
    ghost var m, u := mem[..], Block(mem[..], up, n);
    BlockSplit(m, up, n, n);
    zero := ZeroP(mem, up, n, b);
    var c := Neg(mem, rp, up, n, b);
    ghost var m1 := mem[..];
    ghost var r := Block(m1, rp, n);
    Kept(m1, m, rp, n, up, n);
    SumIsLimbs(Sub, r, c, Zeros(n), Val(u, b), b);
    carry := AorsLong(Add, mem, rp, up, n, rp, n, b, nails);
    NegIsAdditiveInverse(r, c, u, Block(mem[..], rp, n), carry, b);
    NegValue(r, c, u, b);
    ChangedTwice(mem[..], m1, m, rp, n);
  }

  lemma ChangedTwice(m2: seq<nat>, m1: seq<nat>, m0: seq<nat>, p: int, n: int)
    requires OnlyChanged(m1, m0, p, n) && OnlyChanged(m2, m1, p, n)
    ensures OnlyChanged(m2, m0, p, n)
  {}

  /** mpn_cmp foretells the borrow of mpn_sub on equal lengths. */
  method CmpThenSub(mem: array<nat>, wp: int, xp: int, yp: int, n: int, b: nat, nails: nat) returns (less: bool, borrow: nat)
    requires Layout(Long, b, nails) && n >= 0
    requires In(mem[..], wp, n) && In(mem[..], xp, n) && In(mem[..], yp, n)
    requires SameOrSeparate(wp, n, xp, n) && SameOrSeparate(wp, n, yp, n)
    requires Limbs(Block(mem[..], xp, n), b) && Limbs(Block(mem[..], yp, n), b)
    modifies mem
    ensures less <==> borrow == 1
  {
    hide Val, Pow, Block, OnlyChanged, CarryResult;
    ghost var x, y := Block(mem[..], xp, n), Val(Block(mem[..], yp, n), b);
    var r := Cmp(mem, xp, yp, n, b);
    less := r < 0;
    borrow := AorsLong(Sub, mem, wp, xp, n, yp, n, b, nails);
    CarryMeansOverflow(Sub, Block(mem[..], wp, n), borrow, x, y, b);
  }
}
