/**
 The mpn inlines: carry-propagating addition and subtraction, comparison and
 negation on limb vectors.

 Pointers are indices into one flat limb memory `mem`, so two operands may
 lie anywhere in it; each routine asks for exactly the overlap condition the
 library asserts ("same or separate").  A word is b * nails wide: b is the
 limb base, nails is 1 in the plain layout and at least 2 with nail bits.
 */
module MpnInlines {
  import opened LimbValue

  datatype Aors = Add | Sub

  function Signed(op: Aors, v: int): int {
    if op.Add? then v else -v
  }

  /** What adding (subtracting) y to x must deliver: |x| limbs and one carry (borrow). */
  ghost predicate CarryResult(op: Aors, w: seq<nat>, c: nat, x: seq<nat>, y: int, b: nat) {
    && |w| == |x|
    && Limbs(w, b)
    && c <= 1
    && Val(w, b) + Signed(op, Pow(b, |x|) * c) == Val(x, b) + Signed(op, y)
  }

  predicate SameOrSeparate(p: int, psize: int, q: int, qsize: int) {
    p == q || p + psize <= q || q + qsize <= p
  }

  predicate In(m: seq<nat>, p: int, n: int) {
    0 <= n && 0 <= p && p + n <= |m|
  }

  /** The n limbs at address p. */
  function Block(m: seq<nat>, p: int, n: int): seq<nat>
    requires In(m, p, n)
  {
    m[p..p + n]
  }

  /** Everything outside [p, p + n) is as it was in the older memory image. */
  predicate OnlyChanged(now: seq<nat>, was: seq<nat>, p: int, n: int) {
    && In(was, p, n)
    && |now| == |was|
    && now[..p] == was[..p]
    && now[p + n..] == was[p + n..]
  }

  /** c copies of p, for a carry bit c. */
  function Carried(p: nat, c: nat): nat {
    if c == 0 then 0 else p
  }

  lemma CarriedIs(p: nat, c: nat)
    requires c <= 1
    ensures Carried(p, c) == p * c
  {}

  // Arithmetic of one ripple step: p is the weight of the position.
  lemma RippleStep(op: Aors, b: nat, p: nat, xi: int, yi: int, c: int, r: int, c': int)
    requires r + Signed(op, b * c') == xi + Signed(op, yi + c)
    ensures p * r + Signed(op, b * p * c') == p * xi + Signed(op, p * yi + p * c)
  {
    assert p * (r + Signed(op, b * c')) == p * (xi + Signed(op, yi + c));
    if op.Add? {
      assert p * (r + b * c') == p * r + b * p * c';
      assert p * (xi + (yi + c)) == p * xi + p * yi + p * c;
    } else {
      assert p * (r - b * c') == p * r - b * p * c';
      assert p * (xi - (yi + c)) == p * xi - p * yi - p * c;
    }
  }

  /** One more limb position: r and c' are the digit and carry of xi +- (yi + c). */
  lemma CarrySnoc(op: Aors, w: seq<nat>, c: nat, x: seq<nat>, y: int, b: nat, xi: nat, yi: nat, r: nat, c': nat)
    requires CarryResult(op, w, c, x, y, b)
    requires r < b && c' <= 1 && r + Signed(op, Carried(b, c')) == xi + Signed(op, yi + c)
    ensures CarryResult(op, w + [r], c', x + [xi], y + Pow(b, |x|) * yi, b)
  {
    assert Pow(b, |x + [xi]|) == b * Pow(b, |x|);
    hide Val, Pow, Carried;
    ValSnoc(w, r, b);
    ValSnoc(x, xi, b);
    var p := Pow(b, |x|);
    CarriedIs(b, c');
    RippleStep(op, b, p, xi, yi, c, r, c');
    AddUp(op, Val(w, b), p * c, Val(x, b), y, p * r, b * p * c', p * xi, p * yi);
  }

  // The value equation of the lower limbs and that of the new position, added up.
  lemma AddUp(op: Aors, w: int, pc: int, x: int, y: int, pr: int, bpc: int, px: int, py: int)
    requires w + Signed(op, pc) == x + Signed(op, y)
    requires pr + Signed(op, bpc) == px + Signed(op, py + pc)
    ensures w + pr + Signed(op, bpc) == x + px + Signed(op, y + py)
  {}

  /** The same with the second operand kept as a vector. */
  lemma CarrySnocVector(op: Aors, w: seq<nat>, c: nat, x: seq<nat>, y: seq<nat>, b: nat, xi: nat, yi: nat, r: nat, c': nat)
    requires |x| == |y| && CarryResult(op, w, c, x, Val(y, b), b)
    requires r < b && c' <= 1 && r + Signed(op, Carried(b, c')) == xi + Signed(op, yi + c)
    ensures CarryResult(op, w + [r], c', x + [xi], Val(y + [yi], b), b)
  {
    CarrySnoc(op, w, c, x, Val(y, b), b, xi, yi, r, c');
    ValSnoc(y, yi, b);
  }

  /** Without a pending carry the remaining limbs are copied. */
  lemma CarryCopy(op: Aors, w: seq<nat>, x: seq<nat>, y: int, b: nat, rest: seq<nat>)
    requires CarryResult(op, w, 0, x, y, b) && Limbs(rest, b)
    ensures CarryResult(op, w + rest, 0, x + rest, y, b)
  {
    ValConcat(w, rest, b);
    ValConcat(x, rest, b);
  }

  lemma CarryEmpty(op: Aors, b: nat)
    ensures CarryResult(op, [], 0, [], Val([], b), b)
  {}

  // ----- Memory images -----

  /** Memory m with the limbs v written at address p. */
  ghost function Splice(m: seq<nat>, p: int, v: seq<nat>): seq<nat>
    requires In(m, p, |v|)
  {
    m[..p] + v + m[p + |v|..]
  }

  lemma SpliceNothing(m: seq<nat>, p: int)
    requires 0 <= p <= |m|
    ensures Splice(m, p, []) == m
  {}

  lemma SpliceRead(m: seq<nat>, p: int, v: seq<nat>, a: int)
    requires In(m, p, |v|) && 0 <= a < |m| && !(p <= a < p + |v|)
    ensures |Splice(m, p, v)| == |m| && Splice(m, p, v)[a] == m[a]
  {}

  lemma SpliceStep(m: seq<nat>, p: int, v: seq<nat>, r: nat)
    requires In(m, p, |v| + 1)
    ensures |Splice(m, p, v)| == |m|
    ensures Splice(m, p, v)[p + |v| := r] == Splice(m, p, v + [r])
  {}

  /** Reading the written limbs together with what stands before them. */
  lemma SpliceBlock(m: seq<nat>, q: int, p: int, v: seq<nat>, n: int)
    requires In(m, p, |v|) && 0 <= q <= p && n == p - q + |v|
    ensures |Splice(m, p, v)| == |m|
    ensures Block(Splice(m, p, v), q, n) == Block(m, q, p - q) + v
    ensures OnlyChanged(Splice(m, p, v), m, p, |v|)
  {
    assert Splice(m, p, v)[q..p + |v|] == m[q..p] + v;
  }

  /** A range outside the changed one reads as before. */
  lemma Kept(now: seq<nat>, was: seq<nat>, p: int, n: int, a: int, k: int)
    requires OnlyChanged(now, was, p, n) && In(was, a, k) && (a + k <= p || p + n <= a)
    ensures |now| == |was| && Block(now, a, k) == Block(was, a, k)
  {
    forall i | 0 <= i < k ensures Block(now, a, k)[i] == Block(was, a, k)[i] {
      if a + k <= p {
        assert now[..p][a + i] == was[..p][a + i];
      } else {
        assert now[p + n..][a + i - p - n] == was[p + n..][a + i - p - n];
      }
    }
  }

  lemma ChangedNothing(m: seq<nat>, p: int, n: int)
    requires In(m, p, n)
    ensures OnlyChanged(m, m, p, n)
  {}

  lemma ChangedInTurn(m2: seq<nat>, m1: seq<nat>, m0: seq<nat>, p: int, a: int, n: int)
    requires 0 <= a <= n && OnlyChanged(m1, m0, p, a) && OnlyChanged(m2, m1, p + a, n - a)
    ensures OnlyChanged(m2, m0, p, n)
  {
    assert m2[..p] == m2[..p + a][..p] && m1[..p] == m1[..p + a][..p];
    assert m1[p + n..] == m1[p + a..][n - a..] && m0[p + n..] == m0[p + a..][n - a..];
  }

  lemma BlockSplit(m: seq<nat>, p: int, n: int, i: int)
    requires In(m, p, n) && 0 <= i <= n
    ensures |Block(m, p, n)| == n
    ensures Block(m, p, n)[..i] == Block(m, p, i) && Block(m, p, n)[i..] == Block(m, p + i, n - i)
    ensures Block(m, p, n) == Block(m, p, i) + Block(m, p + i, n - i)
    ensures i < n ==> Block(m, p, n)[i] == m[p + i]
  {
    assert m[p..p + n][i..] == m[p + i..p + n];
  }

  /** The rest of a vector found in memory, seen from a later limb. */
  lemma RestAt(m: seq<nat>, p: int, start: int, x: seq<nat>, i: int)
    requires 0 <= start <= i <= |x| && In(m, p, |x|) && Block(m, p + start, |x| - start) == x[start..]
    ensures i < |x| ==> m[p + i] == x[i]
    ensures Block(m, p + i, |x| - i) == x[i..]
  {
    BlockSplit(m, p + start, |x| - start, i - start);
    assert x[start..][i - start..] == x[i..];
  }

  /** Reads a limb outside the part written so far. */
  method Load(mem: array<nat>, a: int, ghost m: seq<nat>, ghost p: int, ghost v: seq<nat>) returns (x: nat)
    requires In(m, p, |v|) && mem[..] == Splice(m, p, v)
    requires 0 <= a < |m| && !(p <= a < p + |v|)
    ensures x == m[a]
  {
    SpliceRead(m, p, v, a);
    x := mem[..][a];
  }

  /** Appends a limb to the part written so far. */
  method Store(mem: array<nat>, a: int, r: nat, ghost m: seq<nat>, ghost p: int, ghost v: seq<nat>)
    requires In(m, p, |v| + 1) && mem[..] == Splice(m, p, v) && a == p + |v|
    modifies mem
    ensures mem[..] == Splice(m, p, v + [r])
  {
    SpliceStep(m, p, v, r);
    mem[a] := r;
    assert mem[..] == Splice(m, p, v)[a := r];
  }

  /** Writes the next limb of a vector s that is known in advance. */
  method StoreNext(mem: array<nat>, a: int, x: nat, ghost m: seq<nat>, ghost p: int, ghost s: seq<nat>)
    requires In(m, p, |s|) && 0 <= a - p < |s| && mem[..] == Splice(m, p, s[..a - p]) && x == s[a - p]
    modifies mem
    ensures mem[..] == Splice(m, p, s[..a - p + 1])
  {
    hide Splice;
    TakeNext(s, a - p);
    Store(mem, a, x, m, p, s[..a - p]);
  }

  lemma Copied(m: seq<nat>, p: int, s: seq<nat>)
    requires In(m, p, |s|)
    ensures |Splice(m, p, s)| == |m| && Block(Splice(m, p, s), p, |s|) == s
    ensures OnlyChanged(Splice(m, p, s), m, p, |s|)
  {
    SpliceBlock(m, p, p, s, |s|);
  }

  lemma LimbAt(m: seq<nat>, p: int, n: int, i: int)
    requires In(m, p, n) && 0 <= i < n
    ensures |Block(m, p, n)| == n && Block(m, p, n)[i] == m[p + i]
  {}

  /** Writes one limb, the next one of a vector being built at q. */
  method Push(mem: array<nat>, a: int, r: nat, ghost q: int)
    requires 0 <= q <= a < mem.Length
    modifies mem
    ensures OnlyChanged(mem[..], old(mem[..]), a, 1)
    ensures Block(mem[..], q, a - q + 1) == old(Block(mem[..], q, a - q)) + [r]
  {
    ghost var m := mem[..];
    SpliceNothing(m, a);
    Store(mem, a, r, m, a, []);
    assert [] + [r] == [r];
    SpliceBlock(m, q, a, [r], a - q + 1);
  }

  lemma TakeNext(s: seq<nat>, k: int)
    requires 0 <= k < |s|
    ensures s[..k] + [s[k]] == s[..k + 1]
  {}

  lemma TakeAll(s: seq<nat>, k: int)
    requires k == |s|
    ensures s[..k] == s
  {}

  // ----- Addition and subtraction -----

  /** mpn_add_n and mpn_sub_n. */
  method AorsN(op: Aors, mem: array<nat>, wp: int, xp: int, yp: int, n: int, b: nat) returns (c: nat)
    requires b >= 2
    requires In(mem[..], wp, n) && In(mem[..], xp, n) && In(mem[..], yp, n)
    requires SameOrSeparate(wp, n, xp, n) && SameOrSeparate(wp, n, yp, n)
    requires Limbs(Block(mem[..], xp, n), b) && Limbs(Block(mem[..], yp, n), b)
    modifies mem
    ensures c <= 1
    ensures CarryResult(op, Block(mem[..], wp, n), c, old(Block(mem[..], xp, n)), old(Val(Block(mem[..], yp, n), b)), b)
    ensures OnlyChanged(mem[..], old(mem[..]), wp, n)
  {
    hide Val, Pow, CarryResult, Splice, OnlyChanged, Block, Limbs, RippleDigit;
    ghost var m := mem[..];
    ghost var x, y := Block(m, xp, n), Block(m, yp, n);
    ghost var w: seq<nat> := [];
    BlockSplit(m, xp, n, 0);
    BlockSplit(m, yp, n, 0);
    BlockSplit(m, wp, 0, 0);
    CarryEmpty(op, b);
    SpliceNothing(m, wp);
    assert x[..0] == [] && y[..0] == [];
    c := 0;
    var i := 0;
    while i < n
      invariant 0 <= i <= n && |w| == i && c <= 1
      invariant CarryResult(op, w, c, x[..i], Val(y[..i], b), b)
      invariant mem.Length == |m| && mem[..] == Splice(m, wp, w)
    {
      BlockSplit(m, xp, n, i);
      BlockSplit(m, yp, n, i);
      var xi := Load(mem, xp + i, m, wp, w);
      var yi := Load(mem, yp + i, m, wp, w);
      var (r, c') := RippleDigit(op, xi, yi, c, b);
      CarryNext(op, w, c, x, y, b, i);
      Store(mem, wp + i, r, m, wp, w);
      w := w + [r];
      c, i := c', i + 1;
    }
    SpliceBlock(m, wp, wp, w, n);
    assert Block(m, wp, 0) + w == w && x[..n] == x && y[..n] == y;
  }

  /** Digit and carry of xi +- (yi + c). */
  function RippleDigit(op: Aors, xi: nat, yi: nat, c: nat, b: nat): (int, nat) {
    var t := xi + Signed(op, yi + c);
    if t < 0 then (t + b, 1) else if t >= b then (t - b, 1) else (t, 0)
  }

  // One position of the ripple, on prefixes of x and y.
  lemma CarryNext(op: Aors, w: seq<nat>, c: nat, x: seq<nat>, y: seq<nat>, b: nat, i: int)
    requires 0 <= i < |x| == |y| && c <= 1 && CarryResult(op, w, c, x[..i], Val(y[..i], b), b)
    requires Limbs(x, b) && Limbs(y, b)
    ensures var (r, c') := RippleDigit(op, x[i], y[i], c, b);
            0 <= r && c' <= 1 && CarryResult(op, w + [r], c', x[..i + 1], Val(y[..i + 1], b), b)
  {
    hide CarryResult, Pow, Val;
    var (r, c') := RippleDigit(op, x[i], y[i], c, b);
    CarrySnocVector(op, w, c, x[..i], y[..i], b, x[i], y[i], r, c');
    assert x[..i + 1] == x[..i] + [x[i]] && y[..i + 1] == y[..i] + [y[i]];
  }

  /** __GMPN_COPY_REST: limbs start .. size - 1; a plain __GMPN_COPY of the part above start. */
  method CopyRest(mem: array<nat>, dst: int, src: int, size: int, start: int)
    requires 0 <= start <= size && In(mem[..], dst, size) && In(mem[..], src, size)
    requires SameOrSeparate(dst, size, src, size)
    modifies mem
    ensures Block(mem[..], dst + start, size - start) == old(Block(mem[..], src + start, size - start))
    ensures OnlyChanged(mem[..], old(mem[..]), dst + start, size - start)
  {
    hide Block, OnlyChanged;
    Copy(mem, dst + start, src + start, size - start);
  }

  method Copy(mem: array<nat>, p: int, q: int, n: int)
    requires In(mem[..], p, n) && In(mem[..], q, n) && SameOrSeparate(p, n, q, n)
    modifies mem
    ensures Block(mem[..], p, n) == old(Block(mem[..], q, n))
    ensures OnlyChanged(mem[..], old(mem[..]), p, n)
  {
    hide Splice, OnlyChanged, Block;
    ghost var m := mem[..];
    ghost var s := Block(m, q, n);
    BlockSplit(m, q, n, 0);
    SpliceNothing(m, p);
    var j := 0;
    while j < n
      invariant 0 <= j <= n && mem.Length == |m| && mem[..] == Splice(m, p, s[..j])
    {
      LimbAt(m, q, n, j);
      var x := Load(mem, q + j, m, p, s[..j]);
      StoreNext(mem, p + j, x, m, p, s);
      j := j + 1;
    }
    TakeAll(s, n);
    Copied(m, p, s);
  }

  /** v in a machine word: unsigned arithmetic wraps. */
  function Wrap(v: int, word: nat): nat
    requires word > 0
  {
    v % word
  }

  lemma MulAtLeast(b: nat, k: nat)
    requires k >= 1
    ensures b * k >= b
    ensures k >= 2 ==> b * k >= 2 * b
  {
    MulMono(b, 1, k);
    if k >= 2 { MulMono(b, 2, k); }
  }

  lemma DivModOf(v: int, b: nat, q: int, r: nat)
    requires r < b && v == b * q + r
    ensures v / b == q && v % b == r
  {
    assert v == b * (v / b) + v % b;
    QuotientUnique(b, q, r, v / b, v % b);
  }

  /** Where a limb step occurs: in __GMPN_ADD/SUB, or in one of the two __GMPN_AORS_1. */
  datatype Site = Long | PlainOne | NailsOne

  /** The layouts a site is compiled for. */
  predicate Layout(site: Site, b: nat, nails: nat) {
    && b >= 2
    && match site
       case Long => nails >= 1
       case PlainOne => nails == 1
       case NailsOne => nails >= 2
  }

  /** Between them the sites cover every limb layout. */
  lemma EveryLayout(b: nat, nails: nat)
    requires b >= 2 && nails >= 1
    ensures Layout(Long, b, nails) && Layout(if nails == 1 then PlainOne else NailsOne, b, nails)
  {}

  /** x OP v in a machine word, the limb stored for it, and whether a carry (borrow) leaves it. */
  function LimbStep(site: Site, op: Aors, x: nat, v: nat, b: nat, nails: nat): (nat, bool)
    requires Layout(site, b, nails)
  {
    MulAtLeast(b, nails);
    var r := Wrap(x + Signed(op, v), b * nails);
    match site
    case Long => (r % b, if op.Add? then r % b == 0 else x == 0)
    case PlainOne => (r, if op.Add? then r < v else x < v)
    case NailsOne => (r % b, r / b != 0)
  }

  function Bit(c: bool): nat {
    if c then 1 else 0
  }

  lemma WordBelow(t: int, b: nat, nails: nat, word: nat)
    requires b >= 2 && nails >= 1 && 0 <= t + b < b && word == b * nails && word >= b
    ensures var r := Wrap(t, word);
            r % b == t + b && r / b == nails - 1 && (nails == 1 ==> r < b)
  {
    DivModOf(t, word, -1, word + t);
    assert b * (nails - 1) == word - b;
    DivModOf(word + t, b, nails - 1, b + t);
  }

  /** t = x +- v taken modulo the word, then split into number part and nail part. */
  lemma WordParts(t: int, b: nat, nails: nat)
    requires b >= 2 && nails >= 1 && 0 <= t + b && t < 2 * b
    ensures b * nails > 0
    ensures var r := Wrap(t, b * nails);
            && r % b == (if t < 0 then t + b else if t >= b then t - b else t)
            && (nails >= 2 ==> (r / b != 0 <==> t < 0 || t >= b))
            && (nails == 1 ==> r < b)
  {
    MulAtLeast(b, nails);
    var word := b * nails;
    if t < 0 {
      WordBelow(t, b, nails, word);
    } else if t >= word {
      DivModOf(t, word, 1, t - word);
      DivModOf(t - word, b, 0, t - word);
    } else {
      DivModOf(t, word, 0, t);
      if t >= b { DivModOf(t, b, 1, t - b); } else { DivModOf(t, b, 0, t); }
    }
  }

  /**
   All three carry tests are right: the limb is in range and limb and carry
   together are x +- v.  __GMPN_ADD/SUB only ever steps by 1.
   */
  lemma LimbStepRight(site: Site, op: Aors, x: nat, v: nat, b: nat, nails: nat)
    requires Layout(site, b, nails) && x < b && v < b
    requires site.Long? ==> v == 1
    ensures var (r, c) := LimbStep(site, op, x, v, b, nails);
            r < b && r + Signed(op, Carried(b, Bit(c))) == x + Signed(op, v)
  {
    var t := x + Signed(op, v);
    WordParts(t, b, nails);
    var r := Wrap(t, b * nails);
    if nails == 1 { DivModOf(r, b, 0, r); }
    hide Wrap;
    var (d, c) := LimbStep(site, op, x, v, b, nails);
    assert c <==> t < 0 || t >= b;
  }

  /** Carries a pending 1 upward from limb start; stops at the first limb that absorbs it. */
  method PropagateCarry(site: Site, op: Aors, mem: array<nat>, wp: int, xp: int, n: int, start: int, b: nat, nails: nat,
                        ghost x: seq<nat>, ghost y: int)
    returns (i: int, cout: nat)
    requires Layout(site, b, nails) && b >= 2
    requires 0 <= start <= n && In(mem[..], wp, n) && In(mem[..], xp, n) && SameOrSeparate(wp, n, xp, n)
    requires |x| == n && Limbs(x, b) && Block(mem[..], xp + start, n - start) == x[start..]
    requires CarryResult(op, Block(mem[..], wp, start), 1, x[..start], y, b)
    modifies mem
    ensures start <= i <= n && (cout == 0 || (cout == 1 && i == n))
    ensures CarryResult(op, Block(mem[..], wp, i), cout, x[..i], y, b)
    ensures Block(mem[..], xp + i, n - i) == x[i..]
    ensures OnlyChanged(mem[..], old(mem[..]), wp + start, i - start)
  {
    hide Val, Pow, CarryResult, LimbStep, Layout, Splice, OnlyChanged, Block;
    ghost var m, w, v: seq<nat> := mem[..], Block(mem[..], wp, start), [];
    SpliceNothing(m, wp + start);
    assert w + v == w;
    i, cout := start, 1;
    while cout != 0 && i < n
      invariant start <= i <= n && |v| == i - start && (cout == 0 || cout == 1)
      invariant CarryResult(op, w + v, cout, x[..i], y, b)
      invariant mem.Length == |m| && mem[..] == Splice(m, wp + start, v)
    {
      var xi := Load(mem, xp + i, m, wp + start, v);
      RestAt(m, xp, start, x, i);
      LimbStepRight(site, op, xi, 1, b, nails);
      var (r, c) := LimbStep(site, op, xi, 1, b, nails);
      CarryOn(op, w, v, x, y, b, i, r, Bit(c));
      Store(mem, wp + i, r, m, wp + start, v);
      v := v + [r];
      i, cout := i + 1, Bit(c);
    }
    SpliceBlock(m, wp, wp + start, v, i);
    Kept(mem[..], m, wp + start, i - start, xp + i, n - i);
    RestAt(m, xp, start, x, i);
  }

  // The pending carry absorbed or passed on by limb i.
  lemma CarryOn(op: Aors, w: seq<nat>, v: seq<nat>, x: seq<nat>, y: int, b: nat, i: int, r: nat, c: nat)
    requires 0 <= i < |x| && CarryResult(op, w + v, 1, x[..i], y, b)
    requires r < b && c <= 1 && r + Signed(op, Carried(b, c)) == x[i] + Signed(op, 1)
    ensures CarryResult(op, w + (v + [r]), c, x[..i + 1], y, b)
  {
    hide CarryResult, Pow, Val;
    CarrySnoc(op, w + v, 1, x[..i], y, b, x[i], 0, r, c);
    assert x[..i + 1] == x[..i] + [x[i]] && w + v + [r] == w + (v + [r]);
  }

  /** The carry is absorbed: the rest of x is copied unless source and destination coincide. */
  method CopyTail(op: Aors, mem: array<nat>, wp: int, xp: int, n: int, i: int, b: nat, ghost x: seq<nat>, ghost y: int)
    requires 0 <= i <= n && In(mem[..], wp, n) && In(mem[..], xp, n) && SameOrSeparate(wp, n, xp, n)
    requires |x| == n && Limbs(x, b) && Block(mem[..], xp + i, n - i) == x[i..]
    requires CarryResult(op, Block(mem[..], wp, i), 0, x[..i], y, b)
    modifies mem
    ensures CarryResult(op, Block(mem[..], wp, n), 0, x, y, b)
    ensures OnlyChanged(mem[..], old(mem[..]), wp + i, n - i)
  {
    hide Val, Pow, CarryResult, Block, OnlyChanged;
    ghost var m, w := mem[..], Block(mem[..], wp, i);
    CarryCopy(op, w, x[..i], y, b, x[i..]);
    assert x == x[..i] + x[i..];
    if wp != xp {
      CopyRest(mem, wp, xp, n, i);
      Kept(mem[..], m, wp + i, n - i, wp, i);
    } else {
      ChangedNothing(m, wp + i, n - i);
    }
    BlockSplit(mem[..], wp, n, i);
  }

  /** mpn_add and mpn_sub: __GMPN_AORS. */
  method AorsLong(op: Aors, mem: array<nat>, wp: int, xp: int, xsize: int, yp: int, ysize: int, b: nat, nails: nat)
    returns (cout: nat)
    requires Layout(Long, b, nails)
    requires 0 <= ysize <= xsize
    requires In(mem[..], wp, xsize) && In(mem[..], xp, xsize) && In(mem[..], yp, ysize)
    requires SameOrSeparate(wp, xsize, xp, xsize) && SameOrSeparate(wp, xsize, yp, ysize)
    requires Limbs(Block(mem[..], xp, xsize), b) && Limbs(Block(mem[..], yp, ysize), b)
    modifies mem
    ensures cout <= 1
    ensures CarryResult(op, Block(mem[..], wp, xsize), cout, old(Block(mem[..], xp, xsize)), old(Val(Block(mem[..], yp, ysize), b)), b)
    ensures OnlyChanged(mem[..], old(mem[..]), wp, xsize)
  {
    hide Val, Pow, CarryResult, OnlyChanged, Block;
    ghost var m := mem[..];
    ghost var x, y := Block(m, xp, xsize), Val(Block(m, yp, ysize), b);
    BlockSplit(m, xp, xsize, ysize);
    var i := ysize;
    if i != 0 {
      cout := AorsN(op, mem, wp, xp, yp, i, b);
      Kept(mem[..], m, wp, i, xp + i, xsize - i);
      if cout != 0 {
        ghost var m1 := mem[..];
        i, cout := PropagateCarry(Long, op, mem, wp, xp, xsize, i, b, nails, x, y);
        ChangedInTurn(mem[..], m1, m, wp, ysize, i);
        if cout != 0 {
          assert x[..i] == x;
          return;
        }
      }
    } else {
      NothingAdded(op, m, wp, xp, yp, b);
      ChangedNothing(m, wp, 0);
    }
    ghost var m2 := mem[..];
    CopyTail(op, mem, wp, xp, xsize, i, b, x, y);
    ChangedInTurn(mem[..], m2, m, wp, i, xsize);
    cout := 0;
  }

  lemma NothingAdded(op: Aors, m: seq<nat>, wp: int, xp: int, yp: int, b: nat)
    requires In(m, wp, 0) && In(m, xp, 0) && In(m, yp, 0)
    ensures CarryResult(op, Block(m, wp, 0), 0, Block(m, xp, 0), Val(Block(m, yp, 0), b), b)
  {
    assert Block(m, wp, 0) == [] && Block(m, xp, 0) == [] && Block(m, yp, 0) == [];
  }

  /** mpn_add_1 and mpn_sub_1: __GMPN_AORS_1, in the layout given by site. */
  method AorsOne(site: Site, op: Aors, mem: array<nat>, dst: int, src: int, n: int, v: nat, b: nat, nails: nat)
    returns (cout: nat)
    requires Layout(site, b, nails) && !site.Long? && v < b
    requires n >= 1 && In(mem[..], dst, n) && In(mem[..], src, n) && SameOrSeparate(dst, n, src, n)
    requires Limbs(Block(mem[..], src, n), b)
    modifies mem
    ensures cout <= 1
    ensures CarryResult(op, Block(mem[..], dst, n), cout, old(Block(mem[..], src, n)), v, b)
    ensures OnlyChanged(mem[..], old(mem[..]), dst, n)
  {
    hide Val, Pow, CarryResult, LimbStep, Block, OnlyChanged;
    ghost var m, x := mem[..], Block(mem[..], src, n);
    BlockSplit(m, src, n, 0);
    BlockSplit(m, src, n, 1);
    BlockSplit(m, dst, 0, 0);
    var (r, c) := LimbStep(site, op, mem[src], v, b, nails);
    FirstStep(site, op, x, v, b, nails);
    Push(mem, dst, r, dst);
    Kept(mem[..], m, dst, 1, src + 1, n - 1);
    assert Block(m, dst, 0) + [r] == [r] && x[..1] == [x[0]];
    var i := 1;
    if c {
      ghost var m1 := mem[..];
      i, cout := PropagateCarry(site, op, mem, dst, src, n, i, b, nails, x, v);
      ChangedInTurn(mem[..], m1, m, dst, 1, i);
      if cout != 0 {
        assert x[..i] == x;
        return;
      }
    }
    ghost var m2 := mem[..];
    CopyTail(op, mem, dst, src, n, i, b, x, v);
    ChangedInTurn(mem[..], m2, m, dst, i, n);
    cout := 0;
  }

  lemma FirstStep(site: Site, op: Aors, x: seq<nat>, v: nat, b: nat, nails: nat)
    requires Layout(site, b, nails) && !site.Long? && v < b && |x| >= 1 && Limbs(x, b)
    ensures var (r, c) := LimbStep(site, op, x[0], v, b, nails);
            CarryResult(op, [r], Bit(c), [x[0]], v, b)
  {
    hide LimbStep, Val, Pow;
    LimbStepRight(site, op, x[0], v, b, nails);
    var (r, c) := LimbStep(site, op, x[0], v, b, nails);
    ValSingle(r, b);
    ValSingle(x[0], b);
  }

  lemma ValSingle(x: nat, b: nat)
    ensures Val([x], b) == x && Pow(b, |[x]|) == b
  {
    assert [x][1..] == [];
    assert Pow(b, 1) == b * Pow(b, 0);
  }

  /** The highest differing limb decides. */
  lemma TopLimbDecides(x: seq<nat>, y: seq<nat>, i: int, b: nat)
    requires |x| == |y| && 0 <= i < |x| && x[i + 1..] == y[i + 1..] && x[i] < y[i]
    requires Limbs(x, b)
    ensures Val(x, b) < Val(y, b)
  {
    hide Val, Pow;
    SplitAt(x, i, b);
    SplitAt(y, i, b);
    ValBound(x[..i], b);
    HigherWins(Pow(b, i), Val(x[..i], b), x[i], Val(y[..i], b), y[i]);
  }

  lemma HigherWins(p: nat, lo: nat, hi: nat, lo': nat, hi': nat)
    requires lo < p && hi < hi'
    ensures lo + p * hi < lo' + p * hi'
  {
    MulMono(p, hi + 1, hi');
  }

  lemma SplitAt(x: seq<nat>, i: int, b: nat)
    requires 0 <= i < |x|
    ensures Val(x, b) == Val(x[..i], b) + Pow(b, i) * x[i] + Pow(b, i + 1) * Val(x[i + 1..], b)
  {
    assert x == x[..i + 1] + x[i + 1..] && x[..i + 1] == x[..i] + [x[i]];
    ValConcat(x[..i + 1], x[i + 1..], b);
    ValSnoc(x[..i], x[i], b);
  }

  /** mpn_cmp. */
  method Cmp(mem: array<nat>, xp: int, yp: int, size: int, b: nat) returns (result: int)
    requires In(mem[..], xp, size) && In(mem[..], yp, size)
    requires Limbs(Block(mem[..], xp, size), b) && Limbs(Block(mem[..], yp, size), b)
    ensures -1 <= result <= 1
    ensures result > 0 <==> Val(Block(mem[..], xp, size), b) > Val(Block(mem[..], yp, size), b)
    ensures result < 0 <==> Val(Block(mem[..], xp, size), b) < Val(Block(mem[..], yp, size), b)
    ensures result == 0 <==> Block(mem[..], xp, size) == Block(mem[..], yp, size)
  {
    hide Val, Pow, Block;
    ghost var m := mem[..];
    ghost var x, y := Block(m, xp, size), Block(m, yp, size);
    BlockSplit(m, xp, size, size);
    BlockSplit(m, yp, size, size);
    var i := size;
    while i > 0
      invariant 0 <= i <= size
      invariant forall k | i <= k < size :: x[k] == y[k]
    {
      i := i - 1;
      BlockSplit(m, xp, size, i);
      BlockSplit(m, yp, size, i);
      var xi, yi := mem[xp + i], mem[yp + i];
      assert xi == m[xp + i] == x[i] && yi == m[yp + i] == y[i];
      if xi != yi {
        assert x[i + 1..] == y[i + 1..];
        if xi > yi { TopLimbDecides(y, x, i, b); } else { TopLimbDecides(x, y, i, b); }
        return if xi > yi then 1 else -1;
      }
    }
    assert x == y;
    result := 0;
  }

  /** mpn_zero_p. */
  method ZeroP(mem: array<nat>, p: int, n: int, b: nat) returns (zero: bool)
    requires n >= 1 && b >= 1 && In(mem[..], p, n)
    ensures zero <==> Val(Block(mem[..], p, n), b) == 0
  {
    ghost var x := Block(mem[..], p, n);
    ValZero(x, b);
    hide Val;
    var i := n;
    while i > 0
      invariant 0 <= i <= n
      invariant forall k | i <= k < n :: x[k] == 0
    {
      i := i - 1;
      assert mem[p + i] == x[i];
      if mem[p + i] != 0 {
        return false;
      }
    }
    zero := true;
  }

  function Zeros(n: nat): (z: seq<nat>)
    ensures |z| == n && forall i | 0 <= i < n :: z[i] == 0
  {
    seq(n, i => 0)
  }

  /** Every limb taken from the largest one. */
  function Complemented(u: seq<nat>, b: nat): (r: seq<nat>)
    requires Limbs(u, b)
    ensures |r| == |u| && forall i | 0 <= i < |u| :: r[i] + u[i] == b - 1
  {
    if u == [] then [] else Complemented(u[..|u| - 1], b) + [b - 1 - u[|u| - 1]]
  }

  lemma ComplementedNext(u: seq<nat>, i: int, b: nat)
    requires 0 <= i < |u| && Limbs(u, b)
    ensures Complemented(u[..i + 1], b) == Complemented(u[..i], b) + [b - 1 - u[i]]
  {
    assert u[..i + 1][..i] == u[..i];
  }

  /** mpn_com: every limb complemented, in place or not. */
  method Complement(mem: array<nat>, rp: int, up: int, n: int, b: nat)
    requires In(mem[..], rp, n) && In(mem[..], up, n) && SameOrSeparate(rp, n, up, n)
    requires Limbs(Block(mem[..], up, n), b)
    modifies mem
    ensures Block(mem[..], rp, n) == Complemented(old(Block(mem[..], up, n)), b)
    ensures OnlyChanged(mem[..], old(mem[..]), rp, n)
  {
    hide Splice, OnlyChanged, Block, Complemented;
    ghost var m := mem[..];
    ghost var u := Block(m, up, n);
    ghost var r := Complemented(u, b);
    BlockSplit(m, up, n, 0);
    SpliceNothing(m, rp);
    var i := 0;
    while i < n
      invariant 0 <= i <= n && mem.Length == |m| && mem[..] == Splice(m, rp, r[..i])
    {
      LimbAt(m, up, n, i);
      var ui := Load(mem, up + i, m, rp, r[..i]);
      assert r[i] + ui == b - 1;
      StoreNext(mem, rp + i, b - 1 - ui, m, rp, r);
      i := i + 1;
    }
    TakeAll(r, n);
    Copied(m, rp, r);
  }

  /** Under a pending borrow, complementing the remaining limbs is what the subtraction from zero needs. */
  lemma {:induction false} BorrowComplements(r: seq<nat>, u: seq<nat>, start: int, i: int, b: nat)
    requires 0 <= start <= i <= |u| && Limbs(u, b) && |r| == start
    requires CarryResult(Sub, r, 1, Zeros(start), Val(u[..start], b), b)
    ensures CarryResult(Sub, r + Complemented(u[start..i], b), 1, Zeros(i), Val(u[..i], b), b)
    decreases i
  {
    hide CarryResult, Pow, Val, Complemented;
    if i == start {
      assert r + Complemented(u[start..i], b) == r;
    } else {
      BorrowComplements(r, u, start, i - 1, b);
      assert u[start..][..i - start] == u[start..i] && u[start..][..i - 1 - start] == u[start..i - 1];
      ComplementedNext(u[start..], i - 1 - start, b);
      ComplementNext(r, Complemented(u[start..i - 1], b), u, i - 1, b);
    }
  }

  // One complemented limb, under a pending borrow.
  lemma ComplementNext(r: seq<nat>, v: seq<nat>, u: seq<nat>, i: int, b: nat)
    requires 0 <= i < |u| && u[i] < b && CarryResult(Sub, r + v, 1, Zeros(i), Val(u[..i], b), b)
    ensures CarryResult(Sub, r + (v + [b - 1 - u[i]]), 1, Zeros(i + 1), Val(u[..i + 1], b), b)
  {
    hide CarryResult, Pow, Val;
    var d := b - 1 - u[i];
    CarrySnocVector(Sub, r + v, 1, Zeros(i), u[..i], b, 0, u[i], d, 1);
    assert u[..i + 1] == u[..i] + [u[i]] && Zeros(i + 1) == Zeros(i) + [0] && r + v + [d] == r + (v + [d]);
  }

  lemma ZerosNegated(u: seq<nat>, b: nat)
    requires b >= 2 && u == Zeros(|u|)
    ensures Val(u, b) == 0
    ensures CarryResult(Sub, u, 0, u, Val(u, b), b)
  {
    ValZero(u, b);
  }

  /** Low zero limbs are unchanged by negation. */
  method SkipZeros(mem: array<nat>, rp: int, up: int, n: int) returns (i: int)
    requires n >= 0 && In(mem[..], rp, n) && In(mem[..], up, n) && SameOrSeparate(rp, n, up, n)
    modifies mem
    ensures 0 <= i <= n && |old(Block(mem[..], up, n))| == n && mem.Length == |old(mem[..])|
    ensures old(Block(mem[..], up, n))[..i] == Zeros(i) == Block(mem[..], rp, i)
    ensures Block(mem[..], up + i, n - i) == old(Block(mem[..], up, n))[i..]
    ensures i < n ==> old(Block(mem[..], up, n))[i] != 0
    ensures OnlyChanged(mem[..], old(mem[..]), rp, i)
  {
    hide Splice, OnlyChanged, Block, Zeros;
    ghost var m, u, v: seq<nat> := mem[..], Block(mem[..], up, n), [];
    BlockSplit(m, up, n, 0);
    BlockSplit(m, rp, 0, 0);
    SpliceNothing(m, rp);
    ZerosNone(u);
    i := 0;
    while i < n
      invariant 0 <= i <= n && |v| == i && v == Zeros(i) == u[..i]
      invariant mem.Length == |m| && mem[..] == Splice(m, rp, v)
    {
      BlockSplit(m, up, n, i);
      var ui := Load(mem, up + i, m, rp, v);
      if ui != 0 { break; }
      ZerosNext(u, i);
      Store(mem, rp + i, 0, m, rp, v);
      v := v + [0];
      i := i + 1;
    }
    BlockSplit(m, up, n, i);
    SpliceBlock(m, rp, rp, v, i);
    Kept(mem[..], m, rp, i, up + i, n - i);
    assert v == Block(m, rp, 0) + v;
  }

  lemma ZerosNone(u: seq<nat>)
    ensures u[..0] == Zeros(0) == []
  {}

  lemma ZerosNext(u: seq<nat>, i: int)
    requires 0 <= i < |u| && u[..i] == Zeros(i) && u[i] == 0
    ensures u[..i + 1] == Zeros(i + 1) == Zeros(i) + [0]
  {
    TakeNext(u, i);
  }

  /** mpn_neg: the subtraction 0 - u, with its borrow. */
  method Neg(mem: array<nat>, rp: int, up: int, n: int, b: nat) returns (c: nat)
    requires b >= 2 && n >= 1 && In(mem[..], rp, n) && In(mem[..], up, n) && SameOrSeparate(rp, n, up, n)
    requires Limbs(Block(mem[..], up, n), b)
    modifies mem
    ensures CarryResult(Sub, Block(mem[..], rp, n), c, Zeros(n), old(Val(Block(mem[..], up, n), b)), b)
    ensures OnlyChanged(mem[..], old(mem[..]), rp, n)
  {
    hide Val, Pow, CarryResult, Block, OnlyChanged, Zeros;
    ghost var m0, u := mem[..], Block(mem[..], up, n);
    var i := SkipZeros(mem, rp, up, n);
    ZerosNegated(Zeros(i), b);
    if i == n {
      assert u[..i] == u;
      return 0;
    }
    ghost var m := mem[..];
    NegUpper(mem, rp, up, n, i, b, u);
    ChangedInTurn(mem[..], m, m0, rp, i, n);
    c := 1;
  }

  /** The lowest nonzero limb, at i, is negated and the limbs above it are complemented. */
  method NegUpper(mem: array<nat>, rp: int, up: int, n: int, i: int, b: nat, ghost u: seq<nat>)
    requires b >= 2 && 0 <= i < n && In(mem[..], rp, n) && In(mem[..], up, n) && SameOrSeparate(rp, n, up, n)
    requires |u| == n && Limbs(u, b) && u[..i] == Zeros(i) && u[i] != 0
    requires Block(mem[..], rp, i) == Zeros(i) && Block(mem[..], up + i, n - i) == u[i..]
    modifies mem
    ensures CarryResult(Sub, Block(mem[..], rp, n), 1, Zeros(n), Val(u, b), b)
    ensures OnlyChanged(mem[..], old(mem[..]), rp + i, n - i)
  {
    hide Val, Pow, CarryResult, Block, OnlyChanged, Zeros, Complemented;
    ghost var m := mem[..];
    RestAt(m, up, i, u, i);
    RestAt(m, up, i, u, i + 1);
    var ui := mem[up + i];
    assert ui == m[up + i];
    NegFirst(u, i, b);
    Push(mem, rp + i, b - ui, rp);
    Kept(mem[..], m, rp + i, 1, up + i + 1, n - i - 1);
    ghost var m1, r := mem[..], Block(mem[..], rp, i + 1);
    if i + 1 < n {
      Complement(mem, rp + i + 1, up + i + 1, n - i - 1, b);
      Kept(mem[..], m1, rp + i + 1, n - i - 1, rp, i + 1);
    } else {
      ChangedNothing(m1, rp + i + 1, n - i - 1);
    }
    NegRest(mem[..], rp, r, u, i + 1, b);
    ChangedInTurn(mem[..], m1, m, rp + i, 1, n - i);
  }

  lemma NegRest(m: seq<nat>, rp: int, r: seq<nat>, u: seq<nat>, start: int, b: nat)
    requires 0 <= start <= |u| && In(m, rp, |u|) && Limbs(u, b) && |r| == start && Block(m, rp, start) == r
    requires start < |u| ==> Block(m, rp + start, |u| - start) == Complemented(u[start..], b)
    requires CarryResult(Sub, r, 1, Zeros(start), Val(u[..start], b), b)
    ensures CarryResult(Sub, Block(m, rp, |u|), 1, Zeros(|u|), Val(u, b), b)
  {
    hide CarryResult, Val, Pow;
    BlockSplit(m, rp, |u|, start);
    BorrowComplements(r, u, start, |u|, b);
    assert u[start..|u|] == u[start..] && u[..|u|] == u;
  }

  // The lowest nonzero limb of a negation.
  lemma NegFirst(u: seq<nat>, i: int, b: nat)
    requires b >= 2 && 0 <= i < |u| && Limbs(u, b) && u[..i] == Zeros(i) && u[i] != 0
    ensures CarryResult(Sub, Zeros(i) + [b - u[i]], 1, Zeros(i + 1), Val(u[..i + 1], b), b)
  {
    hide Val, Pow, CarryResult;
    ZerosNegated(Zeros(i), b);
    CarrySnocVector(Sub, Zeros(i), 0, Zeros(i), u[..i], b, 0, u[i], b - u[i], 1);
    assert u[..i + 1] == u[..i] + [u[i]] && Zeros(i + 1) == Zeros(i) + [0];
  }
}
