/**
 Machine words of the 32-bit target, ISO C99 truncating division, and the
 power-of-two test used by the constant-operand shortcuts of gmpxx.h.
 */
module Words {
  import opened Basics
  import opened LimbValue

  const ULONG_MAX := 0xFFFF_FFFF
  const LONG_MAX := 0x7FFF_FFFF
  const LONG_MIN := -0x8000_0000

  type Ulong = x: int | 0 <= x <= ULONG_MAX
  type Slong = x: int | LONG_MIN <= x <= LONG_MAX

  /** static_cast<unsigned long>: modulo 2^32. */
  function ToUlong(x: int): Ulong {
    x % (ULONG_MAX + 1)
  }

  /** __gmpxx_abs_ui: the magnitude, exact even for LONG_MIN. */
  function AbsUi(l: Slong): (r: Ulong)
    ensures r == Abs(l)
  {
    var u: int := ToUlong(l);
    if l >= 0 then u else ToUlong(-u)
  }

  // ----- Truncating division -----

  function Quot(n: int, d: int): int
    requires d != 0
  {
    var q: int := Abs(n) / Abs(d);
    if (n < 0) == (d < 0) then q else -q
  }

  function Rem(n: int, d: int): int
    requires d != 0
  {
    var r: int := Abs(n) % Abs(d);
    if n < 0 then -r else r
  }

  /** Section 6.5.5 of ISO C99: n = q*d + r with |r| < |d| and r zero or of the sign of n. */
  ghost predicate Truncates(n: int, d: int, q: int, r: int) {
    && d != 0
    && n == q * d + r
    && Abs(r) < Abs(d)
    && (n >= 0 ==> r >= 0)
    && (n <= 0 ==> r <= 0)
  }

  lemma QuotRemTruncate(n: int, d: int)
    requires d != 0
    ensures Truncates(n, d, Quot(n, d), Rem(n, d))
    ensures n == Quot(n, d) * d + Rem(n, d)
    ensures -d < Rem(n, d) < d || d < Rem(n, d) < -d
    ensures (n >= 0 ==> Rem(n, d) >= 0) && (n <= 0 ==> Rem(n, d) <= 0)
  {
    var a: int, m: int := Abs(n), Abs(d);
    var q, r := a / m, a % m;
    Divided(a, m);
    SignedEquation(n, d, q, r, Quot(n, d), Rem(n, d));
    SignAndSize(n, d, q * m, r, Rem(n, d));
  }

  lemma Divided(a: int, m: int)
    requires a >= 0 && m > 0
    ensures a == (a / m) * m + a % m && 0 <= a % m < m && (a / m) * m >= 0
  {}

  // From quotient and remainder of the magnitudes to signed ones.
  lemma SignedEquation(n: int, d: int, q: int, r: int, sq: int, sr: int)
    requires Abs(n) == q * Abs(d) + r
    requires sq == (if (n < 0) == (d < 0) then q else -q) && sr == (if n < 0 then -r else r)
    ensures n == sq * d + sr
  {
    var p := q * Abs(d);
    assert d < 0 ==> p == -q * d && -p == q * d;
    assert d >= 0 ==> p == q * d && -p == -q * d;
  }

  lemma SignAndSize(n: int, d: int, p: int, r: int, sr: int)
    requires p >= 0 && 0 <= r < Abs(d) && Abs(n) == p + r && sr == (if n < 0 then -r else r)
    ensures Abs(sr) < Abs(d) && (n >= 0 ==> sr >= 0) && (n <= 0 ==> sr <= 0)
  {}

  // The standard's equation in magnitudes.
  lemma InMagnitudes(n: int, d: int, q: int, r: int)
    requires Truncates(n, d, q, r)
    ensures Abs(n) == Abs(r) + Abs(d) * (if (n < 0) == (d < 0) then q else -q)
  {
    var p := q * d;
    assert p == d * q && -p == d * -q && -p == -d * q && p == -d * -q;
    if n == 0 {
      assert p == 0;
    } else if n > 0 {
      assert r >= 0;
    } else {
      assert r <= 0;
    }
  }

  /** Only one pair satisfies the standard's equations. */
  lemma TruncationUnique(n: int, d: int, q: int, r: int)
    requires Truncates(n, d, q, r)
    ensures q == Quot(n, d) && r == Rem(n, d)
  {
    InMagnitudes(n, d, q, r);
    assert Abs(r) < Abs(d) && (n >= 0 ==> r >= 0) && (n <= 0 ==> r <= 0);
    hide Truncates;
    DivideMagnitudes(Abs(n), Abs(d), if (n < 0) == (d < 0) then q else -q, Abs(r));
  }

  lemma DivideMagnitudes(a: nat, m: nat, q: int, r: nat)
    requires r < m && a == r + m * q
    ensures a / m == q && a % m == r
  {
    assert a == a % m + m * (a / m);
    QuotientUnique(m, q, r, a / m, a % m);
  }

  lemma SmallDividend(n: int, d: int)
    requires Abs(n) < Abs(d)
    ensures Quot(n, d) == 0 && Rem(n, d) == n
  {
    QuotientUnique(Abs(d), 0, Abs(n), Abs(n) / Abs(d), Abs(n) % Abs(d));
  }

  /** A floor shift gives the truncated quotient exactly for non-negative or divisible numbers. */
  lemma FloorAgreesExactlyWhen(w: int, k: nat)
    ensures Pow(2, k) >= 1
    ensures w / Pow(2, k) == Quot(w, Pow(2, k)) <==> w >= 0 || w % Pow(2, k) == 0
  {
    PowPositive(2, k);
    var m := Pow(2, k);
    QuotRemTruncate(w, m);
    assert w == m * (w / m) + w % m;
    var q: int, r: int := Quot(w, m), Rem(w, m);
    assert q * m == m * q;
    if w / m == q { assert r == w % m; }
    if w % m == 0 && w < 0 { ExactQuotient(w, m); }
  }

  lemma ExactQuotient(w: int, m: nat)
    requires m >= 1 && w < 0 && w % m == 0
    ensures w / m == Quot(w, m)
  {
    var f := w / m;
    assert w == m * f;
    assert m * f == f * m;
    TruncationUnique(w, m, f, 0);
  }

  // ----- Powers of two -----

  /** Bitwise and of natural numbers. */
  function BitAnd(x: nat, y: nat): (r: nat)
    ensures r <= x && r <= y
  {
    if x == 0 || y == 0 then 0 else (x % 2) * (y % 2) + 2 * BitAnd(x / 2, y / 2)
  }

  /** (l & (l - 1)) == 0, with l - 1 wrapping for l = 0. */
  predicate PowerTest(l: Ulong) {
    BitAnd(l, ToUlong(l - 1)) == 0
  }

  /** __builtin_ctzl. */
  function TrailingZeros(l: nat): nat
    requires l > 0
  {
    if l % 2 == 1 then 0 else 1 + TrailingZeros(l / 2)
  }

  lemma {:induction false} BitAndSelf(x: nat)
    ensures BitAnd(x, x) == x
  {
    if x > 0 { BitAndSelf(x / 2); }
  }

  lemma {:induction false} ClearLowest(l: nat)
    requires l > 0
    ensures BitAnd(l, l - 1) == 0 <==> l == Pow(2, TrailingZeros(l))
  {
    if l % 2 == 0 {
      var m := l / 2;
      ClearLowest(m);
      assert (l - 1) / 2 == m - 1 && (l - 1) % 2 == 1;
      assert m == 1 ==> BitAnd(2, 1) == 0;
      assert BitAnd(l, l - 1) == 2 * BitAnd(m, m - 1);
    } else {
      var m := l / 2;
      BitAndSelf(m);
      assert (l - 1) / 2 == m && (l - 1) % 2 == 0;
      assert l > 1 ==> BitAnd(l, l - 1) == 2 * m;
    }
  }

  lemma {:induction false} TrailingZerosOfPower(k: nat)
    ensures Pow(2, k) > 0 && TrailingZeros(Pow(2, k)) == k
  {
    if k > 0 {
      TrailingZerosOfPower(k - 1);
      assert Pow(2, k) == 2 * Pow(2, k - 1);
    }
  }

  /** The test selects exactly zero and the powers of two, and ctz recovers the exponent. */
  lemma PowerTestExact(l: Ulong)
    ensures PowerTest(l) <==> l == 0 || exists k: nat :: l == Pow(2, k)
    ensures PowerTest(l) && l != 0 ==> l == Pow(2, TrailingZeros(l))
  {
    if l != 0 {
      assert ToUlong(l - 1) == l - 1;
      ClearLowest(l);
      if k: nat :| l == Pow(2, k) { TrailingZerosOfPower(k); }
    }
  }
}
