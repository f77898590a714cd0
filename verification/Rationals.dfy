/** Divisibility, lowest terms, and the real number a numerator/denominator pair stands for. */
module Rationals {
  import opened Basics
  import opened LimbValue
  import opened Words

  ghost predicate Divides(g: int, n: int) {
    g >= 1 && n % g == 0
  }

  /** No common divisor except 1. */
  ghost predicate Coprime(n: int, d: int) {
    forall g: int :: Divides(g, n) && Divides(g, d) ==> g == 1
  }

  /** The invariant of a canonical mpq. */
  ghost predicate Canonical(n: int, d: int) {
    d > 0 && Coprime(n, d)
  }

  ghost function Ratio(n: int, d: int): real
    requires d != 0
  {
    n as real / d as real
  }

  lemma DividesTimes(g: int, n: int, k: int)
    requires g >= 1 && n == g * k
    ensures Divides(g, n)
  {
    assert n == g * (n / g) + n % g;
    QuotientUnique(g, k, 0, n / g, n % g);
  }

  lemma DividesCombine(g: int, x: int, y: int, k: int)
    requires Divides(g, x) && Divides(g, y)
    ensures Divides(g, x + k * y)
  {
    var a, b := x / g, y / g;
    assert x == g * a && y == g * b;
    assert g * (a + k * b) == g * a + k * (g * b);
    DividesTimes(g, x + k * y, a + k * b);
  }

  lemma NoLargerDivisor(g: int, h: int)
    requires g >= 1 && h >= 1 && Divides(g * h, g)
    ensures h == 1
  {
    var k := g / (g * h);
    assert g == (g * h) * k;
    assert (g * h) * k == g * (h * k);
    QuotientUnique(g, h * k, 0, 1, 0);
    UnitFactor(h, k);
  }

  lemma UnitFactor(h: int, k: int)
    requires h >= 1 && h * k == 1
    ensures h == 1
  {
    if k >= 1 { MulMono(k, 1, h); }
  }

  lemma ProductDivides(g: int, h: int, n': int)
    requires g >= 1 && Divides(h, n')
    ensures g * h >= 1 && Divides(g * h, g * n')
  {
    var x := n' / h;
    assert n' == h * x;
    MulMono(g, 1, h);
    assert g * (h * x) == (g * h) * x;
    DividesTimes(g * h, g * n', x);
  }

  /** Adding a multiple of the denominator to the numerator keeps a pair canonical and adds k to its value. */
  lemma AddInteger(n: int, d: int, k: int)
    requires Canonical(n, d)
    ensures Canonical(n + k * d, d)
    ensures Ratio(n + k * d, d) == Ratio(n, d) + k as real
  {
    forall g: int | Divides(g, n + k * d) && Divides(g, d) ensures g == 1 {
      DividesCombine(g, n + k * d, d, -k);
      assert n + k * d + (-k) * d == n;
      assert Divides(g, n);
    }
    assert (n + k * d) as real == n as real + k as real * d as real;
  }

  lemma NegateCanonical(n: int, d: int)
    requires Canonical(n, d)
    ensures Canonical(-n, d) && Ratio(-n, d) == -Ratio(n, d)
  {
    forall g: int | Divides(g, -n) && Divides(g, d) ensures g == 1 {
      DividesTimes(g, 0, 0);
      DividesCombine(g, 0, -n, -1);
      assert Divides(g, n);
    }
  }

  lemma WholeCanonical(n: int)
    ensures Canonical(n, 1) && Ratio(n, 1) == n as real
  {
    forall g: int | Divides(g, n) && Divides(g, 1) ensures g == 1 {
      NoLargerDivisor(1, g);
    }
  }

  /** Euclid's algorithm. */
  function Gcd(a: nat, b: nat): nat
    decreases b
  {
    if b == 0 then a else Gcd(b, a % b)
  }

  lemma {:induction false} GcdDivides(a: nat, b: nat)
    requires a > 0 || b > 0
    ensures Divides(Gcd(a, b), a) && Divides(Gcd(a, b), b)
    decreases b
  {
    var g := Gcd(a, b);
    if b == 0 {
      DividesTimes(g, a, 1);
      DividesTimes(g, 0, 0);
    } else {
      GcdDivides(b, a % b);
      DividesCombine(g, a % b, b, a / b);
      assert a % b + (a / b) * b == a;
    }
  }

  lemma {:induction false} GcdGreatest(a: nat, b: nat, h: int)
    requires Divides(h, a) && Divides(h, b)
    ensures Divides(h, Gcd(a, b))
    decreases b
  {
    if b != 0 {
      DividesCombine(h, a, b, -(a / b));
      assert a + (-(a / b)) * b == a % b;
      GcdGreatest(b, a % b, h);
    }
  }

  // ----- Lowest terms are unique -----

  /** A canonical pair has a positive denominator and no common divisor above 1. */
  lemma CanonicalMeans(n: int, d: int, g: int)
    requires Canonical(n, d)
    ensures d > 0
    ensures g >= 1 && n % g == 0 && d % g == 0 ==> g == 1
  {
    assert Divides(g, n) && Divides(g, d) ==> g == 1;
  }

  lemma {:induction false} GcdScaled(k: nat, a: nat, b: nat)
    requires k >= 1
    ensures Gcd(k * a, k * b) == k * Gcd(a, b)
    decreases b
  {
    if b == 0 {
      assert k * b == 0;
    } else {
      ModScaled(k, a, b);
      GcdScaled(k, b, a % b);
    }
  }

  lemma ModScaled(k: nat, a: nat, b: nat)
    requires k >= 1 && b >= 1
    ensures k * b >= 1 && (k * a) % (k * b) == k * (a % b)
  {
    var q, r := a / b, a % b;
    assert a == b * q + r;
    MulMono(k, 1, b);
    MulMono(k, r + 1, b);
    assert k * (r + 1) == k * r + k;
    assert k * a == (k * b) * q + k * r;
    DivideMagnitudes(k * a, k * b, q, k * r);
  }

  /** A divisor of a product that shares nothing with one factor divides the other. */
  lemma DividesOther(n: int, d: int, k: nat)
    requires Canonical(n, d) && k >= 1 && Divides(d, n * k)
    ensures Divides(d, k)
  {
    hide Gcd;
    var a := Abs(n);
    GcdDivides(a, d);
    AbsDivides(Gcd(a, d), a, n);
    assert Gcd(a, d) == 1;
    GcdScaled(k, a, d);
    assert k * a == n * k || k * a == -(n * k);
    AbsDivides(d, n * k, k * a);
    DividesTimes(d, k * d, k);
    GcdGreatest(k * a, k * d, d);
  }

  lemma DivisorAtMost(d: int, k: int)
    requires d >= 1 && k >= 1 && Divides(d, k)
    ensures d <= k
  {
    var x := k / d;
    assert k == d * x;
    assert x >= 1;
    MulMono(d, 1, x);
  }

  lemma CrossProduct(n: int, d: int, n': int, d': int)
    requires d > 0 && d' > 0 && Ratio(n, d) == Ratio(n', d')
    ensures n * d' == n' * d
  {
    var x, y, x', y' := n as real, d as real, n' as real, d' as real;
    assert x == x' / y' * y;
    assert x * y' == x' * y;
    assert (n * d') as real == x * y' && (n' * d) as real == x' * y;
  }

  /** One number has one canonical pair: equal values have equal numerators and equal denominators. */
  lemma LowestTermsUnique(n: int, d: int, n': int, d': int)
    requires Canonical(n, d) && Canonical(n', d') && Ratio(n, d) == Ratio(n', d')
    ensures n == n' && d == d'
  {
    CrossProduct(n, d, n', d');
    hide Coprime;
    DividesTimes(d, n * d', n');
    DividesTimes(d', n' * d, n);
    DividesOther(n, d, d');
    DividesOther(n', d', d);
    DivisorAtMost(d, d');
    DivisorAtMost(d', d);
    assert d * n == d * n';
    QuotientUnique(d, n, 0, n', 0);
  }

  /** n/d in lowest terms with a positive denominator. */
  function Lowest(n: int, d: int): (int, int)
    requires d != 0
  {
    var g := Gcd(Abs(n), Abs(d));
    GcdDivides(Abs(n), Abs(d));
    if d > 0 then (n / g, d / g) else ((-n) / g, (-d) / g)
  }

  lemma LowestRight(n: int, d: int)
    requires d != 0
    ensures var (n', d') := Lowest(n, d);
            Canonical(n', d') && Ratio(n', d') == Ratio(n, d)
  {
    hide Gcd, Coprime;
    var g := Gcd(Abs(n), Abs(d));
    GcdDivides(Abs(n), Abs(d));
    var a: int, b: int := if d > 0 then n else -n, if d > 0 then d else -d;
    AbsDivides(g, Abs(n), a);
    LowestOf(a, b, g);
    assert Ratio(a, b) == Ratio(n, d);
  }

  lemma LowestOf(a: int, b: int, g: int)
    requires b > 0 && Divides(g, a) && Divides(g, b) && g == Gcd(Abs(a), b)
    ensures Canonical(a / g, b / g) && Ratio(a / g, b / g) == Ratio(a, b)
  {
    hide Gcd, Coprime, Ratio;
    Exactly(g, a);
    Exactly(g, b);
    PartsCoprime(a, b, g, a / g, b / g);
    PartPositive(g, b / g);
    RatioOfParts(g, a / g, b / g);
  }

  lemma Exactly(g: int, n: int)
    requires Divides(g, n)
    ensures g >= 1 && n == g * (n / g)
  {}

  lemma PartPositive(g: int, x: int)
    requires g >= 1 && g * x > 0
    ensures x > 0
  {}

  lemma PartsCoprime(a: int, b: int, g: int, n': int, d': int)
    requires b > 0 && g >= 1 && g == Gcd(Abs(a), b) && a == g * n' && b == g * d'
    ensures Coprime(n', d')
  {
    hide Gcd;
    forall h: int | Divides(h, n') && Divides(h, d') ensures h == 1 {
      ProductDivides(g, h, n');
      ProductDivides(g, h, d');
      AbsDivides(g * h, a, Abs(a));
      GcdGreatest(Abs(a), b, g * h);
      NoLargerDivisor(g, h);
    }
  }

  lemma RatioOfParts(g: int, n': int, d': int)
    requires g >= 1 && d' > 0 && g * d' > 0
    ensures Ratio(g * n', g * d') == Ratio(n', d')
  {
    assert (g * n') as real == g as real * n' as real && (g * d') as real == g as real * d' as real;
    Cancel(g as real, n' as real, d' as real);
  }

  lemma AbsDivides(g: int, n: int, a: int)
    requires Divides(g, n) && (a == n || a == -n)
    ensures Divides(g, a)
  {
    DividesTimes(g, 0, 0);
    DividesCombine(g, 0, n, -1);
  }

  lemma Cancel(g: real, x: real, y: real)
    requires g != 0.0 && y != 0.0
    ensures (g * x) / (g * y) == x / y
  {}

  /** Truncation of a real toward zero. */
  ghost function Truncate(x: real): int {
    if x >= 0.0 then x.Floor else -((-x).Floor)
  }

  /** Toward zero: no farther from zero than x, and less than 1 away. */
  lemma TruncateMeans(x: real)
    ensures x >= 0.0 ==> 0.0 <= Truncate(x) as real <= x < Truncate(x) as real + 1.0
    ensures x <= 0.0 ==> Truncate(x) as real - 1.0 < x <= Truncate(x) as real <= 0.0
  {}

  /** mpz_set_q: the truncated quotient of numerator and denominator is the truncated value. */
  lemma QuotTruncates(n: int, d: int)
    requires d > 0
    ensures Quot(n, d) == Truncate(Ratio(n, d))
  {
    hide Ratio;
    FloorOfRatio(Abs(n), d);
    RatioOfMagnitude(n, d);
  }

  lemma RatioOfMagnitude(n: int, d: int)
    requires d > 0
    ensures Ratio(Abs(n), d) >= 0.0
    ensures Ratio(n, d) == if n < 0 then -Ratio(Abs(n), d) else Ratio(Abs(n), d)
    ensures n < 0 ==> Ratio(n, d) < 0.0
  {
    QuotientOfNegative(Abs(n) as real, d as real);
  }

  lemma QuotientOfNegative(x: real, y: real)
    requires x >= 0.0 && y > 0.0
    ensures x / y >= 0.0 && (-x) / y == -(x / y)
    ensures x > 0.0 ==> x / y > 0.0
  {}

  lemma FloorOfRatio(a: nat, d: int)
    requires d > 0
    ensures Ratio(a, d).Floor == a / d
  {
    var q, r := a / d, a % d;
    assert a == q * d + r;
    assert a as real == q as real * d as real + r as real;
    assert Ratio(a, d) == q as real + r as real / d as real;
    assert 0.0 <= r as real / d as real < 1.0;
  }
}
