/**
 The mpz representation: a signed limb count and a limb pointer.  Models the
 word conversions of gmpxx.h and the mpz inlines of gmp-32.h, in the plain
 layout (nails == 1) and in the two-limb nails layout (nails >= 2).
 A machine word holds b * nails values.
 */
module MpzStruct {
  import opened Basics
  import opened LimbValue
  import opened MpnInlines

  /** A snapshot of an mpz: limbs at and above |size| carry no meaning. */
  datatype Num = Num(size: int, d: seq<nat>) {
    /** In bounds, at least one limb allocated, every limb in range, top limb nonzero. */
    predicate Normal(b: nat) {
      && |d| >= 1
      && Abs(size) <= |d|
      && Limbs(d[..Abs(size)], b)
      && (size != 0 ==> d[Abs(size) - 1] != 0)
    }

    function Value(b: nat): int
      requires Abs(size) <= |d|
    {
      var v: int := Val(d[..Abs(size)], b);
      if size >= 0 then v else -v
    }
  }

  /** A normalised vector of n limbs lies between b^(n-1) and b^n. */
  lemma SizeBounds(s: seq<nat>, b: nat)
    requires b >= 2 && s != [] && Limbs(s, b) && s[|s| - 1] != 0
    ensures Pow(b, |s| - 1) <= Val(s, b) < Pow(b, |s|)
  {
    var n := |s| - 1;
    ValBound(s, b);
    assert s == s[..n] + [s[n]];
    ValSnoc(s[..n], s[n], b);
    MulMono(Pow(b, n), 1, s[n]);
  }

  lemma {:induction false} PowMono(b: nat, m: nat, n: nat)
    requires b >= 1 && m <= n
    ensures Pow(b, m) <= Pow(b, n)
  {
    if m < n {
      PowMono(b, m, n - 1);
      MulMono(Pow(b, n - 1), 1, b);
    }
  }

  lemma TwoLimbs(z: Num, b: nat)
    requires b >= 2 && z.Normal(b)
    ensures z.size == 0 ==> z.Value(b) == 0
    ensures z.size == 1 ==> 1 <= z.d[0] < b && z.Value(b) == z.d[0]
    ensures z.size == 2 ==> z.d[0] < b && 1 <= z.d[1] < b && z.Value(b) == z.d[0] + b * z.d[1]
    ensures z.size >= 3 ==> z.Value(b) >= b * b
    ensures z.size < 0 ==> z.Value(b) < 0
  {
    if z.size == 1 {
      assert z.d[..1] == [z.d[0]];
      ValSingle(z.d[0], b);
    } else if z.size == 2 {
      assert z.d[..2][1] < b;
      assert z.d[..2] == [z.d[0]] + [z.d[1]];
      ValSnoc([z.d[0]], z.d[1], b);
      ValSingle(z.d[0], b);
    } else if z.size >= 3 {
      SizeBounds(z.d[..z.size], b);
      PowMono(b, 2, z.size - 1);
      assert Pow(b, 2) == b * Pow(b, 1) && Pow(b, 1) == b * Pow(b, 0);
    } else if z.size < 0 {
      SizeBounds(z.d[..-z.size], b);
      PowPositive(b, -z.size - 1);
    }
  }

  /** __GMPZ_FITS_UTYPE_P. */
  predicate FitsUtype(z: Num, maxval: nat, b: nat, nails: nat)
    requires b >= 2 && z.Normal(b)
  {
    || z.size == 0
    || (z.size == 1 && z.d[0] <= maxval)
    || (nails >= 2 && z.size == 2 && z.d[1] <= maxval / b)
  }

  /** The maxima for which the test is exact. */
  predicate ExactMax(maxval: nat, b: nat, nails: nat)
    requires b >= 2
  {
    maxval < b || (nails >= 2 && (maxval + 1) % b == 0 && maxval < b * b)
  }

  lemma TwoLimbTest(d0: nat, d1: nat, maxval: nat, b: nat)
    requires b >= 2 && d0 < b && (maxval + 1) % b == 0
    ensures d1 <= maxval / b <==> d0 + b * d1 <= maxval
  {
    var q := (maxval + 1) / b;
    assert maxval + 1 == b * q;
    assert b * (q - 1) == b * q - b;
    DivModOf(maxval, b, q - 1, b - 1);
    if d1 <= q - 1 { MulMono(b, d1, q - 1); } else { MulMono(b, q, d1); }
  }

  /** A number the test gets wrong whenever the maximum is not one of ExactMax. */
  function Misjudged(maxval: nat, b: nat, nails: nat): Num
    requires b >= 2
  {
    if nails < 2 then Num(2, [0, 1])
    else if maxval >= b * b then Num(3, [0, 0, 1])
    else Num(2, [b - 1, maxval / b])
  }

  lemma MisjudgedIsWrong(maxval: nat, b: nat, nails: nat)
    requires b >= 2 && !ExactMax(maxval, b, nails)
    ensures var z := Misjudged(maxval, b, nails);
            z.Normal(b) && FitsUtype(z, maxval, b, nails) != (0 <= z.Value(b) <= maxval)
  {
    var z := Misjudged(maxval, b, nails);
    assert maxval == b * (maxval / b) + maxval % b;
    if nails < 2 {
      assert z.d[..2] == [0, 1];
      assert Limbs(z.d[..2], b);
      TwoLimbs(z, b);
    } else if maxval >= b * b {
      assert z.d[..3] == [0] + [0] + [1];
      ValSnoc([0] + [0], 1, b);
      ValSnoc([0], 0, b);
      ValSingle(0, b);
      assert Pow(b, 2) == b * Pow(b, 1) && Pow(b, 1) == b * Pow(b, 0);
    } else {
      MisjudgedTop(maxval, b);
      assert z.d[..2] == z.d;
      assert z.Normal(b);
      TwoLimbs(z, b);
    }
  }

  lemma MisjudgedTop(maxval: nat, b: nat)
    requires b >= 2 && b <= maxval < b * b && (maxval + 1) % b != 0
    ensures 1 <= maxval / b < b && b - 1 + b * (maxval / b) > maxval
  {
    var q, r := maxval / b, maxval % b;
    assert maxval == b * q + r;
    if q >= b { MulMono(b, b, q); assert false; }
    if r == b - 1 {
      assert b * (q + 1) == b * q + b;
      DivModOf(maxval + 1, b, q + 1, 0);
      assert false;
    }
  }

  /**
   mpz_fits_uXXX_p answers 0 <= z <= maxval for every normalised z if and only if
   maxval fits a limb, or nails are present and maxval + 1 is a whole number of
   limbs below b^2.
   */
  lemma FitsExactlyWhen(maxval: nat, b: nat, nails: nat)
    requires b >= 2
    ensures (forall z: Num | z.Normal(b) :: FitsUtype(z, maxval, b, nails) <==> 0 <= z.Value(b) <= maxval)
            <==> maxval < b || (nails >= 2 && (maxval + 1) % b == 0 && maxval < b * b)
  {
    if ExactMax(maxval, b, nails) {
      forall z: Num | z.Normal(b) ensures FitsUtype(z, maxval, b, nails) <==> 0 <= z.Value(b) <= maxval {
        FitsOne(z, maxval, b, nails);
      }
    } else {
      MisjudgedIsWrong(maxval, b, nails);
    }
  }

  lemma FitsOne(z: Num, maxval: nat, b: nat, nails: nat)
    requires b >= 2 && z.Normal(b) && ExactMax(maxval, b, nails)
    ensures FitsUtype(z, maxval, b, nails) <==> 0 <= z.Value(b) <= maxval
  {
    TwoLimbs(z, b);
    if z.size == 2 {
      if maxval < b {
        MulMono(b, 1, z.d[1]);
        DivModOf(maxval, b, 0, maxval);
      } else {
        TwoLimbTest(z.d[0], z.d[1], maxval, b);
      }
    } else if z.size >= 3 {
      MulMono(b, 1, b);
    }
  }

  /** For the largest word the test is exact precisely when two limbs cover a word. */
  lemma FitsUlongExactlyWhen(ulongMax: nat, b: nat, nails: nat)
    requires b >= 2 && nails >= 1 && ulongMax + 1 == b * nails
    ensures (forall z: Num | z.Normal(b) :: FitsUtype(z, ulongMax, b, nails) <==> 0 <= z.Value(b) <= ulongMax)
            <==> nails <= b
  {
    FitsExactlyWhen(ulongMax, b, nails);
    DivModOf(b * nails, b, nails, 0);
    if nails <= b { MulMono(b, nails, b); } else { MulMono(b, b + 1, nails); }
  }

  /** mpz_get_ui.  Shifts and sums wrap at the word. */
  function GetUi(z: Num, b: nat, nails: nat): nat
    requires b >= 2 && nails >= 1 && z.Normal(b)
  {
    MulAtLeast(b, nails);
    var word := b * nails;
    if nails == 1 then
      if z.size != 0 then z.d[0] else 0
    else if Abs(z.size) <= 1 then
      if z.size != 0 then z.d[0] else 0
    else
      Wrap(z.d[0] + Wrap(z.d[1] * b, word), word)
  }

  lemma {:induction false} AbsValue(z: Num, b: nat)
    requires z.Normal(b)
    ensures Abs(z.Value(b)) == Val(z.d[..Abs(z.size)], b)
  {}

  lemma ModOfSum(m: nat, x: int, k: int, t: int)
    requires m > 0 && x == t + m * k
    ensures x % m == t % m
  {
    assert t == m * (t / m) + t % m;
    assert m * (t / m) + m * k == m * (t / m + k);
    DivModOf(x, m, t / m + k, t % m);
  }

  /** For every number, of either sign and any length, mpz_get_ui yields |z| modulo the word. */
  lemma GetUiIsLowWord(z: Num, b: nat, nails: nat)
    requires b >= 2 && nails >= 1 && b % nails == 0 && z.Normal(b)
    ensures b * nails > 0
    ensures GetUi(z, b, nails) == Abs(z.Value(b)) % (b * nails)
  {
    MulAtLeast(b, nails);
    AbsValue(z, b);
    var word, s := b * nails, z.d[..Abs(z.size)];
    if |s| == 0 {
      DivModOf(0, word, 0, 0);
    } else if |s| == 1 || nails == 1 {
      assert s == [s[0]] + s[1..];
      assert Val(s, b) == s[0] + b * Val(s[1..], b);
      if |s| == 1 {
        assert Val(s[1..], b) == 0;
        DivModOf(s[0], word, 0, s[0]);
      } else {
        DivModOf(Val(s, b), b, Val(s[1..], b), s[0]);
      }
    } else {
      LowWordOfTwo(s, b, nails);
      assert s[0] == z.d[0] && s[1] == z.d[1];
    }
  }

  lemma LowWordOfTwo(s: seq<nat>, b: nat, nails: nat)
    requires b >= 2 && nails >= 1 && b % nails == 0 && |s| >= 2
    ensures b * nails > 0
    ensures var word := b * nails; Val(s, b) % word == Wrap(s[0] + Wrap(s[1] * b, word), word)
  {
    hide Val;
    MulAtLeast(b, nails);
    LowTwo(s, b);
    WordOfTwo(Val(s, b), s[0], s[1], Val(s[2..], b), b, nails);
  }

  lemma WordOfTwo(v: nat, lo: nat, hi: nat, t: nat, b: nat, nails: nat)
    requires nails >= 1 && b % nails == 0 && b * nails > 0 && v == lo + b * (hi + b * t)
    ensures v % (b * nails) == Wrap(lo + Wrap(hi * b, b * nails), b * nails)
  {
    var k := b / nails;
    assert b == nails * k;
    BlockOfWord(b, nails, k, hi, t);
    assert hi * b == b * hi;
    LowWord(v, b * nails, lo, b * hi, k * t);
  }

  lemma LowWord(v: int, word: nat, lo: nat, hi: nat, u: nat)
    requires word > 0 && v == lo + (hi + word * u)
    ensures v % word == (lo + hi % word) % word
  {
    ModOfSum(word, v, u, lo + hi);
    ModOfShift(word, lo, hi);
  }

  lemma LowTwo(s: seq<nat>, b: nat)
    requires |s| >= 2
    ensures Val(s, b) == s[0] + b * (s[1] + b * Val(s[2..], b))
  {
    assert s[1..][1..] == s[2..];
  }

  lemma ModOfShift(word: nat, x: nat, y: nat)
    requires word > 0
    ensures (x + y) % word == (x + y % word) % word
  {
    assert y == word * (y / word) + y % word;
    ModOfSum(word, x + y, y / word, x + y % word);
  }

  lemma BlockOfWord(b: nat, nails: nat, k: nat, s1: nat, t: nat)
    requires b == nails * k
    ensures b * (s1 + b * t) == b * s1 + (b * nails) * (k * t)
  {
    assert b * (s1 + b * t) == b * s1 + b * (b * t);
    assert b * (b * t) == b * ((nails * k) * t);
    assert (nails * k) * t == nails * (k * t);
    assert b * (nails * (k * t)) == (b * nails) * (k * t);
  }

  /** The number b^2, one limb more than mpz_get_ui looks at. */
  function Square(): Num {
    Num(3, [0, 0, 1])
  }

  /** mpz_get_ui is |z| modulo the word for every number if and only if the nail factor divides the limb base. */
  lemma LowWordExactlyWhen(b: nat, nails: nat)
    requires b >= 2 && nails >= 1
    ensures b * nails > 0
    ensures (forall z: Num | z.Normal(b) :: GetUi(z, b, nails) == Abs(z.Value(b)) % (b * nails)) <==> b % nails == 0
  {
    MulAtLeast(b, nails);
    if b % nails == 0 {
      forall z: Num | z.Normal(b) ensures GetUi(z, b, nails) == Abs(z.Value(b)) % (b * nails) {
        GetUiIsLowWord(z, b, nails);
      }
    } else {
      SquareMisread(b, nails);
    }
  }

  lemma SquareMisread(b: nat, nails: nat)
    requires b >= 2 && nails >= 1 && b % nails != 0
    ensures b * nails > 0
    ensures Square().Normal(b) && GetUi(Square(), b, nails) != Abs(Square().Value(b)) % (b * nails)
  {
    hide Val, Pow;
    SquareValue(b);
    SquareModWord(b, nails);
    assert Square().Normal(b) && Abs(Square().Value(b)) == b * b;
    DivModOf(0, b * nails, 0, 0);
    assert GetUi(Square(), b, nails) == 0;
  }

  lemma SquareModWord(b: nat, nails: nat)
    requires b >= 2 && nails >= 1 && b % nails != 0
    ensures b * nails > 0 && (b * b) % (b * nails) != 0
  {
    MulAtLeast(b, nails);
    var q, r := b / nails, b % nails;
    assert b == nails * q + r;
    MulMono(b, r + 1, nails);
    MulMono(b, 1, r);
    Distribute(b, r, nails, q);
    DivModOf(b * b, b * nails, q, b * r);
  }

  lemma SquareValue(b: nat)
    requires b >= 2
    ensures Square().Normal(b) && Square().Value(b) == b * b
  {
    assert Square().d[..3] == [0] + [0] + [1];
    ValSnoc([0] + [0], 1, b);
    ValSnoc([0], 0, b);
    ValSingle(0, b);
    assert Pow(b, 2) == b * Pow(b, 1) && Pow(b, 1) == b * Pow(b, 0);
  }

  /** When the number fits a word, mpz_get_ui returns it. */
  lemma GetUiExact(z: Num, b: nat, nails: nat)
    requires b >= 2 && 1 <= nails <= b && z.Normal(b)
    requires 0 <= z.Value(b) < b * nails
    ensures GetUi(z, b, nails) == z.Value(b)
  {
    TwoLimbs(z, b);
    MulMono(b, nails, b);
    MulAtLeast(b, nails);
    if z.size == 2 {
      if nails == 1 { MulMono(b, 1, z.d[1]); }
      TwoLimbWord(z.d[0], z.d[1], b, b * nails);
    }
  }

  lemma TwoLimbWord(lo: nat, hi: nat, b: nat, word: nat)
    requires lo + b * hi < word
    ensures Wrap(lo + Wrap(hi * b, word), word) == lo + b * hi
  {
    var h := b * hi;
    assert hi * b == h;
    DivModOf(h, word, 0, h);
    DivModOf(lo + h, word, 0, lo + h);
  }

  class Mpz {
    var size: int
    var d: array<nat>

    constructor (alloc: nat)
      requires alloc >= 1
      ensures size == 0 && fresh(d) && d.Length == alloc
    {
      size := 0;
      d := new nat[alloc];
    }

    function View(): Num
      reads this, d
    {
      Num(size, d[..])
    }

    /** mpz_set: grows the destination when it is too small. */
    method Set(u: Mpz, b: nat)
      requires u.View().Normal(b) && d.Length >= 1 && (this != u ==> d != u.d)
      modifies this, d
      ensures View().Normal(b) && View().Value(b) == old(u.View().Value(b))
      ensures d == old(d) || fresh(d)
    {
      var n := Abs(u.size);
      if this != u {
        if d.Length < n {
          d := new nat[n];
        }
        var i := 0;
        while i < n
          invariant 0 <= i <= n <= d.Length && d.Length >= 1 && d != u.d && (d == old(d) || fresh(d))
          invariant u.d == old(u.d) && u.size == old(u.size) && u.d[..] == old(u.d[..])
          invariant forall k | 0 <= k < i :: d[k] == u.d[k]
        {
          d[i] := u.d[i];
          i := i + 1;
        }
        size := u.size;
        assert d[..][..n] == u.d[..][..n];
      }
    }

    /** mpz_neg. */
    method Neg(u: Mpz, b: nat)
      requires u.View().Normal(b) && d.Length >= 1 && (this != u ==> d != u.d)
      modifies this, d
      ensures View().Normal(b) && View().Value(b) == -old(u.View().Value(b))
      ensures d == old(d) || fresh(d)
    {
      if this != u {
        Set(u, b);
      }
      size := -size;
    }

    /** mpz_abs. */
    method AbsOf(u: Mpz, b: nat)
      requires u.View().Normal(b) && d.Length >= 1 && (this != u ==> d != u.d)
      modifies this, d
      ensures View().Normal(b) && View().Value(b) == old(Abs(u.View().Value(b)))
      ensures d == old(d) || fresh(d)
    {
      if this != u {
        Set(u, b);
      }
      size := Abs(size);
    }

    /** __mpz_set_ui_safe: one limb, or two with nails; nothing is allocated. */
    method SetUiSafe(l: nat, b: nat, nails: nat)
      requires b >= 2 && 1 <= nails <= b && l < b * nails
      requires d.Length >= (if nails == 1 then 1 else 2)
      modifies this`size, d
      ensures View().Normal(b) && View().Value(b) == l
    {
      size := Bit(l != 0);
      d[0] := l % b;
      if nails >= 2 {
        var hi := l / b;
        d[1] := hi;
        size := size + Bit(hi != 0);
      }
      SafeNumber(View(), l, b, nails);
    }

    /** __mpz_set_si_safe: the most negative word is handled by unsigned negation. */
    method SetSiSafe(l: int, b: nat, nails: nat)
      requires b >= 2 && 1 <= nails <= b && (b * nails) % 2 == 0 && -(b * nails / 2) <= l < b * nails / 2
      requires d.Length >= (if nails == 1 then 1 else 2)
      modifies this`size, d
      ensures View().Normal(b) && View().Value(b) == l
    {
      var word := b * nails;
      if l < 0 {
        var unsigned: int := Wrap(l, word);
        DivModOf(l, word, -1, word + l);
        DivModOf(-unsigned, word, -1, -l);
        SetUiSafe(Wrap(-unsigned, word), b, nails);
        size := -size;
      } else {
        SetUiSafe(l, b, nails);
      }
    }
  }

  /** The fields that __mpz_set_ui_safe stores form the normalised number l. */
  lemma SafeNumber(z: Num, l: nat, b: nat, nails: nat)
    requires b >= 2 && 1 <= nails <= b && l < b * nails
    requires |z.d| >= (if nails == 1 then 1 else 2)
    requires z.d[0] == l % b && (nails >= 2 ==> z.d[1] == l / b)
    requires z.size == Bit(l != 0) + (if nails >= 2 then Bit(l / b != 0) else 0)
    ensures z.Normal(b) && z.Value(b) == l
  {
    TwoDigits(l, b, nails);
    assert nails == 1 ==> l / b == 0;
    if l / b != 0 {
      assert z.d[..2] == [z.d[0], z.d[1]];
    } else if l != 0 {
      assert z.d[..1] == [z.d[0]];
    }
    assert z.Normal(b);
    TwoLimbs(z, b);
  }

  lemma TwoDigits(l: nat, b: nat, nails: nat)
    requires b >= 2 && l < b * nails
    ensures l / b < nails && l == l % b + b * (l / b)
    ensures l == 0 ==> l / b == 0
  {
    assert l == b * (l / b) + l % b;
    if l / b >= nails { MulMono(b, nails, l / b); }
    if l == 0 { DivModOf(0, b, 0, 0); }
  }

  /** get_ui undoes set_ui: an unsigned word survives the trip through an mpz, in either layout. */
  method SetThenGet(l: nat, b: nat, nails: nat) returns (fits: bool, r: nat)
    requires b >= 2 && 1 <= nails <= b && l < b * nails
    ensures fits && r == l
  {
    var p := new Mpz(2);
    p.SetUiSafe(l, b, nails);
    MulAtLeast(b, nails);
    FitsUlongExactlyWhen(b * nails - 1, b, nails);
    GetUiExact(p.View(), b, nails);
    fits := FitsUtype(p.View(), b * nails - 1, b, nails);
    r := GetUi(p.View(), b, nails);
  }
}
