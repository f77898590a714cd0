/**
 Positional value of a limb vector, least significant limb first, in an
 arbitrary base b >= 2 (b is 2^GMP_NUMB_BITS in the library).
 */
module LimbValue {

  function Pow(b: nat, n: nat): nat {
    if n == 0 then 1 else b * Pow(b, n - 1)
  }

  function Val(s: seq<nat>, b: nat): nat {
    if s == [] then 0 else s[0] + b * Val(s[1..], b)
  }

  /** Every limb lies within the number mask. */
  predicate Limbs(s: seq<nat>, b: nat) {
    forall i | 0 <= i < |s| :: s[i] < b
  }

  lemma {:induction false} PowPositive(b: nat, n: nat)
    requires b >= 1
    ensures Pow(b, n) >= 1
  {
    if n > 0 { PowPositive(b, n - 1); }
  }

  /** The value of a vector split anywhere. */
  lemma {:induction false} ValConcat(s: seq<nat>, t: seq<nat>, b: nat)
    ensures Val(s + t, b) == Val(s, b) + Pow(b, |s|) * Val(t, b)
  {
    if s == [] {
      assert s + t == t;
    } else {
      assert (s + t)[1..] == s[1..] + t;
      ValConcat(s[1..], t, b);
      Distribute(b, Val(s[1..], b), Pow(b, |s| - 1), Val(t, b));
    }
  }

  lemma Distribute(b: int, u: int, p: int, v: int)
    ensures b * (u + p * v) == b * u + b * p * v
  {}

  lemma ValSnoc(s: seq<nat>, x: nat, b: nat)
    ensures Val(s + [x], b) == Val(s, b) + Pow(b, |s|) * x
  {
    ValConcat(s, [x], b);
    assert Val([x], b) == x by { assert [x][1..] == []; assert b * 0 == 0; }
  }

  lemma {:induction false} ValBound(s: seq<nat>, b: nat)
    requires Limbs(s, b)
    ensures Val(s, b) < Pow(b, |s|)
  {
    if s != [] {
      ValBound(s[1..], b);
      var v, p := Val(s[1..], b), Pow(b, |s| - 1);
      assert b * (v + 1) <= b * p by { MulMono(b, v + 1, p); }
      assert b * (v + 1) == b * v + b;
    }
  }

  lemma MulMono(k: nat, x: int, y: int)
    requires x <= y
    ensures k * x <= k * y
  {}

  /** Equal lengths and equal values force equal limbs. */
  lemma {:induction false} ValInjective(s: seq<nat>, t: seq<nat>, b: nat)
    requires Limbs(s, b) && Limbs(t, b) && |s| == |t|
    requires Val(s, b) == Val(t, b)
    ensures s == t
  {
    if s != [] {
      QuotientUnique(b, Val(s[1..], b), s[0], Val(t[1..], b), t[0]);
      ValInjective(s[1..], t[1..], b);
      assert s == [s[0]] + s[1..] && t == [t[0]] + t[1..];
    }
  }

  /** A quotient and a remainder below the divisor are determined by the dividend. */
  lemma QuotientUnique(b: nat, q: int, r: nat, q': int, r': nat)
    requires r < b && r' < b
    requires r + b * q == r' + b * q'
    ensures q == q' && r == r'
  {
    if q < q' {
      MulMono(b, q + 1, q');
      assert false;
    } else if q' < q {
      MulMono(b, q' + 1, q);
      assert false;
    }
  }

  /** A vector of value zero is all zeros, and conversely. */
  lemma {:induction false} ValZero(s: seq<nat>, b: nat)
    requires b >= 1
    ensures Val(s, b) == 0 <==> forall i | 0 <= i < |s| :: s[i] == 0
  {
    if s != [] {
      ValZero(s[1..], b);
      var t := s[1..];
      assert b * Val(t, b) == 0 <==> Val(t, b) == 0;
      if forall i | 0 <= i < |t| :: t[i] == 0 {
        assert s[0] == 0 ==> forall i | 0 < i < |s| :: s[i] == t[i - 1];
      } else {
        var i :| 0 <= i < |t| && t[i] != 0;
        assert s[i + 1] != 0;
      }
    }
  }
}
