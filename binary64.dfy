/** Rounding a non-negative whole number to the nearest IEEE 754 binary64 value, with ties
    going to the even neighbour (roundTiesToEven, section 4.3.1 of IEEE 754-2008). A binary64
    significand has 53 bits, so around x the representable values are the multiples of a
    power of two that grows with x. Magnitudes near the overflow threshold are not covered. */
module Binary64 {
  /** 2^53: every whole number below it is a binary64 value. */
  const SignificandLimit: nat := 0x20_0000_0000_0000

  function Pow2(k: nat): (p: nat)
    ensures p >= 1
  {
    if k == 0 then 1 else 2 * Pow2(k - 1)
  }

  lemma Pow2Values()
    ensures Pow2(7) == 128 && Pow2(8) == 256 && Pow2(9) == 512
    ensures Pow2(52) * 2 == SignificandLimit
  {
    assert Pow2(13) == 8192;
    Pow2Split(13, 26);
    Pow2Split(26, 52);
  }

  /** Powers of two multiply by adding exponents. */
  lemma {:induction false} Pow2Split(e: nat, k: nat)
    requires e <= k
    ensures Pow2(k) == Pow2(e) * Pow2(k - e)
  {
    if e < k {
      Pow2Split(e, k - 1);
    }
  }

  /** Quotient and remainder are the only ones: a * u + b with 0 <= b < u divides as a, b. */
  lemma DivModUnique(m: int, u: int, a: int, b: int)
    requires 0 < u && 0 <= b < u && m == a * u + b
    ensures m / u == a && m % u == b
  {
    var a', b' := m / u, m % u;
    assert m == a' * u + b';
    assert (a - a') * u == b' - b;
    if a > a' {
      MulAtLeast(a - a', u);
    } else if a < a' {
      MulAtLeast(a' - a, u);
    }
  }

  lemma MulAtLeast(d: int, u: int)
    requires 1 <= d && 0 < u
    ensures u <= d * u
  {
    assert d * u == (d - 1) * u + u;
  }

  /** The exponent e of the gap 2^e between neighbouring binary64 values around x. */
  function SpacingExponent(x: nat): nat
    decreases x
  {
    if x < SignificandLimit then 0 else 1 + SpacingExponent(x / 2)
  }

  function Spacing(x: nat): (u: nat)
    ensures u >= 1
  {
    Pow2(SpacingExponent(x))
  }

  /** x rounded to the nearest multiple of u; a tie goes to the even multiple. */
  function RoundToMultiple(x: nat, u: nat): (r: nat)
    requires 1 <= u
    ensures r % u == 0
    ensures x - u / 2 <= r <= x + u / 2
    ensures 2 * (x % u) == u ==> r / u % 2 == 0
    ensures x % u == 0 ==> r == x
  {
    if 2 * (x % u) < u || (2 * (x % u) == u && (x / u) % 2 == 0) then RoundDown(x, u)
    else RoundUp(x, u)
  }

  /** The largest multiple of u not above x. */
  function RoundDown(x: nat, u: nat): (r: nat)
    requires 1 <= u
    ensures r % u == 0 && r / u == x / u && x - r == x % u
  {
    DivModUnique(x / u * u, u, x / u, 0);
    x / u * u
  }

  /** The smallest multiple of u above x. */
  function RoundUp(x: nat, u: nat): (r: nat)
    requires 1 <= u
    ensures r % u == 0 && r / u == x / u + 1 && r - x == u - x % u
  {
    DivModUnique((x / u + 1) * u, u, x / u + 1, 0);
    assert (x / u + 1) * u == x / u * u + u;
    (x / u + 1) * u
  }

  /** x rounded to the nearest binary64 value. */
  function RoundToDouble(x: nat): (r: nat)
    ensures r % Spacing(x) == 0
    ensures x - Spacing(x) / 2 <= r <= x + Spacing(x) / 2
    ensures x % Spacing(x) == 0 ==> r == x
  {
    RoundToMultiple(x, Spacing(x))
  }

  /** Below 2^53 * 2^k the spacing is at most 2^k. */
  lemma {:induction false} SpacingBelow(x: nat, k: nat)
    requires x < SignificandLimit * Pow2(k)
    ensures SpacingExponent(x) <= k
  {
    if x >= SignificandLimit {
      assert k > 0;
      SpacingBelow(x / 2, k - 1);
    }
  }

  /** From 2^53 * 2^k on the spacing is at least 2^(k + 1). */
  lemma {:induction false} SpacingAbove(x: nat, k: nat)
    requires SignificandLimit * Pow2(k) <= x
    ensures k + 1 <= SpacingExponent(x)
  {
    if k > 0 {
      SpacingAbove(x / 2, k - 1);
    }
  }

  /** From 2^53 on the spacing is at most x / 2^52. */
  lemma {:induction false} SpacingRelative(x: nat)
    requires SignificandLimit <= x
    ensures Spacing(x) * Pow2(52) <= x
  {
    Pow2Values();
    if x / 2 >= SignificandLimit {
      SpacingRelative(x / 2);
      assert Spacing(x) == 2 * Spacing(x / 2);
    } else {
      assert Spacing(x) == 2;
    }
  }

  /** A multiple of 2^k below 2^53 * 2^k is a binary64 value. */
  lemma ExactWhenMultiple(x: nat, k: nat)
    requires x < SignificandLimit * Pow2(k) && x % Pow2(k) == 0
    ensures RoundToDouble(x) == x
  {
    SpacingBelow(x, k);
    var e := SpacingExponent(x);
    Pow2Split(e, k);
    MultipleOfFactor(x, Pow2(k), Pow2(e), Pow2(k - e));
  }

  /** Below 2^53 * 2^k the rounding moves x by at most 2^(k - 1). */
  lemma RoundNear(x: nat, k: nat)
    requires x < SignificandLimit * Pow2(k)
    ensures x - Pow2(k) / 2 <= RoundToDouble(x) <= x + Pow2(k) / 2
  {
    SpacingBelow(x, k);
    var e := SpacingExponent(x);
    Pow2Split(e, k);
    HalfOfFactor(Pow2(k), Pow2(e), Pow2(k - e));
  }

  /** A multiple of p = a * b is a multiple of a. */
  lemma MultipleOfFactor(x: nat, p: nat, a: nat, b: nat)
    requires 1 <= a && 1 <= b && p == a * b && x % p == 0
    ensures x % a == 0
  {
    var c := x / p;
    assert x == c * p;
    assert c * (a * b) == a * (b * c);
    DivModUnique(x, a, b * c, 0);
  }

  /** Half of a factor is at most half of the product. */
  lemma HalfOfFactor(p: nat, a: nat, b: nat)
    requires 1 <= a && 1 <= b && p == a * b
    ensures a / 2 <= p / 2
  {
    MulAtLeast(b, a);
  }

  /** From 2^53 on the rounding moves x by at most x / 2^53. */
  lemma RoundRelative(x: nat)
    requires SignificandLimit <= x
    ensures (x - RoundToDouble(x)) * SignificandLimit <= x
    ensures (RoundToDouble(x) - x) * SignificandLimit <= x
  {
    SpacingRelative(x);
    Pow2Values();
  }
}
