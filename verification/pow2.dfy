/** Powers of two and the capacity rule of both growable byte arrays:
    a buffer holding `x` bytes is given the least power of two that is
    strictly greater than `x`. */
module Pow2 {

  /** n is 2^k for some k >= 0. */
  predicate IsPow2(n: nat)
    decreases n
  {
    n == 1 || (n >= 2 && n % 2 == 0 && IsPow2(n / 2))
  }

  /** The least power of two strictly greater than x (so 0 maps to 1 and
      4 maps to 8). The third ensures is the "least" half: halving the
      result, if possible, no longer exceeds x. */
  function NextPow2(x: nat): (r: nat)
    ensures IsPow2(r)
    ensures x < r
    ensures r == 1 || r / 2 <= x
    decreases x
  {
    if x == 0 then 1 else 2 * NextPow2(x / 2)
  }

  /** Two distinct powers of two are at least a factor two apart. */
  lemma {:induction false} Pow2Gap(a: nat, b: nat)
    requires IsPow2(a) && IsPow2(b) && a < b
    ensures 2 * a <= b
    decreases a
  {
    if a != 1 {
      Pow2Gap(a / 2, b / 2);
    }
  }

  /** NextPow2(x) is below every power of two that exceeds x. */
  lemma NextPow2Least(x: nat, p: nat)
    requires IsPow2(p) && x < p
    ensures NextPow2(x) <= p
  {
    var r := NextPow2(x);
    if p < r {
      Pow2Gap(p, r);
    }
  }

  /** NextPow2 is the only power of two p with p / 2 <= x < p. */
  lemma NextPow2Unique(x: nat, p: nat)
    requires IsPow2(p) && x < p && (p == 1 || p / 2 <= x)
    ensures p == NextPow2(x)
  {
    NextPow2Least(x, p);
    var r := NextPow2(x);
    if r < p {
      Pow2Gap(r, p);
    }
  }

  /** A larger request never gets a smaller capacity. */
  lemma NextPow2Monotone(x: nat, y: nat)
    requires x <= y
    ensures NextPow2(x) <= NextPow2(y)
  {
    NextPow2Least(x, NextPow2(y));
  }

  /** 2^k, spelt out by doubling. */
  function Exp2(k: nat): (p: nat)
    ensures p >= 1
  {
    if k == 0 then 1 else 2 * Exp2(k - 1)
  }

  /** Exponents add when powers multiply. */
  lemma {:induction false} Exp2Add(a: nat, b: nat)
    ensures Exp2(a + b) == Exp2(a) * Exp2(b)
  {
    if a > 0 {
      Exp2Add(a - 1, b);
      assert Exp2(a + b) == 2 * Exp2(a - 1 + b);
    }
  }

  /** A larger exponent never gives a smaller power. */
  lemma {:induction false} Exp2Monotone(a: nat, b: nat)
    requires a <= b
    ensures Exp2(a) <= Exp2(b)
    decreases b
  {
    if a < b {
      Exp2Monotone(a, b - 1);
    }
  }

  /** The top bit of a 64-bit size_t. */
  lemma Exp2Of63()
    ensures Exp2(63) == 0x8000_0000_0000_0000
  {
    assert Exp2(1) == 2;
    assert Exp2(2) == 4;
    assert Exp2(3) == 8;
    assert Exp2(4) == 16;
    Exp2Add(4, 4);
    Exp2Add(8, 8);
    Exp2Add(16, 16);
    Exp2Add(32, 32);
    assert Exp2(64) == 2 * Exp2(63);
  }
}
