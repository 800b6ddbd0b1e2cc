/** Bits of unbounded integers. */
module Integers {

  function Pow2(n: nat): (p: nat)
    ensures p > 0
  {
    if n == 0 then 1 else 2 * Pow2(n - 1)
  }

  lemma {:induction false} Pow2Monotone(m: nat, n: nat)
    requires m <= n
    ensures Pow2(m) <= Pow2(n)
    decreases n - m
  {
    if m < n {
      Pow2Monotone(m, n - 1);
    }
  }

  lemma Pow2Fits(n: nat)
    requires n <= 15
    ensures Pow2(n) <= 0x8000
  {
    Pow2Monotone(n, 15);
    assert Pow2(10) == 1024;
  }

  /** The low `n` bits of `w`, most significant first. */
  function IntBits(w: nat, n: nat): (bits: seq<bool>)
    ensures |bits| == n
    decreases n
  {
    if n == 0 then [] else IntBits(w / 2, n - 1) + [w % 2 == 1]
  }

  lemma IntBitsSnoc(w: nat, n: nat, b: bool)
    ensures IntBits(2 * w + (if b then 1 else 0), n + 1) == IntBits(w, n) + [b]
  {
  }

  /** Bit `i` of `w`, counted from the least significant. */
  predicate IntBit(w: nat, i: nat)
    decreases i
  {
    if i == 0 then w % 2 == 1 else IntBit(w / 2, i - 1)
  }

  lemma {:induction false} IntBitsAt(w: nat, n: nat, k: nat)
    requires k < n
    ensures IntBits(w, n)[k] == IntBit(w, n - 1 - k)
    decreases n
  {
    if k < n - 1 {
      IntBitsAt(w / 2, n - 1, k);
    }
  }

  /** Bitwise or. */
  function Or(a: nat, b: nat): nat
    decreases a
  {
    if a == 0 then b else 2 * Or(a / 2, b / 2) + (if a % 2 == 1 || b % 2 == 1 then 1 else 0)
  }

  /** Or-ing a value into clear low bits adds it. */
  lemma {:induction false} OrDisjoint(a: nat, b: nat, n: nat)
    requires b < Pow2(n)
    ensures Or(a * Pow2(n), b) == a * Pow2(n) + b
    decreases n
  {
    if n == 0 {
      OrZero(a);
    } else if a == 0 {
    } else {
      var p := Pow2(n - 1);
      assert a * Pow2(n) == 2 * (a * p);
      OrDisjoint(a, b / 2, n - 1);
      assert a * p > 0;
    }
  }

  lemma {:induction false} OrZero(a: nat)
    ensures Or(a, 0) == a
  {
    if a != 0 {
      OrZero(a / 2);
    }
  }
}
