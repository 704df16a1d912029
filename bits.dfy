/** Bitwise arithmetic on non-negative integers, as the simulator's C code uses
    it on `int` values that never go negative: `<<`, `>>`, `&`, `|` and `^`. */
module Bits {

  /** The value of one signal: the C code stores 0 or 1 in an `int`. */
  type Bit = x: nat | x <= 1

  /** 1 << k. */
  function Pow2(k: nat): (r: nat)
    ensures r >= 1
  {
    if k == 0 then 1 else 2 * Pow2(k - 1)
  }

  lemma {:induction false} Pow2Monotone(j: nat, k: nat)
    requires j < k
    ensures Pow2(j) < Pow2(k)
  {
    if j < k - 1 { Pow2Monotone(j, k - 1); }
  }

  /** Bitwise exclusive or `a ^ b`. */
  function Xor(a: nat, b: nat): nat
    decreases a + b
  {
    if a == 0 && b == 0 then 0
    else 2 * Xor(a / 2, b / 2) + (if a % 2 == b % 2 then 0 else 1)
  }

  /** Bitwise and `a & b`: never larger than either operand. */
  function And(a: nat, b: nat): (r: nat)
    ensures r <= a && r <= b
    decreases a + b
  {
    if a == 0 || b == 0 then 0
    else 2 * And(a / 2, b / 2) + (if a % 2 == 1 && b % 2 == 1 then 1 else 0)
  }

  /** Bitwise or `a | b`. */
  function Or(a: nat, b: nat): nat
    decreases a + b
  {
    if a == 0 && b == 0 then 0
    else 2 * Or(a / 2, b / 2) + (if a % 2 == 1 || b % 2 == 1 then 1 else 0)
  }

  /** `(x >> j) & 1`: bit j of x. */
  function BitAt(x: nat, j: nat): Bit
  {
    if j == 0 then x % 2 else BitAt(x / 2, j - 1)
  }

  /** The defining equation of Xor also holds when both operands are 0. */
  lemma XorUnfold(a: nat, b: nat)
    ensures Xor(a, b) == 2 * Xor(a / 2, b / 2) + (if a % 2 == b % 2 then 0 else 1)
  {
  }

  lemma XorHalf(a: nat, b: nat)
    ensures Xor(a, b) / 2 == Xor(a / 2, b / 2)
    ensures Xor(a, b) % 2 == (if a % 2 == b % 2 then 0 else 1)
  {
    XorUnfold(a, b);
  }

  lemma {:induction false} XorZero(a: nat)
    ensures Xor(a, 0) == a
    decreases a
  {
    if a != 0 { XorZero(a / 2); }
  }

  lemma {:induction false} XorSelf(a: nat)
    ensures Xor(a, a) == 0
    decreases a
  {
    if a != 0 { XorSelf(a / 2); }
  }

  lemma {:induction false} XorComm(a: nat, b: nat)
    ensures Xor(a, b) == Xor(b, a)
    decreases a + b
  {
    if a != 0 || b != 0 { XorComm(a / 2, b / 2); }
  }

  lemma {:induction false} XorAssoc(a: nat, b: nat, c: nat)
    ensures Xor(Xor(a, b), c) == Xor(a, Xor(b, c))
    decreases a + b + c
  {
    if a != 0 || b != 0 || c != 0 {
      XorAssoc(a / 2, b / 2, c / 2);
      XorHalf(a, b);
      XorHalf(b, c);
      XorUnfold(Xor(a, b), c);
      XorUnfold(a, Xor(b, c));
    }
  }

  /** x ^ y ^ y == x. */
  lemma XorCancel(x: nat, y: nat)
    ensures Xor(Xor(x, y), y) == x
  {
    XorAssoc(x, y, y);
    XorSelf(y);
    XorZero(x);
  }

  /** Xor of two n-bit numbers is an n-bit number. */
  lemma {:induction false} XorBound(a: nat, b: nat, n: nat)
    requires a < Pow2(n) && b < Pow2(n)
    ensures Xor(a, b) < Pow2(n)
    decreases n
  {
    if n == 0 {
      assert a == 0 && b == 0;
    } else {
      XorBound(a / 2, b / 2, n - 1);
      XorUnfold(a, b);
    }
  }

  lemma {:induction false} BitAtXor(a: nat, b: nat, j: nat)
    ensures BitAt(Xor(a, b), j) == (if BitAt(a, j) == BitAt(b, j) then 0 else 1)
    decreases j
  {
    XorHalf(a, b);
    if j > 0 { BitAtXor(a / 2, b / 2, j - 1); }
  }

  lemma {:induction false} BitAtPow2(k: nat, j: nat)
    ensures BitAt(Pow2(k), j) == (if j == k then 1 else 0)
    decreases j
  {
    if j == 0 {
      if k > 0 { assert Pow2(k) == 2 * Pow2(k - 1); }
    } else if k == 0 {
      BitAtZero(j - 1);
    } else {
      BitAtPow2(k - 1, j - 1);
    }
  }

  lemma {:induction false} BitAtZero(j: nat)
    ensures BitAt(0, j) == 0
    decreases j
  {
    if j > 0 { BitAtZero(j - 1); }
  }
}
