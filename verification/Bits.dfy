/** Bitwise operations on natural numbers, and the arithmetic that masks and packed fields amount to. */
module Bits {
  import opened Arithmetic
  import opened Words

  function And(a: nat, b: nat): (r: nat)
    ensures r <= a && r <= b
  {
    if a == 0 || b == 0 then 0 else a % 2 * (b % 2) + 2 * And(a / 2, b / 2)
  }

  function Or(a: nat, b: nat): (r: nat)
    decreases a + b
  {
    if a == 0 then b else if b == 0 then a else (if a % 2 == 1 || b % 2 == 1 then 1 else 0) + 2 * Or(a / 2, b / 2)
  }

  /** A shift to the left in a 32-bit word. */
  function Shl(a: word, k: nat): word {
    a * Pow2(k) % 0x1_0000_0000
  }

  /** Masking k low bits is the remainder modulo two to the k. */
  lemma {:induction false} MaskIsRemainder(x: nat, k: nat)
    ensures And(x, Pow2(k) - 1) == x % Pow2(k)
  {
    hide And;
    AndZero(x);
    if k > 0 {
      var p := Pow2(k - 1);
      MaskIsRemainder(x / 2, k - 1);
      MaskStep(x, p);
      HalfRemainder(x, p);
    }
  }

  lemma AndZero(x: nat)
    ensures And(x, 0) == 0 && x % 1 == 0
  {
  }

  lemma MaskStep(x: nat, p: nat)
    requires p > 0
    ensures And(x, 2 * p - 1) == x % 2 + 2 * And(x / 2, p - 1)
  {
    HalfMask(p);
  }

  lemma HalfMask(p: nat)
    requires p > 0
    ensures (2 * p - 1) % 2 == 1 && (2 * p - 1) / 2 == p - 1
  {
  }

  lemma HalfRemainder(x: nat, p: nat)
    requires p > 0
    ensures x % (2 * p) == x % 2 + 2 * (x / 2 % p) && x / (2 * p) == x / 2 / p
  {
    var q, r := x / 2 / p, x / 2 % p;
    assert x / 2 == p * q + r;
    assert x == (2 * p) * q + (2 * r + x % 2);
    ModUnique(x, 2 * p, q, 2 * r + x % 2);
  }

  lemma {:induction false} OrCommutes(a: nat, b: nat)
    ensures Or(a, b) == Or(b, a)
    decreases a + b
  {
    if a > 0 && b > 0 {
      OrCommutes(a / 2, b / 2);
    }
  }

  /** Or with a field that lies below the lowest set bit is addition. */
  lemma {:induction false} OrIsSum(a: nat, b: nat, k: nat)
    requires b < Pow2(k)
    ensures Or(a * Pow2(k), b) == a * Pow2(k) + b
  {
    if a > 0 && b > 0 {
      var p := Pow2(k - 1);
      assert a * Pow2(k) == 2 * (a * p);
      OrIsSum(a, b / 2, k - 1);
      HalfProduct(a * p);
      assert a * Pow2(k) > 0;
    }
  }

  lemma HalfProduct(x: nat)
    ensures 2 * x % 2 == 0 && 2 * x / 2 == x
  {
  }
  /** The number of bits that are set. */
  function Ones(x: nat): nat {
    if x == 0 then 0 else x % 2 + Ones(x / 2)
  }

  lemma OnesStep(b: nat, y: nat)
    requires b < 2
    ensures Ones(b + 2 * y) == b + Ones(y)
  {
  }

  /** Counting below bit k + 1: the lowest bit, and those below bit k of the rest. */
  lemma OnesBelow(x: nat, k: nat)
    ensures Ones(x % Pow2(k + 1)) == x % 2 + Ones(x / 2 % Pow2(k))
    ensures x / Pow2(k + 1) == x / 2 / Pow2(k)
  {
    hide Ones;
    HalfRemainder(x, Pow2(k));
    OnesStep(x % 2, x / 2 % Pow2(k));
  }
}
