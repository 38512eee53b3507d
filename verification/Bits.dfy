/** Bitwise operators on naturals, and the two facts that turn masks and shifts into
    remainders and sums. */
module Bits {

  function Pow2(k: nat): (r: nat)
    ensures r >= 1
  {
    if k == 0 then 1 else 2 * Pow2(k - 1)
  }

  function Shl(x: nat, k: nat): nat { x * Pow2(k) }

  function Shr(x: nat, k: nat): nat {
    if k == 0 then x else Shr(x, k - 1) / 2
  }

  function And(x: nat, y: nat): nat {
    if x == 0 || y == 0 then 0
    else (if x % 2 == 1 && y % 2 == 1 then 1 else 0) + 2 * And(x / 2, y / 2)
  }

  function Or(x: nat, y: nat): nat {
    if x == 0 then y
    else if y == 0 then x
    else (if x % 2 == 1 || y % 2 == 1 then 1 else 0) + 2 * Or(x / 2, y / 2)
  }

  lemma RemainderOfDouble(x: nat, p: nat)
    requires p >= 1
    ensures x % (2 * p) == x % 2 + 2 * (x / 2 % p)
  {
    var q, a := x / 2, x / 2 / p;
    var low := x % 2 + 2 * (q % p);
    assert q == p * a + q % p;
    assert x == 2 * p * a + low by {
      assert 2 * (p * a) == 2 * p * a;
    }
    RemainderUnique(x, 2 * p, a, low);
  }

  lemma AtLeastOnce(m: int, n: int)
    requires m >= 0 && n >= 1
    ensures m * n >= m
  {
  }

  lemma SmallMultiple(m: int, e: int)
    requires m >= 0 && -m < m * e < m
    ensures e == 0
  {
    if e >= 1 {
      AtLeastOnce(m, e);
    } else if e <= -1 {
      AtLeastOnce(m, -e);
    }
  }

  lemma RemainderUnique(x: nat, m: nat, a: nat, low: nat)
    requires m >= 1 && x == m * a + low && low < m
    ensures x % m == low && x / m == a
  {
    var d := x / m;
    assert m * (a - d) == m * a - m * d == x % m - low;
    SmallMultiple(m, a - d);
  }

  /** The part of a number below p. */
  function Low(x: nat, p: nat): (r: nat)
    requires p >= 1
  {
    x % p
  }

  lemma LowOfDouble(x: nat, p: nat)
    requires p >= 1
    ensures Low(x, 2 * p) == x % 2 + 2 * Low(x / 2, p)
  {
    RemainderOfDouble(x, p);
  }

  lemma {:induction false} AndLow(x: nat, k: nat)
    ensures And(x, Pow2(k) - 1) == Low(x, Pow2(k))
    decreases k
  {
    hide *;
    if k == 0 {
      MaskNothing(x);
    } else if x == 0 {
      NothingMasked(Pow2(k));
    } else {
      var p := Pow2(k - 1);
      AndLow(x / 2, k - 1);
      Doubles(k);
      AndStep(x, 2 * p - 1);
      OddHalf(p);
      LowOfDouble(x, p);
    }
  }

  lemma MaskNothing(x: nat)
    ensures Pow2(0) == 1 && And(x, 0) == 0 && Low(x, 1) == 0
  {
  }

  lemma NothingMasked(p: nat)
    requires p >= 1
    ensures And(0, p - 1) == 0 && Low(0, p) == 0
  {
  }

  /** Masking with 2^k - 1 keeps the remainder modulo 2^k. */
  lemma AndLowBits(x: nat, k: nat)
    ensures And(x, Pow2(k) - 1) == x % Pow2(k)
  {
    hide And, Pow2;
    AndLow(x, k);
  }

  lemma Doubles(k: nat)
    requires k > 0
    ensures Pow2(k) == 2 * Pow2(k - 1)
  {
  }

  lemma AndStep(x: nat, y: nat)
    requires x > 0 && y > 0
    ensures And(x, y) == (if x % 2 == 1 && y % 2 == 1 then 1 else 0) + 2 * And(x / 2, y / 2)
  {
  }

  lemma OddHalf(p: nat)
    requires p >= 1
    ensures (2 * p - 1) / 2 == p - 1 && (2 * p - 1) % 2 == 1
  {
  }

  lemma {:induction false} AndCommutes(x: nat, y: nat)
    ensures And(x, y) == And(y, x)
  {
    if x > 0 && y > 0 { AndCommutes(x / 2, y / 2); }
  }

  /** A number below 2^k fills the k zero bits at the bottom of a multiple of 2^k. */
  lemma {:induction false} OrDisjoint(z: nat, k: nat, y: nat)
    requires z % Pow2(k) == 0 && y < Pow2(k)
    ensures Or(z, y) == z + y == Or(y, z)
    decreases k
  {
    if k > 0 {
      RemainderOfDouble(z, Pow2(k - 1));
      OrDisjoint(z / 2, k - 1, y / 2);
    }
  }

  /** The shifts of the encodings as quotients. */
  lemma Shifts(x: nat)
    ensures Shr(x, 6) == x / 64 && Shr(x, 10) == x / 1024 && Shr(x, 12) == x / 4096 && Shr(x, 18) == x / 262144
    ensures Shr(x, 4) == x / 16 && Shr(x, 8) == x / 256
  {
    ShiftTwo(x, 0);
    ShiftTwo(x, 2);
    ShiftTwo(x, 4);
    ShiftTwo(x, 6);
    ShiftTwo(x, 8);
    ShiftTwo(x, 10);
    ShiftTwo(x, 12);
    ShiftTwo(x, 14);
    ShiftTwo(x, 16);
  }

  lemma ShiftTwo(x: nat, k: nat)
    ensures Shr(x, 0) == x && Shr(x, k + 2) == Shr(x, k) / 4
  {
    assert Shr(x, k + 1) == Shr(x, k) / 2;
  }

  /** The masks of the encodings as remainders. */
  lemma Masks(x: nat)
    ensures And(x, 0x3F) == x % 64 && And(x, 0xFF) == x % 256 && And(x, 0x3FF) == x % 1024
  {
    Powers();
    AndLowBits(x, 6);
    AndLowBits(x, 8);
    AndLowBits(x, 10);
  }

  lemma Powers()
    ensures Pow2(3) == 8 && Pow2(4) == 16 && Pow2(5) == 32 && Pow2(6) == 64
    ensures Pow2(8) == 256 && Pow2(10) == 1024 && Pow2(12) == 4096 && Pow2(18) == 262144
  {
  }
}
