/**
 The bitwise operators of the source on non-negative integers, defined digit by
 digit, and the facts about them that the header packing, the serial wrap and
 the check code rely on.
 */
module Bits {

  function Pow2(k: nat): (p: nat)
    ensures p > 0
  {
    if k == 0 then 1 else 2 * Pow2(k - 1)
  }

  function Xor(a: nat, b: nat): nat
    decreases a + b
  {
    if a == 0 && b == 0 then 0 else (if a % 2 == b % 2 then 0 else 1) + 2 * Xor(a / 2, b / 2)
  }

  function And(a: nat, b: nat): nat {
    if a == 0 || b == 0 then 0 else (a % 2) * (b % 2) + 2 * And(a / 2, b / 2)
  }

  function Or(a: nat, b: nat): nat
    decreases a + b
  {
    if a == 0 && b == 0 then 0
    else (if a % 2 == 1 || b % 2 == 1 then 1 else 0) + 2 * Or(a / 2, b / 2)
  }

  function Shl(a: nat, k: nat): nat
    decreases k
  {
    if k == 0 then a else 2 * Shl(a, k - 1)
  }

  function Shr(a: nat, k: nat): nat
    decreases k
  {
    if k == 0 then a else Shr(a / 2, k - 1)
  }

  lemma {:induction false} XorCommutes(a: nat, b: nat)
    ensures Xor(a, b) == Xor(b, a)
    decreases a + b
  {
    if a != 0 || b != 0 {
      XorCommutes(a / 2, b / 2);
    }
  }

  lemma {:induction false} XorZero(a: nat)
    ensures Xor(a, 0) == a
    ensures Xor(0, a) == a
  {
    if a != 0 {
      XorZero(a / 2);
    }
  }

  lemma {:induction false} XorAssociates(a: nat, b: nat, c: nat)
    ensures Xor(Xor(a, b), c) == Xor(a, Xor(b, c))
    decreases a + b + c
  {
    if a != 0 || b != 0 || c != 0 {
      var ab, bc := Xor(a, b), Xor(b, c);
      XorHalves(a, b);
      XorHalves(b, c);
      XorHalves(ab, c);
      XorHalves(a, bc);
      XorAssociates(a / 2, b / 2, c / 2);
      SameHalves(Xor(ab, c), Xor(a, bc));
    }
  }

  lemma SameHalves(x: nat, y: nat)
    requires x % 2 == y % 2 && x / 2 == y / 2
    ensures x == y
  {
  }

  /** The lowest digit and the remaining digits of a XOR. */
  lemma {:induction false} XorHalves(a: nat, b: nat)
    ensures Xor(a, b) % 2 == if a % 2 == b % 2 then 0 else 1
    ensures Xor(a, b) / 2 == Xor(a / 2, b / 2)
  {
    DigitHalves(if a % 2 == b % 2 then 0 else 1, Xor(a / 2, b / 2));
  }

  lemma DigitHalves(digit: nat, rest: nat)
    requires digit < 2
    ensures (digit + 2 * rest) % 2 == digit && (digit + 2 * rest) / 2 == rest
  {
  }

  /** A XOR vanishes exactly when its operands are equal. */
  lemma {:induction false} XorIsZero(a: nat, b: nat)
    ensures Xor(a, b) == 0 <==> a == b
    decreases a + b
  {
    if a != 0 || b != 0 {
      XorIsZero(a / 2, b / 2);
      XorHalves(a, b);
    }
  }

  lemma {:induction false} XorBound(a: nat, b: nat, k: nat)
    requires a < Pow2(k) && b < Pow2(k)
    ensures Xor(a, b) < Pow2(k)
    decreases k
  {
    if k == 0 {
    } else {
      XorBound(a / 2, b / 2, k - 1);
      XorHalves(a, b);
    }
  }

  /** Doubling the modulus keeps the remainder of the half and the lowest digit. */
  lemma DoubleModulus(x: nat, p: nat)
    requires p > 0
    ensures x % (2 * p) == 2 * (x / 2 % p) + x % 2
  {
    var q, r := x / 2 / p, x / 2 % p;
    var t := 2 * r + x % 2;
    assert x == (2 * p) * q + t by {
      assert x / 2 == p * q + r;
      assert (2 * p) * q == 2 * (p * q);
    }
    ModUnique(x, 2 * p, q, t);
  }

  lemma ModUnique(x: nat, m: nat, q: nat, r: nat)
    requires r < m && x == m * q + r
    ensures x % m == r
  {
    var d := x / m - q;
    assert m * d == r - x % m by {
      assert x == m * (x / m) + x % m;
      assert m * (x / m - q) == m * (x / m) - m * q;
    }
    assert d == 0 by {
      assert d > 0 ==> m * d >= m;
      assert d < 0 ==> m * d + m <= 0;
    }
  }

  /** Masking with k ones is the remainder modulo 2^k. */
  lemma {:induction false} AndMask(x: nat, k: nat)
    ensures And(x, Pow2(k) - 1) == x % Pow2(k)
    decreases k
  {
    if k == 0 {
    } else {
      var p := Pow2(k - 1);
      AndMask(x / 2, k - 1);
      DoubleModulus(x, p);
      OneMoreMaskBit(x, p);
    }
  }

  lemma {:induction false} OneMoreMaskBit(x: nat, p: nat)
    requires p > 0
    ensures And(x, 2 * p - 1) == 2 * And(x / 2, p - 1) + x % 2
  {
    var mask := 2 * p - 1;
    assert mask / 2 == p - 1 && mask % 2 == 1;
    if x != 0 {
      assert And(x, mask) == (x % 2) * (mask % 2) + 2 * And(x / 2, mask / 2);
    }
  }

  /** Fields that do not overlap are combined by `|` as by addition. */
  lemma {:induction false} OrDisjoint(a: nat, b: nat, k: nat)
    requires a < Pow2(k)
    ensures Or(a, Shl(b, k)) == a + Shl(b, k)
    decreases k
  {
    if k == 0 {
      OrZero(b);
    } else {
      OrDisjoint(a / 2, b, k - 1);
      assert Shl(b, k) / 2 == Shl(b, k - 1) && Shl(b, k) % 2 == 0;
    }
  }

  lemma {:induction false} OrZero(b: nat)
    ensures Or(0, b) == b
  {
    if b != 0 {
      OrZero(b / 2);
    }
  }

  /** Testing one bit in place is the same as shifting it down first. */
  lemma {:induction false} AndSingleBit(x: nat, k: nat)
    ensures And(x, Pow2(k)) == 0 <==> Shr(x, k) % 2 == 0
    decreases k
  {
    if k == 0 {
      assert And(x, 1) == if x == 0 then 0 else (x % 2) + 2 * And(x / 2, 0);
    } else {
      AndSingleBit(x / 2, k - 1);
      AndEvenMask(x, Pow2(k - 1));
      assert Shr(x, k) == Shr(x / 2, k - 1);
    }
  }

  lemma {:induction false} AndEvenMask(x: nat, half: nat)
    requires half > 0
    ensures And(x, 2 * half) == 2 * And(x / 2, half)
  {
    var mask := 2 * half;
    assert mask / 2 == half && mask % 2 == 0;
    if x != 0 {
      assert And(x, mask) == (x % 2) * (mask % 2) + 2 * And(x / 2, mask / 2);
    }
  }

  /** The masks and shifts that occur in the source. */
  lemma Masks(x: nat)
    ensures And(x, 1) == x % 2
    ensures And(x, 0x07) == x % 8
    ensures And(x, 0x03FF) == x % 1024
    ensures And(x, 0xFFFF) == x % 65536
    ensures Shr(x, 13) == x / 8192 && Shr(x, 10) == x / 1024
    ensures Shl(x, 13) == x * 8192 && Shl(x, 10) == x * 1024
  {
    assert Pow2(1) == 2 && Pow2(3) == 8 && Pow2(10) == 1024 && Pow2(13) == 8192 && Pow2(16) == 65536;
    AndMask(x, 1);
    AndMask(x, 3);
    AndMask(x, 10);
    AndMask(x, 16);
  }
}
