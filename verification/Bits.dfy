/**
 Machine words as natural numbers: powers of two, the bitwise operators bit by bit, and
 the facts that turn them into arithmetic.
 */
module Bits {
  import opened Basics

  function Pow2(n: nat): (p: nat)
    ensures p >= 1
  {
    if n == 0 then 1 else 2 * Pow2(n - 1)
  }

  function And(a: nat, b: nat): nat {
    if a == 0 then 0 else 2 * And(a / 2, b / 2) + (if a % 2 == 1 && b % 2 == 1 then 1 else 0)
  }

  function Or(a: nat, b: nat): nat {
    if a == 0 then b else 2 * Or(a / 2, b / 2) + (if a % 2 == 1 || b % 2 == 1 then 1 else 0)
  }

  function Xor(a: nat, b: nat): nat {
    if a == 0 then b else 2 * Xor(a / 2, b / 2) + (if a % 2 == b % 2 then 0 else 1)
  }

  /** The number of bits up to the highest one that is set. */
  function BitLength(x: nat): nat {
    if x == 0 then 0 else 1 + BitLength(x / 2)
  }

  /** Counting leading zeros of a non-zero 32-bit word. */
  function Clz(x: nat): int
    requires 0 < x < W32
  {
    32 - BitLength(x)
  }

  /** Counting trailing zeros. */
  function Ctz(x: nat): nat
    requires x > 0
  {
    if x % 2 == 1 then 0 else 1 + Ctz(x / 2)
  }

  function Shl32(x: nat, k: nat): nat
    requires k < 32
  {
    x * Pow2(k) % W32
  }

  function Shr(x: nat, k: nat): nat {
    if k == 0 then x else Shr(x / 2, k - 1)
  }

  // ---- Powers of two

  lemma {:induction false} Pow2Add(a: nat, b: nat)
    ensures Pow2(a + b) == Pow2(a) * Pow2(b)
  {
    if a > 0 {
      Pow2Add(a - 1, b);
      assert Pow2(a + b) == 2 * Pow2(a - 1 + b);
    }
  }

  lemma {:induction false} Pow2Monotone(a: nat, b: nat)
    requires a <= b
    ensures Pow2(a) <= Pow2(b)
  {
    if a < b {
      Pow2Monotone(a, b - 1);
    }
  }

  lemma Pow2Reflect(a: nat, b: nat)
    requires Pow2(a) < Pow2(b)
    ensures a < b
  {
    if b <= a {
      Pow2Monotone(b, a);
    }
  }

  lemma Pow2Words()
    ensures Pow2(17) == 0x2_0000 && Pow2(31) == 0x8000_0000 && Pow2(32) == W32 && Pow2(63) == 0x8000_0000_0000_0000
    ensures Pow2(64) == W64
  {
    hide Pow2;
    Pow2Step(0);
    Pow2Add(1, 1);
    Pow2Add(2, 2);
    Pow2Add(4, 4);
    Pow2Add(8, 8);
    Pow2Add(16, 16);
    Pow2Add(32, 32);
    Pow2Step(16);
    Pow2Step(31);
    Pow2Step(63);
  }

  lemma Pow2Step(n: nat)
    ensures Pow2(0) == 1 && Pow2(n + 1) == 2 * Pow2(n)
  {
  }

  lemma MulAssociates(a: int, b: int, c: int)
    ensures a * b * c == a * (b * c)
  {
  }

  lemma MulDistributes(a: int, b: int, c: int)
    ensures (a + b) * c == a * c + b * c
  {
  }

  lemma MulNonnegative(a: int, b: int)
    requires a >= 0 && b >= 0
    ensures a * b >= 0
  {
  }

  lemma MulMonotone(a: int, b: int, c: int)
    requires a <= b && c >= 0
    ensures a * c <= b * c && c * a <= c * b
  {
    MulDistributes(b - a, a, c);
    MulNonnegative(b - a, c);
  }

  lemma DivUnique(a: int, b: int, q: int, r: int)
    requires a == q * b + r && 0 <= r < b
    ensures a / b == q && a % b == r
  {
    var dq := a / b - q;
    assert dq * b == r - a % b;
    MulBound(dq, b);
  }

  lemma MulBound(x: int, b: int)
    requires b > 0
    ensures x >= 1 ==> x * b >= b
    ensures x <= -1 ==> x * b <= -b
  {
  }

  lemma DivMod(x: nat, p: nat)
    requires p >= 1
    ensures x / p >= 0 && 0 <= x % p < p && x == x / p * p + x % p
  {
    MulBound(x / p, p);
  }

  lemma Halved(x: nat, p: nat, q: nat, r: nat)
    requires x / 2 == q * p + r && r < p
    ensures x / (2 * p) == q
  {
    MulAssociates(q, 2, p);
    MulAssociates(2, q, p);
    DivUnique(x, 2 * p, q, 2 * r + x % 2);
  }

  lemma {:induction false} ShrDiv(x: nat, k: nat)
    ensures Shr(x, k) == x / Pow2(k)
  {
    if k > 0 {
      var p := Pow2(k - 1);
      ShrDiv(x / 2, k - 1);
      DivMod(x / 2, p);
      Halved(x, p, x / 2 / p, x / 2 % p);
    }
  }

  lemma {:induction false} BitLengthBounds(x: nat)
    requires x > 0
    ensures BitLength(x) >= 1 && Pow2(BitLength(x) - 1) <= x < Pow2(BitLength(x))
  {
    if x > 1 {
      BitLengthBounds(x / 2);
    }
  }

  lemma BitLengthAtMost(x: nat, n: nat)
    requires x < Pow2(n)
    ensures BitLength(x) <= n
  {
    if x > 0 {
      BitLengthBounds(x);
      Pow2Reflect(BitLength(x) - 1, n);
    }
  }

  // ---- Bitwise operators as arithmetic

  lemma {:induction false} AndZero(a: nat)
    ensures And(a, 0) == 0
  {
    if a > 0 {
      AndZero(a / 2);
    }
  }

  /** Masking keeps the remainder. */
  lemma {:induction false} AndMask(a: nat, k: nat, q: nat, r: nat)
    requires a == q * Pow2(k) + r && r < Pow2(k)
    ensures And(a, Pow2(k) - 1) == r
  {
    if k == 0 {
      AndZero(a);
    } else if a > 0 {
      var p := Pow2(k - 1);
      assert q * Pow2(k) == 2 * (q * p);
      AndMask(a / 2, k - 1, q, r / 2);
      assert (Pow2(k) - 1) / 2 == p - 1 && (Pow2(k) - 1) % 2 == 1;
    } else {
      MulBound(q, Pow2(k));
    }
  }

  /** Joining a multiple of a power of two with something below it adds them. */
  lemma {:induction false} OrDisjoint(a: nat, b: nat, k: nat, m: nat)
    requires a == m * Pow2(k) && b < Pow2(k)
    ensures Or(a, b) == a + b
  {
    if a > 0 && k > 0 {
      var p := Pow2(k - 1);
      assert m * Pow2(k) == 2 * (m * p);
      OrDisjoint(a / 2, b / 2, k - 1, m);
    } else if a > 0 {
      OrZero(a);
    }
  }

  lemma {:induction false} OrZero(a: nat)
    ensures Or(a, 0) == a
  {
    if a > 0 {
      OrZero(a / 2);
    }
  }

  lemma XorStep(a: nat, ones: nat, half: nat)
    requires a > 0 && ones == 2 * half + 1
    ensures Xor(a, ones) == 2 * Xor(a / 2, half) + 1 - a % 2
  {
    assert ones / 2 == half && ones % 2 == 1;
  }

  /** Exclusive-or with all ones complements. */
  lemma {:induction false} XorOnes(a: nat, n: nat)
    requires a < Pow2(n)
    ensures Xor(a, Pow2(n) - 1) == Pow2(n) - 1 - a
  {
    if a > 0 {
      XorOnes(a / 2, n - 1);
      XorStep(a, Pow2(n) - 1, Pow2(n - 1) - 1);
    }
  }

  lemma {:induction false} XorZero(a: nat)
    ensures Xor(a, 0) == a
  {
    if a > 0 {
      XorZero(a / 2);
    }
  }

  lemma {:induction false} XorSelf(a: nat)
    ensures Xor(a, a) == 0
  {
    if a > 0 {
      XorSelf(a / 2);
    }
  }

  /** The test `(d & (d - 1)) == 0` recognises exactly the powers of two. */
  lemma {:induction false} PowerOfTwoTest(d: nat)
    requires d > 0
    ensures And(d, d - 1) == 0 <==> d == Pow2(Ctz(d))
    ensures Pow2(Ctz(d)) <= d
  {
    if d % 2 == 0 {
      PowerOfTwoTest(d / 2);
      assert (d - 1) / 2 == d / 2 - 1 && (d - 1) % 2 == 1;
    } else {
      assert (d - 1) / 2 == d / 2 && (d - 1) % 2 == 0;
      AndSelf(d / 2);
    }
  }

  lemma {:induction false} AndSelf(a: nat)
    ensures And(a, a) == a
  {
    if a > 0 {
      AndSelf(a / 2);
    }
  }

  /** Shifting left in a word of `p * q` values drops the high part. */
  lemma ShiftedOut(x: nat, p: nat, q: nat)
    requires p >= 1 && q >= 1
    ensures x * q % (p * q) == x % p * q
  {
    DivMod(x, p);
    var h, l := x / p, x % p;
    MulDistributes(h * p, l, q);
    MulAssociates(h, p, q);
    MulNonnegative(l, q);
    MulNonnegative(p - l - 1, q);
    MulDistributes(p - l - 1, l + 1, q);
    MulDistributes(l, 1, q);
    DivUnique(x * q, p * q, h, l * q);
  }
}
