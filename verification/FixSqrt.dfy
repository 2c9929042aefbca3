/**
 The square root of a 16.16 fixed-point number, digit by digit in two passes over 32-bit words.
 */
module FixSqrt {
  import opened Basics
  import opened Bits

  /** `r` is the square root of `m`, rounded to the nearest integer. */
  predicate Rounded(m: int, r: int) {
    r >= 0 && m <= r * r + r && (r == 0 || m > r * r - r)
  }

  lemma RoundedUnique(m: int, r: int, s: int)
    requires Rounded(m, r) && Rounded(m, s)
    ensures r == s
  {
    if r < s {
      SquareStep(r, s);
    } else if s < r {
      SquareStep(s, r);
    }
  }

  lemma SquareStep(r: int, s: int)
    requires 0 <= r
    ensures r < s ==> r * r + r <= s * s - s
  {
    if r < s {
      assert s * s - s - (r * r + r) == (s - r - 1) * (s + r);
    }
  }

  /** `r` is the square root of `m`, rounded down; there is just one. */
  predicate RootOf(m: int, r: int) {
    r >= 0 && r * r <= m < (r + 1) * (r + 1)
  }

  lemma RootUnique(m: int, r: int, s: int)
    requires RootOf(m, r) && RootOf(m, s)
    ensures r == s
  {
    if r < s {
      SquareGrows(r + 1, s);
    } else if s < r {
      SquareGrows(s + 1, r);
    }
  }

  /** With `bit` = p^2: `x` is the root of `m` up to 2p, and the words hold what is left of it. */
  predicate Partial(m: int, x: int, p: int, num: int, result: int, bit: int) {
    && p >= 1 && x >= 0
    && bit == p * p && result == 2 * p * x && num == m - x * x && num >= 0
    && m < (x + 2 * p) * (x + 2 * p)
  }

  /** After the last digit. */
  predicate Whole(m: int, x: int, num: int, result: int) {
    RootOf(m, x) && result == x && num == m - x * x
  }

  /** The test on words is the test on squares, and both branches leave the next digit to find. */
  lemma DigitStep(m: int, x: int, p: int, num: int, result: int, bit: int)
    requires Partial(m, x, p, num, result, bit)
    ensures num >= result + bit <==> m >= (x + p) * (x + p)
    ensures result % 2 == 0 && result / 2 == p * x && result / 2 + bit == p * (x + p)
    ensures num >= result + bit ==> num - (result + bit) == m - (x + p) * (x + p)
    ensures m < (x + p + p) * (x + p + p)
  {
    assert (x + p) * (x + p) == x * x + 2 * p * x + p * p;
    assert 2 * p * x == 2 * (p * x);
    assert p * (x + p) == p * x + p * p;
  }

  /** What words a partial root needs. */
  lemma PartialFits(m: int, x: int, p: int, num: int, result: int, bit: int)
    requires Partial(m, x, p, num, result, bit) && num < 0x1_0000_0000
    requires (x + 2 * p) * 2 * p <= 0x1_0000_0000
    ensures result + bit < 0x1_0000_0000 && p * (x + p) < 0x1_0000_0000
  {
    assert (x + 2 * p) * 2 * p == 2 * p * x + 4 * (p * p);
    assert p * (x + p) == p * x + p * p;
    assert 2 * p * x == 2 * (p * x);
    assert p * p >= 1 && p * x >= 0;
  }

  /** Halving p quarters its square; after p = 1 there is no digit left. */
  lemma NextBit(k: nat)
    ensures if k == 0 then Pow2(k) * Pow2(k) / 4 == 0 else Pow2(k) * Pow2(k) / 4 == Pow2(k - 1) * Pow2(k - 1) >= 1
  {
    if k > 0 {
      assert Pow2(k) == 2 * Pow2(k - 1);
      assert Pow2(k) * Pow2(k) == 4 * (Pow2(k - 1) * Pow2(k - 1));
      SquareGrows(1, Pow2(k - 1));
    }
  }

  /** Where the search for digits stands: one of size 2^k to find, or none. */
  ghost predicate Digits(m: int, x: int, k: nat, num: int, result: int, bit: int) {
    if bit == 0 then Whole(m, x, num, result)
    else Partial(m, x, Pow2(k), num, result, bit) && (x + 2 * Pow2(k)) * 2 * Pow2(k) <= 0x1_0000_0000
  }

  /** The words stay small enough for the next digit, half the size. */
  lemma Halved(x: int, p: int, h: int)
    requires x >= 0 && h >= 1 && p == 2 * h && (x + 2 * p) * 2 * p <= 0x1_0000_0000
    ensures (x + 2 * h) * 2 * h <= 0x1_0000_0000 && (x + p + 2 * h) * 2 * h <= 0x1_0000_0000
  {
    var w := (x + 2 * p) * h;
    assert (x + 2 * p) * 2 * p == 4 * w;
    assert w >= 0;
    assert (x + p + 2 * h) * 2 * h == 2 * w;
    assert (x + 2 * h) * 2 * h == 2 * w - 2 * (p * h);
    assert p * h >= 0;
  }

  lemma DigitsTaken(m: int, x: int, k: nat, num: int, result: int, bit: int)
    requires Digits(m, x, k, num, result, bit) && bit != 0 && num >= result + bit
    ensures Digits(m, x + Pow2(k), if k == 0 then 0 else k - 1, num - (result + bit), result / 2 + bit, bit / 4)
  {
    var p := Pow2(k);
    hide Pow2, Partial;
    DigitStep(m, x, p, num, result, bit);
    PartialSquare(m, x, p, num, result, bit);
    NextBit(k);
    if k > 0 {
      Pow2Twice(k);
      TakenPartial(m, x, p, Pow2(k - 1), num, result, bit);
      Halved(x, p, Pow2(k - 1));
    } else {
      Pow2Twice(k);
    }
  }

  lemma PartialSquare(m: int, x: int, p: int, num: int, result: int, bit: int)
    requires Partial(m, x, p, num, result, bit)
    ensures bit == p * p && x >= 0 && num == m - x * x && num >= 0
  {
  }

  lemma Pow2Twice(k: nat)
    ensures if k == 0 then Pow2(k) == 1 else Pow2(k) == 2 * Pow2(k - 1)
  {
  }

  lemma TakenPartial(m: int, x: int, p: int, h: int, num: int, result: int, bit: int)
    requires Partial(m, x, p, num, result, bit) && num >= result + bit && h >= 1 && p == 2 * h
    ensures Partial(m, x + p, h, num - (result + bit), result / 2 + bit, h * h)
  {
    DigitStep(m, x, p, num, result, bit);
    assert p * (x + p) == 2 * h * (x + p);
  }

  lemma PassedPartial(m: int, x: int, p: int, h: int, num: int, result: int, bit: int)
    requires Partial(m, x, p, num, result, bit) && num < result + bit && h >= 1 && p == 2 * h
    ensures Partial(m, x, h, num, result / 2, h * h)
  {
    DigitStep(m, x, p, num, result, bit);
    assert p * x == 2 * h * x;
  }

  lemma DigitsPassed(m: int, x: int, k: nat, num: int, result: int, bit: int)
    requires Digits(m, x, k, num, result, bit) && bit != 0 && num < result + bit
    ensures Digits(m, x, if k == 0 then 0 else k - 1, num, result / 2, bit / 4)
  {
    var p := Pow2(k);
    hide Pow2, Partial;
    DigitStep(m, x, p, num, result, bit);
    PartialSquare(m, x, p, num, result, bit);
    NextBit(k);
    if k > 0 {
      Pow2Twice(k);
      PassedPartial(m, x, p, Pow2(k - 1), num, result, bit);
      Halved(x, p, Pow2(k - 1));
    } else {
      Pow2Twice(k);
    }
  }

  /** One pass: all digits from `bit` down. */
  method FindDigits(num0: uint32, result0: uint32, bit0: uint32, ghost m: int, ghost x0: int, ghost k0: nat)
    returns (num: uint32, result: uint32)
    requires Digits(m, x0, k0, num0, result0, bit0)
    ensures Whole(m, result, num, result)
  {
    num, result := num0, result0;
    var bit: uint32 := bit0;
    ghost var x, k := x0, k0;
    while bit != 0
      invariant Digits(m, x, k, num, result, bit)
      decreases bit
    {
      PartialFits(m, x, Pow2(k), num, result, bit);
      DigitStep(m, x, Pow2(k), num, result, bit);
      var sum: uint32 := result + bit;
      if num >= sum {
        DigitsTaken(m, x, k, num, result, bit);
        num := num - sum;
        result := result / 2 + bit;
        x := x + Pow2(k);
      } else {
        DigitsPassed(m, x, k, num, result, bit);
        result := result / 2;
      }
      bit := bit / 4;
      k := if k == 0 then 0 else k - 1;
    }
  }

  /** The first digit worth trying. */
  method StartBit(num: uint32) returns (bit: uint32)
    requires num <= 0x8000_0000
    ensures exists k: nat :: Digits(num, 0, k, num, 0, bit)
    ensures bit <= num && (num != 0 ==> num < 4 * bit)
  {
    hide Digits, Pow2;
    ghost var k: nat;
    Pow2Values();
    if num >= 0x10_0000 {
      bit, k := 0x4000_0000, 15;
    } else {
      bit, k := 0x4_0000, 9;
    }
    while bit > num
      invariant bit != 0 && k <= 15 && bit == Pow2(k) * Pow2(k) && num < 4 * bit
      decreases bit
    {
      NextBit(k);
      Pow2Twice(k);
      bit := bit / 4;
      if bit == 0 {
        NoDigits(k);
        return;
      }
      k := k - 1;
    }
    Pow2Monotone(k, 15);
    StartDigits(num, k);
  }

  lemma NoDigits(k: nat)
    ensures Digits(0, 0, k, 0, 0, 0)
  {
  }

  lemma Pow2Values()
    ensures Pow2(15) == 0x8000 && Pow2(9) == 0x200 && Pow2(7) == 0x80
  {
    assert Pow2(3) == 8;
    assert Pow2(6) == 64;
    assert Pow2(9) == 512;
    assert Pow2(12) == 4096;
  }

  lemma StartPartial(num: int, p: int)
    requires 1 <= p <= 0x8000 && 0 <= num < 4 * (p * p)
    ensures Partial(num, 0, p, num, 0, p * p) && (0 + 2 * p) * 2 * p <= 0x1_0000_0000 && p * p >= 1
  {
    SquareGrows(p, 0x8000);
    assert (0 + 2 * p) * (0 + 2 * p) == 4 * (p * p);
    assert (0 + 2 * p) * 2 * p == 4 * (p * p);
  }

  lemma StartDigits(num: int, k: nat)
    requires 0 <= num < 4 * (Pow2(k) * Pow2(k)) && Pow2(k) <= 0x8000
    ensures Digits(num, 0, k, num, 0, Pow2(k) * Pow2(k))
  {
    hide Partial, Pow2;
    StartPartial(num, Pow2(k));
  }

  /** The remainder after the integer root. */
  function Remainder(m: int, r: int): int {
    m - r * r
  }

  /** What the second pass works on: exact, unless the remainder did not fit in 16 bits. */
  function Widened(num: int, remainder: int): int {
    if remainder > 0xFFFF then num * 0x1_0000 - 0x4000 else num * 0x1_0000
  }

  /** The words are shifted on to the second pass. */
  lemma Shifted(m: int, r: int, num: int)
    requires Whole(m, r, num, r) && 0 <= m <= 0x8000_0000
    ensures r <= 0xFFFF && num <= 2 * r && r * 0x1_0000 + 0x8000 < 0x1_0000_0000
    ensures num <= 0xFFFF ==> Digits(m * 0x1_0000, r * 0x100, 7, num * 0x1_0000, r * 0x1_0000, 0x4000)
    ensures num > 0xFFFF ==>
              && 0 <= (num - r) * 0x1_0000 - 0x8000 < 0x1_0000_0000 && num - r >= 0
              && Digits(m * 0x1_0000 - 0x4000, r * 0x100 + 0x80, 7, (num - r) * 0x1_0000 - 0x8000,
                        r * 0x1_0000 + 0x8000, 0x4000)
  {
    Pow2Values();
    RootBound(m, r);
    assert (r + 1) * (r + 1) == r * r + 2 * r + 1;
    assert (r * 0x100 + 0x100) * (r * 0x100 + 0x100) == 0x1_0000 * ((r + 1) * (r + 1));
    assert (r * 0x100 + 0x80) * (r * 0x100 + 0x80) == 0x1_0000 * (r * r) + 0x1_0000 * r + 0x4000;
    if num > 0xFFFF {
      var s := r * 0x100 + 0x80;
      SquareGrows(r * 0x100 + 0x100, s + 0x100);
    }
  }

  lemma SquareGrows(a: int, b: int)
    requires 0 <= a <= b
    ensures a * a <= b * b
  {
  }

  lemma RootBound(m: int, r: int)
    requires 0 <= r && r * r <= m <= 0x8000_0000
    ensures r <= 0xB504
  {
    if r > 0xB504 {
      SquareGrows(0xB505, r);
    }
  }

  /** Rounding up when the next bit would be 1. */
  lemma RoundUp(m: int, r: int, num: int)
    requires Whole(m, r, num, r)
    ensures num > r ==> Rounded(m, r + 1)
    ensures num <= r ==> Rounded(m, r)
  {
    assert (r + 1) * (r + 1) == r * r + 2 * r + 1;
  }

  /** Between the passes: the words move 16 bits up, by way of half a unit if the remainder is too big for that. */
  method Widen(num0: uint32, result0: uint32, ghost m: int) returns (num: uint32, result: uint32)
    requires Whole(m, result0, num0, result0) && 0 <= m <= 0x8000_0000
    ensures exists x :: Digits(Widened(m, num0), x, 7, num, result, 0x4000)
  {
    ghost var x;
    hide Digits, Whole;
    num, result := num0, result0;
    Shifted(m, result, num);
    if num > 0xFFFF {
      x := result * 0x100 + 0x80;
      num := num - result;
      num := num * 0x1_0000 - 0x8000;
      result := result * 0x1_0000 + 0x8000;
    } else {
      x := result * 0x100;
      num := num * 0x1_0000;
      result := result * 0x1_0000;
    }
    assert Digits(Widened(m, num0), x, 7, num, result, 0x4000);
  }

  /** The last step. */
  method Finish(num: uint32, result0: uint32, ghost m: int) returns (result: uint32)
    requires Whole(m, result0, num, result0) && m <= 0x8000_0000_0000
    ensures Rounded(m, result) && result <= 0x100_0000
  {
    hide Rounded, Whole, RootOf;
    result := result0;
    RoundUp(m, result, num);
    WholeParts(m, result, num);
    RootFits(m, result);
    if num > result {
      result := result + 1;
    }
  }

  lemma WholeParts(m: int, r: int, num: int)
    requires Whole(m, r, num, r)
    ensures RootOf(m, r) && num == Remainder(m, r)
  {
  }

  lemma RootFits(m: int, r: int)
    requires RootOf(m, r) && m <= 0x8000_0000_0000
    ensures r <= 0xFF_FFFF
  {
    if r > 0xFF_FFFF {
      SquareGrows(0x100_0000, r);
    }
  }

  /** Below 2^30 in size the second pass loses nothing: the root is that of the number itself. */
  lemma SmallIsExact(num: int, integer: int)
    requires 0 <= num < 0x4000_0000 && RootOf(num, integer)
    ensures Remainder(num, integer) <= 0xFFFF && Widened(num, Remainder(num, integer)) == num * 0x1_0000
  {
    if integer >= 0x8000 {
      SquareGrows(0x8000, integer);
    }
    assert (integer + 1) * (integer + 1) == integer * integer + 2 * integer + 1;
  }

  /** Half way between two roots, squared and rounded down, lies just below `m`. */
  ghost predicate NearMidpoint(m: int) {
    exists q :: q >= 0 && Midpoint(q, m)
  }

  predicate Midpoint(q: int, m: int) {
    m - 0x4000 <= q * q + q < m
  }

  /**
   In general the root is the right one exactly when the remainder fits in 16 bits or no midpoint
   between two roots falls into the 2^14 that are taken off.
   */
  lemma ExactWhen(num: int, integer: int, root: int)
    requires 0 <= num && RootOf(num, integer) && Rounded(Widened(num, Remainder(num, integer)), root)
    ensures Rounded(num * 0x1_0000, root) <==> Remainder(num, integer) <= 0xFFFF || !NearMidpoint(num * 0x1_0000)
  {
    var m := num * 0x1_0000;
    if Remainder(num, integer) > 0xFFFF {
      if m > root * root + root {
        assert Midpoint(root, m);
      }
      forall q | q >= 0 && Midpoint(q, m)
        ensures m > root * root + root
      {
        MidpointOrder(root, q);
      }
    }
  }

  lemma MidpointOrder(r: int, q: int)
    requires r >= 0 && q >= 0
    ensures q < r ==> q * q + q <= r * r - r
    ensures q >= r ==> r * r + r <= q * q + q
  {
    if q < r {
      SquareStep(q, r);
    } else {
      SquareGrows(r, q);
    }
  }

  /**
   `r` is the rounded root of the widened number, and of the number itself exactly when the remainder
   `integer` leaves fits in 16 bits or no midpoint is near.
   */
  ghost predicate WidenedRoot(num: int, integer: int, r: int) {
    && RootOf(num, integer) && Rounded(Widened(num, Remainder(num, integer)), r)
    && (Rounded(num * 0x1_0000, r) <==> Remainder(num, integer) <= 0xFFFF || !NearMidpoint(num * 0x1_0000))
  }

  ghost predicate FoundRoot(num: int, r: int) {
    exists integer :: WidenedRoot(num, integer, r)
  }

  lemma RootFound(num: int, integer: int, r: int)
    requires 0 <= num && RootOf(num, integer) && Rounded(Widened(num, Remainder(num, integer)), r)
    ensures FoundRoot(num, r) && (num < 0x4000_0000 ==> Rounded(num * 0x1_0000, r))
  {
    hide Rounded, RootOf, NearMidpoint;
    ExactWhen(num, integer, r);
    assert WidenedRoot(num, integer, r);
    if num < 0x4000_0000 {
      SmallIsExact(num, integer);
    }
  }

  /**
   `fix16_sqrt`: minus the root of minus the number if it is negative; of the widened number, rounded
   to the nearest, for every number. That is the nearest root of the number itself, always below 2^30
   in size and otherwise exactly under the condition of `ExactWhen`.
   */
  method Sqrt(inValue: int) returns (root: int)
    requires -0x8000_0000 <= inValue <= 0x7FFF_FFFF
    ensures var num, r := Abs(inValue), if inValue < 0 then -root else root;
            FoundRoot(num, r) && (num < 0x4000_0000 ==> Rounded(num * 0x1_0000, r))
    ensures inValue < 0 ==> root <= 0
    ensures -0x8000_0000 <= root <= 0x7FFF_FFFF
  {
    hide RootOf, Rounded, Digits, Whole, Remainder, FoundRoot;
    var neg := inValue < 0;
    var num: uint32 := if neg then -inValue else inValue;
    ghost var m: int := num;
    var bit: uint32 := StartBit(num);
    ghost var k: nat :| Digits(num, 0, k, num, 0, bit);
    var result: uint32;
    num, result := FindDigits(num, 0, bit, m, 0, k);
    WholeParts(m, result, num);
    ghost var integer: int := result;
    ghost var wide := Widened(m, num);
    num, result := Widen(num, result, m);
    ghost var x :| Digits(wide, x, 7, num, result, 0x4000);
    bit := 0x4000;
    num, result := FindDigits(num, result, bit, wide, x, 7);
    root := Finish(num, result, wide);
    RootFound(m, integer, root);
    if neg {
      root := -root;
    }
  }

  /** A number whose root comes out one too small: the half unit is squared as 2^15, not 2^14. */
  lemma HalfUnitTooMuch()
    ensures var num, integer := 1167586097, 34169;
            && RootOf(num, integer) && Remainder(num, integer) == 0x1_0000
            && Rounded(Widened(num, Remainder(num, integer)), 8747509) && Rounded(num * 0x1_0000, 8747510)
  {
  }
}
