/**
 Division and multiplication of 16.16 fixed-point numbers on 32-bit words.
 */
module FixArith {
  import opened Basics
  import opened Bits

  const MINIMUM: int := -0x8000_0000
  const OVERFLOW: int := MINIMUM

  /** n / d rounded, halves up. */
  function RoundDiv(n: nat, d: nat): nat
    requires d > 0
  {
    DivMod(2 * n, d);
    (2 * n / d + 1) / 2
  }

  lemma RoundDivNearest(n: nat, d: nat)
    requires d > 0
    ensures Nearest(n, d, RoundDiv(n, d))
  {
    DivMod(2 * n, d);
    var q, r := 2 * n / d, RoundDiv(n, d);
    assert q == 2 * r || q == 2 * r - 1;
    MulDistributes(2 * r, -1, d);
  }

  lemma NearestUnique(n: int, d: int, r: int, s: int)
    requires d > 0 && Nearest(n, d, r) && Nearest(n, d, s)
    ensures r == s
  {
    MulDistributes(2 * r, -1, d);
    MulDistributes(2 * r, 1, d);
    MulDistributes(2 * s, -1, d);
    MulDistributes(2 * s, 1, d);
    LessFactor(2 * r - 1, 2 * s + 1, d);
    LessFactor(2 * s - 1, 2 * r + 1, d);
  }

  /** `r` is n / d rounded to the nearest integer, halves away from zero, for n and r not negative. */
  predicate Nearest(n: int, d: int, r: int) {
    r >= 0 && 2 * r * d - d <= 2 * n < 2 * r * d + d
  }

  /**
   What the long division keeps: twice the dividend is twice the quotient so far times the
   divider, and what is left. After the first step the quotient cannot outgrow its word.
   */
  ghost predicate Dividing(n: int, d: int, quotient: int, remainder: int, weight: int, first: bool) {
    && d > 0 && quotient >= 0 && remainder >= 0
    && 2 * n == 2 * quotient * d + remainder * weight
    && (first ==> quotient == 0)
    && (!first ==> remainder < 2 * d && quotient + weight <= 0x1_0000_0000)
  }

  /** The value is kept: f is the shift, p the weight of the digits. */
  lemma StepValue(n: int, d: int, quotient: int, remainder: int, f: int, p: int)
    requires d > 0 && remainder >= 0 && f >= 1 && p >= 1 && 2 * n == 2 * quotient * d + remainder * (2 * (f * p))
    ensures remainder * f >= 0
    ensures var digits, rest := remainder * f / d, remainder * f % d;
            && digits >= 0 && 0 <= rest < d && n == (quotient + digits * p) * d + rest * p
  {
    MulNonnegative(remainder, f);
    var w := remainder * f;
    DivMod(w, d);
    var digits, rest := w / d, w % d;
    MulAssociates(remainder, f, p);
    MulAssociates(2, remainder, f * p);
    MulAssociates(remainder, 2, f * p);
    MulDistributes(digits * d, rest, p);
    MulDistributes(quotient, digits * p, d);
    MulAssociates(digits, p, d);
    MulAssociates(digits, d, p);
    MulAssociates(2, quotient, d);
  }

  /** After the first step the new digits stay below the weight of the last one. */
  lemma LaterDigits(d: int, remainder: int, f: int, p: int)
    requires d > 0 && 0 <= remainder < 2 * d && f >= 1 && p >= 1 && remainder * f >= 0
    ensures remainder * f / d * p + p <= 2 * (f * p)
  {
    var w := remainder * f;
    var digits := w / d;
    DivMod(w, d);
    Smaller(remainder, 2 * d, f);
    MulAssociates(2, d, f);
    MulAssociates(2, f, d);
    LessFactor(digits, 2 * f, d);
    Monotone(digits + 1, 2 * f, p);
    MulDistributes(digits, 1, p);
    MulAssociates(2, f, p);
  }

  lemma Smaller(a: int, b: int, f: int)
    requires a < b && f >= 1
    ensures a * f < b * f
  {
  }

  lemma Monotone(a: int, b: int, f: int)
    requires a <= b && f >= 0
    ensures a * f <= b * f
  {
  }

  lemma LessFactor(a: int, b: int, d: int)
    requires d > 0 && a * d < b * d
    ensures a < b
  {
    if a >= b {
      Monotone(b, a, d);
    }
  }

  /** Digits that fit leave room for one more of the same weight, since the word is a multiple of it. */
  lemma RoomForOne(digits: int, p: int, c: int)
    requires p >= 1 && p * c == 0x1_0000_0000 && digits * p < 0x1_0000_0000
    ensures digits * p + p <= 0x1_0000_0000
  {
    LessFactor(digits, c, p);
    Monotone(digits + 1, c, p);
    MulDistributes(digits, 1, p);
  }

  lemma TooMany(n: int, d: int, digits: int, rest: int, p: int)
    requires d > 0 && p >= 1 && rest >= 0 && n == digits * p * d + rest * p && digits * p >= 0x1_0000_0000
    ensures n >= 0x1_0000_0000 * d
  {
    Monotone(0x1_0000_0000, digits * p, d);
    MulNonnegative(rest, p);
  }

  /** One step: shift by f, divide, add the digits of weight p, keep the remainder. */
  lemma DivideStep(n: int, d: int, quotient: int, remainder: int, f: int, p: int, c: int, first: bool)
    requires f >= 1 && p >= 1 && p * c == 0x1_0000_0000 && Dividing(n, d, quotient, remainder, 2 * (f * p), first)
    ensures d > 0 && remainder * f >= 0
    ensures var digits, rest := remainder * f / d, remainder * f % d;
            && digits >= 0 && digits * p >= 0 && 0 <= rest < d
            && (digits * p < 0x1_0000_0000 ==> Dividing(n, d, quotient + digits * p, 2 * rest, p, false))
            && (digits * p >= 0x1_0000_0000 ==> n >= 0x1_0000_0000 * d)
  {
    StepValue(n, d, quotient, remainder, f, p);
    var digits, rest := remainder * f / d, remainder * f % d;
    Doubled(n, quotient + digits * p, d, rest, p);
    MulNonnegative(digits, p);
    if !first {
      LaterDigits(d, remainder, f, p);
    } else {
      FirstDigits(n, d, digits, rest, p, c);
    }
  }

  lemma FirstDigits(n: int, d: int, digits: int, rest: int, p: int, c: int)
    requires d > 0 && p >= 1 && p * c == 0x1_0000_0000 && 0 <= rest < d && n == (0 + digits * p) * d + rest * p
    ensures digits * p < 0x1_0000_0000 ==> digits * p + p <= 0x1_0000_0000
    ensures digits * p >= 0x1_0000_0000 ==> n >= 0x1_0000_0000 * d
  {
    if digits * p < 0x1_0000_0000 {
      RoomForOne(digits, p, c);
    } else {
      TooMany(n, d, digits, rest, p);
    }
  }

  lemma Doubled(n: int, q: int, d: int, rest: int, p: int)
    requires n == q * d + rest * p
    ensures 2 * n == 2 * q * d + 2 * rest * p
  {
    MulAssociates(2, q, d);
    MulAssociates(2, rest, p);
  }

  const LARGE: nat := 0x10_0000

  /** The estimate a large divider starts with. */
  function Start(m: nat, d: nat): nat {
    DivMod(m, d / 0x2_0000 + 1);
    if d < LARGE then 0 else m / (d / 0x2_0000 + 1)
  }

  /** What dropping the low bits of the estimate's product adds to the dividend. */
  function Slack(m: nat, d: nat): nat {
    Start(m, d) * d % 0x2_0000
  }

  /** m / d in units of 1 / 65536 rounded, halves up, with the slack. */
  function Rounded(m: nat, d: nat): nat
    requires d > 0
  {
    DivMod(m * 0x2_0000 + Slack(m, d), d);
    ((m * 0x2_0000 + Slack(m, d)) / d + 1) / 2
  }

  function SizeDiv(m: nat, d: nat): nat
    requires d > 0
  {
    if d < LARGE then RoundDiv(0x1_0000 * m, d) else Rounded(m, d)
  }

  /** What the division computes: the rounded quotient with its sign, or the overflow value. */
  function FixDiv(a: int, b: int): int {
    if b == 0 then MINIMUM
    else if Abs(a) >= 0x8000 * Abs(b) then OVERFLOW
    else
      var r: int := SizeDiv(Abs(a), Abs(b));
      if (a < 0) == (b < 0) then r else -r
  }

  /** The slack carries into the quotient, and the quotient is even: then rounding goes one unit too far. */
  predicate SlackShows(m: nat, d: nat)
    requires d > 0
  {
    m * 0x2_0000 % d + Slack(m, d) >= d && m * 0x2_0000 / d % 2 == 0
  }

  /** With a large divider the quotient is rounded right unless the slack shows, and then it is one unit too much. */
  lemma KickStartIff(m: nat, d: nat)
    requires d >= LARGE
    ensures Rounded(m, d) == RoundDiv(0x1_0000 * m, d) + if SlackShows(m, d) then 1 else 0
  {
    hide Slack, RoundDiv;
    SlackSmall(m, d);
    RoundDivIs(m, d);
    Carries(m * 0x2_0000, d, Slack(m, d));
    OneMore(m * 0x2_0000 / d);
  }

  lemma Carries(n: nat, d: nat, slack: nat)
    requires slack < d
    ensures n / d >= 0 && (n + slack) / d == n / d + if n % d + slack >= d then 1 else 0
  {
    DivMod(n, d);
    var q, r := n / d, n % d;
    if r + slack < d {
      DivUnique(n + slack, d, q, r + slack);
    } else {
      MulDistributes(q, 1, d);
      DivUnique(n + slack, d, q + 1, r + slack - d);
    }
  }

  lemma OneMore(q: nat)
    ensures (q + 2) / 2 == (q + 1) / 2 + if q % 2 == 0 then 1 else 0
  {
  }

  lemma RoundDivIs(m: nat, d: nat)
    requires d > 0
    ensures RoundDiv(0x1_0000 * m, d) == (m * 0x2_0000 / d + 1) / 2
  {
    assert 2 * (0x1_0000 * m) == m * 0x2_0000;
  }

  lemma SlackSmall(m: nat, d: nat)
    ensures Slack(m, d) < 0x2_0000
  {
  }

  /** Division by 0 gives the least number, a quotient from 2^15 on the overflow value, and no other does. */
  lemma DivisionLimits(a: int, b: int)
    requires Abs(a) <= 0x8000_0000
    ensures FixDiv(a, b) == -0x8000_0000 <==> b == 0 || 0x1_0000 * Abs(a) / Abs(b) >= 0x8000_0000
    ensures -0x8000_0000 <= FixDiv(a, b) <= 0x7FFF_FFFF
  {
    hide SizeDiv;
    if b != 0 {
      WholeTooLarge(Abs(a), Abs(b));
      if Abs(a) < 0x8000 * Abs(b) {
        SizeFits(Abs(a), Abs(b));
      }
    }
  }

  lemma WholeTooLarge(m: nat, d: nat)
    requires d > 0
    ensures m >= 0x8000 * d <==> 0x1_0000 * m / d >= 0x8000_0000
  {
    Bits.DivMod(0x1_0000 * m, d);
    var q := 0x1_0000 * m / d;
    if q >= 0x8000_0000 {
      Bits.MulMonotone(0x8000_0000, q, d);
    } else {
      Bits.MulMonotone(q, 0x7FFF_FFFF, d);
    }
  }

  lemma SizeFits(m: nat, d: nat)
    requires d > 0 && m < 0x8000 * d && m <= 0x8000_0000
    ensures SizeDiv(m, d) <= 0x7FFF_FFFF
  {
    hide Slack, RoundDiv, Rounded;
    if d < LARGE {
      RoundDivNearest(0x1_0000 * m, d);
      var r := RoundDiv(0x1_0000 * m, d);
      if r >= 0x8000_0000 {
        Bits.MulMonotone(0x8000_0000, r, d);
        Bits.MulAssociates(2, r, d);
      }
    } else {
      LargeRoundedFits(m, d);
    }
  }

  lemma LargeRoundedFits(m: nat, d: nat)
    requires LARGE <= d && m <= 0x8000_0000
    ensures Rounded(m, d) <= 0x7FFF_FFFF
  {
    hide Start;
    var n := m * 0x2_0000 + Slack(m, d);
    Bits.DivMod(n, d);
    if n / d >= 0xFFFF_FFFF {
      Bits.MulMonotone(0xFFFF_FFFF, n / d, d);
    }
  }

  /** The quotient is nearest, halves away from zero, exactly for small dividers and where the slack does not show. */
  lemma FixDivNearest(a: int, b: int)
    requires b != 0 && Abs(a) < 0x8000 * Abs(b)
    ensures var r := FixDiv(a, b);
            (r != 0 ==> (r < 0) == ((a < 0) != (b < 0))) &&
            (Nearest(0x1_0000 * Abs(a), Abs(b), Abs(r)) <==> Abs(b) < LARGE || !SlackShows(Abs(a), Abs(b)))
  {
    hide SlackShows, Rounded, RoundDiv, Nearest;
    var m, d, r := Abs(a), Abs(b), FixDiv(a, b);
    RoundDivNearest(0x1_0000 * m, d);
    if d >= LARGE {
      KickStartIff(m, d);
    }
    if Nearest(0x1_0000 * m, d, Abs(r)) {
      NearestUnique(0x1_0000 * m, d, Abs(r), RoundDiv(0x1_0000 * m, d));
    }
  }

  /** Where it goes one unit too far: 12238 is nearest. */
  lemma OneUnitTooMuch()
    ensures FixDiv(203769, 1091164) == 12239 && Nearest(0x1_0000 * 203769, 1091164, 12238)
  {
    assert Start(203769, 1091164) == 22641;
    assert Slack(203769, 1091164) == 22641 * 1091164 % 0x2_0000;
  }

  /** Trailing zero digits of the divider are taken off. */
  method Reduce(divider0: uint32) returns (divider: uint32, bitPos: nat)
    requires 0 < divider0
    ensures 0 < divider <= divider0 && bitPos <= 17 && divider0 == divider * Pow2(17 - bitPos)
  {
    hide Pow2;
    divider, bitPos := divider0, 17;
    NotReduced(divider);
    while divider % 16 == 0 && bitPos >= 4
      invariant 0 < divider <= divider0 && bitPos <= 17 && divider0 == divider * Pow2(17 - bitPos)
      decreases bitPos
    {
      ReduceStep(divider, bitPos);
      divider := divider / 16;
      bitPos := bitPos - 4;
    }
  }

  lemma NotReduced(divider: nat)
    ensures divider == divider * Pow2(17 - 17)
  {
    assert Pow2(0) == 1;
  }

  lemma ReduceStep(divider: nat, pos: nat)
    requires divider % 16 == 0 && 4 <= pos <= 17
    ensures divider / 16 * Pow2(17 - (pos - 4)) == divider * Pow2(17 - pos)
  {
    Pow2Add(4, 17 - pos);
    assert Pow2(4) == 16;
    SixteenTimes(divider / 16, Pow2(17 - pos));
  }

  lemma SixteenTimes(k: nat, p: nat)
    ensures k * (16 * p) == 16 * k * p
  {
  }

  /** Shifting by the leading zeros stays in the word. */
  lemma ShiftFits(x: nat, s: nat)
    requires 0 < x < W32 && s <= Clz(x)
    ensures x * Pow2(s) < W32
  {
    BitLengthBounds(x);
    Pow2Words();
    Pow2Add(BitLength(x), s);
    Pow2Monotone(BitLength(x) + s, 32);
    Smaller(x, Pow2(BitLength(x)), Pow2(s));
  }

  /** The leading zeros are counted right. */
  lemma ClzRange(x: nat)
    requires 0 < x < W32
    ensures 0 <= Clz(x) < 32
  {
    Pow2Words();
    BitLengthAtMost(x, 32);
    BitLengthBounds(x);
  }

  /** The check on the digits' upper bits is the check that they do not fit at their place. */
  lemma OverflowCheck(digits: nat, pos: nat)
    requires pos <= 32
    ensures Pow2(pos) * Pow2(32 - pos) == 0x1_0000_0000
    ensures digits >= Pow2(32 - pos) <==> digits * Pow2(pos) >= 0x1_0000_0000
  {
    hide Pow2;
    Pow2Words();
    Pow2Add(pos, 32 - pos);
    SameOrder(digits, Pow2(32 - pos), Pow2(pos));
  }

  /** Divides by repeated 32-bit divisions, adding to what the quotient starts with; not if it does not fit. */
  method Quotient(dividend: uint32, divider: uint32, bitPos0: nat, start: uint32) returns (quotient: uint32, fits: bool)
    requires 0 < divider <= 0x8000_0000 && bitPos0 <= 17
    requires start > 0 ==> start < 0x8000_0000 && dividend * Pow2(bitPos0) < 0x8000_0000 * divider
    ensures fits <==> dividend * Pow2(bitPos0) < 0x1_0000_0000 * divider
    ensures fits ==>
              && quotient >= start
              && (quotient - start) * divider <= dividend * Pow2(bitPos0) < (quotient - start) * divider + divider
  {
    ghost var n := dividend * Pow2(bitPos0);
    hide Pow2;
    var remainder: uint32 := dividend;
    var bitPos: int := bitPos0;
    quotient := start;
    ghost var first := true;
    StartDividing(dividend, divider, bitPos0);
    while remainder != 0 && bitPos >= 0
      invariant -1 <= bitPos <= 17
      invariant Dividing(n, divider, quotient - start, remainder, Pow2(bitPos + 1), first)
      invariant bitPos == -1 ==> !first
      decreases bitPos + 1
    {
      ClzRange(remainder);
      var shift: nat := Min(Clz(remainder), bitPos);
      ShiftFits(remainder, shift);
      ghost var p, f := Pow2(bitPos - shift), Pow2(shift);
      SplitWeight(bitPos, shift);
      OverflowCheck(0, bitPos - shift);
      DivideStep(n, divider, quotient - start, remainder, f, p, Pow2(32 - (bitPos - shift)), first);
      var shifted: uint32 := remainder * Pow2(shift);
      bitPos := bitPos - shift;
      var digits: uint32 := Div32(shifted, divider);
      remainder := Mod32(shifted, divider);
      OverflowCheck(digits, bitPos);
      if digits >= Pow2(32 - bitPos) {
        return 0, false;
      }
      StartFits(n, divider, quotient - start + digits * p, 2 * remainder, p, start);
      quotient := quotient + digits * Pow2(bitPos);
      remainder := remainder * 2;
      bitPos := bitPos - 1;
      first := false;
    }
    fits := true;
    DividingDone(n, divider, quotient - start, remainder, bitPos, first);
  }

  /** The quotient with its start stays in the word. */
  lemma StartFits(n: int, d: int, part: int, remainder: int, weight: int, start: nat)
    requires Dividing(n, d, part, remainder, weight, false) && weight >= 1
    requires start > 0 ==> start < 0x8000_0000 && n < 0x8000_0000 * d
    ensures part + start < 0x1_0000_0000
  {
    MulNonnegative(remainder, weight);
    MulAssociates(2, part, d);
    if start > 0 {
      LessFactor(part, 0x8000_0000, d);
    }
  }

  function Div32(x: nat, d: nat): (q: nat)
    requires d > 0
    ensures q == x / d
  {
    DivMod(x, d);
    x / d
  }

  function Mod32(x: nat, d: nat): (r: nat)
    requires d > 0
    ensures r == x % d < d
  {
    DivMod(x, d);
    x % d
  }

  lemma StartDividing(dividend: nat, d: nat, pos: nat)
    requires d > 0
    ensures Dividing(dividend * Pow2(pos), d, 0, dividend, Pow2(pos + 1), true)
  {
    assert Pow2(pos + 1) == 2 * Pow2(pos);
    assert dividend * (2 * Pow2(pos)) == 2 * (dividend * Pow2(pos));
  }

  lemma SplitWeight(pos: nat, shift: nat)
    requires shift <= pos
    ensures Pow2(pos + 1) == 2 * (Pow2(shift) * Pow2(pos - shift))
  {
    Pow2Add(shift, pos - shift);
  }

  /** At the end the quotient is the whole one. */
  lemma DividingDone(n: int, d: int, quotient: int, remainder: int, pos: int, first: bool)
    requires pos >= -1 && Dividing(n, d, quotient, remainder, Pow2(pos + 1), first) && (remainder == 0 || pos == -1)
    requires pos == -1 ==> !first
    ensures quotient * d <= n < quotient * d + d && (quotient < 0x1_0000_0000 ==> n < 0x1_0000_0000 * d)
  {
    MulAssociates(2, quotient, d);
    Pow2Step(0);
    if quotient < 0x1_0000_0000 {
      Monotone(quotient + 1, 0x1_0000_0000, d);
      MulDistributes(quotient, 1, d);
    }
  }

  /** Putting the zero digits back. */
  lemma Unreduced(dividend: nat, d: nat, divider: nat, pos: nat, quotient: nat)
    requires pos <= 17 && d == divider * Pow2(17 - pos) && divider > 0
    ensures dividend * Pow2(pos) < 0x1_0000_0000 * divider <==> dividend < 0x8000 * d
    ensures quotient * divider <= dividend * Pow2(pos) < quotient * divider + divider ==>
              quotient * d <= dividend * 0x2_0000 < quotient * d + d
  {
    var p, c := Pow2(pos), Pow2(17 - pos);
    Pow2Add(pos, 17 - pos);
    Pow2Words();
    UnreducedBy(dividend, d, divider, p, c, quotient);
  }

  lemma UnreducedBy(dividend: nat, d: nat, divider: nat, p: nat, c: nat, quotient: nat)
    requires p >= 1 && c >= 1 && p * c == 0x2_0000 && d == divider * c
    ensures dividend * p < 0x1_0000_0000 * divider <==> dividend < 0x8000 * d
    ensures quotient * divider <= dividend * p < quotient * divider + divider ==>
              quotient * d <= dividend * 0x2_0000 < quotient * d + d
  {
    var w := dividend * p;
    MulAssociates(dividend, p, c);
    MulAssociates(quotient, divider, c);
    MulDistributes(quotient * divider, divider, c);
    MulAssociates(0x1_0000_0000, divider, c);
    SameOrder(w, 0x1_0000_0000 * divider, c);
    SameOrder(quotient * divider, w + 1, c);
    SameOrder(w, quotient * divider + divider, c);
    if quotient * divider <= w {
      Monotone(quotient * divider, w, c);
    }
  }

  lemma SameOrder(a: int, b: int, c: int)
    requires c >= 1
    ensures a < b <==> a * c < b * c
  {
    if a < b {
      Smaller(a, b, c);
    } else {
      Monotone(b, a, c);
    }
  }

  /** What the estimate leaves of the dividend. */
  lemma StartLeaves(m: nat, d: nat)
    requires d >= LARGE
    ensures var q, rest := Start(m, d), m - Start(m, d) * d / 0x2_0000;
            0 <= rest <= m && q <= m / 8 && q * d + rest * 0x2_0000 == m * 0x2_0000 + Slack(m, d)
  {
    var s := d / 0x2_0000 + 1;
    DivMod(m, s);
    var q := m / s;
    MulNonnegative(q, d);
    MulNonnegative(q, s * 0x2_0000 - d);
    MulDistributes(s * 0x2_0000 - d, d, q);
    MulAssociates(0x2_0000, s, q);
    MulNonnegative(q, s - 8);
    MulDistributes(s - 8, 8, q);
  }

  /** The estimate leaves a quotient that fits. */
  lemma RestFits(rest: nat, d: nat, divider: nat, pos: nat)
    requires pos <= 17 && d == divider * Pow2(17 - pos) && divider > 0 && rest < 0x4000 * d
    ensures rest * Pow2(pos) < 0x8000_0000 * divider
  {
    hide Pow2;
    Pow2Words();
    Pow2Add(pos, 17 - pos);
    var p, c := Pow2(pos), Pow2(17 - pos);
    MulAssociates(rest, p, c);
    MulAssociates(0x8000_0000, divider, c);
    LessFactor(rest * p, 0x8000_0000 * divider, c);
  }

  /** The two parts of the quotient make up the whole, and there is room to round it. */
  lemma WholeQuotient(m: nat, d: nat, rest: nat, q: nat, start: nat)
    requires d > 0 && start <= q && m <= 0x8000_0000 && m < 0x8000 * d
    requires if d < LARGE then start == 0 && rest == m
             else start * d + rest * 0x2_0000 == m * 0x2_0000 + Slack(m, d)
    requires (q - start) * d <= rest * 0x2_0000 < (q - start) * d + d
    ensures q < 0xFFFF_FFFF && (q + 1) / 2 == SizeDiv(m, d)
  {
    hide Slack;
    SlackSmall(m, d);
    var n := if d < LARGE then m * 0x2_0000 else m * 0x2_0000 + Slack(m, d);
    MulDistributes(q - start, start, d);
    DivUnique(n, d, q, n - q * d);
    LessFactor(q, 0xFFFF_FFFF, d);
  }

  /**
   `fix16_div`: overflow exactly when the quotient is 2^15 or more, and otherwise the rounded
   quotient with its sign.
   */
  method Div(a: int, b: int) returns (result: int)
    requires -0x8000_0000 <= a <= 0x7FFF_FFFF && -0x8000_0000 <= b <= 0x7FFF_FFFF
    ensures result == FixDiv(a, b)
  {
    hide Slack, Start, SizeDiv;
    if b == 0 {
      return MINIMUM;
    }
    var remainder: uint32 := Abs(a);
    var divider: uint32 := Abs(b);
    var quotient: uint32 := 0;
    ghost var start := 0;
    if divider >= LARGE {
      quotient := KickStart(remainder, divider);
      start := quotient;
      remainder := remainder - quotient * divider / 0x2_0000;
    }
    ghost var rest := remainder;
    var bitPos: nat;
    var fits;
    divider, bitPos := Reduce(divider);
    if Abs(b) >= LARGE {
      RestFits(rest, Abs(b), divider, bitPos);
    }
    quotient, fits := Quotient(remainder, divider, bitPos, quotient);
    Unreduced(rest, Abs(b), divider, bitPos, quotient - start);
    if !fits {
      return OVERFLOW;
    }
    WholeQuotient(Abs(a), Abs(b), rest, quotient, start);
    quotient := quotient + 1;
    result := quotient / 2;
    if (a < 0) != (b < 0) {
      result := -result;
    }
  }

  /** The estimate for a large divider. */
  method KickStart(remainder: uint32, divider: uint32) returns (quotient: uint32)
    requires remainder <= 0x8000_0000 && LARGE <= divider <= 0x8000_0000
    ensures quotient == Start(remainder, divider) < 0x8000_0000
    ensures quotient * divider / 0x2_0000 <= remainder
    ensures var rest := remainder - quotient * divider / 0x2_0000;
            0 <= rest <= 0x8000_0000
            && quotient * divider + rest * 0x2_0000 == remainder * 0x2_0000 + Slack(remainder, divider)
  {
    StartLeaves(remainder, divider);
    var shiftedDiv: uint32 := divider / 0x2_0000 + 1;
    quotient := Div32(remainder, shiftedDiv);
  }

  // ---- Multiplication

  /** n / 65536 rounded, halves away from zero. */
  function Units(n: int): int {
    var r: int := RoundDiv(Abs(n), 0x1_0000);
    if n < 0 then -r else r
  }

  /** That, or the overflow value if it does not fit. */
  function ExactOf(n: int): int {
    if Fits32(Units(n)) then Units(n) else OVERFLOW
  }

  /** The sum of the two middle products, each of an upper and a lower half. */
  function Middle(a: int, b: int): int {
    a / 0x1_0000 * (b % 0x1_0000) + b / 0x1_0000 * (a % 0x1_0000)
  }

  /** The product with the middle sum kept in a word, as the code adds it up. */
  function AddedUp(a: int, b: int): int {
    a * b - (Middle(a, b) - Int32(Middle(a, b))) * 0x1_0000
  }

  /**
   The middle sum fits its word; or it is too large and the product so large that overflow is
   noticed all the same; or it is too small, which the code takes for an overflow, and there is one.
   */
  predicate MiddleRight(a: int, b: int) {
    var m := Middle(a, b);
    || Fits32(m)
    || (m > 0 && a * b >= 0x1_8000_0000_0000 - 0x8000)
    || (m < 0 && a * b >= 0x8000_0000_0000 - 0x8000)
  }

  lemma UnitsOf(n: int)
    ensures Units(n) == if n < 0 then -((0x8000 - n) / 0x1_0000) else (n + 0x8000) / 0x1_0000
  {
  }

  lemma OverflowsWhen(n: int)
    ensures ExactOf(n) == OVERFLOW <==> n >= 0x8000_0000_0000 - 0x8000 || n <= -0x8000_0000_0000 + 0x8000
  {
    hide Units;
    UnitsOf(n);
  }

  /** A middle sum out of its word: both factors are large, or both are negative. */
  lemma MiddleLarge(a: int, b: int)
    requires Fits32(a) && Fits32(b)
    ensures Middle(a, b) >= 0x8000_0000 ==> a * b >= 0xFFFF_0000_0000
    ensures Middle(a, b) < -0x8000_0000 ==> a < 0 && b < 0 && a * b > 0
  {
    hide Middle;
    MiddleParts(a, b);
    if Middle(a, b) >= 0x8000_0000 {
      BothLarge(a / 0x1_0000, b / 0x1_0000);
      LargeProduct(a, b);
    } else if Middle(a, b) < -0x8000_0000 {
      BothNegative(a, b);
    }
  }

  lemma LargeProduct(a: int, b: int)
    requires a / 0x1_0000 * (b / 0x1_0000) >= 0xFFFE && Middle(a, b) >= 0x8000_0000
    ensures a * b >= 0xFFFF_0000_0000
  {
    hide Middle;
    Halves(a, b);
    MulNonnegative(a % 0x1_0000, b % 0x1_0000);
  }

  lemma BothLarge(x: int, y: int)
    requires x + y >= 0x8001 && x < 0x8000 && y < 0x8000
    ensures x * y >= 0xFFFE
  {
    MulNonnegative(x - 2, y - 2);
    MulDistributes(x, -2, y - 2);
    MulDistributes(y, -2, x);
  }

  lemma MiddleParts(a: int, b: int)
    requires Fits32(a) && Fits32(b)
    ensures var A, C, m := a / 0x1_0000, b / 0x1_0000, Middle(a, b);
            && m <= (if A >= 0 then A * 0xFFFF else 0) + (if C >= 0 then C * 0xFFFF else 0)
            && m >= (if A >= 0 then 0 else A * 0xFFFF) + (if C >= 0 then 0 else C * 0xFFFF)
  {
    HalfProduct(a / 0x1_0000, b % 0x1_0000);
    HalfProduct(b / 0x1_0000, a % 0x1_0000);
  }

  lemma BothNegative(a: int, b: int)
    requires a < 0 && b < 0
    ensures a * b > 0
  {
    MulNonnegative(-a - 1, -b - 1);
    MulDistributes(-a, -1, -b - 1);
    MulDistributes(-b, -1, -a);
  }

  /** An upper half times a lower one. */
  lemma HalfProduct(x: int, y: nat)
    requires -0x8000 <= x < 0x8000 && y < 0x1_0000
    ensures x >= 0 ==> 0 <= x * y <= x * 0xFFFF
    ensures x < 0 ==> x * 0xFFFF <= x * y <= 0
  {
    MulDistributes(0xFFFF - y, y, x);
    if x >= 0 {
      MulNonnegative(x, y);
      MulNonnegative(x, 0xFFFF - y);
    } else {
      MulNonnegative(-x - 1, y);
      MulNonnegative(-x - 1, 0xFFFF - y);
      MulDistributes(-x, -1, y);
      MulDistributes(-x, -1, 0xFFFF - y);
    }
  }

  /** The product from its halves. */
  lemma Halves(a: int, b: int)
    ensures var A, B, C, D := a / 0x1_0000, a % 0x1_0000, b / 0x1_0000, b % 0x1_0000;
            a * b == A * C * 0x1_0000_0000 + Middle(a, b) * 0x1_0000 + B * D
  {
    var A, B, C, D := a / 0x1_0000, a % 0x1_0000, b / 0x1_0000, b % 0x1_0000;
    MulDistributes(A * 0x1_0000, B, b);
    MulDistributes(C * 0x1_0000, D, A * 0x1_0000);
    MulDistributes(C * 0x1_0000, D, B);
    MulAssociates(0x1_0000, A, D);
    MulAssociates(0x1_0000, C, B);
  }

  lemma HalvesAdded(a: int, b: int)
    ensures var A, B, C, D := a / 0x1_0000, a % 0x1_0000, b / 0x1_0000, b % 0x1_0000;
            && AddedUp(a, b) == A * C * 0x1_0000_0000 + Int32(A * D + C * B) * 0x1_0000 + B * D
            && Fits32(Int32(A * D + C * B))
  {
    Halves(a, b);
  }

  /** The product comes out rounded, or as an overflow, exactly when the middle sum does no harm. */
  lemma MulIff(a: int, b: int)
    requires Fits32(a) && Fits32(b)
    ensures ExactOf(AddedUp(a, b)) == ExactOf(a * b) <==> MiddleRight(a, b)
  {
    hide ExactOf, Middle;
    MiddleLarge(a, b);
    MiddleRange(a, b);
    OverflowsWhen(a * b);
    OverflowsWhen(AddedUp(a, b));
  }

  lemma MiddleRange(a: int, b: int)
    requires Fits32(a) && Fits32(b)
    ensures -0x1_0000_0000 <= Middle(a, b) < 0x1_0000_0000
  {
    HalfProduct(a / 0x1_0000, b % 0x1_0000);
    HalfProduct(b / 0x1_0000, a % 0x1_0000);
  }

  /** An overflow that is not noticed, and one that is none: the product of the second pair is 32767. */
  lemma MiddleWraps()
    ensures ExactOf(AddedUp(0x2_FFFF, 0x7FFF_FFFF)) == 2147450877 && ExactOf(0x2_FFFF * 0x7FFF_FFFF) == OVERFLOW
    ensures ExactOf(AddedUp(-1, -0x7FFF_0001)) == OVERFLOW && ExactOf(-1 * -0x7FFF_0001) == 32767
  {
  }

  /**
   `fix16_mul` from 16-bit halves: what the words add up to, rounded to the nearest, halves away
   from zero, or the overflow value.
   */
  method Mul(inArg0: int, inArg1: int) returns (result: int)
    requires Fits32(inArg0) && Fits32(inArg1)
    ensures result == ExactOf(AddedUp(inArg0, inArg1))
  {
    hide ExactOf, AddedUp, Middle, Int32;
    var A, C := inArg0 / 0x1_0000, inArg1 / 0x1_0000;
    var B, D := inArg0 % 0x1_0000, inArg1 % 0x1_0000;
    UpperProduct(A, C);
    ProductBound(B, D);
    var AC := A * C;
    var AD_CB := Int32(A * D + C * B);
    var BD: uint32 := B * D;
    Assembled(AC, AD_CB, BD);
    HalvesAdded(inArg0, inArg1);
    var productHi := AC + AD_CB / 0x1_0000;
    var low: uint32 := AD_CB * 0x1_0000 % 0x1_0000_0000;
    var productLo: uint32 := (BD + low) % 0x1_0000_0000;
    if productLo < BD {
      productHi := productHi + 1;
    }
    result := RoundProduct(productHi, productLo, AddedUp(inArg0, inArg1));
  }

  lemma UpperProduct(x: int, y: int)
    requires -0x8000 <= x < 0x8000 && -0x8000 <= y < 0x8000
    ensures -0x4000_0000 <= x * y <= 0x4000_0000
  {
    MulNonnegative(0x8000 - x, 0x8000 + y);
    MulNonnegative(0x8000 + x, 0x8000 - y);
    MulNonnegative(0x8000 + x, 0x8000 + y);
    MulNonnegative(0x8000 - x, 0x8000 - y);
    MulDistributes(0x8000, x, 0x8000 + y);
    MulDistributes(0x8000, -x, 0x8000 + y);
    MulDistributes(0x8000, x, 0x8000 - y);
    MulDistributes(0x8000, -x, 0x8000 - y);
    MulDistributes(0x8000, y, x);
    MulDistributes(0x8000, -y, x);
    MulDistributes(0x8000, y, -x);
    MulDistributes(0x8000, -y, -x);
  }

  /** Adding the middle sum to the low product, with the carry. */
  lemma Assembled(upper: int, middle: int, low: nat)
    requires low < 0x1_0000_0000
    ensures var added := middle * 0x1_0000 % 0x1_0000_0000;
            var lo := (low + added) % 0x1_0000_0000;
            var hi := upper + middle / 0x1_0000 + if lo < low then 1 else 0;
            hi * 0x1_0000_0000 + lo == upper * 0x1_0000_0000 + middle * 0x1_0000 + low
  {
    DivUnique(middle * 0x1_0000, 0x1_0000_0000, middle / 0x1_0000, middle % 0x1_0000 * 0x1_0000);
  }

  /** What is left of the low half when half a unit is taken off, one more for negative numbers. */
  function LowLeft(lo: int, off: int): int {
    if lo >= off then lo - off else lo - off + 0x1_0000_0000
  }

  /** Taking it off in two steps, and noticing the borrow. */
  lemma HalfOff(lo: nat, one: nat)
    requires lo < 0x1_0000_0000 && one <= 1
    ensures var low := LowLeft(lo, 0x8000 + one);
            ((lo - 0x8000) % 0x1_0000_0000 - one) % 0x1_0000_0000 == low && (low > lo <==> lo < 0x8000 + one)
  {
    var first := (lo - 0x8000) % 0x1_0000_0000;
    DivUnique(lo - 0x8000, 0x1_0000_0000, if lo >= 0x8000 then 0 else -1, LowLeft(lo, 0x8000));
    DivUnique(first - one, 0x1_0000_0000, if first >= one then 0 else -1, LowLeft(first, one));
  }

  /** Dropping the low half of what is left and adding one rounds. */
  lemma OneAdded(hi: int, lo: nat)
    requires lo < 0x1_0000_0000
    ensures var off := 0x8000 + if hi < 0 then 1 else 0;
            Units(hi * 0x1_0000_0000 + lo)
            == (if lo >= off then hi else hi - 1) * 0x1_0000 + LowLeft(lo, off) / 0x1_0000 + 1
  {
    hide Units;
    var n := hi * 0x1_0000_0000 + lo;
    var off := 0x8000 + if hi < 0 then 1 else 0;
    var high, low := if lo >= off then hi else hi - 1, LowLeft(lo, off);
    UnitsOf(n);
    FloorDiv(n - off, high, low);
    var q, r := high * 0x1_0000 + low / 0x1_0000, low % 0x1_0000;
    if n < 0 {
      DivUnique(0x8000 - n, 0x1_0000, -(q + 1), 0xFFFF - r);
    } else {
      DivUnique(n + 0x8000, 0x1_0000, q + 1, r);
    }
  }

  lemma FloorDiv(n: int, high: int, low: nat)
    requires n == high * 0x1_0000_0000 + low
    ensures n == (high * 0x1_0000 + low / 0x1_0000) * 0x1_0000 + low % 0x1_0000
  {
  }

  /** The check on the upper bits is the check that they are all the sign. */
  lemma SignBits(hi: int)
    requires Fits32(hi)
    ensures hi / 0x8000_0000 == hi / 0x8000 <==> -0x8000 <= hi < 0x8000
  {
  }

  /** Storing what was rounded. */
  lemma Stored(hi: int, lo: nat, n: int)
    requires lo < 0x1_0000_0000 && n == hi * 0x1_0000_0000 + lo
    ensures -0x8000 <= hi < 0x8000 ==> Int32(Int32(Units(n) - 1) + 1) == ExactOf(n)
    ensures !(-0x8000 <= hi < 0x8000) ==> ExactOf(n) == OVERFLOW
  {
    hide Units;
    UnitsOf(n);
  }

  /** The end of `fix16_mul`. */
  method RoundProduct(hi: int, lo: uint32, ghost product: int) returns (result: int)
    requires hi * 0x1_0000_0000 + lo == product && -0x8000_0000 <= hi < 0x8000_0000
    ensures result == ExactOf(product)
  {
    hide ExactOf, Int32, LowLeft, Units;
    SignBits(hi);
    HalfOff(lo, if hi < 0 then 1 else 0);
    OneAdded(hi, lo);
    Stored(hi, lo, product);
    var productHi: int, productLo: uint32 := hi, lo;
    if productHi / 0x8000_0000 != productHi / 0x8000 {
      return OVERFLOW;
    }
    var before := productLo;
    productLo := (productLo - 0x8000) % 0x1_0000_0000;
    productLo := (productLo - (if productHi < 0 then 1 else 0)) % 0x1_0000_0000;
    if productLo > before {
      productHi := productHi - 1;
    }
    result := Int32(productHi * 0x1_0000 + productLo / 0x1_0000);
    result := Int32(result + 1);
  }

  lemma ProductBound(x: nat, y: nat)
    requires x < 0x1_0000 && y < 0x1_0000
    ensures 0 <= x * y < 0x1_0000_0000
  {
    MulNonnegative(x, y);
    Monotone(x, 0xFFFF, y);
  }

  /** On what the printer multiplies, a fraction and a power of ten, nothing goes wrong. */
  lemma SmallProduct(frac: nat, scale: nat)
    requires frac < 0x1_0000 && scale <= 100000
    ensures ExactOf(AddedUp(frac, scale)) == RoundDiv(frac * scale, 0x1_0000)
  {
    hide Middle, ExactOf, RoundDiv, Int32;
    SmallMiddle(frac, scale);
    MulNonnegative(frac, scale);
    Monotone(frac, 0xFFFF, scale);
    InWord(Middle(frac, scale));
    SmallUnits(frac * scale);
  }

  lemma SmallMiddle(frac: nat, scale: nat)
    requires frac < 0x1_0000 && scale <= 100000
    ensures 0 <= Middle(frac, scale) < 0x1_0000
  {
    var C := scale / 0x1_0000;
    assert C == 0 || C == 1;
    assert frac / 0x1_0000 == 0 && frac % 0x1_0000 == frac;
    assert 0 * (scale % 0x1_0000) == 0;
  }

  lemma SmallUnits(n: nat)
    requires n < 0x4000_0000_0000
    ensures ExactOf(n) == RoundDiv(n, 0x1_0000)
  {
    hide RoundDiv;
    RoundToHalf(n);
  }

  lemma RoundToHalf(n: nat)
    ensures RoundDiv(n, 0x1_0000) == (n + 0x8000) / 0x1_0000
  {
  }
}
