/**
 64-bit division built from 32-bit halves: the eight case splits, the restoring
 shift-and-subtract loop with its sign-mask comparison, and the signed wrappers.
 */
module Division {
  import opened Basics
  import opened Bits

  /** A 64-bit word from its two halves. */
  function All(high: int, low: int): int {
    high * W32 + low
  }

  ghost predicate Word32(x: int) {
    0 <= x < W32
  }

  ghost predicate Word64(x: int) {
    0 <= x < W64
  }

  /** `q` and `r` are the quotient and the remainder of `a` by `b`. */
  ghost predicate Divides(a: nat, b: nat, q: nat, r: nat) {
    a == q * b + r && r < b
  }

  lemma DividesUnique(a: nat, b: nat, q: nat, r: nat)
    requires Divides(a, b, q, r)
    ensures q == a / b && r == a % b
  {
    DivUnique(a, b, q, r);
  }

  // ---- The comparison by sign mask

  /** The 64-bit word of a sign: all ones for a negative number. */
  function SignMask(x: nat): nat
    requires Word64(x)
  {
    if x >= 0x8000_0000_0000_0000 then W64 - 1 else 0
  }

  /** A 64-bit subtraction that wraps around. */
  function Sub64(a: int, b: int): nat {
    (a - b) % W64
  }

  /**
   The mask of `d - r - 1` is all ones exactly when `r >= d`, as long as `r < 2 * d` and a
   divisor beyond 2^63 only meets remainders no smaller.
   */
  lemma MaskCompares(d: nat, r: nat)
    requires 0 < d && Word64(d) && Word64(r) && r < 2 * d
    requires d > 0x8000_0000_0000_0000 ==> r >= 0x8000_0000_0000_0000
    ensures SignMask(Sub64(Sub64(d, r), 1)) == if r >= d then W64 - 1 else 0
  {
    assert Sub64(Sub64(d, r), 1) == if r >= d then W64 + d - r - 1 else d - r - 1;
  }

  /** A sign mask selects all of a word or nothing. */
  lemma MaskSelects(d: nat, s: nat)
    requires Word64(d) && (s == W64 - 1 || s == 0)
    ensures And(d, s) == if s == 0 then 0 else d
    ensures And(s, 1) == if s == 0 then 0 else 1
  {
    hide And, Pow2;
    Pow2Words();
    Pow2Step(0);
    AndZero(d);
    AndMask(d, 64, 0, d);
    AndMask(s, 1, s / 2, s % 2);
  }

  lemma Wraps(x: int)
    requires Word64(x)
    ensures x % W64 == x
  {
  }

  // ---- One shift of the register pair

  /** `(x << 1) | bit` in a 32-bit word. */
  lemma ShiftIn(x: nat, bit: nat)
    requires Word32(x) && bit <= 1
    ensures Or(Shl32(x, 1), bit) == if x >= 0x8000_0000 then 2 * x + bit - W32 else 2 * x + bit
  {
    assert Pow2(1) == 2;
    var y := Shl32(x, 1);
    assert y == if x >= 0x8000_0000 then 2 * x - W32 else 2 * x;
    OrDisjoint(y, bit, 1, y / 2);
  }

  function Top32(x: nat): nat {
    Shr(x, 31)
  }

  lemma TopBit(x: nat)
    requires Word32(x)
    ensures Top32(x) == if x >= 0x8000_0000 then 1 else 0
  {
    ShrDiv(x, 31);
    Pow2Words();
  }

  /** The four half-word shifts are one shift of the 128-bit pair r:q. */
  lemma PairShifted(rh: nat, rl: nat, qh: nat, ql: nat, carry: nat, bit: nat, rest: nat)
    requires Word32(rh) && Word32(rl) && Word32(qh) && Word32(ql) && carry <= 1
    requires All(qh, ql) == bit * 0x8000_0000_0000_0000 + rest && rest < 0x8000_0000_0000_0000
    requires Word64(2 * All(rh, rl) + bit)
    ensures bit <= 1
    ensures var rh' := Or(Shl32(rh, 1), Top32(rl));
            var rl' := Or(Shl32(rl, 1), Top32(qh));
            var qh' := Or(Shl32(qh, 1), Top32(ql));
            var ql' := Or(Shl32(ql, 1), carry);
            && Word32(rh') && Word32(rl') && Word32(qh') && Word32(ql')
            && All(rh', rl') == 2 * All(rh, rl) + bit
            && All(qh', ql') == 2 * rest + carry
  {
    hide Or, Shl32, Shr, Top32;
    TopBit(rl);
    TopBit(qh);
    TopBit(ql);
    ShiftIn(rh, Top32(rl));
    ShiftIn(rl, Top32(qh));
    ShiftIn(qh, Top32(ql));
    ShiftIn(ql, carry);
  }

  // ---- The loop

  /**
   What the register pair holds with `sr` steps to go: the top of `q` is the part of `n` not
   yet consumed, the bottom with `carry` is the quotient so far, and `r` the remainder.
   */
  ghost predicate Running(n: nat, d: nat, sr: nat, q: int, r: int, carry: int, done: nat) {
    && sr <= 64 && 0 <= carry <= 1 && 0 <= r < d
    && done < Pow2(64 - sr)
    && q == n % Pow2(sr) * Pow2(64 - sr) + done
    && n / Pow2(sr) == (2 * done + carry) * d + r
  }

  /** The top bit of `q` is the next bit of `n`. */
  lemma NextBit(n: nat, sr: nat, q: int, done: nat) returns (bit: nat, rest: nat)
    requires 0 < sr <= 64 && q == n % Pow2(sr) * Pow2(64 - sr) + done && done < Pow2(64 - sr)
    ensures bit <= 1 && rest < 0x8000_0000_0000_0000 && q == bit * 0x8000_0000_0000_0000 + rest
    ensures n / Pow2(sr - 1) == 2 * (n / Pow2(sr)) + bit
    ensures 2 * rest == n % Pow2(sr - 1) * Pow2(65 - sr) + 2 * done
  {
    hide Pow2;
    Weights(sr);
    bit, rest := n / Pow2(sr - 1) % 2, n % Pow2(sr - 1) * Pow2(64 - sr) + done;
    NextBitOf(n, Pow2(sr - 1), Pow2(64 - sr), done);
  }

  lemma Weights(sr: nat)
    requires 0 < sr <= 64
    ensures Pow2(sr - 1) * Pow2(64 - sr) == 0x8000_0000_0000_0000
    ensures Pow2(sr) == 2 * Pow2(sr - 1) && Pow2(65 - sr) == 2 * Pow2(64 - sr)
  {
    Pow2Words();
    Pow2Add(sr - 1, 64 - sr);
  }

  lemma NextBitOf(n: nat, p: nat, c: nat, done: nat)
    requires p >= 1 && p * c == 0x8000_0000_0000_0000 && done < c
    ensures n / p >= 0 && n / p == 2 * (n / (2 * p)) + n / p % 2
    ensures 0 <= n % p * c + done < 0x8000_0000_0000_0000
    ensures n % (2 * p) * c + done == n / p % 2 * 0x8000_0000_0000_0000 + (n % p * c + done)
    ensures 2 * (n % p * c + done) == n % p * (2 * c) + 2 * done
  {
    SplitTop(n, p);
    var bit, l := n / p % 2, n % p;
    Scaled(l, p, c, done);
    assert (bit * p + l) * c == bit * (p * c) + l * c by {
      assert (bit * p) * c == bit * (p * c);
    }
    assert l * (2 * c) == 2 * (l * c);
  }

  lemma Scaled(l: nat, p: nat, c: nat, done: nat)
    requires l < p && done < c
    ensures l * c + done < p * c
  {
    assert (l + 1) * c <= p * c;
  }

  lemma SplitTop(n: nat, p: nat)
    requires p >= 1
    ensures n / p >= 0 && n % p < p
    ensures n / (2 * p) == n / p / 2 && n / p == n / p / 2 * 2 + n / p % 2
    ensures n % (2 * p) == n / p % 2 * p + n % p
  {
    DivMod(n, p);
    var h, l := n / p, n % p;
    assert h * p == h / 2 * (2 * p) + h % 2 * p by {
      assert h == h / 2 * 2 + h % 2;
      assert (h / 2 * 2 + h % 2) * p == h / 2 * (2 * p) + h % 2 * p;
    }
    DivUnique(n, 2 * p, h / 2, h % 2 * p + l);
  }

  /** One subtraction step keeps the division so far. */
  lemma StepKeeps(d: nat, k: nat, r: int, bit: nat, whole: int, next: int)
    requires 0 <= r < d && bit <= 1 && whole == k * d + r && next == 2 * whole + bit
    ensures 2 * r + bit <= next && 2 * r + bit < 2 * d
    ensures 2 * r + bit >= d ==> next == (2 * k + 1) * d + (2 * r + bit - d) && 2 * r + bit - d < d
    ensures 2 * r + bit < d ==> next == 2 * k * d + (2 * r + bit)
    ensures d > 0x8000_0000_0000_0000 && Word64(next) ==> k == 0
  {
    assert next == 2 * (k * d) + (2 * r + bit);
    assert (2 * k + 1) * d == 2 * (k * d) + d;
    if k >= 1 {
      assert k * d >= d;
    }
  }

  lemma DivAtMost(n: nat, p: nat)
    requires p >= 1
    ensures 0 <= n / p <= n
  {
    DivMod(n, p);
    if n / p >= 1 {
      assert n / p * p >= n / p;
    }
  }

  /** What comes out of the comparison and the subtraction, in terms of the quotient so far. */
  lemma RoundKeeps(n: nat, d: nat, sr: nat, q: int, r: int, carry: nat, done: nat, bit: nat, rest: nat)
    requires Word64(n) && sr > 0 && Running(n, d, sr, q, r, carry, done)
    requires bit <= 1 && n / Pow2(sr - 1) == 2 * (n / Pow2(sr)) + bit
    requires 2 * rest == n % Pow2(sr - 1) * Pow2(65 - sr) + 2 * done
    ensures Word64(2 * r + bit) && 2 * r + bit < 2 * d
    ensures d > 0x8000_0000_0000_0000 && sr == 1 && n >= 0x8000_0000_0000_0000 ==>
              2 * r + bit >= 0x8000_0000_0000_0000
    ensures var carry' := if 2 * r + bit >= d then 1 else 0;
            Running(n, d, sr - 1, 2 * rest + carry, 2 * r + bit - carry' * d, carry', 2 * done + carry)
  {
    StepKeeps(d, 2 * done + carry, r, bit, n / Pow2(sr), n / Pow2(sr - 1));
    DivAtMost(n, Pow2(sr - 1));
    assert Pow2(65 - sr) == 2 * Pow2(64 - sr);
    assert Pow2(0) == 1;
  }

  /** The branch-free comparison: the sign mask of `d - r - 1` is the carry and selects what to subtract. */
  method CompareSubtract(d: nat, r: nat) returns (carry: nat, left: nat)
    requires 0 < d && Word64(d) && Word64(r) && r < 2 * d
    requires d > 0x8000_0000_0000_0000 ==> r >= 0x8000_0000_0000_0000
    ensures carry == (if r >= d then 1 else 0) && left == r - carry * d
  {
    MaskCompares(d, r);
    var s := SignMask(Sub64(Sub64(d, r), 1));
    MaskSelects(d, s);
    hide And, SignMask;
    carry := And(s, 1);
    left := Sub64(r, And(d, s));
    Wraps(r - And(d, s));
  }

  /** One round of the loop: shift, compare by sign mask, subtract. */
  method Round(ghost n: nat, d: nat, ghost sr: nat, qh: nat, ql: nat, rh: nat, rl: nat, carry: nat, ghost done: nat)
    returns (qh': nat, ql': nat, rh': nat, rl': nat, carry': nat)
    requires Word64(n) && 0 < d && Word64(d) && Word32(qh) && Word32(ql) && Word32(rh) && Word32(rl)
    requires sr > 0 && Running(n, d, sr, All(qh, ql), All(rh, rl), carry, done)
    requires d > 0x8000_0000_0000_0000 ==> sr == 1 && n >= 0x8000_0000_0000_0000
    ensures Word32(qh') && Word32(ql') && Word32(rh') && Word32(rl')
    ensures Running(n, d, sr - 1, All(qh', ql'), All(rh', rl'), carry', 2 * done + carry)
  {
    hide And, Or, Shl32, Top32, Pow2;
    ghost var bit, rest := NextBit(n, sr, All(qh, ql), done);
    RoundKeeps(n, d, sr, All(qh, ql), All(rh, rl), carry, done, bit, rest);
    PairShifted(rh, rl, qh, ql, carry, bit, rest);
    rh' := Or(Shl32(rh, 1), Top32(rl));
    rl' := Or(Shl32(rl, 1), Top32(qh));
    qh' := Or(Shl32(qh, 1), Top32(ql));
    ql' := Or(Shl32(ql, 1), carry);
    var left;
    carry', left := CompareSubtract(d, All(rh', rl'));
    rh', rl' := left / W32, left % W32;
  }

  /** The restoring loop. */
  method Restore(ghost n: nat, d: nat, qh0: nat, ql0: nat, rh0: nat, rl0: nat, sr0: nat) returns (q: nat, r: nat)
    requires Word64(n) && Word64(d) && Word32(qh0) && Word32(ql0) && Word32(rh0) && Word32(rl0) && 1 <= sr0 <= 63
    requires Loaded(n, d, sr0, All(qh0, ql0), All(rh0, rl0))
    ensures Divides(n, d, q, r) && Word64(q)
  {
    var qh, ql, rh, rl, sr, carry := qh0, ql0, rh0, rl0, sr0, 0;
    ghost var done := 0;
    while sr > 0
      invariant Word32(qh) && Word32(ql) && Word32(rh) && Word32(rl)
      invariant Running(n, d, sr, All(qh, ql), All(rh, rl), carry, done)
      invariant d > 0x8000_0000_0000_0000 ==> sr <= 1 && n >= 0x8000_0000_0000_0000
    {
      ghost var done' := 2 * done + carry;
      qh, ql, rh, rl, carry := Round(n, d, sr, qh, ql, rh, rl, carry, done);
      done, sr := done', sr - 1;
    }
    Finish(n, d, All(qh, ql), All(rh, rl), carry, done);
    r := All(rh, rl);
    q := Or(All(qh, ql) * 2 % W64, carry);
  }

  lemma Finish(n: nat, d: nat, q: nat, r: nat, carry: nat, done: nat)
    requires Word64(n) && Running(n, d, 0, q, r, carry, done)
    ensures Divides(n, d, Or(q * 2 % W64, carry), r) && Word64(Or(q * 2 % W64, carry))
  {
    RunningDone(n, d, q, r, carry, done);
    hide Running;
    AtLeast(2 * done + carry, d, r);
    OrBit(q, carry);
    Wraps(q * 2);
  }

  lemma OrBit(x: nat, bit: nat)
    requires bit <= 1
    ensures Or(x * 2, bit) == 2 * x + bit
  {
    assert Pow2(1) == 2;
    OrDisjoint(x * 2, bit, 1, x);
  }

  lemma RunningDone(n: nat, d: nat, q: nat, r: nat, carry: nat, done: nat)
    requires Running(n, d, 0, q, r, carry, done)
    ensures q == done && n == (2 * done + carry) * d + r && r < d && carry <= 1
  {
    var one := Pow2(0);
    assert one == 1;
    assert n % one == 0 && n / one == n;
    assert n % one * Pow2(64) == 0;
  }

  lemma AtLeast(k: nat, d: nat, r: nat)
    requires d >= 1
    ensures k <= k * d + r
  {
    assert k * d == k + k * (d - 1);
  }

  /** The registers as every branch leaves them: `q = n << (64 - sr)`, `r = n >> sr`, and `r < d`. */
  ghost predicate Loaded(n: nat, d: nat, sr: nat, q: int, r: int) {
    && 1 <= sr <= 63
    && q == n % Pow2(sr) * Pow2(64 - sr)
    && r == n / Pow2(sr) && r < d
    && (d > 0x8000_0000_0000_0000 ==> sr == 1 && n >= 0x8000_0000_0000_0000)
  }

  // ---- Loading the registers

  lemma MulMonotone(a: nat, b: nat, p: nat)
    ensures a >= b ==> a * p >= b * p
  {
  }

  /** Cutting a two-word number at bit `sr <= 32` of its low word, with `p * q` a word. */
  lemma CutLow(nh: nat, nl: nat, p: nat, q: nat)
    requires Word32(nh) && Word32(nl) && p >= 1 && q >= 1 && p * q == W32
    ensures 0 <= nl / p && 0 <= nh % p && nh % p * q + nl / p < W32 && 0 <= nh / p <= nh
    ensures nl / p < q && 0 <= nl % p * q < W32
    ensures All(nh, nl) / p == All(nh / p, nh % p * q + nl / p)
    ensures All(nh, nl) % p == nl % p
    ensures nl * q % W32 == nl % p * q && nh * q % W32 == nh % p * q
  {
    ShiftedOut(nl, p, q);
    ShiftedOut(nh, p, q);
    DivMod(nl, p);
    DivMod(nh, p);
    DivAtMost(nh, p);
    var h, l, a, b := nh / p, nh % p, nl / p, nl % p;
    FewerThan(a, p, q);
    Scaled(l, p, q, a);
    Scaled(b, p, q, 0);
    CutSum(h, l, a, p, q);
    DivUnique(All(nh, nl), p, All(h, l * q + a), b);
  }

  /** The quotient of a word by `p` is below the `q` with which `p` makes a word. */
  lemma FewerThan(a: nat, p: nat, q: nat)
    requires a * p < W32 && p * q == W32
    ensures a < q
  {
    if a >= q {
      MulMonotone(a, q, p);
    }
  }

  lemma CutSum(h: nat, l: nat, a: nat, p: nat, q: nat)
    requires p * q == W32
    ensures All(h, l * q + a) * p == All(h * p + l, a * p)
  {
    MulDistributes(h * W32, l * q + a, p);
    MulDistributes(l * q, a, p);
    MulAssociates(l, q, p);
    MulAssociates(W32, h, p);
  }

  /** Cutting it at bit `32 + k`, where `p == 2^k`. */
  lemma CutHigh(nh: nat, nl: nat, p: nat, q: nat)
    requires Word32(nh) && Word32(nl) && p >= 1 && q >= 1 && p * q == W32
    ensures 0 <= nh / p <= nh && All(nh, nl) / (p * W32) == nh / p
    ensures All(nh, nl) % (p * W32) * q == All(nh % p * q + nl / p, nl % p * q)
  {
    CutLow(nh, nl, p, q);
    DivMod(nl, p);
    DivMod(nh, p);
    var h, l, a, b := nh / p, nh % p, nl / p, nl % p;
    MulAssociates(h, p, W32);
    MulMonotone(p, l + 1, W32);
    DivUnique(All(nh, nl), p * W32, h, l * W32 + nl);
    CutScaled(l, a, b, p, q);
  }

  lemma CutScaled(l: nat, a: nat, b: nat, p: nat, q: nat)
    requires p * q == W32
    ensures All(l, a * p + b) * q == All(l * q + a, b * q)
  {
    MulDistributes(l * W32, a * p + b, q);
    MulDistributes(a * p, b, q);
    MulAssociates(a, p, q);
    MulAssociates(W32, l, q);
  }

  /** `q` and `r` loaded for a shift of at most 31. */
  lemma LoadShort(nh: nat, nl: nat, sr: nat)
    requires Word32(nh) && Word32(nl) && 1 <= sr <= 31
    ensures var qh, rh, rl := Shl32(nl, 32 - sr), Shr(nh, sr), Or(Shl32(nh, 32 - sr), Shr(nl, sr));
            && Word32(qh) && Word32(rh) && Word32(rl)
            && All(qh, 0) == All(nh, nl) % Pow2(sr) * Pow2(64 - sr)
            && All(rh, rl) == All(nh, nl) / Pow2(sr)
  {
    var p, q := Pow2(sr), Pow2(32 - sr);
    Pow2Words();
    Pow2Add(sr, 32 - sr);
    Pow2Add(32, 32 - sr);
    ShrDiv(nh, sr);
    ShrDiv(nl, sr);
    CutLow(nh, nl, p, q);
    assert Shl32(nl, 32 - sr) == nl % p * q && Shl32(nh, 32 - sr) == nh % p * q;
    OrDisjoint(Shl32(nh, 32 - sr), Shr(nl, sr), 32 - sr, nh % p);
    hide Pow2, Shr, Or, Shl32;
    assert Pow2(64 - sr) == W32 * q;
    Regroup(nl % p, q);
  }

  lemma Regroup(x: nat, q: nat)
    ensures x * (W32 * q) == All(x * q, 0)
  {
  }

  lemma LoadMiddle(nh: nat, nl: nat)
    requires Word32(nh) && Word32(nl)
    ensures All(nl, 0) == All(nh, nl) % Pow2(32) * Pow2(32)
    ensures All(0, nh) == All(nh, nl) / Pow2(32)
  {
    Pow2Words();
  }

  /** `q` and `r` loaded for a shift of 33 and more. */
  lemma LoadLong(nh: nat, nl: nat, sr: nat)
    requires Word32(nh) && Word32(nl) && 33 <= sr <= 63
    ensures var ql, qh, rl := Shl32(nl, 64 - sr), Or(Shl32(nh, 64 - sr), Shr(nl, sr - 32)), Shr(nh, sr - 32);
            && Word32(ql) && Word32(qh) && Word32(rl)
            && All(qh, ql) == All(nh, nl) % Pow2(sr) * Pow2(64 - sr)
            && All(0, rl) == All(nh, nl) / Pow2(sr)
  {
    var p, q := Pow2(sr - 32), Pow2(64 - sr);
    Pow2Words();
    Pow2Add(sr - 32, 64 - sr);
    Pow2Add(sr - 32, 32);
    ShrDiv(nh, sr - 32);
    ShrDiv(nl, sr - 32);
    CutLow(nh, nl, p, q);
    CutHigh(nh, nl, p, q);
    OrDisjoint(Shl32(nh, 64 - sr), Shr(nl, sr - 32), 64 - sr, nh % p);
  }

  /** With `n` below 2^(sr + j) and `d` at least 2^j, `n >> sr` is below `d`. */
  lemma ShiftedBelow(n: nat, d: nat, sr: nat, j: nat)
    requires n < Pow2(sr + j) && Pow2(j) <= d
    ensures n / Pow2(sr) < d
  {
    Pow2Add(sr, j);
    var p := Pow2(sr);
    DivMod(n, p);
    MulMonotone(d, Pow2(j), p);
    MulMonotone(n / p, d, p);
  }

  /** How long a two-word number is. */
  lemma WordLength(h: nat, l: nat)
    requires 0 < h && Word32(h) && Word32(l)
    ensures 1 <= BitLength(h) <= 32
    ensures Pow2(31 + BitLength(h)) <= All(h, l) < Pow2(32 + BitLength(h))
  {
    hide Pow2, BitLength;
    BitLengthBounds(h);
    Pow2Words();
    BitLengthAtMost(h, 32);
    Pow2Word(BitLength(h));
    Pow2Word(BitLength(h) - 1);
  }

  lemma Pow2Word(n: nat)
    ensures Pow2(32 + n) == W32 * Pow2(n)
  {
    hide Pow2;
    Pow2Words();
    Pow2Add(32, n);
  }

  /** A subtraction in a 32-bit unsigned word. */
  function Sub32(a: int, b: int): nat {
    (a - b) % W32
  }

  lemma TwoWords(h: nat, l: nat)
    requires Word32(h) && Word32(l)
    ensures Word64(All(h, l)) && (h > 0 ==> All(h, l) >= W32)
  {
  }

  lemma BelowDivides(n: nat, d: nat)
    requires n < d
    ensures Divides(n, d, 0, n)
  {
  }

  /** Dividing by a divisor whose low word is zero divides the high words. */
  lemma HighOnly(nh: nat, nl: nat, dh: nat)
    requires Word32(nh) && Word32(nl) && 0 < dh
    ensures 0 <= nh / dh && 0 <= nh % dh && 0 <= All(nh % dh, nl)
    ensures Divides(All(nh, nl), All(dh, 0), nh / dh, All(nh % dh, nl))
  {
    DivMod(nh, dh);
    MulAssociates(nh / dh, dh, W32);
    MulDistributes(nh / dh * dh, nh % dh, W32);
    MulMonotone(dh, nh % dh + 1, W32);
  }

  /** Masks and shifts divide a word by a power of two. */
  lemma PowerOfTwoDivides(x: nat, d: nat)
    requires 0 < d && And(d, d - 1) == 0
    ensures d == Pow2(Ctz(d)) && And(x, d - 1) == x % d && Shr(x, Ctz(d)) == x / d
  {
    PowerOfTwoTest(d);
    DivMod(x, d);
    AndMask(x, Ctz(d), x / d, x % d);
    ShrDiv(x, Ctz(d));
  }

  lemma CtzRange(d: nat)
    requires 1 < d && Word32(d) && d == Pow2(Ctz(d))
    ensures 1 <= Ctz(d) <= 31
  {
    Pow2Words();
    assert Pow2(0) == 1;
    Pow2Reflect(Ctz(d), 32);
  }

  lemma LowRemainder(nh: nat, nl: nat, d: nat)
    requires Word32(nh) && Word32(nl) && 0 < d && Word32(d) && d == Pow2(Ctz(d))
    ensures All(nh, nl) % d == nl % d
  {
    hide Pow2, Ctz;
    Pow2Words();
    Pow2Reflect(Ctz(d), 32);
    Pow2Add(Ctz(d), 32 - Ctz(d));
    CutLow(nh, nl, d, Pow2(32 - Ctz(d)));
  }

  /** The shift count for two high words: too large exactly when `n` is plainly the smaller. */
  lemma HighShift(nh: nat, nl: nat, dh: nat, dl: nat)
    requires 0 < nh && Word32(nh) && Word32(nl) && 0 < dh && Word32(dh) && Word32(dl)
    ensures var sr := Sub32(Clz(dh), Clz(nh));
            if sr > 31 then All(nh, nl) < All(dh, dl)
            else All(nh, nl) / Pow2(sr + 1) < All(dh, dl)
                 && (All(dh, dl) > 0x8000_0000_0000_0000 ==> sr == 0 && All(nh, nl) >= 0x8000_0000_0000_0000)
    ensures Sub32(Clz(dh), Clz(nh)) == 31 ==> dh == 1
  {
    var i, j := BitLength(nh), BitLength(dh);
    WordLength(nh, nl);
    WordLength(dh, dl);
    BitLengthBounds(dh);
    assert Pow2(0) == 1 && Pow2(1) == 2;
    ClzDifference(nh, dh);
    hide BitLength, Pow2, All, Clz, Sub32;
    LengthShift(All(nh, nl), All(dh, dl), i, j);
  }

  lemma ClzDifference(nh: nat, dh: nat)
    requires 0 < nh && Word32(nh) && 0 < dh && Word32(dh)
    requires BitLength(nh) <= 32 && BitLength(dh) <= 32
    ensures var i, j := BitLength(nh), BitLength(dh);
            Sub32(Clz(dh), Clz(nh)) == if i >= j then i - j else W32 + i - j
  {
    hide BitLength;
  }

  lemma LengthShift(n: nat, d: nat, i: nat, j: nat)
    requires 1 <= i <= 32 && 1 <= j <= 32 && n < Pow2(32 + i) && Pow2(31 + i) <= n && Pow2(31 + j) <= d < Pow2(32 + j)
    ensures i < j ==> n < d
    ensures i >= j ==> n / Pow2(i - j + 1) < d
    ensures i >= j && d > 0x8000_0000_0000_0000 ==> i == j && n >= 0x8000_0000_0000_0000
  {
    Pow2Words();
    hide Pow2;
    if i < j {
      Pow2Monotone(32 + i, 31 + j);
    } else {
      ShiftedBelow(n, d, i - j + 1, 31 + j);
      if j < 32 {
        Pow2Monotone(32 + j, 63);
      }
    }
  }

  /** The shift count for a one-word divisor. */
  lemma LengthOverOne(d: nat)
    requires 1 < d && Word32(d)
    ensures 2 <= BitLength(d) <= 32
  {
    Pow2Words();
    BitLengthAtMost(d, 32);
  }

  lemma LowShift(nh: nat, nl: nat, dl: nat)
    requires 0 < nh && Word32(nh) && Word32(nl) && 1 < dl && Word32(dl) && dl != Pow2(Ctz(dl))
    ensures var sr := Sub32(1 + 32 + Clz(dl), Clz(nh)); 2 <= sr <= 63 && All(nh, nl) / Pow2(sr) < dl
  {
    hide BitLength, Pow2, All;
    WordLength(nh, nl);
    BitLengthBounds(dl);
    LengthOverOne(dl);
    ghost var i, j := BitLength(nh), BitLength(dl);
    assert Sub32(1 + 32 + Clz(dl), Clz(nh)) == 33 + i - j;
    ShiftedBelow(All(nh, nl), dl, 33 + i - j, j - 1);
  }

  /** Dividing by a divisor that is all in its high word. */
  method DivideByHigh(nh: nat, nl: nat, dh: nat) returns (q: nat, r: nat)
    requires 0 < nh && Word32(nh) && Word32(nl) && 0 < dh && Word32(dh)
    ensures Divides(All(nh, nl), All(dh, 0), q, r)
  {
    hide And, Or, Shl32, Shr, Pow2, Clz, Ctz, Sub32, All, Divides;
    HighOnly(nh, nl, dh);
    TwoWords(nh, nl);
    TwoWords(dh, 0);
    if nl == 0 {
      return nh / dh, All(nh % dh, 0);
    }
    if And(dh, dh - 1) == 0 {
      PowerOfTwoDivides(nh, dh);
      return Shr(nh, Ctz(dh)), All(And(nh, dh - 1), nl);
    }
    HighShift(nh, nl, dh, 0);
    var sr := Sub32(Clz(dh), Clz(nh));
    if sr > 30 {
      AndZero(1);
      BelowDivides(All(nh, nl), All(dh, 0));
      return 0, All(nh, nl);
    }
    sr := sr + 1;
    LoadShort(nh, nl, sr);
    q, r := Restore(All(nh, nl), All(dh, 0), Shl32(nl, 32 - sr), 0,
                    Shr(nh, sr), Or(Shl32(nh, 32 - sr), Shr(nl, sr)), sr);
  }

  /** Dividing by a power of two below a word. */
  method DivideByPower(nh: nat, nl: nat, dl: nat) returns (q: nat, r: nat)
    requires 0 < nh && Word32(nh) && Word32(nl) && 0 < dl && Word32(dl) && And(dl, dl - 1) == 0
    ensures Divides(All(nh, nl), dl, q, r)
  {
    PowerOfTwoDivides(nl, dl);
    LowRemainder(nh, nl, dl);
    DivMod(All(nh, nl), dl);
    hide And, Or, Shl32, Shr, Pow2, Ctz;
    r := And(nl, dl - 1);
    if dl == 1 {
      return All(nh, nl), r;
    }
    var sr := Ctz(dl);
    CtzRange(dl);
    LoadShort(nh, nl, sr);
    var qh := Shr(nh, sr);
    var ql := Or(Shl32(nh, 32 - sr), Shr(nl, sr));
    q := All(qh, ql);
  }

  /** Dividing by a divisor that is all in its low word. */
  method DivideByLow(nh: nat, nl: nat, dl: nat) returns (q: nat, r: nat)
    requires 0 < nh && Word32(nh) && Word32(nl) && 0 < dl && Word32(dl)
    ensures Divides(All(nh, nl), dl, q, r)
  {
    assert Word64(All(nh, nl));
    hide And, Or, Shl32, Shr, Pow2, BitLength, Ctz, Clz, Sub32, All;
    if And(dl, dl - 1) == 0 {
      q, r := DivideByPower(nh, nl, dl);
      return;
    }
    PowerOfTwoTest(dl);
    AndZero(1);
    LowShift(nh, nl, dl);
    var sr := Sub32(1 + 32 + Clz(dl), Clz(nh));
    var qh: nat, ql: nat, rh: nat, rl: nat;
    if sr == 32 {
      LoadMiddle(nh, nl);
      ql, qh, rh, rl := 0, nl, 0, nh;
    } else if sr < 32 {
      LoadShort(nh, nl, sr);
      ql, qh := 0, Shl32(nl, 32 - sr);
      rh, rl := Shr(nh, sr), Or(Shl32(nh, 32 - sr), Shr(nl, sr));
    } else {
      LoadLong(nh, nl, sr);
      ql, qh := Shl32(nl, 64 - sr), Or(Shl32(nh, 64 - sr), Shr(nl, sr - 32));
      rh, rl := 0, Shr(nh, sr - 32);
    }
    q, r := Restore(All(nh, nl), dl, qh, ql, rh, rl, sr);
  }

  /** Dividing by a divisor with both words set. */
  method DivideByBoth(nh: nat, nl: nat, dh: nat, dl: nat) returns (q: nat, r: nat)
    requires 0 < nh && Word32(nh) && Word32(nl) && 0 < dh && Word32(dh) && Word32(dl)
    ensures Divides(All(nh, nl), All(dh, dl), q, r)
  {
    hide And, Or, Shl32, Shr, Pow2, Clz, Sub32, All, Divides;
    HighShift(nh, nl, dh, dl);
    TwoWords(nh, nl);
    TwoWords(dh, dl);
    var sr := Sub32(Clz(dh), Clz(nh));
    if sr > 31 {
      BelowDivides(All(nh, nl), All(dh, dl));
      return 0, All(nh, nl);
    }
    sr := sr + 1;
    var qh: nat, rh: nat, rl: nat;
    if sr == 32 {
      LoadMiddle(nh, nl);
      qh, rh, rl := nl, 0, nh;
    } else {
      LoadShort(nh, nl, sr);
      qh, rh, rl := Shl32(nl, 32 - sr), Shr(nh, sr), Or(Shl32(nh, 32 - sr), Shr(nl, sr));
    }
    q, r := Restore(All(nh, nl), All(dh, dl), qh, 0, rh, rl, sr);
  }

  /** `__udivmoddi4`: the quotient and the remainder of two 64-bit words. */
  method UDivMod(a: nat, b: nat) returns (q: nat, r: nat)
    requires Word64(a) && Word64(b) && b != 0
    ensures q == a / b && r == a % b && Word64(q) && Word64(r)
  {
    var nh, nl, dh, dl := a / W32, a % W32, b / W32, b % W32;
    if nh == 0 {
      if dh == 0 {
        return nl / dl, nl % dl;
      }
      q, r := 0, nl;
    } else if dl == 0 {
      if dh == 0 {
        assert false;
      }
      q, r := DivideByHigh(nh, nl, dh);
    } else if dh == 0 {
      q, r := DivideByLow(nh, nl, dl);
    } else {
      q, r := DivideByBoth(nh, nl, dh, dl);
    }
    DivMod(a, b);
    DivAtMost(a, b);
    DividesUnique(a, b, q, r);
  }

  // ---- Signed division

  /** The two's complement value of a word. */
  function Signed(w: nat): int
    requires Word64(w)
  {
    if w >= 0x8000_0000_0000_0000 then w - W64 else w
  }

  /** Storing an integer in a 64-bit word. */
  function Wrap64(x: int): nat {
    x % W64
  }

  /** Division that truncates toward zero, and the remainder that goes with it. */
  function TruncQuot(a: int, b: int): int
    requires b != 0
  {
    if (a < 0) == (b < 0) then Abs(a) / Abs(b) else -(Abs(a) / Abs(b))
  }

  function TruncRem(a: int, b: int): int
    requires b != 0
  {
    if a < 0 then -(Abs(a) % Abs(b)) else Abs(a) % Abs(b)
  }

  /** Section 6.5.5 of ISO/IEC 9899:1999: these are the only quotient and remainder it allows. */
  lemma TruncLaw(a: int, b: int, q: int, r: int)
    requires b != 0
    ensures (a == q * b + r && Abs(r) < Abs(b) && (r != 0 ==> (r < 0) == (a < 0))) <==>
            (q == TruncQuot(a, b) && r == TruncRem(a, b))
  {
    var m, n := Abs(a), Abs(b);
    DivMod(m, n);
    SameProduct(a, b, TruncQuot(a, b), m / n);
    if a == q * b + r && Abs(r) < n && (r != 0 ==> (r < 0) == (a < 0)) {
      var k := if (a < 0) == (b < 0) then q else -q;
      SameProduct(a, b, q, k);
      DivUnique(m, n, k, Abs(r));
    }
  }

  /** Signs taken off a product. */
  lemma SameProduct(a: int, b: int, q: int, k: int)
    requires q == if (a < 0) == (b < 0) then k else -k
    ensures q * b == if a < 0 then -(k * Abs(b)) else k * Abs(b)
  {
  }

  /** `(x ^ m) - m`, with which all three routines negate under a mask. */
  function Flip(x: nat, m: nat): nat {
    Sub64(Xor(x, m), m)
  }

  /** It negates for a mask of all ones and does nothing for zero. */
  lemma FlipNegates(x: nat, m: nat)
    requires Word64(x) && (m == 0 || m == W64 - 1)
    ensures Flip(x, m) == if m == 0 then Wrap64(x) else Wrap64(0 - x)
  {
    Pow2Words();
    XorZero(x);
    XorOnes(x, 64);
    hide Xor, Pow2;
  }

  /** With its own sign as the mask it takes the absolute value. */
  lemma FlipBySign(x: nat)
    requires Word64(x)
    ensures Flip(x, SignMask(x)) == Abs(Signed(x)) <= 0x8000_0000_0000_0000
    ensures SignMask(x) == if Signed(x) < 0 then W64 - 1 else 0
  {
    hide Flip;
    FlipNegates(x, SignMask(x));
  }

  lemma XorMasks(a: nat, b: nat)
    requires (a == 0 || a == W64 - 1) && (b == 0 || b == W64 - 1)
    ensures Xor(a, b) == if a == b then 0 else W64 - 1
  {
    XorSelf(a);
    XorZero(a);
  }

  /** The quotient fits a word except for the one overflowing pair. */
  lemma QuotFits(a: int, b: int)
    requires -0x8000_0000_0000_0000 <= a < 0x8000_0000_0000_0000 && b != 0
    ensures Signed(Wrap64(TruncQuot(a, b))) == TruncQuot(a, b) <==> !(a == -0x8000_0000_0000_0000 && b == -1)
  {
    QuotAtMost(Abs(a), Abs(b));
  }

  lemma QuotAtMost(m: nat, n: nat)
    requires n >= 1
    ensures 0 <= m / n <= m && (n >= 2 ==> m / n <= m / 2) && (n == 1 ==> m / n == m)
  {
    DivAtMost(m, n);
    DivMod(m, n);
    if n >= 2 {
      MulMonotone(n, 2, m / n);
    }
  }

  /** `__divdi3`: truncating division, wrapped where the one overflowing pair needs it. */
  method DivDI3(a: nat, b: nat) returns (q: nat)
    requires Word64(a) && Word64(b) && b != 0
    ensures q == Wrap64(TruncQuot(Signed(a), Signed(b)))
    ensures Word64(q) && (Signed(q) == TruncQuot(Signed(a), Signed(b)) <==>
                          !(Signed(a) == -0x8000_0000_0000_0000 && Signed(b) == -1))
  {
    FlipBySign(a);
    FlipBySign(b);
    XorMasks(SignMask(a), SignMask(b));
    QuotFits(Signed(a), Signed(b));
    ghost var x, y := Signed(a), Signed(b);
    assert -0x8000_0000_0000_0000 <= x && y != 0;
    hide Flip, SignMask, Signed, Xor;
    var sa, sb := SignMask(a), SignMask(b);
    var q0, _ := UDivMod(Flip(a, sa), Flip(b, sb));
    FlipNegates(q0, Xor(sa, sb));
    q := Flip(q0, Xor(sa, sb));
  }

  /** `__moddi3`: the remainder with the sign of the dividend. */
  method ModDI3(a: nat, b: nat) returns (r: nat)
    requires Word64(a) && Word64(b) && b != 0
    ensures Word64(r) && Signed(r) == TruncRem(Signed(a), Signed(b))
  {
    FlipBySign(a);
    FlipBySign(b);
    ghost var x, y := Signed(a), Signed(b);
    assert y != 0;
    RemFits(x, y);
    hide Flip, SignMask, Signed, Xor;
    var sa, sb := SignMask(a), SignMask(b);
    var _, r0 := UDivMod(Flip(a, sa), Flip(b, sb));
    FlipNegates(r0, sa);
    r := Flip(r0, sa);
  }

  lemma RemFits(a: int, b: int)
    requires b != 0 && Abs(b) <= 0x8000_0000_0000_0000
    ensures Signed(Wrap64(TruncRem(a, b))) == TruncRem(a, b)
  {
    DivMod(Abs(a), Abs(b));
  }

  lemma SignedWraps(a: nat, b: nat)
    requires Word64(a) && Word64(b)
    ensures Wrap64(Signed(a)) == Wrap64(a) && Wrap64(Signed(b)) == Wrap64(b) && (b != 0 ==> Signed(b) != 0)
    ensures Abs(Signed(b)) <= 0x8000_0000_0000_0000
  {
  }

  lemma WrapOfWord(q: int, x: int)
    ensures Wrap64(Wrap64(q)) == Wrap64(q) && Word64(Wrap64(x))
  {
  }

  lemma QuotRem(x: int, y: int)
    requires y != 0
    ensures x - TruncQuot(x, y) * y == TruncRem(x, y)
  {
    TruncLaw(x, y, TruncQuot(x, y), TruncRem(x, y));
  }

  /** `__divmoddi4`: its remainder is `__moddi3`'s, even where the quotient wraps. */
  method DivModDI4(a: nat, b: nat) returns (q: nat, r: nat)
    requires Word64(a) && Word64(b) && b != 0
    ensures q == Wrap64(TruncQuot(Signed(a), Signed(b)))
    ensures Word64(r) && Signed(r) == TruncRem(Signed(a), Signed(b))
  {
    hide TruncQuot, TruncRem, Signed, Wrap64;
    q := DivDI3(a, b);
    r := Wrap64(a - q * b);
    ghost var x, y := Signed(a), Signed(b);
    SignedWraps(a, b);
    WrapOfWord(TruncQuot(x, y), a - q * b);
    WrapProduct(a, b, q, x, y, TruncQuot(x, y));
    QuotRem(x, y);
    RemFits(x, y);
  }

  /** Words may stand for their values in a difference of products. */
  lemma WrapProduct(a: nat, b: nat, q: nat, sa: int, sb: int, sq: int)
    requires Wrap64(sa) == Wrap64(a) && Wrap64(sb) == Wrap64(b) && Wrap64(sq) == Wrap64(q)
    ensures Wrap64(a - q * b) == Wrap64(sa - sq * sb)
  {
    var i, j, k := (sa - a) / W64, (sb - b) / W64, (sq - q) / W64;
    assert sa == a + i * W64 && sb == b + j * W64 && sq == q + k * W64;
    ShiftedProduct(q, k, b, j);
    WrapMultiple(a - q * b, i - (k * sb + j * q));
  }

  lemma ShiftedProduct(q: int, k: int, b: int, j: int)
    ensures (q + k * W64) * (b + j * W64) == q * b + (k * (b + j * W64) + j * q) * W64
  {
    var sb := b + j * W64;
    MulDistributes(q, k * W64, sb);
    MulAssociates(W64, k, sb);
    MulDistributes(b, j * W64, q);
    MulAssociates(W64, j, q);
  }

  lemma WrapMultiple(x: int, m: int)
    ensures Wrap64(x + m * W64) == Wrap64(x)
  {
    DivUnique(x + m * W64, W64, x / W64 + m, x % W64);
  }
}
