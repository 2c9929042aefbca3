/**
 Fixed-point numbers as decimal text: a printer that writes digits into a buffer and a parser
 that undoes it.
 */
module FixText {
  import opened Basics
  import opened FixArith

  function Pow10(k: nat): (p: nat)
    ensures p >= 1
  {
    if k == 0 then 1 else 10 * Pow10(k - 1)
  }

  function Digit(d: nat): char
    requires d < 10
  {
    (d + 48) as char
  }

  predicate IsDigit(c: char) {
    '0' <= c <= '9'
  }

  function DigitValue(c: char): nat
    requires IsDigit(c)
  {
    c as int - 48
  }

  /** `k` digits, leading zeros and all. */
  function Padded(n: nat, k: nat): (s: string)
    requires n < Pow10(k)
    ensures |s| == k
  {
    if k == 0 then "" else
      TopDigit(n, k);
      [Digit(n / Pow10(k - 1))] + Padded(n % Pow10(k - 1), k - 1)
  }

  lemma TopDigit(n: nat, k: nat)
    requires k > 0 && n < Pow10(k)
    ensures 0 <= n / Pow10(k - 1) < 10 && 0 <= n % Pow10(k - 1) < Pow10(k - 1)
    ensures n == n / Pow10(k - 1) * Pow10(k - 1) + n % Pow10(k - 1)
  {
    var p := Pow10(k - 1);
    Bits.DivMod(n, p);
    LessFactor(n / p, 10, p);
  }

  /** At most `k` digits, no leading zeros but for the last place. */
  function Trimmed(n: nat, k: nat): (s: string)
    requires k > 0 && n < Pow10(k)
    ensures 1 <= |s| <= k
  {
    TopDigit(n, k);
    if k == 1 || n / Pow10(k - 1) != 0 then Padded(n, k) else Trimmed(n, k - 1)
  }

  /** The number that digits stand for. */
  function Number(s: string): nat
    requires forall i :: 0 <= i < |s| ==> IsDigit(s[i])
  {
    if s == "" then 0 else 10 * Number(s[..|s| - 1]) + DigitValue(s[|s| - 1])
  }

  lemma {:induction false} NumberFrom(d: char, s: string)
    requires IsDigit(d) && forall i :: 0 <= i < |s| ==> IsDigit(s[i])
    ensures Number([d] + s) == DigitValue(d) * Pow10(|s|) + Number(s)
  {
    var t := [d] + s;
    if s == "" {
      assert t[..0] == "";
    } else {
      var n := |s| - 1;
      assert t[..|t| - 1] == [d] + s[..n];
      NumberFrom(d, s[..n]);
      assert 10 * (DigitValue(d) * Pow10(n)) == DigitValue(d) * Pow10(n + 1);
    }
  }

  /** Digits printed are digits that stand for the number. */
  lemma {:induction false} PaddedNumber(n: nat, k: nat)
    requires n < Pow10(k)
    ensures forall i :: 0 <= i < k ==> IsDigit(Padded(n, k)[i])
    ensures Number(Padded(n, k)) == n
  {
    if k > 0 {
      TopDigit(n, k);
      PaddedNumber(n % Pow10(k - 1), k - 1);
      NumberFrom(Digit(n / Pow10(k - 1)), Padded(n % Pow10(k - 1), k - 1));
    }
  }

  lemma {:induction false} TrimmedNumber(n: nat, k: nat)
    requires k > 0 && n < Pow10(k)
    ensures forall i :: 0 <= i < |Trimmed(n, k)| ==> IsDigit(Trimmed(n, k)[i])
    ensures Number(Trimmed(n, k)) == n
  {
    TopDigit(n, k);
    if k == 1 || n / Pow10(k - 1) != 0 {
      PaddedNumber(n, k);
    } else {
      TrimmedNumber(n, k - 1);
    }
  }

  // ---- Printing

  /** What `itoa_loop` writes for a scale of 10^(k-1). */
  function Text(n: nat, k: nat, skip: bool): string
    requires n < Pow10(k) && (skip ==> k > 0)
  {
    if skip then Trimmed(n, k) else Padded(n, k)
  }

  lemma PrintDigit(n: nat, k: nat, skip: bool)
    requires k > 0 && n < Pow10(k) && (!skip || n / Pow10(k - 1) != 0 || k == 1)
    ensures n / Pow10(k - 1) < 10 && n % Pow10(k - 1) < Pow10(k - 1) && n / Pow10(k - 1) >= 0 && n % Pow10(k - 1) >= 0
    ensures Text(n, k, skip) == [Digit(n / Pow10(k - 1))] + Text(n % Pow10(k - 1), k - 1, false)
  {
    TopDigit(n, k);
  }

  lemma SkipDigit(n: nat, k: nat)
    requires k > 1 && n < Pow10(k) && n / Pow10(k - 1) == 0
    ensures n < Pow10(k - 1) && Text(n, k, true) == Text(n, k - 1, true)
  {
    TopDigit(n, k);
  }

  /** `*buf++ = c`. */
  method Put(buf: array<char>, pos: nat, c: char) returns (end: nat)
    requires pos < buf.Length
    modifies buf
    ensures end == pos + 1 && buf[..end] == old(buf[..pos]) + [c]
  {
    buf[pos] := c;
    end := pos + 1;
  }

  /** `itoa_loop`: writes digits at `pos` and on. */
  method ItoaLoop(buf: array<char>, pos: nat, scale0: uint32, value0: uint32, skip0: bool, ghost k0: nat)
    returns (end: nat)
    requires pos + k0 <= buf.Length && value0 < Pow10(k0) && 0 < k0 <= 5 && scale0 == Pow10(k0 - 1)
    modifies buf
    ensures pos <= end <= pos + k0 && buf[..end] == old(buf[..pos]) + Text(value0, k0, skip0)
  {
    hide Text, Pow10, Digit;
    var scale: uint32, value: uint32, skip := scale0, value0, skip0;
    ghost var k: nat := k0;
    end := pos;
    while scale != 0
      invariant k <= k0 && scale == (if k == 0 then 0 else Pow10(k - 1)) && value < Pow10(k) && (skip ==> k > 0)
      invariant pos <= end <= pos + (k0 - k)
      invariant buf[..end] + Text(value, k, skip) == old(buf[..pos]) + Text(value0, k0, skip0)
      decreases k
    {
      NextScale(k);
      OnlyOne(k);
      var digit := value / scale;
      if !skip || digit != 0 || scale == 1 {
        PrintDigit(value, k, skip);
        skip := false;
        end := Put(buf, end, Digit(digit));
        value := value % scale;
      } else {
        SkipDigit(value, k);
      }
      scale := scale / 10;
      k := k - 1;
    }
    NoText(value, k);
  }

  lemma NoText(n: nat, k: nat)
    requires n < Pow10(k) && k == 0
    ensures Text(n, k, false) == ""
  {
  }

  lemma NextScale(k: nat)
    requires 0 < k <= 5
    ensures Pow10(k - 1) / 10 == (if k == 1 then 0 else Pow10(k - 2)) && Pow10(k - 1) < 0x1_0000_0000
  {
    assert Pow10(4) == 10000;
  }

  lemma OnlyOne(k: nat)
    requires k > 0
    ensures Pow10(k - 1) == 1 <==> k == 1
  {
  }

  /** How many decimals are printed: at most five. */
  function Places(decimals: int): nat {
    if decimals % 8 < 5 then decimals % 8 else 5
  }

  /** The size of a number in units of its last printed decimal, rounded to the nearest. */
  function Scaled(size: nat, places: nat): nat {
    size / 0x1_0000 * Pow10(places) + RoundDiv(size % 0x1_0000 * Pow10(places), 0x1_0000)
  }

  /** That is the size times a power of ten, rounded as a whole. */
  lemma ScaledIsRounded(size: nat, places: nat)
    ensures Scaled(size, places) == RoundDiv(size * Pow10(places), 0x1_0000)
  {
    hide Pow10;
    var p, whole, frac := Pow10(places), size / 0x1_0000, size % 0x1_0000;
    assert size * p == 0x1_0000 * (whole * p) + frac * p;
    assert whole * p >= 0 && frac * p >= 0;
  }

  /** The text of a number: sign, integer part, and the decimals asked for. */
  function Printed(value: int, places: nat): string
    requires -0x8000_0000 < value < 0x8000_0000 && places <= 5
  {
    var total, p := Scaled(Abs(value), places), Pow10(places);
    ScaledParts(Abs(value), places);
    (if value < 0 then "-" else "") + Trimmed(total / p, 5)
    + (if places == 0 then "" else "." + Padded(total % p, places))
  }

  lemma PowersOfTen()
    ensures Pow10(0) == 1 && Pow10(1) == 10 && Pow10(2) == 100 && Pow10(3) == 1000 && Pow10(4) == 10000
    ensures Pow10(5) == 100000
  {
    assert Pow10(2) == 100;
    assert Pow10(4) == 10000;
  }

  /** Rounding the fraction carries at most one into the integer part. */
  lemma ScaledParts(size: nat, places: nat)
    requires size < 0x8000_0000 && places <= 5
    ensures var total, p := Scaled(size, places), Pow10(places);
            var part := RoundDiv(size % 0x1_0000 * p, 0x1_0000);
            && 1 <= p <= 100000 && part <= p && total >= 0
            && 0 <= total / p < Pow10(5) && 0 <= total % p < p
            && total / p == size / 0x1_0000 + (if part >= p then 1 else 0)
            && total % p == (if part >= p then part - p else part)
  {
    hide RoundDiv, Pow10;
    PowersOfTen();
    var p, frac := Pow10(places), size % 0x1_0000;
    FractionRounds(frac, p);
    Carried(size / 0x1_0000, RoundDiv(frac * p, 0x1_0000), p);
  }

  lemma Carried(whole: nat, part: nat, p: nat)
    requires p > 0 && part <= p
    ensures var total := whole * p + part;
            && total / p == whole + (if part >= p then 1 else 0) && total % p == (if part >= p then part - p else part)
  {
    var total := whole * p + part;
    if part >= p {
      Bits.DivUnique(total, p, whole + 1, part - p);
    } else {
      Bits.DivUnique(total, p, whole, part);
    }
  }

  lemma FractionRounds(frac: nat, p: nat)
    requires frac < 0x1_0000
    ensures 0 <= RoundDiv(frac * p, 0x1_0000) <= p
  {
    Monotone(frac, 0x1_0000, p);
  }

  /** `fix16_to_str`. */
  method ToStr(value: int, buf: array<char>, decimals: int) returns (end: nat)
    requires -0x8000_0000 < value < 0x8000_0000 && buf.Length >= 13
    modifies buf
    ensures end < buf.Length && buf[..end] == Printed(value, Places(decimals)) && buf[end] == '\0'
  {
    hide Padded, Trimmed, Pow10, RoundDiv, Text, Printed, Scaled, Places, ExactOf, AddedUp;
    var uvalue: uint32 := Abs(value);
    end := 0;
    if value < 0 {
      end := Put(buf, end, '-');
    }
    var intpart: uint32, fracpart: uint32 := uvalue / 0x1_0000, uvalue % 0x1_0000;
    var scales := [1, 10, 100, 1000, 10000, 100000, 100000, 100000];
    var scale: uint32 := scales[decimals % 8];
    ghost var places := Places(decimals);
    ScaleIs(decimals);
    PrintedIs(value, places);
    SmallProduct(fracpart, scale);
    fracpart := Mul(fracpart, scale);
    if fracpart >= scale {
      intpart := intpart + 1;
      fracpart := fracpart - scale;
    }
    TrimmedIs(intpart, 5);
    ghost var sign, whole := if value < 0 then "-" else "", Trimmed(intpart, 5);
    assert buf[..end] == sign;
    end := ItoaLoop(buf, end, 10000, intpart, true, 5);
    assert buf[..end] == sign + whole;
    end := PutDecimals(buf, end, scale, fracpart, places);
    buf[end] := '\0';
  }

  /** The point and the decimals, if any are asked for. */
  method PutDecimals(buf: array<char>, pos: nat, scale: uint32, fracpart: uint32, ghost places: nat) returns (end: nat)
    requires pos + 7 <= buf.Length && places <= 5 && scale == Pow10(places) && fracpart < scale
    modifies buf
    ensures pos <= end <= pos + 6
    ensures buf[..end] == old(buf[..pos]) + if places == 0 then "" else "." + Padded(fracpart, places)
  {
    hide Padded, Pow10, Text;
    end := pos;
    OneIsNoPlaces(places);
    if scale != 1 {
      end := Put(buf, end, '.');
      TenthOf(places);
      PaddedIs(fracpart, places);
      end := ItoaLoop(buf, end, scale / 10, fracpart, false, places);
      Joined(old(buf[..pos]), ".", Padded(fracpart, places));
    }
  }

  lemma PaddedIs(m: nat, l: nat)
    requires m < Pow10(l)
    ensures Text(m, l, false) == Padded(m, l)
  {
  }

  lemma ScaleIs(decimals: int)
    ensures Places(decimals) <= 5
    ensures [1, 10, 100, 1000, 10000, 100000, 100000, 100000][decimals % 8] == Pow10(Places(decimals))
    ensures Pow10(4) == 10000 && Pow10(5) == 100000
  {
    hide Pow10;
    PowersOfTen();
  }

  lemma Joined(a: string, b: string, c: string)
    ensures a + b + c == a + (b + c)
  {
  }

  lemma PrintedIs(value: int, places: nat)
    requires -0x8000_0000 < value < 0x8000_0000 && places <= 5
    ensures var size, p := Abs(value), Pow10(places);
            var part := RoundDiv(size % 0x1_0000 * p, 0x1_0000);
            var intpart := size / 0x1_0000 + (if part >= p then 1 else 0);
            var fracpart := if part >= p then part - p else part;
            && 0 <= intpart < Pow10(5) && 0 <= fracpart < p
            && Printed(value, places) ==
                 (if value < 0 then "-" else "") + Trimmed(intpart, 5)
                 + (if places == 0 then "" else "." + Padded(fracpart, places))
  {
    hide RoundDiv, Pow10, Trimmed, Padded;
    ScaledParts(Abs(value), places);
  }

  lemma TrimmedIs(n: nat, k: nat)
    requires k > 0 && n < Pow10(k)
    ensures Text(n, k, true) == Trimmed(n, k)
  {
  }

  lemma TenthOf(k: nat)
    requires 0 < k <= 5
    ensures Pow10(k) / 10 == Pow10(k - 1)
  {
  }

  lemma OneIsNoPlaces(k: nat)
    ensures Pow10(k) == 1 <==> k == 0
  {
  }

  // ---- Parsing

  /** Reading a C string: the terminator is past the end. */
  function At(s: string, i: nat): char {
    if i < |s| then s[i] else '\0'
  }

  predicate IsSpace(c: char) {
    c == ' ' || 9 <= c as int <= 13
  }

  function SpacesEnd(s: string, i: nat): (j: nat)
    ensures j >= i
    decreases |s| - i
  {
    if IsSpace(At(s, i)) then SpacesEnd(s, i + 1) else i
  }

  /** Where the digits from `i` on end, if at most `most` are taken. */
  function DigitsEnd(s: string, i: nat, most: nat): (j: nat)
    ensures i <= j <= i + most && (j <= |s| || j == i)
    ensures forall l :: i <= l < j && l < |s| ==> IsDigit(s[l])
    decreases most
  {
    if most > 0 && IsDigit(At(s, i)) then DigitsEnd(s, i + 1, most - 1) else i
  }

  /** Only digits and spaces up to the terminator. */
  predicate CleanRest(s: string, i: nat)
    decreases |s| - i
  {
    At(s, i) == '\0' || ((IsDigit(At(s, i)) || IsSpace(At(s, i))) && CleanRest(s, i + 1))
  }

  /** A 32-bit two's complement word. */
  function Wrap32(x: int): int {
    (x + 0x8000_0000) % 0x1_0000_0000 - 0x8000_0000
  }

  /** The number at digits i..j. */
  function NumberAt(s: string, i: nat, j: nat): nat
    requires i <= j && (j <= |s| || j == i) && forall l :: i <= l < j ==> IsDigit(s[l])
  {
    if j == i then 0 else Number(s[i..j])
  }

  predicate IsPoint(c: char) {
    c == '.' || c == ','
  }

  /** Where the decimals end, if there is a point at `j`. */
  function DecimalsEnd(s: string, j: nat): (k: nat)
    ensures k >= j
  {
    if IsPoint(At(s, j)) then DigitsEnd(s, j + 1, 5) else j
  }

  /** The fraction after the integer digits. */
  function Fraction(s: string, j: nat): int {
    if IsPoint(At(s, j)) then
      var k := DigitsEnd(s, j + 1, 5);
      FixDiv(NumberAt(s, j + 1, k), Pow10(k - (j + 1)))
    else 0
  }

  /** The value of the parts: `count` integer digits, and whether the rest is clean. */
  function Combined(negative: bool, count: nat, intpart: nat, fraction: int, clean: bool): int {
    if count == 0 || count > 5 || intpart > 32768 || (!negative && intpart > 32767) || !clean then OVERFLOW
    else
      var value := Wrap32(intpart * 0x1_0000) + fraction;
      if negative then Wrap32(-value) else value
  }

  /** Where the integer digits begin, past spaces and a sign. */
  function DigitsBegin(s: string): nat {
    var i := SpacesEnd(s, 0);
    if At(s, i) == '+' || At(s, i) == '-' then i + 1 else i
  }

  /** What `fix16_from_str` makes of a text. */
  function Parsed(s: string): int {
    var i := DigitsBegin(s);
    var j := DigitsEnd(s, i, |s|);
    Combined(At(s, SpacesEnd(s, 0)) == '-', j - i, NumberAt(s, i, j), Fraction(s, j), CleanRest(s, DecimalsEnd(s, j)))
  }

  lemma OneMoreDigit(s: string, i: nat, j: nat)
    requires i <= j < |s| && (forall l :: i <= l < j ==> IsDigit(s[l])) && IsDigit(s[j])
    ensures NumberAt(s, i, j + 1) == 10 * NumberAt(s, i, j) + DigitValue(s[j])
  {
    var t := s[i..j + 1];
    assert t[..|t| - 1] == s[i..j] && t[|t| - 1] == s[j];
    assert forall l :: 0 <= l < |t| ==> t[l] == s[i + l];
    if j == i {
      assert s[i..j] == "" && Number("") == 0;
    }
  }

  lemma {:induction false} NumberBound(s: string)
    requires forall i :: 0 <= i < |s| ==> IsDigit(s[i])
    ensures Number(s) < Pow10(|s|)
  {
    if s != "" {
      NumberBound(s[..|s| - 1]);
    }
  }

  /** Digits are read into a word that wraps, and counted. */
  method ReadDigits(s: string, i: nat) returns (j: nat, intpart: uint32)
    requires i <= |s|
    ensures j == DigitsEnd(s, i, |s|) && j <= |s| && (forall l :: i <= l < j ==> IsDigit(s[l]))
    ensures intpart == NumberAt(s, i, j) % 0x1_0000_0000
  {
    j, intpart := i, 0;
    while IsDigit(At(s, j))
      invariant i <= j <= |s| && forall l :: i <= l < j ==> IsDigit(s[l])
      invariant DigitsEnd(s, i, |s|) == DigitsEnd(s, j, |s| - (j - i))
      invariant intpart == NumberAt(s, i, j) % 0x1_0000_0000
      decreases |s| - j
    {
      OneMoreDigit(s, i, j);
      ghost var before := NumberAt(s, i, j);
      var ten: uint32 := intpart * 10 % 0x1_0000_0000;
      intpart := (ten + DigitValue(At(s, j))) % 0x1_0000_0000;
      WrappedStep(before, DigitValue(At(s, j)));
      j := j + 1;
    }
  }

  lemma WrappedStep(n: nat, d: nat)
    ensures (n % 0x1_0000_0000 * 10 % 0x1_0000_0000 + d) % 0x1_0000_0000 == (10 * n + d) % 0x1_0000_0000
  {
    var q, low := n / 0x1_0000_0000, n % 0x1_0000_0000;
    var q', low' := low * 10 / 0x1_0000_0000, low * 10 % 0x1_0000_0000;
    var x := low' + d;
    Bits.DivUnique(10 * n + d, 0x1_0000_0000, 10 * q + q' + x / 0x1_0000_0000, x % 0x1_0000_0000);
  }

  /** At most five decimals are read. */
  method ReadDecimals(s: string, i: nat) returns (k: nat, fracpart: uint32, scale: uint32)
    requires i <= |s|
    ensures k == DigitsEnd(s, i, 5) && k <= |s| && (forall l :: i <= l < k ==> IsDigit(s[l]))
    ensures fracpart == NumberAt(s, i, k) < scale == Pow10(k - i) <= 100000
  {
    k, fracpart, scale := i, 0, 1;
    PowersOfTen();
    while IsDigit(At(s, k)) && scale < 100000
      invariant i <= k <= |s| && k <= i + 5 && forall l :: i <= l < k ==> IsDigit(s[l])
      invariant DigitsEnd(s, i, 5) == DigitsEnd(s, k, 5 - (k - i))
      invariant fracpart == NumberAt(s, i, k) < scale == Pow10(k - i) <= 100000
      decreases |s| - k
    {
      OneMoreDigit(s, i, k);
      scale := scale * 10;
      fracpart := fracpart * 10;
      fracpart := fracpart + DigitValue(At(s, k));
      k := k + 1;
    }
  }

  lemma FiveDigits(s: string, i: nat, j: nat)
    requires i <= j <= |s| && (forall l :: i <= l < j ==> IsDigit(s[l]))
    ensures j - i <= 5 ==> NumberAt(s, i, j) < 100000
  {
    if j - i <= 5 {
      PowersOfTen();
      NumberBound(s[i..j]);
    }
  }

  /** Leading spaces and the sign. */
  method ReadSign(s: string) returns (pos: nat, negative: bool)
    ensures pos == DigitsBegin(s) <= |s| && negative == (At(s, SpacesEnd(s, 0)) == '-')
  {
    pos := 0;
    while IsSpace(At(s, pos))
      invariant pos <= |s| && SpacesEnd(s, 0) == SpacesEnd(s, pos)
      decreases |s| - pos
    {
      pos := pos + 1;
    }
    negative := At(s, pos) == '-';
    if At(s, pos) == '+' || At(s, pos) == '-' {
      pos := pos + 1;
    }
  }

  /** The decimals, if any, as a fixed-point fraction. */
  method ReadFraction(s: string, j: nat) returns (k: nat, part: int)
    requires j <= |s|
    ensures k == DecimalsEnd(s, j) <= |s| && part == Fraction(s, j)
  {
    hide Number, FixDiv, Pow10;
    k, part := j, 0;
    if At(s, j) == '.' || At(s, j) == ',' {
      var fracpart, scale;
      k, fracpart, scale := ReadDecimals(s, j + 1);
      part := Div(fracpart, scale);
    }
  }

  /** Whether there is nothing but digits and spaces left. */
  method CheckRest(s: string, k: nat) returns (clean: bool)
    requires k <= |s|
    ensures clean == CleanRest(s, k)
  {
    var j := k;
    while At(s, j) != '\0'
      invariant k <= j <= |s| && CleanRest(s, k) == CleanRest(s, j)
      decreases |s| - j
    {
      if !IsDigit(At(s, j)) && !IsSpace(At(s, j)) {
        return false;
      }
      j := j + 1;
    }
    clean := true;
  }

  /** `fix16_from_str`. */
  method FromStr(s: string) returns (result: int)
    ensures result == Parsed(s)
  {
    hide Number, NumberAt, FixDiv, Pow10, SpacesEnd, DigitsEnd, CleanRest, DigitsBegin, DecimalsEnd, Fraction, At;
    var pos, negative := ReadSign(s);
    var j, intpart := ReadDigits(s, pos);
    var count := j - pos;
    FiveDigits(s, pos, j);
    if count == 0 || count > 5 || intpart > 32768 || (!negative && intpart > 32767) {
      return OVERFLOW;
    }
    var value := Wrap32(intpart * 0x1_0000);
    var k, part := ReadFraction(s, j);
    value := value + part;
    var clean := CheckRest(s, k);
    if !clean {
      return OVERFLOW;
    }
    result := if negative then Wrap32(-value) else value;
  }

  // ---- Digits in a text

  lemma {:induction false} DigitsEndAt(s: string, i: nat, j: nat, most: nat)
    requires i <= j <= |s| && j - i <= most && (forall l :: i <= l < j ==> IsDigit(s[l]))
    requires j - i == most || !IsDigit(At(s, j))
    ensures DigitsEnd(s, i, most) == j
    decreases j - i
  {
    if i < j {
      DigitsEndAt(s, i + 1, j, most - 1);
    }
  }

  lemma NumberOf(s: string, i: nat, j: nat, t: string)
    requires i < j <= |s| && s[i..j] == t && forall l :: i <= l < j ==> IsDigit(s[l])
    ensures (forall l :: 0 <= l < |t| ==> IsDigit(t[l])) && NumberAt(s, i, j) == Number(t)
  {
    hide Number;
    assert forall l :: 0 <= l < |t| ==> t[l] == s[i + l];
  }
}
