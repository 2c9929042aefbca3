/**
 What texts the parser of fixed-point numbers accepts, and which numbers they stand for; and that it undoes
 the printer.
 */
module FixLiteral {
  import opened Basics
  import opened FixArith
  import opened FixText

  /** The parts of a number written out. */
  datatype Literal = Literal(spaces: string, sign: string, whole: string, point: string, decimals: string, rest: string)

  predicate Digits(s: string) {
    forall i :: 0 <= i < |s| ==> IsDigit(s[i])
  }

  predicate Spaces(s: string) {
    forall i :: 0 <= i < |s| ==> IsSpace(s[i])
  }

  /** Digits and spaces up to the end of the C string. */
  ghost predicate Trailing(s: string) {
    exists n :: 0 <= n <= |s| && TrailsTo(s, n)
  }

  predicate TrailsTo(s: string, n: nat)
    requires n <= |s|
  {
    (forall i :: 0 <= i < n ==> IsDigit(s[i]) || IsSpace(s[i])) && (n == |s| || s[n] == '\0')
  }

  /**
   Spaces, an optional sign, one to five digits of at most 32767, or 32768 after a minus, optionally a point or a
   comma with up to five decimals, and a rest of digits and spaces; the rest goes on with digits only after
   five decimals.
   */
  ghost predicate Reads(s: string, l: Literal) {
    && s == l.spaces + l.sign + l.whole + l.point + l.decimals + l.rest
    && Spaces(l.spaces) && (l.sign == "" || l.sign == "+" || l.sign == "-")
    && Digits(l.whole) && 1 <= |l.whole| <= 5 && Number(l.whole) <= (if l.sign == "-" then 32768 else 32767)
    && (l.point == "" || l.point == "." || l.point == ",")
    && Digits(l.decimals) && |l.decimals| <= 5 && (l.point == "" ==> l.decimals == "")
    && Trailing(l.rest) && (l.rest != "" && IsDigit(l.rest[0]) ==> |l.decimals| == 5)
  }

  /** The number's size in units of 1 / 65536, the decimals rounded to the nearest unit. */
  function SizeOf(l: Literal): nat
    requires Digits(l.whole) && Digits(l.decimals)
  {
    Number(l.whole) * 0x1_0000 + RoundDiv(0x1_0000 * Number(l.decimals), Pow10(|l.decimals|))
  }

  /** With its sign; but what is below -32768 comes out 65536 too high, above 0. */
  function ValueOf(l: Literal): int
    requires Digits(l.whole) && Digits(l.decimals)
  {
    var size: int := SizeOf(l);
    if l.sign != "-" then size else if size <= 0x8000_0000 then -size else 0x1_0000_0000 - size
  }

  // ---- Where the parser finds the parts

  lemma {:induction false} SpacesEndAt(s: string, i: nat, j: nat)
    requires i <= j <= |s| && (forall l :: i <= l < j ==> IsSpace(s[l])) && !IsSpace(At(s, j))
    ensures SpacesEnd(s, i) == j
    decreases j - i
  {
    if i < j {
      SpacesEndAt(s, i + 1, j);
    }
  }

  lemma {:induction false} SpacesBefore(s: string, i: nat)
    requires i <= |s|
    ensures SpacesEnd(s, i) <= |s| && !IsSpace(At(s, SpacesEnd(s, i)))
    ensures forall l :: i <= l < SpacesEnd(s, i) ==> IsSpace(s[l])
    decreases |s| - i
  {
    if IsSpace(At(s, i)) {
      SpacesBefore(s, i + 1);
    }
  }

  lemma {:induction false} DigitsStop(s: string, i: nat, most: nat)
    requires i <= |s|
    ensures DigitsEnd(s, i, most) <= |s|
    ensures DigitsEnd(s, i, most) < i + most ==> !IsDigit(At(s, DigitsEnd(s, i, most)))
    decreases most
  {
    if most > 0 && IsDigit(At(s, i)) {
      DigitsStop(s, i + 1, most - 1);
    }
  }

  lemma {:induction false} CleanTo(s: string, i: nat, n: nat)
    requires i <= n <= |s| && (forall l :: i <= l < n ==> IsDigit(s[l]) || IsSpace(s[l])) && (n == |s| || s[n] == '\0')
    ensures CleanRest(s, i)
    decreases n - i
  {
    if i < n {
      CleanTo(s, i + 1, n);
    }
  }

  lemma {:induction false} CleanIsTrailing(s: string, i: nat) returns (n: nat)
    requires i <= |s| && CleanRest(s, i)
    ensures i <= n <= |s| && (forall l :: i <= l < n ==> IsDigit(s[l]) || IsSpace(s[l])) && (n == |s| || s[n] == '\0')
    decreases |s| - i
  {
    n := i;
    if At(s, i) != '\0' {
      n := CleanIsTrailing(s, i + 1);
    }
  }

  lemma RestIsClean(s: string, k: nat)
    requires k <= |s|
    ensures CleanRest(s, k) <==> Trailing(s[k..])
  {
    if CleanRest(s, k) {
      var n := CleanIsTrailing(s, k);
      assert TrailsTo(s[k..], n - k);
    }
    if Trailing(s[k..]) {
      var n :| 0 <= n <= |s[k..]| && TrailsTo(s[k..], n);
      assert forall l :: k <= l < k + n ==> s[l] == s[k..][l - k];
      CleanTo(s, k, k + n);
    }
  }

  // ---- Every literal is read as its value

  /** Where its parts are in a text. */
  ghost predicate Placed(s: string, l: Literal, a: nat, i: nat, j: nat, p: nat, k: nat) {
    && a == |l.spaces| && i == a + |l.sign| && j == i + |l.whole| && p == j + |l.point| && k == p + |l.decimals| <= |s|
    && s[..a] == l.spaces && s[a..i] == l.sign && s[i..j] == l.whole && s[j..p] == l.point && s[p..k] == l.decimals
    && s[k..] == l.rest
  }

  lemma PartsPlaced(s: string, l: Literal)
    requires s == l.spaces + l.sign + l.whole + l.point + l.decimals + l.rest
    ensures var a := |l.spaces|;
            var i := a + |l.sign|;
            var j := i + |l.whole|;
            var p := j + |l.point|;
            Placed(s, l, a, i, j, p, p + |l.decimals|)
  {
  }

  lemma LiteralBegins(s: string, l: Literal, a: nat, i: nat, j: nat, p: nat, k: nat)
    requires Reads(s, l) && Placed(s, l, a, i, j, p, k)
    ensures SpacesEnd(s, 0) == a && DigitsBegin(s) == i && (At(s, a) == '-' <==> l.sign == "-")
    ensures (forall x :: i <= x < j ==> IsDigit(s[x])) && DigitsEnd(s, i, |s|) == j
  {
    hide Number, Trailing;
    assert forall x :: 0 <= x < a ==> s[x] == s[..a][x];
    assert forall x :: i <= x < j ==> s[x] == s[i..j][x - i];
    if a < i {
      assert s[a] == l.sign[0];
    } else {
      assert s[a] == l.whole[0];
    }
    SpacesEndAt(s, 0, a);
    AfterWhole(s, l, a, i, j, p, k);
    DigitsEndAt(s, i, j, |s|);
  }

  lemma AfterWhole(s: string, l: Literal, a: nat, i: nat, j: nat, p: nat, k: nat)
    requires Reads(s, l) && Placed(s, l, a, i, j, p, k)
    ensures !IsDigit(At(s, j)) && (IsPoint(At(s, j)) <==> l.point != "")
  {
    hide Number;
    if l.point != "" {
      assert s[j] == l.point[0];
    } else if j < |s| {
      assert s[j] == l.rest[0];
    }
  }

  lemma LiteralEnds(s: string, l: Literal, a: nat, i: nat, j: nat, p: nat, k: nat)
    requires Reads(s, l) && Placed(s, l, a, i, j, p, k)
    ensures DecimalsEnd(s, j) == k && CleanRest(s, k)
    ensures l.point != "" ==>
              p == j + 1 && (forall x :: p <= x < k ==> IsDigit(s[x])) && DigitsEnd(s, j + 1, 5) == k
  {
    hide Number, Trailing;
    AfterWhole(s, l, a, i, j, p, k);
    RestIsClean(s, k);
    if l.point != "" {
      assert forall x :: p <= x < k ==> s[x] == s[p..k][x - p];
      if k < |s| {
        assert s[k] == l.rest[0];
      }
      DigitsEndAt(s, p, k, 5);
    }
  }

  /** Up to five decimals are divided without loss. */
  lemma DecimalsValue(m: nat, k: nat)
    requires k <= 5 && m < Pow10(k)
    ensures FixDiv(m, Pow10(k)) == RoundDiv(0x1_0000 * m, Pow10(k)) <= 0x1_0000
  {
    hide Pow10, FixDiv, RoundDiv;
    PowersOfTen();
    SmallDivision(m, Pow10(k));
  }

  lemma SmallDivision(m: nat, d: nat)
    requires m < d <= 100000
    ensures FixDiv(m, d) == RoundDiv(0x1_0000 * m, d) <= 0x1_0000
  {
    hide RoundDiv;
    RoundedBelow(m, d);
  }

  lemma RoundedBelow(m: nat, p: nat)
    requires m < p
    ensures RoundDiv(0x1_0000 * m, p) <= 0x1_0000
  {
    Monotone(m, p, 0x1_0000);
  }

  lemma FractionOf(s: string, l: Literal, a: nat, i: nat, j: nat, p: nat, k: nat)
    requires Reads(s, l) && Placed(s, l, a, i, j, p, k)
    ensures Fraction(s, j) == RoundDiv(0x1_0000 * Number(l.decimals), Pow10(|l.decimals|)) <= 0x1_0000
  {
    hide Number, FixDiv, RoundDiv, Pow10, Trailing, SpacesEnd, DigitsEnd, CleanRest, DecimalsEnd;
    AfterWhole(s, l, a, i, j, p, k);
    LiteralEnds(s, l, a, i, j, p, k);
    NumberBound(l.decimals);
    DecimalsValue(Number(l.decimals), |l.decimals|);
    if l.point == "" {
      NoDecimals();
    } else if p < k {
      NumberOf(s, p, k, l.decimals);
    } else {
      NoDecimals();
      DecimalsValue(0, 0);
    }
  }

  lemma NoDecimals()
    ensures Number("") == 0 && RoundDiv(0x1_0000 * Number(""), Pow10(0)) == 0 && Pow10(0) == 1
  {
  }

  lemma CombinedValue(negative: bool, count: nat, n: nat, fraction: nat)
    requires 1 <= count <= 5 && n <= (if negative then 32768 else 32767) && fraction <= 0x1_0000
    ensures var size := n * 0x1_0000 + fraction;
            Combined(negative, count, n, fraction, true) ==
              if !negative then size else if size <= 0x8000_0000 then -size else 0x1_0000_0000 - size
  {
  }

  lemma ReadsFacts(s: string, l: Literal)
    requires Reads(s, l)
    ensures s == l.spaces + l.sign + l.whole + l.point + l.decimals + l.rest && Digits(l.whole) && Digits(l.decimals)
    ensures 1 <= |l.whole| <= 5 && Number(l.whole) <= (if l.sign == "-" then 32768 else 32767)
  {
  }

  lemma WholeIs(s: string, l: Literal, a: nat, i: nat, j: nat, p: nat, k: nat)
    requires Reads(s, l) && Placed(s, l, a, i, j, p, k)
    ensures i < j <= |s| && (forall x :: i <= x < j ==> IsDigit(s[x])) && NumberAt(s, i, j) == Number(l.whole)
  {
    hide Number, NumberAt, Trailing;
    assert forall x :: i <= x < j ==> s[x] == s[i..j][x - i];
    NumberOf(s, i, j, l.whole);
  }

  lemma LiteralParsed(s: string, l: Literal)
    requires Reads(s, l)
    ensures Parsed(s) == ValueOf(l)
  {
    hide Number, NumberAt, FixDiv, RoundDiv, Pow10, Trailing, SpacesEnd, DigitsEnd, CleanRest, DecimalsEnd, Fraction,
         Combined, DigitsBegin, At, Reads, Placed;
    ReadsFacts(s, l);
    PartsPlaced(s, l);
    var a := |l.spaces|;
    var i := a + |l.sign|;
    var j := i + |l.whole|;
    var p := j + |l.point|;
    var k := p + |l.decimals|;
    LiteralBegins(s, l, a, i, j, p, k);
    LiteralEnds(s, l, a, i, j, p, k);
    FractionOf(s, l, a, i, j, p, k);
    WholeIs(s, l, a, i, j, p, k);
    CombinedValue(l.sign == "-", j - i, Number(l.whole),
                  RoundDiv(0x1_0000 * Number(l.decimals), Pow10(|l.decimals|)));
  }

  // ---- Everything else is refused

  /** The tests the parser makes. */
  ghost predicate Accepts(s: string) {
    var i := DigitsBegin(s);
    var j := DigitsEnd(s, i, |s|);
    && 1 <= j - i <= 5 && NumberAt(s, i, j) <= (if At(s, SpacesEnd(s, 0)) == '-' then 32768 else 32767)
    && CleanRest(s, DecimalsEnd(s, j))
  }

  lemma RefusedOverflows(s: string)
    requires !Accepts(s)
    ensures Parsed(s) == OVERFLOW
  {
    hide Number, NumberAt, FixDiv, Pow10, SpacesEnd, DigitsEnd, CleanRest, DecimalsEnd, Fraction, DigitsBegin, At;
  }

  /** Where the parser's own cuts are. */
  lemma OwnCuts(s: string, a: nat, i: nat, j: nat, p: nat, k: nat)
    requires Accepts(s) && a == SpacesEnd(s, 0) && i == DigitsBegin(s) && j == DigitsEnd(s, i, |s|)
    requires p == (if IsPoint(At(s, j)) then j + 1 else j) && k == DecimalsEnd(s, j)
    ensures a <= i <= j <= p <= k <= |s| && i <= a + 1 && p <= j + 1 && k <= p + 5
    ensures (forall x :: 0 <= x < a ==> IsSpace(s[x])) && (forall x :: i <= x < j ==> IsDigit(s[x]))
    ensures (forall x :: p <= x < k ==> IsDigit(s[x])) && (k < p + 5 && k < |s| ==> !IsDigit(s[k]))
    ensures (a < i ==> s[a] == '+' || s[a] == '-') && (j < p ==> IsPoint(s[j])) && (p == j ==> k == j)
  {
    hide Number, NumberAt, CleanRest;
    SpacesBefore(s, 0);
    DigitsStop(s, i, |s|);
    if IsPoint(At(s, j)) {
      DigitsStop(s, j + 1, 5);
    }
  }

  /** What the parser accepts is a literal. */
  lemma OwnReading(s: string) returns (l: Literal)
    requires Accepts(s)
    ensures Reads(s, l)
  {
    hide Number, NumberAt, SpacesEnd, DigitsEnd, CleanRest, Trailing, DecimalsEnd, DigitsBegin, Accepts;
    var a, i := SpacesEnd(s, 0), DigitsBegin(s);
    var j := DigitsEnd(s, i, |s|);
    var p := if IsPoint(At(s, j)) then j + 1 else j;
    var k := DecimalsEnd(s, j);
    OwnCuts(s, a, i, j, p, k);
    RestIsClean(s, k);
    l := Literal(s[..a], s[a..i], s[i..j], s[j..p], s[p..k], s[k..]);
    CutsJoin(s, a, i, j, p, k);
    OwnNumber(s, i, j, l.whole);
    assert a < i ==> l.sign == [s[a]];
    assert j < p ==> l.point == [s[j]];
    OwnSign(s);
  }

  lemma OwnNumber(s: string, i: nat, j: nat, whole: string)
    requires Accepts(s) && i == DigitsBegin(s) && j == DigitsEnd(s, i, |s|) && j <= |s| && whole == s[i..j]
    ensures 1 <= j - i <= 5 && Digits(whole)
    ensures Number(whole) <= (if At(s, SpacesEnd(s, 0)) == '-' then 32768 else 32767)
    ensures CleanRest(s, DecimalsEnd(s, j))
  {
    hide Number, NumberAt, SpacesEnd, DigitsEnd, CleanRest, DecimalsEnd, DigitsBegin;
    NumberOf(s, i, j, whole);
  }

  lemma CutsJoin(s: string, a: nat, i: nat, j: nat, p: nat, k: nat)
    requires a <= i <= j <= p <= k <= |s|
    ensures s == s[..a] + s[a..i] + s[i..j] + s[j..p] + s[p..k] + s[k..]
  {
  }

  lemma OwnSign(s: string)
    ensures At(s, SpacesEnd(s, 0)) == '-' ==> DigitsBegin(s) == SpacesEnd(s, 0) + 1
  {
  }

  /** A text that is no such literal gives the overflow value. */
  lemma OthersOverflow(s: string)
    requires forall l :: !Reads(s, l)
    ensures Parsed(s) == OVERFLOW
  {
    hide Accepts, Parsed, Reads;
    if Accepts(s) {
      var l := OwnReading(s);
      assert false;
    }
    RefusedOverflows(s);
  }

  /** Just below the least number the sign is lost. */
  lemma BelowTheLeast()
    ensures Parsed("-32768.5") == 0x7FFF_8000
  {
    var l := Literal("", "-", "32768", ".", "5", "");
    assert TrailsTo("", 0);
    assert "-32768.5" == l.spaces + l.sign + l.whole + l.point + l.decimals + l.rest;
    NumberOf32768();
    PowersOfTen();
    hide Parsed;
    LiteralParsed("-32768.5", l);
  }

  lemma NumberOf32768()
    ensures Number("32768") == 32768 && Number("5") == 5
  {
    assert "32768"[..4] == "3276" && "3276"[..3] == "327" && "327"[..2] == "32" && "32"[..1] == "3" && "3"[..0] == "";
    assert Number("3") == 3;
    assert Number("32") == 32;
    assert Number("327") == 327;
    assert Number("3276") == 3276;
    assert "5"[..0] == "";
  }

  // ---- The parser undoes the printer

  /** A size rounded to so many decimals, in units of 1 / 65536 again. */
  function RoundedTo(size: nat, places: nat): nat {
    RoundDiv(0x1_0000 * Scaled(size, places), Pow10(places))
  }

  /** The parts of what is printed. */
  function PrintedLiteral(value: int, places: nat): (l: Literal)
    requires -0x8000_0000 < value < 0x8000_0000 && places <= 5
  {
    var total, p := Scaled(Abs(value), places), Pow10(places);
    ScaledParts(Abs(value), places);
    Literal("", if value < 0 then "-" else "", Trimmed(total / p, 5), if places == 0 then "" else ".",
            if places == 0 then "" else Padded(total % p, places), "")
  }

  /**
   What is printed: a minus for negative numbers only, the integer digits without leading zeros, and a point
   with exactly the decimals asked for, if any.
   */
  lemma PrintedDigits(value: int, places: nat)
    requires -0x8000_0000 < value < 0x8000_0000 && places <= 5
    ensures var l := PrintedLiteral(value, places);
            && l.spaces == "" && l.sign == (if value < 0 then "-" else "") && l.rest == ""
            && (|l.whole| > 1 ==> l.whole[0] != '0') && l.point == (if places == 0 then "" else ".")
    ensures var total, p, l := Scaled(Abs(value), places), Pow10(places), PrintedLiteral(value, places);
            && Digits(l.whole) && Digits(l.decimals) && 1 <= |l.whole| <= 5 && |l.decimals| == places
            && Number(l.whole) == total / p && Number(l.decimals) == total % p
            && Printed(value, places) == l.spaces + l.sign + l.whole + l.point + l.decimals + l.rest
  {
    hide RoundDiv, Scaled, Number, Trimmed, Padded;
    var total, p, l := Scaled(Abs(value), places), Pow10(places), PrintedLiteral(value, places);
    ScaledParts(Abs(value), places);
    TrimmedNumber(total / p, 5);
    NoLeadingZero(total / p, 5);
    if places == 0 {
      NoDecimals();
    } else {
      PaddedNumber(total % p, places);
    }
    PartsJoined(l.sign, l.whole, l.point, l.decimals);
  }

  lemma {:induction false} NoLeadingZero(n: nat, k: nat)
    requires k > 0 && n < Pow10(k)
    ensures |Trimmed(n, k)| > 1 ==> Trimmed(n, k)[0] != '0'
  {
    hide Pow10;
    TopDigit(n, k);
    if k > 1 && n / Pow10(k - 1) == 0 {
      NoLeadingZero(n, k - 1);
    }
  }

  lemma PartsJoined(sign: string, whole: string, point: string, decimals: string)
    ensures "" + sign + whole + point + decimals + "" == sign + whole + (point + decimals)
  {
  }

  /** Multiples of the unit take no part in rounding. */
  lemma WholeAndRounded(total: nat, p: nat)
    requires p > 0
    ensures RoundDiv(0x1_0000 * total, p) == total / p * 0x1_0000 + RoundDiv(0x1_0000 * (total % p), p)
  {
    hide RoundDiv;
    var n, m := total / p, total % p;
    Bits.DivMod(total, p);
    Bits.MulAssociates(0x1_0000, n, p);
    RoundDivNearest(0x1_0000 * m, p);
    RoundDivNearest(0x1_0000 * total, p);
    var r := RoundDiv(0x1_0000 * m, p);
    NearestShifted(0x1_0000 * m, p, r, 0x1_0000 * n);
    NearestUnique(0x1_0000 * total, p, 0x1_0000 * n + r, RoundDiv(0x1_0000 * total, p));
  }

  lemma NearestShifted(n: int, d: int, r: int, k: int)
    requires Nearest(n, d, r) && k >= 0
    ensures Nearest(n + k * d, d, r + k)
  {
    Bits.MulDistributes(r, k, d);
    Bits.MulDistributes(r + k, r + k, d);
    Bits.MulDistributes(r, r, d);
  }

  /** The integer part of what is printed; it is 32768 only when the decimals are rounded up to it. */
  lemma PrintedSize(size: nat, places: nat)
    requires size < 0x8000_0000 && places <= 5
    ensures var total, p := Scaled(size, places), Pow10(places);
            total / p <= 32768 && (total / p == 32768 ==> RoundedTo(size, places) == 0x8000_0000)
            && (total / p <= 32767 ==> RoundedTo(size, places) <= 0x8000_0000)
  {
    hide RoundDiv, Scaled, Pow10;
    var total, p := Scaled(size, places), Pow10(places);
    ScaledParts(size, places);
    WholeAndRounded(total, p);
    ZeroRounds(p);
    RoundDivNearest(0x1_0000 * (total % p), p);
    RoundedBelow(total % p, p);
  }

  lemma ZeroRounds(p: nat)
    requires p > 0
    ensures RoundDiv(0x1_0000 * 0, p) == 0
  {
  }

  /** Printing with any number of decimals and parsing rounds to that many decimals. */
  lemma PrintedParsed(value: int, places: nat)
    requires -0x8000_0000 < value < 0x8000_0000 && places <= 5
    ensures var size: int := RoundedTo(Abs(value), places);
            Parsed(Printed(value, places)) ==
              if value < 0 then -size
              else if Scaled(value, places) / Pow10(places) <= 32767 then size else OVERFLOW
  {
    hide RoundDiv, Scaled, Number, Trimmed, Padded, Pow10, Parsed, Printed;
    var total, p, l := Scaled(Abs(value), places), Pow10(places), PrintedLiteral(value, places);
    var s := Printed(value, places);
    PrintedDigits(value, places);
    PrintedSize(Abs(value), places);
    WholeAndRounded(total, p);
    assert TrailsTo("", 0);
    if value < 0 || total / p <= 32767 {
      LiteralParsed(s, l);
    } else {
      TooLarge(s, l);
    }
  }

  lemma TooLarge(s: string, l: Literal)
    requires s == l.spaces + l.sign + l.whole + l.point + l.decimals + l.rest && l.spaces == l.sign == l.rest == ""
    requires Digits(l.whole) && 1 <= |l.whole| && Number(l.whole) > 32767
    requires (l.point == "" && l.decimals == "") || l.point == "."
    ensures Parsed(s) == OVERFLOW
  {
    hide Number, FixDiv, CleanRest, DecimalsEnd, Fraction;
    var j := |l.whole|;
    assert s[..j] == l.whole;
    assert forall x :: 0 <= x < j ==> s[x] == s[..j][x];
    if j < |s| {
      assert s[j] == l.point[0];
    }
    DigitsEndAt(s, 0, j, |s|);
    NumberOf(s, 0, j, l.whole);
  }

  /** Five decimals are enough: rounding there and back loses nothing. */
  lemma FiveDecimals(frac: nat)
    requires frac < 0x1_0000
    ensures var p := RoundDiv(frac * 100000, 0x1_0000);
            p < 100000 && RoundDiv(0x1_0000 * p, 100000) == frac
  {
    var p := RoundDiv(frac * 100000, 0x1_0000);
    RoundDivNearest(frac * 100000, 0x1_0000);
    RoundDivNearest(0x1_0000 * p, 100000);
    assert Nearest(0x1_0000 * p, 100000, frac);
    NearestUnique(0x1_0000 * p, 100000, frac, RoundDiv(0x1_0000 * p, 100000));
  }

  /** Printing with five decimals and parsing gives every number back but the least. */
  lemma RoundTrip(value: int)
    requires -0x8000_0000 < value < 0x8000_0000
    ensures Parsed(Printed(value, 5)) == value
  {
    hide RoundDiv, Trimmed, Padded, Printed, Parsed, Number, Pow10;
    var n, frac := Abs(value) / 0x1_0000, Abs(value) % 0x1_0000;
    PowersOfTen();
    FiveDecimals(frac);
    ScaledParts(Abs(value), 5);
    WholeAndRounded(Scaled(Abs(value), 5), 100000);
    PrintedParsed(value, 5);
  }
}
