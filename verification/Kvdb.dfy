/**
 An append-only log of key-value records, and the reader that scans it line by line and must
 not see a record whose end is missing.
 */
module Kvdb {
  import opened Basics
  import opened FixText

  datatype Header = NoHeader | Header(vlen: int, key: string)

  const MAX_VALUE: nat := 16 * 1024 * 1024

  /** The largest length for which `vlen + 5` is still an `int`. */
  const MAX_LENGTH: nat := 0x7FFF_FFFA

  /** A header with a length that an `int` holds and the code can use. */
  predicate Usable(h: Header) {
    h.Header? && 0 <= h.vlen <= MAX_LENGTH
  }

  // ---- Reading lines

  /** How many characters `fgets` reads when given room for `most`: up to and with a newline. */
  function LineLength(rest: string, most: nat): (n: nat)
    ensures n <= |rest| && n <= most && (rest != "" && most > 0 ==> n > 0)
  {
    if rest == "" || most == 0 then 0
    else if rest[0] == '\n' then 1
    else 1 + LineLength(rest[1..], most - 1)
  }

  predicate NoNewline(s: string) {
    forall i :: 0 <= i < |s| ==> s[i] != '\n'
  }

  /** A line that fits is read whole. */
  lemma {:induction false} WholeLine(s: string, rest: string, most: nat)
    requires NoNewline(s) && |s| < most
    ensures LineLength(s + "\n" + rest, most) == |s| + 1
    decreases |s|
  {
    var all := s + "\n" + rest;
    if s != "" {
      assert all[1..] == s[1..] + "\n" + rest;
      WholeLine(s[1..], rest, most - 1);
    }
  }

  /** A stretch without a newline is read as far as there is room. */
  lemma {:induction false} PartLine(s: string, rest: string, most: nat)
    requires NoNewline(s) && (|s| >= most || rest == "")
    ensures LineLength(s + rest, most) == if |s| >= most then most else |s|
    decreases |s|
  {
    if s != "" && most > 0 {
      assert (s + rest)[1..] == s[1..] + rest;
      PartLine(s[1..], rest, most - 1);
    }
  }

  /** The characters up to a newline. */
  function UpToNewline(s: string): (t: string)
    ensures |t| <= |s| && t == s[..|t|]
  {
    if s == "" || s[0] == '\n' then "" else [s[0]] + UpToNewline(s[1..])
  }

  /** `sscanf` with `%d:%[^\n]`: a number, a colon, and at least one character more. */
  function ParseHeader(line: string): Header {
    var i0 := SpacesEnd(line, 0);
    var i := if At(line, i0) == '+' || At(line, i0) == '-' then i0 + 1 else i0;
    var j := DigitsEnd(line, i, |line|);
    if j == i || At(line, j) != ':' || j >= |line| then NoHeader
    else
      var key := UpToNewline(line[j + 1..]);
      if key == "" then NoHeader
      else
        var n: int := NumberAt(line, i, j);
        Header(if At(line, i0) == '-' then -n else n, key)
  }

  // ---- The log

  /** What one put appends. */
  function Record(key: string, value: string): string
    requires |value| <= MAX_VALUE
  {
    LengthFits(|value|);
    "\n" + Trimmed(|value|, 8) + ":" + key + "\n" + value + "\n" + "END\n"
  }

  lemma LengthFits(n: nat)
    requires n <= MAX_VALUE
    ensures n < Pow10(8)
  {
    PowersOfTen();
    assert Pow10(6) == 10 * Pow10(5) && Pow10(8) == 100 * Pow10(6);
  }

  /** A key or a value as `kvdb_put` accepts it, on one line. */
  predicate GoodKey(key: string) {
    0 < |key| <= 128 && NoNewline(key)
  }

  /** None of the pieces a line is read in looks like a header. */
  predicate Quiet(line: string)
    decreases |line|
  {
    if |line| <= 499 then ParseHeader(line).NoHeader?
    else ParseHeader(line[..499]).NoHeader? && Quiet(line[499..])
  }

  /** A value on one line: no piece of it looks like a header, or it is all one piece with a usable length. */
  predicate GoodValue(value: string) {
    |value| <= MAX_VALUE && NoNewline(value) && (Quiet(value + "\n") || Noisy(value))
  }

  predicate Noisy(value: string) {
    |value| < 499 && Usable(ParseHeader(value + "\n"))
  }

  /** Nothing, or something that begins with an empty line, as every record does. */
  predicate BlankFirst(rest: string) {
    rest == "" || rest[0] == '\n'
  }

  // ---- The scanner

  /** Whether a line says that a record is complete. */
  predicate IsEnd(line: string) {
    |line| >= 3 && line[..3] == "END"
  }

  /** `value[vlen] = 0` on what was read. */
  function Cut(line: string, vlen: nat): string {
    if |line| > vlen then line[..vlen] else line
  }

  /**
   One round of the loop: how much is read, and what has been found then; a header whose length is
   not usable is passed over.
   */
  function Round(rest: string, target: string, res: Option<string>): (r: (nat, Option<string>))
    requires rest != ""
    ensures 0 < r.0 <= |rest|
  {
    var e := LineLength(rest, 499);
    var h := ParseHeader(rest[..e]);
    if !Usable(h) || h.key != target then (e, res)
    else
      var e2 := e + LineLength(rest[e..], h.vlen + 4);
      var e3 := e2 + LineLength(rest[e2..], 9);
      if e == |rest| || e2 == |rest| || !IsEnd(rest[e2..e3]) then (e3, res)
      else (e3, Some(Cut(rest[e..e2], h.vlen)))
  }

  /** What is found from here on, given what has been found. */
  function Scan(rest: string, target: string, res: Option<string>): Option<string>
    decreases |rest|
  {
    if rest == "" then res else
      var (n, res') := Round(rest, target, res);
      Scan(rest[n..], target, res')
  }

  /** `fgets`: the next line at `pos`, if there is one. */
  method Fgets(file: string, pos: nat, most: nat) returns (line: Option<string>, pos': nat)
    requires pos <= |file| && most > 0
    ensures pos' == pos + LineLength(file[pos..], most) <= |file|
    ensures line == if pos == |file| then None else Some(file[pos..pos'])
  {
    var n := LineLength(file[pos..], most);
    pos' := pos + n;
    line := if n == 0 then None else Some(file[pos..pos']);
  }

  /** The body of the loop of `find_db`. */
  method ReadRound(file: string, pos: nat, target: string, res: Option<string>)
    returns (pos': nat, res': Option<string>)
    requires pos < |file|
    ensures (pos' - pos, res') == Round(file[pos..], target, res)
  {
    hide LineLength, ParseHeader;
    ghost var rest := file[pos..];
    var buf;
    res' := res;
    buf, pos' := Fgets(file, pos, 499);
    ghost var e := pos' - pos;
    assert buf.value == rest[..e];
    var header := ParseHeader(buf.value);
    if !Usable(header) || target != header.key {
      return;
    }
    var value;
    assert file[pos'..] == rest[e..];
    value, pos' := Fgets(file, pos', header.vlen + 4);
    ghost var e2 := pos' - pos;
    assert file[pos'..] == rest[e2..];
    if value.None? {
      NothingLeft(rest[e2..], 9);
      return;
    }
    assert value.value == rest[e..e2];
    var end;
    end, pos' := Fgets(file, pos', 9);
    if end.None? || !IsEnd(end.value) {
      assert end.Some? ==> end.value == rest[e2..pos' - pos];
      return;
    }
    assert end.value == rest[e2..pos' - pos];
    res' := Some(Cut(value.value, header.vlen));
  }

  lemma NothingLeft(rest: string, most: nat)
    requires rest == ""
    ensures LineLength(rest, most) == 0
  {
  }

  /** `find_db`. */
  method FindDb(file: string, target: string) returns (res: Option<string>)
    ensures res == Scan(file, target, None)
  {
    res := None;
    var pos := 0;
    assert file[0..] == file;
    while pos < |file|
      invariant 0 <= pos <= |file| && Scan(file[pos..], target, res) == Scan(file, target, None)
      decreases |file| - pos
    {
      ghost var rest, n := file[pos..], pos;
      pos, res := ReadRound(file, pos, target, res);
      assert file[pos..] == rest[pos - n..];
    }
  }

  // ---- How each kind of line is scanned

  lemma {:induction false} UpToNewlineIs(s: string, tail: string)
    requires NoNewline(s) && (tail == "" || tail[0] == '\n')
    ensures UpToNewline(s + tail) == s
  {
    if s != "" {
      assert (s + tail)[1..] == s[1..] + tail;
      UpToNewlineIs(s[1..], tail);
    } else {
      assert s + tail == tail;
    }
  }

  function HeaderLine(n: nat, key: string): string
    requires n <= MAX_VALUE
  {
    LengthFits(n);
    Trimmed(n, 8) + ":" + key
  }

  /** Digits, a colon and a key up to the end of the line are a header. */
  lemma DigitsParsed(line: string, j: nat, key: string)
    requires 0 < j < |line| && (forall l :: 0 <= l < j ==> IsDigit(line[l])) && line[j] == ':' && key != ""
    requires UpToNewline(line[j + 1..]) == key
    ensures ParseHeader(line) == Header(Number(line[..j]), key)
  {
    hide Number, UpToNewline;
    DigitsEndAt(line, 0, j, |line|);
    assert line[0..j] == line[..j];
  }

  /** The header that a put writes is read back. */
  lemma HeaderParsed(n: nat, key: string, tail: string)
    requires n <= MAX_VALUE && GoodKey(key) && (tail == "" || tail[0] == '\n')
    ensures ParseHeader(HeaderLine(n, key) + tail) == Header(n, key)
  {
    hide Number, Pow10, Trimmed, ParseHeader, UpToNewline;
    LengthFits(n);
    TrimmedNumber(n, 8);
    var d := Trimmed(n, 8);
    var line, j := HeaderLine(n, key) + tail, |d|;
    assert line[..j] == d && line[j] == ':' && line[j + 1..] == key + tail;
    UpToNewlineIs(key, tail);
    DigitsParsed(line, j, key);
  }

  /** A last line that is read whole finds nothing, whatever it looks like. */
  lemma LastLine(rest: string, target: string, res: Option<string>)
    requires LineLength(rest, 499) == |rest|
    ensures Scan(rest, target, res) == res
  {
    hide ParseHeader;
    if rest != "" {
      var e := LineLength(rest, 499);
      assert rest[e..] == "";
      var h := ParseHeader(rest[..e]);
      NothingLeft(rest[e..], if Usable(h) then h.vlen + 4 else 0);
      NothingLeft(rest[e..], 9);
    }
  }

  /** A line that does not look like a header is passed over. */
  lemma PassLine(line: string, rest: string, target: string, res: Option<string>)
    requires line != "" && LineLength(line + rest, 499) == |line| && ParseHeader(line).NoHeader?
    ensures Scan(line + rest, target, res) == Scan(rest, target, res)
  {
    hide ParseHeader, LineLength;
    var all := line + rest;
    assert all[..|line|] == line && all[|line|..] == rest;
  }

  lemma PassBlank(rest: string, target: string, res: Option<string>)
    ensures Scan("\n" + rest, target, res) == Scan(rest, target, res)
  {
    assert ParseHeader("\n").NoHeader? by {
      assert SpacesEnd("\n", 1) == 1;
    }
    WholeLine("", rest, 499);
    assert "" + "\n" + rest == "\n" + rest;
    PassLine("\n", rest, target, res);
  }

  lemma PassEnd(rest: string, target: string, res: Option<string>)
    ensures Scan("END\n" + rest, target, res) == Scan(rest, target, res)
  {
    WholeLine("END", rest, 499);
    assert "END" + "\n" + rest == "END\n" + rest;
    assert ParseHeader("END\n").NoHeader?;
    PassLine("END\n", rest, target, res);
  }

  /** A value that is not asked for is passed over, however many pieces it is read in. */
  lemma {:induction false} PassQuiet(s: string, rest: string, target: string, res: Option<string>)
    requires NoNewline(s) && Quiet(s + "\n")
    ensures Scan(s + "\n" + rest, target, res) == Scan(rest, target, res)
    decreases |s|
  {
    hide ParseHeader;
    var line := s + "\n";
    if |line| <= 499 {
      WholeLine(s, rest, 499);
      PassLine(line, rest, target, res);
    } else {
      var a, b := s[..499], s[499..];
      assert line[..499] == a && line[499..] == b + "\n";
      assert s + "\n" + rest == a + (b + "\n" + rest);
      PartLine(a, b + "\n" + rest, 499);
      PassLine(a, b + "\n" + rest, target, res);
      PassQuiet(b, rest, target, res);
    }
  }

  /** A header for the key asked for, with no end of a record after what is read as its value. */
  lemma NoEnd(all: string, key: string, res: Option<string>, e: nat, l: nat, l2: nat)
    requires 0 < e <= |all| && LineLength(all, 499) == e
    requires Usable(ParseHeader(all[..e])) && ParseHeader(all[..e]).key == key
    requires LineLength(all[e..], ParseHeader(all[..e]).vlen + 4) == l
    requires e + l + l2 <= |all| && LineLength(all[e + l..], 9) == l2 && !IsEnd(all[e + l..e + l + l2])
    ensures Scan(all, key, res) == Scan(all[e + l + l2..], key, res)
  {
    hide ParseHeader, LineLength, IsEnd;
  }

  /** A value that looks like a header for the key asked for takes the end of its own record for a value. */
  lemma PassNoisy(value: string, rest: string, target: string, res: Option<string>)
    requires NoNewline(value) && Noisy(value) && BlankFirst(rest)
    ensures Scan(value + "\n" + ("END\n" + rest), target, res) == Scan(rest, target, res)
  {
    hide ParseHeader, LineLength, Scan;
    var e, ending := |value| + 1, "END\n" + rest;
    var all := value + "\n" + ending;
    WholeLine(value, ending, 499);
    assert all[..e] == value + "\n" && all[e..] == ending;
    var h := ParseHeader(value + "\n");
    if h.key != target {
      SkipRound(all, target, res, e);
      PassEnd(rest, target, res);
    } else {
      WholeLine("END", rest, h.vlen + 4);
      assert "END" + "\n" + rest == ending && all[e + 4..] == rest;
      BlankRead(rest);
      var l2 := if rest == "" then 0 else 1;
      NoEnd(all, target, res, e, 4, l2);
      assert all[e + 4 + l2..] == rest[l2..];
      if rest != "" {
        assert rest == "\n" + rest[1..];
        PassBlank(rest[1..], target, res);
      }
    }
  }

  lemma BlankRead(rest: string)
    requires BlankFirst(rest)
    ensures LineLength(rest, 9) == if rest == "" then 0 else 1
    ensures !IsEnd(rest[..LineLength(rest, 9)])
  {
  }

  /** Either way a value that is not asked for finds nothing. */
  lemma PassValue(value: string, rest: string, target: string, res: Option<string>)
    requires GoodValue(value) && BlankFirst(rest)
    ensures Scan(value + "\n" + ("END\n" + rest), target, res) == Scan(rest, target, res)
  {
    hide ParseHeader, Quiet, Scan;
    if Quiet(value + "\n") {
      PassQuiet(value, "END\n" + rest, target, res);
      PassEnd(rest, target, res);
    } else {
      PassNoisy(value, rest, target, res);
    }
  }

  /** The same when the record ends within its last line. */
  lemma PassValueTorn(value: string, y: string, target: string, res: Option<string>)
    requires GoodValue(value) && y <= "END"
    ensures Scan(value + "\n" + y, target, res) == res
  {
    hide ParseHeader, LineLength, Quiet, Scan;
    ShortLast(y, target, res);
    if Quiet(value + "\n") {
      PassQuiet(value, y, target, res);
    } else {
      var e := |value| + 1;
      var all := value + "\n" + y;
      WholeLine(value, y, 499);
      assert all[..e] == value + "\n" && all[e..] == y;
      var h := ParseHeader(value + "\n");
      if h.key != target {
        SkipRound(all, target, res, e);
      } else {
        PartLine(y, "", h.vlen + 4);
        assert y + "" == y;
        NothingFound(all, target, res, e, |y|);
      }
    }
  }

  /** The same when it is cut short by the end of the file. */
  lemma {:induction false} PassTorn(x: string, s: string, target: string, res: Option<string>)
    requires NoNewline(s) && (Quiet(s + "\n") || |s| < 499) && x <= s
    ensures Scan(x, target, res) == res
    decreases |x|
  {
    hide ParseHeader;
    if |x| <= 499 {
      PartLine(x, "", 499);
      assert x + "" == x;
      LastLine(x, target, res);
    } else {
      var a, b := x[..499], x[499..];
      var line := s + "\n";
      assert line[..499] == a && line[499..] == s[499..] + "\n";
      assert x == a + b;
      PartLine(a, b, 499);
      PassLine(a, b, target, res);
      PassTorn(b, s[499..], target, res);
    }
  }

  // ---- Records

  /** A record after its first blank line. */
  function Body(key: string, value: string): string
    requires |value| <= MAX_VALUE
  {
    HeaderLine(|value|, key) + "\n" + (value + "\n" + "END\n")
  }

  lemma RecordBody(key: string, value: string)
    requires |value| <= MAX_VALUE
    ensures Record(key, value) == "\n" + Body(key, value)
  {
  }

  lemma HeaderOneLine(n: nat, key: string)
    requires n <= MAX_VALUE && GoodKey(key)
    ensures NoNewline(HeaderLine(n, key)) && 0 < |HeaderLine(n, key)| <= 137
  {
    hide Number, Trimmed, Pow10;
    LengthFits(n);
    TrimmedNumber(n, 8);
  }

  /** The round that reads a header. */
  lemma HeaderRound(key: string, n: nat, rest: string)
    requires n <= MAX_VALUE && GoodKey(key)
    ensures var h := HeaderLine(n, key);
            var all := h + "\n" + rest;
            && LineLength(all, 499) == |h| + 1 && ParseHeader(all[..|h| + 1]) == Header(n, key)
            && all[|h| + 1..] == rest
  {
    hide LineLength, ParseHeader;
    var h := HeaderLine(n, key);
    HeaderOneLine(n, key);
    WholeLine(h, rest, 499);
    HeaderParsed(n, key, "\n");
    assert (h + "\n" + rest)[..|h| + 1] == h + "\n";
  }

  /** A record for another key is passed over. */
  lemma PassOther(key: string, value: string, rest: string, target: string, res: Option<string>)
    requires GoodKey(key) && GoodValue(value) && key != target && BlankFirst(rest)
    ensures Scan(Record(key, value) + rest, target, res) == Scan(rest, target, res)
  {
    hide LineLength, ParseHeader, Quiet;
    var n, h := |value|, HeaderLine(|value|, key);
    var after := value + "\n" + ("END\n" + rest);
    RecordBody(key, value);
    assert Record(key, value) + rest == "\n" + (h + "\n" + after);
    PassBlank(h + "\n" + after, target, res);
    HeaderRound(key, n, after);
    PassValue(value, rest, target, res);
  }

  /** The round that reads a record asked for. */
  lemma ValueRound(value: string, rest: string)
    requires |value| <= MAX_VALUE && NoNewline(value) && (rest == "" || rest[0] == '\n')
    ensures var all := value + "\n" + ("END" + rest);
            && LineLength(all, |value| + 4) == |value| + 1 && Cut(all[..|value| + 1], |value|) == value
            && all[|value| + 1..] == "END" + rest
            && (rest == "" ==> LineLength("END" + rest, 9) == 3) && (rest != "" ==> LineLength("END" + rest, 9) == 4)
  {
    hide LineLength;
    WholeLine(value, "END" + rest, |value| + 4);
    if rest == "" {
      PartLine("END", "", 9);
    } else {
      WholeLine("END", rest[1..], 9);
      assert "END" + "\n" + rest[1..] == "END" + rest;
    }
  }

  lemma RoundTakes(all: string, key: string, value: string, res: Option<string>, e: nat, after: string,
                   ending: string, l: nat)
    requires e <= |all| && e > 0 && all[e..] == after && after == value + "\n" + ending && |value| <= MAX_VALUE
    requires LineLength(all, 499) == e && ParseHeader(all[..e]) == Header(|value|, key)
    requires LineLength(after, |value| + 4) == |value| + 1 && LineLength(ending, 9) == l <= |ending|
    requires IsEnd(ending[..l]) && l >= 3
    ensures Round(all, key, res) == (e + |value| + 1 + l, Some(value))
    ensures all[e + |value| + 1 + l..] == ending[l..]
  {
    hide LineLength, ParseHeader;
    var e2 := e + |value| + 1;
    assert all[e..e2] == after[..|value| + 1];
    assert after[..|value| + 1][..|value|] == value;
    assert all[e2..] == after[|value| + 1..] == ending;
    assert all[e2..e2 + l] == ending[..l];
  }

  /** A record for the key asked for, its last newline there or not. */
  lemma TakeRecord(key: string, value: string, rest: string, res: Option<string>)
    requires GoodKey(key) && |value| <= MAX_VALUE && NoNewline(value) && (rest == "" || rest[0] == '\n')
    ensures var all := "\n" + (HeaderLine(|value|, key) + "\n" + (value + "\n" + ("END" + rest)));
            Scan(all, key, res) == Scan(if rest == "" then "" else rest[1..], key, Some(value))
  {
    hide LineLength, ParseHeader, Round, HeaderLine;
    var n, h := |value|, HeaderLine(|value|, key);
    var ending := "END" + rest;
    var after := value + "\n" + ending;
    var all := h + "\n" + after;
    PassBlank(all, key, res);
    HeaderRound(key, n, after);
    ValueRound(value, rest);
    var l := if rest == "" then 3 else 4;
    RoundTakes(all, key, value, res, |h| + 1, after, ending, l);
    assert ending[l..] == if rest == "" then "" else rest[1..];
  }

  // ---- A torn tail

  lemma ShortLast(y: string, target: string, res: Option<string>)
    requires NoNewline(y) && |y| <= 499
    ensures Scan(y, target, res) == res
  {
    PartLine(y, "", 499);
    assert y + "" == y;
    LastLine(y, target, res);
  }

  /** A record for the key asked for, cut in its value or in its last word, is not found. */
  lemma TornOwn(key: string, value: string, x: string, res: Option<string>)
    requires GoodKey(key) && |value| <= MAX_VALUE && NoNewline(value) && x <= value + "\n" + "EN"
    ensures Scan(HeaderLine(|value|, key) + "\n" + x, key, res) == res
  {
    hide ParseHeader, HeaderLine, LineLength, Scan;
    var h := HeaderLine(|value|, key);
    var all := h + "\n" + x;
    HeaderRound(key, |value|, x);
    if |x| <= |value| {
      assert x <= value && x + "" == x;
      PartLine(x, "", |value| + 4);
      NothingFound(all, key, res, |h| + 1, |x|);
    } else {
      var y := x[|value| + 1..];
      assert x == value + "\n" + y && y <= "EN" && x[|value| + 1..] == y;
      WholeLine(value, y, |value| + 4);
      NothingFound(all, key, res, |h| + 1, |value| + 1);
    }
  }

  /** Nor does it disturb another key. */
  lemma TornBody(key: string, value: string, x: string, target: string, res: Option<string>)
    requires GoodKey(key) && GoodValue(value) && x <= value + "\n" + "EN"
    ensures Scan(HeaderLine(|value|, key) + "\n" + x, target, res) == res
  {
    hide ParseHeader, HeaderLine, Quiet, LineLength, Scan;
    if key == target {
      TornOwn(key, value, x, res);
    } else {
      HeaderRound(key, |value|, x);
      SkipRound(HeaderLine(|value|, key) + "\n" + x, target, res, |HeaderLine(|value|, key)| + 1);
      if |x| <= |value| {
        assert x <= value;
        PassTorn(x, value, target, res);
      } else {
        var y := x[|value| + 1..];
        assert x == value + "\n" + y && y <= "EN";
        PassValueTorn(value, y, target, res);
      }
    }
  }

  /** A header for another key. */
  lemma SkipRound(all: string, target: string, res: Option<string>, e: nat)
    requires 0 < e <= |all| && LineLength(all, 499) == e
    requires ParseHeader(all[..e]).Header? && ParseHeader(all[..e]).key != target
    ensures Scan(all, target, res) == Scan(all[e..], target, res)
  {
    hide ParseHeader, LineLength;
  }

  /** A header for the key, but no end of the record. */
  lemma NothingFound(all: string, key: string, res: Option<string>, e: nat, l: nat)
    requires 0 < e && e + l <= |all| <= e + l + 2 && LineLength(all, 499) == e
    requires Usable(ParseHeader(all[..e])) && ParseHeader(all[..e]).key == key
    requires LineLength(all[e..], ParseHeader(all[..e]).vlen + 4) == l
    requires NoNewline(all[e + l..])
    ensures Scan(all, key, res) == res
  {
    hide ParseHeader;
    var y := all[e + l..];
    PartLine(y, "", 9);
    assert y + "" == y;
    assert all[|all|..] == "";
  }

  lemma TornRecord(key: string, value: string, t: string, target: string, res: Option<string>)
    requires GoodKey(key) && GoodValue(value) && t <= Record(key, value) && |t| < |Record(key, value)| - 1
    ensures Scan(t, target, res) == res
  {
    hide ParseHeader, LineLength, Quiet, HeaderLine, Scan, Record, NoNewline;
    RecordBody(key, value);
    var h := HeaderLine(|value|, key);
    HeaderOneLine(|value|, key);
    if t == "" {
      NothingScanned(target, res);
    } else {
      PrefixParts(t, value, h);
      var u := t[1..];
      PassBlank(u, target, res);
      if |u| <= |h| {
        ShortPrefix(u, h);
        ShortLast(u, target, res);
      } else {
        TornBody(key, value, u[|h| + 1..], target, res);
      }
    }
  }

  lemma ShortPrefix(u: string, h: string)
    requires u <= h && NoNewline(h)
    ensures NoNewline(u)
  {
  }

  /** A proper part of a record, taken apart. */
  lemma PrefixParts(t: string, value: string, h: string)
    requires t != "" && t <= "\n" + (h + "\n" + (value + "\n" + "END\n"))
    requires |t| < |h| + |value| + 6
    ensures var u := t[1..];
            && t == "\n" + u
            && (|u| <= |h| ==> u <= h)
            && (|u| > |h| ==> u == h + "\n" + u[|h| + 1..] && u[|h| + 1..] <= value + "\n" + "EN")
  {
    var u, tail := t[1..], value + "\n" + "END\n";
    var all := h + "\n" + tail;
    assert ("\n" + all)[1..] == all;
    assert u == all[..|u|];
    if |u| <= |h| {
      assert u == h[..|u|];
    } else {
      var x := u[|h| + 1..];
      assert u == h + "\n" + x && x == tail[..|x|];
      assert tail == (value + "\n" + "EN") + "D\n";
      assert x == (value + "\n" + "EN")[..|x|];
    }
  }

  /** A record that lacks only its last newline is complete. */
  lemma UnterminatedRecord(key: string, value: string, target: string, res: Option<string>)
    requires GoodKey(key) && GoodValue(value)
    ensures var r := Record(key, value);
            Scan(r[..|r| - 1], target, res) == if key == target then Some(value) else res
  {
    hide ParseHeader, LineLength, Quiet, HeaderLine;
    RecordBody(key, value);
    var r, h := Record(key, value), HeaderLine(|value|, key);
    var after := value + "\n" + ("END" + "");
    assert r[..|r| - 1] == "\n" + (h + "\n" + after);
    if key == target {
      TakeRecord(key, value, "", res);
    } else {
      PassBlank(h + "\n" + after, target, res);
      HeaderRound(key, |value|, after);
      SkipRound(h + "\n" + after, target, res, |h| + 1);
      assert after == value + "\n" + "END";
      PassValueTorn(value, "END", target, res);
    }
  }

  // ---- The whole log

  predicate Accepted(records: seq<(string, string)>) {
    forall i :: 0 <= i < |records| ==> 0 < |records[i].0| <= 128 && |records[i].1| <= MAX_VALUE
  }

  function Log(records: seq<(string, string)>): string
    requires Accepted(records)
  {
    if records == [] then "" else Record(records[0].0, records[0].1) + Log(records[1..])
  }

  /** The last value put under a key, if any. */
  function LastValue(records: seq<(string, string)>, target: string): Option<string> {
    if records == [] then None
    else
      var n := |records| - 1;
      if records[n].0 == target then Some(records[n].1) else LastValue(records[..n], target)
  }

  ghost predicate GoodRecords(records: seq<(string, string)>) {
    forall i :: 0 <= i < |records| ==> GoodKey(records[i].0) && GoodValue(records[i].1)
  }

  lemma GoodAccepted(records: seq<(string, string)>)
    requires GoodRecords(records)
    ensures Accepted(records)
  {
  }

  lemma OneRecord(key: string, value: string, rest: string, target: string, res: Option<string>)
    requires GoodKey(key) && GoodValue(value) && BlankFirst(rest)
    ensures Scan(Record(key, value) + rest, target, res)
            == Scan(rest, target, if key == target then Some(value) else res)
  {
    hide ParseHeader, LineLength, Quiet, HeaderLine, Scan;
    if key == target {
      RecordBody(key, value);
      var h := HeaderLine(|value|, key);
      assert Record(key, value) + rest == "\n" + (h + "\n" + (value + "\n" + ("END" + ("\n" + rest))));
      TakeRecord(key, value, "\n" + rest, res);
      assert ("\n" + rest)[1..] == rest;
    } else {
      PassOther(key, value, rest, target, res);
    }
  }

  function Found(records: seq<(string, string)>, target: string, res: Option<string>): Option<string> {
    var last := LastValue(records, target);
    if last.Some? then last else res
  }

  lemma {:induction false} FoundFirst(records: seq<(string, string)>, target: string, res: Option<string>)
    requires records != []
    ensures Found(records, target, res) ==
              Found(records[1..], target, if records[0].0 == target then Some(records[0].1) else res)
  {
    var n := |records| - 1;
    if n > 0 {
      FoundFirst(records[..n], target, res);
      assert records[1..][..n - 1] == records[..n][1..];
    }
  }

  lemma {:induction false} ScanLog(records: seq<(string, string)>, rest: string, target: string, res: Option<string>)
    requires GoodRecords(records) && BlankFirst(rest)
    ensures Scan(Log(records) + rest, target, res) == Scan(rest, target, Found(records, target, res))
    decreases |records|
  {
    hide Scan, Record, Found;
    if records == [] {
      assert Log(records) + rest == rest;
      FoundNone(target, res);
    } else {
      var (key, value) := records[0];
      assert Log(records) + rest == Record(key, value) + (Log(records[1..]) + rest);
      LogBlankFirst(records[1..], rest);
      OneRecord(key, value, Log(records[1..]) + rest, target, res);
      ScanLog(records[1..], rest, target, if key == target then Some(value) else res);
      FoundFirst(records, target, res);
    }
  }

  lemma LogBlankFirst(records: seq<(string, string)>, rest: string)
    requires Accepted(records) && BlankFirst(rest)
    ensures BlankFirst(Log(records) + rest)
  {
    if records == [] {
      assert Log(records) + rest == rest;
    }
  }

  lemma FoundNone(target: string, res: Option<string>)
    ensures Found([], target, res) == res
  {
  }

  /**
   A log of complete puts and any part of one more: the last complete record for a key is found,
   and the part counts exactly when at most its last newline is missing.
   */
  lemma TornTail(records: seq<(string, string)>, key: string, value: string, tail: string, target: string)
    requires GoodRecords(records) && GoodKey(key) && GoodValue(value) && tail <= Record(key, value)
    ensures Scan(Log(records) + tail, target, None) ==
              LastValue(if |tail| >= |Record(key, value)| - 1 then records + [(key, value)] else records, target)
  {
    hide Scan, Record, Log, GoodRecords;
    var r, found := Record(key, value), Found(records, target, None);
    RecordBlank(key, value);
    assert tail != "" ==> tail[0] == r[0];
    ScanLog(records, tail, target, None);
    if |tail| < |r| - 1 {
      TornRecord(key, value, tail, target, found);
    } else {
      assert (records + [(key, value)])[..|records|] == records;
      if |tail| == |r| - 1 {
        assert tail == r[..|r| - 1];
        UnterminatedRecord(key, value, target, found);
      } else {
        assert tail == r && r + "" == r;
        OneRecord(key, value, "", target, found);
        NothingScanned(target, if key == target then Some(value) else found);
      }
    }
  }

  lemma NothingScanned(target: string, res: Option<string>)
    ensures Scan("", target, res) == res
  {
  }

  class Db {
    var file: string
    ghost var records: seq<(string, string)>

    /** The file is the log of the puts so far. */
    ghost predicate Valid()
      reads this
    {
      Accepted(records) && file == Log(records)
    }

    /** An empty file. */
    constructor ()
      ensures Valid() && records == []
    {
      file, records := "", [];
    }

    /** `kvdb_put`, whatever the key and the value hold. */
    method Put(key: string, value: string) returns (res: int)
      requires Valid()
      modifies this
      ensures Valid()
      ensures if 0 < |key| <= 128 && |value| <= MAX_VALUE then res == 0 && records == old(records) + [(key, value)]
              else res == -1 && records == old(records) && file == old(file)
    {
      hide Record, Trimmed, Log, Accepted;
      if |key| == 0 || |key| > 128 || |value| > MAX_VALUE {
        return -1;
      }
      LengthFits(|value|);
      RecordIs(key, value);
      Appended(file, Trimmed(|value|, 8), key, value);
      file := file + "\n";
      file := file + Trimmed(|value|, 8) + ":" + key + "\n";
      file := file + value + "\n";
      file := file + "END\n";
      LogAdd(records, key, value);
      records := records + [(key, value)];
      res := 0;
    }

    /** `kvdb_get`: the last value put under the key, if all that was put can be told from headers. */
    method Get(key: string) returns (value: Option<string>)
      requires Valid()
      ensures value == if 0 < |key| <= 128 then Scan(file, key, None) else None
      ensures GoodRecords(records) ==> value == if 0 < |key| <= 128 then LastValue(records, key) else None
    {
      hide Scan, Log, GoodRecords;
      if |key| == 0 || |key| > 128 {
        return None;
      }
      value := FindDb(file, key);
      if GoodRecords(records) {
        ScanLog(records, "", key, None);
        assert file + "" == file;
        NothingScanned(key, Found(records, key, None));
      }
    }
  }

  // ---- Reading back what was just put

  /** A newline only at the end. */
  predicate OneLine(s: string) {
    s == "" || NoNewline(s[..|s| - 1])
  }

  lemma {:induction false} LineIsOne(rest: string, most: nat)
    ensures OneLine(rest[..LineLength(rest, most)])
  {
    if rest != "" && most > 0 && rest[0] != '\n' {
      LineIsOne(rest[1..], most - 1);
      var n := LineLength(rest[1..], most - 1);
      var line, tail := rest[..n + 1], rest[1..][..n];
      assert LineLength(rest, most) == n + 1;
      forall i | 0 <= i < n
        ensures line[..n][i] != '\n'
      {
        assert i > 0 ==> line[..n][i] == tail[..n - 1][i - 1];
      }
    }
  }

  lemma {:induction false} KeyHasNoNewline(s: string)
    ensures NoNewline(UpToNewline(s))
  {
    if s != "" && s[0] != '\n' {
      KeyHasNoNewline(s[1..]);
    }
  }

  lemma HeaderKey(line: string)
    ensures ParseHeader(line).Header? ==> NoNewline(ParseHeader(line).key)
  {
    var i0 := SpacesEnd(line, 0);
    var i := if At(line, i0) == '+' || At(line, i0) == '-' then i0 + 1 else i0;
    var j := DigitsEnd(line, i, |line|);
    if j < |line| {
      KeyHasNoNewline(line[j + 1..]);
    }
  }

  /** Whatever the file, a scan finds single lines, and nothing under a key with a newline. */
  lemma {:induction false} ScanFinds(rest: string, target: string, res: Option<string>)
    ensures var r := Scan(rest, target, res); r == res || (r.Some? && OneLine(r.value) && NoNewline(target))
    decreases |rest|
  {
    hide ParseHeader, LineLength;
    if rest != "" {
      var e := LineLength(rest, 499);
      HeaderKey(rest[..e]);
      var h := ParseHeader(rest[..e]);
      if Usable(h) {
        var line := rest[e..];
        LineIsOne(line, h.vlen + 4);
        var e2 := e + LineLength(line, h.vlen + 4);
        assert rest[e..e2] == line[..e2 - e];
        CutOneLine(rest[e..e2], h.vlen);
      }
      var (n, res') := Round(rest, target, res);
      ScanFinds(rest[n..], target, res');
    }
  }

  lemma CutOneLine(s: string, vlen: nat)
    requires OneLine(s)
    ensures OneLine(Cut(s, vlen))
  {
  }

  /** A value that ends in its only newline: the empty line after it is not the end of a record. */
  lemma NewlineLast(key: string, a: string, res: Option<string>)
    requires GoodKey(key) && NoNewline(a) && |a| < MAX_VALUE
    ensures Scan(Record(key, a + "\n"), key, res) == res
  {
    hide ParseHeader, LineLength, HeaderLine, Scan;
    var value := a + "\n";
    RecordBody(key, value);
    var h := HeaderLine(|value|, key);
    var e, after := |h| + 1, value + "\n" + "END\n";
    assert value + "\n" + "END\n" == value + ("\n" + "END\n");
    var all := h + "\n" + after;
    assert Record(key, value) == "\n" + all;
    PassBlank(all, key, res);
    HeaderRound(key, |value|, after);
    WholeLine(a, "\n" + "END\n", |value| + 4);
    assert a + "\n" + ("\n" + "END\n") == after;
    assert all[e + |value|..] == "\n" + "END\n";
    BlankRead("\n" + "END\n");
    NoEnd(all, key, res, e, |value|, 1);
    assert all[e + |value| + 1..] == "END\n" + "";
    PassEnd("", key, res);
    NothingScanned(key, res);
  }

  lemma {:induction false} LastIsGood(records: seq<(string, string)>, target: string)
    requires GoodRecords(records)
    ensures LastValue(records, target).Some? ==> NoNewline(LastValue(records, target).value)
  {
    if records != [] {
      LastIsGood(records[..|records| - 1], target);
    }
  }

  /** What was just put is read back exactly when neither the key nor the value has a newline in it. */
  lemma PutThenGet(records: seq<(string, string)>, key: string, value: string)
    requires GoodRecords(records) && 0 < |key| <= 128 && |value| <= MAX_VALUE
    ensures Accepted(records)
    ensures Scan(Log(records) + Record(key, value), key, None) == Some(value) <==> NoNewline(key) && NoNewline(value)
  {
    hide Scan, Record, Log, GoodRecords, Found;
    GoodAccepted(records);
    var found := Found(records, key, None);
    RecordBlank(key, value);
    ScanLog(records, Record(key, value), key, None);
    ScanFinds(Log(records) + Record(key, value), key, None);
    ScanFinds(Record(key, value), key, found);
    LastIsGood(records, key);
    FoundIs(records, key);
    if NoNewline(key) && NoNewline(value) {
      OwnRecord(key, value, found);
    } else if NoNewline(key) && OneLine(value) {
      assert value == value[..|value| - 1] + "\n";
      NewlineLast(key, value[..|value| - 1], found);
    }
  }

  lemma FoundIs(records: seq<(string, string)>, key: string)
    ensures Found(records, key, None) == LastValue(records, key)
  {
  }

  lemma RecordBlank(key: string, value: string)
    requires |value| <= MAX_VALUE
    ensures BlankFirst(Record(key, value))
  {
  }

  lemma OwnRecord(key: string, value: string, res: Option<string>)
    requires GoodKey(key) && NoNewline(value) && |value| <= MAX_VALUE
    ensures Scan(Record(key, value), key, res) == Some(value)
  {
    hide Scan, HeaderLine;
    RecordBody(key, value);
    assert "END\n" == "END" + "\n";
    TakeRecord(key, value, "\n", res);
    assert "\n"[1..] == "";
    NothingScanned(key, Some(value));
  }

  /** And a newline in a value can make it pass for a record under another key. */
  lemma NewlineForges(key: string, other: string, forged: string)
    requires GoodKey(key) && GoodKey(other) && key != other && NoNewline(forged) && |forged| < MAX_VALUE - 200
    ensures var value := "x\n" + Record(other, forged);
            |value| <= MAX_VALUE && Scan(Record(key, value), other, None) == Some(forged)
  {
    hide ParseHeader, LineLength, HeaderLine, Scan;
    HeaderOneLine(|forged|, other);
    RecordBody(other, forged);
    var value := "x\n" + Record(other, forged);
    RecordBody(key, value);
    var h, after := HeaderLine(|value|, key), value + "\n" + "END\n";
    assert value + ("\n" + "END\n") == after;
    PassBlank(h + "\n" + after, other, None);
    HeaderRound(key, |value|, after);
    SkipRound(h + "\n" + after, other, None, |h| + 1);
    NotAHeader();
    var h', rest := HeaderLine(|forged|, other), "\n" + ("\n" + "END\n");
    var inner := "\n" + (h' + "\n" + (forged + "\n" + ("END" + rest)));
    assert after == "x\n" + inner;
    WholeLine("x", inner, 499);
    assert "x" + "\n" + inner == "x\n" + inner;
    PassLine("x\n", inner, other, None);
    TakeRecord(other, forged, rest, None);
    assert rest[1..] == "\n" + "END\n";
    PassBlank("END\n", other, Some(forged));
    assert "END\n" + "" == "END\n";
    PassEnd("", other, Some(forged));
    NothingScanned(other, Some(forged));
  }

  lemma NotAHeader()
    ensures ParseHeader("x\n").NoHeader?
  {
  }

  lemma Appended(file: string, length: string, key: string, value: string)
    ensures file + "\n" + length + ":" + key + "\n" + value + "\n" + "END\n"
              == file + ("\n" + length + ":" + key + "\n" + value + "\n" + "END\n")
  {
  }

  lemma RecordIs(key: string, value: string)
    requires |value| <= MAX_VALUE
    ensures |value| < Pow10(8)
    ensures Record(key, value) == "\n" + Trimmed(|value|, 8) + ":" + key + "\n" + value + "\n" + "END\n"
  {
    LengthFits(|value|);
  }

  lemma {:induction false} LogAdd(records: seq<(string, string)>, key: string, value: string)
    requires Accepted(records) && 0 < |key| <= 128 && |value| <= MAX_VALUE
    ensures Accepted(records + [(key, value)])
    ensures Log(records + [(key, value)]) == Log(records) + Record(key, value)
    decreases |records|
  {
    hide Record;
    var more := records + [(key, value)];
    assert Accepted(more);
    if records != [] {
      assert more[1..] == records[1..] + [(key, value)];
      LogAdd(records[1..], key, value);
    } else {
      assert more[1..] == [];
    }
  }
}
