/**
 The line discipline of a terminal: characters typed into a ring, lines read out of it.
 */
module Tty {

  const SIZE: nat := 1024
  const BACKSPACE: char := 8 as char

  // ---- What typing means

  /** The lines finished so far, each with its newline, and what has been typed since. */
  datatype Edit = Edit(lines: seq<string>, current: string)

  /** One key: finish the line, take back a character of it, or add one. */
  function Key(e: Edit, ch: char): Edit {
    if ch == '\n' then Edit(e.lines + [e.current + "\n"], "")
    else if ch == BACKSPACE then Edit(e.lines, Shorter(e.current))
    else Edit(e.lines, e.current + [ch])
  }

  function Shorter(s: string): string {
    if s == "" then "" else s[..|s| - 1]
  }

  function Typed(keys: string): Edit {
    if keys == "" then Edit([], "") else Key(Typed(keys[..|keys| - 1]), keys[|keys| - 1])
  }

  /** A character that stays in a line. */
  predicate Plain(ch: char) {
    ch != '\n' && ch != BACKSPACE
  }

  predicate AllPlain(s: string) {
    forall i :: 0 <= i < |s| ==> Plain(s[i])
  }

  /** A finished line: plain characters and a newline. */
  predicate Line(s: string) {
    |s| > 0 && s[|s| - 1] == '\n' && AllPlain(s[..|s| - 1])
  }

  ghost predicate Proper(e: Edit) {
    AllPlain(e.current) && forall i :: 0 <= i < |e.lines| ==> Line(e.lines[i])
  }

  lemma KeyProper(e: Edit, ch: char)
    requires Proper(e)
    ensures Proper(Key(e, ch)) && e.lines <= Key(e, ch).lines
  {
    assert ch == '\n' ==> (e.current + "\n")[..|e.current|] == e.current;
  }

  /** What comes out of typing; and finished lines are never changed again, by backspace or anything else. */
  lemma {:induction false} TypedProper(keys: string, more: string)
    ensures Proper(Typed(keys + more)) && Typed(keys).lines <= Typed(keys + more).lines
    ensures '\n' in more ==> |Typed(keys).lines| < |Typed(keys + more).lines|
    decreases |keys| + |more|
  {
    var all := keys + more;
    if all != "" {
      var n := |all| - 1;
      if more == "" {
        assert all == keys;
        assert keys[..n] + "" == all[..n];
        TypedProper(keys[..n], "");
      } else {
        assert all[..n] == keys + more[..|more| - 1];
        TypedProper(keys, more[..|more| - 1]);
      }
      KeyProper(Typed(all[..n]), all[n]);
    }
  }

  // ---- What the ring makes of it

  /**
   The ring as its reader takes it apart: at every NUL, which is put there after each newline
   but is also a key of its own. Backspace does not get past one either.
   */
  datatype Split = Split(pieces: seq<string>, current: string)

  function Feed(s: Split, ch: char): Split {
    if ch == '\n' then Split(s.pieces + [s.current + "\n"], "")
    else if ch == '\0' then Split(s.pieces + [s.current], "")
    else if ch == BACKSPACE then Split(s.pieces, Shorter(s.current))
    else Split(s.pieces, s.current + [ch])
  }

  function Fed(keys: string): Split {
    if keys == "" then Split([], "") else Feed(Fed(keys[..|keys| - 1]), keys[|keys| - 1])
  }

  lemma FedKey(keys: string, ch: char)
    ensures Fed(keys + [ch]) == Feed(Fed(keys), ch) && Typed(keys + [ch]) == Key(Typed(keys), ch)
  {
    assert (keys + [ch])[..|keys|] == keys;
  }

  predicate NoNul(s: string) {
    '\0' !in s
  }

  /** No piece holds a terminator. */
  ghost predicate Sound(s: Split) {
    NoNul(s.current) && forall i :: 0 <= i < |s.pieces| ==> NoNul(s.pieces[i])
  }

  lemma FeedSound(s: Split, ch: char)
    requires Sound(s)
    ensures Sound(Feed(s, ch)) && s.pieces <= Feed(s, ch).pieces
  {
  }

  lemma {:induction false} FedSound(keys: string, more: string)
    ensures Sound(Fed(keys + more)) && Fed(keys).pieces <= Fed(keys + more).pieces
    ensures |Typed(keys + more).lines| <= |Fed(keys + more).pieces|
    decreases |keys| + |more|
  {
    var all := keys + more;
    if all != "" {
      var n := |all| - 1;
      if more == "" {
        assert all == keys;
        assert keys[..n] + "" == all[..n];
        FedSound(keys[..n], "");
      } else {
        assert all[..n] == keys + more[..|more| - 1];
        FedSound(keys, more[..|more| - 1]);
      }
      FeedSound(Fed(all[..n]), all[n]);
    }
  }

  /** The pieces handed out for the Returns typed so far are the lines. */
  ghost predicate Faithful(keys: string) {
    |Typed(keys).lines| <= |Fed(keys).pieces| && Fed(keys).pieces[..|Typed(keys).lines|] == Typed(keys).lines
  }

  /** A NUL was typed, and a Return after it. */
  predicate NulThenReturn(keys: string) {
    exists i, j :: 0 <= i < j < |keys| && keys[i] == '\0' && keys[j] == '\n'
  }

  /** Readers get the lines exactly as long as no NUL is followed by a Return. */
  lemma FaithfulIff(keys: string)
    ensures Faithful(keys) <==> !NulThenReturn(keys)
  {
    if NulThenReturn(keys) {
      SplitLine(keys);
    } else {
      WholeLines(keys);
    }
  }

  lemma {:induction false} WholeLines(keys: string)
    requires !NulThenReturn(keys)
    ensures Faithful(keys)
    ensures NoNul(keys) ==> Fed(keys) == Split(Typed(keys).lines, Typed(keys).current)
  {
    if keys != "" {
      var n := |keys| - 1;
      assert keys == keys[..n] + [keys[n]];
      WholeLines(keys[..n]);
      if keys[n] == '\n' {
        assert NoNul(keys[..n]);
      }
    }
  }

  /** The first NUL cuts off a piece with no newline; by the Return after it that piece is handed out as a line. */
  lemma SplitLine(keys: string)
    requires NulThenReturn(keys)
    ensures !Faithful(keys)
  {
    hide Typed, Fed;
    var i, j :| 0 <= i < j < |keys| && keys[i] == '\0' && keys[j] == '\n';
    var first := FirstNul(keys, i);
    var start, rest := keys[..first], keys[first + 1..];
    WholeLines(start);
    FedKey(start, '\0');
    assert start + ['\0'] + rest == keys;
    FedSound(start + ['\0'], rest);
    TypedProper(start + ['\0'], rest);
    assert rest[j - first - 1] == '\n';
    var p := |Typed(start).lines|;
    TypedProper(start, "");
    assert start + "" == start;
    assert Fed(keys).pieces[p] == Typed(start).current;
    assert Line(Typed(keys).lines[p]);
  }

  lemma FirstNul(keys: string, i: nat) returns (first: nat)
    requires i < |keys| && keys[i] == '\0'
    ensures first <= i && keys[first] == '\0' && NoNul(keys[..first])
  {
    first := 0;
    while keys[first] != '\0'
      invariant first <= i && NoNul(keys[..first])
      decreases i - first
    {
      first := first + 1;
    }
  }

  lemma FedNone()
    ensures Typed("") == Edit([], "") && Fed("") == Split([], "")
  {
  }

  lemma {:induction false} FedMore(keys: string, s: string)
    requires AllPlain(s) && NoNul(s)
    ensures Typed(keys + s) == Edit(Typed(keys).lines, Typed(keys).current + s)
    ensures Fed(keys + s) == Split(Fed(keys).pieces, Fed(keys).current + s)
  {
    hide Typed, Fed;
    if s == "" {
      assert keys + s == keys;
      assert Typed(keys).current + s == Typed(keys).current && Fed(keys).current + s == Fed(keys).current;
    } else {
      var n := |s| - 1;
      FedMore(keys, s[..n]);
      FedKey(keys + s[..n], s[n]);
      assert keys + s[..n] + [s[n]] == keys + s;
      assert s[..n] + [s[n]] == s;
    }
  }

  /** Backspace takes back the key before it, and does nothing at the beginning of a line. */
  lemma TakenBack(keys: string, ch: char)
    requires Plain(ch)
    ensures Typed(keys + [ch, BACKSPACE]) == Typed(keys)
    ensures ch != '\0' ==> Fed(keys + [ch, BACKSPACE]) == Fed(keys)
    ensures Typed(keys).current == "" ==> Typed(keys + [BACKSPACE]) == Typed(keys)
    ensures Fed(keys).current == "" ==> Fed(keys + [BACKSPACE]) == Fed(keys)
  {
    hide Typed, Fed;
    FedKey(keys, ch);
    FedKey(keys + [ch], BACKSPACE);
    FedKey(keys, BACKSPACE);
    assert keys + [ch] + [BACKSPACE] == keys + [ch, BACKSPACE];
    assert (Typed(keys).current + [ch])[..|Typed(keys).current|] == Typed(keys).current;
    assert (Fed(keys).current + [ch])[..|Fed(keys).current|] == Fed(keys).current;
  }

  /** A line with a NUL in it is handed out in two pieces, for one Return. */
  lemma ShiftReturn(s: string, t: string)
    requires AllPlain(s) && NoNul(s) && AllPlain(t) && NoNul(t)
    ensures var keys := s + ['\0'] + t + ['\n'];
            Typed(keys).lines == [s + ['\0'] + t + "\n"] && Fed(keys).pieces == [s, t + "\n"]
  {
    hide Typed, Fed;
    FedNone();
    FedMore("", s);
    assert "" + s == s;
    FedKey(s, '\0');
    FedMore(s + ['\0'], t);
    FedKey(s + ['\0'] + t, '\n');
    assert "" + t == t;
  }

  /** It is not enough that no finished line has a NUL in it: backspace, which should remove it, stops there. */
  lemma NulStays(s: string)
    requires AllPlain(s) && NoNul(s)
    ensures var keys := s + ['\0'] + [BACKSPACE] + ['\n'];
            Typed(keys).lines == [s + "\n"] && Fed(keys).pieces == [s, "\n"]
  {
    hide Typed, Fed;
    FedNone();
    FedMore("", s);
    assert "" + s == s;
    FedKey(s, '\0');
    FedKey(s + ['\0'], BACKSPACE);
    FedKey(s + ['\0'] + [BACKSPACE], '\n');
    assert (s + ['\0'])[..|s|] == s;
    assert "" + "\n" == "\n";
  }

  // ---- The ring

  /** Pieces laid out one after another, each with a terminator. */
  function Flat(pieces: seq<string>): string {
    if pieces == [] then "" else pieces[0] + "\0" + Flat(pieces[1..])
  }

  lemma {:induction false} FlatAdd(pieces: seq<string>, piece: string)
    ensures Flat(pieces + [piece]) == Flat(pieces) + piece + "\0"
  {
    if pieces != [] {
      assert (pieces + [piece])[1..] == pieces[1..] + [piece];
      FlatAdd(pieces[1..], piece);
    } else {
      assert ([piece])[1..] == [];
    }
  }

  lemma FlatLonger(pieces: seq<string>, current: string, ch: char)
    ensures Flat(pieces) + current + [ch] == Flat(pieces) + (current + [ch])
  {
  }

  lemma FlatDone(taken: seq<string>, pieces: seq<string>, current: string)
    ensures Flat(pieces) + current + ['\0'] == Flat(pieces + [current]) + ""
    ensures taken + (pieces + [current]) == taken + pieces + [current]
  {
    FlatAdd(pieces, current);
  }

  lemma FlatFirst(pieces: seq<string>, current: string)
    requires pieces != []
    ensures var rest := Flat(pieces[1..]) + current;
            var content := pieces[0] + "\0" + rest;
            Flat(pieces) + current == content && content[|pieces[0]| + 1..] == rest
  {
    var front, tail := pieces[0] + "\0", Flat(pieces[1..]);
    hide Flat;
    assert Flat(pieces) == front + tail by {
      FlatHead(pieces);
    }
    assert (front + tail) + current == front + (tail + current);
  }

  lemma FlatHead(pieces: seq<string>)
    requires pieces != []
    ensures Flat(pieces) == pieces[0] + "\0" + Flat(pieces[1..])
  {
  }

  lemma TakenFirst(taken: seq<string>, pieces: seq<string>)
    requires pieces != []
    ensures (taken + pieces)[|taken|] == pieces[0] && taken + pieces == taken + [pieces[0]] + pieces[1..]
  {
  }

  /** A place in the ring, up to once around. */
  function Around(i: int): int {
    if i >= SIZE then i - SIZE else i
  }

  /** The ring holds `content` from `front` on, then a terminator; and one comes before it. */
  ghost predicate Holds(cells: seq<char>, front: int, rear: int, content: string) {
    && |cells| == SIZE && 0 <= front < SIZE && |content| < SIZE
    && rear == Around(front + |content|)
    && (forall k :: 0 <= k < |content| ==> cells[Around(front + k)] == content[k])
    && cells[rear] == '\0' && cells[Around(front + SIZE - 1)] == '\0'
  }

  lemma HoldsPut(cells: seq<char>, front: int, rear: int, content: string, ch: char)
    requires Holds(cells, front, rear, content) && |content| + 1 < SIZE
    ensures var next := Around(rear + 1);
            next != front && Holds(cells[rear := ch][next := '\0'], front, next, content + [ch])
  {
  }

  lemma HoldsDrop(cells: seq<char>, front: int, rear: int, content: string)
    requires Holds(cells, front, rear, content) && content != ""
    ensures var last := Around(rear + SIZE - 1);
            cells[last] == content[|content| - 1] && Holds(cells[last := '\0'], front, last, content[..|content| - 1])
  {
  }

  lemma HoldsTake(cells: seq<char>, front: int, rear: int, content: string, n: nat)
    requires Holds(cells, front, rear, content) && 0 < n <= |content| && content[n - 1] == '\0'
    ensures Holds(cells, Around(front + n), rear, content[n..])
  {
    assert cells[Around(front + (n - 1))] == '\0';
  }

  lemma HoldsAt(cells: seq<char>, front: int, rear: int, content: string, k: nat)
    requires Holds(cells, front, rear, content) && k < |content|
    ensures 0 <= front < SIZE && Around(front) == front && 0 <= Around(front + k) < |cells|
    ensures cells[Around(front + k)] == content[k]
    ensures Around(Around(front + k) + 1) == Around(front + (k + 1))
  {
  }

  class Queue {
    const buf: array<char>
    var front: nat
    var rear: nat
    /** The semaphore of finished lines. */
    var cooked: nat
    /** Everything typed, the pieces read so far, those not read yet and what follows them. */
    ghost var keys: string
    ghost var taken: seq<string>
    ghost var pieces: seq<string>
    ghost var current: string

    ghost function Content(): string
      reads this
    {
      Flat(pieces) + current
    }

    ghost predicate Valid()
      reads this, buf
    {
      && Holds(buf[..], front, rear, Content()) && cooked + |taken| == |Typed(keys).lines|
      && Fed(keys) == Split(taken + pieces, current)
    }

    /** `tty_init`, the allocator handing out zeroes. */
    constructor ()
      ensures Valid() && keys == "" && taken == [] && pieces == [] && current == "" && fresh(buf)
    {
      buf := new char[SIZE](_ => '\0');
      front, rear, cooked := 0, 0, 0;
      keys, taken, pieces, current := "", [], [], "";
    }

    /** `tty_enqueue`, while the ring is not full. */
    method Enqueue(ch: char, ghost content: string)
      requires Holds(buf[..], front, rear, content) && |content| + 1 < SIZE
      modifies `rear, buf
      ensures Holds(buf[..], front, rear, content + [ch])
    {
      HoldsPut(buf[..], front, rear, content, ch);
      ghost var cells := buf[..][rear := ch];
      buf[rear] := ch;
      rear := rear + 1;
      if rear == SIZE {
        rear := 0;
      }
      assert rear != front;
      assert buf[..] == cells;
      buf[rear] := '\0';
      assert buf[..] == cells[rear := '\0'];
    }

    /** `tty_pop_back`: 1 if there is nothing after the last terminator. */
    method PopBack(ghost before: string, ghost line: string) returns (ret: int)
      requires Holds(buf[..], front, rear, before + line) && NoNul(line)
      requires before == "" || before[|before| - 1] == '\0'
      modifies `rear, buf
      ensures ret == if line == "" then 1 else 0
      ensures Holds(buf[..], front, rear, before + Shorter(line))
    {
      ghost var cells, content := buf[..], before + line;
      var pos := rear;
      if pos == 0 {
        pos := SIZE;
      }
      if content != "" {
        HoldsDrop(cells, front, rear, content);
      }
      if buf[pos - 1] != '\0' {
        rear := pos - 1;
        buf[rear] := '\0';
        assert buf[..] == cells[pos - 1 := '\0'];
        assert content[..|content| - 1] == before + line[..|line| - 1];
        return 0;
      }
      return 1;
    }

    /** What one more key needs of the ring. */
    function Needs(ch: char): nat {
      if ch == '\n' then 2 else if ch == BACKSPACE then 0 else 1
    }

    /** `tty_cook`: one key, whatever it is, while the ring does not fill. */
    method Cook(ch: char) returns (ret: int)
      requires Valid() && |Content()| + Needs(ch) < SIZE
      modifies this, buf
      ensures Valid() && keys == old(keys) + [ch] && taken == old(taken)
      ensures ret == if ch == BACKSPACE && old(current) == "" then 1 else 0
    {
      hide Holds, Flat, Typed, Fed;
      FedKey(keys, ch);
      FedSound(keys, "");
      assert keys + "" == keys;
      ret := 0;
      if ch == '\n' {
        Enqueue(ch, Content());
        Enqueue('\0', Content() + [ch]);
        FlatLonger(pieces, current, ch);
        FlatDone(taken, pieces, current + "\n");
        pieces, current := pieces + [current + "\n"], "";
        cooked := cooked + 1;
      } else if ch == BACKSPACE {
        FlatEnds(pieces);
        ret := PopBack(Flat(pieces), current);
        current := Shorter(current);
      } else {
        Enqueue(ch, Content());
        if ch == '\0' {
          FlatDone(taken, pieces, current);
          pieces, current := pieces + [current], "";
        } else {
          FlatLonger(pieces, current, ch);
          current := current + [ch];
        }
      }
      keys := keys + [ch];
    }

    /**
     `tty_read`, once a Return has been waited for: the next piece, cut to the buffer; its length
     in full. It is the next line unless a NUL came before a Return.
     */
    method Read(out: array<char>, count: nat) returns (nread: nat, ghost piece: string)
      requires Valid() && cooked > 0 && out.Length >= count && out != buf
      modifies this, out
      ensures Valid() && keys == old(keys) && taken == old(taken) + [piece] && cooked == old(cooked) - 1
      ensures |old(taken)| < |Typed(keys).lines| <= |Fed(keys).pieces| && piece == Fed(keys).pieces[|old(taken)|]
      ensures !NulThenReturn(keys) ==> piece == Typed(keys).lines[|old(taken)|]
      ensures nread == |piece| && (forall k :: 0 <= k < count && k < nread ==> out[k] == piece[k])
      ensures forall k :: 0 <= k < out.Length && (k >= count || k >= nread) ==> out[k] == old(out[k])
    {
      hide Holds, Typed, Fed, NulThenReturn, Flat;
      FedSound(keys, "");
      assert keys + "" == keys;
      FaithfulIff(keys);
      cooked := cooked - 1;
      assert |taken| < |Fed(keys).pieces|;
      piece := pieces[0];
      FlatFirst(pieces, current);
      TakenFirst(taken, pieces);
      ghost var rest := Flat(pieces[1..]) + current;
      nread := 0;
      ghost var start, content := front, piece + "\0" + rest;
      HoldsAt(buf[..], start, rear, content, 0);
      while true
        invariant nread <= |piece| && front == Around(start + nread) && buf[..] == old(buf[..])
        invariant Holds(buf[..], start, rear, content) && rear == old(rear) && cooked == old(cooked) - 1
        invariant keys == old(keys) && taken == old(taken) && pieces == old(pieces) && current == old(current)
        invariant forall k :: 0 <= k < count && k < nread ==> out[k] == piece[k]
        invariant forall k :: 0 <= k < out.Length && (k >= count || k >= nread) ==> out[k] == old(out[k])
        decreases |piece| - nread
      {
        assert content[nread] == if nread < |piece| then piece[nread] else '\0';
        HoldsAt(buf[..], start, rear, content, nread);
        var ch := buf[front];
        if nread < count && ch != '\0' {
          out[nread] := ch;
        }
        front := front + 1;
        if front == SIZE {
          front := 0;
        }
        if ch == '\0' {
          break;
        }
        nread := nread + 1;
      }
      HoldsTake(buf[..], start, rear, content, nread + 1);
      taken, pieces := taken + [piece], pieces[1..];
    }
  }

  lemma {:induction false} FlatEnds(pieces: seq<string>)
    ensures Flat(pieces) == "" || Flat(pieces)[|Flat(pieces)| - 1] == '\0'
  {
    if pieces != [] {
      FlatEnds(pieces[1..]);
    }
  }
}
