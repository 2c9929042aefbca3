/**
 The kernel heap on plain values: the heap as a row of chunks, what allocating and freeing
 do to the row, and what every row reached that way looks like.
 */
module HeapSpec {

  /** The header at an address; the magic number tells a free node from a block. */
  datatype Header = NodeHeader(size: int, next: int) | BlockHeader(size: int)

  /** A header at `addr` and the `size` bytes after it, free or handed out. */
  datatype Chunk = Chunk(addr: int, size: int, free: bool)

  /** The chunks and their headers cover [start, end) without gap or overlap. */
  ghost predicate Tiled(cs: seq<Chunk>, start: int, end: int, hdr: int) {
    && |cs| > 0 && cs[0].addr == start
    && (forall i :: 0 <= i < |cs| ==> cs[i].size >= 0)
    && (forall i :: 0 <= i < |cs| - 1 ==> After(cs, i, hdr) == cs[i + 1].addr)
    && After(cs, |cs| - 1, hdr) == end
  }

  /** The address just past chunk `i`. */
  function After(cs: seq<Chunk>, i: int, hdr: int): int
    requires 0 <= i < |cs|
  {
    cs[i].addr + hdr + cs[i].size
  }

  /** No two free chunks are neighbours. */
  ghost predicate Coalesced(cs: seq<Chunk>) {
    forall i :: 0 <= i < |cs| - 1 ==> !(cs[i].free && cs[i + 1].free)
  }

  /** Chunks lie in address order and apart. */
  lemma {:induction false} AddressOrder(cs: seq<Chunk>, start: int, end: int, hdr: int, i: int, j: int)
    requires hdr > 0 && Tiled(cs, start, end, hdr) && 0 <= i < j < |cs|
    ensures After(cs, i, hdr) <= cs[j].addr
    decreases j - i
  {
    if i + 1 < j {
      AddressOrder(cs, start, end, hdr, i + 1, j);
    }
  }

  lemma Addresses(cs: seq<Chunk>, start: int, end: int, hdr: int)
    requires hdr > 0 && Tiled(cs, start, end, hdr)
    ensures forall i :: 0 <= i < |cs| ==> start <= cs[i].addr && After(cs, i, hdr) <= end
    ensures forall i, j :: 0 <= i < j < |cs| ==> After(cs, i, hdr) <= cs[j].addr
  {
    forall i, j | 0 <= i < j < |cs|
      ensures After(cs, i, hdr) <= cs[j].addr
    {
      AddressOrder(cs, start, end, hdr, i, j);
    }
    forall i | 0 <= i < |cs|
      ensures start <= cs[i].addr && After(cs, i, hdr) <= end
    {
      assert i > 0 ==> After(cs, 0, hdr) <= cs[i].addr;
      assert i < |cs| - 1 ==> After(cs, i, hdr) <= cs[|cs| - 1].addr;
    }
  }

  /** The first free chunk from `i` on, or the length of the row. */
  function NextFree(cs: seq<Chunk>, i: nat): (r: nat)
    requires i <= |cs|
    ensures i <= r <= |cs|
    ensures r < |cs| ==> cs[r].free
    ensures forall k :: i <= k < r ==> !cs[k].free
    decreases |cs| - i
  {
    if i == |cs| || cs[i].free then i else NextFree(cs, i + 1)
  }

  /** The free list is not empty. */
  predicate SomeFree(cs: seq<Chunk>) {
    NextFree(cs, 0) < |cs|
  }

  ghost predicate Row(cs: seq<Chunk>, start: int, end: int, hdr: int) {
    hdr > 0 && Tiled(cs, start, end, hdr) && Coalesced(cs) && SomeFree(cs)
  }

  /** The last free chunk before `i`, or -1. */
  function LastFree(cs: seq<Chunk>, i: nat): (r: int)
    requires i <= |cs|
    ensures -1 <= r < i
    ensures r >= 0 ==> cs[r].free
    ensures forall k :: r < k < i ==> !cs[k].free
  {
    if i == 0 then -1 else if cs[i - 1].free then i - 1 else LastFree(cs, i - 1)
  }

  /** The address of chunk `i`; 0 stands for none. */
  function AddressAt(cs: seq<Chunk>, i: int): int
    requires i <= |cs|
  {
    if 0 <= i < |cs| then cs[i].addr else 0
  }

  /** The first free chunk from `i` on with room for `size`, or the length of the row. */
  function FirstFit(cs: seq<Chunk>, size: int, i: nat): (r: nat)
    requires i <= |cs|
    ensures i <= r <= |cs|
    ensures r < |cs| ==> cs[r].free && cs[r].size >= size
    ensures forall k :: i <= k < r && cs[k].free ==> cs[k].size < size
    decreases |cs| - i
  {
    if i == |cs| || (cs[i].free && cs[i].size >= size) then i else FirstFit(cs, size, i + 1)
  }

  /** Chunk `i` split into a block of `n` bytes and a free remainder. */
  function Carved(cs: seq<Chunk>, i: nat, n: int, hdr: int): seq<Chunk>
    requires i < |cs|
  {
    var c := cs[i];
    cs[..i] + [Chunk(c.addr, n, false), Chunk(c.addr + hdr + n, c.size - n - hdr, true)] + cs[i + 1..]
  }

  /** The free neighbours of chunk `i`: how many chunks join it on each side, 0 or 1. */
  function JoinLeft(cs: seq<Chunk>, i: nat): nat
    requires i < |cs|
  {
    if i > 0 && cs[i - 1].free then 1 else 0
  }

  function JoinRight(cs: seq<Chunk>, i: nat): nat
    requires i < |cs|
  {
    if i + 1 < |cs| && cs[i + 1].free then 1 else 0
  }

  /** Chunk `i` freed and merged with its free neighbours. */
  function Freed(cs: seq<Chunk>, i: nat, hdr: int): seq<Chunk>
    requires i < |cs|
  {
    var lo, hi := i - JoinLeft(cs, i), i + JoinRight(cs, i);
    var size := (if lo < i then cs[lo].size + hdr else 0) + cs[i].size + (if i < hi then hdr + cs[hi].size else 0);
    cs[..lo] + [Chunk(cs[lo].addr, size, true)] + cs[hi + 1..]
  }

  /** Where the chunks of the merged row come from. */
  lemma FreedAt(cs: seq<Chunk>, start: int, end: int, hdr: int, i: nat)
    requires Tiled(cs, start, end, hdr) && i < |cs|
    ensures var r, left, right := Freed(cs, i, hdr), JoinLeft(cs, i), JoinRight(cs, i);
            && |r| == |cs| - left - right
            && (forall k :: 0 <= k < i - left ==> r[k] == cs[k])
            && (forall k :: i - left < k < |r| ==> r[k] == cs[k + left + right])
            && r[i - left].free && r[i - left].addr == cs[i - left].addr
            && After(r, i - left, hdr) == After(cs, i + right, hdr)
            && (hdr >= 0 ==> r[i - left].size >= 0)
  {
    var lo, hi := i - JoinLeft(cs, i), i + JoinRight(cs, i);
    assert i > 0 ==> After(cs, i - 1, hdr) == cs[i].addr;
    assert i + 1 < |cs| ==> After(cs, i, hdr) == cs[i + 1].addr;
    assert cs[i].size >= 0 && cs[lo].size >= 0 && cs[hi].size >= 0;
    hide Tiled;
    JoinedAt(cs, lo, hi, Freed(cs, i, hdr)[lo]);
  }

  /** A stretch of chunks replaced by one. */
  lemma JoinedAt(cs: seq<Chunk>, lo: nat, hi: nat, c: Chunk)
    requires lo <= hi < |cs|
    ensures var r := cs[..lo] + [c] + cs[hi + 1..];
            && |r| == |cs| - (hi - lo) && r[lo] == c && (forall k :: 0 <= k < lo ==> r[k] == cs[k])
            && (forall k :: lo < k < |r| ==> r[k] == cs[k + (hi - lo)])
  {
  }

  lemma CarvedKeepsRow(cs: seq<Chunk>, start: int, end: int, hdr: int, i: nat, n: int)
    requires Row(cs, start, end, hdr) && i < |cs| && cs[i].free && n >= 0 && cs[i].size >= n + hdr
    ensures Row(Carved(cs, i, n, hdr), start, end, hdr)
  {
    var r := Carved(cs, i, n, hdr);
    assert r[i + 1].free;
    forall k | 0 <= k < |r|
      ensures r[k].size >= 0 && (if k + 1 < |r| then After(r, k, hdr) == r[k + 1].addr else After(r, k, hdr) == end)
      ensures k + 1 < |r| ==> !(r[k].free && r[k + 1].free)
    {
      assert k < i ==> r[k] == cs[k] && After(cs, k, hdr) == cs[k + 1].addr;
      assert k > i + 1 ==> r[k] == cs[k - 1] && After(cs, k - 1, hdr) == After(r, k, hdr);
      assert k + 1 < |r| && k > i ==> r[k + 1] == cs[k];
      assert k == i + 1 ==> After(r, k, hdr) == After(cs, i, hdr);
    }
  }

  lemma FreedKeepsRow(cs: seq<Chunk>, start: int, end: int, hdr: int, i: nat)
    requires Row(cs, start, end, hdr) && i < |cs| && !cs[i].free
    ensures Row(Freed(cs, i, hdr), start, end, hdr)
  {
    FreedAt(cs, start, end, hdr, i);
    var r, left, right := Freed(cs, i, hdr), JoinLeft(cs, i), JoinRight(cs, i);
    hide Freed;
    assert r[i - left].free;
    forall k | 0 <= k < |r|
      ensures r[k].size >= 0 && (if k + 1 < |r| then After(r, k, hdr) == r[k + 1].addr else After(r, k, hdr) == end)
      ensures k + 1 < |r| ==> !(r[k].free && r[k + 1].free)
    {
      var o := if k < i - left then k else k + left + right;
      assert After(r, k, hdr) == After(cs, o, hdr);
      assert k + 1 < |r| ==> r[k + 1].addr == cs[o + 1].addr;
    }
  }

  /** Where the chunks of the carved row come from. */
  lemma CarvedAt(cs: seq<Chunk>, i: nat, n: int, hdr: int)
    requires i < |cs|
    ensures var r := Carved(cs, i, n, hdr);
            && |r| == |cs| + 1 && r[i] == Chunk(cs[i].addr, n, false)
            && r[i + 1] == Chunk(cs[i].addr + hdr + n, cs[i].size - n - hdr, true)
            && (forall k :: 0 <= k < i ==> r[k] == cs[k])
            && (forall k :: i + 1 < k < |r| ==> r[k] == cs[k - 1])
  {
  }

  lemma Reassembled(cs: seq<Chunk>, r: seq<Chunk>, i: nat)
    requires i < |cs| && |r| == |cs| + 1 && (forall k :: 0 <= k < i ==> r[k] == cs[k])
    requires forall k :: i + 1 < k < |r| ==> r[k] == cs[k - 1]
    ensures r[..i] + [cs[i]] + r[i + 2..] == cs
  {
  }

  /** Freeing the block just carved restores the row: nothing about it is lost. */
  lemma CarveThenFree(cs: seq<Chunk>, start: int, end: int, hdr: int, i: nat, n: int)
    requires Row(cs, start, end, hdr) && i < |cs| && cs[i].free && n >= 0 && cs[i].size >= n + hdr
    ensures i < |Carved(cs, i, n, hdr)| && Freed(Carved(cs, i, n, hdr), i, hdr) == cs
  {
    var r := Carved(cs, i, n, hdr);
    CarvedAt(cs, i, n, hdr);
    hide Carved, Tiled;
    assert JoinLeft(r, i) == 0 && JoinRight(r, i) == 1;
    assert Freed(r, i, hdr) == r[..i] + [cs[i]] + r[i + 2..];
    hide Row, Coalesced, Freed, JoinLeft, JoinRight;
    Reassembled(cs, r, i);
  }

  /** The row of a heap just initialised. */
  function Fresh(start: int, end: int, hdr: int): seq<Chunk> {
    [Chunk(start, end - start - hdr, true)]
  }

  ghost function Live(cs: seq<Chunk>): set<int> {
    set i | 0 <= i < |cs| && !cs[i].free :: cs[i].addr
  }

  lemma InLive(cs: seq<Chunk>, i: nat)
    requires i < |cs|
    ensures !cs[i].free ==> cs[i].addr in Live(cs)
  {
  }

  /** Maximal coalescing: with nothing handed out the row is the initial one. */
  lemma NothingLive(cs: seq<Chunk>, start: int, end: int, hdr: int)
    requires Row(cs, start, end, hdr) && Live(cs) == {}
    ensures cs == Fresh(start, end, hdr)
  {
    forall i | 0 <= i < |cs|
      ensures cs[i].free
    {
      InLive(cs, i);
    }
    assert |cs| == 1 && After(cs, 0, hdr) == end;
  }

  lemma SameAddress(cs: seq<Chunk>, start: int, end: int, hdr: int, i: nat, j: nat)
    requires hdr > 0 && Tiled(cs, start, end, hdr) && i < |cs| && j < |cs| && cs[i].addr == cs[j].addr
    ensures i == j
  {
    if i < j {
      AddressOrder(cs, start, end, hdr, i, j);
    } else if j < i {
      AddressOrder(cs, start, end, hdr, j, i);
    }
  }

  /** Freeing takes exactly one block off the live ones. */
  lemma FreedLive(cs: seq<Chunk>, start: int, end: int, hdr: int, i: nat)
    requires Row(cs, start, end, hdr) && i < |cs| && !cs[i].free
    ensures Live(Freed(cs, i, hdr)) == Live(cs) - {cs[i].addr}
  {
    FreedAt(cs, start, end, hdr, i);
    var r, left, right := Freed(cs, i, hdr), JoinLeft(cs, i), JoinRight(cs, i);
    hide Freed, Coalesced;
    forall a | a in Live(cs) - {cs[i].addr}
      ensures a in Live(r)
    {
      var k :| 0 <= k < |cs| && !cs[k].free && cs[k].addr == a;
      assert r[if k < i - left then k else k - left - right] == cs[k];
    }
    forall a | a in Live(r)
      ensures a in Live(cs) - {cs[i].addr}
    {
      var k :| 0 <= k < |r| && !r[k].free && r[k].addr == a;
      var o := if k < i - left then k else k + left + right;
      assert r[k] == cs[o] && o != i;
      if cs[o].addr == cs[i].addr {
        SameAddress(cs, start, end, hdr, o, i);
      }
    }
  }

  /** Allocating adds exactly one. */
  lemma CarvedLive(cs: seq<Chunk>, start: int, end: int, hdr: int, i: nat, n: int)
    requires Row(cs, start, end, hdr) && i < |cs| && cs[i].free && n >= 0 && cs[i].size >= n + hdr
    ensures Live(Carved(cs, i, n, hdr)) == Live(cs) + {cs[i].addr} && cs[i].addr !in Live(cs)
  {
    hide Carved, Coalesced;
    CarvedAt(cs, i, n, hdr);
    var r := Carved(cs, i, n, hdr);
    forall a | a in Live(cs)
      ensures a in Live(r) && a != cs[i].addr
    {
      var k :| 0 <= k < |cs| && !cs[k].free && cs[k].addr == a;
      assert r[if k < i then k else k + 1] == cs[k];
      if cs[k].addr == cs[i].addr {
        SameAddress(cs, start, end, hdr, k, i);
      }
    }
    forall a | a in Live(r)
      ensures a in Live(cs) || a == cs[i].addr
    {
      var k :| 0 <= k < |r| && !r[k].free && r[k].addr == a;
      assert k != i ==> r[k] == cs[if k < i then k else k - 1];
    }
    assert r[i].addr in Live(r);
  }

  // ---- What callers hold: blocks with their sizes

  /** Where each block begins and how many bytes it has. */
  ghost function Blocks(cs: seq<Chunk>, hdr: int): set<(int, int)> {
    set i | 0 <= i < |cs| && !cs[i].free :: (cs[i].addr + hdr, cs[i].size)
  }

  /** The bytes of two blocks do not overlap, nor do they leave the heap. */
  ghost predicate NoOverlap(a: (int, int), b: (int, int)) {
    a.0 + a.1 <= b.0 || b.0 + b.1 <= a.0
  }

  lemma BlocksApart(cs: seq<Chunk>, start: int, end: int, hdr: int, a: (int, int), b: (int, int))
    requires Row(cs, start, end, hdr) && a in Blocks(cs, hdr) && b in Blocks(cs, hdr)
    ensures start < a.0 && a.1 >= 0 && a.0 + a.1 <= end && (a == b || (a.0 != b.0 && NoOverlap(a, b)))
  {
    hide Tiled, Coalesced, SomeFree;
    var i :| 0 <= i < |cs| && !cs[i].free && (cs[i].addr + hdr, cs[i].size) == a;
    var j :| 0 <= j < |cs| && !cs[j].free && (cs[j].addr + hdr, cs[j].size) == b;
    Addresses(cs, start, end, hdr);
    Sizes(cs, start, end, hdr);
    hide Blocks;
    if i < j {
      assert After(cs, i, hdr) <= cs[j].addr;
    } else if j < i {
      assert After(cs, j, hdr) <= cs[i].addr;
    }
  }

  /** A new block has the bytes asked for, and the others are what they were. */
  lemma CarvedBlocks(cs: seq<Chunk>, start: int, end: int, hdr: int, i: nat, n: int)
    requires Row(cs, start, end, hdr) && i < |cs| && cs[i].free && n >= 0 && cs[i].size >= n + hdr
    ensures Blocks(Carved(cs, i, n, hdr), hdr) == Blocks(cs, hdr) + {(cs[i].addr + hdr, n)}
  {
    hide Carved, Coalesced, Tiled;
    CarvedAt(cs, i, n, hdr);
    var r := Carved(cs, i, n, hdr);
    forall b | b in Blocks(cs, hdr)
      ensures b in Blocks(r, hdr)
    {
      var k :| 0 <= k < |cs| && !cs[k].free && (cs[k].addr + hdr, cs[k].size) == b;
      assert r[if k < i then k else k + 1] == cs[k];
    }
    forall b | b in Blocks(r, hdr)
      ensures b in Blocks(cs, hdr) || b == (cs[i].addr + hdr, n)
    {
      var k :| 0 <= k < |r| && !r[k].free && (r[k].addr + hdr, r[k].size) == b;
      assert k != i ==> r[k] == cs[if k < i then k else k - 1];
    }
    assert (r[i].addr + hdr, r[i].size) in Blocks(r, hdr);
  }

  /** Freeing a block takes it away and leaves the others. */
  lemma FreedBlocks(cs: seq<Chunk>, start: int, end: int, hdr: int, i: nat)
    requires Row(cs, start, end, hdr) && i < |cs| && !cs[i].free
    ensures Blocks(Freed(cs, i, hdr), hdr) == Blocks(cs, hdr) - {(cs[i].addr + hdr, cs[i].size)}
  {
    hide Freed, Coalesced, Tiled, SomeFree, JoinLeft, JoinRight;
    FreedAt(cs, start, end, hdr, i);
    var r := Freed(cs, i, hdr);
    forall b | b in Blocks(cs, hdr) && b != (cs[i].addr + hdr, cs[i].size)
      ensures b in Blocks(r, hdr)
    {
      var k :| 0 <= k < |cs| && !cs[k].free && (cs[k].addr + hdr, cs[k].size) == b;
      var o := StaysAt(cs, start, end, hdr, i, k);
    }
    forall b | b in Blocks(r, hdr)
      ensures b in Blocks(cs, hdr) && b != (cs[i].addr + hdr, cs[i].size)
    {
      var k :| 0 <= k < |r| && !r[k].free && (r[k].addr + hdr, r[k].size) == b;
      var o := CameFrom(cs, start, end, hdr, i, k);
      if cs[o].addr == cs[i].addr {
        SameAddress(cs, start, end, hdr, o, i);
      }
    }
  }

  /** Blocks other than the freed one keep their chunks. */
  lemma StaysAt(cs: seq<Chunk>, start: int, end: int, hdr: int, i: nat, k: nat) returns (o: nat)
    requires Tiled(cs, start, end, hdr) && i < |cs| && k < |cs| && !cs[k].free && k != i
    ensures o < |Freed(cs, i, hdr)| && Freed(cs, i, hdr)[o] == cs[k]
  {
    hide Freed, Tiled;
    FreedAt(cs, start, end, hdr, i);
    o := if k < i then k else k - JoinLeft(cs, i) - JoinRight(cs, i);
  }

  lemma CameFrom(cs: seq<Chunk>, start: int, end: int, hdr: int, i: nat, k: nat) returns (o: nat)
    requires Tiled(cs, start, end, hdr) && i < |cs| && k < |Freed(cs, i, hdr)| && !Freed(cs, i, hdr)[k].free
    ensures o < |cs| && o != i && Freed(cs, i, hdr)[k] == cs[o]
  {
    hide Freed, Tiled;
    FreedAt(cs, start, end, hdr, i);
    o := if k < i - JoinLeft(cs, i) then k else k + JoinLeft(cs, i) + JoinRight(cs, i);
  }

  lemma FreedOnly(cs: seq<Chunk>, start: int, end: int, hdr: int, i: nat)
    requires Row(cs, start, end, hdr) && i < |cs| && !cs[i].free
    ensures forall b :: b in Blocks(Freed(cs, i, hdr), hdr) <==> b in Blocks(cs, hdr) && b.0 != cs[i].addr + hdr
  {
    hide Freed, Tiled, Coalesced, SomeFree;
    FreedBlocks(cs, start, end, hdr, i);
    forall b | b in Blocks(cs, hdr) && b.0 == cs[i].addr + hdr
      ensures b == (cs[i].addr + hdr, cs[i].size)
    {
      BlocksApart(cs, start, end, hdr, b, (cs[i].addr + hdr, cs[i].size));
    }
  }

  /** The index of the chunk at an address. */
  ghost function IndexOf(cs: seq<Chunk>, addr: int): (i: nat)
    requires addr in Live(cs)
    ensures i < |cs| && !cs[i].free && cs[i].addr == addr
  {
    var i :| 0 <= i < |cs| && !cs[i].free && cs[i].addr == addr;
    i
  }

  /** The row after freeing the blocks at `order`, one after another. */
  ghost function FreedAll(cs: seq<Chunk>, order: seq<int>, hdr: int): seq<Chunk>
    decreases |order|
  {
    if order == [] then cs
    else if order[0] !in Live(cs) then cs
    else FreedAll(Freed(cs, IndexOf(cs, order[0]), hdr), order[1..], hdr)
  }

  /** Freeing every live block, in whatever order, leaves the single initial chunk. */
  lemma {:induction false} FreeingAllRestores(cs: seq<Chunk>, start: int, end: int, hdr: int, order: seq<int>)
    requires Row(cs, start, end, hdr)
    requires forall a :: a in Live(cs) <==> a in order
    requires forall i, j :: 0 <= i < j < |order| ==> order[i] != order[j]
    ensures FreedAll(cs, order, hdr) == Fresh(start, end, hdr)
    decreases |order|
  {
    if order == [] {
      NothingLive(cs, start, end, hdr);
    } else {
      var i := IndexOf(cs, order[0]);
      FreedKeepsRow(cs, start, end, hdr, i);
      FreedLive(cs, start, end, hdr, i);
      FreeingAllRestores(Freed(cs, i, hdr), start, end, hdr, order[1..]);
    }
  }

  // ---- The free list in memory

  /** The header a chunk has: free ones name the next free one. */
  function HeaderOf(cs: seq<Chunk>, i: nat): Header
    requires i < |cs|
  {
    if cs[i].free then NodeHeader(cs[i].size, AddressAt(cs, NextFree(cs, i + 1))) else BlockHeader(cs[i].size)
  }

  ghost predicate Linked(mem: map<int, Header>, cs: seq<Chunk>) {
    forall i :: 0 <= i < |cs| ==> cs[i].addr in mem && mem[cs[i].addr] == HeaderOf(cs, i)
  }

  lemma NodeAt(mem: map<int, Header>, cs: seq<Chunk>, i: nat)
    requires i < |cs| && cs[i].free && cs[i].addr in mem && mem[cs[i].addr] == HeaderOf(cs, i)
    ensures mem[cs[i].addr] == NodeHeader(cs[i].size, AddressAt(cs, NextFree(cs, i + 1)))
    ensures LastFree(cs, NextFree(cs, i + 1)) == i
  {
  }

  /** Passing over a chunk that is too small. */
  lemma FirstFitSkips(cs: seq<Chunk>, size: int, i: nat)
    requires i <= |cs|
    ensures FirstFit(cs, size, i) == FirstFit(cs, size, NextFree(cs, i))
    decreases |cs| - i
  {
    if i < |cs| && !cs[i].free {
      FirstFitSkips(cs, size, i + 1);
    }
  }

  /** The memory after chunk `i` is split, unlinked and marked as a block. */
  function CarvedMemory(mem: map<int, Header>, cs: seq<Chunk>, i: nat, n: int, hdr: int): map<int, Header>
    requires i < |cs| && cs[i].free
  {
    var rest := cs[i].addr + hdr + n;
    var last := LastFree(cs, i);
    var m := mem[rest := NodeHeader(cs[i].size - n - hdr, AddressAt(cs, NextFree(cs, i + 1)))];
    (if last >= 0 then m[cs[last].addr := NodeHeader(cs[last].size, rest)] else m)[cs[i].addr := BlockHeader(n)]
  }

  lemma CarvedNextFree(cs: seq<Chunk>, i: nat, n: int, hdr: int, k: nat)
    requires i < |cs| && cs[i].free && k <= |cs| + 1
    ensures NextFree(Carved(cs, i, n, hdr), k) ==
            if k > i + 1 then NextFree(cs, k - 1) + 1 else if k <= LastFree(cs, i) then NextFree(cs, k) else i + 1
    ensures k <= LastFree(cs, i) ==> NextFree(cs, k) < i
  {
    var r := Carved(cs, i, n, hdr);
    var m := if k > i + 1 then NextFree(cs, k - 1) + 1 else if k <= LastFree(cs, i) then NextFree(cs, k) else i + 1;
    assert forall l :: 0 <= l < i ==> r[l] == cs[l];
    assert forall l :: i + 1 < l < |r| ==> r[l] == cs[l - 1];
    NextFreeIs(r, k, m);
  }

  lemma {:induction false} NextFreeIs(cs: seq<Chunk>, i: nat, r: nat)
    requires i <= r <= |cs| && (r < |cs| ==> cs[r].free)
    requires forall k :: i <= k < r ==> !cs[k].free
    ensures NextFree(cs, i) == r
  {
  }

  /** The headers after carving: only the last free chunk before it is redirected. */
  lemma CarvedHeader(cs: seq<Chunk>, i: nat, n: int, hdr: int, k: nat)
    requires i < |cs| && cs[i].free && k <= |cs|
    ensures var r, rest := Carved(cs, i, n, hdr), cs[i].addr + hdr + n;
            && |r| == |cs| + 1
            && (k == i ==> r[k].addr == cs[i].addr && HeaderOf(r, k) == BlockHeader(n))
            && (k == i + 1 ==> r[k].addr == rest)
            && (k == i + 1 ==> HeaderOf(r, k) == NodeHeader(cs[i].size - n - hdr, AddressAt(cs, NextFree(cs, i + 1))))
            && (k < i || k > i + 1 ==>
                var o := if k < i then k else k - 1;
                && r[k] == cs[o]
                && HeaderOf(r, k) == if o == LastFree(cs, i) then NodeHeader(cs[o].size, rest) else HeaderOf(cs, o))
  {
    var r := Carved(cs, i, n, hdr);
    CarvedNextFree(cs, i, n, hdr, k + 1);
    CarvedAt(cs, i, n, hdr);
    hide NextFree, LastFree, Carved;
    var m := NextFree(r, k + 1);
    if m < |r| && m < i {
      assert r[m] == cs[m];
    } else if m < |r| && m > i + 1 {
      assert r[m] == cs[m - 1];
    }
  }

  lemma CarvedLinks(mem: map<int, Header>, cs: seq<Chunk>, start: int, end: int, hdr: int, i: nat, n: int)
    requires Row(cs, start, end, hdr) && Linked(mem, cs)
    requires i < |cs| && cs[i].free && n >= 0 && cs[i].size >= n + hdr
    ensures Linked(CarvedMemory(mem, cs, i, n, hdr), Carved(cs, i, n, hdr))
  {
    hide CarvedMemory, HeaderOf, Carved, Row;
    CarvedAt(cs, i, n, hdr);
    forall k | 0 <= k < |Carved(cs, i, n, hdr)|
      ensures Carved(cs, i, n, hdr)[k].addr in CarvedMemory(mem, cs, i, n, hdr)
      ensures CarvedMemory(mem, cs, i, n, hdr)[Carved(cs, i, n, hdr)[k].addr] == HeaderOf(Carved(cs, i, n, hdr), k)
    {
      CarvedLinkAt(mem, cs, start, end, hdr, i, n, k);
    }
  }

  lemma CarvedLinkAt(mem: map<int, Header>, cs: seq<Chunk>, start: int, end: int, hdr: int, i: nat, n: int, k: nat)
    requires Row(cs, start, end, hdr) && Linked(mem, cs) && k <= |cs|
    requires i < |cs| && cs[i].free && n >= 0 && cs[i].size >= n + hdr
    ensures var r, m := Carved(cs, i, n, hdr), CarvedMemory(mem, cs, i, n, hdr);
            |r| == |cs| + 1 && r[k].addr in m && m[r[k].addr] == HeaderOf(r, k)
  {
    hide CarvedMemory, HeaderOf, Carved, NextFree, LastFree, Tiled, Coalesced, SomeFree;
    Addresses(cs, start, end, hdr);
    Sizes(cs, start, end, hdr);
    CarvedAt(cs, i, n, hdr);
    CarvedHeader(cs, i, n, hdr, k);
    if k == i || k == i + 1 {
      CarvedLookupNew(mem, cs, i, n, hdr);
    } else {
      CarvedLookup(mem, cs, i, n, hdr, if k < i then k else k - 1);
    }
  }

  lemma CarvedLookupNew(mem: map<int, Header>, cs: seq<Chunk>, i: nat, n: int, hdr: int)
    requires i < |cs| && cs[i].free && hdr > 0 && n >= 0
    requires forall k :: 0 <= k < |cs| ==> cs[k].size >= 0
    requires forall k, l :: 0 <= k < l < |cs| ==> After(cs, k, hdr) <= cs[l].addr
    ensures var m, rest := CarvedMemory(mem, cs, i, n, hdr), cs[i].addr + hdr + n;
            && cs[i].addr in m && m[cs[i].addr] == BlockHeader(n)
            && rest in m && m[rest] == NodeHeader(cs[i].size - n - hdr, AddressAt(cs, NextFree(cs, i + 1)))
  {
    var last := LastFree(cs, i);
    hide LastFree, NextFree;
    assert last >= 0 ==> After(cs, last, hdr) <= cs[i].addr;
  }

  lemma CarvedLookup(mem: map<int, Header>, cs: seq<Chunk>, i: nat, n: int, hdr: int, o: nat)
    requires i < |cs| && cs[i].free && o < |cs| && o != i && cs[o].addr in mem && hdr > 0 && n >= 0
    requires cs[i].size >= n + hdr
    requires forall k :: 0 <= k < |cs| ==> cs[k].size >= 0
    requires forall k, l :: 0 <= k < l < |cs| ==> After(cs, k, hdr) <= cs[l].addr
    ensures cs[o].addr in CarvedMemory(mem, cs, i, n, hdr)
    ensures CarvedMemory(mem, cs, i, n, hdr)[cs[o].addr] ==
            if o == LastFree(cs, i) then NodeHeader(cs[o].size, cs[i].addr + hdr + n) else mem[cs[o].addr]
  {
    var last := LastFree(cs, i);
    hide LastFree, NextFree;
    Apart(cs, hdr, o, i);
    if last >= 0 && o != last {
      Apart(cs, hdr, o, last);
    }
  }

  lemma Apart(cs: seq<Chunk>, hdr: int, o: nat, i: nat)
    requires i < |cs| && o < |cs| && hdr > 0
    requires forall k :: 0 <= k < |cs| ==> cs[k].size >= 0
    requires forall k, l :: 0 <= k < l < |cs| ==> After(cs, k, hdr) <= cs[l].addr
    ensures o != i ==> cs[o].addr + hdr + cs[o].size <= cs[i].addr || cs[i].addr + hdr + cs[i].size <= cs[o].addr
  {
    assert o < i ==> After(cs, o, hdr) <= cs[i].addr;
    assert i < o ==> After(cs, i, hdr) <= cs[o].addr;
  }

  // ---- Freeing step by step

  /** Chunk `i` marked free, before any merging. */
  function Marked(cs: seq<Chunk>, i: nat): seq<Chunk>
    requires i < |cs|
  {
    cs[i := cs[i].(free := true)]
  }

  /** Chunk `i` joined with the one after it. */
  function MergedAt(cs: seq<Chunk>, i: nat, hdr: int): seq<Chunk>
    requires i + 1 < |cs|
  {
    cs[..i] + [Chunk(cs[i].addr, cs[i].size + cs[i + 1].size + hdr, true)] + cs[i + 2..]
  }

  /** What one attempt to combine does: it joins chunk `i` with a free successor. */
  function Combined(cs: seq<Chunk>, i: nat, hdr: int): seq<Chunk>
    requires i < |cs|
  {
    if i + 1 < |cs| && cs[i + 1].free then MergedAt(cs, i, hdr) else cs
  }

  lemma MarkedKeepsTiles(cs: seq<Chunk>, start: int, end: int, hdr: int, i: nat)
    requires Tiled(cs, start, end, hdr) && i < |cs|
    ensures Tiled(Marked(cs, i), start, end, hdr)
  {
    var r := Marked(cs, i);
    forall k | 0 <= k < |r|
      ensures r[k].size >= 0 && (if k + 1 < |r| then After(r, k, hdr) == r[k + 1].addr else After(r, k, hdr) == end)
    {
      assert After(r, k, hdr) == After(cs, k, hdr);
    }
  }

  lemma MergedKeepsTiles(cs: seq<Chunk>, start: int, end: int, hdr: int, i: nat)
    requires hdr >= 0 && Tiled(cs, start, end, hdr) && i + 1 < |cs|
    ensures Tiled(MergedAt(cs, i, hdr), start, end, hdr)
  {
    var r := MergedAt(cs, i, hdr);
    assert |r| == |cs| - 1 && After(cs, i, hdr) == cs[i + 1].addr;
    forall k | 0 <= k < |r|
      ensures r[k].size >= 0 && (if k + 1 < |r| then After(r, k, hdr) == r[k + 1].addr else After(r, k, hdr) == end)
    {
      assert After(r, k, hdr) == After(cs, if k < i then k else k + 1, hdr);
    }
  }

  /** Mark, combine the predecessor, then combine again: that is what `free` does to the row. */
  lemma FreedInSteps(cs: seq<Chunk>, i: nat, hdr: int)
    requires i < |cs| && !cs[i].free
    ensures i > 0 && cs[i - 1].free ==> Combined(Combined(Marked(cs, i), i - 1, hdr), i - 1, hdr) == Freed(cs, i, hdr)
    ensures !(i > 0 && cs[i - 1].free) ==> Combined(Marked(cs, i), i, hdr) == Freed(cs, i, hdr)
  {
    var m := Marked(cs, i);
    if i > 0 && cs[i - 1].free {
      var r := Combined(m, i - 1, hdr);
      assert r == cs[..i - 1] + [Chunk(cs[i - 1].addr, cs[i - 1].size + cs[i].size + hdr, true)] + cs[i + 1..];
    }
  }

  lemma MarkedNextFree(cs: seq<Chunk>, i: nat, k: nat)
    requires i < |cs| && !cs[i].free && k <= |cs|
    ensures NextFree(Marked(cs, i), k) == if LastFree(cs, i) < k <= i then i else NextFree(cs, k)
    ensures NextFree(cs, k) != i && (LastFree(cs, i) >= 0 ==> cs[LastFree(cs, i)].free)
  {
    NextFreeIs(Marked(cs, i), k, if LastFree(cs, i) < k <= i then i else NextFree(cs, k));
  }

  lemma MarkedHeader(cs: seq<Chunk>, i: nat, k: nat)
    requires i < |cs| && !cs[i].free && k < |cs|
    ensures var r := Marked(cs, i);
            HeaderOf(r, k) == if k == i then NodeHeader(cs[i].size, AddressAt(cs, NextFree(cs, i + 1)))
                              else if k == LastFree(cs, i) then NodeHeader(cs[k].size, cs[i].addr)
                              else HeaderOf(cs, k)
  {
    hide NextFree, LastFree;
    MarkedNextFree(cs, i, k + 1);
    assert k < i && cs[k].free ==> k <= LastFree(cs, i);
    assert AddressAt(Marked(cs, i), NextFree(cs, k + 1)) == AddressAt(cs, NextFree(cs, k + 1));
  }

  /** Where the chunks of a row with two merged come from. */
  lemma MergedChunks(cs: seq<Chunk>, i: nat, hdr: int)
    requires i + 1 < |cs|
    ensures var r := MergedAt(cs, i, hdr);
            && |r| + 1 == |cs|
            && r[i].addr == cs[i].addr && r[i].size == cs[i].size + cs[i + 1].size + hdr && r[i].free
            && (forall l :: 0 <= l < i ==> r[l] == cs[l])
            && (forall l :: i < l < |r| ==> r[l] == cs[l + 1])
  {
  }

  lemma MergedHeader(cs: seq<Chunk>, i: nat, hdr: int, k: nat)
    requires i + 1 < |cs| && cs[i].free && cs[i + 1].free && k + 1 < |cs|
    ensures var r := MergedAt(cs, i, hdr);
            && |r| + 1 == |cs| && r[k].addr == cs[if k <= i then k else k + 1].addr
            && HeaderOf(r, k) == if k < i then HeaderOf(cs, k)
                                 else if k > i then HeaderOf(cs, k + 1)
                                 else NodeHeader(cs[i].size + cs[i + 1].size + hdr, HeaderOf(cs, i + 1).next)
  {
    hide NextFree, MergedAt;
    var r := MergedAt(cs, i, hdr);
    MergedChunks(cs, i, hdr);
    NextFreeIs(r, k + 1, if k + 1 <= i then NextFree(cs, k + 1) else NextFree(cs, k + 2) - 1);
  }

  /** The memory after chunk `i` is put on the free list behind the last free chunk before it. */
  function MarkedMemory(mem: map<int, Header>, cs: seq<Chunk>, i: nat): map<int, Header>
    requires i < |cs|
  {
    var last := LastFree(cs, i);
    var m := mem[cs[i].addr := NodeHeader(cs[i].size, AddressAt(cs, NextFree(cs, i + 1)))];
    if last >= 0 then m[cs[last].addr := NodeHeader(cs[last].size, cs[i].addr)] else m
  }

  lemma MarkedLookup(mem: map<int, Header>, cs: seq<Chunk>, i: nat, k: nat)
    requires i < |cs| && !cs[i].free && k < |cs| && cs[k].addr in mem
    requires k != i ==> cs[k].addr != cs[i].addr
    requires LastFree(cs, i) >= 0 && k != LastFree(cs, i) ==> cs[k].addr != cs[LastFree(cs, i)].addr
    ensures var m := MarkedMemory(mem, cs, i);
            && cs[k].addr in m
            && m[cs[k].addr] == if k == i then NodeHeader(cs[i].size, AddressAt(cs, NextFree(cs, i + 1)))
                                else if k == LastFree(cs, i) then NodeHeader(cs[k].size, cs[i].addr)
                                else mem[cs[k].addr]
  {
    assert LastFree(cs, i) != i;
    hide LastFree, NextFree, AddressAt;
  }

  lemma MarkedLinks(mem: map<int, Header>, cs: seq<Chunk>, start: int, end: int, hdr: int, i: nat)
    requires hdr > 0 && Tiled(cs, start, end, hdr) && Linked(mem, cs) && i < |cs| && !cs[i].free
    ensures Linked(MarkedMemory(mem, cs, i), Marked(cs, i))
  {
    Addresses(cs, start, end, hdr);
    var r, last, m := Marked(cs, i), LastFree(cs, i), MarkedMemory(mem, cs, i);
    forall k | 0 <= k < |r|
      ensures r[k].addr in m && m[r[k].addr] == HeaderOf(r, k)
    {
      assert r[k].addr == cs[k].addr;
      MarkedHeader(cs, i, k);
      Apart(cs, hdr, k, i);
      if last >= 0 {
        Apart(cs, hdr, k, last);
      }
      MarkedLookup(mem, cs, i, k);
      hide HeaderOf, NextFree, LastFree, Tiled, MarkedMemory, Marked;
    }
  }

  lemma Sizes(cs: seq<Chunk>, start: int, end: int, hdr: int)
    requires Tiled(cs, start, end, hdr)
    ensures forall k :: 0 <= k < |cs| ==> cs[k].size >= 0
  {
  }

  lemma HeaderKind(cs: seq<Chunk>, i: nat)
    requires i < |cs|
    ensures HeaderOf(cs, i).NodeHeader? == cs[i].free && HeaderOf(cs, i).size == cs[i].size
  {
  }

  lemma MergedLinks(mem: map<int, Header>, cs: seq<Chunk>, start: int, end: int, hdr: int, i: nat)
    requires hdr > 0 && Tiled(cs, start, end, hdr) && Linked(mem, cs)
    requires i + 1 < |cs| && cs[i].free && cs[i + 1].free
    ensures var header := NodeHeader(cs[i].size + cs[i + 1].size + hdr, mem[cs[i + 1].addr].next);
            Linked(mem[cs[i].addr := header], MergedAt(cs, i, hdr))
  {
    hide HeaderOf, NextFree, MergedAt, Tiled;
    Addresses(cs, start, end, hdr);
    Sizes(cs, start, end, hdr);
    var r := MergedAt(cs, i, hdr);
    MergedChunks(cs, i, hdr);
    HeaderKind(cs, i + 1);
    var m' := mem[cs[i].addr := NodeHeader(cs[i].size + cs[i + 1].size + hdr, mem[cs[i + 1].addr].next)];
    forall k | 0 <= k < |r|
      ensures r[k].addr in m' && m'[r[k].addr] == HeaderOf(r, k)
    {
      MergedHeader(cs, i, hdr, k);
      Apart(cs, hdr, if k <= i then k else k + 1, i);
    }
  }

  lemma MergedNextFree(cs: seq<Chunk>, i: nat, hdr: int)
    requires i + 1 < |cs| && cs[i].free
    ensures AddressAt(MergedAt(cs, i, hdr), NextFree(MergedAt(cs, i, hdr), 0)) == AddressAt(cs, NextFree(cs, 0))
  {
    var r := MergedAt(cs, i, hdr);
    assert forall l :: 0 <= l < i ==> r[l] == cs[l];
    NextFreeIs(r, 0, NextFree(cs, 0));
  }

  /** A free chunk ends where the next free one begins exactly when they are neighbours. */
  lemma TouchesNextFree(cs: seq<Chunk>, start: int, end: int, hdr: int, i: nat)
    requires hdr > 0 && 0 < start && Tiled(cs, start, end, hdr) && i < |cs|
    ensures After(cs, i, hdr) == AddressAt(cs, NextFree(cs, i + 1)) <==> i + 1 < |cs| && cs[i + 1].free
  {
    Addresses(cs, start, end, hdr);
    var n := NextFree(cs, i + 1);
    if i + 1 < n < |cs| {
      assert After(cs, i, hdr) == cs[i + 1].addr && After(cs, i + 1, hdr) <= cs[n].addr;
    }
  }

  /** A block allocated and given back at once leaves the row as it was. */
  lemma AllocThenFree(cs: seq<Chunk>, start: int, end: int, hdr: int, n: int)
    requires Row(cs, start, end, hdr) && n >= 0 && FirstFit(cs, n + hdr, 0) < |cs|
    ensures var i := FirstFit(cs, n + hdr, 0);
            var r := Carved(cs, i, n, hdr);
            cs[i].addr in Live(r) && Freed(r, IndexOf(r, cs[i].addr), hdr) == cs
  {
    var i := FirstFit(cs, n + hdr, 0);
    CarvedLive(cs, start, end, hdr, i, n);
    CarvedKeepsRow(cs, start, end, hdr, i, n);
    CarveThenFree(cs, start, end, hdr, i, n);
    SameAddress(Carved(cs, i, n, hdr), start, end, hdr, IndexOf(Carved(cs, i, n, hdr), cs[i].addr), i);
  }
}
