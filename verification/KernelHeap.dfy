/**
 The kernel heap as it runs: node and block headers in memory at the addresses they
 describe, free nodes linked through their headers from `head`, the list rewritten in place.
 */
module KernelHeap {
  import opened Basics
  import opened HeapSpec

  class Heap {
    const hdr: int
    var pmStart: int
    var pmEnd: int
    var head: int
    var mem: map<int, Header>
    /** The headers and what they govern, in address order. */
    ghost var Chunks: seq<Chunk>

    /** The chunks tile the heap and memory holds exactly their headers, free ones linked in order. */
    ghost predicate Consistent()
      reads this
    {
      && 0 < hdr && 0 < pmStart && pmEnd - pmStart < W32
      && Tiled(Chunks, pmStart, pmEnd, hdr)
      && head == AddressAt(Chunks, NextFree(Chunks, 0))
      && Linked(mem, Chunks)
    }

    ghost predicate Valid()
      reads this
    {
      Consistent() && Coalesced(Chunks) && SomeFree(Chunks)
    }

    constructor (hdr: int, start: int, end: int)
      requires hdr > 0 && 0 < start && hdr <= end - start < W32
      ensures Valid() && this.hdr == hdr && pmStart == start && pmEnd == end
      ensures Chunks == Fresh(start, end, hdr) && head == start
    {
      this.hdr, pmStart, pmEnd, head := hdr, start, end, start;
      mem := map[start := NodeHeader(end - start - hdr, 0)];
      Chunks := Fresh(start, end, hdr);
    }

    /** Leaves the first `firstSize` bytes of a node to it and makes the rest a node of its own. */
    method NodeSplit(nd: int, firstSize: int) returns (ok: bool)
      requires nd in mem && mem[nd].NodeHeader?
      modifies this`mem
      ensures ok <==> old(mem[nd].size) >= firstSize + hdr
      ensures !ok ==> mem == old(mem)
      ensures ok ==> var rest := nd + hdr + firstSize;
                     mem == old(mem)[rest := NodeHeader(old(mem[nd].size) - firstSize - hdr, old(mem[nd].next))]
                                    [nd := NodeHeader(firstSize, rest)]
    {
      if mem[nd].size < firstSize + hdr {
        return false;
      }
      var fullSize, next := mem[nd].size, mem[nd].next;
      var newNode := nd + hdr + firstSize;
      mem := mem[newNode := NodeHeader(fullSize - firstSize - hdr, next)];
      mem := mem[nd := NodeHeader(firstSize, newNode)];
      return true;
    }

    /** Joins a free node with the next one if they touch. */
    method NodeCombine(nd: int, ghost i: nat) returns (r: int)
      requires Consistent() && i < |Chunks| && Chunks[i].free && Chunks[i].addr == nd
      modifies this`mem, this`Chunks
      ensures Consistent() && Chunks == Combined(old(Chunks), i, hdr)
      ensures r == if i + 1 < |old(Chunks)| && old(Chunks)[i + 1].free then nd else 0
    {
      hide Tiled, Linked, NextFree, HeaderOf, MergedAt;
      ghost var cs := Chunks;
      LinkedNode(mem, cs, i);
      TouchesNextFree(cs, pmStart, pmEnd, hdr, i);
      if i + 1 < |cs| && cs[i + 1].free {
        LinkedNode(mem, cs, i + 1);
        NextIsNeighbour(cs, i);
        MergedLinks(mem, cs, pmStart, pmEnd, hdr, i);
        MergedKeepsTiles(cs, pmStart, pmEnd, hdr, i);
        MergedNextFree(cs, i, hdr);
      }
      if nd + hdr + mem[nd].size != mem[nd].next {
        return 0;
      }
      var next := mem[nd].next;
      mem := mem[nd := NodeHeader(mem[nd].size + mem[next].size + hdr, mem[next].next)];
      Chunks := MergedAt(cs, i, hdr);
      return nd;
    }

    /** The first free node with room for `size`, and the free node before it. */
    method NodeFindSize(size: int) returns (cur: int, last: int)
      requires Valid()
      ensures var i := FirstFit(Chunks, size, 0);
              cur == AddressAt(Chunks, i) && (i < |Chunks| ==> last == AddressAt(Chunks, LastFree(Chunks, i)))
    {
      ghost var cs := Chunks;
      Addresses(cs, pmStart, pmEnd, hdr);
      cur, last := head, 0;
      ghost var i := NextFree(cs, 0);
      FirstFitSkips(cs, size, 0);
      NoneBefore(cs, 0);
      hide Tiled, Coalesced, NextFree, LastFree, HeaderOf;
      while cur != 0
        invariant i <= |cs| && cur == AddressAt(cs, i) && (i < |cs| ==> cs[i].free)
        invariant last == AddressAt(cs, LastFree(cs, i))
        invariant FirstFit(cs, size, 0) == FirstFit(cs, size, i)
        decreases |cs| - i
      {
        NodeAt(mem, cs, i);
        if mem[cur].size >= size {
          return;
        }
        last := cur;
        cur := mem[cur].next;
        FirstFitSkips(cs, size, i + 1);
        i := NextFree(cs, i + 1);
      }
    }

    /** The last free node at or before the address of block `i`, whose own header may be in flux. */
    method NodeFindPosition(pos: int, ghost i: nat) returns (ans: int)
      requires 0 < hdr && 0 < pmStart && Tiled(Chunks, pmStart, pmEnd, hdr)
      requires head == AddressAt(Chunks, NextFree(Chunks, 0))
      requires forall k :: 0 <= k < |Chunks| && Chunks[k].free ==>
                 Chunks[k].addr in mem && mem[Chunks[k].addr] == HeaderOf(Chunks, k)
      requires i < |Chunks| && !Chunks[i].free && Chunks[i].addr == pos
      ensures ans == AddressAt(Chunks, LastFree(Chunks, i))
    {
      ghost var cs := Chunks;
      Addresses(cs, pmStart, pmEnd, hdr);
      var cur := head;
      ans := 0;
      ghost var k := NextFree(cs, 0);
      NoneBefore(cs, i);
      hide Tiled, NextFree, LastFree, HeaderOf;
      while cur != 0
        invariant k <= |cs| && cur == AddressAt(cs, k) && (k < |cs| ==> cs[k].free)
        invariant ans == AddressAt(cs, LastFree(cs, if k <= i then k else i))
        decreases |cs| - k
      {
        NodeAt(mem, cs, k);
        LastFreeStep(cs, k, i);
        assert k != i && (k < i ==> After(cs, k, hdr) <= pos) && (i < k ==> After(cs, i, hdr) <= cur);
        if cur <= pos {
          ans := cur;
        }
        cur := mem[cur].next;
        k := NextFree(cs, k + 1);
      }
    }

    /** Hands out a block of `size` bytes, or fails exactly when no free chunk has room for it and a header. */
    method Alloc(size: int) returns (ptr: int)
      requires Valid() && 0 <= size && size + hdr < W32
      modifies this`head, this`mem, this`Chunks
      ensures Valid()
      ensures var cs, i := old(Chunks), FirstFit(old(Chunks), size + hdr, 0);
              if i < |cs| then ptr == cs[i].addr + hdr && Chunks == Carved(cs, i, size, hdr)
              else ptr == 0 && Chunks == cs
      ensures ptr == 0 <==>
              forall k :: 0 <= k < |old(Chunks)| && old(Chunks)[k].free ==> old(Chunks)[k].size < size + hdr
      ensures head != 0
      ensures Live(Chunks) == Live(old(Chunks)) + (if ptr == 0 then {} else {ptr - hdr})
      ensures ptr != 0 ==> ptr - hdr !in Live(old(Chunks))
      ensures Blocks(Chunks, hdr) == Blocks(old(Chunks), hdr) + (if ptr == 0 then {} else {(ptr, size)})
    {
      hide Tiled, Coalesced, SomeFree, Linked, NextFree, LastFree, HeaderOf, Carved, Live, Blocks;
      ghost var cs, i := Chunks, FirstFit(Chunks, size + hdr, 0);
      if i < |cs| {
        PositiveAddress(cs, pmStart, pmEnd, hdr, i);
        CarvedLive(cs, pmStart, pmEnd, hdr, i, size);
        CarvedBlocks(cs, pmStart, pmEnd, hdr, i, size);
      }
      HeadOf(cs, pmStart, pmEnd, hdr);
      var nd, last := NodeFindSize((size + hdr) % W32);
      if nd == 0 {
        return 0;
      }
      Carve(nd, last, size, i);
      HeadOf(Chunks, pmStart, pmEnd, hdr);
      return nd + hdr;
    }

    /** Marks a block's header free and links it in behind the last free node before it. */
    method LinkIn(nd: int, ghost i: nat) returns (tnd: int)
      requires Consistent() && i < |Chunks| && !Chunks[i].free && Chunks[i].addr == nd
      modifies this`head, this`mem, this`Chunks
      ensures Consistent() && Chunks == Marked(old(Chunks), i)
      ensures tnd == AddressAt(old(Chunks), LastFree(old(Chunks), i))
    {
      hide Tiled, Linked, NextFree, LastFree, HeaderOf, Marked, MarkedMemory;
      ghost var cs, start, end := Chunks, pmStart, pmEnd;
      MarkedKeepsTiles(cs, start, end, hdr, i);
      MarkedLinks(mem, cs, start, end, hdr, i);
      MarkedInSteps(mem, cs, start, end, hdr, i);
      MarkedMemoryIs(mem, cs, i);
      mem := mem[nd := NodeHeader(mem[nd].size, 0)];
      tnd := NodeFindPosition(nd, i);
      if tnd == 0 {
        mem := mem[nd := NodeHeader(mem[nd].size, head)];
        head := nd;
      } else {
        mem := mem[nd := NodeHeader(mem[nd].size, mem[tnd].next)];
        mem := mem[tnd := NodeHeader(mem[tnd].size, nd)];
      }
      assert mem == MarkedMemory(old(mem), cs, i);
      Chunks := Marked(cs, i);
    }

    /** Takes back a live block: links it in and combines it with its neighbours. */
    method Free(ptr: int)
      requires Valid() && (ptr == 0 || ptr - hdr in Live(Chunks))
      modifies this`head, this`mem, this`Chunks
      ensures Valid()
      ensures Chunks == if ptr == 0 then old(Chunks) else Freed(old(Chunks), IndexOf(old(Chunks), ptr - hdr), hdr)
      ensures head != 0
      ensures Live(Chunks) == Live(old(Chunks)) - (if ptr == 0 then {} else {ptr - hdr})
      ensures forall b :: b in Blocks(Chunks, hdr) <==> b in Blocks(old(Chunks), hdr) && (ptr == 0 || b.0 != ptr)
    {
      hide Tiled, Coalesced, SomeFree, Linked, NextFree, LastFree, HeaderOf, Live, Freed, Combined, Marked, IndexOf,
           Blocks;
      if ptr == 0 {
        HeadOf(Chunks, pmStart, pmEnd, hdr);
        return;
      }
      var nd := ptr - hdr;
      ghost var cs, i, start, end := Chunks, IndexOf(Chunks, nd), pmStart, pmEnd;
      ghost var l := LastFree(cs, i);
      FreedKeepsRow(cs, start, end, hdr, i);
      FreedLive(cs, start, end, hdr, i);
      FreedOnly(cs, start, end, hdr, i);
      FreedInSteps(cs, i, hdr);
      LastIsNeighbour(cs, start, end, hdr, i);
      var tnd := LinkIn(nd, i);
      var cmnd;
      if tnd == 0 {
        cmnd := NodeCombine(nd, i);
      } else {
        CombinedAt(Chunks, l, hdr);
        cmnd := NodeCombine(tnd, l);
        if cmnd == 0 {
          cmnd := NodeCombine(nd, i);
        } else {
          cmnd := NodeCombine(tnd, l);
        }
      }
      HeadOf(Chunks, start, end, hdr);
    }

    /** Turns the front of the free node found into a block and relinks the list around it. */
    method Carve(nd: int, last: int, size: int, ghost i: nat)
      requires Valid() && i < |Chunks| && Chunks[i].free && 0 <= size && Chunks[i].size >= size + hdr
      requires nd == Chunks[i].addr && last == AddressAt(Chunks, LastFree(Chunks, i))
      modifies this`head, this`mem, this`Chunks
      ensures Valid() && Chunks == Carved(old(Chunks), i, size, hdr)
    {
      hide Tiled, Coalesced, SomeFree, Linked, NextFree, LastFree, HeaderOf, Carved, CarvedMemory;
      ghost var cs := Chunks;
      CarvedKeepsRow(cs, pmStart, pmEnd, hdr, i, size);
      CarvedLinks(mem, cs, pmStart, pmEnd, hdr, i, size);
      CarvedHead(cs, i, size, hdr);
      CarvedInSteps(mem, cs, pmStart, pmEnd, hdr, i, size);
      OnlyHead(cs, pmStart, pmEnd, hdr, i);
      var ok := NodeSplit(nd, size);
      if nd == head {
        head := mem[nd].next;
      } else {
        mem := mem[last := NodeHeader(mem[last].size, mem[nd].next)];
      }
      mem := mem[nd := BlockHeader(size)];
      Chunks := Carved(cs, i, size, hdr);
    }
  }

  /** The free list of a heap that has a free chunk has a head. */
  lemma HeadOf(cs: seq<Chunk>, start: int, end: int, hdr: int)
    requires hdr > 0 && start > 0 && Tiled(cs, start, end, hdr) && SomeFree(cs)
    ensures AddressAt(cs, NextFree(cs, 0)) != 0
  {
    PositiveAddress(cs, start, end, hdr, NextFree(cs, 0));
  }

  lemma PositiveAddress(cs: seq<Chunk>, start: int, end: int, hdr: int, i: nat)
    requires hdr > 0 && start > 0 && Tiled(cs, start, end, hdr) && i < |cs|
    ensures cs[i].addr > 0
  {
    Addresses(cs, start, end, hdr);
  }

  lemma OnlyHead(cs: seq<Chunk>, start: int, end: int, hdr: int, i: nat)
    requires hdr > 0 && Tiled(cs, start, end, hdr) && i < |cs| && cs[i].free
    ensures cs[i].addr == AddressAt(cs, NextFree(cs, 0)) <==> LastFree(cs, i) < 0
  {
    Addresses(cs, start, end, hdr);
    var k := NextFree(cs, 0);
    assert k < i ==> After(cs, k, hdr) <= cs[i].addr;
  }

  lemma CarvedHead(cs: seq<Chunk>, i: nat, n: int, hdr: int)
    requires i < |cs| && cs[i].free
    ensures |Carved(cs, i, n, hdr)| == |cs| + 1
    ensures LastFree(cs, i) == -1 <==> NextFree(cs, 0) == i
    ensures AddressAt(Carved(cs, i, n, hdr), NextFree(Carved(cs, i, n, hdr), 0)) ==
            if LastFree(cs, i) == -1 then cs[i].addr + hdr + n else AddressAt(cs, NextFree(cs, 0))
  {
    hide Carved, NextFree, LastFree;
    CarvedAt(cs, i, n, hdr);
    CarvedNextFree(cs, i, n, hdr, 0);
    FirstOrLater(cs, i);
  }

  lemma FirstOrLater(cs: seq<Chunk>, i: nat)
    requires i < |cs| && cs[i].free
    ensures NextFree(cs, 0) <= i && (LastFree(cs, i) == -1 <==> NextFree(cs, 0) == i)
  {
    hide NextFree, LastFree;
    var first, last := NextFree(cs, 0), LastFree(cs, i);
    assert first <= i;
    if last >= 0 {
      assert cs[last].free;
    }
  }

  /** Splitting, unlinking and marking write the headers one after another. */
  lemma CarvedInSteps(mem: map<int, Header>, cs: seq<Chunk>, start: int, end: int, hdr: int, i: nat, n: int)
    requires i < |cs| && cs[i].free && Linked(mem, cs) && hdr > 0 && n >= 0 && Tiled(cs, start, end, hdr)
    ensures cs[i].addr in mem && mem[cs[i].addr].NodeHeader? && mem[cs[i].addr].size == cs[i].size
    ensures var rest, last := cs[i].addr + hdr + n, LastFree(cs, i);
            var split := mem[rest := NodeHeader(cs[i].size - n - hdr, mem[cs[i].addr].next)]
                            [cs[i].addr := NodeHeader(n, rest)];
            && (last >= 0 ==> cs[last].addr in split && split[cs[last].addr].NodeHeader?)
            && CarvedMemory(mem, cs, i, n, hdr) ==
               (if last < 0 then split else split[cs[last].addr := NodeHeader(split[cs[last].addr].size, rest)])
               [cs[i].addr := BlockHeader(n)]
  {
    hide Linked, Tiled, HeaderOf, NextFree, LastFree;
    var last := LastFree(cs, i);
    LinkedNode(mem, cs, i);
    if last >= 0 {
      LinkedNode(mem, cs, last);
      AddressOrder(cs, start, end, hdr, last, i);
      Sizes(cs, start, end, hdr);
    }
  }

  lemma LinkedNode(mem: map<int, Header>, cs: seq<Chunk>, i: nat)
    requires i < |cs| && cs[i].free && Linked(mem, cs)
    ensures cs[i].addr in mem && mem[cs[i].addr] == NodeHeader(cs[i].size, AddressAt(cs, NextFree(cs, i + 1)))
  {
  }

  lemma NextIsNeighbour(cs: seq<Chunk>, i: nat)
    requires i + 1 < |cs| && cs[i + 1].free
    ensures NextFree(cs, i + 1) == i + 1
  {
  }

  lemma NoneBefore(cs: seq<Chunk>, i: nat)
    requires i <= |cs|
    ensures LastFree(cs, NextFree(cs, 0)) == -1
    ensures i <= NextFree(cs, 0) ==> LastFree(cs, i) == -1
  {
  }

  lemma LastFreeStep(cs: seq<Chunk>, k: nat, i: nat)
    requires k < |cs| && cs[k].free && i < |cs| && !cs[i].free
    ensures k < i ==> LastFree(cs, if NextFree(cs, k + 1) <= i then NextFree(cs, k + 1) else i) == k
  {
  }

  /** What the combining steps find around a block just linked in. */
  lemma LastIsNeighbour(cs: seq<Chunk>, start: int, end: int, hdr: int, i: nat)
    requires hdr > 0 && start > 0 && Tiled(cs, start, end, hdr) && i < |cs| && !cs[i].free
    ensures var l, m := LastFree(cs, i), Marked(cs, i);
            && |m| == |cs| && m[i].free && m[i].addr == cs[i].addr
            && (l >= 0 <==> AddressAt(cs, l) != 0)
            && (l >= 0 ==> m[l].free && m[l].addr == cs[l].addr && cs[l].addr != 0)
            && (l >= 0 ==> (m[l + 1].free <==> l == i - 1))
            && (l >= 0 && !m[l + 1].free ==> Combined(m, l, hdr) == m)
            && (i > 0 && cs[i - 1].free <==> l >= 0 && l == i - 1)
  {
    Addresses(cs, start, end, hdr);
  }

  lemma CombinedAt(cs: seq<Chunk>, l: nat, hdr: int)
    requires l < |cs| && cs[l].free
    ensures var r := Combined(cs, l, hdr); l < |r| && r[l].free && r[l].addr == cs[l].addr
  {
  }

  /** Marking, linking and redirecting write the headers one after another. */
  lemma MarkedInSteps(mem: map<int, Header>, cs: seq<Chunk>, start: int, end: int, hdr: int, i: nat)
    requires hdr > 0 && start > 0 && Tiled(cs, start, end, hdr) && Linked(mem, cs) && i < |cs| && !cs[i].free
    ensures var l := LastFree(cs, i);
            && cs[i].addr in mem && mem[cs[i].addr].size == cs[i].size
            && (l >= 0 ==> cs[l].addr in mem && cs[l].addr != cs[i].addr && cs[l].addr != 0)
            && (l >= 0 ==> mem[cs[l].addr] == NodeHeader(cs[l].size, AddressAt(cs, NextFree(cs, i + 1))))
            && (forall k :: 0 <= k < |cs| && cs[k].free ==>
                  cs[k].addr in mem && cs[k].addr != cs[i].addr && mem[cs[k].addr] == HeaderOf(cs, k))
            && (l < 0 ==> NextFree(cs, 0) == NextFree(cs, i + 1))
            && AddressAt(Marked(cs, i), NextFree(Marked(cs, i), 0))
               == (if l < 0 then cs[i].addr else AddressAt(cs, NextFree(cs, 0)))
  {
    hide NextFree, LastFree, HeaderOf, Tiled, Marked;
    Addresses(cs, start, end, hdr);
    BlockAt(mem, cs, i);
    MarkedHead(cs, i);
    var l := LastFree(cs, i);
    if l >= 0 {
      PositiveAddress(cs, start, end, hdr, l);
      NextAfterLast(cs, i);
      LinkedNode(mem, cs, l);
      assert After(cs, l, hdr) <= cs[i].addr;
      Sizes(cs, start, end, hdr);
    }
    forall k | 0 <= k < |cs| && cs[k].free
      ensures cs[k].addr != cs[i].addr
    {
      Sizes(cs, start, end, hdr);
      assert k < i ==> After(cs, k, hdr) <= cs[i].addr;
      assert i < k ==> After(cs, i, hdr) <= cs[k].addr;
    }
  }

  lemma BlockAt(mem: map<int, Header>, cs: seq<Chunk>, i: nat)
    requires i < |cs| && Linked(mem, cs)
    ensures cs[i].addr in mem && mem[cs[i].addr].size == cs[i].size
  {
  }

  lemma NextAfterLast(cs: seq<Chunk>, i: nat)
    requires i < |cs| && !cs[i].free && LastFree(cs, i) >= 0
    ensures NextFree(cs, LastFree(cs, i) + 1) == NextFree(cs, i + 1)
  {
    NextFreeIs(cs, LastFree(cs, i) + 1, NextFree(cs, i + 1));
  }

  lemma MarkedHead(cs: seq<Chunk>, i: nat)
    requires i < |cs| && !cs[i].free
    ensures var l, m := LastFree(cs, i), Marked(cs, i);
            && (l < 0 ==> NextFree(cs, 0) == NextFree(cs, i + 1))
            && AddressAt(m, NextFree(m, 0)) == (if l < 0 then cs[i].addr else AddressAt(cs, NextFree(cs, 0)))
  {
    MarkedNextFree(cs, i, 0);
    if LastFree(cs, i) < 0 {
      NextFreeIs(cs, 0, NextFree(cs, i + 1));
    }
  }

  lemma MarkedMemoryIs(mem: map<int, Header>, cs: seq<Chunk>, i: nat)
    requires i < |cs|
    ensures var l, m := LastFree(cs, i), mem[cs[i].addr := NodeHeader(cs[i].size, AddressAt(cs, NextFree(cs, i + 1)))];
            MarkedMemory(mem, cs, i) == if l < 0 then m else m[cs[l].addr := NodeHeader(cs[l].size, cs[i].addr)]
  {
    hide LastFree, NextFree, AddressAt;
  }
}
