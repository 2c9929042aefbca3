/**
 A block filesystem as a value: which block belongs to which inode, what the directories
 name, and what every operation makes of that.
 */
module BlkfsSpec {
  import opened Basics
  import opened Sums

  datatype Kind = Empty | File | Dir

  datatype Inode = Inode(kind: Kind, id: int, blockId: int, refcnt: int, size: nat)

  datatype Entry = Entry(used: bool, name: string, inodeId: int)

  /**
   `data` is every block's data read as a directory; blocks below `first` hold the inodes. An
   inode made when no data block was free has block -1.
   */
  datatype Disk = Disk(first: nat, inodes: seq<Inode>, taken: seq<bool>, data: seq<seq<Entry>>)

  const CHILD_PER_DIR: nat := 42
  const INODE_PER_BLOCK: nat := 51
  const INODE_NAME_LEN: nat := 16

  // ---- Links

  /** 1 for a slot that is used and names inode `i`. */
  function Names(e: Entry, i: int): nat {
    if e.used && e.inodeId == i then 1 else 0
  }

  function Naming(es: seq<Entry>, i: int): (r: seq<nat>)
    ensures |r| == |es| && forall k :: 0 <= k < |es| ==> r[k] == Names(es[k], i)
  {
    seq(|es|, k requires 0 <= k < |es| => Names(es[k], i))
  }

  /** The entries of directory inode `d`, none for what is not a live directory. */
  function Entries(disk: Disk, d: int): seq<Entry> {
    if 0 <= d < |disk.inodes| && disk.inodes[d].kind.Dir? && 0 <= disk.inodes[d].blockId < |disk.data|
    then disk.data[disk.inodes[d].blockId] else []
  }

  /** For each inode, how many live entries in it name `i`. */
  function NamingIn(disk: Disk, i: int): (r: seq<nat>)
    ensures |r| == |disk.inodes|
    ensures forall d :: 0 <= d < |disk.inodes| ==> r[d] == Sum(Naming(Entries(disk, d), i))
  {
    seq(|disk.inodes|, d => Sum(Naming(Entries(disk, d), i)))
  }

  /** The number of live entries naming `i`. */
  function Links(disk: Disk, i: int): nat {
    Sum(NamingIn(disk, i))
  }

  function RootLink(i: int): nat {
    if i == 0 then 1 else 0
  }

  // ---- What every reachable filesystem keeps

  ghost predicate Live(disk: Disk, i: int) {
    0 <= i < |disk.inodes| && !disk.inodes[i].kind.Empty?
  }

  ghost predicate Shaped(disk: Disk) {
    && 0 < disk.first < |disk.taken| == |disk.data| && 0 < |disk.inodes|
    && |disk.inodes| >= |disk.taken| - disk.first
    && (forall b :: 0 <= b < |disk.data| ==> |disk.data[b]| == CHILD_PER_DIR)
  }

  ghost predicate Owns(disk: Disk, i: int, b: int) {
    Live(disk, i) && disk.inodes[i].blockId == b
  }

  /** The live inodes that were made without a block. */
  ghost function Blockless(inodes: seq<Inode>): (r: set<int>)
    ensures forall i :: i in r <==> 0 <= i < |inodes| && !inodes[i].kind.Empty? && inodes[i].blockId == -1
  {
    set i | 0 <= i < |inodes| && !inodes[i].kind.Empty? && inodes[i].blockId == -1
  }

  /** There are no more of them than the inodes the table has to spare. */
  ghost predicate Spare(disk: Disk) {
    |Blockless(disk.inodes)| <= |disk.inodes| - (|disk.taken| - disk.first)
  }

  /** A data block is taken exactly when some inode owns it, and then just one does. */
  ghost predicate Owned(disk: Disk) {
    && (forall b :: 0 <= b < disk.first && b < |disk.taken| ==> disk.taken[b])
    && (forall i :: Live(disk, i) ==> disk.inodes[i].id == i && BlockRight(disk, disk.inodes[i].blockId))
    && (forall b :: disk.first <= b < |disk.taken| ==> (disk.taken[b] <==> exists i :: Owns(disk, i, b)))
    && (forall i, j :: Live(disk, i) && Live(disk, j) && disk.inodes[i].blockId == disk.inodes[j].blockId ==>
                         i == j || disk.inodes[i].blockId == -1)
    && Spare(disk)
  }

  predicate BlockRight(disk: Disk, b: int) {
    b == -1 || disk.first <= b < |disk.taken|
  }

  /** Slots that are used have different names and name live inodes. */
  ghost predicate Named(disk: Disk, d: int) {
    var es := Entries(disk, d);
    && (forall k :: 0 <= k < |es| && es[k].used ==> Live(disk, es[k].inodeId))
    && (forall k, l :: 0 <= k < l < |es| && es[k].used && es[l].used ==> es[k].name != es[l].name)
  }

  /** Live entries never outnumber the count, and there is always a root directory. */
  ghost predicate Counted(disk: Disk) {
    && |disk.inodes| > 0 && disk.inodes[0].kind.Dir?
    && (forall i :: Live(disk, i) ==>
                      disk.inodes[i].refcnt >= Links(disk, i) + RootLink(i) && disk.inodes[i].refcnt >= 1)
  }

  ghost predicate Valid(disk: Disk) {
    Shaped(disk) && Owned(disk) && (forall d :: 0 <= d < |disk.inodes| ==> Named(disk, d)) && Counted(disk)
  }

  /** The count is the number of live entries. */
  ghost predicate Exact(disk: Disk) {
    forall i :: Live(disk, i) ==> disk.inodes[i].refcnt == Links(disk, i) + RootLink(i)
  }

  // ---- The operations

  /** The first free data block from `b` on. */
  function FreeBlock(taken: seq<bool>, b: nat): (r: int)
    ensures r == -1 || (b <= r < |taken| && !taken[r])
    ensures forall k :: b <= k < (if r == -1 then |taken| else r) ==> taken[k]
    decreases |taken| - b
  {
    if b >= |taken| then -1 else if !taken[b] then b else FreeBlock(taken, b + 1)
  }

  function EmptyInode(inodes: seq<Inode>, i: nat): (r: int)
    ensures r == -1 || (i <= r < |inodes| && inodes[r].kind.Empty?)
    ensures forall k :: i <= k < (if r == -1 then |inodes| else r) ==> !inodes[k].kind.Empty?
    decreases |inodes| - i
  {
    if i >= |inodes| then -1 else if inodes[i].kind.Empty? then i else EmptyInode(inodes, i + 1)
  }

  function FindName(es: seq<Entry>, name: string, k: nat): (r: int)
    ensures r == -1 || (k <= r < |es| && es[r].used && es[r].name == name)
    ensures forall l :: k <= l < (if r == -1 then |es| else r) ==> !(es[l].used && es[l].name == name)
    decreases |es| - k
  {
    if k >= |es| then -1 else if es[k].used && es[k].name == name then k else FindName(es, name, k + 1)
  }

  function FindFree(es: seq<Entry>, k: nat): (r: int)
    ensures r == -1 || (k <= r < |es| && !es[r].used)
    ensures forall l :: k <= l < (if r == -1 then |es| else r) ==> es[l].used
    decreases |es| - k
  {
    if k >= |es| then -1 else if !es[k].used then k else FindFree(es, k + 1)
  }

  /** The inode a name stands for in a directory. */
  function Lookup(disk: Disk, d: int, name: string): Option<int> {
    LookupIn(Entries(disk, d), name)
  }

  function LookupIn(es: seq<Entry>, name: string): Option<int> {
    var k := FindName(es, name, 0);
    if k == -1 then None else Some(es[k].inodeId)
  }

  /** All slots free, names and ids left as they were. */
  function Cleared(es: seq<Entry>): (r: seq<Entry>)
    ensures |r| == |es| && forall k :: 0 <= k < |es| ==> r[k] == es[k].(used := false)
  {
    seq(|es|, k requires 0 <= k < |es| => es[k].(used := false))
  }

  /** An empty inode and, if there is one, a free block put together. */
  function Allocated(disk: Disk, kind: Kind): (r: (Disk, int))
  {
    var i := EmptyInode(disk.inodes, 0);
    var b := FreeBlock(disk.taken, disk.first);
    if i == -1 then (disk, -1)
    else if b == -1 || b >= |disk.data| then (disk.(inodes := disk.inodes[i := Inode(kind, i, -1, 0, 0)]), i)
    else
      (disk.(inodes := disk.inodes[i := Inode(kind, i, b, 0, 0)], taken := disk.taken[b := true],
             data := if kind.Dir? then disk.data[b := Cleared(disk.data[b])] else disk.data), i)
  }

  function Counting(disk: Disk, i: int, delta: int): Disk {
    if 0 <= i < |disk.inodes| then
      disk.(inodes := disk.inodes[i := disk.inodes[i].(refcnt := disk.inodes[i].refcnt + delta)])
    else disk
  }

  /** Directory `d`'s slot `k` becomes `e`. */
  function WithEntry(disk: Disk, d: int, k: int, e: Entry): Disk {
    if 0 <= d < |disk.inodes| && 0 <= disk.inodes[d].blockId < |disk.data|
       && 0 <= k < |disk.data[disk.inodes[d].blockId]| then
      var b := disk.inodes[d].blockId;
      disk.(data := disk.data[b := disk.data[b][k := e]])
    else disk
  }

  function Freed(disk: Disk, i: int): Disk {
    if 0 <= i < |disk.inodes| then
      var b := disk.inodes[i].blockId;
      disk.(inodes := disk.inodes[i := disk.inodes[i].(kind := Empty)],
            taken := if 0 <= b < |disk.taken| then disk.taken[b := false] else disk.taken)
    else disk
  }

  /** What a new entry stands for: an inode of its own, or one that exists. */
  datatype Target = New(kind: Kind) | Existing(id: int)

  /** `create_filedir`: nothing happens if the name exists or the directory is full. */
  function Created(disk: Disk, d: int, target: Target, name: string): (Disk, int) {
    var k := FindFree(Entries(disk, d), 0);
    if FindName(Entries(disk, d), name, 0) != -1 || k == -1 then (disk, -1) else
      var (disk1, i) := if target.New? then Allocated(disk, target.kind) else (disk, target.id);
      (WithEntry(Counting(disk1, i, 1), d, k, Entry(true, name, i)), i)
  }

  /** `delete_filedir`: the last entry takes the inode and its block with it. */
  function Deleted(disk: Disk, d: int, name: string): Disk {
    var k := FindName(Entries(disk, d), name, 0);
    if k == -1 then disk else
      var e := Entries(disk, d)[k];
      var i := e.inodeId;
      var last := 0 <= i < |disk.inodes| && disk.inodes[i].refcnt == 1;
      var disk1 := if last then Freed(disk, i) else Counting(disk, i, -1);
      WithEntry(disk1, d, k, e.(used := false))
  }

  // ---- What the steps do to the number of links

  /** Changing one directory's entries changes the links by as much. */
  lemma LinksChange(disk: Disk, disk': Disk, d: nat, i: int)
    requires d < |disk.inodes| == |disk'.inodes|
    requires forall j :: 0 <= j < |disk.inodes| && j != d ==> Entries(disk', j) == Entries(disk, j)
    ensures Links(disk', i) + Sum(Naming(Entries(disk, d), i)) == Links(disk, i) + Sum(Naming(Entries(disk', d), i))
  {
    var v := Sum(Naming(Entries(disk', d), i));
    assert NamingIn(disk', i) == NamingIn(disk, i)[d := v];
    SumUpdate(NamingIn(disk, i), d, v);
  }

  lemma LinksSame(disk: Disk, disk': Disk, i: int)
    requires |disk.inodes| == |disk'.inodes|
    requires forall j :: 0 <= j < |disk.inodes| ==>
               Sum(Naming(Entries(disk', j), i)) == Sum(Naming(Entries(disk, j), i))
    ensures Links(disk', i) == Links(disk, i)
  {
    assert NamingIn(disk', i) == NamingIn(disk, i);
  }

  /** An entry that names an inode is one of its links. */
  lemma EntryIsLink(disk: Disk, d: nat, k: nat)
    requires d < |disk.inodes| && k < |Entries(disk, d)| && Entries(disk, d)[k].used
    ensures Sum(Naming(Entries(disk, d), Entries(disk, d)[k].inodeId)) >= 1
    ensures Links(disk, Entries(disk, d)[k].inodeId) >= 1
  {
    var i := Entries(disk, d)[k].inodeId;
    SumAtLeast(Naming(Entries(disk, d), i), k);
    SumAtLeast(NamingIn(disk, i), d);
  }

  /** No live entry names an inode that is not live. */
  lemma DeadHasNoLinks(disk: Disk, i: int)
    requires (forall d :: 0 <= d < |disk.inodes| ==> Named(disk, d)) && !Live(disk, i)
    ensures Links(disk, i) == 0
  {
    forall d | 0 <= d < |disk.inodes|
      ensures NamingIn(disk, i)[d] == 0
    {
      assert Named(disk, d);
      SumZero(Naming(Entries(disk, d), i));
    }
    SumZero(NamingIn(disk, i));
  }

  lemma NoneUsed(es: seq<Entry>, i: int)
    requires forall k :: 0 <= k < |es| ==> !es[k].used
    ensures Sum(Naming(es, i)) == 0
  {
    SumZero(Naming(es, i));
  }

  // ---- Entries after each step

  lemma EntriesAllocated(disk: Disk, kind: Kind, j: int)
    requires Shaped(disk) && Owned(disk) && 0 <= j < |disk.inodes| && !kind.Empty? && Allocated(disk, kind).1 != -1
    ensures var (disk', i) := Allocated(disk, kind);
            && (j != i ==> Entries(disk', j) == Entries(disk, j))
            && (j == i ==> Entries(disk, j) == [])
            && (j == i ==> forall k :: 0 <= k < |Entries(disk', j)| ==> !Entries(disk', j)[k].used)
            && (j == i && kind.Dir? && FreeBlock(disk.taken, disk.first) != -1 ==> |Entries(disk', j)| == CHILD_PER_DIR)
  {
    var b := FreeBlock(disk.taken, disk.first);
    assert Live(disk, j) ==> Owns(disk, j, disk.inodes[j].blockId);
  }

  lemma EntriesWithEntry(disk: Disk, d: int, k: nat, e: Entry, j: int)
    requires Shaped(disk) && Owned(disk) && 0 <= j < |disk.inodes| && k < |Entries(disk, d)|
    ensures Entries(WithEntry(disk, d, k, e), j) == if j == d then Entries(disk, d)[k := e] else Entries(disk, j)
  {
    assert Live(disk, d);
    assert disk.inodes[j].kind.Dir? ==> Live(disk, j);
  }

  /** Overwriting an entry moves one link. */
  lemma LinksWithEntry(disk: Disk, d: int, k: nat, e: Entry, i: int)
    requires Shaped(disk) && Owned(disk) && k < |Entries(disk, d)|
    ensures Links(WithEntry(disk, d, k, e), i) + Names(Entries(disk, d)[k], i) == Links(disk, i) + Names(e, i)
  {
    var disk', es := WithEntry(disk, d, k, e), Entries(disk, d);
    forall j | 0 <= j < |disk.inodes|
      ensures Entries(disk', j) == if j == d then es[k := e] else Entries(disk, j)
    {
      EntriesWithEntry(disk, d, k, e, j);
    }
    LinksChange(disk, disk', d, i);
    assert Naming(es[k := e], i) == Naming(es, i)[k := Names(e, i)];
    SumUpdate(Naming(es, i), k, Names(e, i));
  }

  lemma LinksAllocated(disk: Disk, kind: Kind, i: int)
    requires Shaped(disk) && Owned(disk) && !kind.Empty? && Allocated(disk, kind).1 != -1
    ensures Links(Allocated(disk, kind).0, i) == Links(disk, i)
  {
    var disk' := Allocated(disk, kind).0;
    forall j | 0 <= j < |disk.inodes|
      ensures Sum(Naming(Entries(disk', j), i)) == Sum(Naming(Entries(disk, j), i))
    {
      EntriesAllocated(disk, kind, j);
      if j == Allocated(disk, kind).1 {
        NoneUsed(Entries(disk', j), i);
        NoneUsed(Entries(disk, j), i);
      }
    }
    LinksSame(disk, disk', i);
  }

  lemma LinksCounting(disk: Disk, i: int, delta: int, j: int)
    ensures Links(Counting(disk, i, delta), j) == Links(disk, j)
  {
    LinksSame(disk, Counting(disk, i, delta), j);
  }

  lemma LinksFreed(disk: Disk, i: int, j: int)
    requires Shaped(disk) && Owned(disk) && Live(disk, i)
    ensures Links(Freed(disk, i), j) + Sum(Naming(Entries(disk, i), j)) == Links(disk, j)
  {
    LinksChange(disk, Freed(disk, i), i, j);
  }

  // ---- A free block means an empty inode

  function Range(a: int, b: int): (r: set<int>)
    requires a <= b
    ensures |r| == b - a && forall x :: x in r <==> a <= x < b
    decreases b - a
  {
    if a == b then {} else Range(a, b - 1) + {b - 1}
  }

  /** The blocks of the live inodes. */
  function Blocks(inodes: seq<Inode>): (r: set<int>)
    ensures forall b :: b in r <==> exists i :: 0 <= i < |inodes| && HasBlock(inodes[i]) && inodes[i].blockId == b
  {
    if inodes == [] then {}
    else
      var last := inodes[|inodes| - 1];
      Blocks(inodes[..|inodes| - 1]) + if HasBlock(last) then {last.blockId} else {}
  }

  predicate HasBlock(node: Inode) {
    !node.kind.Empty? && node.blockId != -1
  }

  /** The live inodes with a block. */
  ghost function Housed(inodes: seq<Inode>): (r: set<int>)
    ensures forall i :: i in r <==> 0 <= i < |inodes| && HasBlock(inodes[i])
  {
    set i | 0 <= i < |inodes| && HasBlock(inodes[i])
  }

  lemma HousedStep(inodes: seq<Inode>)
    requires inodes != []
    ensures var n := |inodes| - 1;
            Housed(inodes) == Housed(inodes[..n]) + if HasBlock(inodes[n]) then {n} else {}
  {
  }

  lemma BlocksStep(inodes: seq<Inode>)
    requires inodes != []
    ensures var n := |inodes| - 1;
            Blocks(inodes) == Blocks(inodes[..n]) + if HasBlock(inodes[n]) then {inodes[n].blockId} else {}
  {
  }

  lemma {:induction false} DifferentBlocks(inodes: seq<Inode>)
    requires forall i, j :: 0 <= i < j < |inodes| && HasBlock(inodes[i]) && HasBlock(inodes[j]) ==>
               inodes[i].blockId != inodes[j].blockId
    ensures |Blocks(inodes)| == |Housed(inodes)|
  {
    hide Blocks, Housed, HasBlock;
    if inodes == [] {
      NoneHoused(inodes);
    } else {
      DifferentBlocks(inodes[..|inodes| - 1]);
      HousedStep(inodes);
      BlocksStep(inodes);
      AnotherBlock(inodes);
    }
  }

  lemma NoneHoused(inodes: seq<Inode>)
    requires inodes == []
    ensures Blocks(inodes) == {} && Housed(inodes) == {}
  {
  }

  lemma AnotherBlock(inodes: seq<Inode>)
    requires inodes != []
    requires forall i, j :: 0 <= i < j < |inodes| && HasBlock(inodes[i]) && HasBlock(inodes[j]) ==>
               inodes[i].blockId != inodes[j].blockId
    ensures var n := |inodes| - 1;
            n !in Housed(inodes[..n]) && (HasBlock(inodes[n]) ==> inodes[n].blockId !in Blocks(inodes[..n]))
  {
    hide Blocks, Housed, HasBlock;
    var n := |inodes| - 1;
    var before := inodes[..n];
    assert forall i :: 0 <= i < n ==> before[i] == inodes[i];
  }

  lemma SubsetSize(a: set<int>, b: set<int>)
    requires a <= b
    ensures |a| <= |b|
  {
    assert b == a + (b - a);
  }

  /** Every inode is empty, without a block, or owns one of the blocks that are taken. */
  lemma InodesCounted(disk: Disk, empty: set<int>, free: set<int>)
    requires Shaped(disk) && Owned(disk)
    requires forall i :: i in empty <==> 0 <= i < |disk.inodes| && disk.inodes[i].kind.Empty?
    requires forall b :: b in free <==> disk.first <= b < |disk.taken| && !disk.taken[b]
    ensures |empty| + |Blockless(disk.inodes)| + (|disk.taken| - disk.first - |free|) == |disk.inodes|
  {
    hide Range, Blocks, Owned, Housed, Blockless;
    OwnersDiffer(disk);
    DifferentBlocks(disk.inodes);
    BlocksAreTaken(disk, free);
    assert Range(0, |disk.inodes|) == empty + Blockless(disk.inodes) + Housed(disk.inodes);
    ThreeParts(Range(0, |disk.inodes|), empty, Blockless(disk.inodes), Housed(disk.inodes));
  }

  lemma OwnersDiffer(disk: Disk)
    requires Owned(disk)
    ensures forall i, j :: 0 <= i < j < |disk.inodes| && HasBlock(disk.inodes[i]) && HasBlock(disk.inodes[j]) ==>
              disk.inodes[i].blockId != disk.inodes[j].blockId
  {
    forall i, j | 0 <= i < j < |disk.inodes| && HasBlock(disk.inodes[i]) && HasBlock(disk.inodes[j])
      ensures disk.inodes[i].blockId != disk.inodes[j].blockId
    {
      assert Live(disk, i) && Live(disk, j);
    }
  }

  lemma ThreeParts(all: set<int>, a: set<int>, b: set<int>, c: set<int>)
    requires all == a + b + c && a !! b !! c
    ensures |all| == |a| + |b| + |c|
  {
    assert |a + b| == |a| + |b| && (a + b) !! c;
  }

  lemma BlocksAreTaken(disk: Disk, free: set<int>)
    requires Shaped(disk) && Owned(disk)
    requires forall b :: b in free <==> disk.first <= b < |disk.taken| && !disk.taken[b]
    ensures |Blocks(disk.inodes)| == |disk.taken| - disk.first - |free|
  {
    hide Range, Blocks, Spare;
    var all := Range(disk.first, |disk.taken|);
    forall b | b in all - free
      ensures b in Blocks(disk.inodes)
    {
      var i :| Owns(disk, i, b);
      assert HasBlock(disk.inodes[i]);
    }
    forall b | b in Blocks(disk.inodes)
      ensures b in all - free
    {
      var i :| 0 <= i < |disk.inodes| && HasBlock(disk.inodes[i]) && disk.inodes[i].blockId == b;
      assert Owns(disk, i, b);
    }
    assert Blocks(disk.inodes) == all - free;
    assert all == (all - free) + free;
  }

  ghost function EmptyOnes(disk: Disk): (r: set<int>)
    ensures forall i :: i in r <==> 0 <= i < |disk.inodes| && disk.inodes[i].kind.Empty?
  {
    set i | 0 <= i < |disk.inodes| && disk.inodes[i].kind.Empty?
  }

  ghost function FreeOnes(disk: Disk): (r: set<int>)
    ensures forall b :: b in r <==> disk.first <= b < |disk.taken| && !disk.taken[b]
  {
    set b | disk.first <= b < |disk.taken| && !disk.taken[b]
  }

  /** There are at least as many empty inodes as free blocks; so a free block means an empty inode. */
  lemma FreeBlockEmptyInode(disk: Disk)
    requires Shaped(disk) && Owned(disk)
    ensures |EmptyOnes(disk)| >= |FreeOnes(disk)|
    ensures FreeBlock(disk.taken, disk.first) != -1 ==> EmptyInode(disk.inodes, 0) != -1
  {
    InodesCounted(disk, EmptyOnes(disk), FreeOnes(disk));
    hide Owned, FreeBlock, EmptyInode;
    assert FreeBlock(disk.taken, disk.first) != -1 ==> FreeBlock(disk.taken, disk.first) in FreeOnes(disk);
    assert EmptyInode(disk.inodes, 0) == -1 ==> EmptyOnes(disk) == {};
  }

  /** An inode made without a block leaves enough to spare. */
  lemma SpareLeft(disk: Disk, i: int, node: Inode)
    requires Shaped(disk) && Owned(disk) && 0 <= i < |disk.inodes| && disk.inodes[i].kind.Empty?
    requires !node.kind.Empty? && node.blockId == -1 && FreeBlock(disk.taken, disk.first) == -1
    ensures |Blockless(disk.inodes[i := node])| <= |disk.inodes| - (|disk.taken| - disk.first)
  {
    hide Owned, FreeBlock;
    InodesCounted(disk, EmptyOnes(disk), FreeOnes(disk));
    assert FreeOnes(disk) == {} by {
      assert forall b :: disk.first <= b < |disk.taken| ==> disk.taken[b];
    }
    assert Blockless(disk.inodes[i := node]) == Blockless(disk.inodes) + {i};
    assert i in EmptyOnes(disk);
  }

  // ---- Ownership and names after each step

  lemma AllocatedOwned(disk: Disk, kind: Kind)
    requires Shaped(disk) && Owned(disk) && !kind.Empty? && Allocated(disk, kind).1 != -1
    ensures Shaped(Allocated(disk, kind).0) && Owned(Allocated(disk, kind).0)
  {
    var (disk', i) := Allocated(disk, kind);
    if FreeBlock(disk.taken, disk.first) == -1 {
      SpareLeft(disk, i, disk'.inodes[i]);
      BlocklessOwned(disk, i, kind);
    } else {
      HousedOwned(disk, i, FreeBlock(disk.taken, disk.first), kind, disk'.data);
    }
  }

  lemma BlocklessOwned(disk: Disk, i: int, kind: Kind)
    requires Shaped(disk) && Owned(disk) && 0 <= i < |disk.inodes| && disk.inodes[i].kind.Empty? && !kind.Empty?
    requires Spare(disk.(inodes := disk.inodes[i := Inode(kind, i, -1, 0, 0)]))
    ensures Owned(disk.(inodes := disk.inodes[i := Inode(kind, i, -1, 0, 0)]))
  {
    hide Spare;
    var disk' := disk.(inodes := disk.inodes[i := Inode(kind, i, -1, 0, 0)]);
    assert forall j, c :: c != -1 ==> (Owns(disk', j, c) <==> Owns(disk, j, c));
  }

  lemma HousedOwned(disk: Disk, i: int, b: int, kind: Kind, data: seq<seq<Entry>>)
    requires Shaped(disk) && Owned(disk) && 0 <= i < |disk.inodes| && disk.inodes[i].kind.Empty? && !kind.Empty?
    requires disk.first <= b < |disk.taken| && !disk.taken[b]
    ensures var inodes := disk.inodes[i := Inode(kind, i, b, 0, 0)];
            Owned(disk.(inodes := inodes, taken := disk.taken[b := true], data := data))
  {
    var inodes := disk.inodes[i := Inode(kind, i, b, 0, 0)];
    var disk' := disk.(inodes := inodes, taken := disk.taken[b := true], data := data);
    assert Blockless(disk'.inodes) == Blockless(disk.inodes);
    hide Spare;
    forall c | disk.first <= c < |disk'.taken|
      ensures disk'.taken[c] <==> exists j :: Owns(disk', j, c)
    {
      if c == b {
        assert Owns(disk', i, b);
      } else {
        assert forall j :: j != i ==> (Owns(disk', j, c) <==> Owns(disk, j, c));
        assert !Owns(disk', i, c) && !Owns(disk, i, c);
      }
    }
    forall j, l | Live(disk', j) && Live(disk', l) && disk'.inodes[j].blockId == disk'.inodes[l].blockId != -1
      ensures j == l
    {
      assert j != i ==> Owns(disk, j, disk.inodes[j].blockId);
      assert l != i ==> Owns(disk, l, disk.inodes[l].blockId);
    }
  }

  lemma FreedOwned(disk: Disk, i: int)
    requires Shaped(disk) && Owned(disk) && Live(disk, i)
    ensures Shaped(Freed(disk, i)) && Owned(Freed(disk, i))
  {
    var disk', b := Freed(disk, i), disk.inodes[i].blockId;
    SubsetSize(Blockless(disk'.inodes), Blockless(disk.inodes));
    forall c | disk.first <= c < |disk'.taken|
      ensures disk'.taken[c] <==> exists j :: Owns(disk', j, c)
    {
      assert forall j :: j != i ==> (Owns(disk', j, c) <==> Owns(disk, j, c));
      assert Owns(disk, i, b);
    }
  }

  lemma CountingOwned(disk: Disk, i: int, delta: int)
    requires Shaped(disk) && Owned(disk)
    ensures Shaped(Counting(disk, i, delta)) && Owned(Counting(disk, i, delta))
  {
    var disk' := Counting(disk, i, delta);
    assert forall j, b :: Owns(disk', j, b) <==> Owns(disk, j, b);
    assert Blockless(disk'.inodes) == Blockless(disk.inodes);
  }

  lemma WithEntryOwned(disk: Disk, d: int, k: int, e: Entry)
    requires Shaped(disk) && Owned(disk)
    ensures Shaped(WithEntry(disk, d, k, e)) && Owned(WithEntry(disk, d, k, e))
  {
    var disk' := WithEntry(disk, d, k, e);
    assert forall j, b :: Owns(disk', j, b) <==> Owns(disk, j, b);
  }

  ghost predicate AllNamed(disk: Disk) {
    forall d :: 0 <= d < |disk.inodes| ==> Named(disk, d)
  }

  // ---- Creating

  /** What creating an entry needs: an empty inode for a new one, or the inode to link to. */
  ghost predicate Ready(disk: Disk, target: Target) {
    match target
    case New(kind) => !kind.Empty? && EmptyInode(disk.inodes, 0) != -1
    case Existing(i) => Live(disk, i)
  }

  /** The disk and the inode an entry is about to be written for. */
  function Prepared(disk: Disk, target: Target): (Disk, int) {
    var (disk1, i) := if target.New? then Allocated(disk, target.kind) else (disk, target.id);
    (Counting(disk1, i, 1), i)
  }

  lemma PreparedKeeps(disk: Disk, target: Target)
    requires Shaped(disk) && Owned(disk) && AllNamed(disk) && Ready(disk, target)
    ensures var (disk', i) := Prepared(disk, target);
            && Shaped(disk') && Owned(disk') && |disk'.inodes| == |disk.inodes| && 0 <= i < |disk.inodes|
            && (target.New? ==> !Live(disk, i) && disk'.inodes[i].kind == target.kind)
            && (forall j :: Live(disk', j) <==> Live(disk, j) || j == i)
            && (forall j :: 0 <= j < |disk.inodes| && j != i ==> disk'.inodes[j] == disk.inodes[j])
            && (forall j :: 0 <= j < |disk.inodes| && (j != i || target.Existing?) ==>
                              Entries(disk', j) == Entries(disk, j))
            && (target.New? ==> forall k :: 0 <= k < |Entries(disk', i)| ==> !Entries(disk', i)[k].used)
            && disk'.inodes[i].refcnt == (if target.New? then 1 else disk.inodes[i].refcnt + 1)
  {
    if target.New? {
      AllocatedOwned(disk, target.kind);
      var (disk1, i) := Allocated(disk, target.kind);
      CountingOwned(disk1, i, 1);
      forall j | 0 <= j < |disk.inodes|
        ensures j != i ==> Entries(disk1, j) == Entries(disk, j)
        ensures j == i ==> forall k :: 0 <= k < |Entries(disk1, j)| ==> !Entries(disk1, j)[k].used
      {
        EntriesAllocated(disk, target.kind, j);
      }
    } else {
      CountingOwned(disk, target.id, 1);
    }
  }

  lemma PreparedLinks(disk: Disk, target: Target, j: int)
    requires Shaped(disk) && Owned(disk) && AllNamed(disk) && Ready(disk, target)
    ensures Links(Prepared(disk, target).0, j) == Links(disk, j)
  {
    if target.New? {
      var (disk1, i) := Allocated(disk, target.kind);
      LinksAllocated(disk, target.kind, j);
      LinksCounting(disk1, i, 1, j);
    } else {
      LinksCounting(disk, target.id, 1, j);
    }
  }

  /** A new entry adds one link to what it names. */
  lemma CreatedCounts(disk: Disk, d: int, target: Target, name: string, j: int)
    requires Shaped(disk) && Owned(disk) && AllNamed(disk) && Ready(disk, target)
    requires Created(disk, d, target, name).1 != -1
    ensures var (disk', i) := Created(disk, d, target, name);
            && i == Prepared(disk, target).1
            && (Live(disk', j) <==> Live(disk, j) || j == i)
            && (Live(disk', j) ==>
                  && disk'.inodes[j].refcnt
                     == (if Live(disk, j) then disk.inodes[j].refcnt else 0) + (if j == i then 1 else 0)
                  && Links(disk', j) == Links(disk, j) + (if j == i then 1 else 0))
  {
    PreparedKeeps(disk, target);
    PreparedLinks(disk, target, j);
    var (disk1, i) := Prepared(disk, target);
    var k := FindFree(Entries(disk, d), 0);
    assert Live(disk, d) ==> Entries(disk1, d) == Entries(disk, d);
    LinksWithEntry(disk1, d, k, Entry(true, name, i), j);
  }

  lemma CreatedEntries(disk: Disk, d: int, target: Target, name: string, j: int)
    requires Shaped(disk) && Owned(disk) && AllNamed(disk) && Ready(disk, target)
    requires Created(disk, d, target, name).1 != -1
    requires 0 <= j < |disk.inodes|
    ensures FindName(Entries(disk, d), name, 0) == -1 && FindFree(Entries(disk, d), 0) != -1
    ensures var (disk', i) := Created(disk, d, target, name);
            && (j == d ==> Entries(disk', j) == Entries(disk, d)[FindFree(Entries(disk, d), 0) := Entry(true, name, i)])
            && (j != d && (j != i || target.Existing?) ==> Entries(disk', j) == Entries(disk, j))
            && (j != d && j == i && target.New? ==>
                  forall k :: 0 <= k < |Entries(disk', j)| ==> !Entries(disk', j)[k].used)
  {
    PreparedKeeps(disk, target);
    var (disk1, i) := Prepared(disk, target);
    var k := FindFree(Entries(disk, d), 0);
    assert Live(disk, d) ==> Entries(disk1, d) == Entries(disk, d);
    EntriesWithEntry(disk1, d, k, Entry(true, name, i), j);
  }

  lemma CreatedNamed(disk: Disk, d: int, target: Target, name: string)
    requires Shaped(disk) && Owned(disk) && AllNamed(disk) && Ready(disk, target)
    requires Created(disk, d, target, name).1 != -1
    ensures AllNamed(Created(disk, d, target, name).0)
  {
    hide Owned, Shaped, Created, Prepared;
    var disk' := Created(disk, d, target, name).0;
    SameInodes(disk, d, target, name);
    forall j | 0 <= j < |disk'.inodes|
      ensures Named(disk', j)
    {
      assert Named(disk, j);
      CreatedEntries(disk, d, target, name, j);
      var es := Entries(disk', j);
      forall k | 0 <= k < |es| && es[k].used
        ensures Live(disk', es[k].inodeId)
      {
        CreatedCounts(disk, d, target, name, es[k].inodeId);
        assert j == d && k == FindFree(Entries(disk, d), 0) ==>
            es[k] == Entry(true, name, Created(disk, d, target, name).1);
      }
    }
  }

  lemma SameInodes(disk: Disk, d: int, target: Target, name: string)
    ensures |Created(disk, d, target, name).0.inodes| == |disk.inodes|
  {
  }

  lemma CreatedOwned(disk: Disk, d: int, target: Target, name: string)
    requires Shaped(disk) && Owned(disk) && AllNamed(disk) && Ready(disk, target)
    ensures Shaped(Created(disk, d, target, name).0) && Owned(Created(disk, d, target, name).0)
  {
    PreparedKeeps(disk, target);
    var (disk1, i) := Prepared(disk, target);
    WithEntryOwned(disk1, d, FindFree(Entries(disk, d), 0), Entry(true, name, i));
  }

  /** A live inode whose count is above its number of links. */
  ghost predicate Leaks(disk: Disk, j: int) {
    Live(disk, j) && disk.inodes[j].refcnt > Links(disk, j) + RootLink(j)
  }

  lemma SomeLeak(disk: Disk) returns (j: int)
    requires Valid(disk) && !Exact(disk)
    ensures Leaks(disk, j)
  {
    hide Owned, Shaped, Named, Links;
    j :| Live(disk, j) && disk.inodes[j].refcnt != Links(disk, j) + RootLink(j);
  }

  /** Such a count stays too high. */
  lemma CreatedLeaks(disk: Disk, d: int, target: Target, name: string, j: int)
    requires Valid(disk) && Ready(disk, target) && Created(disk, d, target, name).1 != -1 && Leaks(disk, j)
    ensures Leaks(Created(disk, d, target, name).0, j)
  {
    hide Owned, Shaped, Named, Created, Ready, Links;
    CreatedCounts(disk, d, target, name, j);
  }

  /** Creating keeps all of it. */
  lemma CreatedValid(disk: Disk, d: int, target: Target, name: string)
    requires Valid(disk) && Ready(disk, target)
    ensures Valid(Created(disk, d, target, name).0)
    ensures Exact(Created(disk, d, target, name).0) <==> Exact(disk)
  {
    hide Owned, Shaped, Named, Created, Ready;
    if Created(disk, d, target, name).1 == -1 {
      NotCreated(disk, d, target, name);
    } else {
      var disk' := Created(disk, d, target, name).0;
      CreatedOwned(disk, d, target, name);
      CreatedNamed(disk, d, target, name);
      SameInodes(disk, d, target, name);
      RootStays(disk, d, target, name);
      forall j | Live(disk', j)
        ensures disk'.inodes[j].refcnt >= Links(disk', j) + RootLink(j) && disk'.inodes[j].refcnt >= 1
        ensures Exact(disk) ==> disk'.inodes[j].refcnt == Links(disk', j) + RootLink(j)
      {
        CreatedCounts(disk, d, target, name, j);
        if !Live(disk, j) {
          DeadHasNoLinks(disk, j);
        }
      }
      if !Exact(disk) {
        var j := SomeLeak(disk);
        CreatedLeaks(disk, d, target, name, j);
      }
    }
  }

  lemma NotCreated(disk: Disk, d: int, target: Target, name: string)
    requires Ready(disk, target) && Shaped(disk) && Owned(disk) && Created(disk, d, target, name).1 == -1
    ensures Created(disk, d, target, name).0 == disk
  {
  }

  lemma RootStays(disk: Disk, d: int, target: Target, name: string)
    requires Valid(disk) && Ready(disk, target)
    ensures Created(disk, d, target, name).0.inodes[0].kind.Dir?
  {
    PreparedKeeps(disk, target);
  }

  // ---- Deleting

  lemma DeletedEntry(disk: Disk, d: int, name: string) returns (k: int, i: int)
    requires AllNamed(disk) && FindName(Entries(disk, d), name, 0) != -1
    ensures k == FindName(Entries(disk, d), name, 0) && 0 <= k < |Entries(disk, d)| && i == Entries(disk, d)[k].inodeId
    ensures 0 <= d < |disk.inodes| && Entries(disk, d)[k].used && Entries(disk, d)[k].name == name && Live(disk, i)
  {
    k := FindName(Entries(disk, d), name, 0);
    i := Entries(disk, d)[k].inodeId;
    assert Named(disk, d);
  }

  lemma DeletedFromFreed(disk: Disk, d: int, k: int, i: int, e: Entry, j: int)
    requires Shaped(disk) && Owned(disk) && Live(disk, i) && 0 <= k < |Entries(disk, d)| && 0 <= d < |disk.inodes|
    requires Entries(disk, d)[k].used && Entries(disk, d)[k].inodeId == i && !e.used
    ensures var links := Links(WithEntry(Freed(disk, i), d, k, e), j) + Sum(Naming(Entries(disk, i), j));
            if d == i then links == Links(disk, j) && (j == i ==> Sum(Naming(Entries(disk, i), j)) >= 1)
            else links + Names(Entries(disk, d)[k], j) == Links(disk, j)
  {
    var disk1 := Freed(disk, i);
    FreedOwned(disk, i);
    LinksFreed(disk, i, j);
    hide Owned, Links;
    if d == i {
      EntryIsLink(disk, d, k);
      NotADirectory(disk1, d, k, e, j);
    } else {
      assert Entries(disk1, d) == Entries(disk, d);
      LinksWithEntry(disk1, d, k, e, j);
    }
  }

  lemma DeletedFromCounted(disk: Disk, d: int, k: int, i: int, e: Entry, j: int)
    requires Shaped(disk) && Owned(disk) && Live(disk, i) && 0 <= k < |Entries(disk, d)| && 0 <= d < |disk.inodes|
    requires !e.used
    ensures Links(WithEntry(Counting(disk, i, -1), d, k, e), j) + Names(Entries(disk, d)[k], j) == Links(disk, j)
  {
    hide Links;
    var disk1 := Counting(disk, i, -1);
    CountingOwned(disk, i, -1);
    LinksCounting(disk, i, -1, j);
    assert Entries(disk1, d) == Entries(disk, d);
    LinksWithEntry(disk1, d, k, e, j);
  }

  /** A deletion takes the link of its entry, and never gives any. */
  lemma DeletedLinks(disk: Disk, d: int, name: string, j: int) returns (i: int, freed: bool)
    requires Valid(disk) && FindName(Entries(disk, d), name, 0) != -1
    ensures i == Entries(disk, d)[FindName(Entries(disk, d), name, 0)].inodeId && Live(disk, i)
    ensures freed == (disk.inodes[i].refcnt == 1)
    ensures Links(Deleted(disk, d, name), j) + (if j == i then 1 else 0) <= Links(disk, j)
  {
    hide Owned, Shaped, Links, FindName, Named;
    var k;
    k, i := DeletedEntry(disk, d, name);
    freed := disk.inodes[i].refcnt == 1;
    var e := Entries(disk, d)[k];
    if freed {
      DeletedFromFreed(disk, d, k, i, e.(used := false), j);
    } else {
      DeletedFromCounted(disk, d, k, i, e.(used := false), j);
    }
  }

  /** What a deletion does to the inodes. */
  lemma DeletedInodes(disk: Disk, d: int, name: string, j: int)
    requires Valid(disk) && FindName(Entries(disk, d), name, 0) != -1
    ensures var i, disk' := Entries(disk, d)[FindName(Entries(disk, d), name, 0)].inodeId, Deleted(disk, d, name);
            && Live(disk, i) && |disk'.inodes| == |disk.inodes|
            && (Live(disk', j) <==> Live(disk, j) && !(disk.inodes[i].refcnt == 1 && j == i))
            && (Live(disk', j) ==>
                  disk'.inodes[j] == disk.inodes[j].(refcnt := disk.inodes[j].refcnt - if j == i then 1 else 0))
  {
    hide Links;
    var k, i := DeletedEntry(disk, d, name);
  }

  /** Writing to the block of an inode that is gone changes no directory. */
  lemma NotADirectory(disk: Disk, d: int, k: int, e: Entry, j: int)
    requires Shaped(disk) && Owned(disk) && 0 <= d < |disk.inodes| && disk.inodes[d].kind.Empty?
    requires 0 <= disk.inodes[d].blockId < |disk.taken| && !disk.taken[disk.inodes[d].blockId]
    ensures Links(WithEntry(disk, d, k, e), j) == Links(disk, j)
  {
    var disk' := WithEntry(disk, d, k, e);
    forall l | 0 <= l < |disk.inodes|
      ensures Entries(disk', l) == Entries(disk, l)
    {
      assert Live(disk, l) ==> Owns(disk, l, disk.inodes[l].blockId);
    }
    LinksSame(disk, disk', j);
  }

  lemma DeletedOwned(disk: Disk, d: int, name: string)
    requires Valid(disk)
    ensures Shaped(Deleted(disk, d, name)) && Owned(Deleted(disk, d, name))
  {
    hide Links;
    if FindName(Entries(disk, d), name, 0) != -1 {
      var k, i := DeletedEntry(disk, d, name);
      var e := Entries(disk, d)[k].(used := false);
      if disk.inodes[i].refcnt == 1 {
        FreedOwned(disk, i);
        WithEntryOwned(Freed(disk, i), d, k, e);
      } else {
        CountingOwned(disk, i, -1);
        WithEntryOwned(Counting(disk, i, -1), d, k, e);
      }
    }
  }

  lemma DeletedEntries(disk: Disk, d: int, name: string, j: int)
    requires Valid(disk) && FindName(Entries(disk, d), name, 0) != -1 && 0 <= j < |disk.inodes|
    ensures var k, es, disk' := FindName(Entries(disk, d), name, 0), Entries(disk, d), Deleted(disk, d, name);
            && k < |es|
            && Entries(disk', j) == if !Live(disk', j) then []
                                    else if j == d then es[k := es[k].(used := false)]
                                    else Entries(disk, j)
  {
    hide Links, Named;
    DeletedInodes(disk, d, name, j);
    var k, i := DeletedEntry(disk, d, name);
    assert Live(disk, j) ==> Owns(disk, j, disk.inodes[j].blockId);
    assert Live(disk, d);
  }

  lemma DeletedNamed(disk: Disk, d: int, name: string)
    requires Valid(disk) && FindName(Entries(disk, d), name, 0) != -1
    ensures AllNamed(Deleted(disk, d, name))
  {
    hide Deleted, Links, Owned, Shaped, Entries, FindName, Freed, WithEntry, Counting;
    var disk' := Deleted(disk, d, name);
    var k, i := DeletedEntry(disk, d, name);
    DeletedInodes(disk, d, name, i);
    var _, freed := DeletedLinks(disk, d, name, i);
    forall j | 0 <= j < |disk'.inodes|
      ensures Named(disk', j)
    {
      assert Named(disk, j);
      DeletedEntries(disk, d, name, j);
      var es := Entries(disk', j);
      forall l | 0 <= l < |es| && es[l].used
        ensures Live(disk', es[l].inodeId)
      {
        DeletedInodes(disk, d, name, es[l].inodeId);
        EntryIsLink(disk', j, l);
      }
    }
  }

  /** The root outlives every deletion. */
  lemma RootNotDeleted(disk: Disk, d: int, name: string)
    requires Valid(disk) && FindName(Entries(disk, d), name, 0) != -1
    ensures Live(Deleted(disk, d, name), 0) && Deleted(disk, d, name).inodes[0].kind.Dir?
  {
    hide Owned, Deleted, Links, Named, FindName;
    assert Live(disk, 0);
    var k, i := DeletedEntry(disk, d, name);
    EntryIsLink(disk, d, k);
    DeletedInodes(disk, d, name, 0);
  }

  /** No directory goes that has any other entry. */
  ghost predicate Clean(disk: Disk, d: int, name: string) {
    var k := FindName(Entries(disk, d), name, 0);
    k != -1 ==>
      var i := Entries(disk, d)[k].inodeId;
      Live(disk, i) && disk.inodes[i].refcnt == 1 ==>
        forall l :: 0 <= l < |Entries(disk, i)| && Entries(disk, i)[l].used ==> i == d && l == k
  }

  lemma OneUsed(es: seq<Entry>, k: nat, j: int)
    requires k < |es| && forall l :: 0 <= l < |es| && es[l].used ==> l == k
    ensures Sum(Naming(es, j)) == Names(es[k], j)
  {
    var cleared := es[k := es[k].(used := false)];
    NoneUsed(cleared, j);
    assert Naming(cleared, j) == Naming(es, j)[k := 0];
    SumUpdate(Naming(es, j), k, 0);
  }

  lemma CleanLinks(disk: Disk, d: int, name: string, j: int)
    requires Valid(disk) && FindName(Entries(disk, d), name, 0) != -1 && Clean(disk, d, name)
    ensures var i := Entries(disk, d)[FindName(Entries(disk, d), name, 0)].inodeId;
            Links(Deleted(disk, d, name), j) + (if j == i then 1 else 0) == Links(disk, j)
  {
    hide Owned, Shaped, Links, FindName, Named;
    var k, i := DeletedEntry(disk, d, name);
    var e := Entries(disk, d)[k];
    if disk.inodes[i].refcnt == 1 {
      DeletedFromFreed(disk, d, k, i, e.(used := false), j);
      if i == d {
        OneUsed(Entries(disk, i), k, j);
      } else {
        NoneUsed(Entries(disk, i), j);
      }
    } else {
      DeletedFromCounted(disk, d, k, i, e.(used := false), j);
    }
  }

  /** Two entries naming one inode are two links. */
  lemma TwoLinks(disk: Disk, d: nat, k: nat, d': nat, l: nat)
    requires Shaped(disk) && Owned(disk) && k < |Entries(disk, d)| && l < |Entries(disk, d')| && d < |disk.inodes|
    requires d' < |disk.inodes|
    requires Entries(disk, d)[k].used && Entries(disk, d')[l].used && (d != d' || k != l)
    requires Entries(disk, d)[k].inodeId == Entries(disk, d')[l].inodeId
    ensures Links(disk, Entries(disk, d)[k].inodeId) >= 2
  {
    hide Owned, Links, Shaped;
    var e := Entries(disk, d)[k];
    var disk' := WithEntry(disk, d, k, e.(used := false));
    LinksWithEntry(disk, d, k, e.(used := false), e.inodeId);
    EntriesWithEntry(disk, d, k, e.(used := false), d');
    EntryIsLink(disk', d', l);
  }

  /** An entry of a directory that goes leaves its inode with a count too high. */
  lemma UncleanNotExact(disk: Disk, d: int, name: string)
    requires Valid(disk) && Exact(disk) && FindName(Entries(disk, d), name, 0) != -1 && !Clean(disk, d, name)
    ensures !Exact(Deleted(disk, d, name))
  {
    hide Owned, Shaped, Links, FindName, Deleted;
    var k, i := DeletedEntry(disk, d, name);
    var l :| 0 <= l < |Entries(disk, i)| && Entries(disk, i)[l].used && !(i == d && l == k);
    var x := Entries(disk, i)[l].inodeId;
    assert Named(disk, i);
    if x == i {
      TwoLinks(disk, d, k, i, l);
      assert false;
    }
    DeletedInodes(disk, d, name, x);
    EntryIsLink(disk, i, l);
    FreedLinks(disk, d, name, x);
  }

  lemma FreedLinks(disk: Disk, d: int, name: string, x: int)
    requires Valid(disk) && FindName(Entries(disk, d), name, 0) != -1
    ensures var i := Entries(disk, d)[FindName(Entries(disk, d), name, 0)].inodeId;
            Live(disk, i) && (disk.inodes[i].refcnt == 1 && x != i ==>
              Links(Deleted(disk, d, name), x) + Sum(Naming(Entries(disk, i), x)) == Links(disk, x))
  {
    hide Owned, Shaped, Links, FindName, Named;
    var k, i := DeletedEntry(disk, d, name);
    if disk.inodes[i].refcnt == 1 {
      DeletedFromFreed(disk, d, k, i, Entries(disk, d)[k].(used := false), x);
    }
  }

  /** A count that is too high never reaches 0, so its inode is not freed, and stays too high. */
  lemma DeletedLeaks(disk: Disk, d: int, name: string, j: int)
    requires Valid(disk) && FindName(Entries(disk, d), name, 0) != -1 && Leaks(disk, j)
    ensures Leaks(Deleted(disk, d, name), j)
  {
    hide Owned, Shaped, Named, Links, Deleted;
    var k, i := DeletedEntry(disk, d, name);
    EntryIsLink(disk, d, k);
    DeletedInodes(disk, d, name, j);
    var i', freed := DeletedLinks(disk, d, name, j);
  }

  /** Deleting keeps all of it; counts are exact after it just when they were and the deletion is clean. */
  lemma DeletedValid(disk: Disk, d: int, name: string)
    requires Valid(disk)
    ensures Valid(Deleted(disk, d, name))
    ensures Exact(Deleted(disk, d, name)) <==> Exact(disk) && Clean(disk, d, name)
  {
    hide Owned, Shaped, Named, Links, FindName, Entries, Clean;
    if FindName(Entries(disk, d), name, 0) != -1 {
      var disk' := Deleted(disk, d, name);
      DeletedOwned(disk, d, name);
      DeletedNamed(disk, d, name);
      RootNotDeleted(disk, d, name);
      forall j | Live(disk', j)
        ensures disk'.inodes[j].refcnt >= Links(disk', j) + RootLink(j) && disk'.inodes[j].refcnt >= 1
        ensures Exact(disk) && Clean(disk, d, name) ==> disk'.inodes[j].refcnt == Links(disk', j) + RootLink(j)
      {
        DeletedInodes(disk, d, name, j);
        var i, freed := DeletedLinks(disk, d, name, j);
        if Clean(disk, d, name) {
          CleanLinks(disk, d, name, j);
        }
      }
      if !Exact(disk) {
        var j := SomeLeak(disk);
        DeletedLeaks(disk, d, name, j);
      } else if !Clean(disk, d, name) {
        UncleanNotExact(disk, d, name);
      }
    } else {
      NothingToDelete(disk, d, name);
    }
  }

  lemma NothingToDelete(disk: Disk, d: int, name: string)
    requires FindName(Entries(disk, d), name, 0) == -1
    ensures Deleted(disk, d, name) == disk && Clean(disk, d, name)
  {
  }
}
