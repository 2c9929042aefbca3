/**
 The block filesystem: inodes, block headers and directory blocks read, changed and written back.
 */
module Blkfs {
  import opened Basics
  import opened BlkfsSpec
  import opened BlkfsMeaning
  import opened BlkfsRuns

  class FileSystem {
    const inodeBlockNum: nat
    const totalBlockNum: nat
    const inodes: array<Inode>
    const taken: array<bool>
    const data: array<seq<Entry>>

    ghost function State(): Disk
      reads inodes, taken, data
    {
      Disk(inodeBlockNum, inodes[..], taken[..], data[..])
    }

    ghost predicate Shape()
      reads inodes, taken, data
    {
      && inodes.Length == inodeBlockNum * INODE_PER_BLOCK && taken.Length == data.Length == totalBlockNum
      && Shaped(State())
    }

    /** `fs_init` on a device that holds no filesystem yet, whatever it does hold. */
    constructor Format(inodes: array<Inode>, taken: array<bool>, data: array<seq<Entry>>)
      requires taken.Length == data.Length && InodeBlocks(taken.Length) < taken.Length
      requires inodes.Length == InodeBlocks(taken.Length) * INODE_PER_BLOCK
      requires forall b :: 0 <= b < data.Length ==> |data[b]| == CHILD_PER_DIR
      modifies inodes, taken, data
      ensures this.inodes == inodes && this.taken == taken && this.data == data
      ensures Shape() && Fresh(State()) && Valid(State())
    {
      hide Valid, Exact, InodeBlocks;
      this.inodeBlockNum, this.totalBlockNum := InodeBlocks(taken.Length), taken.Length;
      this.inodes, this.taken, this.data := inodes, taken, data;
      new;
      EnoughInodes(totalBlockNum);
      SomeInodeBlock(totalBlockNum);
      for i := 0 to totalBlockNum
        invariant data[..] == old(data[..]) && forall b :: 0 <= b < i ==> !taken[b]
      {
        taken[i] := false;
      }
      for i := 0 to inodeBlockNum
        invariant data[..] == old(data[..]) && forall b :: 0 <= b < totalBlockNum ==> (taken[b] <==> b < i)
        invariant forall k :: 0 <= k < i * INODE_PER_BLOCK ==> inodes[k].kind.Empty?
      {
        taken[i] := true;
        InodeBlockInit(i);
      }
      assert forall b :: 0 <= b < data.Length ==> data[b] == old(data[..])[b];
      assert FreeBlock(taken[..], inodeBlockNum) == inodeBlockNum && EmptyInode(inodes[..], 0) == 0;
      var rootdir := InodeAlloc(Dir);
      var root := InodeGet(rootdir);
      var inode := root.value.(refcnt := root.value.refcnt + 1);
      InodeSet(inode.id, inode);
      DirBlockInit(inode.blockId);
      FreshValid(State());
    }

    /** `inode_block_init`: the inodes of one block become empty. */
    method InodeBlockInit(blockId: nat)
      requires inodes.Length == inodeBlockNum * INODE_PER_BLOCK && blockId < inodeBlockNum
      modifies inodes
      ensures forall k :: 0 <= k < inodes.Length ==>
                inodes[k] == if blockId * INODE_PER_BLOCK <= k < blockId * INODE_PER_BLOCK + INODE_PER_BLOCK
                             then old(inodes[k]).(kind := Empty) else old(inodes[k])
    {
      var i := 0;
      while i < INODE_PER_BLOCK
        invariant 0 <= i <= INODE_PER_BLOCK
        invariant forall k :: 0 <= k < inodes.Length ==>
                    inodes[k] == if blockId * INODE_PER_BLOCK <= k < blockId * INODE_PER_BLOCK + i
                                 then old(inodes[k]).(kind := Empty) else old(inodes[k])
      {
        var id := blockId * INODE_PER_BLOCK + i;
        inodes[id] := inodes[id].(kind := Empty);
        i := i + 1;
      }
    }

    /** `block_alloc`: the first free data block, or -1. */
    method BlockAlloc() returns (res: int)
      requires Shape()
      modifies taken
      ensures res == FreeBlock(old(taken[..]), inodeBlockNum)
      ensures taken[..] == if res == -1 then old(taken[..]) else old(taken[..])[res := true]
    {
      res := -1;
      var i := inodeBlockNum;
      while i < totalBlockNum
        invariant inodeBlockNum <= i <= totalBlockNum && taken[..] == old(taken[..])
        invariant FreeBlock(taken[..], inodeBlockNum) == FreeBlock(taken[..], i)
      {
        if !taken[i] {
          taken[i] := true;
          return i;
        }
        i := i + 1;
      }
    }

    /** `block_free`. */
    method BlockFree(blockId: int)
      requires Shape() && 0 <= blockId < totalBlockNum && taken[blockId]
      modifies taken
      ensures taken[..] == old(taken[..])[blockId := false]
    {
      taken[blockId] := false;
    }

    /** `inode_get`: nothing for an empty inode. */
    method InodeGet(id: int) returns (res: Option<Inode>)
      requires 0 <= id < inodes.Length
      ensures res == if inodes[id].kind.Empty? then None else Some(inodes[id])
    {
      if inodes[id].kind.Empty? {
        res := None;
      } else {
        res := Some(inodes[id]);
      }
    }

    method InodeSet(id: int, node: Inode)
      requires 0 <= id < inodes.Length
      modifies inodes
      ensures inodes[..] == old(inodes[..])[id := node]
    {
      inodes[id] := node;
    }

    /** `dir_block_init`. */
    method DirBlockInit(blockId: int)
      requires Shape() && 0 <= blockId < totalBlockNum
      modifies data
      ensures data[..] == old(data[..])[blockId := Cleared(old(data[blockId]))]
    {
      var entries := data[blockId];
      var i := 0;
      while i < CHILD_PER_DIR
        invariant 0 <= i <= CHILD_PER_DIR && |entries| == CHILD_PER_DIR
        invariant forall k :: 0 <= k < CHILD_PER_DIR ==>
                    entries[k] == if k < i then old(data[blockId])[k].(used := false) else old(data[blockId])[k]
      {
        entries := entries[i := entries[i].(used := false)];
        i := i + 1;
      }
      data[blockId] := entries;
      assert data[blockId] == Cleared(old(data[blockId]));
    }

    /**
     `inode_alloc`: the first empty inode, or -1, with a block of its own or block -1; the table is
     gone through block by block.
     */
    method InodeAlloc(kind: Kind) returns (res: int)
      requires Shape() && !kind.Empty?
      modifies inodes, taken, data
      ensures (State(), res) == Allocated(old(State()), kind)
    {
      res := -1;
      var bk := 0;
      while bk < inodeBlockNum
        invariant 0 <= bk <= inodeBlockNum && res == -1
        invariant State() == old(State())
        invariant EmptyInode(inodes[..], 0) == EmptyInode(inodes[..], bk * INODE_PER_BLOCK)
      {
        var i := 0;
        while i < INODE_PER_BLOCK
          invariant 0 <= i <= INODE_PER_BLOCK && res == -1
          invariant State() == old(State())
          invariant bk * INODE_PER_BLOCK + INODE_PER_BLOCK <= inodes.Length
          invariant EmptyInode(inodes[..], 0) == EmptyInode(inodes[..], bk * INODE_PER_BLOCK + i)
        {
          var id := bk * INODE_PER_BLOCK + i;
          if inodes[id].kind.Empty? {
            var b := BlockAlloc();
            inodes[id] := Inode(kind, id, b, 0, 0);
            if b != -1 && kind.Dir? {
              DirBlockInit(b);
            }
            return id;
          }
          i := i + 1;
        }
        bk := bk + 1;
      }
    }

    /** `inode_bfree`: gives back the inode and its block, if it has one. */
    method InodeBfree(id: int)
      requires Shape() && 0 <= id < inodes.Length && !inodes[id].kind.Empty?
      requires inodes[id].blockId == -1 || (0 <= inodes[id].blockId < totalBlockNum && taken[inodes[id].blockId])
      modifies inodes, taken
      ensures State() == Freed(old(State()), id)
    {
      inodes[id] := inodes[id].(kind := Empty);
      if inodes[id].blockId != -1 {
        BlockFree(inodes[id].blockId);
      }
    }

    /** `direntry_find_name`. */
    static method DirentryFindName(items: seq<Entry>, name: string) returns (ind: int)
      requires |items| == CHILD_PER_DIR
      ensures ind == FindName(items, name, 0)
    {
      var i := 0;
      while i < CHILD_PER_DIR
        invariant 0 <= i <= CHILD_PER_DIR && FindName(items, name, 0) == FindName(items, name, i)
      {
        if items[i].used && name == items[i].name {
          return i;
        }
        i := i + 1;
      }
      ind := -1;
    }

    /** `direntry_find_free`. */
    static method DirentryFindFree(items: seq<Entry>) returns (ind: int)
      requires |items| == CHILD_PER_DIR
      ensures ind == FindFree(items, 0)
    {
      var i := 0;
      while i < CHILD_PER_DIR
        invariant 0 <= i <= CHILD_PER_DIR && FindFree(items, 0) == FindFree(items, i)
      {
        if !items[i].used {
          return i;
        }
        i := i + 1;
      }
      ind := -1;
    }

    /** `get_filedir`. */
    method GetFiledir(dir: Inode, name: string, ghost d: int) returns (res: int)
      requires Shape() && Valid(State()) && Readable(State(), d) && dir == inodes[d] && |name| < INODE_NAME_LEN - 1
      ensures Lookup(State(), d, name) == if res == -1 then None else Some(res)
    {
      DirectoryBlock(State(), d);
      var items := data[dir.blockId];
      var ind := DirentryFindName(items, name);
      res := -1;
      if ind != -1 {
        res := items[ind].inodeId;
        assert Named(State(), d);
      }
    }

    /** `create_filedir`. */
    method CreateFiledir(dir: Inode, target: Target, name: string, ghost d: int) returns (res: int)
      requires Shape() && Valid(State()) && 0 <= d < inodes.Length && dir == inodes[d]
      requires CanMake(State(), d, target, name)
      requires if target.New? then !target.kind.Empty? else Live(State(), target.id)
      modifies inodes, taken, data
      ensures (State(), res) == Created(old(State()), d, target, name)
    {
      hide Valid, Links, Prepared;
      DirectoryBlock(State(), d);
      var items := data[dir.blockId];
      res := -1;
      var lind := DirentryFindName(items, name);
      if lind == -1 {
        var ind := DirentryFindFree(items);
        if ind != -1 {
          res := Prepare(target);
          ghost var disk1 := State();
          PreparedLeavesBlock(old(State()), d, target);
          items := items[ind := Entry(true, name, res)];
          data[dir.blockId] := items;
          assert State() == WithEntry(disk1, d, ind, Entry(true, name, res));
          CreatedIsPrepared(old(State()), d, target, name);
        }
      }
    }

    /** Another link to an inode. */
    method AddLink(id: int)
      requires Shape() && 0 <= id < inodes.Length && !inodes[id].kind.Empty? && inodes[id].id == id
      modifies inodes
      ensures State() == Counting(old(State()), id, 1) && Shape()
    {
      var node := InodeGet(id);
      var inode := node.value.(refcnt := node.value.refcnt + 1);
      InodeSet(inode.id, inode);
    }

    /** The inode of a new entry, counted once more. */
    method Prepare(target: Target) returns (res: int)
      requires Shape() && Valid(State()) && Ready(State(), target)
      modifies inodes, taken, data
      ensures Shape() && (State(), res) == Prepared(old(State()), target)
    {
      hide Owned, Links, Named, Counted;
      match target
      case Existing(linkId) =>
        OwnedBlock(State(), linkId);
        res := linkId;
        AddLink(res);
      case New(kind) =>
        AllocatedOwned(State(), kind);
        res := InodeAlloc(kind);
        AddLink(res);
    }

    /** `delete_filedir`. */
    method DeleteFiledir(dir: Inode, name: string, ghost d: int)
      requires Shape() && Valid(State()) && Readable(State(), d) && dir == inodes[d]
      modifies inodes, taken, data
      ensures State() == Deleted(old(State()), d, name)
    {
      hide Valid, AllNamed, Owned, Links, FindName, WithEntry;
      DirectoryBlock(State(), d);
      AreNamed(State());
      ghost var disk0 := State();
      var items := data[dir.blockId];
      var ind := DirentryFindName(items, name);
      if ind != -1 {
        ghost var k, i := DeletedEntry(State(), d, name);
        OwnedBlock(State(), i);
        var node := InodeGet(items[ind].inodeId);
        var inode := node.value.(refcnt := node.value.refcnt - 1);
        if inode.refcnt == 0 {
          InodeBfree(inode.id);
        } else {
          InodeSet(inode.id, inode);
        }
        ghost var disk1 := State();
        assert disk1 == if inode.refcnt == 0 then Freed(disk0, i) else Counting(disk0, i, -1);
        items := items[ind := items[ind].(used := false)];
        data[dir.blockId] := items;
        assert State() == disk1.(data := disk1.data[dir.blockId := items]);
        WrittenEntry(disk0, disk1, d, ind, items);
      }
    }

    /** `get_path_inode`: the inode a path leads to, or nothing. */
    method GetPathInode(path: seq<string>) returns (node: Option<Inode>)
      requires Shape() && Valid(State()) && !WalkFrom(State(), 0, path).Panics?
      ensures match WalkFrom(State(), 0, path)
              case Found(i) => Live(State(), i) && node == Some(inodes[i]) && inodes[i].id == i
              case Missing => node == None
              case Panics => false
    {
      hide Valid, Lookup, Links;
      ghost var id := 0;
      RootIsLive(State());
      var bnode := inodes[0];
      var i := 0;
      assert path[0..] == path;
      while i < |path|
        invariant 0 <= i <= |path| && Live(State(), id) && bnode == inodes[id]
        invariant WalkFrom(State(), id, path[i..]) == WalkFrom(State(), 0, path)
      {
        assert path[i..][0] == path[i] && path[i..][1..] == path[i + 1..];
        var chi := GetFiledir(bnode, path[i], id);
        if chi == -1 {
          return None;
        }
        NamesLive(State(), id, path[i]);
        var c := InodeGet(chi);
        bnode, id := c.value, chi;
        i := i + 1;
      }
      LiveId(State(), id);
      node := Some(bnode);
    }

    /** `fs_mkdir`. */
    method Mkdir(dir: seq<string>, name: string) returns (res: int)
      requires Shape() && Valid(State()) && Allowed(State(), Op.Mkdir(dir, name))
      modifies inodes, taken, data
      ensures (State(), res) == Step(old(State()), Op.Mkdir(dir, name))
      ensures Done(old(State()), Op.Mkdir(dir, name), State(), res)
      ensures Valid(State())
    {
      hide Valid, Created, WalkFrom, Shape, CanMake, Done;
      StepValid(State(), Op.Mkdir(dir, name));
      StepDone(State(), Op.Mkdir(dir, name));
      var node := GetPathInode(dir);
      res := -1;
      if name != "" && node.Some? && node.value.kind.Dir? {
        res := CreateFiledir(node.value, New(Dir), name, node.value.id);
        res := if res == -1 then -1 else 0;
      }
    }

    /** Opening for writing a file that may not exist: looked up first, then made. */
    method OpenWrite(dir: seq<string>, name: string) returns (res: int)
      requires Shape() && Valid(State()) && Allowed(State(), Op.OpenWrite(dir, name))
      modifies inodes, taken, data
      ensures (State(), res) == Step(old(State()), Op.OpenWrite(dir, name))
      ensures Done(old(State()), Op.OpenWrite(dir, name), State(), res)
      ensures Valid(State())
    {
      hide Valid, Created, WalkFrom, Shape, CanMake, Done;
      StepValid(State(), Op.OpenWrite(dir, name));
      StepDone(State(), Op.OpenWrite(dir, name));
      var full := GetPathInode(Child(dir, name));
      res := -1;
      if full.Some? {
        res := if full.value.kind.File? then 0 else -1;
      } else if name != "" {
        var par := GetPathInode(dir);
        if par.Some? {
          ParentIsDir(State(), par.value.id, New(File), name);
          var made := CreateFiledir(par.value, New(File), name, par.value.id);
          res := if made == -1 then -1 else 0;
        }
      }
    }

    /** `fs_link`. */
    method LinkTo(oldPath: seq<string>, dir: seq<string>, name: string) returns (res: int)
      requires Shape() && Valid(State()) && Allowed(State(), Op.Link(oldPath, dir, name))
      modifies inodes, taken, data
      ensures (State(), res) == Step(old(State()), Op.Link(oldPath, dir, name))
      ensures Done(old(State()), Op.Link(oldPath, dir, name), State(), res)
      ensures Valid(State())
    {
      hide Valid, Created, WalkFrom, Shape, CanMake, Done;
      StepValid(State(), Op.Link(oldPath, dir, name));
      StepDone(State(), Op.Link(oldPath, dir, name));
      var src := GetPathInode(oldPath);
      res := -1;
      if src.Some? {
        var newdir := GetPathInode(dir);
        if newdir.Some? {
          ParentIsDir(State(), newdir.value.id, Existing(src.value.id), name);
          var made := CreateFiledir(newdir.value, Existing(src.value.id), name, newdir.value.id);
          res := if made == -1 then -1 else 0;
        }
      }
    }

    /** `fs_rm`. */
    method Rm(dir: seq<string>, name: string) returns (res: int)
      requires Shape() && Valid(State()) && Allowed(State(), Op.Rm(dir, name))
      modifies inodes, taken, data
      ensures (State(), res) == Step(old(State()), Op.Rm(dir, name))
      ensures Done(old(State()), Op.Rm(dir, name), State(), res)
      ensures Valid(State())
    {
      hide Valid, Deleted, WalkFrom, Shape, Done;
      StepValid(State(), Op.Rm(dir, name));
      StepDone(State(), Op.Rm(dir, name));
      var node := GetPathInode(dir);
      res := -1;
      if name != "" && node.Some? && node.value.kind.Dir? {
        DeleteFiledir(node.value, name, node.value.id);
        res := 0;
      }
    }
  }

  /** Writing back a directory's block with one entry unused. */
  lemma WrittenEntry(disk: Disk, disk1: Disk, d: int, k: int, items: seq<Entry>)
    requires Valid(disk) && Readable(disk, d) && |disk1.inodes| == |disk.inodes| && disk1.data == disk.data
    requires disk1.inodes[d].blockId == disk.inodes[d].blockId && 0 <= k < |Entries(disk, d)|
    requires items == Entries(disk, d)[k := Entries(disk, d)[k].(used := false)]
    ensures 0 <= disk.inodes[d].blockId < |disk.data|
    ensures disk1.(data := disk1.data[disk.inodes[d].blockId := items])
            == WithEntry(disk1, d, k, Entries(disk, d)[k].(used := false))
  {
    DirectoryBlock(disk, d);
  }

  lemma DirectoryBlock(disk: Disk, d: int)
    requires Valid(disk) && Readable(disk, d)
    ensures 0 <= disk.inodes[d].blockId < |disk.data| && Entries(disk, d) == disk.data[disk.inodes[d].blockId]
    ensures |Entries(disk, d)| == CHILD_PER_DIR
  {
    assert Live(disk, d);
  }

  lemma CreatedIsPrepared(disk: Disk, d: int, target: Target, name: string)
    requires FindName(Entries(disk, d), name, 0) == -1 && FindFree(Entries(disk, d), 0) != -1
    ensures var (disk1, i) := Prepared(disk, target);
            Created(disk, d, target, name)
            == (WithEntry(disk1, d, FindFree(Entries(disk, d), 0), Entry(true, name, i)), i)
  {
  }

  lemma OwnedBlock(disk: Disk, i: int)
    requires Valid(disk) && Live(disk, i)
    ensures disk.inodes[i].id == i
    ensures var b := disk.inodes[i].blockId; b == -1 || (0 <= b < |disk.taken| && disk.taken[b])
  {
    assert Owns(disk, i, disk.inodes[i].blockId);
  }

  /** Preparing a new inode leaves the directory's block as it was read. */
  lemma PreparedLeavesBlock(disk: Disk, d: int, target: Target)
    requires Valid(disk) && Ready(disk, target) && Readable(disk, d)
    ensures var disk1, b := Prepared(disk, target).0, disk.inodes[d].blockId;
            && |disk1.inodes| == |disk.inodes| && |disk1.data| == |disk.data|
            && disk1.inodes[d].blockId == b && 0 <= b < |disk.data| && disk1.data[b] == disk.data[b]
  {
    assert Live(disk, d);
    PreparedKeeps(disk, target);
    assert Entries(Prepared(disk, target).0, d) == Entries(disk, d);
  }

  lemma ParentIsDir(disk: Disk, d: int, target: Target, name: string)
    requires CanMake(disk, d, target, name)
    ensures IsKind(disk, d, Dir)
  {
  }

  lemma LiveId(disk: Disk, i: int)
    requires Valid(disk) && Live(disk, i)
    ensures disk.inodes[i].id == i
  {
  }
}
