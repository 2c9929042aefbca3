/**
 What the operations of the block filesystem mean to their callers: what they return, what the paths lead to
 afterwards, and what stays as it was.
 */
module BlkfsMeaning {
  import opened Basics
  import opened BlkfsSpec
  import opened BlkfsRuns

  ghost predicate HasRoom(disk: Disk, d: int) {
    exists k :: 0 <= k < |Entries(disk, d)| && !Entries(disk, d)[k].used
  }

  /** Every name other than `name` in directory `d` stands for what it stood for, where its directory is left. */
  ghost predicate OtherNames(disk: Disk, disk': Disk, d: int, name: string) {
    forall j, n :: Live(disk, j) && Live(disk', j) && !(j == d && n == name) ==>
                     Lookup(disk', j, n) == Lookup(disk, j, n)
  }

  /** Every path that led somewhere leads there still. */
  ghost predicate PathsKept(disk: Disk, disk': Disk) {
    forall path :: WalkFrom(disk, 0, path).Found? ==> WalkFrom(disk', 0, path) == WalkFrom(disk, 0, path)
  }

  /** There is a new inode: empty, named once, and with a block that was free, or none. */
  ghost predicate NewInode(disk: Disk, disk': Disk, i: int, kind: Kind) {
    && !Live(disk, i) && |disk'.inodes| == |disk.inodes| && (forall j :: Live(disk', j) <==> Live(disk, j) || j == i)
    && (forall j :: Live(disk, j) ==> disk'.inodes[j] == disk.inodes[j])
    && 0 <= i < |disk'.inodes|
    && var inode := disk'.inodes[i];
       && inode.kind == kind && inode.id == i && inode.refcnt == 1 && inode.size == 0
       && (inode.blockId == -1 || (0 <= inode.blockId < |disk.taken| && !disk.taken[inode.blockId]))
       && forall n :: Lookup(disk', i, n) == None
  }

  /** One count is changed by `delta`; no inode has come or gone. */
  ghost predicate Recounted(disk: Disk, disk': Disk, i: int, delta: int) {
    && Live(disk, i) && |disk'.inodes| == |disk.inodes|
    && disk'.inodes == disk.inodes[i := disk.inodes[i].(refcnt := disk.inodes[i].refcnt + delta)]
  }

  /** Inode `i` is gone, and its block with it. */
  ghost predicate Gone(disk: Disk, disk': Disk, i: int) {
    && Live(disk, i) && !Live(disk', i) && |disk'.inodes| == |disk.inodes| && |disk'.taken| == |disk.taken|
    && (forall j :: 0 <= j < |disk.inodes| && j != i ==> disk'.inodes[j] == disk.inodes[j])
    && (forall b :: 0 <= b < |disk.taken| ==> disk'.taken[b] == (disk.taken[b] && b != disk.inodes[i].blockId))
  }

  /** A new entry is made: the path to it leads to a new inode of that kind. */
  ghost predicate MadeNew(disk: Disk, disk': Disk, dir: seq<string>, name: string, kind: Kind) {
    && WalkFrom(disk', 0, dir + [name]).Found? && NewInode(disk, disk', WalkFrom(disk', 0, dir + [name]).id, kind)
    && WalkFrom(disk, 0, dir).Found? && OtherNames(disk, disk', WalkFrom(disk, 0, dir).id, name)
    && PathsKept(disk, disk')
  }

  /** The entry can be made: the directory is there, the name is new to it, and it has a slot left. */
  ghost predicate Creatable(disk: Disk, dir: seq<string>, name: string) {
    && WalkFrom(disk, 0, dir).Found? && IsKind(disk, WalkFrom(disk, 0, dir).id, Dir)
    && Lookup(disk, WalkFrom(disk, 0, dir).id, name) == None && HasRoom(disk, WalkFrom(disk, 0, dir).id)
  }

  /** What each call promises. */
  ghost predicate Done(disk: Disk, op: Op, disk': Disk, res: int) {
    && (res == 0 || res == -1) && (res == -1 ==> disk' == disk)
    && match op
       case Mkdir(dir, name) =>
         && (res == 0 <==> name != "" && Creatable(disk, dir, name))
         && (res == 0 ==> MadeNew(disk, disk', dir, name, Dir))
       case OpenWrite(dir, name) =>
         var full := WalkFrom(disk, 0, Child(dir, name));
         if full.Found? then disk' == disk && (res == 0 <==> IsKind(disk, full.id, File))
         else
           && (res == 0 <==> name != "" && Creatable(disk, dir, name))
           && (res == 0 ==> MadeNew(disk, disk', dir, name, File))
       case Link(oldPath, dir, name) =>
         var old' := WalkFrom(disk, 0, oldPath);
         && (res == 0 <==> old'.Found? && Creatable(disk, dir, name))
         && (res == 0 ==>
               && WalkFrom(disk', 0, dir + [name]) == WalkFrom(disk', 0, oldPath) == old'
               && Recounted(disk, disk', old'.id, 1) && disk'.taken == disk.taken
               && OtherNames(disk, disk', WalkFrom(disk, 0, dir).id, name) && PathsKept(disk, disk'))
       case Rm(dir, name) =>
         var w := WalkFrom(disk, 0, dir);
         && (res == 0 <==> name != "" && w.Found? && IsKind(disk, w.id, Dir))
         && (res == 0 ==> Removed(disk, disk', w.id, name))
  }

  /** The name stands for nothing now; what it stood for is gone if this was its last entry. */
  ghost predicate Removed(disk: Disk, disk': Disk, d: int, name: string) {
    && Lookup(disk', d, name) == None && OtherNames(disk, disk', d, name)
    && match Lookup(disk, d, name)
       case None => disk' == disk
       case Some(i) =>
         && Live(disk, i)
         && if disk.inodes[i].refcnt == 1 then Gone(disk, disk', i)
            else Recounted(disk, disk', i, -1) && disk'.taken == disk.taken
  }

  // ---- Making entries

  lemma RoomIsFree(disk: Disk, d: int)
    ensures HasRoom(disk, d) <==> FindFree(Entries(disk, d), 0) != -1
  {
    var k := FindFree(Entries(disk, d), 0);
    if k != -1 {
      assert !Entries(disk, d)[k].used;
    }
  }

  /** An entry is made exactly if the name is new and a slot is left. */
  lemma MakeReturns(disk: Disk, d: int, target: Target, name: string)
    requires Valid(disk) && CanMake(disk, d, target, name)
    requires if target.New? then !target.kind.Empty? else Live(disk, target.id)
    ensures var (disk', res) := Make(disk, d, target, name);
            && (res == 0 || res == -1) && (res == -1 ==> disk' == disk)
            && (res == 0 <==> Lookup(disk, d, name) == None && HasRoom(disk, d))
            && (res == 0 ==> Ready(disk, target) && Created(disk, d, target, name).1 != -1)
            && disk' == Created(disk, d, target, name).0
  {
    RoomIsFree(disk, d);
    hide Valid, WithEntry, Counting;
  }

  lemma CreatedFresh(disk: Disk, d: int, kind: Kind, name: string)
    requires Valid(disk) && Ready(disk, New(kind)) && Created(disk, d, New(kind), name).1 != -1
    ensures var (disk', i) := Created(disk, d, New(kind), name); NewInode(disk, disk', i, kind)
  {
    hide Valid, Created, Lookup;
    var (disk', i) := Created(disk, d, New(kind), name);
    CreatedInode(disk, d, kind, name);
    ReadyLive(disk, d, New(kind), name);
    forall n
      ensures Lookup(disk', i, n) == None
    {
      NewNamesNothing(disk, d, kind, name, n);
    }
  }

  lemma NewNamesNothing(disk: Disk, d: int, kind: Kind, name: string, n: string)
    requires Valid(disk) && Ready(disk, New(kind)) && Created(disk, d, New(kind), name).1 != -1
    ensures var (disk', i) := Created(disk, d, New(kind), name); Lookup(disk', i, n) == None
  {
    hide Valid, Created, Lookup, Ready;
    CreatedLookup(disk, d, New(kind), name, Created(disk, d, New(kind), name).1, n);
    ReadyLive(disk, d, New(kind), name);
    NotTheParent(disk, d, New(kind), name);
  }

  lemma NotTheParent(disk: Disk, d: int, target: Target, name: string)
    requires Valid(disk) && Ready(disk, target) && Created(disk, d, target, name).1 != -1
    ensures Live(disk, d)
  {
    NotItself(disk, d, target, name);
  }

  lemma CreatedInode(disk: Disk, d: int, kind: Kind, name: string)
    requires Valid(disk) && Ready(disk, New(kind)) && Created(disk, d, New(kind), name).1 != -1
    ensures var (disk', i) := Created(disk, d, New(kind), name);
            && 0 <= i < |disk.inodes| == |disk'.inodes| && disk.inodes[i].kind.Empty?
            && disk'.inodes == disk.inodes[i := disk'.inodes[i]]
            && disk'.inodes[i] == Inode(kind, i, disk'.inodes[i].blockId, 1, 0)
            && var b := disk'.inodes[i].blockId; b == -1 || (0 <= b < |disk.taken| && !disk.taken[b])
  {
    hide Valid, FindName, FindFree;
  }

  lemma CreatedOthers(disk: Disk, d: int, target: Target, name: string)
    requires Valid(disk) && Ready(disk, target) && Created(disk, d, target, name).1 != -1
    ensures var disk' := Created(disk, d, target, name).0; OtherNames(disk, disk', d, name) && PathsKept(disk, disk')
  {
    hide Valid, Created, Lookup, Ready, WalkFrom;
    var disk' := Created(disk, d, target, name).0;
    forall j, n | Live(disk, j) && !(j == d && n == name)
      ensures Lookup(disk', j, n) == Lookup(disk, j, n)
    {
      CreatedLookup(disk, d, target, name, j, n);
      ReadyLive(disk, d, target, name);
    }
    RootIsLive(disk);
    forall path | WalkFrom(disk, 0, path).Found?
      ensures WalkFrom(disk', 0, path) == WalkFrom(disk, 0, path)
    {
      WalkKept(disk, d, target, name, 0, path);
    }
  }

  /** A new directory or file. */
  lemma MadeNewOne(disk: Disk, dir: seq<string>, kind: Kind, name: string)
    requires Valid(disk) && Ready(disk, New(kind)) && WalkFrom(disk, 0, dir).Found? && |name| < INODE_NAME_LEN - 1
    requires Created(disk, WalkFrom(disk, 0, dir).id, New(kind), name).1 != -1
    ensures MadeNew(disk, Created(disk, WalkFrom(disk, 0, dir).id, New(kind), name).0, dir, name, kind)
  {
    hide Valid, Created, WalkFrom, NewInode, OtherNames, PathsKept, Ready;
    var d := WalkFrom(disk, 0, dir).id;
    MadeIsFound(disk, dir, New(kind), name);
    CreatedFresh(disk, d, kind, name);
    CreatedOthers(disk, d, New(kind), name);
  }

  lemma LinkedOne(disk: Disk, i: int, d: int, name: string)
    requires Live(disk, i) && Created(disk, d, Existing(i), name).1 != -1
    ensures var (disk', j) := Created(disk, d, Existing(i), name);
            j == i && Recounted(disk, disk', i, 1) && disk'.taken == disk.taken
  {
    hide FindName, FindFree;
  }

  // ---- The calls

  lemma MkdirDone(disk: Disk, dir: seq<string>, name: string)
    requires Valid(disk) && Allowed(disk, Mkdir(dir, name))
    ensures var (disk', res) := Step(disk, Mkdir(dir, name)); Done(disk, Mkdir(dir, name), disk', res)
  {
    hide Valid, WalkFrom, Make, MadeNew, CanMake, Lookup, HasRoom, Created;
    var w := WalkFrom(disk, 0, dir);
    if name != "" && w.Found? && IsKind(disk, w.id, Dir) {
      ShortName(disk, w.id, New(Dir), name);
      MakeReturns(disk, w.id, New(Dir), name);
      if Make(disk, w.id, New(Dir), name).1 == 0 {
        MadeNewOne(disk, dir, Dir, name);
      }
    }
  }

  lemma ShortName(disk: Disk, d: int, target: Target, name: string)
    requires CanMake(disk, d, target, name)
    ensures |name| < INODE_NAME_LEN - 1 && IsKind(disk, d, Dir)
  {
  }

  lemma OpenWriteDone(disk: Disk, dir: seq<string>, name: string)
    requires Valid(disk) && Allowed(disk, OpenWrite(dir, name))
    ensures var (disk', res) := Step(disk, OpenWrite(dir, name)); Done(disk, OpenWrite(dir, name), disk', res)
  {
    hide Valid, WalkFrom, Make, MadeNew, CanMake, Lookup, HasRoom, Created;
    var full, w := WalkFrom(disk, 0, Child(dir, name)), WalkFrom(disk, 0, dir);
    if !full.Found? && name != "" && w.Found? {
      ShortName(disk, w.id, New(File), name);
      MakeReturns(disk, w.id, New(File), name);
      if Make(disk, w.id, New(File), name).1 == 0 {
        MadeNewOne(disk, dir, File, name);
      }
    }
  }

  lemma LinkDone(disk: Disk, oldPath: seq<string>, dir: seq<string>, name: string)
    requires Valid(disk) && Allowed(disk, Link(oldPath, dir, name))
    ensures var (disk', res) := Step(disk, Link(oldPath, dir, name)); Done(disk, Link(oldPath, dir, name), disk', res)
  {
    hide Valid, WalkFrom, Make, Recounted, CanMake, Lookup, HasRoom, Created, OtherNames, PathsKept;
    var src, w := WalkFrom(disk, 0, oldPath), WalkFrom(disk, 0, dir);
    if src.Found? && w.Found? {
      RootIsLive(disk);
      WalksToLive(disk, 0, oldPath);
      ShortName(disk, w.id, Existing(src.id), name);
      MakeReturns(disk, w.id, Existing(src.id), name);
      if Make(disk, w.id, Existing(src.id), name).1 == 0 {
        MadeIsFound(disk, dir, Existing(src.id), name);
        WalkKept(disk, w.id, Existing(src.id), name, 0, oldPath);
        LinkedOne(disk, src.id, w.id, name);
        CreatedOthers(disk, w.id, Existing(src.id), name);
      }
    }
  }

  lemma RmDone(disk: Disk, dir: seq<string>, name: string)
    requires Valid(disk) && Allowed(disk, Rm(dir, name))
    ensures var (disk', res) := Step(disk, Rm(dir, name)); Done(disk, Rm(dir, name), disk', res)
  {
    hide Valid, WalkFrom, Removed, Deleted;
    var w := WalkFrom(disk, 0, dir);
    if name != "" && w.Found? && IsKind(disk, w.id, Dir) {
      DeletedMeans(disk, w.id, name);
    }
  }

  lemma DeletedMeans(disk: Disk, d: int, name: string)
    requires Valid(disk)
    ensures Removed(disk, Deleted(disk, d, name), d, name)
  {
    hide Valid, Gone, Recounted;
    var disk' := Deleted(disk, d, name);
    forall j, n | Live(disk, j) && Live(disk', j) && !(j == d && n == name)
      ensures Lookup(disk', j, n) == Lookup(disk, j, n)
    {
      DeletedLookup(disk, d, name, j, n);
    }
    DeletedLookup(disk, d, name, d, name);
    if FindName(Entries(disk, d), name, 0) == -1 {
      NothingToDelete(disk, d, name);
    } else {
      DeletedInodeOf(disk, d, name);
    }
  }

  lemma AreNamed(disk: Disk)
    requires Valid(disk)
    ensures AllNamed(disk)
  {
  }

  lemma DeletedInodeOf(disk: Disk, d: int, name: string)
    requires Valid(disk) && FindName(Entries(disk, d), name, 0) != -1
    ensures var i, disk' := Entries(disk, d)[FindName(Entries(disk, d), name, 0)].inodeId, Deleted(disk, d, name);
            && Live(disk, i)
            && if disk.inodes[i].refcnt == 1 then Gone(disk, disk', i)
               else Recounted(disk, disk', i, -1) && disk'.taken == disk.taken
  {
    hide Valid, FindName, Entries, WithEntry, Freed, Counting, Gone, Recounted;
    AreNamed(disk);
    var k, i := DeletedEntry(disk, d, name);
    EntryKeepsInodes(Freed(disk, i), d, k, Entries(disk, d)[k].(used := false));
    EntryKeepsInodes(Counting(disk, i, -1), d, k, Entries(disk, d)[k].(used := false));
    FreedOrCounted(disk, Deleted(disk, d, name), i);
  }

  lemma FreedOrCounted(disk: Disk, disk': Disk, i: int)
    requires Valid(disk) && Live(disk, i)
    ensures disk'.inodes == Freed(disk, i).inodes && disk'.taken == Freed(disk, i).taken ==> Gone(disk, disk', i)
    ensures disk'.inodes == Counting(disk, i, -1).inodes ==> Recounted(disk, disk', i, -1)
    ensures Counting(disk, i, -1).taken == disk.taken
  {
    hide Valid;
  }

  lemma EntryKeepsInodes(disk: Disk, d: int, k: int, e: Entry)
    ensures WithEntry(disk, d, k, e).inodes == disk.inodes && WithEntry(disk, d, k, e).taken == disk.taken
  {
  }

  /** What every allowed call promises, it does. */
  lemma StepDone(disk: Disk, op: Op)
    requires Valid(disk) && Allowed(disk, op)
    ensures Done(disk, op, Step(disk, op).0, Step(disk, op).1)
  {
    hide Valid, Allowed, Step, Done;
    match op
    case Mkdir(dir, name) => MkdirDone(disk, dir, name);
    case OpenWrite(dir, name) => OpenWriteDone(disk, dir, name);
    case Link(oldPath, dir, name) => LinkDone(disk, oldPath, dir, name);
    case Rm(dir, name) => RmDone(disk, dir, name);
  }
}
