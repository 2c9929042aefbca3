/**
 Paths, whole operations and whole runs of the block filesystem.
 */
module BlkfsRuns {
  import opened Basics
  import opened BlkfsSpec
  import opened Sums

  // ---- What names stand for

  ghost predicate DistinctNames(es: seq<Entry>) {
    forall k, l :: 0 <= k < l < |es| && es[k].used && es[l].used ==> es[k].name != es[l].name
  }

  /** Overwriting a slot changes what its old and new names stand for, and nothing else. */
  lemma LookupUpdate(es: seq<Entry>, k: nat, e: Entry, n: string)
    requires k < |es| && DistinctNames(es) && DistinctNames(es[k := e])
    ensures LookupIn(es[k := e], n) ==
              if e.used && n == e.name then Some(e.inodeId)
              else if es[k].used && n == es[k].name then None
              else LookupIn(es, n)
  {
    var es' := es[k := e];
    var a, b := FindName(es, n, 0), FindName(es', n, 0);
    assert forall l :: 0 <= l < |es| && l != k ==> es'[l] == es[l];
    assert es'[k] == e;
  }

  lemma CreatedLookup(disk: Disk, d: int, target: Target, name: string, j: int, n: string)
    requires Valid(disk) && Ready(disk, target) && Created(disk, d, target, name).1 != -1
    ensures var (disk', i) := Created(disk, d, target, name);
            Lookup(disk', j, n) ==
              if j == d && n == name then Some(i) else if target.New? && j == i then None else Lookup(disk, j, n)
  {
    hide Owned, Shaped, Created, Links, Ready, FindFree;
    SameInodes(disk, d, target, name);
    if 0 <= j < |disk.inodes| {
      CreatedEntries(disk, d, target, name, j);
      CreatedNamed(disk, d, target, name);
      assert Named(disk, j) && Named(Created(disk, d, target, name).0, j);
      NotItself(disk, d, target, name);
      if j == d {
        LookupUpdate(Entries(disk, d), FindFree(Entries(disk, d), 0),
                     Entry(true, name, Created(disk, d, target, name).1), n);
      }
    } else {
      NotItself(disk, d, target, name);
    }
  }

  /** A new inode is not the directory it is made in. */
  lemma NotItself(disk: Disk, d: int, target: Target, name: string)
    requires Shaped(disk) && Owned(disk) && AllNamed(disk) && Ready(disk, target)
    requires Created(disk, d, target, name).1 != -1
    ensures Live(disk, d) && (target.New? ==> !Live(disk, Created(disk, d, target, name).1))
  {
    PreparedKeeps(disk, target);
  }

  lemma DeletedLookup(disk: Disk, d: int, name: string, j: int, n: string)
    requires Valid(disk)
    ensures var disk' := Deleted(disk, d, name);
            Lookup(disk', j, n) ==
              if j == d && n == name then None else if !Live(disk', j) then None else Lookup(disk, j, n)
  {
    hide Owned, Shaped, Deleted, Links, Counted;
    if FindName(Entries(disk, d), name, 0) == -1 {
      NothingToDelete(disk, d, name);
    } else if 0 <= j < |disk.inodes| {
      DeletedEntries(disk, d, name, j);
      DeletedNamed(disk, d, name);
      DeletedInodes(disk, d, name, j);
      assert Named(disk, j) && Named(Deleted(disk, d, name), j);
      if j == d && Live(Deleted(disk, d, name), j) {
        var k := FindName(Entries(disk, d), name, 0);
        LookupUpdate(Entries(disk, d), k, Entries(disk, d)[k].(used := false), n);
      }
    } else {
      DeletedInodes(disk, d, name, j);
    }
  }

  /** The same blocks, the same live inodes and the same meaning of every name. */
  ghost predicate Same(disk: Disk, disk': Disk) {
    && disk'.taken == disk.taken && |disk'.inodes| == |disk.inodes|
    && (forall j :: Live(disk', j) <==> Live(disk, j))
    && (forall j :: Live(disk, j) ==> disk'.inodes[j] == disk.inodes[j])
    && (forall j, n :: Lookup(disk', j, n) == Lookup(disk, j, n))
  }

  lemma CreateThenDeleteInodes(disk: Disk, d: int, target: Target, name: string, j: int)
    requires Valid(disk) && Ready(disk, target) && Created(disk, d, target, name).1 != -1
    ensures var disk' := Created(disk, d, target, name).0;
            var disk2 := Deleted(disk', d, name);
            && Valid(disk') && FindName(Entries(disk', d), name, 0) != -1
            && Entries(disk', d)[FindName(Entries(disk', d), name, 0)].inodeId == Created(disk, d, target, name).1
            && |disk2.inodes| == |disk.inodes|
            && (Live(disk2, j) <==> Live(disk, j))
            && (Live(disk, j) ==> 0 <= j < |disk.inodes| && disk2.inodes[j].refcnt == disk.inodes[j].refcnt)
  {
    var (disk', i) := Created(disk, d, target, name);
    hide Owned, Shaped, Created, Deleted, Links, Ready, FindFree, FindName, Named, Entries;
    CreatedValid(disk, d, target, name);
    CreatedLookup(disk, d, target, name, d, name);
    SameInodes(disk, d, target, name);
    DeletedInodes(disk', d, name, j);
    CreatedCounts(disk, d, target, name, j);
    CreatedCounts(disk, d, target, name, i);
    ReadyLive(disk, d, target, name);
  }

  lemma ReadyLive(disk: Disk, d: int, target: Target, name: string)
    requires Valid(disk) && Ready(disk, target) && Created(disk, d, target, name).1 != -1
    ensures var i := Created(disk, d, target, name).1;
            if target.New? then !Live(disk, i) else Live(disk, i) && disk.inodes[i].refcnt >= 1
  {
    PreparedKeeps(disk, target);
  }

  /** The inode and the blocks of an entry that was just made and taken away. */
  lemma CreateThenDeleteBlocks(disk: Disk, d: int, target: Target, name: string)
    requires Valid(disk) && Ready(disk, target) && Created(disk, d, target, name).1 != -1
    ensures var disk2 := Deleted(Created(disk, d, target, name).0, d, name);
            && disk2.taken == disk.taken && |disk2.inodes| == |disk.inodes|
            && (forall j :: Live(disk, j) ==>
                              && 0 <= j < |disk.inodes|
                              && disk2.inodes[j] == disk.inodes[j].(refcnt := disk2.inodes[j].refcnt))
  {
    hide Links, Named, Entries, FindName, FindFree, Counted, Owned, Shaped, FreeBlock, EmptyInode;
    CreateThenDeleteInodes(disk, d, target, name, 0);
    ReadyLive(disk, d, target, name);
    CreatedCounts(disk, d, target, name, Created(disk, d, target, name).1);
    AllocatedPlaces(disk, target);
  }

  lemma AllocatedPlaces(disk: Disk, target: Target)
    requires Valid(disk) && Ready(disk, target)
    ensures target.New? ==>
              var i, b := EmptyInode(disk.inodes, 0), FreeBlock(disk.taken, disk.first);
              0 <= i < |disk.inodes| && (b == -1 || (0 <= b < |disk.taken| == |disk.data| && !disk.taken[b]))
  {
  }

  lemma CreateThenDeleteLookup(disk: Disk, d: int, target: Target, name: string, j: int, n: string)
    requires Valid(disk) && Ready(disk, target) && Created(disk, d, target, name).1 != -1
    ensures Lookup(Deleted(Created(disk, d, target, name).0, d, name), j, n) == Lookup(disk, j, n)
  {
    hide Owned, Shaped, Created, Deleted, Links, Ready, FindFree, FindName, Named, Entries, Counted, Lookup, Valid,
         Live;
    var disk' := Created(disk, d, target, name).0;
    CreateThenDeleteInodes(disk, d, target, name, j);
    CreatedLookup(disk, d, target, name, j, n);
    DeletedLookup(disk', d, name, j, n);
    CreatedMeant(disk, d, target, name);
    DeadMeansNothing(disk, j, n);
    ReadyLive(disk, d, target, name);
  }

  /** Taking away an entry that was just made restores the filesystem. */
  lemma CreateThenDelete(disk: Disk, d: int, target: Target, name: string)
    requires Valid(disk) && Ready(disk, target) && Created(disk, d, target, name).1 != -1
    ensures Same(disk, Deleted(Created(disk, d, target, name).0, d, name))
  {
    hide Owned, Shaped, Created, Deleted, Links, Ready, FindFree, FindName, Named, Entries, Counted, Lookup, Valid,
         Live;
    var disk2 := Deleted(Created(disk, d, target, name).0, d, name);
    CreateThenDeleteInodes(disk, d, target, name, 0);
    CreateThenDeleteBlocks(disk, d, target, name);
    forall j
      ensures Live(disk2, j) <==> Live(disk, j)
      ensures Live(disk, j) ==> 0 <= j < |disk.inodes| && disk2.inodes[j] == disk.inodes[j]
    {
      CreateThenDeleteInodes(disk, d, target, name, j);
      LiveBounds(disk, j);
    }
    forall j, n
      ensures Lookup(disk2, j, n) == Lookup(disk, j, n)
    {
      CreateThenDeleteLookup(disk, d, target, name, j, n);
    }
  }

  lemma LiveBounds(disk: Disk, j: int)
    ensures Live(disk, j) ==> 0 <= j < |disk.inodes|
  {
  }

  lemma CreatedMeant(disk: Disk, d: int, target: Target, name: string)
    requires Created(disk, d, target, name).1 != -1
    ensures Lookup(disk, d, name) == None
  {
  }

  lemma DeadMeansNothing(disk: Disk, j: int, n: string)
    ensures !Live(disk, j) ==> Lookup(disk, j, n) == None
  {
  }

  // ---- Paths

  /** A directory whose entries can be read. */
  predicate Readable(disk: Disk, d: int) {
    0 <= d < |disk.inodes| && disk.inodes[d].kind.Dir? && disk.inodes[d].blockId != -1
  }

  /** Where a path leads; `Panics` if a step starts at something other than a directory with a block. */
  datatype Walk = Found(id: int) | Missing | Panics

  function WalkFrom(disk: Disk, d: int, path: seq<string>): Walk
    decreases |path|
  {
    if path == [] then Found(d)
    else if !Readable(disk, d) || |path[0]| >= INODE_NAME_LEN - 1 then Panics
    else
      match Lookup(disk, d, path[0])
      case None => Missing
      case Some(c) => WalkFrom(disk, c, path[1..])
  }

  /** What paths lead to is live. */
  lemma {:induction false} WalksToLive(disk: Disk, d: int, path: seq<string>)
    requires Valid(disk) && Live(disk, d) && WalkFrom(disk, d, path).Found?
    ensures Live(disk, WalkFrom(disk, d, path).id)
    decreases |path|
  {
    if path != [] {
      assert Named(disk, d);
      WalksToLive(disk, Lookup(disk, d, path[0]).value, path[1..]);
    }
  }

  /** A new entry does not divert any path. */
  lemma {:induction false} WalkKept(disk: Disk, d: int, target: Target, name: string, from: int, path: seq<string>)
    requires Valid(disk) && Ready(disk, target) && Created(disk, d, target, name).1 != -1 && Live(disk, from)
    requires WalkFrom(disk, from, path).Found?
    ensures WalkFrom(Created(disk, d, target, name).0, from, path) == WalkFrom(disk, from, path)
    decreases |path|
  {
    hide Owned, Shaped, Created, Links, Ready, FindFree, FindName, Counted, Lookup;
    if path != [] {
      CreatedLookup(disk, d, target, name, from, path[0]);
      CreatedMeant(disk, d, target, name);
      ReadyLive(disk, d, target, name);
      KindKept(disk, d, target, name, from);
      NamesLive(disk, from, path[0]);
      WalkKept(disk, d, target, name, Lookup(disk, from, path[0]).value, path[1..]);
    }
  }

  lemma KindKept(disk: Disk, d: int, target: Target, name: string, j: int)
    requires Valid(disk) && Ready(disk, target) && Created(disk, d, target, name).1 != -1 && Live(disk, j)
    ensures var disk' := Created(disk, d, target, name).0;
            && |disk'.inodes| == |disk.inodes| && disk'.inodes[j].kind == disk.inodes[j].kind
            && disk'.inodes[j].blockId == disk.inodes[j].blockId
  {
    PreparedKeeps(disk, target);
  }

  lemma NamesLive(disk: Disk, d: int, n: string)
    requires Valid(disk) && Live(disk, d) && Lookup(disk, d, n).Some?
    ensures Live(disk, Lookup(disk, d, n).value)
  {
    assert Named(disk, d);
  }

  lemma {:induction false} WalkFurther(disk: Disk, from: int, path: seq<string>, name: string)
    requires WalkFrom(disk, from, path).Found?
    ensures WalkFrom(disk, from, path + [name]) == WalkFrom(disk, WalkFrom(disk, from, path).id, [name])
    decreases |path|
  {
    hide Lookup;
    if path == [] {
      assert path + [name] == [name];
    } else {
      assert (path + [name])[1..] == path[1..] + [name];
      WalkFurther(disk, Lookup(disk, from, path[0]).value, path[1..], name);
    }
  }

  /** What was made at a path is found at that path. */
  lemma MadeIsFound(disk: Disk, path: seq<string>, target: Target, name: string)
    requires Valid(disk) && Ready(disk, target) && WalkFrom(disk, 0, path).Found? && |name| < INODE_NAME_LEN - 1
    requires Created(disk, WalkFrom(disk, 0, path).id, target, name).1 != -1
    ensures var (disk', i) := Created(disk, WalkFrom(disk, 0, path).id, target, name);
            WalkFrom(disk', 0, path + [name]) == Found(i)
  {
    hide Owned, Shaped, Created, Links, Ready, FindFree, FindName, Counted, Lookup;
    var d := WalkFrom(disk, 0, path).id;
    var disk' := Created(disk, d, target, name).0;
    RootIsLive(disk);
    WalkKept(disk, d, target, name, 0, path);
    WalkFurther(disk', 0, path, name);
    CreatedLookup(disk, d, target, name, d, name);
    WalksToLive(disk, 0, path);
    MadeInDir(disk, d, target, name);
    KindKept(disk, d, target, name, d);
  }

  lemma MadeInDir(disk: Disk, d: int, target: Target, name: string)
    requires Created(disk, d, target, name).1 != -1
    ensures Readable(disk, d)
  {
  }

  // ---- Operations on paths

  datatype Op =
    | Mkdir(dir: seq<string>, name: string)
    | OpenWrite(dir: seq<string>, name: string)
    | Link(oldPath: seq<string>, dir: seq<string>, name: string)
    | Rm(dir: seq<string>, name: string)

  /** The full path of a name in a directory. */
  function Child(dir: seq<string>, name: string): seq<string> {
    if name == "" then dir else dir + [name]
  }

  /** An entry made in a directory, and what the caller is told. */
  function Make(disk: Disk, d: int, target: Target, name: string): (Disk, int) {
    var (disk', i) := Created(disk, d, target, name);
    (disk', if i == -1 then -1 else 0)
  }

  function IsKind(disk: Disk, i: int, kind: Kind): bool {
    0 <= i < |disk.inodes| && disk.inodes[i].kind == kind
  }

  /** What an operation does and returns. */
  function Step(disk: Disk, op: Op): (Disk, int) {
    match op
    case Mkdir(dir, name) =>
      var w := WalkFrom(disk, 0, dir);
      if name != "" && w.Found? && IsKind(disk, w.id, Dir) then Make(disk, w.id, New(Dir), name) else (disk, -1)
    case OpenWrite(dir, name) =>
      var full := WalkFrom(disk, 0, Child(dir, name));
      if full.Found? then (disk, if IsKind(disk, full.id, File) then 0 else -1)
      else
        var w := WalkFrom(disk, 0, dir);
        if name != "" && w.Found? then Make(disk, w.id, New(File), name) else (disk, -1)
    case Link(oldPath, dir, name) =>
      var src, w := WalkFrom(disk, 0, oldPath), WalkFrom(disk, 0, dir);
      if src.Found? && w.Found? then Make(disk, w.id, Existing(src.id), name) else (disk, -1)
    case Rm(dir, name) =>
      var w := WalkFrom(disk, 0, dir);
      if name != "" && w.Found? && IsKind(disk, w.id, Dir) then (Deleted(disk, w.id, name), 0) else (disk, -1)
  }

  /** What making an entry asks of the caller: a directory, a short name, and an inode for a new entry. */
  ghost predicate CanMake(disk: Disk, d: int, target: Target, name: string) {
    && Readable(disk, d) && |name| < INODE_NAME_LEN - 1
    && (target.New? && Lookup(disk, d, name) == None && FindFree(Entries(disk, d), 0) != -1 ==>
          EmptyInode(disk.inodes, 0) != -1)
  }

  /** The calls that run into none of the source's assertions. */
  ghost predicate Allowed(disk: Disk, op: Op) {
    match op
    case Mkdir(dir, name) =>
      var w := WalkFrom(disk, 0, dir);
      && !w.Panics?
      && (name != "" && w.Found? && IsKind(disk, w.id, Dir) ==> CanMake(disk, w.id, New(Dir), name))
    case OpenWrite(dir, name) =>
      var full, w := WalkFrom(disk, 0, Child(dir, name)), WalkFrom(disk, 0, dir);
      && !full.Panics? && !w.Panics?
      && (full.Missing? && name != "" && w.Found? ==> CanMake(disk, w.id, New(File), name))
    case Link(oldPath, dir, name) =>
      var src, w := WalkFrom(disk, 0, oldPath), WalkFrom(disk, 0, dir);
      && !src.Panics?
      && (src.Found? ==> !w.Panics? && (w.Found? ==> CanMake(disk, w.id, Existing(src.id), name)))
    case Rm(dir, name) =>
      var w := WalkFrom(disk, 0, dir);
      !w.Panics? && (name != "" && w.Found? && IsKind(disk, w.id, Dir) ==> Readable(disk, w.id))
  }

  /** A free block is enough to have an inode for a new entry. */
  lemma BlockIsEnough(disk: Disk, d: int, target: Target, name: string)
    requires Valid(disk) && Readable(disk, d) && |name| < INODE_NAME_LEN - 1 && FreeBlock(disk.taken, disk.first) != -1
    ensures CanMake(disk, d, target, name)
  {
    FreeBlockEmptyInode(disk);
  }

  /** Removing takes no directory that has any other entry. */
  ghost predicate CleanOp(disk: Disk, op: Op) {
    op.Rm? ==>
      var w := WalkFrom(disk, 0, op.dir);
      op.name != "" && w.Found? && IsKind(disk, w.id, Dir) ==> Clean(disk, w.id, op.name)
  }

  lemma MakeValid(disk: Disk, d: int, target: Target, name: string)
    requires Valid(disk) && CanMake(disk, d, target, name)
    requires if target.New? then !target.kind.Empty? else Live(disk, target.id)
    ensures Valid(Make(disk, d, target, name).0)
    ensures Exact(Make(disk, d, target, name).0) <==> Exact(disk)
  {
    hide Valid, Exact;
    if Lookup(disk, d, name) == None && FindFree(Entries(disk, d), 0) != -1 {
      CreatedValid(disk, d, target, name);
    }
  }

  /** One operation keeps the filesystem well formed; counts are exact after it just when they were and it is clean. */
  lemma StepValid(disk: Disk, op: Op)
    requires Valid(disk) && Allowed(disk, op)
    ensures Valid(Step(disk, op).0)
    ensures Exact(Step(disk, op).0) <==> Exact(disk) && CleanOp(disk, op)
  {
    hide Valid, Exact, CanMake, Clean, Make, WalkFrom;
    RootIsLive(disk);
    match op
    case Mkdir(dir, name) =>
      var w := WalkFrom(disk, 0, dir);
      if name != "" && w.Found? && IsKind(disk, w.id, Dir) {
        MakeValid(disk, w.id, New(Dir), name);
      }
    case OpenWrite(dir, name) =>
      var full, w := WalkFrom(disk, 0, Child(dir, name)), WalkFrom(disk, 0, dir);
      if !full.Found? && name != "" && w.Found? {
        MakeValid(disk, w.id, New(File), name);
      }
    case Link(oldPath, dir, name) =>
      var src, w := WalkFrom(disk, 0, oldPath), WalkFrom(disk, 0, dir);
      if src.Found? && w.Found? {
        WalksToLive(disk, 0, oldPath);
        MakeValid(disk, w.id, Existing(src.id), name);
      }
    case Rm(dir, name) =>
      var w := WalkFrom(disk, 0, dir);
      if name != "" && w.Found? && IsKind(disk, w.id, Dir) {
        DeletedValid(disk, w.id, name);
      }
  }

  lemma RootIsLive(disk: Disk)
    requires Valid(disk)
    ensures Live(disk, 0) && IsKind(disk, 0, Dir)
  {
  }

  // ---- Whole runs

  function Run(disk: Disk, ops: seq<Op>): Disk
    decreases |ops|
  {
    if ops == [] then disk else Run(Step(disk, ops[0]).0, ops[1..])
  }

  ghost predicate AllAllowed(disk: Disk, ops: seq<Op>)
    decreases |ops|
  {
    ops == [] || (Allowed(disk, ops[0]) && AllAllowed(Step(disk, ops[0]).0, ops[1..]))
  }

  ghost predicate AllClean(disk: Disk, ops: seq<Op>)
    decreases |ops|
  {
    ops == [] || (CleanOp(disk, ops[0]) && AllClean(Step(disk, ops[0]).0, ops[1..]))
  }

  /**
   Over any run: ownership and names hold and no count is too low; counts are exact at the end if and only
   if they were at the beginning and every removal on the way is clean.
   */
  lemma {:induction false} RunValid(disk: Disk, ops: seq<Op>)
    requires Valid(disk) && AllAllowed(disk, ops)
    ensures Valid(Run(disk, ops))
    ensures Exact(Run(disk, ops)) <==> Exact(disk) && AllClean(disk, ops)
    decreases |ops|
  {
    hide Valid, Exact, Allowed, CleanOp, Step;
    if ops != [] {
      StepValid(disk, ops[0]);
      RunValid(Step(disk, ops[0]).0, ops[1..]);
    }
  }

  // ---- A fresh filesystem

  /** The blocks the inode table takes: 20 bytes an inode, one for each block, 1024 bytes a block. */
  function InodeBlocks(total: nat): nat {
    var size := total * 20;
    size / 1024 + if size % 1024 == 0 then 0 else 1
  }

  /** Only the root, in the first data block, with no entries. */
  ghost predicate Fresh(disk: Disk) {
    && |disk.inodes| > 0 && disk.inodes[0] == Inode(Dir, 0, disk.first, 1, 0)
    && (forall i :: 0 < i < |disk.inodes| ==> disk.inodes[i].kind.Empty?)
    && (forall b :: 0 <= b < |disk.taken| ==> (disk.taken[b] <==> b <= disk.first))
    && disk.first < |disk.data| && forall k :: 0 <= k < |disk.data[disk.first]| ==> !disk.data[disk.first][k].used
  }

  /** The table holds an inode for every data block. */
  lemma EnoughInodes(total: nat)
    ensures InodeBlocks(total) * INODE_PER_BLOCK >= total - InodeBlocks(total)
  {
  }

  lemma SomeInodeBlock(total: nat)
    requires total > 0
    ensures InodeBlocks(total) > 0
  {
  }

  lemma FreshLinks(disk: Disk, i: int)
    requires Fresh(disk) && |disk.taken| == |disk.data|
    ensures Links(disk, i) == 0
  {
    forall d | 0 <= d < |disk.inodes|
      ensures NamingIn(disk, i)[d] == 0
    {
      NoneUsed(Entries(disk, d), i);
    }
    SumZero(NamingIn(disk, i));
  }

  /** A fresh filesystem is well formed and its counts are exact. */
  lemma FreshValid(disk: Disk)
    requires Fresh(disk) && Shaped(disk)
    ensures Valid(disk) && Exact(disk)
  {
    hide Links;
    assert Owns(disk, 0, disk.first);
    assert Blockless(disk.inodes) == {};
    forall i | Live(disk, i)
      ensures i == 0 && Links(disk, i) == 0
    {
      FreshLinks(disk, i);
    }
  }

  /** From a fresh format on, whatever is called. */
  lemma FromFormat(disk: Disk, ops: seq<Op>)
    requires Fresh(disk) && Shaped(disk) && AllAllowed(disk, ops)
    ensures Valid(Run(disk, ops)) && (Exact(Run(disk, ops)) <==> AllClean(disk, ops))
  {
    FreshValid(disk);
    RunValid(disk, ops);
  }
}
