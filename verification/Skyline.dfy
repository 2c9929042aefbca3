/**
 The skyline packer as it runs: linked nodes edited in place, a free list threaded through
 the same `next` fields, and links found by one routine and overwritten by another.
 */
module Skyline {
  import opened Basics
  import opened SkylineSpec

  const MAXVAL := 0xffff
  const FAR := 0x4000_0000

  /** Storing an int in an unsigned 16-bit coordinate. */
  function Coord(v: int): int {
    v % 0x10000
  }

  datatype Heuristic = BottomLeft | BestFit

  class Node {
    var x: int
    var y: int
    var next: Node?

    constructor (x: int, y: int, next: Node?)
      ensures this.x == x && this.y == y && this.next == next
    {
      this.x, this.y, this.next := x, y, next;
    }
  }

  /** The address of a link: the list head itself, or the `next` field of a node. */
  datatype Link = NoLink | HeadLink | NextLink(of: Node)

  datatype FindResult = FindResult(x: int, y: int, link: Link)

  /** A client rectangle: `w` and `h` are its input, `x`, `y` and `wasPacked` the answer. */
  datatype Rect = Rect(id: int, w: int, h: int, x: int, y: int, wasPacked: int) {
    predicate Empty() {
      w == 0 || h == 0
    }

    predicate SameInput(r: Rect) {
      id == r.id && w == r.w && h == r.h
    }

    predicate SameRequest(r: Rect) {
      SameInput(r) && wasPacked == r.wasPacked
    }
  }

  /** Empty rectangles need no space; the others are box `at` of the packed ones, or marked unplaced. */
  ghost predicate Answered(r: Rect, at: int, first: int, placed: seq<Box>) {
    if r.Empty() then at == -1 && r.x == 0 && r.y == 0
    else if at == -1 then r.x == MAXVAL && r.y == MAXVAL
    else 0 <= first <= at < |placed| && placed[at] == Box(r.x, r.y, r.w, r.h) && r.x < MAXVAL
  }

  /** The boxes given out follow one another. */
  ghost predicate Increasing(at: seq<int>) {
    && (forall i :: 0 <= i < |at| ==> at[i] >= -1)
    && (forall i, k :: 0 <= i < k < |at| && at[k] != -1 ==> at[i] < at[k])
  }

  ghost predicate OneToOne(at: seq<int>) {
    forall i, k :: 0 <= i < k < |at| && at[i] == at[k] ==> at[i] == -1
  }

  ghost predicate Permutation(order: seq<nat>, n: nat) {
    && |order| == n
    && (forall k :: 0 <= k < n ==> order[k] < n)
    && (forall k, l :: 0 <= k < l < n ==> order[k] != order[l])
    && (forall i :: 0 <= i < n ==> i in order)
  }

  ghost function Position(order: seq<nat>, i: nat): (k: nat)
    requires i in order
    ensures k < |order| && order[k] == i
  {
    var k :| 0 <= k < |order| && order[k] == i;
    k
  }

  ghost function Unsort(at: seq<int>, order: seq<nat>): (r: seq<int>)
    requires Permutation(order, |at|)
    ensures |r| == |at|
    ensures forall i :: 0 <= i < |at| ==> r[i] == at[Position(order, i)]
  {
    seq(|at|, i requires 0 <= i < |at| => at[Position(order, i)])
  }

  /** Each node's link names the following one; the last link is `end`. */
  ghost predicate ChainTo(s: seq<Node>, end: Node?)
    reads s
  {
    forall i {:trigger s[i].next} :: 0 <= i < |s| ==> s[i].next == if i + 1 < |s| then s[i + 1] else end
  }

  ghost predicate Chain(s: seq<Node>)
    reads s
  {
    ChainTo(s, null)
  }

  /** The nodes hold exactly these corners. */
  ghost predicate Holds(s: seq<Node>, cs: seq<Corner>)
    reads s
  {
    && |s| == |cs|
    && (forall i {:trigger s[i].x} {:trigger s[i].y} :: 0 <= i < |s| ==> s[i].x == cs[i].x && s[i].y == cs[i].y)
  }

  ghost predicate Distinct(s: seq<Node>) {
    forall i, j :: 0 <= i < j < |s| ==> s[i] != s[j]
  }

  ghost predicate Apart(s: seq<Node>, t: seq<Node>) {
    forall i, j :: 0 <= i < |s| && 0 <= j < |t| ==> s[i] != t[j]
  }

  lemma ApartMembers(s: seq<Node>, t: seq<Node>)
    requires Apart(s, t)
    ensures forall n :: n in s ==> n !in t
  {
  }

  ghost predicate Within(s: seq<Node>, pool: set<Node>) {
    forall i :: 0 <= i < |s| ==> s[i] in pool
  }

  /** The new node, the nodes before it, those after it and the free ones are all different. */
  ghost predicate Separate(pre: seq<Node>, node: Node, run: seq<Node>, free: seq<Node>) {
    && Apart(pre, run) && Apart(pre, free) && Apart(run, free)
    && node !in pre && node !in run && node !in free
  }

  function First(s: seq<Node>): Node? {
    if s == [] then null else s[0]
  }

  /** The quantum for `n` nodes: the least with `n` quanta covering `width`. */
  function Quantum(width: int, n: int): (a: int)
    requires width >= 1 && n >= 1
    ensures a >= 1
  {
    QuantumCovers(width, n);
    (width + n - 1) / n
  }

  lemma QuantumCovers(width: int, n: int)
    requires width >= 1 && n >= 1
    ensures var a := (width + n - 1) / n; a >= 1 && n * a >= width && n * (a - 1) < width && (n >= width ==> a == 1)
  {
    var a := (width + n - 1) / n;
    assert n * a == width + n - 1 - (width + n - 1) % n;
  }

  /** A width rounded up to a multiple of the quantum. */
  function RoundUp(w: int, align: int): (r: int)
    requires w >= 0 && align >= 1
    ensures w <= r < w + align && r % align == 0
  {
    var r := w + align - 1;
    RoundDown(r, align);
    r - r % align
  }

  lemma RoundDown(r: int, align: int)
    requires r >= 0 && align >= 1
    ensures (r - r % align) % align == 0
  {
    var v := r - r % align;
    var d := r / align - v / align;
    assert d * align == v % align;
    MulAtLeast(d, align);
  }

  lemma MulAtLeast(d: int, a: int)
    requires a >= 1
    ensures d >= 1 ==> d * a >= a
    ensures d <= -1 ==> d * a <= -a
  {
  }

  ghost function LinkTo(s: seq<Node>, j: nat): Link
    requires j < |s|
  {
    if j == 0 then HeadLink else NextLink(s[j - 1])
  }

  /** Bottom-left, over every column: no position rests lower, none further left rests as low. */
  ghost predicate LowestLeftmost(hs: seq<int>, w: int, res: FindResult) {
    && (res.link == NoLink <==> w > |hs|)
    && (forall x :: InRange(hs, x, w) ==> Rest(hs, x, w) >= res.y && (x < res.x ==> Rest(hs, x, w) > res.y))
  }

  /** Best-fit: found iff some position fits, and then one that fits and rests lowest. */
  ghost predicate LowestFitting(hs: seq<int>, height: int, w: int, h: int, res: FindResult) {
    && (res.link != NoLink ==> Fits(hs, height, res.x, w, h))
    && (forall x :: Fits(hs, height, x, w, h) ==> res.link != NoLink && Rest(hs, x, w) >= res.y)
  }

  ghost predicate Placeable(hs: seq<int>, height: int, w: int, h: int) {
    exists x :: Fits(hs, height, x, w, h)
  }

  /** `x` fits, coming to rest at `y`, and no position that fits rests lower. */
  ghost predicate Lowest(hs: seq<int>, height: int, w: int, h: int, x: int, y: int) {
    Fits(hs, height, x, w, h) && y == Rest(hs, x, w) && forall x' :: Fits(hs, height, x', w, h) ==> Rest(hs, x', w) >= y
  }

  /** Every position left of `x` rests higher than `y`. */
  ghost predicate Leftmost(hs: seq<int>, w: int, x: int, y: int) {
    forall x' :: InRange(hs, x', w) && x' < x ==> Rest(hs, x', w) > y
  }

  // ---- What a whole call does, rectangle by rectangle

  /** The column heights, and whether a node is free, before or after a turn. */
  datatype Moment = Moment(heights: seq<int>, free: bool)

  /**
   One rectangle's turn. It is refused only if it is empty, no node is free or there is no place for it, and
   then nothing changes; otherwise it rests at a lowest place, the leftmost of those if that is the heuristic,
   and the columns under it, its rounded width at most, are raised to its top.
   */
  ghost predicate Turn(r: Rect, at: int, before: Moment, after: Moment, height: int, align: int, heuristic: Heuristic) {
    && r.w >= 0 && r.h >= 0 && align >= 1
    && var window := RoundUp(r.w, align);
       if at == -1 then
         after == before && (r.Empty() || !before.free || !Placeable(before.heights, height, window, r.h))
       else
         && !r.Empty() && before.free && Lowest(before.heights, height, window, r.h, r.x, r.y)
         && (heuristic.BottomLeft? ==> Leftmost(before.heights, window, r.x, r.y))
         && exists w :: r.w <= w <= window && Lifted(before.heights, after.heights, r.x, w, r.y, r.h)
  }

  ghost predicate Lifted(hs: seq<int>, hs': seq<int>, x: int, w: int, y: int, h: int) {
    hs' == Raise(hs, x, w, y + h)
  }

  /** The rectangles' turns, one after another. */
  ghost predicate Turns(rs: seq<Rect>, at: seq<int>, moments: seq<Moment>, height: int, align: int,
                        heuristic: Heuristic) {
    && |at| == |rs| && |moments| == |rs| + 1
    && forall k :: 0 <= k < |rs| ==> Turn(rs[k], at[k], moments[k], moments[k + 1], height, align, heuristic)
  }

  lemma TurnsCount(rs: seq<Rect>, at: seq<int>, moments: seq<Moment>, height: int, align: int, heuristic: Heuristic)
    requires Turns(rs, at, moments, height, align, heuristic)
    ensures |at| == |rs| && |moments| == |rs| + 1
  {
  }

  lemma TurnsExtend(rs: seq<Rect>, at: seq<int>, moments: seq<Moment>, height: int, align: int, heuristic: Heuristic,
                    r: Rect, a: int, m: Moment)
    requires Turns(rs, at, moments, height, align, heuristic)
    requires Turn(r, a, moments[|rs|], m, height, align, heuristic)
    ensures Turns(rs + [r], at + [a], moments + [m], height, align, heuristic)
  {
    hide Turn;
  }

  /** The columns have only grown. */
  ghost predicate Grown(hs: seq<int>, hs': seq<int>) {
    |hs| == |hs'| && forall c :: 0 <= c < |hs| ==> hs[c] <= hs'[c]
  }

  lemma {:induction false} MaxOverGrows(hs: seq<int>, hs': seq<int>, lo: int, hi: int)
    requires Grown(hs, hs') && 0 <= lo <= hi <= |hs|
    ensures MaxOver(hs, lo, hi) <= MaxOver(hs', lo, hi)
    decreases hi - lo
  {
    if lo < hi {
      MaxOverGrows(hs, hs', lo, hi - 1);
    }
  }

  lemma NoNewPlace(hs: seq<int>, hs': seq<int>, height: int, w: int, h: int)
    requires Grown(hs, hs') && Placeable(hs', height, w, h)
    ensures Placeable(hs, height, w, h)
  {
    var x :| Fits(hs', height, x, w, h);
    MaxOverGrows(hs, hs', x, x + w);
    assert Fits(hs, height, x, w, h);
  }

  lemma TurnGrows(r: Rect, at: int, before: Moment, after: Moment, height: int, align: int, heuristic: Heuristic)
    requires Turn(r, at, before, after, height, align, heuristic)
    ensures Grown(before.heights, after.heights) && (!before.free ==> !after.free)
  {
    if at != -1 {
      MaxOverUpper(before.heights, r.x, r.x + RoundUp(r.w, align));
    }
  }

  lemma {:induction false} TurnsGrow(rs: seq<Rect>, at: seq<int>, moments: seq<Moment>, height: int, align: int,
                                     heuristic: Heuristic, i: nat, j: nat)
    requires Turns(rs, at, moments, height, align, heuristic) && i <= j <= |rs|
    ensures Grown(moments[i].heights, moments[j].heights) && (!moments[i].free ==> !moments[j].free)
    decreases j - i
  {
    hide Turn;
    if i < j {
      TurnsGrow(rs, at, moments, height, align, heuristic, i, j - 1);
      TurnGrows(rs[j - 1], at[j - 1], moments[j - 1], moments[j], height, align, heuristic);
    }
  }

  /** Still no place for it, or no node. */
  ghost predicate Refused(r: Rect, now: Moment, height: int, align: int) {
    r.Empty() || !now.free || (r.w >= 0 && align >= 1 && !Placeable(now.heights, height, RoundUp(r.w, align), r.h))
  }

  /** What is refused in its turn could not be placed at the end either. */
  lemma RefusalsLast(rs: seq<Rect>, at: seq<int>, moments: seq<Moment>, height: int, align: int, heuristic: Heuristic)
    requires Turns(rs, at, moments, height, align, heuristic)
    ensures forall k :: 0 <= k < |rs| && at[k] == -1 ==> Refused(rs[k], moments[|rs|], height, align)
  {
    forall k | 0 <= k < |rs| && at[k] == -1
      ensures Refused(rs[k], moments[|rs|], height, align)
    {
      assert Turn(rs[k], at[k], moments[k], moments[k + 1], height, align, heuristic);
      TurnsGrow(rs, at, moments, height, align, heuristic, k, |rs|);
      var hs, hs', window := moments[k].heights, moments[|rs|].heights, RoundUp(rs[k].w, align);
      if Placeable(hs', height, window, rs[k].h) {
        NoNewPlace(hs, hs', height, window, rs[k].h);
      }
    }
  }

  /** Either heuristic finds a spot below `height` whenever there is one. */
  lemma PlaceableIff(hs: seq<int>, height: int, w: int, h: int, heuristic: Heuristic, res: FindResult)
    requires res.link != NoLink ==> InRange(hs, res.x, w) && res.y == Rest(hs, res.x, w)
    requires heuristic.BottomLeft? ==> LowestLeftmost(hs, w, res)
    requires heuristic.BestFit? ==> LowestFitting(hs, height, w, h, res)
    ensures Placeable(hs, height, w, h) <==> res.link != NoLink && res.y + h <= height
    ensures Placeable(hs, height, w, h) ==> Lowest(hs, height, w, h, res.x, res.y)
  {
    if res.link != NoLink && res.y + h <= height {
      assert Fits(hs, height, res.x, w, h);
    }
  }

  /** Among the first `i` corners, `j` is the leftmost that rests lowest, at `best`. */
  ghost predicate LeftmostUpTo(cs: seq<Corner>, hs: seq<int>, w: int, i: nat, j: nat, best: int)
    requires WellFormed(cs, |hs|) && i < |cs| && w > 0
  {
    forall k :: 0 <= k < i ==>
                  && InRange(hs, cs[k].x, w)
                  && Rest(hs, cs[k].x, w) >= best && (k < j ==> Rest(hs, cs[k].x, w) > best)
  }

  ghost predicate LowestUpTo(cs: seq<Corner>, hs: seq<int>, w: int, i: nat, room: int, best: int)
    requires WellFormed(cs, |hs|) && i < |cs| && w > 0
  {
    forall k :: 0 <= k < i ==>
                  && InRange(hs, cs[k].x, w)
                  && (Rest(hs, cs[k].x, w) <= room ==> Rest(hs, cs[k].x, w) >= best)
  }

  /** Looking at one more corner. */
  lemma UpToStep(cs: seq<Corner>, hs: seq<int>, w: int, i: nat, j: nat, room: int, best: int, y: int)
    requires WellFormed(cs, |hs|) && i + 1 < |cs| && w > 0 && j <= i
    requires InRange(hs, cs[i].x, w) && y == Rest(hs, cs[i].x, w)
    ensures LeftmostUpTo(cs, hs, w, i, j, best) ==>
              if y < best then LeftmostUpTo(cs, hs, w, i + 1, i, y) else LeftmostUpTo(cs, hs, w, i + 1, j, best)
    ensures LowestUpTo(cs, hs, w, i, room, best) ==>
              LowestUpTo(cs, hs, w, i + 1, room, if y <= room && y < best then y else best)
  {
  }

  /** A spot that fits and rests no higher than the lowest is lowest too. */
  lemma LowerFits(hs: seq<int>, height: int, w: int, h: int, res: FindResult, res': FindResult)
    requires LowestFitting(hs, height, w, h, res)
    requires Fits(hs, height, res'.x, w, h) && res'.link != NoLink && res'.y <= res.y
    ensures LowestFitting(hs, height, w, h, res')
  {
  }

  /** The best corner is the best column. */
  lemma LeftmostOverall(cs: seq<Corner>, hs: seq<int>, w: int, i: nat, j: nat, res: FindResult)
    requires WellFormed(cs, |hs|) && Denotes(cs, hs) && i < |cs| && w > 0 && cs[i].x + w > |hs|
    requires LeftmostUpTo(cs, hs, w, i, j, res.y)
    requires res.link == NoLink <==> i == 0
    requires res.link != NoLink ==> j < i && res.x == cs[j].x
    ensures LowestLeftmost(hs, w, res)
  {
    forall x | InRange(hs, x, w)
      ensures i > 0 && Rest(hs, x, w) >= res.y && (x < res.x ==> Rest(hs, x, w) > res.y)
    {
      var k := SegmentOf(cs, |hs|, x);
      SnapLeft(cs, hs, x, w, k);
      assert k < i;
    }
    if i > 0 {
      assert InRange(hs, cs[0].x, w);
    }
  }

  lemma LowestOverall(cs: seq<Corner>, hs: seq<int>, height: int, w: int, h: int, i: nat, res: FindResult)
    requires WellFormed(cs, |hs|) && Denotes(cs, hs) && i < |cs| && w > 0 && cs[i].x + w > |hs|
    requires LowestUpTo(cs, hs, w, i, height - h, res.y)
    requires if res.link == NoLink then res.y > height - h else Fits(hs, height, res.x, w, h)
    ensures LowestFitting(hs, height, w, h, res)
  {
    forall x | Fits(hs, height, x, w, h)
      ensures res.link != NoLink && Rest(hs, x, w) >= res.y
    {
      var k := SegmentOf(cs, |hs|, x);
      SnapLeft(cs, hs, x, w, k);
      assert k < i;
    }
  }

  lemma NoneYet(cs: seq<Corner>, hs: seq<int>, w: int, h: int, height: int, best: Rating)
    requires WellFormed(cs, |hs|) && w > 0
    ensures LeftmostUpTo(cs, hs, w, 0, 0, best.y) && LowestUpTo(cs, hs, w, 0, height - h, best.y)
    ensures BestLeft(cs, |hs|, height, w, h, 0, best)
  {
  }

  lemma FlushLeft(cs: seq<Corner>, j: nat, x: int, w: int)
    requires j < |cs| && cs[j].x == x
    ensures Flush(cs, j, x, w)
  {
  }

  lemma FlushRight(cs: seq<Corner>, j: nat, x: int, w: int, t: nat)
    requires j < |cs| && t < |cs| && cs[t].x == x + w
    ensures Flush(cs, j, x, w)
  {
  }

  lemma SpotRaises(cs: seq<Corner>, hs: seq<int>, height: int, j: nat, x: int, w: int, window: int)
    requires Profile(cs, hs, height) && OnStretch(cs, j, x) && 0 < w <= window && x + window <= |hs|
    ensures Flush(cs, j, x, window) ==> w <= RaisedWidth(cs, j, x, w) <= window
  {
    if Flush(cs, j, x, window) {
      RaisedAtMost(cs, |hs|, j, x, w, window);
    }
  }

  function Reversed(s: seq<Node>): (r: seq<Node>)
    ensures |r| == |s|
    ensures forall i :: 0 <= i < |s| ==> r[i] == s[|s| - 1 - i]
  {
    seq(|s|, i requires 0 <= i < |s| => s[|s| - 1 - i])
  }

  lemma ReversedStep(a: seq<Node>, k: nat, m: nat, f: seq<Node>)
    requires k <= m < |a|
    ensures Reversed(a[k..m + 1]) + f == [a[m]] + (Reversed(a[k..m]) + f)
  {
  }

  lemma Tails(a: seq<Node>, cs: seq<Corner>, k: nat, m: nat)
    requires k <= m < |a| == |cs|
    ensures a[m..][1..] == a[m + 1..] && cs[m..][1..] == cs[m + 1..] && a[k..][m - k] == a[m]
    ensures m + 1 < |a| ==> a[k..][m + 1 - k] == a[m + 1]
  {
  }

  /** The front node of a run is not in the rest of it. */
  lemma RunTail(run: seq<Node>, cs: seq<Corner>, f: seq<Node>)
    requires |run| > 0 && Chain(run) && Holds(run, cs) && Distinct(run) && Distinct(f) && Apart(run, f)
    ensures Chain(run[1..]) && Holds(run[1..], cs[1..]) && Distinct(run[1..]) && run[0].next == First(run[1..])
    ensures run[0] !in run[1..] && run[0] !in f
    ensures Distinct([run[0]] + f) && Apart(run[1..], [run[0]] + f)
  {
  }

  lemma PushFront(n: Node, f: seq<Node>)
    requires Chain(f) && n.next == First(f)
    ensures Chain([n] + f)
  {
  }

  /** Cutting a chain in two. */
  lemma SplitRun(a: seq<Node>, cs: seq<Corner>, k: nat, f: seq<Node>)
    requires k < |a| && Chain(a) && Holds(a, cs) && Distinct(a) && Apart(a, f)
    ensures ChainTo(a[..k], a[k]) && Holds(a[..k], cs[..k]) && Distinct(a[..k]) && Apart(a[..k], f)
    ensures Chain(a[k..]) && Holds(a[k..], cs[k..]) && Distinct(a[k..]) && Apart(a[k..], f)
    ensures Apart(a[..k], a[k..])
  {
  }

  lemma SplitWithin(a: seq<Node>, k: nat, pool: set<Node>)
    requires k <= |a| && Within(a, pool)
    ensures Within(a[..k], pool) && Within(a[k..], pool)
  {
  }

  /** Linking two chains through a node between them. */
  lemma JoinChains(pre: seq<Node>, node: Node, run: seq<Node>, cs: seq<Corner>, corner: Corner, ds: seq<Corner>)
    requires ChainTo(pre, node) && node.next == First(run) && Chain(run)
    requires Holds(pre, cs) && node.x == corner.x && node.y == corner.y && Holds(run, ds)
    ensures Chain(pre + [node] + run) && Holds(pre + [node] + run, cs + [corner] + ds)
  {
  }

  lemma JoinDistinct(pre: seq<Node>, node: Node, run: seq<Node>, free: seq<Node>)
    requires Separate(pre, node, run, free) && Distinct(pre) && Distinct(run)
    ensures Distinct(pre + [node] + run) && Apart(pre + [node] + run, free)
  {
  }

  lemma JoinWithin(pre: seq<Node>, node: Node, run: seq<Node>, pool: set<Node>)
    requires Within(pre, pool) && node in pool && Within(run, pool)
    ensures Within(pre + [node] + run, pool)
  {
  }

  lemma FreeTail(f: seq<Node>)
    requires f != [] && Chain(f) && Distinct(f)
    ensures Chain(f[1..]) && Distinct(f[1..]) && f[0] !in f[1..] && f[0].next == First(f[1..])
  {
  }

  lemma SeparateAfter(a: seq<Node>, keep: nat, m: nat, node: Node, free: seq<Node>)
    requires keep <= m <= |a| && Separate(a[..keep], node, a[keep..], free)
    requires Apart(a[m..], Reversed(a[keep..m]) + free)
    ensures Separate(a[..keep], node, a[m..], Reversed(a[keep..m]) + free)
  {
    var f := Reversed(a[keep..m]) + free;
    forall i | 0 <= i < |f|
      ensures f[i] in a[keep..] || f[i] in free
      ensures f[i] != node && forall k :: 0 <= k < keep ==> a[..keep][k] != f[i]
    {
      if i < m - keep {
        assert f[i] == a[keep..][m - keep - 1 - i];
      } else {
        assert f[i] == free[i - (m - keep)];
      }
    }
    forall i | 0 <= i < |a| - m
      ensures a[m..][i] == a[keep..][i + m - keep]
    {
    }
  }

  /** What the answers say after sorting back is what they said before. */
  lemma UnsortAnswers(at: seq<int>, order: seq<nat>, answers: seq<Rect>, back: seq<Rect>, first: int, placed: seq<Box>)
    requires |answers| == |back| == |at| && Permutation(order, |at|)
    requires forall k :: 0 <= k < |at| ==> back[order[k]] == answers[k]
    requires forall k :: 0 <= k < |at| ==> Answered(answers[k], at[k], first, placed)
    requires Increasing(at)
    ensures forall i :: 0 <= i < |at| ==> Answered(back[i], Unsort(at, order)[i], first, placed)
    ensures OneToOne(Unsort(at, order))
    ensures forall b :: b in at ==> b in Unsort(at, order)
  {
    var r := Unsort(at, order);
    forall i | 0 <= i < |at|
      ensures back[i] == answers[Position(order, i)]
    {
    }
    forall b | b in at
      ensures b in r
    {
      var k :| 0 <= k < |at| && at[k] == b;
      assert Position(order, order[k]) == k;
      assert r[order[k]] == b;
    }
  }

  /** The turns, told of the rectangles back in their own places. */
  ghost predicate TurnsBy(order: seq<nat>, rs: seq<Rect>, at: seq<int>, moments: seq<Moment>, height: int, align: int,
                          heuristic: Heuristic) {
    && Permutation(order, |rs|) && |at| == |rs| && |moments| == |rs| + 1
    && forall k :: 0 <= k < |rs| ==>
         Turn(rs[order[k]], at[order[k]], moments[k], moments[k + 1], height, align, heuristic)
  }

  lemma TurnsSortedBack(order: seq<nat>, answers: seq<Rect>, at: seq<int>, moments: seq<Moment>, height: int,
                        align: int, heuristic: Heuristic, rs: seq<Rect>)
    requires Turns(answers, at, moments, height, align, heuristic) && Permutation(order, |answers|)
    requires |rs| == |answers|
    requires forall k :: 0 <= k < |rs| ==> rs[order[k]] == answers[k].(wasPacked := rs[order[k]].wasPacked)
    requires forall k :: 0 <= k < |rs| && at[k] == -1 ==> Refused(answers[k], moments[|rs|], height, align)
    ensures TurnsBy(order, rs, Unsort(at, order), moments, height, align, heuristic)
    ensures forall i :: 0 <= i < |rs| && Unsort(at, order)[i] == -1 ==> Refused(rs[i], moments[|rs|], height, align)
  {
    hide Placeable, Lowest, Leftmost, RoundUp;
    var at' := Unsort(at, order);
    forall k | 0 <= k < |rs|
      ensures Turn(rs[order[k]], at'[order[k]], moments[k], moments[k + 1], height, align, heuristic)
    {
      assert Position(order, order[k]) == k;
      assert Turn(answers[k], at[k], moments[k], moments[k + 1], height, align, heuristic);
    }
    forall i | 0 <= i < |rs| && at'[i] == -1
      ensures Refused(rs[i], moments[|rs|], height, align)
    {
      var k := Position(order, i);
      assert Refused(answers[k], moments[|rs|], height, align);
    }
  }

  /** The flag an answer is given says whether it is one. */
  lemma FlagsSet(back: seq<Rect>, flagged: seq<Rect>, at: seq<int>, first: int, placed: seq<Box>)
    requires |back| == |flagged| == |at|
    requires forall i :: 0 <= i < |at| ==> Answered(back[i], at[i], first, placed)
    requires forall i :: 0 <= i < |at| ==>
               flagged[i] == back[i].(wasPacked := if back[i].x == MAXVAL && back[i].y == MAXVAL then 0 else 1)
    ensures forall i :: 0 <= i < |at| ==> Answered(flagged[i], at[i], first, placed)
    ensures forall i :: 0 <= i < |at| ==> flagged[i].SameInput(back[i])
    ensures forall i :: 0 <= i < |at| ==> flagged[i].wasPacked == if at[i] == -1 && !flagged[i].Empty() then 0 else 1
  {
  }

  /** Saves each rectangle's index and sorts by height. */
  method SaveAndSort(rects: array<Rect>, order: seq<nat>)
    requires Permutation(order, rects.Length)
    modifies rects
    ensures forall k :: 0 <= k < rects.Length ==> rects[k] == old(rects[order[k]]).(wasPacked := order[k])
  {
    forall i | 0 <= i < rects.Length {
      rects[i] := rects[i].(wasPacked := i);
    }
    forall k | 0 <= k < rects.Length {
      rects[k] := rects[order[k]];
    }
  }

  /** Sorts by the saved index: every rectangle goes back to its own place. */
  method SortBack(rects: array<Rect>, ghost order: seq<nat>)
    requires Permutation(order, rects.Length)
    requires forall k :: 0 <= k < rects.Length ==> rects[k].wasPacked == order[k]
    modifies rects
    ensures forall k :: 0 <= k < rects.Length ==> rects[order[k]] == old(rects[k])
  {
    forall k | 0 <= k < rects.Length {
      rects[rects[k].wasPacked] := rects[k];
    }
  }

  method SetFlags(rects: array<Rect>)
    modifies rects
    ensures forall i :: 0 <= i < rects.Length ==>
              var r := old(rects[i]);
              rects[i] == r.(wasPacked := if r.x == MAXVAL && r.y == MAXVAL then 0 else 1)
  {
    forall i | 0 <= i < rects.Length {
      rects[i] := rects[i].(wasPacked := if rects[i].x == MAXVAL && rects[i].y == MAXVAL then 0 else 1);
    }
  }

  lemma TwoNodes(a: Node, b: Node)
    requires a.next == b && b.next == null
    ensures Chain([a, b]) && Holds([a, b], [Corner(a.x, a.y), Corner(b.x, b.y)])
  {
  }

  lemma FreshPool(a: Node, b: Node, nodes: seq<Node>)
    requires Distinct(nodes) && a != b && a !in nodes && b !in nodes
    ensures var pool := {a, b} + (set n | n in nodes);
            Distinct([a, b]) && Apart([a, b], nodes) && Within([a, b], pool) && Within(nodes, pool)
  {
  }

  lemma LevelGround(width: int, height: int)
    requires 1 <= width && 0 <= height
    ensures Profile([Corner(0, 0), Corner(width, MAXVAL)], seq(width, _ => 0), height)
    ensures Packed([], seq(width, _ => 0), height)
  {
  }

  method ThreadFreeList(nodes: seq<Node>)
    requires nodes != [] && Distinct(nodes)
    modifies nodes
    ensures Chain(nodes)
  {
    var i := 0;
    while i < |nodes| - 1
      invariant 0 <= i <= |nodes| - 1
      invariant forall k :: 0 <= k < i ==> nodes[k].next == nodes[k + 1]
    {
      nodes[i].next := nodes[i + 1];
      i := i + 1;
    }
    nodes[i].next := null;
  }

  class Context {
    var width: int
    var height: int
    var align: int
    var heuristic: Heuristic
    var numNodes: int
    var activeHead: Node?
    var freeHead: Node?
    /** The skyline's nodes left to right, and the free list's, in link order. */
    ghost const Pool: set<Node>
    ghost var Active: seq<Node>
    ghost var Free: seq<Node>
    /** What the skyline holds, the column-height map, and every rectangle placed so far. */
    ghost var Corners: seq<Corner>
    ghost var Heights: seq<int>
    ghost var Placed: seq<Box>

    /** The linked skyline as the loops below see it. */
    ghost predicate Skyline(cs: seq<Corner>)
      reads this`activeHead, this`Active, Active
    {
      activeHead == First(Active) && Chain(Active) && Holds(Active, cs)
    }

    /** Every node of the pool is on exactly one of the two lists. */
    ghost predicate Accounted()
      reads this`freeHead, this`Active, this`Free, this`numNodes, Free
    {
      && Chain(Free) && freeHead == First(Free)
      && Distinct(Active) && Distinct(Free) && Apart(Active, Free)
      && Within(Active, Pool) && Within(Free, Pool) && |Active| + |Free| == numNodes + 2
    }

    ghost predicate Valid()
      reads this, Active, Free
    {
      && 1 <= width <= 0xffff && 0 <= height <= 0xffff && align >= 1 && numNodes >= 1
      && Skyline(Corners) && |Heights| == width && Profile(Corners, Heights, height)
      && Accounted() && Packed(Placed, Heights, height)
    }

    constructor InitTarget(width: int, height: int, nodes: seq<Node>)
      requires 1 <= width <= 0xffff && 0 <= height <= 0xffff
      requires nodes != [] && Distinct(nodes)
      modifies nodes
      ensures Valid()
      ensures this.width == width && this.height == height && numNodes == |nodes| && heuristic == BottomLeft
      ensures Heights == seq(width, _ => 0) && Placed == [] && Corners == [Corner(0, 0), Corner(width, MAXVAL)]
      ensures align == Quantum(width, |nodes|)
      ensures fresh(Active) && Free == nodes && fresh(Pool - (set n | n in nodes))
    {
      hide Profile, Packed, Quantum, Chain, Holds, Distinct, Apart, Within;
      LevelGround(width, height);
      ThreadFreeList(nodes);
      var node1 := new Node(Coord(width), MAXVAL, null);
      var node0 := new Node(0, 0, node1);
      TwoNodes(node0, node1);
      FreshPool(node0, node1, nodes);
      this.width, this.height, this.numNodes, this.heuristic := width, height, |nodes|, BottomLeft;
      this.align := Quantum(width, |nodes|);
      this.activeHead, this.freeHead := node0, nodes[0];
      Active, Free := [node0, node1], nodes;
      Pool := {node0, node1} + (set n | n in nodes);
      Corners, Heights, Placed := [Corner(0, 0), Corner(width, MAXVAL)], seq(width, _ => 0), [];
    }

    /** Chooses between packing every width as it is and rounding widths to multiples. */
    method SetupAllowOutOfMem(allow: bool)
      requires Valid()
      modifies this`align
      ensures Valid()
      ensures allow ==> align == 1
      ensures !allow ==> align == Quantum(width, numNodes)
    {
      if allow {
        align := 1;
      } else {
        align := Quantum(width, numNodes);
      }
    }

    method SetupHeuristic(h: Heuristic)
      requires Valid()
      modifies this`heuristic
      ensures Valid() && heuristic == h
    {
      heuristic := h;
    }

    lemma HeadIs(cs: seq<Corner>)
      requires Skyline(cs) && WellFormed(cs, width)
      ensures |Active| >= 2 && activeHead == Active[0] && |cs| == |Active| && cs[0].x == 0
    {
    }

    /** What node `i` of the skyline says. */
    lemma At(cs: seq<Corner>, i: nat)
      requires Skyline(cs) && WellFormed(cs, width) && i < |cs|
      ensures |Active| == |cs| && Active[i].x == cs[i].x && Active[i].y == cs[i].y && 0 <= cs[i].x <= width
      ensures if i + 1 < |cs|
              then cs[i].x < cs[i + 1].x && Active[i].next == Active[i + 1] && Active[i + 1].x == cs[i + 1].x
              else cs[i].x == width && Active[i].next == null
    {
    }

    /** The height at which a rectangle `w` wide rests when its left edge is at `x0`, and the waste, both `int`s. */
    method FindMinY(first: Node, x0: int, w: int, ghost k: nat, ghost cs: seq<Corner>, ghost hs: seq<int>)
      returns (y: int, waste: int)
      requires Skyline(cs) && Profile(cs, hs, height) && height >= 0
      requires k < |Active| && Active[k] == first && OnStretch(cs, k, x0)
      requires w > 0 && InRange(hs, x0, w) && |hs| == width
      ensures y == Rest(hs, x0, w) && y <= height
      ensures Rating(y, waste, x0) == Rated(cs, k, x0, w)
    {
      hide Walk, MaxOver, Denotes, Skyline, WellFormed, Int32;
      var node: Node? := first;
      var x1 := x0 + w;
      ghost var i: nat := k;
      var visitedWidth := 0;
      ghost var total := 0;
      y, waste := 0, 0;
      InWord(0);
      MaxOverNone(hs, x0);
      At(cs, i);
      while node.x < x1
        invariant k <= i < |cs| == |Active| && node == Active[i] && node.x == cs[i].x && (i > k ==> cs[i].x > x0)
        invariant y == MaxOver(hs, x0, Clip(cs[i].x, x0, x1)) && y <= height
        invariant Walk(cs, i, x0, w, y, visitedWidth, total) == Walk(cs, k, x0, w, 0, 0, 0) && waste == Int32(total)
        decreases |cs| - i
      {
        At(cs, i);
        WalkOn(cs, i, x0, w, y, visitedWidth, total);
        PassStretch(cs, hs, i, x0, x1);
        if node.y > y {
          Int32Adds(total, visitedWidth * (node.y - y));
          waste := Int32(waste + Int32(visitedWidth * (node.y - y)));
          total := total + visitedWidth * (node.y - y);
          y := node.y;
          if node.x < x0 {
            visitedWidth := visitedWidth + node.next.x - x0;
          } else {
            visitedWidth := visitedWidth + node.next.x - node.x;
          }
        } else {
          var underWidth := node.next.x - node.x;
          if underWidth + visitedWidth > w {
            underWidth := w - visitedWidth;
          }
          Int32Adds(total, underWidth * (y - node.y));
          waste := Int32(waste + Int32(underWidth * (y - node.y)));
          total := total + underWidth * (y - node.y);
          visitedWidth := visitedWidth + underWidth;
        }
        node := node.next;
        i := i + 1;
      }
      WalkDone(cs, i, x0, w, y, visitedWidth, total);
    }

    /** The node a link leads to. */
    function Target(link: Link): Node?
      reads this, if link.NextLink? then {link.of} else {}
    {
      match link
      case NoLink => null
      case HeadLink => activeHead
      case NextLink(n) => n.next
    }

    /** `res` is a spot on stretch `j` for a rectangle `w` wide, at the height where it rests. */
    ghost predicate Spot(res: FindResult, j: nat, w: int, cs: seq<Corner>, hs: seq<int>)
      reads this
    {
      && j < |Active| && res.link == LinkTo(Active, j)
      && OnStretch(cs, j, res.x) && InRange(hs, res.x, w) && res.y == Rest(hs, res.x, w)
    }

    /** The first pass: rectangles `w` wide with their left edge at a corner. */
    method FindLeftAligned(w: int, h: int, ghost cs: seq<Corner>, ghost hs: seq<int>)
      returns (res: FindResult, bestWaste: int, ghost j: nat)
      requires Skyline(cs) && Profile(cs, hs, height) && |hs| == width && height <= 0xffff && w > 0 && h > 0
      ensures res.link == NoLink ==> res.y == FAR
      ensures res.link != NoLink ==> Spot(res, j, w, cs, hs) && res.x == cs[j].x
      ensures heuristic.BottomLeft? ==> LowestLeftmost(hs, w, res)
      ensures heuristic.BestFit? ==> LowestFitting(hs, height, w, h, res)
      ensures heuristic.BestFit? ==> BestLeft(cs, width, height, w, h, |cs|, Rating(res.y, bestWaste, res.x))
      ensures heuristic.BestFit? && res.link != NoLink ==> Rating(res.y, bestWaste, res.x) == Rated(cs, j, res.x, w)
    {
      hide Denotes, Rest, Distinct, Rated, BestLeft, Skyline, LeftmostUpTo, LowestUpTo, LowestLeftmost, LowestFitting;
      var best, bestY := NoLink, FAR;
      bestWaste, j := FAR, 0;
      NoneYet(cs, hs, w, h, height, Rating(bestY, bestWaste, 0));
      At(cs, 0);
      HeadIs(cs);
      var node: Node? := activeHead;
      var prev := HeadLink;
      ghost var i: nat := 0;
      while node.x + w <= width
        invariant i < |cs| == |Active| && node == Active[i] && node.x == cs[i].x && prev == LinkTo(Active, i)
        invariant j <= i
        invariant best != NoLink ==> j < i && best == LinkTo(Active, j) && InRange(hs, cs[j].x, w)
        invariant bestY == if best == NoLink then FAR else Rest(hs, cs[j].x, w)
        invariant heuristic.BottomLeft? ==> (best == NoLink <==> i == 0) && LeftmostUpTo(cs, hs, w, i, j, bestY)
        invariant heuristic.BestFit? ==> LowestUpTo(cs, hs, w, i, height - h, bestY)
        invariant heuristic.BestFit? && best != NoLink ==> bestY + h <= height
        invariant heuristic.BestFit? && best != NoLink ==> Rating(bestY, bestWaste, cs[j].x) == Rated(cs, j, cs[j].x, w)
        invariant heuristic.BestFit? ==>
                    BestLeft(cs, width, height, w, h, i,
                             Rating(bestY, bestWaste, if best == NoLink then 0 else cs[j].x))
        decreases |cs| - i
      {
        At(cs, i);
        assert OnStretch(cs, i, cs[i].x);
        var y, waste := FindMinY(node, node.x, w, i, cs, hs);
        UpToStep(cs, hs, w, i, j, height - h, bestY, y);
        if heuristic.BestFit? {
          BestLeftStep(cs, width, height, w, h, i, Rating(bestY, bestWaste, if best == NoLink then 0 else cs[j].x),
                       FAR);
        }
        if heuristic == BottomLeft {
          if y < bestY {
            bestY, best, j := y, prev, i;
          }
        } else {
          if y + h <= height {
            if y < bestY || (y == bestY && waste < bestWaste) {
              bestY, bestWaste, best, j := y, waste, prev, i;
            }
          }
        }
        assert heuristic.BottomLeft? ==> LeftmostUpTo(cs, hs, w, i + 1, j, bestY);
        assert heuristic.BestFit? ==> LowestUpTo(cs, hs, w, i + 1, height - h, bestY);
        prev := NextLink(node);
        node := node.next;
        i := i + 1;
      }
      At(cs, j);
      if j > 0 {
        At(cs, j - 1);
      }
      res := FindResult(if best == NoLink then 0 else Target(best).x, bestY, best);
      if heuristic == BottomLeft {
        LeftmostOverall(cs, hs, w, i, j, res);
      } else {
        LowestOverall(cs, hs, height, w, h, i, res);
        BestLeftDone(cs, width, height, w, h, i, Rating(bestY, bestWaste, res.x));
      }
    }

    /** The second pass of best-fit: rectangles with their right edge at a corner. */
    method FindRightAligned(w: int, h: int, left: FindResult, leftWaste: int, ghost leftJ: nat, ghost cs: seq<Corner>,
                            ghost hs: seq<int>)
      returns (res: FindResult, ghost j: nat)
      requires Skyline(cs) && Profile(cs, hs, height) && |hs| == width && height >= 0 && w > 0 && h > 0 && w <= |hs|
      requires left.link != NoLink ==> Spot(left, leftJ, w, cs, hs)
      requires LowestFitting(hs, height, w, h, left)
      requires left.link != NoLink ==>
                 left.x == cs[leftJ].x && Rating(left.y, leftWaste, left.x) == Rated(cs, leftJ, left.x, w)
      requires BestLeft(cs, width, height, w, h, |cs|, Rating(left.y, leftWaste, left.x))
      ensures res.link != NoLink ==> Spot(res, j, w, cs, hs) && Flush(cs, j, res.x, w)
      ensures LowestFitting(hs, height, w, h, res)
      ensures res.link != NoLink ==> BestRated(cs, width, height, w, h, Rated(cs, j, res.x, w))
      ensures res.link != NoLink ==> Rated(cs, j, res.x, w).y == res.y
    {
      hide Denotes, Rest, LowestFitting, Rated, BestLeft, BestRight, Flush, Skyline, WellFormed;
      HeadIs(cs);
      var bestWaste := leftWaste;
      res, j := left, leftJ;
      var tail: Node? := activeHead;
      var node: Node? := activeHead;
      var prev := HeadLink;
      ghost var t: nat, i: nat := 0, 0;
      At(cs, 0);
      while tail.x < w
        invariant t < |cs| == |Active| && tail == Active[t] && tail.x == cs[t].x
        invariant forall k :: 0 <= k < t ==> cs[k].x < w
        decreases |cs| - t
      {
        At(cs, t);
        tail := tail.next;
        t := t + 1;
      }
      BestRightStart(cs, width, height, w, h, t, Rating(res.y, bestWaste, res.x));
      if res.link != NoLink {
        FlushLeft(cs, j, res.x, w);
      }
      while tail != null
        invariant t <= |cs| && tail == (if t < |cs| then Active[t] else null)
        invariant i < |cs| - 1 && |cs| == |Active| && node == Active[i] && prev == LinkTo(Active, i)
        invariant t < |cs| ==> cs[i].x <= cs[t].x - w
        invariant res.link != NoLink ==> Spot(res, j, w, cs, hs) && Flush(cs, j, res.x, w)
        invariant res.link != NoLink ==> Rating(res.y, bestWaste, res.x) == Rated(cs, j, res.x, w)
        invariant LowestFitting(hs, height, w, h, res)
        invariant BestLeft(cs, width, height, w, h, |cs|, Rating(res.y, bestWaste, res.x))
        invariant BestRight(cs, height, w, h, t, Rating(res.y, bestWaste, res.x))
        decreases |cs| - t
      {
        At(cs, t);
        At(cs, i);
        var xpos := tail.x - w;
        while node.next.x <= xpos
          invariant i < |cs| - 1 && node == Active[i] && prev == LinkTo(Active, i) && cs[i].x <= xpos
          invariant node.next == Active[i + 1] && node.next.x == cs[i + 1].x
          decreases |cs| - i
        {
          prev := NextLink(node);
          node := node.next;
          i := i + 1;
          At(cs, i);
        }
        assert OnStretch(cs, i, xpos);
        var y, waste := FindMinY(node, xpos, w, i, cs, hs);
        BestRightStep(cs, width, height, w, h, t, i, Rating(res.y, bestWaste, res.x));
        FlushRight(cs, i, xpos, w, t);
        if y + h < height {
          if y <= res.y {
            if y < res.y || waste < bestWaste || (waste == bestWaste && xpos < res.x) {
              LowerFits(hs, height, w, h, res, FindResult(xpos, y, prev));
              res, bestWaste, j := FindResult(xpos, y, prev), waste, i;
            }
          }
        }
        tail := tail.next;
        t := t + 1;
      }
    }

    /** Where a rectangle `w0` wide and `h` high should go. */
    method FindBestPos(w0: int, h: int) returns (res: FindResult, ghost j: nat)
      requires Valid() && w0 > 0 && h > 0
      requires heuristic.BestFit? ==> RoundUp(w0, align) <= width
      ensures res.link != NoLink ==> Spot(res, j, RoundUp(w0, align), Corners, Heights)
      ensures heuristic.BottomLeft? && res.link != NoLink ==> res.x == Corners[j].x
      ensures heuristic.BottomLeft? ==> LowestLeftmost(Heights, RoundUp(w0, align), res)
      ensures heuristic.BestFit? ==> LowestFitting(Heights, height, RoundUp(w0, align), h, res)
      ensures res.link != NoLink ==> Flush(Corners, j, res.x, RoundUp(w0, align))
      ensures heuristic.BestFit? && res.link != NoLink ==>
                var rated := Rated(Corners, j, res.x, RoundUp(w0, align));
                rated.y == res.y && BestRated(Corners, width, height, RoundUp(w0, align), h, rated)
    {
      hide Rated, BestRated, BestLeft;
      ghost var cs, hs := Corners, Heights;
      var w := RoundUp(w0, align);
      var waste;
      res, waste, j := FindLeftAligned(w, h, cs, hs);
      if heuristic == BestFit {
        res, j := FindRightAligned(w, h, res, waste, j, cs, hs);
      }
    }

    /** `run` is a stretch of linked nodes apart from the free list. */
    ghost predicate Loose(run: seq<Node>, cs: seq<Corner>)
      reads this`freeHead, this`Free, run, Free
    {
      && Chain(run) && Holds(run, cs) && Distinct(run) && Within(run, Pool)
      && Chain(Free) && freeHead == First(Free) && Distinct(Free) && Within(Free, Pool)
      && Apart(run, Free)
    }

    /** Moves the front node of a run to the free list. */
    method Release(node: Node, ghost run: seq<Node>, ghost cs: seq<Corner>) returns (next: Node?)
      requires run != [] && node == run[0] && Loose(run, cs)
      modifies this`freeHead, this`Free, node`next
      ensures next == First(run[1..]) && Loose(run[1..], cs[1..])
      ensures Free == [node] + old(Free)
    {
      RunTail(run, cs, Free);
      next := node.next;
      node.next := freeHead;
      freeHead := node;
      PushFront(node, Free);
      Free := [node] + Free;
    }

    /** Frees nodes from `a[k]` on while their successor begins by `limit`; `a[last]` is the first left. */
    method ReleaseRun(node: Node, limit: int, ghost a: seq<Node>, ghost cs: seq<Corner>, ghost k: nat, ghost last: nat)
      returns (rest: Node)
      requires k < |a| == |cs| && node == a[k] && Loose(a[k..], cs[k..]) && last == FirstKept(cs, k, limit)
      modifies this`freeHead, this`Free, a[k..]
      ensures rest == a[last]
      ensures Loose(a[last..], cs[last..])
      ensures Free == Reversed(a[k..last]) + old(Free)
    {
      hide Loose, Reversed;
      rest := node;
      ghost var m := k;
      LooseFront(a[m..], cs[m..]);
      Tails(a, cs, k, m);
      while rest.next != null && rest.next.x <= limit
        invariant k <= m < |a| && rest == a[m] && rest == a[k..][m - k]
        invariant rest.next == First(a[m + 1..]) && (m + 1 < |a| ==> rest.next.x == cs[m + 1].x)
        invariant FirstKept(cs, k, limit) == FirstKept(cs, m, limit)
        invariant Loose(a[m..], cs[m..])
        invariant Free == Reversed(a[k..m]) + old(Free)
        decreases |a| - m
      {
        ReversedStep(a, k, m, old(Free));
        Tails(a, cs, k, m);
        rest := Release(rest, a[m..], cs[m..]);
        m := m + 1;
        LooseFront(a[m..], cs[m..]);
      }
    }

    /** What the front node of a run says about the next. */
    lemma LooseFront(run: seq<Node>, cs: seq<Corner>)
      requires run != [] && Loose(run, cs)
      ensures |run| == |cs| && run[0].next == First(run[1..]) && (|run| > 1 ==> run[1].x == cs[1].x)
    {
    }

    /** `pre` is the skyline up to a new node that nothing follows yet. */
    ghost predicate Leads(pre: seq<Node>, cs: seq<Corner>, node: Node)
      reads this`activeHead, pre
    {
      && ChainTo(pre, node) && Holds(pre, cs) && Distinct(pre) && Within(pre, Pool)
      && activeHead == First(pre + [node]) && node in Pool
    }

    /** Takes the first free node for the corner (`x`, `top`). */
    method TakeFree(x: int, top: int) returns (node: Node)
      requires Skyline(Corners) && Accounted() && freeHead != null && 0 <= x <= 0xffff && 0 <= top <= 0xffff
      modifies this`freeHead, this`Free, Pool
      ensures node in Pool && node !in Active && node !in Free && node.x == x && node.y == top
      ensures Skyline(Corners) && Distinct(Active) && Within(Active, Pool) && |Active| + 1 + |Free| == numNodes + 2
      ensures Chain(Free) && freeHead == First(Free) && Distinct(Free) && Within(Free, Pool) && Apart(Active, Free)
    {
      FreeTail(Free);
      ApartMembers(Active, Free);
      node := freeHead;
      node.x := Coord(x);
      node.y := Coord(top);
      freeHead := node.next;
      Free := Free[1..];
    }

    /** Points the link before column `x` at `node` instead of at what comes after. */
    method Redirect(link: Link, node: Node, x: int, ghost j: nat, ghost keep: nat) returns (cur: Node)
      requires Skyline(Corners) && Distinct(Active) && OnStretch(Corners, j, x) && link == LinkTo(Active, j)
      requires keep == Kept(Corners, j, x) && node !in Active
      modifies this`activeHead, Active`next
      ensures cur == Active[keep] && activeHead == First(Active[..keep] + [node])
      ensures ChainTo(Active[..keep], node) && Chain(Active[keep..])
      ensures unchanged(Active`x) && unchanged(Active`y)
    {
      cur := Target(link);
      if cur.x < x {
        var next := cur.next;
        cur.next := node;
        cur := next;
      } else {
        if link.NextLink? {
          link.of.next := node;
        } else {
          activeHead := node;
        }
      }
    }

    /** Takes a free node for the corner (`x`, `top`) and points the link before it at it. */
    method Hook(link: Link, x: int, top: int, ghost j: nat) returns (node: Node, cur: Node)
      requires Skyline(Corners) && Accounted() && freeHead != null
      requires OnStretch(Corners, j, x) && link == LinkTo(Active, j) && 0 <= x <= 0xffff && 0 <= top <= 0xffff
      modifies this`activeHead, this`freeHead, this`Free, Pool
      ensures var keep := Kept(Corners, j, x);
              && cur == Active[keep] && node.x == x && node.y == top
              && Leads(Active[..keep], Corners[..keep], node)
              && Loose(Active[keep..], Corners[keep..])
              && Separate(Active[..keep], node, Active[keep..], Free)
      ensures |Active| + 1 + |Free| == numNodes + 2
    {
      hide Distinct, Apart, Within, ChainTo;
      ghost var keep := Kept(Corners, j, x);
      node := TakeFree(x, top);
      SplitRun(Active, Corners, keep, Free);
      SplitWithin(Active, keep, Pool);
      ApartMembers(Active, Free);
      cur := Redirect(link, node, x, j, keep);
    }

    /** Points the new node at what is left of the skyline and trims its first stretch. */
    method Trim(node: Node, cur: Node, limit: int, ghost a: seq<Node>, ghost cs: seq<Corner>, ghost keep: nat,
                ghost m: nat)
      requires keep <= m < |a| == |cs| && cur == a[m] && 0 <= limit <= 0xffff
      requires Leads(a[..keep], cs[..keep], node) && Loose(a[m..], cs[m..]) && Separate(a[..keep], node, a[m..], Free)
      modifies node`next, cur`x
      ensures node.next == cur && node.x == old(node.x)
      ensures ChainTo(a[..keep], node) && Holds(a[..keep], cs[..keep]) && Chain(a[m..])
      ensures Holds(a[m..], [Corner(Max(cs[m].x, limit), cs[m].y)] + cs[m + 1..])
      ensures Chain(Free)
    {
      node.next := cur;
      if cur.x < limit {
        cur.x := Coord(limit);
      }
    }

    /** Joins the new node to what is left of the skyline and trims the stretch after it. */
    method Stitch(node: Node, cur: Node, limit: int, ghost a: seq<Node>, ghost cs: seq<Corner>, ghost keep: nat,
                  ghost m: nat, ghost corner: Corner)
      requires corner == Corner(node.x, node.y)
      requires keep <= m < |a| == |cs| && cur == a[m] && 0 <= limit <= 0xffff
      requires Leads(a[..keep], cs[..keep], node) && Loose(a[m..], cs[m..]) && Separate(a[..keep], node, a[m..], Free)
      requires keep + 1 + |a| - m + |Free| == numNodes + 2
      modifies node`next, cur`x, this`Active, this`Corners
      ensures Corners == Joined(cs, keep, m, corner, limit)
      ensures Skyline(Corners) && Accounted()
    {
      hide Distinct, Within, Chain, ChainTo, Holds, Separate;
      Trim(node, cur, limit, a, cs, keep, m);
      JoinChains(a[..keep], node, a[m..], cs[..keep], corner, [Corner(Max(cs[m].x, limit), cs[m].y)] + cs[m + 1..]);
      JoinDistinct(a[..keep], node, a[m..], Free);
      JoinWithin(a[..keep], node, a[m..], Pool);
      Active := a[..keep] + [node] + a[m..];
      Corners := Joined(cs, keep, m, corner, limit);
      assert Corners == cs[..keep] + [corner] + ([Corner(Max(cs[m].x, limit), cs[m].y)] + cs[m + 1..]);
    }

    /** From `cur` on, frees what the new node covers and joins the rest to it. */
    method Level(node: Node, cur: Node, limit: int, ghost a: seq<Node>, ghost cs: seq<Corner>, ghost keep: nat,
                 ghost m: nat, ghost corner: Corner)
      requires corner == Corner(node.x, node.y) && 0 <= limit <= 0xffff
      requires keep < |a| == |cs| && cur == a[keep] && m == FirstKept(cs, keep, limit)
      requires Leads(a[..keep], cs[..keep], node)
      requires Loose(a[keep..], cs[keep..]) && Separate(a[..keep], node, a[keep..], Free)
      requires |a| + 1 + |Free| == numNodes + 2
      modifies this`freeHead, this`Active, this`Free, this`Corners, node`next, a[keep..]
      ensures Corners == Joined(cs, keep, m, corner, limit)
      ensures Skyline(Corners) && Accounted()
    {
      ApartMembers(a[..keep], a[keep..]);
      hide Loose, Separate, Distinct, Within, Skyline, Accounted, Holds;
      ghost var free := Free;
      var rest := ReleaseRun(cur, limit, a, cs, keep, m);
      SeparateAfter(a, keep, m, node, free);
      assert rest == a[keep..][m - keep];
      Stitch(node, rest, limit, a, cs, keep, m, corner);
    }

    /** Puts a corner at (`x`, `top`) on stretch `j` and levels the `w` columns from there. */
    method Insert(link: Link, x: int, w: int, top: int, ghost j: nat)
      requires Skyline(Corners) && Accounted() && freeHead != null && 0 <= width <= 0xffff
      requires OnStretch(Corners, j, x) && link == LinkTo(Active, j)
      requires w > 0 && 0 <= x && x + w <= width && 0 <= top <= 0xffff
      modifies this`activeHead, this`freeHead, this`Active, this`Free, this`Corners, Pool
      ensures Skyline(Corners) && Accounted()
      ensures Corners == Splice(old(Corners), j, x, w, top)
    {
      ghost var a, cs, keep := Active, Corners, Kept(Corners, j, x);
      hide Skyline, Accounted, Leads, Loose, Separate;
      var node, cur := Hook(link, x, top, j);
      Level(node, cur, x + w, a, cs, keep, FirstKept(cs, keep, x + w), Corner(x, top));
    }

    /** Records a rectangle at the spot found for it. */
    method Place(res: FindResult, w: int, h: int, window: int, ghost j: nat)
      requires Valid() && Spot(res, j, window, Corners, Heights)
      requires 0 < w <= window && 0 < h && res.y + h <= height && freeHead != null
      modifies this`activeHead, this`freeHead, this`Active, this`Free, this`Corners, this`Heights, this`Placed, Pool
      ensures Valid()
      ensures Stacked(old(Corners), old(Heights), old(Placed), Corners, Heights, Placed, j, Box(res.x, res.y, w, h))
      ensures old(Corners)[j].x == res.x ==> RaisedWidth(old(Corners), j, res.x, w) == w
      ensures Flush(old(Corners), j, res.x, window) ==> w <= RaisedWidth(old(Corners), j, res.x, w) <= window
    {
      hide Skyline, Accounted, Profile, Packed, Splice, RaisedWidth, Rest, Flush;
      SpotRaises(Corners, Heights, height, j, res.x, w, window);
      ghost var cs' := Splice(Corners, j, res.x, w, res.y + h);
      ghost var hs' := Raise(Heights, res.x, RaisedWidth(Corners, j, res.x, w), res.y + h);
      ghost var boxes' := Placed + [Box(res.x, res.y, w, h)];
      PlaceOnSkyline(Corners, Heights, height, Placed, j, Box(res.x, res.y, w, h), window);
      Insert(res.link, res.x, w, res.y + h, j);
      Heights, Placed := hs', boxes';
    }

    /** Puts one rectangle into the skyline, or leaves everything as it was. */
    method PackRectangle(w: int, h: int) returns (res: FindResult, ghost j: nat)
      requires Valid() && w > 0 && h > 0
      requires heuristic.BestFit? ==> RoundUp(w, align) <= width
      modifies this`activeHead, this`freeHead, this`Active, this`Free, this`Corners, this`Heights, this`Placed, Pool
      ensures Valid()
      ensures res.link != NoLink <==> old(Free) != [] && Placeable(old(Heights), height, RoundUp(w, align), h)
      ensures res.link == NoLink ==> Corners == old(Corners) && Heights == old(Heights) && Placed == old(Placed)
      ensures res.link == NoLink ==> Free == old(Free)
      ensures res.link != NoLink ==>
                Stacked(old(Corners), old(Heights), old(Placed), Corners, Heights, Placed, j, Box(res.x, res.y, w, h))
      ensures res.link != NoLink ==> Lowest(old(Heights), height, RoundUp(w, align), h, res.x, res.y)
      ensures res.link != NoLink && heuristic.BottomLeft? ==> Leftmost(old(Heights), RoundUp(w, align), res.x, res.y)
      ensures res.link != NoLink && heuristic.BottomLeft? ==>
                old(Corners)[j].x == res.x && RaisedWidth(old(Corners), j, res.x, w) == w
      ensures res.link != NoLink ==> Flush(old(Corners), j, res.x, RoundUp(w, align))
      ensures res.link != NoLink ==> w <= RaisedWidth(old(Corners), j, res.x, w) <= RoundUp(w, align)
      ensures res.link != NoLink && align == 1 ==> RaisedWidth(old(Corners), j, res.x, w) == w
      ensures res.link != NoLink && heuristic.BestFit? ==>
                var rated := Rated(old(Corners), j, res.x, RoundUp(w, align));
                rated.y == res.y && BestRated(old(Corners), width, height, RoundUp(w, align), h, rated)
    {
      hide Rated, BestRated, Flush;
      res, j := FindBestPos(w, h);
      PlaceableIff(Heights, height, RoundUp(w, align), h, heuristic, res);
      if res.link == NoLink || res.y + h > height || freeHead == null {
        res := res.(link := NoLink);
        return;
      }
      Place(res, w, h, RoundUp(w, align), j);
    }

    /** Rectangles narrow enough for the best-fit pass to find a first right edge. */
    ghost predicate Admissible(r: Rect)
      reads this
      requires align >= 1
    {
      && 0 <= r.w <= MAXVAL && 0 <= r.h <= MAXVAL
      && (heuristic.BestFit? && !r.Empty() ==> RoundUp(r.w, align) <= width)
    }

    /** The nodes not in the skyline are free. */
    lemma FreeLeft()
      requires Valid()
      ensures |Free| == numNodes + 2 - |Corners|
    {
    }

    /** With a node for every column the free list never runs dry. */
    lemma EnoughNodes()
      requires Valid() && numNodes >= width
      ensures Free != []
    {
      CornerCount(Corners, width);
    }

    ghost function Now(): Moment
      reads this`Heights, this`Free
    {
      Moment(Heights, Free != [])
    }

    /** One rectangle of the middle loop; `at` is its position in `Placed`, or -1. */
    method PackOne(r: Rect) returns (r': Rect, ghost at: int)
      requires Valid() && Admissible(r)
      modifies this`activeHead, this`freeHead, this`Active, this`Free, this`Corners, this`Heights, this`Placed, Pool
      ensures Valid() && r'.SameRequest(r)
      ensures Answered(r', at, |old(Placed)|, Placed)
      ensures at == if |Placed| == |old(Placed)| then -1 else |old(Placed)|
      ensures old(Placed) <= Placed && |Placed| <= |old(Placed)| + 1
      ensures at == -1 <==> r.Empty() || old(Free) == [] || !Placeable(old(Heights), height, RoundUp(r.w, align), r.h)
      ensures Turn(r', at, old(Now()), Now(), height, align, heuristic)
    {
      hide Skyline, Accounted, Profile, Packed, Placeable, Lowest, Leftmost, Rated, BestRated, Flush, RaisedWidth,
           Raise, Splice, RoundUp;
      at := -1;
      if r.Empty() {
        r' := r.(x := 0, y := 0);
      } else {
        ghost var j, before := 0, Placed;
        var res;
        res, j := PackRectangle(r.w, r.h);
        if res.link != NoLink {
          InTarget(Placed, Heights, height, |before|);
          r' := r.(x := Coord(res.x), y := Coord(res.y));
          at := |before|;
          assert Lifted(old(Heights), Heights, r'.x, RaisedWidth(old(Corners), j, res.x, r.w), r'.y, r'.h);
        } else {
          r' := r.(x := MAXVAL, y := MAXVAL);
        }
      }
    }

    /** The middle loop: `at[i]` is the position of rectangle `i` in `Placed`, or -1. */
    method PackInOrder(rects: array<Rect>) returns (ghost at: seq<int>, ghost moments: seq<Moment>)
      requires Valid() && forall i :: 0 <= i < rects.Length ==> Admissible(rects[i])
      modifies this`activeHead, this`freeHead, this`Active, this`Free, this`Corners, this`Heights, this`Placed, Pool
      modifies rects
      ensures Valid() && old(Placed) <= Placed && |at| == rects.Length
      ensures forall i :: 0 <= i < rects.Length ==> rects[i].SameRequest(old(rects[i]))
      ensures forall i :: 0 <= i < rects.Length ==> Answered(rects[i], at[i], |old(Placed)|, Placed)
      ensures Increasing(at)
      ensures forall b :: |old(Placed)| <= b < |Placed| ==> b in at
      ensures Turns(rects[..], at, moments, height, align, heuristic)
      ensures moments[0] == old(Now()) && moments[rects.Length] == Now()
      ensures forall i :: 0 <= i < rects.Length && at[i] == -1 ==> Refused(rects[i], Now(), height, align)
    {
      hide Skyline, Accounted, Profile, Packed, Placeable, Turn, Refused;
      at, moments := [], [Now()];
      var i := 0;
      while i < rects.Length
        invariant 0 <= i <= rects.Length && |at| == i
        invariant Valid() && old(Placed) <= Placed
        invariant forall k :: i <= k < rects.Length ==> rects[k] == old(rects[k])
        invariant forall k :: 0 <= k < i ==> rects[k].SameRequest(old(rects[k]))
        invariant forall k :: 0 <= k < i ==> Answered(rects[k], at[k], |old(Placed)|, Placed)
        invariant Increasing(at)
        invariant forall b :: |old(Placed)| <= b < |Placed| ==> b in at
        invariant Turns(rects[..i], at, moments, height, align, heuristic)
        invariant moments[0] == old(Now()) && moments[i] == Now()
      {
        assert Admissible(old(rects[i]));
        var r;
        ghost var a, done := 0, rects[..i];
        r, a := PackOne(rects[i]);
        rects[i] := r;
        TurnsExtend(done, at, moments, height, align, heuristic, r, a, Now());
        assert rects[..i + 1] == done + [r];
        at, moments := at + [a], moments + [Now()];
        i := i + 1;
      }
      assert rects[..i] == rects[..];
      RefusalsLast(rects[..], at, moments, height, align, heuristic);
    }

    /**
     Packs an array of rectangles in the order the sort by height chose, whatever permutation
     that is, and puts them back by the saved index.
     */
    method PackRects(rects: array<Rect>, order: seq<nat>) returns (ghost at: seq<int>, ghost moments: seq<Moment>)
      requires Valid() && Permutation(order, rects.Length)
      requires forall i :: 0 <= i < rects.Length ==> Admissible(rects[i])
      modifies this`activeHead, this`freeHead, this`Active, this`Free, this`Corners, this`Heights, this`Placed, Pool
      modifies rects
      ensures Valid() && old(Placed) <= Placed && |at| == rects.Length
      ensures forall i :: 0 <= i < rects.Length ==> rects[i].SameInput(old(rects[i]))
      ensures forall i :: 0 <= i < rects.Length ==> Answered(rects[i], at[i], |old(Placed)|, Placed)
      ensures forall i :: 0 <= i < rects.Length ==>
                rects[i].wasPacked == if at[i] == -1 && !rects[i].Empty() then 0 else 1
      ensures OneToOne(at)
      ensures forall b :: |old(Placed)| <= b < |Placed| ==> b in at
      ensures TurnsBy(order, rects[..], at, moments, height, align, heuristic)
      ensures moments[0] == old(Now()) && moments[rects.Length] == Now()
      ensures forall i :: 0 <= i < rects.Length && at[i] == -1 ==> Refused(rects[i], Now(), height, align)
    {
      hide Skyline, Accounted, Profile, Packed, Increasing, Answered, OneToOne, Unsort, Turns, TurnsBy, Refused;
      SaveAndSort(rects, order);
      at, moments := PackInOrder(rects);
      TurnsCount(rects[..], at, moments, height, align, heuristic);
      ghost var answers := rects[..];
      SortBack(rects, order);
      UnsortAnswers(at, order, answers, rects[..], |old(Placed)|, Placed);
      ghost var back, sorted := rects[..], at;
      at := Unsort(at, order);
      SetFlags(rects);
      TurnsSortedBack(order, answers, sorted, moments, height, align, heuristic, rects[..]);
      FlagsSet(back, rects[..], at, |old(Placed)|, Placed);
    }
  }

  /** The skyline of `k` unit squares side by side from column 0. */
  function Stairs(k: nat, width: int): seq<Corner> {
    seq(k, i => Corner(i, 1)) + [Corner(k, 0), Corner(width, MAXVAL)]
  }

  lemma StairsStep(k: nat, width: int)
    requires k + 1 < width
    ensures Splice(Stairs(k, width), k, k, 1, 1) == Stairs(k + 1, width)
  {
    var cs := Stairs(k, width);
    assert cs[k] == Corner(k, 0) && cs[k + 1] == Corner(width, MAXVAL);
    assert FirstKept(cs, k, k + 1) == k;
    assert cs[..k] == seq(k, i => Corner(i, 1));
    assert Stairs(k + 1, width)[..k] == seq(k, i => Corner(i, 1));
  }

  /** With fewer nodes than columns the last of `n` unit squares still finds its window. */
  lemma RoomForAll(width: int, n: int)
    requires 1 <= n < width
    ensures n - 1 + Quantum(width, n) <= width
  {
    QuantumCovers(width, n);
    var a := Quantum(width, n);
    if n - 1 + a > width {
      ProductAtLeast(n, a - 1, width + 1 - n);
    }
  }

  lemma ProductAtLeast(n: int, p: int, q: int)
    requires n >= 1 && p >= q >= 2
    ensures n * p >= q + 2 * (n - 1)
  {
    assert n * p == p + (n - 1) * p;
    assert (n - 1) * p >= (n - 1) * 2;
  }

  /**
   With fewer nodes than columns, rounding widths up does not keep the free list from running
   dry: unit squares use up the nodes, and one more is turned away although there is room for
   it. (At height 1 there is room only if a window is left beside the squares.)
   */
  method AlwaysRunOut(width: int, height: int, nodes: seq<Node>) returns (c: Context, refused: FindResult)
    requires 1 <= width <= 0xffff && 1 <= height <= 0xffff && Distinct(nodes) && 0 < |nodes| < width
    modifies nodes
    ensures c.Valid() && c.width == width && c.height == height && c.numNodes == |nodes|
    ensures c.align == Quantum(width, |nodes|) && c.Free == []
    ensures height >= 2 || |nodes| + c.align <= width ==> Placeable(c.Heights, height, RoundUp(1, c.align), 1)
    ensures refused.link == NoLink
  {
    hide Profile, Packed, Quantum, RoundUp, Context.Skyline, Splice;
    c := new Context.InitTarget(width, height, nodes);
    UnitWindow(c.align);
    RoomForAll(width, |nodes|);
    var k := 0;
    assert c.Corners == Stairs(0, width);
    while k < |nodes|
      invariant 0 <= k <= |nodes| && fresh(c) && fresh(c.Pool - (set n | n in nodes))
      invariant c.Valid() && c.heuristic == BottomLeft && c.width == width && c.height == height
      invariant c.numNodes == |nodes| && c.align == Quantum(width, |nodes|)
      invariant c.Corners == Stairs(k, width) && Terrace(c.Heights, k)
    {
      PackUnitSquare(c, k);
      k := k + 1;
    }
    c.FreeLeft();
    HighestWindow(c.Heights, |nodes|, c.align, height);
    ghost var j;
    refused, j := c.PackRectangle(1, 1);
  }

  /** A unit square takes a whole quantum. */
  lemma UnitWindow(align: int)
    requires align >= 1
    ensures RoundUp(1, align) == align
  {
  }

  /** A unit square goes to the first column not yet raised. */
  method PackUnitSquare(c: Context, k: nat)
    requires c.Valid() && c.heuristic == BottomLeft && c.height >= 1 && k < c.numNodes
    requires c.Corners == Stairs(k, c.width) && Terrace(c.Heights, k) && k + c.align <= c.width && k + 1 < c.width
    modifies c`activeHead, c`freeHead, c`Active, c`Free, c`Corners, c`Heights, c`Placed, c.Pool
    ensures c.Valid() && c.Corners == Stairs(k + 1, c.width) && Terrace(c.Heights, k + 1)
  {
    hide Profile, Packed, Splice, RoundUp, Stairs;
    UnitWindow(c.align);
    LeftmostLevel(c.Heights, k, c.align, c.height);
    StairsLength(k, c.width);
    var res;
    ghost var j;
    res, j := c.PackRectangle(1, 1);
    assert res.x == k && res.y == 0;
    StairsAt(k, c.width, j);
    StairsStep(k, c.width);
  }

  lemma StairsLength(k: nat, width: int)
    ensures |Stairs(k, width)| == k + 2
  {
  }

  lemma StairsAt(k: nat, width: int, j: nat)
    requires k < width && OnStretch(Stairs(k, width), j, k)
    ensures j == k
  {
  }

  /** The first `k` columns are raised to 1 and the others are not. */
  ghost predicate Terrace(hs: seq<int>, k: nat) {
    forall c :: 0 <= c < |hs| ==> hs[c] == if c < k then 1 else 0
  }

  /** There `k` is the leftmost lowest position. */
  lemma LeftmostLevel(hs: seq<int>, k: nat, w: nat, height: int)
    requires 0 < w && k + w <= |hs| && Terrace(hs, k) && height >= 1
    ensures InRange(hs, k, w) && Rest(hs, k, w) == 0 && Fits(hs, height, k, w, 1)
    ensures forall x :: InRange(hs, x, w) ==> Rest(hs, x, w) >= 0 && (x < k ==> Rest(hs, x, w) > 0)
  {
    MaxOverLeast(hs, k, k + w, 0);
    forall x | InRange(hs, x, w) && x < k
      ensures Rest(hs, x, w) > 0
    {
      MaxOverUpper(hs, x, x + w);
      assert hs[x] == 1;
    }
  }

  /** Beside the raised columns, or on top of them. */
  lemma HighestWindow(hs: seq<int>, k: nat, w: nat, height: int)
    requires 0 < w <= |hs| && Terrace(hs, k)
    ensures height >= 2 ==> Fits(hs, height, 0, w, 1)
    ensures height >= 1 && k + w <= |hs| ==> Fits(hs, height, k, w, 1)
  {
    MaxOverLeast(hs, 0, w, 1);
    if k + w <= |hs| {
      MaxOverLeast(hs, k, k + w, 0);
    }
  }

  /**
   With a quantum above 1 best fit can raise more columns than the rectangle has: the third of
   these rectangles ends up flush with a corner on the right, and what is left of its stretch
   goes up with it.
   */
  method RaisesMore(nodes: seq<Node>) returns (res: FindResult, ghost cs: seq<Corner>, ghost j: nat)
    requires Distinct(nodes) && |nodes| == 3
    modifies nodes
    ensures Quantum(11, 3) == 4 && res.link != NoLink
    ensures cs == [Corner(0, 1), Corner(7, 2), Corner(9, 0), Corner(11, MAXVAL)]
    ensures OnStretch(cs, j, res.x) && res.x == 1 && res.y == 2
    ensures RaisedWidth(cs, j, res.x, 5) == 6
  {
    hide Profile, Packed, Context.Skyline, Context.Accounted, Rated, BestRated, Flush, Rest, RaisedWidth, Splice,
         Raise, Placeable, RoundUp, Quantum;
    ThirdQuanta();
    var c := new Context.InitTarget(11, 4, nodes);
    c.SetupHeuristic(BestFit);
    Fitting(c.Corners, c.Heights, 4, 8, 1, 0);
    c.FreeLeft();
    res, j := c.PackRectangle(7, 1);
    FirstSpot(j, res.x);
    assert c.Corners == [Corner(0, 1), Corner(7, 0), Corner(11, MAXVAL)];
    Fitting(c.Corners, c.Heights, 4, 4, 2, 1);
    c.FreeLeft();
    res, j := c.PackRectangle(2, 2);
    SecondSpot(j, res.x);
    Fitting(c.Corners, c.Heights, 4, 8, 1, 2);
    c.FreeLeft();
    cs := c.Corners;
    res, j := c.PackRectangle(5, 1);
    ThirdSpot(j, res.x);
  }

  lemma ThirdQuanta()
    ensures Quantum(11, 3) == 4 && RoundUp(7, 4) == 8 && RoundUp(2, 4) == 4 && RoundUp(5, 4) == 8
  {
  }

  lemma FirstSpot(j: nat, x: int)
    requires var cs := [Corner(0, 0), Corner(11, MAXVAL)];
             && OnStretch(cs, j, x) && x + 8 <= 11 && Flush(cs, j, x, 8)
             && BestRated(cs, 11, 4, 8, 1, Rated(cs, j, x, 8))
    ensures j == 0 && x == 0 && Rated([Corner(0, 0), Corner(11, MAXVAL)], 0, 0, 8).y == 0
    ensures Splice([Corner(0, 0), Corner(11, MAXVAL)], 0, 0, 7, 1) == [Corner(0, 1), Corner(7, 0), Corner(11, MAXVAL)]
  {
    var cs := [Corner(0, 0), Corner(11, MAXVAL)];
    forall x | x == 0 || x == 3
      ensures Rated(cs, 0, x, 8) == Rating(0, 0, x)
    {
      WalkOn(cs, 0, x, 8, 0, 0, 0);
      WalkDone(cs, 1, x, 8, 0, 8, 0);
    }
    assert LeftCandidate(cs, 11, 4, 8, 1, 0);
  }

  lemma SecondSpot(j: nat, x: int)
    requires var cs := [Corner(0, 1), Corner(7, 0), Corner(11, MAXVAL)];
             && OnStretch(cs, j, x) && x + 4 <= 11 && Flush(cs, j, x, 4)
             && BestRated(cs, 11, 4, 4, 2, Rated(cs, j, x, 4))
    ensures j == 1 && x == 7 && Rated([Corner(0, 1), Corner(7, 0), Corner(11, MAXVAL)], 1, 7, 4).y == 0
    ensures Splice([Corner(0, 1), Corner(7, 0), Corner(11, MAXVAL)], 1, 7, 2, 2)
            == [Corner(0, 1), Corner(7, 2), Corner(9, 0), Corner(11, MAXVAL)]
  {
    var cs := [Corner(0, 1), Corner(7, 0), Corner(11, MAXVAL)];
    WalkOn(cs, 1, 7, 4, 0, 0, 0);
    WalkDone(cs, 2, 7, 4, 0, 4, 0);
    assert Rated(cs, 1, 7, 4) == Rating(0, 0, 7);
    assert LeftCandidate(cs, 11, 4, 4, 2, 1);
    forall x | x == 0 || x == 3
      ensures Rated(cs, 0, x, 4).y == 1
    {
      WalkOn(cs, 0, x, 4, 0, 0, 0);
      WalkDone(cs, 1, x, 4, 1, 7 - x, 0);
    }
  }

  lemma ThirdSpot(j: nat, x: int)
    requires var cs := [Corner(0, 1), Corner(7, 2), Corner(9, 0), Corner(11, MAXVAL)];
             && OnStretch(cs, j, x) && x + 8 <= 11 && Flush(cs, j, x, 8)
             && BestRated(cs, 11, 4, 8, 1, Rated(cs, j, x, 8))
    ensures j == 0 && x == 1 && Rated([Corner(0, 1), Corner(7, 2), Corner(9, 0), Corner(11, MAXVAL)], 0, 1, 8).y == 2
    ensures RaisedWidth([Corner(0, 1), Corner(7, 2), Corner(9, 0), Corner(11, MAXVAL)], 0, 1, 5) == 6
  {
    var cs := [Corner(0, 1), Corner(7, 2), Corner(9, 0), Corner(11, MAXVAL)];
    forall x | 0 <= x <= 3
      ensures Rated(cs, 0, x, 8) == Rating(2, 7 - x + if x < 2 then 0 else 2 * (x - 1), x)
    {
      WalkOn(cs, 0, x, 8, 0, 0, 0);
      WalkOn(cs, 1, x, 8, 1, 7 - x, 0);
      if x < 2 {
        WalkDone(cs, 2, x, 8, 2, 9 - x, 7 - x);
      } else {
        WalkOn(cs, 2, x, 8, 2, 9 - x, 7 - x);
        WalkDone(cs, 3, x, 8, 2, 8, 7 - x + 2 * (x - 1));
      }
    }
    assert RightCandidate(cs, 4, 8, 1, 0, 2);
    assert FirstKept(cs, 1, 6) == 1;
  }

  /** The first two rectangles of `WastesMore`. */
  method PackWideAndTall(c: Context)
    requires c.Valid() && c.width == 65535 && c.height == 65535 && c.align == 1 && c.heuristic.BestFit?
    requires c.Corners == [Corner(0, 0), Corner(65535, MAXVAL)] && c.numNodes == 3
    modifies c`activeHead, c`freeHead, c`Active, c`Free, c`Corners, c`Heights, c`Placed, c.Pool
    ensures c.Valid() && c.Corners == WideCorners()
  {
    hide Profile, Packed, Context.Skyline, Context.Accounted, Rated, BestRated, Flush, Rest, RaisedWidth, Splice,
         Raise, Placeable, RoundUp;
    Fitting(c.Corners, c.Heights, 65535, 30000, 60900, 0);
    c.FreeLeft();
    var res;
    ghost var j;
    res, j := c.PackRectangle(30000, 60900);
    WideSpot(j, res.x);
    RoomAbove(c.Corners, c.Heights, 65535, 1, 1, 61000);
    c.FreeLeft();
    res, j := c.PackRectangle(1, 61000);
    TallSpot(j, res.x);
  }

  /** The third. */
  method PackFlat(c: Context) returns (res: FindResult)
    requires c.Valid() && c.width == 65535 && c.height == 65535 && c.align == 1 && c.heuristic.BestFit?
    requires c.Corners == WideCorners() && c.numNodes == 3
    modifies c`activeHead, c`freeHead, c`Active, c`Free, c`Corners, c`Heights, c`Placed, c.Pool
    ensures res.link != NoLink && res.x == 5535 && res.y == 61000
  {
    hide Profile, Packed, Context.Skyline, Context.Accounted, Rated, BestRated, Flush, Rest, RaisedWidth, Splice,
         Raise, Placeable, RoundUp;
    Fitting(c.Corners, c.Heights, 65535, 60000, 10, 61000);
    c.FreeLeft();
    ghost var j;
    res, j := c.PackRectangle(60000, 10);
    FlatSpot(j, res.x);
  }

  lemma WideRatings(cs: seq<Corner>, hs: seq<int>)
    requires cs == WideCorners() && Profile(cs, hs, 65535) && |hs| == 65535
    ensures Fits(hs, 65535, 0, 60000, 10) && Rest(hs, 0, 60000) == Rest(hs, 5535, 60000) == 61000
    ensures Gap(hs, 0, 60000, 61000) == 1832939000 && Gap(hs, 5535, 65535, 61000) == 2170020500
  {
    hide Walk, Gap, MaxOver, Profile;
    WideGap(cs, hs, 0);
    WideGap(cs, hs, 5535);
    WideWalks();
  }

  /**
   On a large target the waste can overflow, and best fit then takes the spot with the larger gap: the
   third of these rectangles rests as high at column 0, where the gap is smaller.
   */
  method WastesMore(nodes: seq<Node>) returns (res: FindResult, ghost hs: seq<int>)
    requires Distinct(nodes) && |nodes| == 3
    modifies nodes
    ensures res.link != NoLink && res.x == 5535 && res.y == 61000 && |hs| == 65535 && Fits(hs, 65535, 0, 60000, 10)
    ensures Rest(hs, 0, 60000) == Rest(hs, 5535, 60000) == 61000
    ensures Gap(hs, 0, 60000, 61000) == 1832939000 && Gap(hs, 5535, 65535, 61000) == 2170020500
  {
    hide Profile, Packed, Context.Skyline, Context.Accounted, Rest, Gap, Quantum, Fits;
    var c := new Context.InitTarget(65535, 65535, nodes);
    c.SetupAllowOutOfMem(true);
    c.SetupHeuristic(BestFit);
    PackWideAndTall(c);
    hs := c.Heights;
    WideRatings(c.Corners, hs);
    res := PackFlat(c);
  }

  lemma WideSpot(j: nat, x: int)
    requires var cs := [Corner(0, 0), Corner(65535, MAXVAL)];
             && OnStretch(cs, j, x) && x + 30000 <= 65535 && Flush(cs, j, x, 30000)
             && BestRated(cs, 65535, 65535, 30000, 60900, Rated(cs, j, x, 30000))
    ensures j == 0 && x == 0 && Rated([Corner(0, 0), Corner(65535, MAXVAL)], 0, 0, 30000).y == 0
    ensures Splice([Corner(0, 0), Corner(65535, MAXVAL)], 0, 0, 30000, 60900)
            == [Corner(0, 60900), Corner(30000, 0), Corner(65535, MAXVAL)]
  {
    var cs := [Corner(0, 0), Corner(65535, MAXVAL)];
    forall x | x == 0 || x == 35535
      ensures Rated(cs, 0, x, 30000) == Rating(0, 0, x)
    {
      WalkOn(cs, 0, x, 30000, 0, 0, 0);
      WalkDone(cs, 1, x, 30000, 0, 30000, 0);
    }
    assert LeftCandidate(cs, 65535, 65535, 30000, 60900, 0);
  }

  lemma TallSpot(j: nat, x: int)
    requires var cs := [Corner(0, 60900), Corner(30000, 0), Corner(65535, MAXVAL)];
             && OnStretch(cs, j, x) && x + 1 <= 65535 && Flush(cs, j, x, 1)
             && BestRated(cs, 65535, 65535, 1, 61000, Rated(cs, j, x, 1))
    ensures j == 1 && x == 30000
    ensures Rated([Corner(0, 60900), Corner(30000, 0), Corner(65535, MAXVAL)], 1, 30000, 1).y == 0
    ensures Splice([Corner(0, 60900), Corner(30000, 0), Corner(65535, MAXVAL)], 1, 30000, 1, 61000) == WideCorners()
  {
    var cs := [Corner(0, 60900), Corner(30000, 0), Corner(65535, MAXVAL)];
    forall x | x == 30000 || x == 65534
      ensures Rated(cs, 1, x, 1) == Rating(0, 0, x)
    {
      WalkOn(cs, 1, x, 1, 0, 0, 0);
      WalkDone(cs, 2, x, 1, 0, 1, 0);
    }
    assert LeftCandidate(cs, 65535, 65535, 1, 61000, 1);
    forall x | x == 0 || x == 29999
      ensures Rated(cs, 0, x, 1).y == 60900
    {
      WalkOn(cs, 0, x, 1, 0, 0, 0);
      WalkDone(cs, 1, x, 1, 60900, 30000 - x, 0);
    }
  }

  lemma FlatSpot(j: nat, x: int)
    requires OnStretch(WideCorners(), j, x) && x + 60000 <= 65535 && Flush(WideCorners(), j, x, 60000)
    requires BestRated(WideCorners(), 65535, 65535, 60000, 10, Rated(WideCorners(), j, x, 60000))
    ensures j == 0 && x == 5535 && Rated(WideCorners(), 0, 5535, 60000).y == 61000
  {
    hide BestRated;
    WideWalks();
    OnlyTwo();
  }

  /** The columns of a low enough stretch are a place for what is no wider. */
  lemma RoomAbove(cs: seq<Corner>, hs: seq<int>, height: int, i: nat, w: int, h: int)
    requires Profile(cs, hs, height) && i + 1 < |cs| && 0 < w <= cs[i + 1].x - cs[i].x && cs[i].y + h <= height
    ensures Placeable(hs, height, w, h)
  {
    StretchLevel(cs, hs, i);
    MaxOverLeast(hs, cs[i].x, cs[i].x + w, cs[i].y);
    assert Fits(hs, height, cs[i].x, w, h);
  }

  /** Under a low enough skyline the left edge is a place. */
  lemma Fitting(cs: seq<Corner>, hs: seq<int>, height: int, w: int, h: int, ceiling: nat)
    requires Profile(cs, hs, height) && 0 < w <= |hs| && ceiling + h <= height
    requires forall i :: 0 <= i < |cs| - 1 ==> cs[i].y <= ceiling
    ensures Placeable(hs, height, w, h)
  {
    forall c | 0 <= c < |hs|
      ensures hs[c] <= ceiling
    {
      var i := SegmentOf(cs, |hs|, c);
    }
    MaxOverLeast(hs, 0, w, ceiling);
    assert Fits(hs, height, 0, w, h);
  }
}
