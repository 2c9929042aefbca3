/**
 The skyline packer on plain values: what a linked skyline denotes (a height for every
 column), where a rectangle may go, and what one placement does to the corners.
 */
module SkylineSpec {
  import Bits
  import opened Basics

  /** A skyline node without its link: the height of the columns from `x` to the next corner. */
  datatype Corner = Corner(x: int, y: int)

  /** A rectangle that has been given a position. */
  datatype Box = Box(x: int, y: int, w: int, h: int)

  /** Corners run strictly left to right from column 0 to the sentinel at `width`. */
  ghost predicate WellFormed(cs: seq<Corner>, width: int) {
    && |cs| >= 2
    && cs[0].x == 0
    && cs[|cs| - 1].x == width
    && (forall i, j :: 0 <= i < j < |cs| ==> cs[i].x < cs[j].x)
    && (forall i :: 0 <= i < |cs| - 1 ==> cs[i].y >= 0)
  }

  /** Column `c` lies on the stretch from corner `i` to the next. */
  ghost predicate OnStretch(cs: seq<Corner>, i: int, c: int) {
    0 <= i < |cs| - 1 && cs[i].x <= c < cs[i + 1].x
  }

  /** The corners describe exactly the column heights `hs`. */
  ghost predicate Denotes(cs: seq<Corner>, hs: seq<int>)
    requires WellFormed(cs, |hs|)
  {
    forall i, c :: OnStretch(cs, i, c) ==> 0 <= c < |hs| && hs[c] == cs[i].y
  }

  /** A skyline no higher than `height` and the column heights it denotes. */
  ghost predicate Profile(cs: seq<Corner>, hs: seq<int>, height: int) {
    && WellFormed(cs, |hs|) && Denotes(cs, hs)
    && (forall i :: 0 <= i < |cs| - 1 ==> cs[i].y <= height)
  }

  /** The tallest of the columns [lo, hi). */
  ghost function MaxOver(hs: seq<int>, lo: int, hi: int): (m: int)
    requires 0 <= lo <= hi <= |hs|
    ensures m >= 0
    decreases hi - lo
  {
    if lo == hi then 0 else Max(MaxOver(hs, lo, hi - 1), hs[hi - 1])
  }

  lemma MaxOverNone(hs: seq<int>, lo: int)
    requires 0 <= lo <= |hs|
    ensures MaxOver(hs, lo, lo) == 0
  {
  }

  lemma {:induction false} MaxOverUpper(hs: seq<int>, lo: int, hi: int)
    requires 0 <= lo <= hi <= |hs|
    ensures forall c :: lo <= c < hi ==> hs[c] <= MaxOver(hs, lo, hi)
    decreases hi - lo
  {
    if lo < hi {
      MaxOverUpper(hs, lo, hi - 1);
    }
  }

  lemma {:induction false} MaxOverLeast(hs: seq<int>, lo: int, hi: int, bound: int)
    requires 0 <= lo <= hi <= |hs| && bound >= 0
    requires forall c :: lo <= c < hi ==> hs[c] <= bound
    ensures MaxOver(hs, lo, hi) <= bound
    decreases hi - lo
  {
    if lo < hi {
      MaxOverLeast(hs, lo, hi - 1, bound);
    }
  }

  /** Passing over one level stretch of columns. */
  lemma {:induction false} MaxOverLevel(hs: seq<int>, lo: int, mid: int, hi: int, y: int)
    requires 0 <= lo <= mid < hi <= |hs| && y >= 0
    requires forall c :: mid <= c < hi ==> hs[c] == y
    ensures MaxOver(hs, lo, hi) == Max(MaxOver(hs, lo, mid), y)
    decreases hi - mid
  {
    if mid + 1 < hi {
      MaxOverLevel(hs, lo, mid, hi - 1, y);
    }
  }

  /** There are at most as many stretches as columns. */
  lemma CornerCount(cs: seq<Corner>, width: int)
    requires WellFormed(cs, width)
    ensures |cs| <= width + 1
  {
    var i := 0;
    while i + 1 < |cs|
      invariant i < |cs| && cs[i].x >= i
    {
      i := i + 1;
    }
  }

  /** The corner whose stretch holds column `c`. */
  lemma SegmentOf(cs: seq<Corner>, width: int, c: int) returns (i: nat)
    requires WellFormed(cs, width) && 0 <= c < width
    ensures OnStretch(cs, i, c)
  {
    i := 0;
    while cs[i + 1].x <= c
      invariant i < |cs| - 1 && cs[i].x <= c
      decreases |cs| - i
    {
      i := i + 1;
    }
  }

  /** The window of `w` columns from `x` lies inside the target. */
  ghost predicate InRange(hs: seq<int>, x: int, w: int) {
    0 <= x && 0 <= w && x + w <= |hs|
  }

  /** The height at which a rectangle over that window comes to rest. */
  ghost function Rest(hs: seq<int>, x: int, w: int): int
    requires InRange(hs, x, w)
  {
    MaxOver(hs, x, x + w)
  }

  /** `x` is a position where a rectangle `w` wide and `h` high stays inside the target. */
  ghost predicate Fits(hs: seq<int>, height: int, x: int, w: int, h: int) {
    InRange(hs, x, w) && Rest(hs, x, w) + h <= height
  }

  /** Sliding a window left to the start of the stretch it begins in never makes it higher. */
  lemma SnapLeft(cs: seq<Corner>, hs: seq<int>, x: int, w: int, i: nat)
    requires WellFormed(cs, |hs|) && Denotes(cs, hs)
    requires OnStretch(cs, i, x) && w > 0 && InRange(hs, x, w)
    ensures InRange(hs, cs[i].x, w) && Rest(hs, cs[i].x, w) <= Rest(hs, x, w)
  {
    MaxOverUpper(hs, x, x + w);
    assert forall c :: cs[i].x <= c <= x ==> OnStretch(cs, i, c);
    MaxOverLeast(hs, cs[i].x, cs[i].x + w, MaxOver(hs, x, x + w));
  }

  /** The last corner of the run from `i` whose successor still begins at or before `limit`. */
  function FirstKept(cs: seq<Corner>, i: nat, limit: int): (m: nat)
    requires i < |cs|
    ensures i <= m < |cs|
    ensures forall k :: i < k <= m ==> cs[k].x <= limit
    ensures m + 1 < |cs| ==> cs[m + 1].x > limit
    decreases |cs| - i
  {
    if i + 1 < |cs| && cs[i + 1].x <= limit then FirstKept(cs, i + 1, limit) else i
  }

  /** Corners before the placement point survive: those left of `x`. */
  function Kept(cs: seq<Corner>, j: nat, x: int): nat
    requires j < |cs|
  {
    if cs[j].x < x then j + 1 else j
  }

  /** A new corner between corners `..keep` and `m..`, whose first stretch now begins no earlier than `limit`. */
  function Joined(cs: seq<Corner>, keep: nat, m: nat, corner: Corner, limit: int): seq<Corner>
    requires keep <= m < |cs|
  {
    cs[..keep] + [corner, Corner(Max(cs[m].x, limit), cs[m].y)] + cs[m + 1..]
  }

  /** The corners after a rectangle `w` wide with its top edge at `top` is put at `x`, on stretch `j`. */
  function Splice(cs: seq<Corner>, j: nat, x: int, w: int, top: int): seq<Corner>
    requires j + 1 < |cs|
  {
    Joined(cs, Kept(cs, j, x), FirstKept(cs, Kept(cs, j, x), x + w), Corner(x, top), x + w)
  }

  /** How many columns that placement raises: `w`, or all the rest of the stretch it splits. */
  function RaisedWidth(cs: seq<Corner>, j: nat, x: int, w: int): int
    requires j + 1 < |cs|
  {
    Max(cs[FirstKept(cs, Kept(cs, j, x), x + w)].x - x, w)
  }

  /** The column heights with [x, x + w) set to `top`. */
  function Raise(hs: seq<int>, x: int, w: int, top: int): (r: seq<int>)
    ensures |r| == |hs|
    ensures forall c :: 0 <= c < |hs| ==> r[c] == if x <= c < x + w then top else hs[c]
  {
    seq(|hs|, c requires 0 <= c < |hs| => if x <= c < x + w then top else hs[c])
  }

  /** A placement at the start of a stretch raises exactly the columns of the rectangle. */
  lemma RaisedExactly(cs: seq<Corner>, width: int, j: nat, x: int, w: int)
    requires WellFormed(cs, width) && OnStretch(cs, j, x) && w > 0 && x + w <= width
    ensures RaisedWidth(cs, j, x, w) >= w && x + RaisedWidth(cs, j, x, w) <= width
    ensures RaisedWidth(cs, j, x, w) == w <==> (cs[j].x == x || cs[j + 1].x <= x + w)
  {
  }

  /** The spot has a corner at the left end of its window or one at the right end. */
  ghost predicate Flush(cs: seq<Corner>, j: nat, x: int, window: int)
    requires j < |cs|
  {
    cs[j].x == x || exists t :: 0 <= t < |cs| && cs[t].x == x + window
  }

  /** From such a spot no more than the window is raised. */
  lemma RaisedAtMost(cs: seq<Corner>, width: int, j: nat, x: int, w: int, window: int)
    requires WellFormed(cs, width) && OnStretch(cs, j, x) && 0 < w <= window && x + window <= width
    requires Flush(cs, j, x, window)
    ensures w <= RaisedWidth(cs, j, x, w) <= window
  {
    RaisedExactly(cs, width, j, x, w);
    if cs[j].x != x {
      var t :| 0 <= t < |cs| && cs[t].x == x + window;
      assert t > j;
      assert cs[j + 1].x <= cs[t].x;
    }
  }

  /** The corners that stay on either side of the placement. */
  lemma SpliceSides(cs: seq<Corner>, width: int, j: nat, x: int, w: int)
    requires WellFormed(cs, width)
    requires OnStretch(cs, j, x) && w > 0 && x + w <= width
    ensures var keep := Kept(cs, j, x);
            var m := FirstKept(cs, keep, x + w);
            && (forall i :: 0 <= i < keep ==> cs[i].x < x && cs[i].y >= 0)
            && (forall i :: m < i < |cs| ==> x + w < cs[i].x && cs[m].x < cs[i].x)
            && (m < |cs| - 1 ==> cs[m].y >= 0)
            && x <= cs[keep].x && (keep == 0 ==> x == 0)
  {
  }

  lemma SpliceWellFormed(cs: seq<Corner>, width: int, j: nat, x: int, w: int, top: int)
    requires WellFormed(cs, width)
    requires OnStretch(cs, j, x) && w > 0 && x + w <= width && top >= 0
    ensures WellFormed(Splice(cs, j, x, w, top), width)
  {
    hide FirstKept, Kept;
    SpliceSides(cs, width, j, x, w);
    var keep := Kept(cs, j, x);
    var m := FirstKept(cs, keep, x + w);
    var mid := [Corner(x, top), Corner(Max(cs[m].x, x + w), cs[m].y)];
    assert Splice(cs, j, x, w, top) == cs[..keep] + mid + cs[m + 1..];
    Glue(cs[..keep], mid, cs[m + 1..], width);
  }

  /** Three increasing pieces in a row, from column 0 to `width`. */
  lemma Glue(a: seq<Corner>, b: seq<Corner>, c: seq<Corner>, width: int)
    requires |b| == 2 && b[0].x < b[1].x && b[0].y >= 0
    requires forall i, j :: 0 <= i < j < |a| ==> a[i].x < a[j].x
    requires forall i, j :: 0 <= i < j < |c| ==> c[i].x < c[j].x
    requires forall i :: 0 <= i < |a| ==> a[i].x < b[0].x && a[i].y >= 0
    requires forall i :: 0 <= i < |c| ==> b[1].x < c[i].x && (i < |c| - 1 ==> c[i].y >= 0)
    requires (if a == [] then b[0] else a[0]).x == 0
    requires if c == [] then b[1].x == width else c[|c| - 1].x == width && b[1].y >= 0
    ensures WellFormed(a + b + c, width)
  {
    var r := a + b + c;
    forall i | 0 <= i < |r|
      ensures r[i] == if i < |a| then a[i] else if i < |a| + 2 then b[i - |a|] else c[i - |a| - 2]
    {
    }
  }

  /** The corner surgery and the column map agree. */
  lemma SpliceDenotes(cs: seq<Corner>, hs: seq<int>, j: nat, x: int, w: int, top: int)
    requires WellFormed(cs, |hs|) && Denotes(cs, hs)
    requires OnStretch(cs, j, x) && w > 0 && x + w <= |hs| && top >= 0
    ensures WellFormed(Splice(cs, j, x, w, top), |hs|)
    ensures Denotes(Splice(cs, j, x, w, top), Raise(hs, x, RaisedWidth(cs, j, x, w), top))
  {
    SpliceWellFormed(cs, |hs|, j, x, w, top);
    var r := Splice(cs, j, x, w, top);
    var hs' := Raise(hs, x, RaisedWidth(cs, j, x, w), top);
    forall i, c | OnStretch(r, i, c)
      ensures 0 <= c < |hs| && hs'[c] == r[i].y
    {
      SpliceStretch(cs, hs, j, x, w, top, i, c);
    }
  }

  /** Corner by corner, what the surgery leaves. */
  lemma SplicedAt(cs: seq<Corner>, j: nat, x: int, w: int, top: int, i: nat)
    requires j + 1 < |cs| && i < |Splice(cs, j, x, w, top)|
    ensures var keep := Kept(cs, j, x);
            var m := FirstKept(cs, keep, x + w);
            && |Splice(cs, j, x, w, top)| == keep + 1 + |cs| - m
            && Splice(cs, j, x, w, top)[i] == if i < keep then cs[i]
                                              else if i == keep then Corner(x, top)
                                              else if i == keep + 1 then Corner(Max(cs[m].x, x + w), cs[m].y)
                                              else cs[i - keep - 1 + m]
  {
    hide FirstKept, Kept;
  }

  /** A stretch of the new skyline is the raised one, or on one side of it and inside an old one. */
  lemma OldStretch(cs: seq<Corner>, width: int, j: nat, x: int, w: int, top: int, i: nat, c: int) returns (o: nat)
    requires WellFormed(cs, width) && OnStretch(cs, j, x) && w > 0 && x + w <= width && top >= 0
    requires WellFormed(Splice(cs, j, x, w, top), width) && OnStretch(Splice(cs, j, x, w, top), i, c)
    ensures if x <= c < x + RaisedWidth(cs, j, x, w) then Splice(cs, j, x, w, top)[i].y == top
            else OnStretch(cs, o, c) && Splice(cs, j, x, w, top)[i].y == cs[o].y
  {
    hide Splice, FirstKept, WellFormed;
    SpliceSides(cs, width, j, x, w);
    SplicedAt(cs, j, x, w, top, i);
    SplicedAt(cs, j, x, w, top, i + 1);
    var keep := Kept(cs, j, x);
    if i <= keep {
      o := i;
    } else {
      o := i - keep - 1 + FirstKept(cs, keep, x + w);
      assert i > keep + 1 ==> cs[o].x > x + w;
    }
  }

  lemma SpliceStretch(cs: seq<Corner>, hs: seq<int>, j: nat, x: int, w: int, top: int, i: nat, c: int)
    requires WellFormed(cs, |hs|) && Denotes(cs, hs)
    requires OnStretch(cs, j, x) && w > 0 && x + w <= |hs| && top >= 0
    requires WellFormed(Splice(cs, j, x, w, top), |hs|)
    requires OnStretch(Splice(cs, j, x, w, top), i, c)
    ensures 0 <= c < |hs|
    ensures Raise(hs, x, RaisedWidth(cs, j, x, w), top)[c] == Splice(cs, j, x, w, top)[i].y
  {
    hide Splice, RaisedWidth, WellFormed;
    RaisedExactly(cs, |hs|, j, x, w);
    var o := OldStretch(cs, |hs|, j, x, w, top, i, c);
  }

  // ---- Placed rectangles

  ghost predicate Disjoint(a: Box, b: Box) {
    a.x + a.w <= b.x || b.x + b.w <= a.x || a.y + a.h <= b.y || b.y + b.h <= a.y
  }

  /** A box lies inside the target and nowhere above the skyline. */
  ghost predicate Under(b: Box, hs: seq<int>, height: int) {
    && 0 <= b.x && 0 < b.w && b.x + b.w <= |hs|
    && 0 <= b.y && 0 < b.h && b.y + b.h <= height
    && (forall c :: b.x <= c < b.x + b.w ==> b.y + b.h <= hs[c])
  }

  /** The safety invariant: boxes inside the target, under the skyline and pairwise disjoint. */
  ghost predicate Packed(boxes: seq<Box>, hs: seq<int>, height: int) {
    && (forall i :: 0 <= i < |boxes| ==> Under(boxes[i], hs, height))
    && (forall i, k :: 0 <= i < k < |boxes| ==> Disjoint(boxes[i], boxes[k]))
  }

  lemma InTarget(boxes: seq<Box>, hs: seq<int>, height: int, i: nat)
    requires Packed(boxes, hs, height) && i < |boxes|
    ensures 0 <= boxes[i].x < |hs| && 0 <= boxes[i].y < height
  {
  }

  /** Putting a box on top of its window keeps the invariant, even if more columns are raised. */
  lemma PlaceKeepsPacked(boxes: seq<Box>, hs: seq<int>, height: int, b: Box, raised: int, window: int)
    requires Packed(boxes, hs, height)
    requires 0 <= b.x && 0 < b.w <= window && InRange(hs, b.x, window) && 0 < b.h
    requires b.w <= raised && b.x + raised <= |hs|
    requires b.y == Rest(hs, b.x, window) && b.y + b.h <= height
    requires forall c :: b.x <= c < b.x + raised ==> hs[c] <= b.y
    ensures Packed(boxes + [b], Raise(hs, b.x, raised, b.y + b.h), height)
  {
    var hs' := Raise(hs, b.x, raised, b.y + b.h);
    MaxOverUpper(hs, b.x, b.x + window);
    forall i | 0 <= i < |boxes|
      ensures Under(boxes[i], hs', height) && Disjoint(boxes[i], b)
    {
      var a := boxes[i];
      assert forall c :: 0 <= c < |hs| ==> hs[c] <= hs'[c];
      if !(a.x + a.w <= b.x || b.x + b.w <= a.x) {
        assert hs[Max(a.x, b.x)] <= b.y;
      }
    }
  }

  /** Nothing that gets raised was above the resting height. */
  lemma RaisedWasLower(cs: seq<Corner>, hs: seq<int>, j: nat, x: int, w: int, window: int)
    requires WellFormed(cs, |hs|) && Denotes(cs, hs) && OnStretch(cs, j, x) && 0 < w <= window && InRange(hs, x, window)
    ensures x + RaisedWidth(cs, j, x, w) <= |hs|
    ensures forall c :: x <= c < x + RaisedWidth(cs, j, x, w) ==> hs[c] <= Rest(hs, x, window)
  {
    RaisedExactly(cs, |hs|, j, x, w);
    MaxOverUpper(hs, x, x + window);
    assert hs[x] == cs[j].y;
    forall c | x + w <= c < x + RaisedWidth(cs, j, x, w)
      ensures hs[c] == cs[j].y
    {
      assert OnStretch(cs, j, c);
    }
  }

  /** One placement keeps the profile. */
  lemma PlaceKeepsProfile(cs: seq<Corner>, hs: seq<int>, height: int, j: nat, x: int, w: int, top: int)
    requires Profile(cs, hs, height) && OnStretch(cs, j, x) && w > 0 && x + w <= |hs| && 0 <= top <= height
    ensures Profile(Splice(cs, j, x, w, top), Raise(hs, x, RaisedWidth(cs, j, x, w), top), height)
  {
    hide RaisedWidth, Denotes, Raise, WellFormed;
    SpliceWellFormed(cs, |hs|, j, x, w, top);
    SpliceDenotes(cs, hs, j, x, w, top);
    SpliceLevels(cs, j, x, w, top, height);
  }

  lemma SpliceLevels(cs: seq<Corner>, j: nat, x: int, w: int, top: int, height: int)
    requires j + 1 < |cs| && top <= height
    requires forall i :: 0 <= i < |cs| - 1 ==> cs[i].y <= height
    ensures var r := Splice(cs, j, x, w, top); forall i :: 0 <= i < |r| - 1 ==> r[i].y <= height
  {
    hide FirstKept, Max;
    var keep := Kept(cs, j, x);
    var m := FirstKept(cs, keep, x + w);
    var r := Splice(cs, j, x, w, top);
    forall i | 0 <= i < |r| - 1
      ensures r[i].y == if i < keep then cs[i].y else if i == keep then top else cs[i - keep - 1 + m].y
    {
    }
  }

  /** One placement keeps the profile and the boxes. */
  lemma PlaceOnSkyline(cs: seq<Corner>, hs: seq<int>, height: int, boxes: seq<Box>, j: nat, b: Box, window: int)
    requires Profile(cs, hs, height) && Packed(boxes, hs, height) && height >= 0
    requires OnStretch(cs, j, b.x) && 0 < b.w <= window && 0 < b.h && InRange(hs, b.x, window)
    requires b.y == Rest(hs, b.x, window) && b.y + b.h <= height
    ensures b.x + b.w <= |hs| && 0 <= b.y
    ensures Profile(Splice(cs, j, b.x, b.w, b.y + b.h), Raise(hs, b.x, RaisedWidth(cs, j, b.x, b.w), b.y + b.h), height)
    ensures Packed(boxes + [b], Raise(hs, b.x, RaisedWidth(cs, j, b.x, b.w), b.y + b.h), height)
    ensures RaisedWidth(cs, j, b.x, b.w) == b.w <==> (cs[j].x == b.x || cs[j + 1].x <= b.x + b.w)
  {
    hide RaisedWidth, Denotes, Packed, Splice, Raise;
    RaisedExactly(cs, |hs|, j, b.x, b.w);
    RaisedWasLower(cs, hs, j, b.x, b.w, window);
    PlaceKeepsProfile(cs, hs, height, j, b.x, b.w, b.y + b.h);
    PlaceKeepsPacked(boxes, hs, height, b, RaisedWidth(cs, j, b.x, b.w), window);
  }

  // ---- Best fit

  /** A spot's level, the waste counted for it, and its left edge. */
  datatype Rating = Rating(y: int, waste: int, x: int)

  /** Level and waste as the walk over the corners from `i` on counts them. */
  function Walk(cs: seq<Corner>, i: nat, x0: int, w: int, y: int, visited: int, waste: int): (int, int)
    decreases |cs| - i
  {
    if i + 1 >= |cs| || cs[i].x >= x0 + w then (y, waste)
    else if cs[i].y > y then
      Walk(cs, i + 1, x0, w, cs[i].y, visited + cs[i + 1].x - Max(cs[i].x, x0), waste + visited * (cs[i].y - y))
    else
      var under := Min(cs[i + 1].x - cs[i].x, w - visited);
      Walk(cs, i + 1, x0, w, y, visited + under, waste + under * (y - cs[i].y))
  }

  /** One more stretch. */
  lemma WalkOn(cs: seq<Corner>, i: nat, x0: int, w: int, y: int, visited: int, waste: int)
    requires i + 1 < |cs| && cs[i].x < x0 + w
    ensures cs[i].y > y ==>
              Walk(cs, i, x0, w, y, visited, waste)
              == Walk(cs, i + 1, x0, w, cs[i].y, visited + cs[i + 1].x - Max(cs[i].x, x0),
                      waste + visited * (cs[i].y - y))
    ensures cs[i].y <= y ==>
              var under := Min(cs[i + 1].x - cs[i].x, w - visited);
              Walk(cs, i, x0, w, y, visited, waste)
              == Walk(cs, i + 1, x0, w, y, visited + under, waste + under * (y - cs[i].y))
  {
  }

  lemma WalkDone(cs: seq<Corner>, i: nat, x0: int, w: int, y: int, visited: int, waste: int)
    requires i < |cs| && cs[i].x >= x0 + w
    ensures Walk(cs, i, x0, w, y, visited, waste) == (y, waste)
  {
  }

  /** Column `x`, or the end of the window [lo, hi) it is beyond. */
  function Clip(x: int, lo: int, hi: int): int
    requires lo <= hi
  {
    Max(lo, Min(x, hi))
  }

  /** What the walk sees of the heights of one stretch. */
  lemma PassStretch(cs: seq<Corner>, hs: seq<int>, i: nat, lo: int, hi: int)
    requires WellFormed(cs, |hs|) && Denotes(cs, hs) && 0 <= lo < hi <= |hs|
    requires i + 1 < |cs| && cs[i].x < hi && lo < cs[i + 1].x
    ensures MaxOver(hs, lo, Clip(cs[i + 1].x, lo, hi)) == Max(MaxOver(hs, lo, Clip(cs[i].x, lo, hi)), cs[i].y)
  {
    assert forall c :: cs[i].x <= c < cs[i + 1].x ==> OnStretch(cs, i, c);
    MaxOverLevel(hs, lo, Clip(cs[i].x, lo, hi), Clip(cs[i + 1].x, lo, hi), cs[i].y);
  }

  /** The rating of the window of `w` columns from `x` on, which begins on stretch `k`; the waste is an `int`. */
  function Rated(cs: seq<Corner>, k: nat, x: int, w: int): Rating {
    var (y, waste) := Walk(cs, k, x, w, 0, 0, 0);
    Rating(y, Int32(waste), x)
  }

  /** No product and no sum of the walk leaves an `int`. */
  ghost predicate WalkFits(cs: seq<Corner>, i: nat, x0: int, w: int, y: int, visited: int, waste: int)
    decreases |cs| - i
  {
    if i + 1 >= |cs| || cs[i].x >= x0 + w then Fits32(waste)
    else if cs[i].y > y then
      && Fits32(waste) && Fits32(visited * (cs[i].y - y))
      && WalkFits(cs, i + 1, x0, w, cs[i].y, visited + cs[i + 1].x - Max(cs[i].x, x0), waste + visited * (cs[i].y - y))
    else
      var under := Min(cs[i + 1].x - cs[i].x, w - visited);
      && Fits32(waste) && Fits32(under * (y - cs[i].y))
      && WalkFits(cs, i + 1, x0, w, y, visited + under, waste + under * (y - cs[i].y))
  }

  /** With `d` columns behind it, `visited` of them counted, the waste stays within this. */
  ghost predicate Bounded(d: int, height: int, y: int, visited: int, waste: int) {
    0 <= visited <= d && 0 <= y <= height && -((d - visited) * height) <= waste <= d * y
  }

  /** A higher stretch of `gap` columns, `seen` of them in the window. */
  lemma BoundedRaise(d: int, height: int, y: int, visited: int, waste: int, level: int, gap: int, seen: int)
    requires Bounded(d, height, y, visited, waste) && y < level <= height && 0 <= seen <= gap
    ensures Bounded(d + gap, height, level, visited + seen, waste + visited * (level - y))
    ensures 0 <= visited * (level - y) <= d * height
  {
    var rise := level - y;
    Bits.MulNonnegative(visited, rise);
    Bits.MulMonotone(visited, d, rise);
    Bits.MulMonotone(rise, height, d);
    Bits.MulDistributes(rise, y, d);
    Bits.MulMonotone(d, d + gap, level);
    Bits.MulMonotone(d - visited, d + gap - (visited + seen), height);
  }

  /** A stretch of `gap` columns that is not higher; `under` may take columns back. */
  lemma BoundedUnder(d: int, height: int, y: int, visited: int, waste: int, level: int, gap: int, under: int)
    requires Bounded(d, height, y, visited, waste) && 0 <= level <= y && -visited <= under <= gap && 0 <= gap
    ensures Bounded(d + gap, height, y, visited + under, waste + under * (y - level))
    ensures -(d * height) <= under * (y - level) <= gap * height
  {
    var fall, n := y - level, -under;
    Bits.MulMonotone(d, d + gap, y);
    Bits.MulNonnegative(d, height);
    Bits.MulNonnegative(gap, height);
    if under >= 0 {
      Bits.MulNonnegative(under, fall);
      Bits.MulMonotone(fall, y, under);
      Bits.MulMonotone(under, gap, y);
      Bits.MulMonotone(y, height, gap);
      Bits.MulDistributes(d, gap, y);
      Bits.MulMonotone(d - visited, d + gap - (visited + under), height);
    } else {
      assert under * fall == -(n * fall) by {
        Bits.MulDistributes(under, n, fall);
      }
      Bits.MulNonnegative(n, fall);
      Bits.MulMonotone(fall, height, n);
      Bits.MulMonotone(n, d, height);
      Bits.MulDistributes(d - visited, n, height);
      Bits.MulMonotone(d - visited + n, d + gap - (visited + under), height);
    }
  }

  /** What is bounded fits an `int` on a target of fewer than 2^31 units. */
  lemma BoundedFits(d: int, width: int, height: int, y: int, visited: int, waste: int)
    requires Bounded(d, height, y, visited, waste) && d <= width
    ensures -(width * height) <= waste <= width * height && d * height <= width * height
  {
    Bits.MulMonotone(y, height, d);
    Bits.MulMonotone(d, width, height);
    Bits.MulMonotone(d - visited, width, height);
  }

  /** On a target of fewer than 2^31 units nothing overflows, wherever the walk begins. */
  lemma {:induction false} WalkStays(cs: seq<Corner>, width: int, height: int, k: nat, i: nat, x0: int, w: int, y: int,
                                     visited: int, waste: int)
    requires WellFormed(cs, width) && (forall j :: 0 <= j < |cs| - 1 ==> cs[j].y <= height)
    requires k <= i < |cs| && w > 0 && width * height < 0x8000_0000 && (i + 1 < |cs| ==> x0 <= cs[i + 1].x)
    requires Bounded(cs[i].x - cs[k].x, height, y, visited, waste)
    ensures WalkFits(cs, i, x0, w, y, visited, waste)
    ensures var (_, total) := Walk(cs, i, x0, w, y, visited, waste);
            -(width * height) <= total <= width * height
    decreases |cs| - i
  {
    hide Bounded;
    var d := cs[i].x - cs[k].x;
    BoundedFits(d, width, height, y, visited, waste);
    BoundedVisited(d, height, y, visited, waste);
    if i + 1 < |cs| && cs[i].x < x0 + w {
      var gap := cs[i + 1].x - cs[i].x;
      Bits.MulMonotone(gap, width, height);
      if cs[i].y > y {
        var seen := cs[i + 1].x - Max(cs[i].x, x0);
        BoundedRaise(d, height, y, visited, waste, cs[i].y, gap, seen);
        WalkStays(cs, width, height, k, i + 1, x0, w, cs[i].y, visited + seen, waste + visited * (cs[i].y - y));
      } else {
        var under := Min(gap, w - visited);
        BoundedUnder(d, height, y, visited, waste, cs[i].y, gap, under);
        WalkStays(cs, width, height, k, i + 1, x0, w, y, visited + under, waste + under * (y - cs[i].y));
      }
    }
  }

  lemma BoundedVisited(d: int, height: int, y: int, visited: int, waste: int)
    requires Bounded(d, height, y, visited, waste)
    ensures 0 <= visited <= d && 0 <= y <= height
  {
  }


  /** The space between the columns [lo, hi) and height `y`. */
  ghost function Gap(hs: seq<int>, lo: int, hi: int, y: int): int
    requires 0 <= lo <= hi <= |hs|
    decreases hi - lo
  {
    if lo == hi then 0 else Gap(hs, lo, hi - 1, y) + y - hs[hi - 1]
  }

  lemma {:induction false} GapHigher(hs: seq<int>, lo: int, hi: int, y: int, y': int)
    requires 0 <= lo <= hi <= |hs|
    ensures Gap(hs, lo, hi, y') == Gap(hs, lo, hi, y) + (hi - lo) * (y' - y)
    decreases hi - lo
  {
    if lo < hi {
      GapHigher(hs, lo, hi - 1, y, y');
    }
  }

  lemma {:induction false} GapLevel(hs: seq<int>, lo: int, mid: int, hi: int, y: int, level: int)
    requires 0 <= lo <= mid <= hi <= |hs|
    requires forall c :: mid <= c < hi ==> hs[c] == level
    ensures Gap(hs, lo, hi, y) == Gap(hs, lo, mid, y) + (hi - mid) * (y - level)
    decreases hi - mid
  {
    if mid < hi {
      GapLevel(hs, lo, mid, hi - 1, y, level);
    }
  }

  /** The walk has counted the gap up to where corner `i` begins. */
  ghost predicate Counted(cs: seq<Corner>, hs: seq<int>, i: nat, x0: int, w: int, y: int, visited: int, waste: int)
    requires InRange(hs, x0, w) && i < |cs|
  {
    var p := Clip(cs[i].x, x0, x0 + w);
    && y == MaxOver(hs, x0, p) && waste == Gap(hs, x0, p, y)
    && (cs[i].x < x0 + w ==> visited == p - x0)
  }

  /** One more stretch, when it is higher and when it is not. */
  lemma CountsStretch(cs: seq<Corner>, hs: seq<int>, i: nat, x0: int, w: int, y: int, visited: int, waste: int)
    requires WellFormed(cs, |hs|) && Denotes(cs, hs) && w > 0 && InRange(hs, x0, w)
    requires i + 1 < |cs| && cs[i].x < x0 + w && x0 < cs[i + 1].x && Counted(cs, hs, i, x0, w, y, visited, waste)
    ensures cs[i].y > y ==>
              Counted(cs, hs, i + 1, x0, w, cs[i].y, visited + cs[i + 1].x - Max(cs[i].x, x0),
                      waste + visited * (cs[i].y - y))
    ensures cs[i].y <= y && x0 <= cs[i].x ==>
              var under := Min(cs[i + 1].x - cs[i].x, w - visited);
              Counted(cs, hs, i + 1, x0, w, y, visited + under, waste + under * (y - cs[i].y))
  {
    hide MaxOver, Gap, Denotes, WellFormed;
    var p, p' := Clip(cs[i].x, x0, x0 + w), Clip(cs[i + 1].x, x0, x0 + w);
    PassStretch(cs, hs, i, x0, x0 + w);
    StretchLevel(cs, hs, i);
    if cs[i].y > y {
      GapHigher(hs, x0, p, y, cs[i].y);
      GapLevel(hs, x0, p, p', cs[i].y, cs[i].y);
    } else {
      GapLevel(hs, x0, p, p', y, cs[i].y);
    }
  }

  lemma StretchLevel(cs: seq<Corner>, hs: seq<int>, i: nat)
    requires WellFormed(cs, |hs|) && Denotes(cs, hs) && i + 1 < |cs|
    ensures 0 <= cs[i].x < cs[i + 1].x <= |hs| && forall c :: cs[i].x <= c < cs[i + 1].x ==> hs[c] == cs[i].y
  {
    assert forall c :: cs[i].x <= c < cs[i + 1].x ==> OnStretch(cs, i, c);
  }

  lemma {:induction false} WalkCounts(cs: seq<Corner>, hs: seq<int>, i: nat, x0: int, w: int, y: int, visited: int,
                                      waste: int)
    requires WellFormed(cs, |hs|) && Denotes(cs, hs) && w > 0 && InRange(hs, x0, w)
    requires i < |cs| && Counted(cs, hs, i, x0, w, y, visited, waste)
    requires i + 1 < |cs| ==> x0 < cs[i + 1].x && (x0 <= cs[i].x || y < cs[i].y)
    ensures Walk(cs, i, x0, w, y, visited, waste) == (Rest(hs, x0, w), Gap(hs, x0, x0 + w, Rest(hs, x0, w)))
    decreases |cs| - i
  {
    hide Counted, MaxOver, Gap, Denotes, Walk;
    if cs[i].x >= x0 + w {
      WalkDone(cs, i, x0, w, y, visited, waste);
      AllCounted(cs, hs, i, x0, w, y, visited, waste);
    } else {
      WalkOn(cs, i, x0, w, y, visited, waste);
      CountsStretch(cs, hs, i, x0, w, y, visited, waste);
      if cs[i].y > y {
        WalkCounts(cs, hs, i + 1, x0, w, cs[i].y, visited + cs[i + 1].x - Max(cs[i].x, x0),
                   waste + visited * (cs[i].y - y));
      } else {
        var under := Min(cs[i + 1].x - cs[i].x, w - visited);
        WalkCounts(cs, hs, i + 1, x0, w, y, visited + under, waste + under * (y - cs[i].y));
      }
    }
  }

  lemma AllCounted(cs: seq<Corner>, hs: seq<int>, i: nat, x0: int, w: int, y: int, visited: int, waste: int)
    requires w > 0 && InRange(hs, x0, w) && i < |cs| && cs[i].x >= x0 + w
    requires Counted(cs, hs, i, x0, w, y, visited, waste)
    ensures (y, waste) == (Rest(hs, x0, w), Gap(hs, x0, x0 + w, Rest(hs, x0, w)))
  {
  }

  /** On such a target the waste is what the walk counts, for every spot. */
  lemma WasteFits(cs: seq<Corner>, hs: seq<int>, height: int, k: nat, x: int, w: int)
    requires Profile(cs, hs, height) && w > 0 && OnStretch(cs, k, x) && |hs| * height < 0x8000_0000
    ensures WalkFits(cs, k, x, w, 0, 0, 0)
    ensures Rated(cs, k, x, w).waste == Walk(cs, k, x, w, 0, 0, 0).1
  {
    hide Walk, WalkFits;
    WalkStays(cs, |hs|, height, k, k, x, w, 0, 0, 0);
    Bits.MulNonnegative(|hs|, height);
    InWord(Walk(cs, k, x, w, 0, 0, 0).1);
  }

  /**
   A spot is rated by the height at which it rests and the gap below, if it begins at a corner or
   above the floor and the gap fits an `int`.
   */
  lemma RatedByGap(cs: seq<Corner>, hs: seq<int>, height: int, k: nat, x: int, w: int)
    requires Profile(cs, hs, height) && w > 0 && InRange(hs, x, w)
    requires OnStretch(cs, k, x) && (x == cs[k].x || cs[k].y > 0)
    ensures var y := Rest(hs, x, w);
            var gap := Gap(hs, x, x + w, y);
            && Rated(cs, k, x, w) == Rating(y, Int32(gap), x)
            && (Rated(cs, k, x, w) == Rating(y, gap, x) <==> Fits32(gap))
            && (|hs| * height < 0x8000_0000 ==> Fits32(gap))
  {
    WalkCounts(cs, hs, k, x, w, 0, 0, 0);
    hide Walk, Gap, MaxOver, WalkFits;
    InWord(Gap(hs, x, x + w, Rest(hs, x, w)));
    if |hs| * height < 0x8000_0000 {
      WasteFits(cs, hs, height, k, x, w);
    }
  }

  /** Inside a stretch on the floor the columns left of the spot are counted too. */
  lemma OffTheFloor()
    ensures var cs := [Corner(0, 0), Corner(3, 1), Corner(4, 0xffff)];
            && Denotes(cs, [0, 0, 0, 1]) && OnStretch(cs, 0, 2) && Rest([0, 0, 0, 1], 2, 2) == 1
            && Rated(cs, 0, 2, 2) == Rating(1, 2, 2) && Gap([0, 0, 0, 1], 2, 4, 1) == 1
  {
    var cs := [Corner(0, 0), Corner(3, 1), Corner(4, 0xffff)];
    WalkOn(cs, 0, 2, 2, 0, 0, 0);
    WalkOn(cs, 1, 2, 2, 0, 2, 0);
    WalkDone(cs, 2, 2, 2, 1, 3, 2);
    assert MaxOver([0, 0, 0, 1], 2, 3) == 0;
    assert Gap([0, 0, 0, 1], 2, 3, 1) == 1;
  }

  /** Lower, or as low with less waste, or with as much and no further right. */
  predicate NoWorse(a: Rating, b: Rating) {
    a.y < b.y || (a.y == b.y && (a.waste < b.waste || (a.waste == b.waste && a.x <= b.x)))
  }

  /** The left edge at corner `i`. */
  ghost predicate LeftCandidate(cs: seq<Corner>, width: int, height: int, w: int, h: int, i: nat) {
    i + 1 < |cs| && cs[i].x + w <= width && Rated(cs, i, cs[i].x, w).y + h <= height
  }

  /** The right edge at corner `t`, the left one on stretch `i`; here the top must stay below the height. */
  ghost predicate RightCandidate(cs: seq<Corner>, height: int, w: int, h: int, i: nat, t: nat) {
    t < |cs| && OnStretch(cs, i, cs[t].x - w) && Rated(cs, i, cs[t].x - w, w).y + h < height
  }

  /** No worse than the left edges at the first `n` corners. */
  ghost predicate BestLeft(cs: seq<Corner>, width: int, height: int, w: int, h: int, n: nat, best: Rating) {
    forall i: nat :: i < n && LeftCandidate(cs, width, height, w, h, i) ==> NoWorse(best, Rated(cs, i, cs[i].x, w))
  }

  /** No worse than the right edges at the first `n` corners. */
  ghost predicate BestRight(cs: seq<Corner>, height: int, w: int, h: int, n: nat, best: Rating) {
    forall i: nat, t: nat :: t < n && RightCandidate(cs, height, w, h, i, t) ==>
                               NoWorse(best, Rated(cs, i, cs[t].x - w, w))
  }

  /** Lowest, then least waste, then leftmost of all left and right edges at corners. */
  ghost predicate BestRated(cs: seq<Corner>, width: int, height: int, w: int, h: int, best: Rating) {
    BestLeft(cs, width, height, w, h, |cs|, best) && BestRight(cs, height, w, h, |cs|, best)
  }

  lemma BestLeftStep(cs: seq<Corner>, width: int, height: int, w: int, h: int, n: nat, best: Rating, far: int)
    requires n + 1 < |cs| && cs[n].x + w <= width && BestLeft(cs, width, height, w, h, n, best)
    requires height - h < far && (best.y < far ==> best.x <= cs[n].x)
    ensures var r := Rated(cs, n, cs[n].x, w);
            BestLeft(cs, width, height, w, h, n + 1,
                     if r.y + h <= height && (r.y < best.y || (r.y == best.y && r.waste < best.waste)) then r else best)
  {
    hide Walk;
  }

  lemma BestLeftDone(cs: seq<Corner>, width: int, height: int, w: int, h: int, n: nat, best: Rating)
    requires WellFormed(cs, width) && n < |cs| && cs[n].x + w > width && BestLeft(cs, width, height, w, h, n, best)
    ensures BestLeft(cs, width, height, w, h, |cs|, best)
  {
    hide Rated;
  }

  lemma BestRightStart(cs: seq<Corner>, width: int, height: int, w: int, h: int, n: nat, best: Rating)
    requires WellFormed(cs, width) && n <= |cs| && forall t :: 0 <= t < n ==> cs[t].x < w
    ensures BestRight(cs, height, w, h, n, best)
  {
    hide Rated;
  }

  lemma BestRightStep(cs: seq<Corner>, width: int, height: int, w: int, h: int, n: nat, i: nat, best: Rating)
    requires WellFormed(cs, width) && n < |cs| && OnStretch(cs, i, cs[n].x - w)
    requires BestLeft(cs, width, height, w, h, |cs|, best) && BestRight(cs, height, w, h, n, best)
    ensures var r := Rated(cs, i, cs[n].x - w, w);
            var better := r.y + h < height && r.y <= best.y
                          && (r.y < best.y || r.waste < best.waste || (r.waste == best.waste && r.x < best.x));
            var best' := if better then r else best;
            BestLeft(cs, width, height, w, h, |cs|, best') && BestRight(cs, height, w, h, n + 1, best')
  {
    hide Walk;
    forall k: nat | RightCandidate(cs, height, w, h, k, n)
      ensures k == i
    {
      OneStretch(cs, width, i, k, cs[n].x - w);
    }
  }

  lemma OneStretch(cs: seq<Corner>, width: int, i: nat, k: nat, c: int)
    requires WellFormed(cs, width) && OnStretch(cs, i, c) && OnStretch(cs, k, c)
    ensures i == k
  {
  }

  /** A skyline over which a rectangle 60000 wide rests at 61000, from column 0 and from column 5535. */
  function WideCorners(): seq<Corner> {
    [Corner(0, 60900), Corner(30000, 61000), Corner(30001, 0), Corner(65535, 0xffff)]
  }

  /** On a target as large as this the count can overflow: the gap is smaller at 0, but the rating is not. */
  lemma WideWalks()
    ensures Walk(WideCorners(), 0, 0, 60000, 0, 0, 0) == (61000, 1832939000)
    ensures Walk(WideCorners(), 0, 5535, 60000, 0, 0, 0) == (61000, 2170020500)
    ensures !WalkFits(WideCorners(), 0, 5535, 60000, 0, 0, 0)
    ensures Rated(WideCorners(), 0, 0, 60000) == Rating(61000, 1832939000, 0)
    ensures Rated(WideCorners(), 0, 5535, 60000) == Rating(61000, -2124946796, 5535)
  {
    var cs := WideCorners();
    WalkOn(cs, 0, 0, 60000, 0, 0, 0);
    WalkOn(cs, 1, 0, 60000, 60900, 30000, 0);
    WalkOn(cs, 2, 0, 60000, 61000, 30001, 3000000);
    WalkDone(cs, 3, 0, 60000, 61000, 60000, 1832939000);
    WalkOn(cs, 0, 5535, 60000, 0, 0, 0);
    WalkOn(cs, 1, 5535, 60000, 60900, 24465, 0);
    WalkOn(cs, 2, 5535, 60000, 61000, 24466, 2446500);
    WalkDone(cs, 3, 5535, 60000, 61000, 60000, 2170020500);
    assert !WalkFits(cs, 2, 5535, 60000, 61000, 24466, 2446500);
    assert !WalkFits(cs, 1, 5535, 60000, 60900, 24465, 0);
  }

  lemma WideGap(cs: seq<Corner>, hs: seq<int>, x: int)
    requires cs == WideCorners() && Profile(cs, hs, 65535) && |hs| == 65535 && 0 <= x <= 5535
    ensures InRange(hs, x, 60000)
    ensures Walk(cs, 0, x, 60000, 0, 0, 0) == (Rest(hs, x, 60000), Gap(hs, x, x + 60000, Rest(hs, x, 60000)))
  {
    hide Walk;
    WalkCounts(cs, hs, 0, x, 60000, 0, 0, 0);
  }

  /** Only column 0 and column 5535 have a corner on one side, and the second is rated better. */
  lemma OnlyTwo()
    ensures BestRated(WideCorners(), 65535, 65535, 60000, 10, Rated(WideCorners(), 0, 5535, 60000))
    ensures !BestRated(WideCorners(), 65535, 65535, 60000, 10, Rated(WideCorners(), 0, 0, 60000))
  {
    hide Rated;
    var cs := WideCorners();
    WideWalks();
    assert RightCandidate(cs, 65535, 60000, 10, 0, 3);
    assert !NoWorse(Rated(cs, 0, 0, 60000), Rated(cs, 0, cs[3].x - 60000, 60000));
    forall i: nat, t: nat | RightCandidate(cs, 65535, 60000, 10, i, t)
      ensures t == 3 && i == 0
    {
    }
  }

  /** What putting box `b` on stretch `j` makes of the corners, the column heights and the boxes. */
  ghost predicate Stacked(cs: seq<Corner>, hs: seq<int>, boxes: seq<Box>, cs': seq<Corner>, hs': seq<int>,
                          boxes': seq<Box>, j: nat, b: Box) {
    && OnStretch(cs, j, b.x)
    && cs' == Splice(cs, j, b.x, b.w, b.y + b.h)
    && hs' == Raise(hs, b.x, RaisedWidth(cs, j, b.x, b.w), b.y + b.h)
    && boxes' == boxes + [b]
  }
}
