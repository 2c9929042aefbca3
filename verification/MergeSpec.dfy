/**
 Bottom-up merge sort on plain values: which positions a pass has put out, and when the runs
 it leaves are sorted, stable and complete.
 */
module MergeSpec {
  import opened Basics

  /** Different positions, all below `n`. */
  ghost predicate Picks(perm: seq<nat>, n: nat) {
    && (forall k :: 0 <= k < |perm| ==> perm[k] < n)
    && (forall k, l :: 0 <= k < l < |perm| ==> perm[k] != perm[l])
  }

  ghost predicate Permutation(perm: seq<nat>, n: nat) {
    |perm| == n && Picks(perm, n)
  }

  /** By key, and by original position where keys are equal. */
  ghost predicate Less(keys: seq<int>, pos: seq<nat>, i: int, j: int)
    requires |keys| == |pos| && 0 <= i < |keys| && 0 <= j < |keys|
  {
    keys[i] < keys[j] || (keys[i] == keys[j] && pos[i] < pos[j])
  }

  ghost predicate SortedRange(keys: seq<int>, pos: seq<nat>, lo: int, hi: int)
    requires |keys| == |pos| && 0 <= lo && hi <= |keys|
  {
    forall i, j :: lo <= i < j < hi ==> Less(keys, pos, i, j)
  }

  /** From `lo` on, every stretch of `w` is sorted and holds earlier positions than what follows it. */
  ghost predicate Runs(keys: seq<int>, pos: seq<nat>, lo: nat, w: nat)
    requires |keys| == |pos| && w > 0
    decreases |keys| - lo
  {
    lo >= |keys| ||
    (var hi := Min(lo + w, |keys|);
     && SortedRange(keys, pos, lo, hi)
     && (forall i, j :: lo <= i < hi && hi <= j < |keys| ==> pos[i] < pos[j])
     && Runs(keys, pos, lo + w, w))
  }

  /** Every element of a run of two or more has been through a comparison. */
  ghost predicate Touched(touched: seq<bool>, lo: nat, w: nat)
    requires w > 0
    decreases |touched| - lo
  {
    lo >= |touched| ||
    (var hi := Min(lo + w, |touched|);
     && (hi - lo >= 2 ==> forall i :: lo <= i < hi ==> touched[i])
     && Touched(touched, lo + w, w))
  }

  ghost predicate AllTouched(touched: seq<bool>, lo: nat, hi: nat)
    requires hi <= |touched|
  {
    forall i :: lo <= i < hi ==> touched[i]
  }

  ghost predicate RunTouched(touched: seq<bool>, lo: nat, hi: nat)
    requires hi <= |touched|
  {
    hi - lo >= 2 ==> AllTouched(touched, lo, hi)
  }

  /** The keys of touched elements are the same. */
  ghost predicate SameKeys(touched: seq<bool>, keys: seq<int>, keys': seq<int>) {
    |keys| == |keys'| == |touched| && forall k :: 0 <= k < |touched| && touched[k] ==> keys[k] == keys'[k]
  }

  /** A sequence seen through positions. */
  ghost function Through<T>(s: seq<T>, perm: seq<nat>): (r: seq<T>)
    requires forall k :: 0 <= k < |perm| ==> perm[k] < |s|
    ensures |r| == |perm|
    ensures forall k :: 0 <= k < |perm| ==> r[k] == s[perm[k]]
  {
    seq(|perm|, k requires 0 <= k < |perm| => s[perm[k]])
  }

  /** Single elements are runs. */
  lemma {:induction false} SinglesAreRuns(keys: seq<int>, pos: seq<nat>, lo: nat)
    requires |keys| == |pos| && forall i, j :: 0 <= i < j < |pos| ==> pos[i] < pos[j]
    ensures Runs(keys, pos, lo, 1)
    decreases |keys| - lo
  {
    if lo < |keys| {
      SinglesAreRuns(keys, pos, lo + 1);
    }
  }

  lemma {:induction false} SinglesNeedNoTouch(touched: seq<bool>, lo: nat)
    ensures Touched(touched, lo, 1)
    decreases |touched| - lo
  {
    if lo < |touched| {
      SinglesNeedNoTouch(touched, lo + 1);
    }
  }

  // ---- One merge

  /** Two neighbouring sorted runs [b, pe) and [pe, qe), the first with the earlier positions. */
  ghost predicate TwoRuns(keys: seq<int>, pos: seq<nat>, b: nat, pe: nat, qe: nat) {
    && |keys| == |pos| && b <= pe <= qe <= |keys|
    && SortedRange(keys, pos, b, pe) && SortedRange(keys, pos, pe, qe)
    && (forall i, j :: b <= i < pe && pe <= j < qe ==> pos[i] < pos[j])
  }

  /** What has come out since `b` is sorted and before whatever is left of the two runs. */
  ghost predicate MergedSoFar(keys: seq<int>, pos: seq<nat>, perm: seq<nat>, b: nat, ip: nat, pe: nat, iq: nat, qe: nat)
    requires |keys| == |pos| && b <= |perm| && pe <= |keys| && qe <= |keys|
    requires forall k :: 0 <= k < |perm| ==> perm[k] < |keys|
  {
    && (forall k, l :: b <= k < l < |perm| ==> Less(keys, pos, perm[k], perm[l]))
    && (forall k :: b <= k < |perm| && ip < pe ==> Less(keys, pos, perm[k], ip))
    && (forall k :: b <= k < |perm| && iq < qe ==> Less(keys, pos, perm[k], iq))
  }

  /** Taking the smaller head, the first run's when they are equal, keeps it so. */
  lemma MergeStep(keys: seq<int>, pos: seq<nat>, perm: seq<nat>, b: nat, ip: nat, pe: nat, iq: nat, qe: nat,
                  fromP: bool)
    requires TwoRuns(keys, pos, b, pe, qe) && b <= |perm| && b <= ip <= pe <= iq <= qe
    requires forall k :: 0 <= k < |perm| ==> perm[k] < |keys|
    requires MergedSoFar(keys, pos, perm, b, ip, pe, iq, qe)
    requires if fromP then ip < pe && (iq < qe ==> keys[ip] <= keys[iq])
             else iq < qe && (ip < pe ==> keys[iq] < keys[ip])
    ensures if fromP then MergedSoFar(keys, pos, perm + [ip], b, ip + 1, pe, iq, qe)
            else MergedSoFar(keys, pos, perm + [iq], b, ip, pe, iq + 1, qe)
  {
    if fromP {
      assert ip + 1 < pe ==> Less(keys, pos, ip, ip + 1);
      assert iq < qe ==> Less(keys, pos, ip, iq);
    } else {
      assert iq + 1 < qe ==> Less(keys, pos, iq, iq + 1);
      assert ip < pe ==> Less(keys, pos, iq, ip);
    }
  }

  lemma MergeStart(keys: seq<int>, pos: seq<nat>, perm: seq<nat>, b: nat, pe: nat, qe: nat)
    requires |keys| == |pos| && b == |perm| && pe <= |keys| && qe <= |keys|
    requires forall k :: 0 <= k < |perm| ==> perm[k] < |keys|
    ensures MergedSoFar(keys, pos, perm, b, b, pe, pe, qe)
  {
  }

  lemma MergeDone(keys: seq<int>, pos: seq<nat>, perm: seq<nat>, b: nat, ip: nat, pe: nat, iq: nat, qe: nat)
    requires |keys| == |pos| && b <= |perm| && pe <= |keys| && qe <= |keys|
    requires forall k :: 0 <= k < |perm| ==> perm[k] < |keys|
    ensures MergedSoFar(keys, pos, perm, b, ip, pe, iq, qe) ==>
              forall k, l :: b <= k < l < |perm| ==> Less(keys, pos, perm[k], perm[l])
  {
  }

  // ---- Keys that only become known when their elements are compared

  lemma RangeRekeyed(keys: seq<int>, keys': seq<int>, pos: seq<nat>, touched: seq<bool>, lo: nat, hi: nat)
    requires |keys| == |pos| && hi <= |keys| && SortedRange(keys, pos, lo, hi)
    requires SameKeys(touched, keys, keys') && RunTouched(touched, lo, hi)
    ensures SortedRange(keys', pos, lo, hi)
  {
    forall i, j | lo <= i < j < hi
      ensures Less(keys', pos, i, j)
    {
      assert Less(keys, pos, i, j);
    }
  }

  lemma TwoRunsRekeyed(keys: seq<int>, keys': seq<int>, pos: seq<nat>, touched: seq<bool>, b: nat, pe: nat, qe: nat)
    requires TwoRuns(keys, pos, b, pe, qe) && SameKeys(touched, keys, keys')
    requires RunTouched(touched, b, pe) && RunTouched(touched, pe, qe)
    ensures TwoRuns(keys', pos, b, pe, qe)
  {
    RangeRekeyed(keys, keys', pos, touched, b, pe);
    RangeRekeyed(keys, keys', pos, touched, pe, qe);
  }

  lemma MergedRekeyed(keys: seq<int>, keys': seq<int>, pos: seq<nat>, touched: seq<bool>, perm: seq<nat>, b: nat,
                      ip: nat, pe: nat, iq: nat, qe: nat)
    requires TwoRuns(keys, pos, b, pe, qe) && SameKeys(touched, keys, keys') && AllTouched(touched, b, qe)
    requires b <= |perm| && b <= ip <= pe <= iq <= qe && (forall k :: 0 <= k < |perm| ==> perm[k] < |keys|)
    requires (forall k :: b <= k < |perm| ==> b <= perm[k] < qe) && MergedSoFar(keys, pos, perm, b, ip, pe, iq, qe)
    ensures TwoRuns(keys', pos, b, pe, qe) && MergedSoFar(keys', pos, perm, b, ip, pe, iq, qe)
  {
    TwoRunsRekeyed(keys, keys', pos, touched, b, pe, qe);
    hide TwoRuns;
  }

  /** A run of one is in order whatever its key; in a longer run every key is known. */
  lemma {:induction false} RunsRekeyed(keys: seq<int>, keys': seq<int>, pos: seq<nat>, touched: seq<bool>, lo: nat,
                                       w: nat)
    requires |keys| == |pos| && w > 0 && Runs(keys, pos, lo, w) && Touched(touched, lo, w)
    requires SameKeys(touched, keys, keys')
    ensures Runs(keys', pos, lo, w)
    decreases |keys| - lo
  {
    if lo < |keys| {
      RangeRekeyed(keys, keys', pos, touched, lo, Min(lo + w, |keys|));
      RunsRekeyed(keys, keys', pos, touched, lo + w, w);
    }
  }

  lemma {:induction false} BlocksRekeyed(keys: seq<int>, keys': seq<int>, pos: seq<nat>, touched: seq<bool>,
                                         perm: seq<nat>, lo: nat, b: nat, w: nat, sorted: bool)
    requires |keys| == |pos| && w > 0 && (forall k :: 0 <= k < |perm| ==> perm[k] < |keys|)
    requires Blocks(keys, pos, perm, lo, b, w, sorted) && TouchedTo(touched, lo, b, w)
    requires SameKeys(touched, keys, keys')
    ensures Blocks(keys', pos, perm, lo, b, w, sorted)
    decreases b - lo
  {
    if lo < b {
      BlocksRekeyed(keys, keys', pos, touched, perm, lo + w, b, w, sorted);
    }
  }

  // ---- One pass

  /** The blocks of `w` from `lo` to exactly `b` have been put out, each in its own place and sorted. */
  ghost predicate Blocks(keys: seq<int>, pos: seq<nat>, perm: seq<nat>, lo: nat, b: nat, w: nat, sorted: bool)
    requires |keys| == |pos| && w > 0
    requires forall k :: 0 <= k < |perm| ==> perm[k] < |keys|
    decreases b - lo
  {
    if lo >= b then lo == b
    else
      var hi := Min(lo + w, |keys|);
      && hi <= |perm|
      && (forall k :: lo <= k < hi ==> lo <= perm[k] < hi)
      && (sorted ==> forall k, l :: lo <= k < l < hi ==> Less(keys, pos, perm[k], perm[l]))
      && Blocks(keys, pos, perm, lo + w, b, w, sorted)
  }

  lemma {:induction false} BlocksExtend(keys: seq<int>, pos: seq<nat>, perm: seq<nat>, perm': seq<nat>, lo: nat,
                                        b: nat, w: nat, sorted: bool)
    requires |keys| == |pos| && w > 0 && perm <= perm'
    requires forall k :: 0 <= k < |perm'| ==> perm'[k] < |keys|
    requires Blocks(keys, pos, perm, lo, b, w, sorted)
    requires var hi := Min(b + w, |keys|);
             && hi <= |perm'| && (forall k :: b <= k < hi ==> b <= perm'[k] < hi)
             && (sorted ==> forall k, l :: b <= k < l < hi ==> Less(keys, pos, perm'[k], perm'[l]))
    ensures Blocks(keys, pos, perm', lo, b + w, w, sorted)
    decreases b - lo
  {
    if lo < b {
      BlocksExtend(keys, pos, perm, perm', lo + w, b, w, sorted);
    }
  }

  lemma FirstBlockSorted(keys: seq<int>, pos: seq<nat>, perm: seq<nat>, lo: nat, b: nat, w: nat)
    requires |keys| == |pos| == |perm| && w > 0 && lo < |keys| <= b && Permutation(perm, |keys|)
    requires Blocks(keys, pos, perm, lo, b, w, true)
    ensures SortedRange(Through(keys, perm), Through(pos, perm), lo, Min(lo + w, |keys|))
  {
    var hi := Min(lo + w, |keys|);
    assert forall k, l :: lo <= k < l < hi ==> Less(keys, pos, perm[k], perm[l]);
    hide Blocks, Picks;
  }

  lemma FirstBlockEarlier(keys: seq<int>, pos: seq<nat>, perm: seq<nat>, lo: nat, b: nat, w: nat)
    requires |keys| == |pos| == |perm| && w > 0 && lo < |keys| <= b && Permutation(perm, |keys|)
    requires Blocks(keys, pos, perm, lo, b, w, true)
    requires forall i, j :: lo <= i < Min(lo + w, |keys|) <= j < |keys| ==> pos[i] < pos[j]
    ensures var hi, pos' := Min(lo + w, |keys|), Through(pos, perm);
            forall i, j :: lo <= i < hi <= j < |keys| ==> pos'[i] < pos'[j]
  {
    BlocksStayRight(keys, pos, perm, lo + w, b, w);
    var hi := Min(lo + w, |keys|);
    assert forall k :: lo <= k < hi ==> lo <= perm[k] < hi;
    hide Blocks;
  }

  lemma RunsAfterTwo(keys: seq<int>, pos: seq<nat>, lo: nat, w: nat)
    requires |keys| == |pos| && w > 0 && lo < |keys| && Runs(keys, pos, lo, w)
    ensures forall i, j :: lo <= i < Min(lo + (w + w), |keys|) <= j < |keys| ==> pos[i] < pos[j]
    ensures Runs(keys, pos, lo + (w + w), w)
  {
    assert Runs(keys, pos, lo + w, w);
  }

  lemma FirstTwoRuns(keys: seq<int>, pos: seq<nat>, lo: nat, w: nat)
    requires |keys| == |pos| && w > 0 && lo < |keys| && Runs(keys, pos, lo, w)
    ensures TwoRuns(keys, pos, lo, Min(lo + w, |keys|), Min(lo + w + w, |keys|))
  {
    assert Runs(keys, pos, lo + w, w);
  }

  lemma RunsBeyond(keys: seq<int>, pos: seq<nat>, lo: nat, w: nat)
    requires |keys| == |pos| && w > 0 && lo >= |keys|
    ensures Runs(keys, pos, lo, w)
  {
  }

  lemma PermutationBelow(perm: seq<nat>, n: nat)
    requires Permutation(perm, n)
    ensures |perm| == n && forall k :: 0 <= k < |perm| ==> perm[k] < n
  {
  }

  lemma BlocksRest(keys: seq<int>, pos: seq<nat>, perm: seq<nat>, lo: nat, b: nat, w: nat)
    requires |keys| == |pos| == |perm| && w > 0 && lo < |keys| <= b && forall k :: 0 <= k < |perm| ==> perm[k] < |keys|
    requires Blocks(keys, pos, perm, lo, b, w, true)
    ensures Blocks(keys, pos, perm, lo + w, b, w, true)
  {
  }

  /** The blocks of a pass are the runs of the next. */
  lemma {:induction false} BlocksAreRuns(keys: seq<int>, pos: seq<nat>, perm: seq<nat>, lo: nat, b: nat, w: nat)
    requires |keys| == |pos| == |perm| && w > 0 && b >= |keys| && Permutation(perm, |keys|)
    requires Blocks(keys, pos, perm, lo, b, w + w, true) && Runs(keys, pos, lo, w)
    ensures Runs(Through(keys, perm), Through(pos, perm), lo, w + w)
    decreases b - lo
  {
    hide Runs, Blocks, Picks, SortedRange, Less;
    PermutationBelow(perm, |keys|);
    if lo < |keys| {
      BlocksRest(keys, pos, perm, lo, b, w + w);
      RunsAfterTwo(keys, pos, lo, w);
      BlocksAreRuns(keys, pos, perm, lo + (w + w), b, w);
      FirstBlockSorted(keys, pos, perm, lo, b, w + w);
      FirstBlockEarlier(keys, pos, perm, lo, b, w + w);
      RunsFrom(Through(keys, perm), Through(pos, perm), lo, w + w);
    } else {
      RunsBeyond(Through(keys, perm), Through(pos, perm), lo, w + w);
    }
  }

  lemma RunsFrom(keys: seq<int>, pos: seq<nat>, lo: nat, w: nat)
    requires |keys| == |pos| && w > 0 && lo < |keys| && Runs(keys, pos, lo + w, w)
    requires SortedRange(keys, pos, lo, Min(lo + w, |keys|))
    requires forall i, j :: lo <= i < Min(lo + w, |keys|) && Min(lo + w, |keys|) <= j < |keys| ==> pos[i] < pos[j]
    ensures Runs(keys, pos, lo, w)
  {
  }

  lemma {:induction false} BlocksStayRight(keys: seq<int>, pos: seq<nat>, perm: seq<nat>, lo: nat, b: nat, w: nat)
    requires |keys| == |pos| == |perm| && w > 0 && b >= |keys| && Permutation(perm, |keys|)
    requires Blocks(keys, pos, perm, lo, b, w, true)
    ensures forall k :: lo <= k < |perm| ==> lo <= perm[k]
    decreases b - lo
  {
    if lo < |keys| {
      BlocksStayRight(keys, pos, perm, lo + w, b, w);
    }
  }

  // ---- Which elements have been compared

  /** The blocks of `w` from `lo` to exactly `b`, where longer than one, are all compared. */
  ghost predicate TouchedTo(touched: seq<bool>, lo: nat, b: nat, w: nat)
    requires w > 0
    decreases b - lo
  {
    if lo >= b then lo == b
    else
      var hi := Min(lo + w, |touched|);
      && (hi - lo >= 2 ==> forall i :: lo <= i < hi ==> touched[i])
      && TouchedTo(touched, lo + w, b, w)
  }

  ghost predicate Implies(a: seq<bool>, b: seq<bool>) {
    |a| == |b| && forall i :: 0 <= i < |a| && a[i] ==> b[i]
  }

  lemma {:induction false} TouchedGrows(a: seq<bool>, b: seq<bool>, lo: nat, w: nat)
    requires w > 0 && Implies(a, b) && Touched(a, lo, w)
    ensures Touched(b, lo, w)
    decreases |a| - lo
  {
    if lo < |a| {
      TouchedGrows(a, b, lo + w, w);
    }
  }

  lemma {:induction false} TouchedToExtend(x: seq<bool>, y: seq<bool>, lo: nat, b: nat, w: nat)
    requires w > 0 && Implies(x, y) && TouchedTo(x, lo, b, w)
    requires var hi := Min(b + w, |y|); hi - b >= 2 ==> forall i :: b <= i < hi ==> y[i]
    ensures TouchedTo(y, lo, b + w, w)
    decreases b - lo
  {
    if lo < b {
      TouchedToExtend(x, y, lo + w, b, w);
    }
  }

  /** A pass moves elements only within their blocks. */
  lemma {:induction false} TouchedThrough(keys: seq<int>, pos: seq<nat>, touched: seq<bool>, perm: seq<nat>, lo: nat,
                                          b: nat, w: nat, sorted: bool)
    requires |keys| == |pos| == |perm| == |touched| && w > 0 && b >= |keys| && Permutation(perm, |keys|)
    requires Blocks(keys, pos, perm, lo, b, w, sorted) && TouchedTo(touched, lo, b, w)
    ensures Touched(Through(touched, perm), lo, w)
    decreases b - lo
  {
    if lo < |keys| {
      TouchedThrough(keys, pos, touched, perm, lo + w, b, w, sorted);
    }
  }

  /** Merging two runs compares both heads, and so everything in a block of two or more. */
  lemma BlockTouched(a: seq<bool>, b: seq<bool>, lo: nat, w: nat)
    requires w > 0 && Implies(a, b) && lo < |a| && Touched(a, lo, w)
    requires lo + w < |a| ==> b[lo] && b[lo + w]
    ensures var hi := Min(lo + w + w, |b|); hi - lo >= 2 ==> forall i :: lo <= i < hi ==> b[i]
    ensures Touched(b, lo + w + w, w)
  {
    TouchedGrows(a, b, lo, w);
    if lo + w < |a| {
      assert Touched(b, lo + w, w);
    }
  }
}
