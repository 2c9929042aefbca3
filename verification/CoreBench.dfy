/**
 The list benchmark itself: finding and caching items, sorting by data, removing an item and
 putting it back, and sorting by index, after which the list is as it was.
 */
module CoreBench {
  import opened MergeSpec
  import opened CoreList

  ghost function Backwards(n: nat): (perm: seq<nat>)
    ensures Permutation(perm, n) && forall k :: 0 <= k < n ==> perm[k] == n - 1 - k
  {
    seq(n, k requires 0 <= k < n => n - 1 - k)
  }

  /** `core_list_reverse`. */
  method Reverse(list0: ListHead?, ghost s: seq<ListHead>) returns (next: ListHead?)
    requires Distinct(s) && Chain(s) && list0 == At(s, 0)
    modifies Nodes(s)`next
    ensures Chain(Through(s, Backwards(|s|))) && next == At(Through(s, Backwards(|s|)), 0)
  {
    var list := list0;
    next := null;
    ghost var k := 0;
    while list != null
      invariant k <= |s| && list == At(s, k) && next == At(s, k - 1)
      invariant forall i {:trigger s[i].next} :: 0 <= i < k ==> s[i].next == At(s, i - 1)
      invariant forall i {:trigger s[i].next} :: k <= i < |s| ==> s[i].next == At(s, i + 1)
      decreases |s| - k
    {
      var tmp := list.next;
      list.next := next;
      next := list;
      list := tmp;
      k := k + 1;
    }
    hide Chain, Distinct;
    LinkedBackwards(s);
  }

  lemma LinkedBackwards(s: seq<ListHead>)
    requires forall i {:trigger s[i].next} :: 0 <= i < |s| ==> s[i].next == At(s, i - 1)
    ensures Chain(Through(s, Backwards(|s|))) && At(s, |s| - 1) == At(Through(s, Backwards(|s|)), 0)
  {
    var r := Through(s, Backwards(|s|));
    forall i {:trigger r[i].next} | 0 <= i < |r|
      ensures r[i].next == At(r, i + 1)
    {
      assert r[i] == s[|s| - 1 - i];
    }
  }

  /** What is looked for: an index if it is not negative, else a lower byte. */
  predicate Wanted(d: ListData, idx: int, data16: int)
    reads d`idx, d`data16
  {
    if idx >= 0 then d.idx == idx else Low(d.data16) == data16
  }

  /** `core_list_find`: the first such node, if any. */
  method Find(list0: ListHead?, idx: int, data16: int, ghost s: seq<ListHead>) returns (list: ListHead?, ghost f: nat)
    requires Chain(s) && list0 == At(s, 0)
    ensures f <= |s| && list == At(s, f) && (list != null ==> Wanted(s[f].info, idx, data16))
    ensures forall k :: 0 <= k < f ==> !Wanted(s[k].info, idx, data16)
    ensures forall k :: 0 <= k < |s| && Wanted(s[k].info, idx, data16) ==> list != null
    ensures list != null ==> Wanted(list.info, idx, data16)
  {
    list, f := list0, 0;
    if idx >= 0 {
      while list != null && list.info.idx != idx
        invariant f <= |s| && list == At(s, f)
        invariant forall k :: 0 <= k < f ==> !Wanted(s[k].info, idx, data16)
        decreases |s| - f
      {
        list, f := list.next, f + 1;
      }
    } else {
      while list != null && Low(list.info.data16) != data16
        invariant f <= |s| && list == At(s, f)
        invariant forall k :: 0 <= k < f ==> !Wanted(s[k].info, idx, data16)
        decreases |s| - f
      {
        list, f := list.next, f + 1;
      }
    }
  }

  /** Position `j + 1` comes right after the head; what was between moves back by one. */
  ghost function ToFront(n: nat, j: nat): (perm: seq<nat>)
    requires j + 1 < n
    ensures Permutation(perm, n)
    ensures perm[0] == 0 && perm[1] == j + 1 && forall k :: 2 <= k < n ==> perm[k] == if k <= j + 1 then k - 1 else k
  {
    seq(n, k requires 0 <= k < n => if k == 0 then 0 else if k == 1 then j + 1 else if k <= j + 1 then k - 1 else k)
  }

  /** Moves the item after `found` to just behind the head. */
  method CacheNext(list: ListHead, found: ListHead, ghost s: seq<ListHead>, ghost j: nat)
    requires Distinct(s) && Chain(s) && j + 1 < |s| && list == s[0] && found == s[j]
    modifies Nodes(s)`next
    ensures Chain(Through(s, ToFront(|s|, j)))
  {
    var finder := found.next;
    assert finder == s[j + 1];
    found.next := finder.next;
    finder.next := list.next;
    list.next := finder;
    CacheLinks(s, j);
  }

  lemma CacheLinks(s: seq<ListHead>, j: nat)
    requires Distinct(s) && j + 1 < |s|
    requires s[0].next == s[j + 1] && s[j + 1].next == (if j == 0 then At(s, 2) else s[1])
    requires j > 0 ==> s[j].next == At(s, j + 2)
    requires forall k {:trigger s[k].next} :: 0 < k < |s| && k != j && k != j + 1 ==> s[k].next == At(s, k + 1)
    ensures Chain(Through(s, ToFront(|s|, j)))
  {
    var r := Through(s, ToFront(|s|, j));
    forall k {:trigger r[k].next} | 0 <= k < |r|
      ensures r[k].next == At(r, k + 1)
    {
    }
  }

  /** `core_list_remove`: the node after `item` is unlinked, carrying `item`'s data away. */
  method Remove(item: ListHead, ghost s: seq<ListHead>, ghost i: nat) returns (ret: ListHead)
    requires Distinct(s) && Chain(s) && i + 1 < |s| && item == s[i]
    modifies s[i], s[i + 1]
    ensures ret == s[i + 1] && ret.next == null && Chain(s[..i + 1] + s[i + 2..])
    ensures ret.info == old(s[i].info) && s[i].info == old(s[i + 1].info)
  {
    ret := item.next;
    var tmp := item.info;
    item.info := ret.info;
    ret.info := tmp;
    item.next := item.next.next;
    ret.next := null;
  }

  /** `core_list_undo_remove`: links the node back in and returns both data to where they were. */
  method UndoRemove(removed: ListHead, modified: ListHead, ghost s: seq<ListHead>, ghost i: nat) returns (ret: ListHead)
    requires Distinct(s) && Chain(s) && i < |s| && modified == s[i] && forall k :: 0 <= k < |s| ==> s[k] != removed
    modifies removed, modified
    ensures ret == removed && Chain(s[..i + 1] + [removed] + s[i + 1..])
    ensures modified.info == old(removed.info) && removed.info == old(modified.info)
  {
    var tmp := removed.info;
    removed.info := modified.info;
    modified.info := tmp;
    removed.next := modified.next;
    modified.next := removed;
    ret := removed;
  }

  /** `f` is the first node with what is looked for, or the length of the list if there is none. */
  ghost predicate FirstWanted(t: seq<ListHead>, ds: set<ListData>, idx: int, data16: int, f: nat)
    reads Nodes(t)`info, ds`idx, ds`data16
  {
    && InfosIn(t, ds) && f <= |t| && (f < |t| ==> Wanted(t[f].info, idx, data16))
    && forall k :: 0 <= k < f ==> !Wanted(t[k].info, idx, data16)
  }

  /**
   The order after a round that found node `f`: backwards, and with the node before the found one, which
   follows it now, moved to right behind the head.
   */
  ghost function RoundOrder(n: nat, f: nat): (perm: seq<nat>)
    ensures Permutation(perm, n)
  {
    if 0 < f < n then
      PermutationThrough(Backwards(n), ToFront(n, n - 1 - f), n);
      Through(Backwards(n), ToFront(n, n - 1 - f))
    else Backwards(n)
  }

  /** One round of the search: find, reverse, and move what follows a found item to the front. */
  method Round(list0: ListHead, idx: int, data16: int, ghost t: seq<ListHead>, ghost ds: set<ListData>)
    returns (list: ListHead, ghost perm: seq<nat>, ghost f: nat)
    requires Distinct(t) && Chain(t) && |t| >= 2 && list0 == t[0] && InfosIn(t, ds)
    modifies Nodes(t)`next
    ensures Permutation(perm, |t|) && (forall k :: 0 <= k < |perm| ==> perm[k] < |t|)
    ensures FirstWanted(t, ds, idx, data16, f) && perm == RoundOrder(|t|, f)
    ensures Chain(Through(t, perm)) && list == t[perm[0]]
  {
    hide RoundOrder, Chain, Distinct, Permutation, Wanted;
    var thisFind: ListHead?, head: ListHead?;
    thisFind, f := FindFirst(list0, idx, data16, t, ds);
    head := Reverse(list0, t);
    perm := Backwards(|t|);
    list := head;
    RoundOrderIs(|t|, f);
    if thisFind != null {
      NextInReverse(t, f);
    }
    if thisFind != null && thisFind.next != null {
      ghost var r, j := Through(t, perm), |t| - 1 - f;
      DistinctThrough(t, perm);
      NodesOfReverse(t);
      CacheNext(list, thisFind, r, j);
      ThroughTwice(t, perm, ToFront(|t|, j));
      PermutationThrough(perm, ToFront(|t|, j), |t|);
      perm := Through(perm, ToFront(|t|, j));
    }
  }

  /** The search, before anything is relinked. */
  method FindFirst(list0: ListHead, idx: int, data16: int, ghost t: seq<ListHead>, ghost ds: set<ListData>)
    returns (list: ListHead?, ghost f: nat)
    requires Chain(t) && list0 == At(t, 0) && InfosIn(t, ds)
    ensures FirstWanted(t, ds, idx, data16, f) && list == At(t, f)
  {
    list, f := Find(list0, idx, data16, t);
  }

  lemma RoundOrderIs(n: nat, f: nat)
    ensures Permutation(Backwards(n), n)
    ensures if 0 < f < n then RoundOrder(n, f) == Through(Backwards(n), ToFront(n, n - 1 - f))
            else RoundOrder(n, f) == Backwards(n)
  {
  }

  /** After reversing, the node before the found one follows it. */
  lemma NextInReverse(t: seq<ListHead>, f: nat)
    requires f < |t| && Chain(Through(t, Backwards(|t|)))
    ensures t[f].next != null <==> f > 0
  {
    var r := Through(t, Backwards(|t|));
    assert r[|t| - 1 - f].next == At(r, |t| - 1 - f + 1);
  }

  lemma NodesOfReverse(t: seq<ListHead>)
    ensures Nodes(Through(t, Backwards(|t|))) <= Nodes(t)
  {
  }

  /** `info.idx++` on 16 bits. */
  function NextIdx(idx: int): int {
    if idx < 0 then idx else if idx == 32767 then -32768 else idx + 1
  }

  /** The index looked for in round `k`. */
  function IdxAt(finderIdx: int, k: nat): int {
    if k == 0 then finderIdx else NextIdx(IdxAt(finderIdx, k - 1))
  }

  /** The order after rounds that found these nodes. */
  ghost function OrderAfter(n: nat, found: seq<nat>): (pos: seq<nat>)
    ensures Permutation(pos, n)
  {
    if found == [] then Identity(n)
    else
      var before, last := OrderAfter(n, found[..|found| - 1]), RoundOrder(n, found[|found| - 1]);
      PermutationThrough(before, last, n);
      Through(before, last)
  }

  lemma OrderStep(n: nat, found: seq<nat>, f: nat)
    ensures forall k :: 0 <= k < n ==> RoundOrder(n, f)[k] < n
    ensures OrderAfter(n, found + [f]) == Through(OrderAfter(n, found), RoundOrder(n, f))
  {
    assert (found + [f])[..|found|] == found;
  }

  /** The list after these rounds. */
  ghost function ListAfter(s: seq<ListHead>, found: seq<nat>): (t: seq<ListHead>)
    ensures |t| == |s| && Nodes(t) <= Nodes(s)
  {
    Through(s, OrderAfter(|s|, found))
  }

  /** Each round found the first node with what it looked for, in the list as it was then. */
  ghost predicate Searched(s: seq<ListHead>, ds: set<ListData>, finderIdx: int, found: seq<nat>)
    reads Nodes(s)`info, ds`idx, ds`data16
  {
    forall k :: 0 <= k < |found| ==> FoundAt(s, ds, finderIdx, found, k)
  }

  ghost predicate FoundAt(s: seq<ListHead>, ds: set<ListData>, finderIdx: int, found: seq<nat>, k: nat)
    requires k < |found|
    reads Nodes(s)`info, ds`idx, ds`data16
  {
    FirstWanted(ListAfter(s, found[..k]), ds, IdxAt(finderIdx, k), k % 256, found[k])
  }

  lemma SearchedStep(s: seq<ListHead>, ds: set<ListData>, finderIdx: int, found: seq<nat>, f: nat)
    requires Searched(s, ds, finderIdx, found)
    requires FirstWanted(ListAfter(s, found), ds, IdxAt(finderIdx, |found|), |found| % 256, f)
    ensures Searched(s, ds, finderIdx, found + [f])
  {
    hide FirstWanted, ListAfter;
    forall k | 0 <= k < |found + [f]|
      ensures FoundAt(s, ds, finderIdx, found + [f], k)
    {
      assert (found + [f])[..k] == if k < |found| then found[..k] else found;
      assert k < |found| ==> FoundAt(s, ds, finderIdx, found, k);
    }
  }

  /** All rounds of the search: the list is in the order that their finds make of it. */
  method Rounds(list0: ListHead, findNum: int, finderIdx: int, ghost s: seq<ListHead>, ghost ds: set<ListData>)
    returns (list: ListHead, idx: int, data16: int, ghost t: seq<ListHead>, ghost pos: seq<nat>,
             ghost found: seq<nat>)
    requires Distinct(s) && Chain(s) && |s| >= 2 && list0 == s[0] && InfosIn(s, ds)
    modifies Nodes(s)`next
    ensures Shuffled(s, t, pos) && Chain(t) && |t| == |s| && list == t[0]
    ensures |found| == (if findNum < 0 then 0 else findNum) && pos == OrderAfter(|s|, found)
    ensures Searched(s, ds, finderIdx, found) && idx == IdxAt(finderIdx, |found|)
  {
    hide Shuffled, Chain, Distinct, Searched, FirstWanted, RoundOrder;
    list, idx, data16 := list0, finderIdx, 0;
    t, pos, found := s, Identity(|s|), [];
    ShuffledStart(s);
    SearchedNone(s, ds, finderIdx);
    var i := 0;
    while i < findNum
      invariant Shuffled(s, t, pos) && Chain(t) && |t| == |s| && list == t[0]
      invariant i == |found| && (i <= findNum || i == 0) && pos == OrderAfter(|s|, found)
      invariant Searched(s, ds, finderIdx, found) && idx == IdxAt(finderIdx, |found|)
      decreases findNum - i
    {
      ghost var perm, f;
      ShuffledFacts(s, t, pos);
      ShuffledInfos(s, t, pos, ds);
      ShuffledIs(s, t, pos, found);
      data16 := i % 256;
      list, perm, f := Round(list, idx, data16, t, ds);
      SearchedStep(s, ds, finderIdx, found, f);
      ShuffledStep(s, t, pos, perm);
      OrderStep(|s|, found, f);
      t, pos, found := Through(t, perm), Through(pos, perm), found + [f];
      idx := NextIdx(idx);
      i := i + 1;
    }
  }

  lemma ShuffledInfos(s: seq<ListHead>, t: seq<ListHead>, pos: seq<nat>, ds: set<ListData>)
    requires Shuffled(s, t, pos) && InfosIn(s, ds)
    ensures InfosIn(t, ds)
  {
  }

  lemma ShuffledIs(s: seq<ListHead>, t: seq<ListHead>, pos: seq<nat>, found: seq<nat>)
    requires Shuffled(s, t, pos) && pos == OrderAfter(|s|, found)
    ensures t == ListAfter(s, found)
  {
  }

  lemma SearchedNone(s: seq<ListHead>, ds: set<ListData>, finderIdx: int)
    ensures Searched(s, ds, finderIdx, []) && OrderAfter(|s|, []) == Identity(|s|)
  {
  }

  /** Removes the item after the head, looks for something in what is left, and puts the item back. */
  method RemoveAndPutBack(list: ListHead, idx: int, data16: int, ghost t: seq<ListHead>)
    requires Distinct(t) && Chain(t) && |t| >= 3 && list == t[0]
    modifies t[1], t[2]
    ensures Chain(t) && t[1].info == old(t[1].info) && t[2].info == old(t[2].info)
  {
    var remover := Remove(list.next, t, 1);
    ghost var rest := t[..2] + t[3..];
    assert list == At(rest, 0);
    var finder, f := Find(list, idx, data16, rest);
    if finder == null {
      finder := list.next;
      f := 1;
    }
    while finder != null
      invariant f <= |rest| && finder == At(rest, f)
      decreases |rest| - f
    {
      finder := finder.next;
      f := f + 1;
    }
    remover := UndoRemove(remover, list.next, rest, 1);
    assert rest[..2] + [t[2]] + rest[2..] == t;
  }

  /** Increasing positions below `n`, `n` of them, are all positions in order. */
  lemma {:induction false} IncreasingIsIdentity(q: seq<nat>, k: nat)
    requires k < |q| && (forall i, j :: 0 <= i < j < |q| ==> q[i] < q[j]) && forall i :: 0 <= i < |q| ==> q[i] < |q|
    ensures q[k] >= k
  {
    if k > 0 {
      IncreasingIsIdentity(q, k - 1);
    }
  }

  lemma {:induction false} IncreasingFromTop(q: seq<nat>, k: nat)
    requires k < |q| && (forall i, j :: 0 <= i < j < |q| ==> q[i] < q[j]) && forall i :: 0 <= i < |q| ==> q[i] < |q|
    ensures q[k] <= k
    decreases |q| - k
  {
    if k + 1 < |q| {
      IncreasingFromTop(q, k + 1);
    }
  }

  ghost predicate Increasing(keys: seq<int>) {
    forall i, j :: 0 <= i < j < |keys| ==> keys[i] < keys[j]
  }

  lemma IncreasingOrders(keys: seq<int>, a: nat, b: nat)
    requires a < |keys| && b < |keys| && Increasing(keys)
    ensures keys[a] < keys[b] <==> a < b
    ensures keys[a] == keys[b] <==> a == b
  {
    if b < a {
      assert keys[b] < keys[a];
    }
  }

  /** Sorting any shuffle of a list with increasing indices gives the list itself. */
  lemma SortedShuffle(s: seq<ListHead>, keys: seq<int>, t: seq<ListHead>, pos: seq<nat>, perm: seq<nat>)
    requires Shuffled(s, t, pos) && |keys| == |s| && Increasing(keys) && Permutation(perm, |s|)
    requires SortedStably(Through(keys, pos), perm)
    ensures |t| == |s| && (forall k :: 0 <= k < |perm| ==> perm[k] < |s|) && Through(t, perm) == s
  {
    var q := Through(pos, perm);
    PermutationThrough(pos, perm, |s|);
    ThroughTwice(s, pos, perm);
    forall i, j | 0 <= i < j < |q|
      ensures q[i] < q[j]
    {
      var a, b := q[i], q[j];
      assert Through(keys, pos)[perm[i]] == keys[a] && Through(keys, pos)[perm[j]] == keys[b];
      IncreasingOrders(keys, a, b);
    }
    forall k | 0 <= k < |q|
      ensures q[k] == k
    {
      IncreasingIsIdentity(q, k);
      IncreasingFromTop(q, k);
    }
  }

  /** The nodes' data is all in `ds`, with these indices. */
  ghost predicate HasKeys(s: seq<ListHead>, ds: set<ListData>, keys: seq<int>)
    reads Nodes(s)`info, ds`idx
  {
    |keys| == |s| && forall k :: 0 <= k < |s| ==> s[k].info in ds && keys[k] == s[k].info.idx
  }

  lemma HasKeysThrough(t: seq<ListHead>, ds: set<ListData>, keys: seq<int>, perm: seq<nat>)
    requires HasKeys(t, ds, keys) && Permutation(perm, |t|)
    ensures HasKeys(Through(t, perm), ds, Through(keys, perm))
  {
  }

  /** By index the keys are what the sort orders by. */
  lemma KeysAreValues(t: seq<ListHead>, ds: set<ListData>, keys: seq<int>, regen: bool)
    requires HasKeys(t, ds, keys)
    ensures InfosIn(t, ds) && Values(ByIdx(regen), t, ds) == keys
  {
  }

  ghost predicate HasInfos(s: seq<ListHead>, infos: seq<ListData>)
    reads Nodes(s)`info
  {
    |infos| == |s| && forall k :: 0 <= k < |s| ==> s[k].info == infos[k]
  }

  /** What the whole function keeps besides the order: which data each node holds, and upper bytes. */
  ghost predicate Held(s: seq<ListHead>, infos: seq<ListData>, ds: set<ListData>, keys: seq<int>)
    reads Nodes(s)`info, ds`idx
  {
    HasInfos(s, infos) && HasKeys(s, ds, keys)
  }

  lemma HeldShuffled(s: seq<ListHead>, infos: seq<ListData>, ds: set<ListData>, keys: seq<int>, t: seq<ListHead>,
                     pos: seq<nat>)
    requires Held(s, infos, ds, keys) && Shuffled(s, t, pos)
    ensures Distinct(t) && |t| == |s| == |pos| == |keys| && Nodes(t) <= Nodes(s)
    ensures (forall k :: 0 <= k < |pos| ==> pos[k] < |s|) && HasKeys(t, ds, Through(keys, pos))
  {
    ShuffledFacts(s, t, pos);
    HasKeysThrough(s, ds, keys, pos);
  }

  /** The remove step leaves everything in place, whatever the list was shuffled into. */
  method RemoveStep(list: ListHead, idx: int, data16: int, ghost s: seq<ListHead>, ghost infos: seq<ListData>,
                    ghost ds: set<ListData>, ghost keys: seq<int>, ghost t: seq<ListHead>, ghost pos: seq<nat>)
    requires Held(s, infos, ds, keys) && Shuffled(s, t, pos) && Chain(t) && |s| >= 3 && t != [] && list == t[0]
    modifies Nodes(s)
    ensures Held(s, infos, ds, keys) && Chain(t)
  {
    ShuffledFacts(s, t, pos);
    RemoveAndPutBack(list, idx, data16, t);
  }

  /** The sort by data, if asked for. */
  method SortByData(list0: ListHead, finderIdx: int, res: Results, ghost s: seq<ListHead>, ghost infos: seq<ListData>,
                    ghost ds: set<ListData>, ghost olds: map<ListData, int>, ghost keys: seq<int>,
                    ghost t0: seq<ListHead>, ghost pos0: seq<nat>)
    returns (list: ListHead, ghost t: seq<ListHead>, ghost pos: seq<nat>)
    requires Held(s, infos, ds, keys) && DataKept(ByData, ds, olds, {})
    requires Shuffled(s, t0, pos0) && Chain(t0) && |s| >= 3 && |t0| == |s| && list0 == t0[0]
    modifies Nodes(s)`next, ds`data16, res`calls
    ensures DataKept(ByIdx(true), ds, olds, {})
    ensures Shuffled(s, t, pos) && Chain(t) && |t| == |s| && list == t[0]
  {
    hide Shuffled, Held, HasKeys, Chain, Distinct, Permutation, DataKept;
    list, t, pos := list0, t0, pos0;
    ghost var ms := {};
    if finderIdx > 0 {
      ghost var perm;
      HeldShuffled(s, infos, ds, keys, t, pos);
      KeysAreValues(t, ds, Through(keys, pos), true);
      list, perm, ms := MergeSort(ByData, res, list, t, ds, olds);
      ShuffledStep(s, t, pos, perm);
      t, pos := Through(t, perm), Through(pos, perm);
    }
    DropMarks(ds, olds, ms);
  }

  lemma DropMarks(ds: set<ListData>, olds: map<ListData, int>, ms: set<ListData>)
    requires DataKept(ByData, ds, olds, ms)
    ensures DataKept(ByIdx(true), ds, olds, {})
  {
  }

  /** The sort by index brings the list back. */
  method SortByIdx(list0: ListHead, res: Results, ghost s: seq<ListHead>, ghost infos: seq<ListData>,
                   ghost ds: set<ListData>, ghost olds: map<ListData, int>, ghost keys: seq<int>,
                   ghost t: seq<ListHead>, ghost pos: seq<nat>)
    returns (list: ListHead, ghost ms: set<ListData>)
    requires Held(s, infos, ds, keys) && Increasing(keys) && DataKept(ByIdx(true), ds, olds, {})
    requires Shuffled(s, t, pos) && Chain(t) && |s| >= 3 && |t| == |s| && list0 == t[0]
    modifies Nodes(s)`next, ds`data16, res`calls
    ensures Chain(s) && list == s[0]
    ensures DataKept(ByIdx(true), ds, olds, ms) && forall k :: 0 <= k < |s| ==> s[k].info in ms
  {
    hide Shuffled, Held, HasKeys, Chain, Distinct, Permutation, DataKept, SortedStably, Increasing;
    ghost var perm;
    HeldShuffled(s, infos, ds, keys, t, pos);
    KeysAreValues(t, ds, Through(keys, pos), true);
    list, perm, ms := MergeSort(ByIdx(true), res, list0, t, ds, olds);
    KeysAreValues(t, ds, Through(keys, pos), true);
    SortedShuffle(s, keys, t, pos, perm);
    assert forall k :: 0 <= k < |s| ==> Through(t, perm)[k] == t[perm[k]];
  }

  ghost predicate IsList(list: ListHead?, s: seq<ListHead>)
    reads Nodes(s)`next
  {
    Distinct(s) && Chain(s) && list == At(s, 0)
  }

  ghost function Infos(s: seq<ListHead>): set<ListData>
    reads Nodes(s)`info
  {
    set k | 0 <= k < |s| :: s[k].info
  }

  ghost predicate IncreasingIdx(s: seq<ListHead>)
    reads Nodes(s)`info, Infos(s)`idx
  {
    forall i, j :: 0 <= i < j < |s| ==> s[i].info.idx < s[j].info.idx
  }

  /** The values the proof refers back to. */
  lemma Snapshot(s: seq<ListHead>)
    returns (infos: seq<ListData>, ds: set<ListData>, keys: seq<int>, olds: map<ListData, int>)
    requires IncreasingIdx(s)
    ensures ds == Infos(s) && Held(s, infos, ds, keys) && Increasing(keys) && DataKept(ByData, ds, olds, {})
    ensures |infos| == |keys| == |s| && forall k :: 0 <= k < |s| ==> s[k].info == infos[k] && keys[k] == infos[k].idx
    ensures forall k :: 0 <= k < |s| ==> infos[k] in olds && olds[infos[k]] == infos[k].data16
  {
    infos := seq(|s|, k reads Nodes(s)`info requires 0 <= k < |s| => s[k].info);
    ds := Infos(s);
    keys := seq(|infos|, k reads infos requires 0 <= k < |infos| => infos[k].idx);
    olds := map d | d in ds :: d.data16;
  }

  lemma Restoration(s: seq<ListHead>, infos: seq<ListData>, ds: set<ListData>, keys: seq<int>,
                    olds: map<ListData, int>, ms: set<ListData>)
    requires Held(s, infos, ds, keys) && DataKept(ByIdx(true), ds, olds, ms)
    requires forall k :: 0 <= k < |s| ==> s[k].info in ms
    ensures |infos| == |keys| == |s|
    ensures forall k :: 0 <= k < |s| ==> s[k].info == infos[k] && infos[k] in olds && keys[k] == infos[k].idx
    ensures forall k :: 0 <= k < |s| ==> High(s[k].info.data16) == High(olds[infos[k]]) && Restored(s[k].info)
  {
  }

  lemma SameHalves(x: int, y: int)
    requires High(x) == High(y)
    ensures Low(x) == High(x) % 256 && Low(y) == High(y) % 256 ==> x == y
  {
  }

  /**
   `core_bench_list` on a list of three or more whose indices increase: afterwards the nodes are
   linked in the same order, hold the same data with the same indices and upper bytes, and every
   lower byte agrees with its upper byte, whatever the kernels returned on the way.
   */
  method BenchList(res: Results, list0: ListHead, findNum: int, finderIdx: int, ghost s: seq<ListHead>)
    returns (list: ListHead)
    requires IsList(list0, s) && |s| >= 3
    requires IncreasingIdx(s)
    modifies Nodes(s), Infos(s)`data16, res`calls
    ensures list == list0 && IsList(list, s)
    ensures forall k :: 0 <= k < |s| ==> s[k].info == old(s[k].info) && s[k].info.idx == old(s[k].info.idx)
    ensures forall k :: 0 <= k < |s| ==> High(s[k].info.data16) == High(old(s[k].info.data16)) && Restored(s[k].info)
    ensures forall k :: 0 <= k < |s| && old(Restored(s[k].info)) ==> s[k].info.data16 == old(s[k].info.data16)
  {
    hide Held, HasKeys, DataKept, Increasing, IncreasingIdx, Shuffled, Chain, Distinct, Searched, OrderAfter, IdxAt;
    ghost var infos, ds, keys, olds := Snapshot(s);
    var idx, data16;
    ghost var t, pos, ms, found;
    list, idx, data16, t, pos, found := Rounds(list0, findNum, finderIdx, s, ds);
    list, t, pos := SortByData(list, finderIdx, res, s, infos, ds, olds, keys, t, pos);
    RemoveStep(list, idx, data16, s, infos, ds, keys, t, pos);
    list, ms := SortByIdx(list, res, s, infos, ds, olds, keys, t, pos);
    Restoration(s, infos, ds, keys, olds, ms);
    forall k | 0 <= k < |s| && old(Restored(s[k].info))
      ensures s[k].info.data16 == old(s[k].info.data16)
    {
      SameHalves(old(s[k].info.data16), s[k].info.data16);
    }
  }
}
