/**
 The linked list of the list benchmark: sorting by relinking nodes bottom up, reversing,
 caching a found item at the front, and removing an item so that it can be put back.
 */
module CoreList {
  import opened Basics
  import opened MergeSpec

  /** The upper byte of `data16` backs up the lower one. */
  class ListData {
    var data16: int
    var idx: int

    constructor (data16: int, idx: int)
      ensures this.data16 == data16 && this.idx == idx
    {
      this.data16, this.idx := data16, idx;
    }
  }

  class ListHead {
    var next: ListHead?
    var info: ListData

    constructor (info: ListData, next: ListHead?)
      ensures this.info == info && this.next == next
    {
      this.info, this.next := info, next;
    }
  }

  /** The values the benchmark kernels return, one after another. */
  class Results {
    const kernel: nat -> int
    var calls: nat

    constructor (kernel: nat -> int)
      ensures this.kernel == kernel && calls == 0
    {
      this.kernel, calls := kernel, 0;
    }
  }

  /**
   `cmp_complex` and `cmp_idx`; the latter regenerates data when it is given no results. `Any` is
   whatever other function a caller may pass: its answers are any numbers at all.
   */
  datatype Comparator = ByData | ByIdx(regen: bool) | Any

  function High(d: int): int { d / 256 }

  function Low(d: int): int { d % 256 }

  /** The lower byte is what the upper byte backs up. */
  predicate Restored(d: ListData)
    reads d`data16
  {
    Low(d.data16) == High(d.data16) % 256
  }

  /** `calc_func`: the cached 7-bit value, or a kernel's result, cached in the lower byte. */
  method CalcFunc(d: ListData, res: Results) returns (val: int)
    modifies d`data16, res`calls
    ensures High(d.data16) == High(old(d.data16)) && 0 <= val < 128 && Low(d.data16) == 128 + val
    ensures Low(old(d.data16)) >= 128 ==> d.data16 == old(d.data16) && res.calls == old(res.calls)
    ensures Low(old(d.data16)) < 128 ==>
              var kind := old(d.data16) % 8;
              if kind == 0 || kind == 1 then res.calls == old(res.calls) + 1 && val == res.kernel(old(res.calls)) % 128
              else res.calls == old(res.calls) && val == old(d.data16) % 128
  {
    hide High, Low;
    var data := d.data16;
    LowIsByte(data);
    if Low(data) >= 128 {
      return Low(data) - 128;
    }
    var flag := data % 8;
    var retval := data;
    if flag == 0 || flag == 1 {
      retval := res.kernel(res.calls);
      res.calls := res.calls + 1;
    }
    retval := retval % 128;
    d.data16 := High(data) * 256 + 128 + retval;
    Halves(High(data), 128 + retval);
    return retval;
  }

  lemma LowIsByte(x: int)
    ensures 0 <= Low(x) < 256
  {
  }

  lemma Halves(high: int, low: int)
    requires 0 <= low < 256
    ensures High(high * 256 + low) == high && Low(high * 256 + low) == low
  {
  }

  /** What a comparator orders by: the cached value, or the index; nothing for any other function. */
  ghost function Value(cmp: Comparator, d: ListData): int
    reads d`data16, d`idx
  {
    match cmp
    case ByData => Low(d.data16) - 128
    case ByIdx(_) => d.idx
    case Any => 0
  }

  /** The difference of the cached values, or of the indices. */
  method Compare(cmp: Comparator, a: ListData, b: ListData, res: Results) returns (c: int)
    modifies a`data16, b`data16, res`calls
    ensures High(a.data16) == High(old(a.data16)) && High(b.data16) == High(old(b.data16))
    ensures cmp.ByData? ==> Low(a.data16) >= 128 && Low(b.data16) >= 128 && c == Low(a.data16) - Low(b.data16)
    ensures cmp.ByIdx? ==> c == a.idx - b.idx
    ensures cmp.ByIdx? ==> if cmp.regen then Restored(a) && Restored(b)
                           else a.data16 == old(a.data16) && b.data16 == old(b.data16)
    ensures cmp.ByData? ==> (Low(old(a.data16)) >= 128 ==> a.data16 == old(a.data16))
                            && (Low(old(b.data16)) >= 128 ==> b.data16 == old(b.data16))
    ensures cmp.Any? ==> a.data16 == old(a.data16) && b.data16 == old(b.data16)
                         && res.calls == old(res.calls) + 1 && c == res.kernel(old(res.calls))
  {
    hide High, Low;
    match cmp
    case ByData =>
      var val1 := CalcFunc(a, res);
      var val2 := CalcFunc(b, res);
      c := val1 - val2;
    case ByIdx(regen) =>
      if regen {
        Halves(High(a.data16), High(a.data16) % 256);
        Halves(High(b.data16), High(b.data16) % 256);
        a.data16 := High(a.data16) * 256 + High(a.data16) % 256;
        b.data16 := High(b.data16) * 256 + High(b.data16) % 256;
      }
      c := a.idx - b.idx;
    case Any =>
      c := res.kernel(res.calls);
      res.calls := res.calls + 1;
  }

  // ---- Lists as sequences of nodes

  ghost predicate Distinct(s: seq<ListHead>) {
    forall i, j :: 0 <= i < j < |s| ==> s[i] != s[j]
  }

  function At(s: seq<ListHead>, i: int): ListHead? {
    if 0 <= i < |s| then s[i] else null
  }

  /** Each node's link names the following one. */
  ghost predicate Chain(s: seq<ListHead>)
    reads Nodes(s)`next
  {
    forall i {:trigger s[i].next} :: 0 <= i < |s| ==> s[i].next == At(s, i + 1)
  }

  ghost function Nodes(s: seq<ListHead>): set<ListHead> {
    set k | 0 <= k < |s| :: s[k]
  }

  ghost predicate InfosIn(s: seq<ListHead>, ds: set<ListData>)
    reads Nodes(s)`info
  {
    forall k :: 0 <= k < |s| ==> s[k].info in ds
  }

  /** What the nodes' data are ordered by. */
  ghost function Values(cmp: Comparator, s: seq<ListHead>, ds: set<ListData>): (r: seq<int>)
    requires InfosIn(s, ds)
    reads Nodes(s)`info, ds`data16, ds`idx
    ensures |r| == |s| && forall k :: 0 <= k < |s| ==> r[k] == Value(cmp, s[k].info)
  {
    if s == [] then [] else Values(cmp, s[..|s| - 1], ds) + [Value(cmp, s[|s| - 1].info)]
  }

  /** Which nodes' data is in `ms`. */
  ghost function Marks(s: seq<ListHead>, ms: set<ListData>): (r: seq<bool>)
    reads Nodes(s)`info
    ensures |r| == |s| && forall k :: 0 <= k < |s| ==> r[k] == (s[k].info in ms)
  {
    if s == [] then [] else Marks(s[..|s| - 1], ms) + [s[|s| - 1].info in ms]
  }

  /** A key is what its data is ordered by, for the data in `ms`. */
  ghost predicate Keyed(cmp: Comparator, s: seq<ListHead>, ds: set<ListData>, ms: set<ListData>, keys: seq<int>)
    reads Nodes(s)`info, ds`data16, ds`idx
  {
    && |keys| == |s|
    && forall k :: 0 <= k < |s| ==> s[k].info in ds && (s[k].info in ms ==> keys[k] == Value(cmp, s[k].info))
  }

  /** The keys brought up to date for the data in `ms`. */
  ghost function Rekeyed(cmp: Comparator, s: seq<ListHead>, ds: set<ListData>, ms: set<ListData>, keys: seq<int>)
    : (r: seq<int>)
    requires InfosIn(s, ds) && |keys| == |s|
    reads Nodes(s)`info, ds`data16, ds`idx
    ensures |r| == |s|
    ensures forall k :: 0 <= k < |s| ==> r[k] == if s[k].info in ms then Value(cmp, s[k].info) else keys[k]
  {
    var values, marks := Values(cmp, s, ds), Marks(s, ms);
    seq(|s|, k requires 0 <= k < |s| => if marks[k] then values[k] else keys[k])
  }

  lemma RekeyedKeeps(cmp: Comparator, s: seq<ListHead>, ds: set<ListData>, ms: set<ListData>, ms': set<ListData>,
                     keys: seq<int>)
    requires Keyed(cmp, s, ds, ms, keys) && ms <= ms'
    ensures InfosIn(s, ds) && |keys| == |s| && Keyed(cmp, s, ds, ms', Rekeyed(cmp, s, ds, ms', keys))
    ensures SameKeys(Marks(s, ms), keys, Rekeyed(cmp, s, ds, ms', keys))
    ensures ms' == ms ==> Rekeyed(cmp, s, ds, ms', keys) == keys
  {
  }

  /** The nodes put out so far, linked in that order from `list` to `tail`. */
  ghost predicate Output(s: seq<ListHead>, perm: seq<nat>, list: ListHead?, tail: ListHead?)
    requires forall k :: 0 <= k < |perm| ==> perm[k] < |s|
    reads Nodes(s)`next
  {
    if perm == [] then list == null && tail == null
    else
      && list == s[perm[0]] && tail == s[perm[|perm| - 1]]
      && forall k :: 0 <= k < |perm| - 1 ==> s[perm[k]].next == s[perm[k + 1]]
  }

  /** Part-way through a merge: `ip` and `iq` are the heads of what is left of the two runs. */
  ghost predicate Split(perm: seq<nat>, n: nat, b: int, ip: int, pe: int, iq: int) {
    && 0 <= b <= ip <= pe <= iq <= n && |perm| == ip + (iq - pe)
    && Picks(perm, n)
    && (forall k :: 0 <= k < |perm| ==> perm[k] < ip || pe <= perm[k] < iq)
    && (forall k :: b <= k < |perm| ==> b <= perm[k])
  }

  /** What the nodes not yet put out still say. */
  ghost predicate Waiting(s: seq<ListHead>, ip: int, pe: int, iq: int)
    requires 0 <= ip && 0 <= iq
    reads Nodes(s)`next
  {
    && (forall k {:trigger s[k].next} :: ip <= k < pe && k < |s| ==> s[k].next == At(s, k + 1))
    && (forall k {:trigger s[k].next} :: iq <= k < |s| ==> s[k].next == At(s, k + 1))
  }

  /** Adds the next node of one run to the output; `ip` and `iq` have already moved past it. */
  method Append(list: ListHead?, tail: ListHead?, e: ListHead, ghost s: seq<ListHead>, ghost perm: seq<nat>,
                ghost ie: nat, ghost ip: int, ghost pe: int, ghost iq: int)
    returns (list': ListHead?)
    requires 0 <= ip <= pe <= iq && Distinct(s) && Picks(perm, |s|) && Output(s, perm, list, tail)
    requires Waiting(s, ip, pe, iq)
    requires ie < |s| && e == s[ie]
    requires forall k :: 0 <= k < |perm| ==> perm[k] != ie && (perm[k] < ip || pe <= perm[k] < iq)
    modifies Nodes(s)`next
    ensures Output(s, perm + [ie], list', e) && Waiting(s, ip, pe, iq)
  {
    if tail != null {
      assert tail == s[perm[|perm| - 1]];
      tail.next := e;
      list' := list;
    } else {
      list' := e;
    }
  }

  /**
   Upper bytes are what they were in `olds`. `ms` collects the data compared so far: by data its
   value is cached, by index it may be regenerated, or else no data changes at all.
   */
  ghost predicate DataKept(cmp: Comparator, ds: set<ListData>, olds: map<ListData, int>, ms: set<ListData>)
    reads ds`data16
  {
    && ms <= ds && (forall d :: d in ds ==> d in olds && High(d.data16) == High(olds[d]))
    && (cmp.ByData? ==> forall d :: d in ms ==> Low(d.data16) >= 128)
    && (cmp.ByIdx? && cmp.regen ==> forall d :: d in ms ==> Restored(d))
    && (cmp == Any || cmp == ByIdx(false) ==> forall d :: d in ds ==> d.data16 == olds[d])
  }

  /** Everything the merge of two runs keeps between nodes, apart from the data. */
  ghost predicate Merging(s: seq<ListHead>, perm: seq<nat>, b: int, pe: int, w: int, ip: int, iq: int, p: ListHead?,
                          q: ListHead?, psize: int, qsize: int, list: ListHead?, tail: ListHead?)
    reads Nodes(s)`next
  {
    && pe <= iq && Split(perm, |s|, b, ip, pe, iq)
    && psize == pe - ip && qsize == w - (iq - pe) && qsize >= 0
    && p == At(s, ip) && q == At(s, iq)
    && Output(s, perm, list, tail) && Waiting(s, ip, pe, iq)
  }

  lemma MergingFacts(s: seq<ListHead>, perm: seq<nat>, b: int, pe: int, w: int, ip: int, iq: int, p: ListHead?,
                     q: ListHead?, psize: int, qsize: int, list: ListHead?, tail: ListHead?)
    requires Merging(s, perm, b, pe, w, ip, iq, p, q, psize, qsize, list, tail)
    ensures Split(perm, |s|, b, ip, pe, iq) && 0 <= b <= ip <= pe <= iq <= |s| && psize == pe - ip
    ensures qsize == w - (iq - pe)
    ensures p == At(s, ip) && q == At(s, iq) && |perm| == ip + (iq - pe) && Picks(perm, |s|)
    ensures (forall k :: 0 <= k < |perm| ==> perm[k] < |s|) && Output(s, perm, list, tail) && Waiting(s, ip, pe, iq)
  {
  }

  lemma MergingAgain(s: seq<ListHead>, perm: seq<nat>, b: int, pe: int, w: int, ip: int, iq: int, p: ListHead?,
                     q: ListHead?, psize: int, qsize: int, list: ListHead?, tail: ListHead?)
    requires pe <= iq && Split(perm, |s|, b, ip, pe, iq) && psize == pe - ip && qsize == w - (iq - pe) && qsize >= 0
    requires p == At(s, ip) && q == At(s, iq) && Output(s, perm, list, tail) && Waiting(s, ip, pe, iq)
    ensures Merging(s, perm, b, pe, w, ip, iq, p, q, psize, qsize, list, tail)
  {
  }

  /** With both runs used up the output is everything up to the next block. */
  lemma MergingDone(s: seq<ListHead>, perm: seq<nat>, b: int, pe: int, w: int, ip: int, iq: int, p: ListHead?,
                    q: ListHead?, psize: int, qsize: int, list: ListHead?, tail: ListHead?)
    requires Merging(s, perm, b, pe, w, ip, iq, p, q, psize, qsize, list, tail) && w > 0
    requires psize == 0 && (qsize == 0 || q == null) && pe == Min(b + w, |s|)
    ensures iq == Min(b + w + w, |s|) && |perm| == iq && Output(s, perm, list, tail) && Waiting(s, iq, iq, iq)
    ensures Picks(perm, |s|) && forall k :: b <= k < iq ==> b <= perm[k] < iq
  {
  }

  lemma SplitStep(perm: seq<nat>, n: nat, b: int, ip: nat, pe: int, iq: nat, fromP: bool)
    requires Split(perm, n, b, ip, pe, iq) && (if fromP then ip < pe else iq < n)
    ensures var ie := if fromP then ip else iq;
            && Picks(perm, n) && ie < n
            && (forall k :: 0 <= k < |perm| ==> perm[k] < n && perm[k] != ie && (perm[k] < ip || pe <= perm[k] < iq))
            && Split(perm + [ie], n, b, if fromP then ip + 1 else ip, pe, if fromP then iq else iq + 1)
  {
  }

  lemma WaitingStep(s: seq<ListHead>, ip: nat, pe: int, iq: nat, fromP: bool)
    requires Waiting(s, ip, pe, iq) && (if fromP then ip < pe <= |s| else iq < |s|)
    ensures s[if fromP then ip else iq].next == At(s, if fromP then ip + 1 else iq + 1)
    ensures Waiting(s, if fromP then ip + 1 else ip, pe, if fromP then iq else iq + 1)
  {
  }

  /** The variables of a merge: what is left of the two runs, and the output so far. */
  datatype Merge = Merge(p: ListHead?, q: ListHead?, psize: nat, qsize: nat, list: ListHead?, tail: ListHead?)

  /** The list being sorted: its nodes, their data and what it was, and where the nodes were at first. */
  datatype Job = Job(s: seq<ListHead>, ds: set<ListData>, olds: map<ListData, int>, pos: seq<nat>)

  /** How far a merge has come: the nodes put out, the heads of the runs, the data compared, and the nodes' keys. */
  datatype Place = Place(perm: seq<nat>, ip: nat, iq: nat, ms: set<ListData>, keys: seq<int>)

  /** The variables agree with the place. */
  ghost predicate MergeAt(job: Job, m: Merge, at: Place, b: int, pe: int, w: int)
    reads Nodes(job.s)`next
  {
    Merging(job.s, at.perm, b, pe, w, at.ip, at.iq, m.p, m.q, m.psize, m.qsize, m.list, m.tail)
  }

  lemma MergeAtFacts(job: Job, m: Merge, at: Place, b: int, pe: int, w: int)
    requires MergeAt(job, m, at, b, pe, w)
    ensures 0 <= b <= at.ip <= pe <= at.iq <= |job.s| && m.psize == pe - at.ip && m.qsize == w - (at.iq - pe)
    ensures |at.perm| == at.ip + (at.iq - pe) && m.q == At(job.s, at.iq)
  {
  }

  /** Keys, data and the compared data agree. */
  ghost predicate InOrder(cmp: Comparator, job: Job, at: Place)
    reads Nodes(job.s)`info, job.ds`data16, job.ds`idx
  {
    Keyed(cmp, job.s, job.ds, at.ms, at.keys) && DataKept(cmp, job.ds, job.olds, at.ms)
  }

  /** The place after a node of one run has been put out. */
  function Next(at: Place, fromP: bool): Place {
    if fromP then at.(perm := at.perm + [at.ip], ip := at.ip + 1) else at.(perm := at.perm + [at.iq], iq := at.iq + 1)
  }

  /** Both runs have a node left to compare. */
  ghost predicate BothLeft(m: Merge) {
    m.psize > 0 && m.qsize > 0 && m.q != null
  }

  /** A comparison adds to the data compared and may make keys known; it moves nothing. */
  ghost predicate Learnt(job: Job, at: Place, at': Place)
    reads Nodes(job.s)`info
  {
    && at' == at.(ms := at'.ms, keys := at'.keys) && at.ms <= at'.ms
    && SameKeys(Marks(job.s, at.ms), at.keys, at'.keys)
  }

  /** The two heads have been compared, and `fromP` is what their keys say. */
  ghost predicate Compared(cmp: Comparator, job: Job, at: Place, fromP: bool)
    reads Nodes(job.s)`info
  {
    && at.ip < |job.s| && at.iq < |job.s| && |at.keys| == |job.s|
    && job.s[at.ip].info in at.ms && job.s[at.iq].info in at.ms
    && (!cmp.Any? ==> (fromP <==> at.keys[at.ip] <= at.keys[at.iq]))
  }

  /** Between two places more data may have been compared; known keys are the same. */
  ghost predicate Since(job: Job, at0: Place, at: Place)
    reads Nodes(job.s)`info
  {
    SameKeys(Marks(job.s, at0.ms), at0.keys, at.keys) && Implies(Marks(job.s, at0.ms), Marks(job.s, at.ms))
  }

  lemma SinceStart(cmp: Comparator, job: Job, at: Place)
    requires InOrder(cmp, job, at)
    ensures Since(job, at, at) && Learnt(job, at, at)
  {
  }

  lemma SinceLearnt(job: Job, at0: Place, at: Place, mid: Place, fromP: bool)
    requires Since(job, at0, at) && Learnt(job, at, mid)
    ensures Since(job, at0, Next(mid, fromP))
  {
  }

  lemma SinceTwice(job: Job, at0: Place, at1: Place, at2: Place)
    requires Since(job, at0, at1) && Since(job, at1, at2)
    ensures Since(job, at0, at2)
  {
  }

  /** Compares the data of two nodes; what was known of the data stays so. */
  method CompareKnown(cmp: Comparator, res: Results, a: ListData, b: ListData, ghost job: Job, ghost ms: set<ListData>)
    returns (c: int)
    requires a in job.ds && b in job.ds && DataKept(cmp, job.ds, job.olds, ms)
    modifies job.ds`data16, res`calls
    ensures DataKept(cmp, job.ds, job.olds, ms + {a, b})
    ensures forall d :: d in ms ==> Value(cmp, d) == old(Value(cmp, d))
    ensures !cmp.Any? ==> (c <= 0 <==> Value(cmp, a) <= Value(cmp, b))
  {
    hide Low, High, Restored;
    c := Compare(cmp, a, b, res);
  }

  /** Compares the heads of the two runs. */
  method CompareHeads(cmp: Comparator, res: Results, p: ListHead, q: ListHead, ghost job: Job, ghost at: Place)
    returns (c: int, ghost at': Place)
    requires p == At(job.s, at.ip) && q == At(job.s, at.iq) && InOrder(cmp, job, at)
    modifies job.ds`data16, res`calls
    ensures Learnt(job, at, at') && InOrder(cmp, job, at') && Compared(cmp, job, at', c <= 0)
  {
    hide Value, DataKept;
    ghost var keys, ms' := at.keys, at.ms + {p.info, q.info};
    c := CompareKnown(cmp, res, p.info, q.info, job, at.ms);
    RekeyedKeeps(cmp, job.s, job.ds, at.ms, ms', keys);
    at' := at.(ms := ms', keys := Rekeyed(cmp, job.s, job.ds, ms', keys));
  }

  /** Which run the next node comes from: the first unless its head is greater than the second's. */
  method Choose(cmp: Comparator, res: Results, m: Merge, ghost job: Job, ghost at: Place)
    returns (fromP: bool, ghost at': Place)
    requires m.p == At(job.s, at.ip) && m.q == At(job.s, at.iq) && (m.psize > 0 ==> m.p != null)
    requires m.psize > 0 || (m.qsize > 0 && m.q != null)
    requires InOrder(cmp, job, at)
    modifies job.ds`data16, res`calls
    ensures if fromP then m.psize > 0 else m.qsize > 0 && m.q != null
    ensures Learnt(job, at, at') && InOrder(cmp, job, at')
    ensures if BothLeft(m) then Compared(cmp, job, at', fromP) else at' == at
  {
    SinceStart(cmp, job, at);
    at' := at;
    if m.psize == 0 {
      fromP := false;
    } else if m.qsize == 0 || m.q == null {
      fromP := true;
    } else {
      var c;
      c, at' := CompareHeads(cmp, res, m.p, m.q, job, at);
      fromP := c <= 0;
    }
  }

  /** Moves the front node of the first run to the output. */
  method TakeFirst(m: Merge, ghost job: Job, ghost at: Place, ghost b: int, ghost pe: int, ghost w: int)
    returns (m': Merge)
    requires Distinct(job.s) && MergeAt(job, m, at, b, pe, w) && m.psize > 0
    modifies Nodes(job.s)`next
    ensures MergeAt(job, m', Next(at, true), b, pe, w)
  {
    hide Output, Picks, Waiting, Distinct, Merging, Split;
    ghost var s, perm, ip, iq := job.s, at.perm, at.ip, at.iq;
    MergingFacts(s, perm, b, pe, w, ip, iq, m.p, m.q, m.psize, m.qsize, m.list, m.tail);
    SplitStep(perm, |s|, b, ip, pe, iq, true);
    WaitingStep(s, ip, pe, iq, true);
    var p' := m.p.next;
    var list := Append(m.list, m.tail, m.p, s, perm, ip, ip + 1, pe, iq);
    MergingAgain(s, perm + [ip], b, pe, w, ip + 1, iq, p', m.q, m.psize - 1, m.qsize, list, m.p);
    m' := Merge(p', m.q, m.psize - 1, m.qsize, list, m.p);
  }

  /** Moves the front node of the second run to the output. */
  method TakeSecond(m: Merge, ghost job: Job, ghost at: Place, ghost b: int, ghost pe: int, ghost w: int)
    returns (m': Merge)
    requires Distinct(job.s) && MergeAt(job, m, at, b, pe, w) && m.qsize > 0 && m.q != null
    modifies Nodes(job.s)`next
    ensures MergeAt(job, m', Next(at, false), b, pe, w)
  {
    hide Output, Picks, Waiting, Distinct, Merging, Split;
    ghost var s, perm, ip, iq := job.s, at.perm, at.ip, at.iq;
    MergingFacts(s, perm, b, pe, w, ip, iq, m.p, m.q, m.psize, m.qsize, m.list, m.tail);
    SplitStep(perm, |s|, b, ip, pe, iq, false);
    WaitingStep(s, ip, pe, iq, false);
    var q' := m.q.next;
    var list := Append(m.list, m.tail, m.q, s, perm, iq, ip, pe, iq + 1);
    MergingAgain(s, perm + [iq], b, pe, w, ip, iq + 1, m.p, q', m.psize, m.qsize - 1, list, m.q);
    m' := Merge(m.p, q', m.psize, m.qsize - 1, list, m.q);
  }

  /** Takes one node off one of the runs, after the comparison if there is one. */
  method MergeOne(cmp: Comparator, res: Results, m: Merge, ghost job: Job, ghost at: Place, ghost b: int,
                  ghost pe: int, ghost w: int)
    returns (m': Merge, fromP: bool, ghost mid: Place)
    requires Distinct(job.s) && MergeAt(job, m, at, b, pe, w) && InOrder(cmp, job, at)
    requires m.psize > 0 || (m.qsize > 0 && m.q != null)
    modifies Nodes(job.s)`next, job.ds`data16, res`calls
    ensures MergeAt(job, m', Next(mid, fromP), b, pe, w) && InOrder(cmp, job, mid) && Learnt(job, at, mid)
    ensures if fromP then at.ip < pe else at.iq < |job.s| && at.iq - pe < w
    ensures if at.ip < pe && at.iq - pe < w && at.iq < |job.s| then Compared(cmp, job, mid, fromP) else mid == at
  {
    hide Output, Picks, Waiting, Distinct, Merging, Split, InOrder, Compared, Learnt;
    MergingFacts(job.s, at.perm, b, pe, w, at.ip, at.iq, m.p, m.q, m.psize, m.qsize, m.list, m.tail);
    fromP, mid := Choose(cmp, res, m, job, at);
    if fromP {
      m' := TakeFirst(m, job, mid, b, pe, w);
    } else {
      m' := TakeSecond(m, job, mid, b, pe, w);
    }
  }

  /** What the loop over one block keeps. */
  ghost predicate InBlock(job: Job, perm0: seq<nat>, at: Place, b: int, pe: int, qe: int, sorted: bool)
    reads Nodes(job.s)`info
  {
    && |at.keys| == |job.s| == |job.pos| && 0 <= b <= pe <= qe <= |job.s|
    && |perm0| == b <= |at.perm| && perm0 <= at.perm && (forall k :: 0 <= k < |at.perm| ==> at.perm[k] < |job.s|)
    && (forall k :: b <= k < |at.perm| ==> b <= at.perm[k] < qe)
    && (sorted ==> TwoRuns(at.keys, job.pos, b, pe, qe)
                   && MergedSoFar(at.keys, job.pos, at.perm, b, at.ip, pe, at.iq, qe))
    && (if |at.perm| == b then RunTouched(Marks(job.s, at.ms), b, pe) && RunTouched(Marks(job.s, at.ms), pe, qe)
        else pe < |job.s| ==> AllTouched(Marks(job.s, at.ms), b, qe))
  }

  /** What a comparison teaches about keys does not disturb the block. */
  lemma InBlockLearnt(job: Job, perm0: seq<nat>, at: Place, mid: Place, b: int, pe: int, qe: int, sorted: bool)
    requires InBlock(job, perm0, at, b, pe, qe, sorted) && Learnt(job, at, mid)
    requires b <= at.ip < pe <= at.iq < qe && |at.perm| == at.ip + (at.iq - pe)
    ensures InBlock(job, perm0, mid, b, pe, qe, sorted)
  {
    hide TwoRuns, MergedSoFar;
    if sorted {
      if |at.perm| == b {
        TwoRunsRekeyed(at.keys, mid.keys, job.pos, Marks(job.s, at.ms), b, pe, qe);
        MergeStart(mid.keys, job.pos, mid.perm, b, pe, qe);
      } else {
        MergedRekeyed(at.keys, mid.keys, job.pos, Marks(job.s, at.ms), at.perm, b, at.ip, pe, at.iq, qe);
      }
    }
  }

  lemma InBlockStep(cmp: Comparator, job: Job, perm0: seq<nat>, at: Place, mid: Place, b: int, pe: int, qe: int,
                    sorted: bool, fromP: bool)
    requires InBlock(job, perm0, at, b, pe, qe, sorted) && Learnt(job, at, mid) && (sorted ==> !cmp.Any?)
    requires b <= at.ip <= pe <= at.iq <= qe && |at.perm| == at.ip + (at.iq - pe)
    requires if fromP then at.ip < pe else at.iq < qe
    requires if at.ip < pe && at.iq < qe then Compared(cmp, job, mid, fromP) else mid == at
    requires pe < |job.s| ==> b < pe < qe
    ensures InBlock(job, perm0, Next(mid, fromP), b, pe, qe, sorted)
  {
    hide TwoRuns, MergedSoFar, SameKeys;
    if at.ip < pe && at.iq < qe {
      InBlockLearnt(job, perm0, at, mid, b, pe, qe, sorted);
    }
    if sorted {
      MergeStep(mid.keys, job.pos, mid.perm, b, mid.ip, pe, mid.iq, qe, fromP);
    }
  }

  /** A block of two runs has been put out, in order when the runs were in order. */
  ghost predicate BlockOut(job: Job, perm0: seq<nat>, at: Place, b: int, pe: int, hi: int, m: Merge, sorted: bool)
    reads Nodes(job.s)`next, Nodes(job.s)`info
  {
    && |at.keys| == |job.s| == |job.pos| && 0 <= b <= pe <= |job.s| && 0 <= hi
    && |at.perm| == hi && perm0 <= at.perm && Picks(at.perm, |job.s|)
    && (forall k :: b <= k < hi ==> b <= at.perm[k] < hi)
    && Output(job.s, at.perm, m.list, m.tail) && Waiting(job.s, hi, hi, hi) && m.q == At(job.s, hi)
    && (sorted ==> forall k, l :: b <= k < l < hi ==> Less(at.keys, job.pos, at.perm[k], at.perm[l]))
    && (pe < |job.s| ==> job.s[b].info in at.ms && job.s[pe].info in at.ms)
  }

  lemma InBlockDone(job: Job, perm0: seq<nat>, at: Place, b: int, pe: int, w: int, m: Merge, sorted: bool)
    requires InBlock(job, perm0, at, b, pe, Min(b + w + w, |job.s|), sorted) && MergeAt(job, m, at, b, pe, w)
    requires w > 0 && b < |job.s| && m.psize == 0 && (m.qsize == 0 || m.q == null) && pe == Min(b + w, |job.s|)
    ensures BlockOut(job, perm0, at, b, pe, Min(b + w + w, |job.s|), m, sorted)
  {
    hide Less, TwoRuns, Output, Waiting, Picks;
    MergingDone(job.s, at.perm, b, pe, w, at.ip, at.iq, m.p, m.q, m.psize, m.qsize, m.list, m.tail);
    MergeDone(at.keys, job.pos, at.perm, b, at.ip, pe, at.iq, Min(b + w + w, |job.s|));
  }

  /** Merges two neighbouring runs of at most `w` nodes, the first starting at `job.s[b]`. */
  method MergeBlock(cmp: Comparator, res: Results, m0: Merge, w: nat, ghost job: Job, ghost at0: Place, ghost b: nat,
                    ghost sorted: bool)
    returns (m: Merge, ghost at: Place)
    requires Distinct(job.s) && b < |job.s| && w > 0 && InOrder(cmp, job, at0) && (sorted ==> !cmp.Any?)
    requires at0.ip == b == |at0.perm| && at0.iq == Min(b + w, |job.s|) && MergeAt(job, m0, at0, b, at0.iq, w)
    requires InBlock(job, at0.perm, at0, b, at0.iq, Min(b + w + w, |job.s|), sorted)
    modifies Nodes(job.s)`next, job.ds`data16, res`calls
    ensures BlockOut(job, at0.perm, at, b, at0.iq, Min(b + w + w, |job.s|), m, sorted)
    ensures InOrder(cmp, job, at) && Since(job, at0, at)
  {
    hide Merging, InOrder, Distinct, InBlock, BlockOut, Compared, Learnt, Since;
    ghost var pe, qe := at0.iq, Min(b + w + w, |job.s|);
    m, at := m0, at0;
    MergeAtFacts(job, m, at, b, pe, w);
    SinceStart(cmp, job, at0);
    while m.psize > 0 || (m.qsize > 0 && m.q != null)
      invariant MergeAt(job, m, at, b, pe, w) && InOrder(cmp, job, at)
      invariant InBlock(job, at0.perm, at, b, pe, qe, sorted) && Since(job, at0, at)
      invariant b <= at.ip <= pe <= at.iq <= qe && |at.perm| == at.ip + (at.iq - pe)
      invariant m.psize == pe - at.ip && m.qsize == w - (at.iq - pe)
      decreases m.psize + m.qsize
    {
      var fromP: bool;
      ghost var mid;
      m, fromP, mid := MergeOne(cmp, res, m, job, at, b, pe, w);
      InBlockStep(cmp, job, at0.perm, at, mid, b, pe, qe, sorted, fromP);
      SinceLearnt(job, at0, at, mid, fromP);
      LearntPlace(cmp, job, at, mid, fromP);
      at := Next(mid, fromP);
      MergeAtFacts(job, m, at, b, pe, w);
    }
    InBlockDone(job, at0.perm, at, b, pe, w, m, sorted);
  }

  lemma LearntPlace(cmp: Comparator, job: Job, at: Place, mid: Place, fromP: bool)
    requires Learnt(job, at, mid) && InOrder(cmp, job, mid)
    ensures mid.ip == at.ip && mid.iq == at.iq && mid.perm == at.perm && InOrder(cmp, job, Next(mid, fromP))
  {
  }

  // ---- One pass over the list

  /** What is known after the blocks up to `b`. */
  ghost predicate InPass(job: Job, at: Place, b: nat, w: nat, sorted: bool)
    reads Nodes(job.s)`info
  {
    && |at.keys| == |job.s| == |job.pos| && w > 0
    && |at.perm| == Min(b, |job.s|) && Picks(at.perm, |job.s|)
    && (forall k :: 0 <= k < |at.perm| ==> at.perm[k] < |at.perm|)
    && Blocks(at.keys, job.pos, at.perm, 0, b, w + w, sorted)
    && TouchedTo(Marks(job.s, at.ms), 0, b, w + w) && Touched(Marks(job.s, at.ms), b, w)
    && (sorted ==> Runs(at.keys, job.pos, b, w))
  }

  lemma InPassStart(job: Job, at: Place, w: nat, sorted: bool)
    requires |at.keys| == |job.s| == |job.pos| && w > 0 && at.perm == [] && Touched(Marks(job.s, at.ms), 0, w)
    requires sorted ==> Runs(at.keys, job.pos, 0, w)
    ensures InPass(job, at, 0, w, sorted)
  {
  }

  /** Before the block at `b`. */
  lemma InBlockStart(job: Job, at: Place, b: nat, w: nat, sorted: bool)
    requires InPass(job, at, b, w, sorted) && b < |job.s| && at.ip == b && at.iq == Min(b + w, |job.s|)
    ensures |at.perm| == b && InBlock(job, at.perm, at, b, at.iq, Min(b + w + w, |job.s|), sorted)
  {
    hide Picks, TouchedTo, Blocks, TwoRuns, MergedSoFar;
    var pe, qe := at.iq, Min(b + w + w, |job.s|);
    assert Touched(Marks(job.s, at.ms), b + w, w);
    MergeStart(at.keys, job.pos, at.perm, b, pe, qe);
    if sorted {
      FirstTwoRuns(at.keys, job.pos, b, w);
    }
  }

  /** Keys that become known during a block change nothing for the other blocks. */
  lemma InPassRekeyed(job: Job, at: Place, keys: seq<int>, b: nat, w: nat, sorted: bool)
    requires InPass(job, at, b, w, sorted) && SameKeys(Marks(job.s, at.ms), at.keys, keys)
    ensures InPass(job, at.(keys := keys), b, w, sorted)
  {
    hide Picks, Touched, TouchedTo, Blocks, Runs;
    BlocksRekeyed(at.keys, keys, job.pos, Marks(job.s, at.ms), at.perm, 0, b, w + w, sorted);
    if sorted {
      RunsRekeyed(at.keys, keys, job.pos, Marks(job.s, at.ms), b, w);
    }
  }

  lemma InPassStep(job: Job, at0: Place, at: Place, b: nat, w: nat, m: Merge, sorted: bool)
    requires InPass(job, at0, b, w, sorted) && b < |job.s|
    requires Since(job, at0, at)
    requires BlockOut(job, at0.perm, at, b, Min(b + w, |job.s|), Min(b + w + w, |job.s|), m, sorted)
    ensures InPass(job, at, b + (w + w), w, sorted)
  {
    hide Picks, Touched, TouchedTo, Blocks, Runs, Less, Output, Waiting, SameKeys, Implies;
    InPassRekeyed(job, at0, at.keys, b, w, sorted);
    BlockTouched(Marks(job.s, at0.ms), Marks(job.s, at.ms), b, w);
    TouchedToExtend(Marks(job.s, at0.ms), Marks(job.s, at.ms), 0, b, w + w);
    BlocksExtend(at.keys, job.pos, at0.perm, at.perm, 0, b, w + w, sorted);
    if sorted {
      RunsAfterTwo(at.keys, job.pos, b, w);
    }
  }

  /** A pass leaves the list relinked in the order `at.perm`, with runs twice as long. */
  ghost predicate PassOut(job: Job, at: Place, w: nat, sorted: bool)
    reads Nodes(job.s)`info
  {
    && |at.keys| == |job.s| == |job.pos| && w > 0 && Permutation(at.perm, |job.s|)
    && Touched(Through(Marks(job.s, at.ms), at.perm), 0, w)
    && (sorted ==> Runs(Through(at.keys, at.perm), Through(job.pos, at.perm), 0, w))
  }

  lemma InPassDone(job: Job, at: Place, b: nat, w: nat, sorted: bool)
    requires InPass(job, at, b, w, sorted) && b >= |job.s| && (sorted ==> Runs(at.keys, job.pos, 0, w))
    ensures PassOut(job, at, w + w, sorted)
  {
    hide Touched, TouchedTo, Blocks, Runs, Picks;
    PermutationBelow(at.perm, |job.s|);
    TouchedThrough(at.keys, job.pos, Marks(job.s, at.ms), at.perm, 0, b, w + w, sorted);
    if sorted {
      BlocksAreRuns(at.keys, job.pos, at.perm, 0, b, w);
    }
  }

  /** Steps `w` places along from `p`, or off the end. */
  method StepAlong(p: ListHead, w: nat, ghost s: seq<ListHead>, ghost b: nat) returns (q: ListHead?, psize: nat)
    requires w > 0 && b < |s| && p == s[b] && Waiting(s, b, b, b)
    ensures b + psize == Min(b + w, |s|) && q == At(s, b + psize)
  {
    q, psize := p, 0;
    var i := 0;
    while i < w
      invariant i == psize <= w && b + psize < |s| && q == s[b + psize]
    {
      psize := psize + 1;
      q := q.next;
      if q == null {
        break;
      }
      i := i + 1;
    }
  }

  lemma MergingStart(job: Job, at: Place, b: nat, w: nat, sorted: bool, m: Merge)
    requires InPass(job, at, b, w, sorted) && b < |job.s| && b + m.psize == Min(b + w, |job.s|) && m.qsize == w
    requires at.ip == b && at.iq == b + m.psize
    requires m.p == At(job.s, b) && m.q == At(job.s, b + m.psize) && Waiting(job.s, b, b, b)
    requires (forall k :: 0 <= k < |at.perm| ==> at.perm[k] < |job.s|) && Output(job.s, at.perm, m.list, m.tail)
    ensures |at.perm| == b && MergeAt(job, m, at, b, b + m.psize, w)
  {
    hide Touched, TouchedTo, Blocks, Runs, Output;
  }

  /** Where the loop over blocks stands in the linked nodes. */
  ghost predicate Between(s: seq<ListHead>, perm: seq<nat>, p: ListHead?, list: ListHead?, tail: ListHead?)
    reads Nodes(s)`next
  {
    && (forall k :: 0 <= k < |perm| ==> perm[k] < |s|) && Output(s, perm, list, tail)
    && Waiting(s, |perm|, |perm|, |perm|) && p == At(s, |perm|)
  }

  lemma BetweenStart(s: seq<ListHead>, list: ListHead)
    requires |s| > 0 && list == s[0] && Chain(s)
    ensures Between(s, [], list, null, null)
  {
  }

  lemma BetweenFacts(job: Job, at: Place, b: nat, w: nat, sorted: bool, p: ListHead?, list: ListHead?,
                     tail: ListHead?)
    requires InPass(job, at, b, w, sorted) && Between(job.s, at.perm, p, list, tail)
    ensures p != null <==> b < |job.s|
    ensures (forall k :: 0 <= k < |at.perm| ==> at.perm[k] < |job.s|) && Output(job.s, at.perm, list, tail)
    ensures b < |job.s| ==> |at.perm| == b && p == job.s[b] && Waiting(job.s, b, b, b)
  {
    hide Touched, TouchedTo, Blocks, Runs, Output, Waiting;
  }

  lemma BetweenAgain(job: Job, perm0: seq<nat>, at: Place, b: int, pe: int, hi: int, m: Merge, sorted: bool)
    requires BlockOut(job, perm0, at, b, pe, hi, m, sorted)
    ensures Between(job.s, at.perm, m.q, m.list, m.tail)
  {
    hide Output, Less;
  }

  /** With the end of the last node cut the nodes form one list again. */
  lemma Relinked(s: seq<ListHead>, perm: seq<nat>, list: ListHead?, tail: ListHead?)
    requires |s| > 0 && |perm| == |s| && (forall k :: 0 <= k < |perm| ==> perm[k] < |s|)
    requires Output(s, perm, list, tail) && tail != null && tail.next == null
    ensures Chain(Through(s, perm)) && list == s[perm[0]]
  {
  }

  /** Where a place stands does not matter for the keys and the data. */
  lemma InOrderAt(cmp: Comparator, job: Job, at: Place, at': Place, b: nat, w: nat, sorted: bool)
    requires InOrder(cmp, job, at) && InPass(job, at, b, w, sorted)
    requires at'.perm == at.perm && at'.ms == at.ms && at'.keys == at.keys
    ensures InOrder(cmp, job, at') && InPass(job, at', b, w, sorted)
  {
    hide Keyed, DataKept, Blocks, Runs, Touched, TouchedTo, Picks;
  }

  lemma SinceFrom(job: Job, at0: Place, start: Place, at: Place)
    requires Since(job, start, at) && at0.ms == start.ms && at0.keys == start.keys
    ensures Since(job, at0, at)
  {
  }

  /** Merges the two runs at `p`. */
  method PassBlock(cmp: Comparator, res: Results, p: ListHead, w: nat, list: ListHead?, tail: ListHead?,
                   ghost job: Job, ghost at0: Place, ghost b: nat, ghost sorted: bool)
    returns (m: Merge, ghost at: Place)
    requires Distinct(job.s) && InOrder(cmp, job, at0) && w > 0 && (sorted ==> !cmp.Any?)
    requires InPass(job, at0, b, w, sorted) && Between(job.s, at0.perm, p, list, tail)
    modifies Nodes(job.s)`next, job.ds`data16, res`calls
    ensures InPass(job, at, b + (w + w), w, sorted) && Between(job.s, at.perm, m.q, m.list, m.tail)
    ensures InOrder(cmp, job, at) && Since(job, at0, at)
  {
    hide InPass, Between, BlockOut, MergeAt, Waiting, Output, InOrder, Distinct, InBlock, Since;
    BetweenFacts(job, at0, b, w, sorted, p, list, tail);
    var q, psize := StepAlong(p, w, job.s, b);
    var m0 := Merge(p, q, psize, w, list, tail);
    ghost var start := at0.(ip := b, iq := b + psize);
    InOrderAt(cmp, job, at0, start, b, w, sorted);
    MergingStart(job, start, b, w, sorted, m0);
    InBlockStart(job, start, b, w, sorted);
    m, at := MergeBlock(cmp, res, m0, w, job, start, b, sorted);
    SinceFrom(job, at0, start, at);
    InPassStep(job, start, at, b, w, m, sorted);
    BetweenAgain(job, start.perm, at, b, start.iq, Min(b + w + w, |job.s|), m, sorted);
  }

  lemma TailIsNode(s: seq<ListHead>, perm: seq<nat>, list: ListHead?, tail: ListHead?)
    requires |perm| > 0 && (forall k :: 0 <= k < |perm| ==> perm[k] < |s|) && Output(s, perm, list, tail)
    ensures list != null && tail != null && tail == s[perm[|perm| - 1]] && tail in Nodes(s)
  {
  }

  lemma PassOutBelow(job: Job, at: Place, w: nat, sorted: bool)
    requires PassOut(job, at, w, sorted)
    ensures |at.perm| == |job.s| && Picks(at.perm, |job.s|) && forall k :: 0 <= k < |at.perm| ==> at.perm[k] < |job.s|
  {
  }

  lemma KeysFit(cmp: Comparator, job: Job, at: Place)
    requires InOrder(cmp, job, at)
    ensures |at.keys| == |job.s|
  {
  }

  lemma RunsLearnt(job: Job, at0: Place, at: Place, w: nat)
    requires |at0.keys| == |job.pos| && w > 0 && Runs(at0.keys, job.pos, 0, w) && Touched(Marks(job.s, at0.ms), 0, w)
    requires Since(job, at0, at)
    ensures |at.keys| == |job.pos| && Runs(at.keys, job.pos, 0, w)
  {
    RunsRekeyed(at0.keys, at.keys, job.pos, Marks(job.s, at0.ms), 0, w);
  }

  /** Merges the blocks one after another. */
  method PassBlocks(cmp: Comparator, res: Results, list0: ListHead, w: nat, ghost job: Job, ghost at0: Place,
                    ghost sorted: bool)
    returns (list: ListHead?, tail: ListHead?, nmerges: nat, ghost at: Place, ghost b: nat)
    requires Distinct(job.s) && w > 0 && InOrder(cmp, job, at0) && (sorted ==> !cmp.Any?)
    requires InPass(job, at0, 0, w, sorted) && Between(job.s, at0.perm, list0, null, null)
    modifies Nodes(job.s)`next, job.ds`data16, res`calls
    ensures nmerges <= 1 <==> |job.s| <= w + w
    ensures b >= |job.s| && InPass(job, at, b, w, sorted) && Between(job.s, at.perm, null, list, tail)
    ensures InOrder(cmp, job, at) && Since(job, at0, at)
  {
    hide InPass, Between, Output, InOrder, Distinct, Since, Waiting;
    var p: ListHead? := list0;
    list, tail, nmerges := null, null, 0;
    at, b := at0, 0;
    BetweenFacts(job, at, b, w, sorted, p, list, tail);
    SinceStart(cmp, job, at);
    while p != null
      invariant InPass(job, at, b, w, sorted) && InOrder(cmp, job, at) && Since(job, at0, at)
      invariant Between(job.s, at.perm, p, list, tail)
      invariant p != null <==> b < |job.s|
      invariant if nmerges < 2 then b == nmerges * (w + w) else w + w < |job.s|
      decreases |job.s| - b
    {
      nmerges := nmerges + 1;
      ghost var was := at;
      var m;
      m, at := PassBlock(cmp, res, p, w, list, tail, job, at, b, sorted);
      SinceTwice(job, at0, was, at);
      list, tail, p := m.list, m.tail, m.q;
      b := b + (w + w);
      BetweenFacts(job, at, b, w, sorted, p, list, tail);
    }
  }

  /** Merges neighbouring runs of `w` all along the list. */
  method Pass(cmp: Comparator, res: Results, list0: ListHead, w: nat, ghost job: Job, ghost at0: Place,
              ghost sorted: bool)
    returns (list: ListHead?, nmerges: nat, ghost at: Place)
    requires Distinct(job.s) && |job.s| > 0 && list0 == job.s[0] && Chain(job.s) && |job.pos| == |job.s| && w > 0
    requires at0.perm == [] && InOrder(cmp, job, at0) && |at0.keys| == |job.s|
    requires Touched(Marks(job.s, at0.ms), 0, w)
    requires sorted ==> !cmp.Any? && Runs(at0.keys, job.pos, 0, w)
    modifies Nodes(job.s)`next, job.ds`data16, res`calls
    ensures nmerges <= 1 <==> |job.s| <= w + w
    ensures PassOut(job, at, w + w, sorted) && InOrder(cmp, job, at)
    ensures |at.perm| == |job.s| && forall k :: 0 <= k < |at.perm| ==> at.perm[k] < |job.s|
    ensures Chain(Through(job.s, at.perm)) && list == job.s[at.perm[0]]
  {
    hide InPass, Between, Output, InOrder, Distinct, Chain, Touched, Runs, PassOut, Since;
    var tail: ListHead?;
    ghost var b;
    InPassStart(job, at0, w, sorted);
    BetweenStart(job.s, list0);
    list, tail, nmerges, at, b := PassBlocks(cmp, res, list0, w, job, at0, sorted);
    if sorted {
      RunsLearnt(job, at0, at, w);
    }
    KeysFit(cmp, job, at);
    BetweenFacts(job, at, b, w, sorted, null, list, tail);
    InPassDone(job, at, b, w, sorted);
    PassOutBelow(job, at, w + w, sorted);
    TailIsNode(job.s, at.perm, list, tail);
    CutTail(list, tail, job.s, at.perm);
  }

  /** Ends the list after the last node put out. */
  method CutTail(list: ListHead, tail: ListHead, ghost s: seq<ListHead>, ghost perm: seq<nat>)
    requires |s| > 0 && |perm| == |s| && Picks(perm, |s|) && Distinct(s)
    requires forall k :: 0 <= k < |perm| ==> perm[k] < |s|
    requires Output(s, perm, list, tail)
    modifies tail`next
    ensures Chain(Through(s, perm)) && list == s[perm[0]]
  {
    tail.next := null;
    Relinked(s, perm, list, tail);
  }

  // ---- The sort

  /** `t` is `s` in the order `pos`. */
  ghost predicate Shuffled(s: seq<ListHead>, t: seq<ListHead>, pos: seq<nat>) {
    Permutation(pos, |s|) && t == Through(s, pos) && Distinct(t)
  }

  ghost function Identity(n: nat): (pos: seq<nat>)
    ensures |pos| == n && forall k :: 0 <= k < n ==> pos[k] == k
  {
    seq(n, k => k)
  }

  lemma ShuffledStart(s: seq<ListHead>)
    requires Distinct(s)
    ensures Shuffled(s, s, Identity(|s|))
  {
    assert s == Through(s, Identity(|s|));
  }

  lemma PermutationThrough(pos: seq<nat>, perm: seq<nat>, n: nat)
    requires Permutation(pos, n) && Permutation(perm, n)
    ensures Permutation(Through(pos, perm), n)
  {
  }

  lemma DistinctThrough(t: seq<ListHead>, perm: seq<nat>)
    requires Distinct(t) && Permutation(perm, |t|)
    ensures Distinct(Through(t, perm))
  {
    forall i, j | 0 <= i < j < |perm|
      ensures Through(t, perm)[i] != Through(t, perm)[j]
    {
      var a, b := perm[i], perm[j];
      assert a < b || b < a;
    }
  }

  lemma ThroughTwice<T>(s: seq<T>, pos: seq<nat>, perm: seq<nat>)
    requires Permutation(pos, |s|) && Permutation(perm, |s|)
    ensures forall k :: 0 <= k < |s| ==> Through(pos, perm)[k] < |s|
    ensures Through(Through(s, pos), perm) == Through(s, Through(pos, perm))
  {
  }

  /** Shuffling again. */
  lemma ShuffledStep(s: seq<ListHead>, t: seq<ListHead>, pos: seq<nat>, perm: seq<nat>)
    requires Shuffled(s, t, pos) && Permutation(perm, |s|)
    ensures |t| == |s| == |pos| == |perm| && forall k :: 0 <= k < |perm| ==> perm[k] < |t|
    ensures Shuffled(s, Through(t, perm), Through(pos, perm))
  {
    hide Distinct;
    PermutationThrough(pos, perm, |s|);
    DistinctThrough(t, perm);
    ThroughTwice(s, pos, perm);
  }

  lemma ShuffledFacts(s: seq<ListHead>, t: seq<ListHead>, pos: seq<nat>)
    requires Shuffled(s, t, pos)
    ensures |t| == |s| == |pos| && Distinct(t) && Nodes(t) <= Nodes(s) && forall k :: 0 <= k < |s| ==> pos[k] < |s|
  {
  }

  lemma MarksThrough(t: seq<ListHead>, ms: set<ListData>, perm: seq<nat>)
    requires Permutation(perm, |t|)
    ensures |perm| == |t| && forall k :: 0 <= k < |perm| ==> perm[k] < |t|
    ensures Marks(Through(t, perm), ms) == Through(Marks(t, ms), perm)
  {
  }

  /** The list as a pass has relinked it. */
  ghost function Relink(job: Job, perm: seq<nat>): Job
    requires |job.pos| == |job.s| && forall k :: 0 <= k < |perm| ==> perm[k] < |job.s|
  {
    job.(s := Through(job.s, perm), pos := Through(job.pos, perm))
  }

  /** The place at the beginning of the next pass. */
  ghost function Afresh(at: Place): Place
    requires forall k :: 0 <= k < |at.perm| ==> at.perm[k] < |at.keys|
  {
    Place([], 0, 0, at.ms, Through(at.keys, at.perm))
  }

  lemma InOrderThrough(cmp: Comparator, job: Job, at: Place)
    requires InOrder(cmp, job, at) && |job.pos| == |job.s| && Permutation(at.perm, |job.s|)
    ensures |at.perm| == |at.keys| == |job.s| && forall k :: 0 <= k < |at.perm| ==> at.perm[k] < |job.s|
    ensures InOrder(cmp, Relink(job, at.perm), Afresh(at))
  {
    hide DataKept;
  }

  /** Between passes: `job.s` is `s` in the order `job.pos`, with runs of `w`. */
  ghost predicate Sorting(s: seq<ListHead>, job: Job, at: Place, w: nat, sorted: bool)
    reads Nodes(job.s)`info
  {
    && w > 0 && at.perm == [] && |at.keys| == |s| && Shuffled(s, job.s, job.pos)
    && Touched(Marks(job.s, at.ms), 0, w) && (sorted ==> Runs(at.keys, job.pos, 0, w))
  }

  lemma SortingStart(cmp: Comparator, s: seq<ListHead>, ds: set<ListData>, olds: map<ListData, int>, sorted: bool)
    returns (job: Job, at: Place)
    requires Distinct(s) && InfosIn(s, ds) && DataKept(cmp, ds, olds, {})
    ensures job.s == s && job.ds == ds && job.olds == olds && InOrder(cmp, job, at) && Sorting(s, job, at, 1, sorted)
  {
    hide Runs, Touched, DataKept;
    job := Job(s, ds, olds, Identity(|s|));
    at := Place([], 0, 0, {}, seq(|s|, k => 0));
    ShuffledStart(s);
    SinglesAreRuns(at.keys, job.pos, 0);
    SinglesNeedNoTouch(Marks(s, {}), 0);
  }

  lemma SortingFacts(s: seq<ListHead>, job: Job, at: Place, w: nat, sorted: bool)
    requires Sorting(s, job, at, w, sorted)
    ensures Distinct(job.s) && |job.s| == |s| == |job.pos| == |at.keys| && w > 0 && at.perm == []
    ensures Touched(Marks(job.s, at.ms), 0, w) && (sorted ==> Runs(at.keys, job.pos, 0, w))
    ensures Nodes(job.s) <= Nodes(s)
  {
    hide Runs, Touched;
  }

  lemma SortingStep(cmp: Comparator, s: seq<ListHead>, job: Job, at0: Place, at: Place, w: nat, sorted: bool)
    requires Sorting(s, job, at0, w, sorted) && PassOut(job, at, w + w, sorted) && InOrder(cmp, job, at)
    requires |at.perm| == |job.s| == |job.pos| == |at.keys| && forall k :: 0 <= k < |at.perm| ==> at.perm[k] < |job.s|
    ensures Sorting(s, Relink(job, at.perm), Afresh(at), w + w, sorted)
    ensures InOrder(cmp, Relink(job, at.perm), Afresh(at))
  {
    hide Runs, Touched, Picks, Distinct, InOrder;
    ShuffledStep(s, job.s, job.pos, at.perm);
    InOrderThrough(cmp, job, at);
    MarksThrough(job.s, at.ms, at.perm);
  }

  /** By key, and in the order they had before where keys are equal. */
  ghost predicate SortedStably(keys: seq<int>, perm: seq<nat>)
    requires forall k :: 0 <= k < |perm| ==> perm[k] < |keys|
  {
    forall i, j :: 0 <= i < j < |perm| ==>
      keys[perm[i]] < keys[perm[j]] || (keys[perm[i]] == keys[perm[j]] && perm[i] < perm[j])
  }

  /** One run as long as the list is the list sorted by what its data are ordered by in the end. */
  lemma SortingDone(cmp: Comparator, s: seq<ListHead>, job: Job, at: Place, w: nat, sorted: bool)
    requires Sorting(s, job, at, w, sorted) && InOrder(cmp, job, at) && w >= |s| > 0 && InfosIn(s, job.ds)
    ensures Permutation(job.pos, |s|) && (forall k :: 0 <= k < |job.pos| ==> job.pos[k] < |s|)
    ensures job.s == Through(s, job.pos)
    ensures |s| >= 2 ==> forall k :: 0 <= k < |s| ==> s[job.pos[k]].info in at.ms
    ensures sorted ==> SortedStably(Values(cmp, s, job.ds), job.pos)
  {
    hide Value, DataKept, Picks;
    PermutationBelow(job.pos, |s|);
    if sorted {
      var values := Values(cmp, s, job.ds);
      forall i, j | 0 <= i < j < |s|
        ensures values[job.pos[i]] < values[job.pos[j]]
                || (values[job.pos[i]] == values[job.pos[j]] && job.pos[i] < job.pos[j])
      {
        assert Less(at.keys, job.pos, i, j);
        assert job.s[i] == s[job.pos[i]] && job.s[j] == s[job.pos[j]];
      }
    }
  }

  lemma DataKeptAt(cmp: Comparator, job: Job, at: Place)
    requires InOrder(cmp, job, at)
    ensures DataKept(cmp, job.ds, job.olds, at.ms)
  {
  }

  /** One pass of the sort. */
  method SortPass(cmp: Comparator, res: Results, list0: ListHead, w: nat, ghost s: seq<ListHead>, ghost job0: Job,
                  ghost at0: Place, ghost sorted: bool)
    returns (list: ListHead?, nmerges: nat, ghost job: Job, ghost at: Place)
    requires Sorting(s, job0, at0, w, sorted) && InOrder(cmp, job0, at0) && (sorted ==> !cmp.Any?)
    requires |s| > 0 && |job0.s| == |s| && list0 == job0.s[0] && Chain(job0.s)
    modifies Nodes(s)`next, job0.ds`data16, res`calls
    ensures Sorting(s, job, at, w + w, sorted) && InOrder(cmp, job, at) && job.ds == job0.ds && job.olds == job0.olds
    ensures |job.s| == |s| && list == job.s[0] && Chain(job.s)
    ensures nmerges <= 1 <==> |s| <= w + w
  {
    hide InOrder, Distinct, Chain, PassOut, Sorting, Touched, Runs;
    SortingFacts(s, job0, at0, w, sorted);
    ghost var out;
    list, nmerges, out := Pass(cmp, res, list0, w, job0, at0, sorted);
    KeysFit(cmp, job0, out);
    SortingStep(cmp, s, job0, at0, out, w, sorted);
    job, at := Relink(job0, out.perm), Afresh(out);
  }

  /**
   `core_list_mergesort`: relinks the nodes, into the order of the cached values or of the indices if
   that is what the comparator goes by, equal ones in the order they had.
   */
  method MergeSort(cmp: Comparator, res: Results, list0: ListHead, ghost s: seq<ListHead>, ghost ds: set<ListData>,
                   ghost olds: map<ListData, int>)
    returns (list: ListHead, ghost perm: seq<nat>, ghost ms: set<ListData>)
    requires Distinct(s) && |s| > 0 && list0 == s[0] && Chain(s) && InfosIn(s, ds) && DataKept(cmp, ds, olds, {})
    modifies Nodes(s)`next, ds`data16, res`calls
    ensures Permutation(perm, |s|) && (forall k :: 0 <= k < |perm| ==> perm[k] < |s|)
    ensures Chain(Through(s, perm)) && list == s[perm[0]]
    ensures !cmp.Any? ==> SortedStably(Values(cmp, s, ds), perm)
    ensures DataKept(cmp, ds, olds, ms) && (|s| >= 2 ==> forall k :: 0 <= k < |s| ==> s[perm[k]].info in ms)
  {
    hide InOrder, DataKept, Distinct, Chain, PassOut, Sorting, SortedStably, Touched, Runs, InfosIn;
    ghost var sorted := !cmp.Any?;
    ghost var job, at := SortingStart(cmp, s, ds, olds, sorted);
    var p: ListHead? := list0;
    var insize, nmerges := 1, 2;
    while true
      invariant Sorting(s, job, at, insize, sorted) && InOrder(cmp, job, at) && job.ds == ds && job.olds == olds
      invariant |job.s| == |s| && p == job.s[0] && Chain(job.s) && insize <= |s|
      decreases |s| - insize
    {
      p, nmerges, job, at := SortPass(cmp, res, p, insize, s, job, at, sorted);
      if nmerges <= 1 {
        SortingDone(cmp, s, job, at, insize + insize, sorted);
        DataKeptAt(cmp, job, at);
        list, perm, ms := p, job.pos, at.ms;
        return;
      }
      insize := insize * 2;
    }
  }
}
