/**
 Round robin over the tasks pinned to one processor, by position in the task list.
 */
module SchedulerSpec {
  import opened Bits

  /** `(i + 1) % n` for a position, or for -1. */
  function After(i: int, n: nat): (j: nat)
    requires -1 <= i < n && n > 0
    ensures j < n
  {
    if i + 1 < n then i + 1 else 0
  }

  lemma AfterIsModulo(i: int, n: nat)
    requires -1 <= i < n && n > 0
    ensures (i + 1) % n == After(i, n)
  {
    if i + 1 < n {
      DivUnique(i + 1, n, 0, i + 1);
    } else {
      DivUnique(i + 1, n, 1, 0);
    }
  }

  /** The first position from `i` on, going round, whose task is pinned to `c`; `steps` bounds the search. */
  function NextFrom(pins: seq<int>, c: int, i: nat, steps: nat): (j: nat)
    requires |pins| > 0 && i < |pins|
    ensures j < |pins|
    decreases steps
  {
    if steps == 0 || pins[i] == c then i else NextFrom(pins, c, After(i, |pins|), steps - 1)
  }

  /** The positions of the tasks pinned to `c`, in order. */
  function Pinned(pins: seq<int>, c: int): seq<nat> {
    if pins == [] then []
    else
      var n := |pins| - 1;
      var r := Pinned(pins[..n], c);
      if pins[n] == c then r + [n] else r
  }

  lemma {:induction false} PinnedFacts(pins: seq<int>, c: int)
    ensures var r := Pinned(pins, c);
            && (forall k :: 0 <= k < |r| ==> r[k] < |pins| && pins[r[k]] == c)
            && (forall k, l :: 0 <= k < l < |r| ==> r[k] < r[l])
            && (forall i :: 0 <= i < |pins| && pins[i] == c ==> i in r)
  {
    if pins != [] {
      PinnedFacts(pins[..|pins| - 1], c);
    }
  }

  /** What a switch on `c` selects when the current task is at `i`, or -1 if there is none. */
  function Selected(pins: seq<int>, c: int, i: int): (j: nat)
    requires |pins| > 0 && -1 <= i < |pins|
    ensures j < |pins|
  {
    NextFrom(pins, c, After(i, |pins|), |pins|)
  }

  /** The search passes over positions that are not pinned to `c` and stops at the first that is. */
  lemma {:induction false} NextFromStops(pins: seq<int>, c: int, i: nat, j: nat, steps: nat)
    requires i <= j < |pins| && pins[j] == c && (forall k :: i <= k < j ==> pins[k] != c) && steps >= j - i
    ensures NextFrom(pins, c, i, steps) == j
    decreases j - i
  {
    if i < j {
      NextFromStops(pins, c, i + 1, j, steps - 1);
    }
  }

  /** With none left the search goes round to the start. */
  lemma {:induction false} NextFromWraps(pins: seq<int>, c: int, i: nat, j: nat, steps: nat)
    requires i < |pins| && j < |pins| && pins[j] == c && (forall k :: 0 <= k < j ==> pins[k] != c)
    requires (forall k :: i <= k < |pins| ==> pins[k] != c) && steps >= |pins| - i + j
    ensures NextFrom(pins, c, i, steps) == j
    decreases |pins| - i
  {
    if i + 1 < |pins| {
      NextFromWraps(pins, c, i + 1, j, steps - 1);
    } else {
      NextFromStops(pins, c, 0, j, steps - 1);
    }
  }

  lemma NoneBetween(pins: seq<int>, c: int, k: nat)
    requires k + 1 < |Pinned(pins, c)|
    ensures var p := Pinned(pins, c); p[k] < p[k + 1] < |pins| && forall l :: p[k] < l < p[k + 1] ==> pins[l] != c
  {
    var p := Pinned(pins, c);
    PinnedFacts(pins, c);
    forall l | p[k] < l < p[k + 1]
      ensures pins[l] != c
    {
      assert l !in p;
    }
  }

  lemma PinnedThere(pins: seq<int>, c: int, k: nat)
    requires k < |Pinned(pins, c)|
    ensures Pinned(pins, c)[k] < |pins| && pins[Pinned(pins, c)[k]] == c
  {
    PinnedFacts(pins, c);
  }

  /** The pinned task after the `k`th comes next; after the last, the first. */
  lemma SelectedIsNext(pins: seq<int>, c: int, k: nat)
    requires k < |Pinned(pins, c)|
    ensures var p := Pinned(pins, c); |pins| > 0 && p[k] < |pins| && Selected(pins, c, p[k]) == p[After(k, |p|)]
  {
    var p, n := Pinned(pins, c), |pins|;
    PinnedThere(pins, c, k);
    var i := p[k];
    if k + 1 < |p| {
      PinnedThere(pins, c, k + 1);
      NoneBetween(pins, c, k);
      NextFromStops(pins, c, i + 1, p[k + 1], n);
    } else {
      PinnedThere(pins, c, 0);
      NoneAfterLast(pins, c);
      NoneBeforeFirst(pins, c);
      FirstNotAfter(pins, c, k);
      if i + 1 < n {
        NextFromWraps(pins, c, i + 1, p[0], n);
      } else {
        NextFromStops(pins, c, 0, p[0], n);
      }
    }
  }

  lemma FirstNotAfter(pins: seq<int>, c: int, k: nat)
    requires k < |Pinned(pins, c)|
    ensures Pinned(pins, c)[0] <= Pinned(pins, c)[k]
  {
    PinnedFacts(pins, c);
  }

  lemma NoneBeforeFirst(pins: seq<int>, c: int)
    requires |Pinned(pins, c)| > 0
    ensures Pinned(pins, c)[0] < |pins| && forall l :: 0 <= l < Pinned(pins, c)[0] ==> pins[l] != c
  {
    var p := Pinned(pins, c);
    PinnedFacts(pins, c);
    forall l | 0 <= l < p[0]
      ensures pins[l] != c
    {
      assert l !in p;
    }
  }

  lemma NoneAfterLast(pins: seq<int>, c: int)
    requires |Pinned(pins, c)| > 0
    ensures var p := Pinned(pins, c); forall l :: p[|p| - 1] < l < |pins| ==> pins[l] != c
  {
    var p := Pinned(pins, c);
    PinnedFacts(pins, c);
    forall l | p[|p| - 1] < l < |pins|
      ensures pins[l] != c
    {
      assert l !in p;
    }
  }

  /** With no current task the first pinned one is selected. */
  lemma SelectedFirst(pins: seq<int>, c: int)
    requires |Pinned(pins, c)| > 0
    ensures |pins| > 0 && Selected(pins, c, -1) == Pinned(pins, c)[0]
  {
    NoneBeforeFirst(pins, c);
    PinnedThere(pins, c, 0);
    NextFromStops(pins, c, 0, Pinned(pins, c)[0], |pins|);
  }

  // ---- Runs of switches on all processors

  /** The position of the current task on each processor, or -1. */
  function Switch(pins: seq<int>, current: seq<int>, c: nat): (r: seq<int>)
    requires |pins| > 0 && c < |current| && -1 <= current[c] < |pins|
    ensures |r| == |current| && 0 <= r[c] < |pins|
  {
    current[c := Selected(pins, c, current[c])]
  }

  ghost predicate InList(pins: seq<int>, current: seq<int>) {
    |pins| > 0 && forall c :: 0 <= c < |current| ==> -1 <= current[c] < |pins|
  }

  function Switches(pins: seq<int>, current: seq<int>, cs: seq<nat>): (r: seq<int>)
    requires InList(pins, current) && forall k :: 0 <= k < |cs| ==> cs[k] < |current|
    ensures InList(pins, r) && |r| == |current|
    decreases |cs|
  {
    if cs == [] then current else
      var n := |cs| - 1;
      Switch(pins, Switches(pins, current, cs[..n]), cs[n])
  }

  /** How many of the switches were on `c`. */
  function Turns(cs: seq<nat>, c: nat): nat {
    if cs == [] then 0 else Turns(cs[..|cs| - 1], c) + if cs[|cs| - 1] == c then 1 else 0
  }

  /** `t` places on from the `k`th of `n`, going round. */
  function Turn(k: nat, t: nat, n: nat): (r: nat)
    requires k < n
    ensures r < n
  {
    if t == 0 then k else After(Turn(k, t - 1, n), n)
  }

  /** What happens on the other processors does not matter: the turns go round the pinned tasks. */
  lemma {:induction false} TurnsGoRound(pins: seq<int>, current: seq<int>, cs: seq<nat>, c: nat, k: nat)
    requires InList(pins, current) && (forall i :: 0 <= i < |cs| ==> cs[i] < |current|) && c < |current|
    requires k < |Pinned(pins, c)| && current[c] == Pinned(pins, c)[k]
    ensures var p := Pinned(pins, c); Switches(pins, current, cs)[c] == p[Turn(k, Turns(cs, c), |p|)]
    decreases |cs|
  {
    hide Selected, After;
    if cs != [] {
      var n, p := |cs| - 1, Pinned(pins, c);
      TurnsGoRound(pins, current, cs[..n], c, k);
      if cs[n] == c {
        SelectedIsNext(pins, c, Turn(k, Turns(cs[..n], c), |p|));
      }
    }
  }

  /** Among any `n` turns in a row each of `n` tasks comes up exactly once. */
  lemma EachOnce(n: nat, k: nat, start: nat, j: nat) returns (m: nat)
    requires j < n && k < n
    ensures start <= m < start + n && Turn(k, m, n) == j
    ensures forall m' :: start <= m' < start + n && Turn(k, m', n) == j ==> m' == m
  {
    var r := Turn(k, start, n);
    var off := if j >= r then j - r else n - r + j;
    m := start + off;
    TurnFrom(k, start, off, n);
    forall m' | start <= m' < start + n && Turn(k, m', n) == j
      ensures m' == m
    {
      TurnFrom(k, start, m' - start, n);
    }
  }

  lemma {:induction false} TurnFrom(k: nat, start: nat, d: nat, n: nat)
    requires k < n && d < n
    ensures var r := Turn(k, start, n); Turn(k, start + d, n) == if r + d < n then r + d else r + d - n
  {
    if d > 0 {
      TurnFrom(k, start, d - 1, n);
    }
  }

  /**
   In any run of switches on all processors, any `n` consecutive turns of a processor with `n`
   pinned tasks select each of them exactly once.
   */
  lemma RoundRobin(pins: seq<int>, current: seq<int>, c: nat, k: nat, start: nat, j: nat) returns (m: nat)
    requires InList(pins, current) && c < |current| && k < |Pinned(pins, c)| && current[c] == Pinned(pins, c)[k]
    requires j < |Pinned(pins, c)|
    ensures start <= m < start + |Pinned(pins, c)|
    ensures forall cs: seq<nat> ::
              (forall i :: 0 <= i < |cs| ==> cs[i] < |current|) && start <= Turns(cs, c) < start + |Pinned(pins, c)| ==>
              (Switches(pins, current, cs)[c] == Pinned(pins, c)[j] <==> Turns(cs, c) == m)
  {
    var p := Pinned(pins, c);
    m := EachOnce(|p|, k, start, j);
    forall cs: seq<nat> | (forall i :: 0 <= i < |cs| ==> cs[i] < |current|) && start <= Turns(cs, c) < start + |p|
      ensures Switches(pins, current, cs)[c] == p[j] <==> Turns(cs, c) == m
    {
      TurnsGoRound(pins, current, cs, c, k);
      PinnedDistinct(pins, c, Turn(k, Turns(cs, c), |p|), j);
    }
  }

  lemma PinnedDistinct(pins: seq<int>, c: int, i: nat, j: nat)
    requires i < |Pinned(pins, c)| && j < |Pinned(pins, c)|
    ensures Pinned(pins, c)[i] == Pinned(pins, c)[j] <==> i == j
  {
    PinnedFacts(pins, c);
  }
}
