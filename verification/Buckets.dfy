/** Filling a service's bucket of scheduling slots from the weights of its servers. Servers are named
    by their position in the service's list. */
module Buckets {
  import opened Common
  import Weights

  const BUCKET_SIZE := 256

  /** How many of the slots `s` hold server `i`. */
  function Slots(s: seq<nat>, i: nat): nat {
    if s == [] then 0 else (if s[0] == i then 1 else 0) + Slots(s[1..], i)
  }

  lemma {:induction false} SlotsSplit(s: seq<nat>, t: seq<nat>, i: nat)
    ensures Slots(s + t, i) == Slots(s, i) + Slots(t, i)
  {
    if s == [] {
      assert s + t == t;
    } else {
      assert (s + t)[1..] == s[1..] + t;
      SlotsSplit(s[1..], t, i);
    }
  }

  function Take<T>(s: seq<T>, n: nat): seq<T> {
    if n <= |s| then s[..n] else s
  }

  /** The bucket with its first slots filled from `s`. */
  ghost predicate Holds(bucket: seq<Option<nat>>, s: seq<nat>) {
    && |s| <= |bucket|
    && (forall k :: 0 <= k < |s| ==> bucket[k] == Some(s[k]))
    && (forall k :: |s| <= k < |bucket| ==> bucket[k] == None)
  }

  // ---------------------------------------------------------------- weighted round robin

  /** `m` is the first server of greatest weight, and that weight is not zero. */
  predicate FirstMax(ws: seq<nat>, m: nat) {
    && m < |ws|
    && ws[m] > 0
    && (forall i :: 0 <= i < m ==> ws[i] < ws[m])
    && (forall i :: 0 <= i < |ws| ==> ws[i] <= ws[m])
  }

  predicate AllZero(ws: seq<nat>) {
    forall i :: 0 <= i < |ws| ==> ws[i] == 0
  }

  /** Scans the whole list for the maximum; the first of several wins. */
  method GetMaxWeightServer(w: array<nat>) returns (max: Option<nat>)
    ensures max.None? <==> AllZero(w[..])
    ensures max.Some? ==> FirstMax(w[..], max.value)
  {
    max := None;
    var maxWeight := 0;
    for i := 0 to w.Length
      invariant maxWeight == 0 <==> max.None?
      invariant max.Some? ==> max.value < i && w[max.value] == maxWeight
      invariant max.Some? ==> forall k :: 0 <= k < max.value ==> w[k] < maxWeight
      invariant forall k :: 0 <= k < i ==> w[k] <= maxWeight
    {
      if w[i] > maxWeight {
        max, maxWeight := Some(i), w[i];
      }
    }
  }

  /** The servers from position `p` on whose weight reaches `level`, in list order. */
  function Emit(ws: seq<nat>, level: nat, p: nat): seq<nat>
    requires p <= |ws|
    decreases |ws| - p
  {
    if p == |ws| then []
    else if ws[p] >= level then [p] + Emit(ws, level, p + 1)
    else Emit(ws, level, p + 1)
  }

  /** The level-order schedule: for every level from `level` down to 1, in list order, the servers
      whose weight reaches it. */
  function LevelOrder(ws: seq<nat>, level: nat): seq<nat> {
    if level == 0 then [] else Emit(ws, level, 0) + LevelOrder(ws, level - 1)
  }

  function MaxOf(ws: seq<nat>): (m: nat)
    ensures forall i :: 0 <= i < |ws| ==> ws[i] <= m
  {
    if ws == [] then 0
    else
      var r := MaxOf(ws[1..]);
      assert forall i :: 1 <= i < |ws| ==> ws[i] == ws[1..][i - 1];
      if ws[0] > r then ws[0] else r
  }

  /** What is left of the level-order schedule before position `p` of level `level`. */
  function Rest(ws: seq<nat>, level: nat, p: nat): seq<nat>
    requires level > 0 && p <= |ws|
  {
    Emit(ws, level, p) + LevelOrder(ws, level - 1)
  }

  /** The weights that are left at that point. */
  function Left(ws: seq<nat>, level: nat, p: nat): (r: seq<nat>)
    requires level > 0 && p <= |ws|
    ensures |r| == |ws|
  {
    seq(|ws|, i requires 0 <= i < |ws| => var cap := if i < p then level - 1 else level; if ws[i] < cap then ws[i] else cap)
  }

  /** Every `n`-step run of the greedy rule, which takes the first server of greatest weight and
      decrements it, from `ws` to `ws'`, taking `picks`. */
  ghost predicate GreedyRun(ws: seq<nat>, picks: seq<nat>, ws': seq<nat>)
    decreases |picks|
  {
    if picks == [] then ws == ws'
    else FirstMax(ws, picks[0]) && GreedyRun(ws[picks[0] := ws[picks[0]] - 1], picks[1..], ws')
  }

  /** At a server whose weight reaches the level, the schedule emits it and its weight drops by one. */
  lemma TakeOne(ws: seq<nat>, level: nat, p: nat)
    requires level > 0 && p < |ws| && ws[p] >= level
    ensures Rest(ws, level, p) == [p] + Rest(ws, level, p + 1)
    ensures Left(ws, level, p)[p] == level
    ensures Left(ws, level, p + 1) == Left(ws, level, p)[p := level - 1]
  {
  }

  /** A server whose weight does not reach the level is passed over. */
  lemma PassOne(ws: seq<nat>, level: nat, p: nat)
    requires level > 0 && p < |ws| && ws[p] < level
    ensures Rest(ws, level, p) == Rest(ws, level, p + 1) && Left(ws, level, p) == Left(ws, level, p + 1)
  {
  }

  /** The end of a level is the start of the next one down, or the end of the schedule. */
  lemma EndLevel(ws: seq<nat>, level: nat)
    requires level > 0
    ensures level > 1 ==> Rest(ws, level, |ws|) == Rest(ws, level - 1, 0)
    ensures level > 1 ==> Left(ws, level, |ws|) == Left(ws, level - 1, 0)
    ensures level == 1 ==> Rest(ws, level, |ws|) == [] && AllZero(Left(ws, level, |ws|))
  {
  }

  /** The greedy rule follows the level-order schedule: its picks are a prefix of it, and it has only
      run dry if they are all of it. */
  lemma {:induction false} GreedyIsLevelOrder(ws: seq<nat>, level: nat, p: nat, picks: seq<nat>, ws': seq<nat>)
    requires level > 0 && p <= |ws|
    requires GreedyRun(Left(ws, level, p), picks, ws')
    ensures picks <= Rest(ws, level, p)
    ensures AllZero(ws') ==> picks == Rest(ws, level, p)
    decreases level, |ws| - p
  {
    hide Left, Rest;
    if p == |ws| {
      EndLevel(ws, level);
      if level > 1 {
        GreedyIsLevelOrder(ws, level - 1, 0, picks, ws');
      }
    } else if ws[p] < level {
      PassOne(ws, level, p);
      GreedyIsLevelOrder(ws, level, p + 1, picks, ws');
    } else {
      TakeOne(ws, level, p);
      if picks != [] {
        LeftMax(ws, level, p);
        MaxUnique(Left(ws, level, p), picks[0], p);
        GreedyIsLevelOrder(ws, level, p + 1, picks[1..], ws');
      } else {
        assert Left(ws, level, p)[p] > 0;
      }
    }
  }

  lemma LeftMax(ws: seq<nat>, level: nat, p: nat)
    requires level > 0 && p < |ws| && ws[p] >= level
    ensures FirstMax(Left(ws, level, p), p)
  {
  }

  lemma MaxUnique(ws: seq<nat>, m: nat, n: nat)
    requires FirstMax(ws, m) && FirstMax(ws, n)
    ensures m == n
  {
  }

  lemma {:induction false} GreedyAppend(ws: seq<nat>, picks: seq<nat>, ws': seq<nat>, m: nat)
    requires GreedyRun(ws, picks, ws') && FirstMax(ws', m)
    ensures GreedyRun(ws, picks + [m], ws'[m := ws'[m] - 1])
    decreases |picks|
  {
    if picks == [] {
      assert (picks + [m])[1..] == [];
    } else {
      assert (picks + [m])[1..] == picks[1..] + [m];
      GreedyAppend(ws[picks[0] := ws[picks[0]] - 1], picks[1..], ws', m);
    }
  }

  lemma GreedyStart(ws: seq<nat>)
    ensures GreedyRun(ws, [], ws)
  {
  }

  /** Fills the bucket by taking, slot by slot, the server of greatest weight and decrementing it. */
  method WrrFill(bucket: array<Option<nat>>, w: array<nat>)
    requires bucket.Length == BUCKET_SIZE && forall k :: 0 <= k < BUCKET_SIZE ==> bucket[k] == None
    modifies bucket, w
    ensures Holds(bucket[..], WrrSchedule(old(w[..])))
  {
    hide GreedyRun, Left, Rest, LevelOrder, MaxOf;
    ghost var ws, picks := w[..], [];
    GreedyStart(ws);
    ScheduleStart(ws);
    var i := 0;
    while i < BUCKET_SIZE
      invariant 0 <= i <= BUCKET_SIZE && |picks| == i
      invariant GreedyRun(ws, picks, w[..])
      invariant Holds(bucket[..], picks)
    {
      var max := GetMaxWeightServer(w);
      if max.None? {
        break;
      }
      GreedyAppend(ws, picks, w[..], max.value);
      bucket[i] := max;
      w[max.value] := w[max.value] - 1;
      picks := picks + [max.value];
      i := i + 1;
    }
    GreedyIsLevelOrder(ws, MaxOf(ws) + 1, 0, picks, w[..]);
  }

  lemma {:induction false} NothingAbove(ws: seq<nat>, level: nat, p: nat)
    requires p <= |ws| && forall i :: 0 <= i < |ws| ==> ws[i] < level
    ensures Emit(ws, level, p) == []
    decreases |ws| - p
  {
    if p < |ws| {
      NothingAbove(ws, level, p + 1);
    }
  }

  /** The schedule of weighted round robin: the first 256 items of the level order. */
  function WrrSchedule(ws: seq<nat>): (s: seq<nat>)
    ensures |s| <= BUCKET_SIZE
  {
    Take(LevelOrder(ws, MaxOf(ws)), BUCKET_SIZE)
  }

  // ---------------------------------------------------------------- what the level order promises

  /** The state of the schedule after `n` slots: every server has been given what is missing from
      its weight, and the missing amounts follow one common level. */
  lemma {:induction false} AfterPrefix(ws: seq<nat>, level: nat, p: nat, n: nat) returns (level': nat, p': nat)
    requires level > 0 && p <= |ws| && n <= |Rest(ws, level, p)|
    ensures level' > 0 && p' <= |ws|
    ensures forall k :: 0 <= k < |ws| ==>
      Slots(Rest(ws, level, p)[..n], k) + Left(ws, level', p')[k] == Left(ws, level, p)[k]
    decreases level, |ws| - p
  {
    hide Left, Rest;
    if p == |ws| { EndLevel(ws, level); }
    if n == 0 || (p == |ws| && level == 1) {
      level', p' := level, p;
    } else if p == |ws| {
      level', p' := AfterPrefix(ws, level - 1, 0, n);
    } else if ws[p] < level {
      PassOne(ws, level, p);
      level', p' := AfterPrefix(ws, level, p + 1, n);
    } else {
      TakeOne(ws, level, p);
      level', p' := AfterPrefix(ws, level, p + 1, n - 1);
      assert Rest(ws, level, p)[..n][1..] == Rest(ws, level, p + 1)[..n - 1];
    }
  }

  /** Run to its end, the schedule gives every server exactly its weight, and has the sum of the
      weights as its length. */
  lemma {:induction false} WholeSchedule(ws: seq<nat>, level: nat, p: nat)
    requires level > 0 && p <= |ws|
    ensures forall k :: 0 <= k < |ws| ==> Slots(Rest(ws, level, p), k) == Left(ws, level, p)[k]
    ensures |Rest(ws, level, p)| == Sum(Left(ws, level, p))
    decreases level, |ws| - p
  {
    hide Left, Rest;
    if p == |ws| {
      EndLevel(ws, level);
      if level == 1 {
        SumZero(Left(ws, level, p));
      } else {
        WholeSchedule(ws, level - 1, 0);
      }
    } else if ws[p] < level {
      PassOne(ws, level, p);
      WholeSchedule(ws, level, p + 1);
    } else {
      TakeOne(ws, level, p);
      WholeSchedule(ws, level, p + 1);
      SumUpdate(Left(ws, level, p), p, level - 1);
      assert Rest(ws, level, p)[1..] == Rest(ws, level, p + 1);
    }
  }

  function Sum(ws: seq<nat>): nat {
    if ws == [] then 0 else ws[0] + Sum(ws[1..])
  }

  lemma {:induction false} SumZero(ws: seq<nat>)
    requires AllZero(ws)
    ensures Sum(ws) == 0
  {
    if ws != [] { SumZero(ws[1..]); }
  }

  lemma {:induction false} SumUpdate(ws: seq<nat>, p: nat, x: nat)
    requires p < |ws|
    ensures Sum(ws[p := x]) == Sum(ws) - ws[p] + x
  {
    if p == 0 {
      assert ws[0 := x][1..] == ws[1..];
    } else {
      assert ws[p := x][1..] == ws[1..][p - 1 := x];
      SumUpdate(ws[1..], p - 1, x);
    }
  }

  lemma ScheduleStart(ws: seq<nat>)
    ensures var level := MaxOf(ws) + 1;
      Left(ws, level, 0) == ws && Rest(ws, level, 0) == LevelOrder(ws, MaxOf(ws))
  {
    NothingAbove(ws, MaxOf(ws) + 1, 0);
  }

  /** In every prefix of the schedule a heavier server has at least as many slots as a lighter one,
      and servers of equal weight differ by at most one slot. */
  lemma WrrFair(ws: seq<nat>, n: nat, i: nat, j: nat)
    requires n <= |WrrSchedule(ws)| && i < |ws| && j < |ws|
    ensures ws[i] > ws[j] ==> Slots(WrrSchedule(ws)[..n], i) >= Slots(WrrSchedule(ws)[..n], j)
    ensures ws[i] == ws[j] ==> Slots(WrrSchedule(ws)[..n], i) <= Slots(WrrSchedule(ws)[..n], j) + 1
  {
    ScheduleStart(ws);
    var level', p' := AfterPrefix(ws, MaxOf(ws) + 1, 0, n);
    assert LevelOrder(ws, MaxOf(ws))[..n] == WrrSchedule(ws)[..n];
  }

  /** If the weights fit the bucket, every server gets exactly its weight in slots. */
  lemma WrrExact(ws: seq<nat>, i: nat)
    requires Sum(ws) <= BUCKET_SIZE && i < |ws|
    ensures Slots(WrrSchedule(ws), i) == ws[i] && |WrrSchedule(ws)| == Sum(ws)
  {
    ScheduleStart(ws);
    WholeSchedule(ws, MaxOf(ws) + 1, 0);
    assert WrrSchedule(ws) == Rest(ws, MaxOf(ws) + 1, 0);
  }

  // ---------------------------------------------------------------- source hashing

  /** Each server from position `p` on, repeated as often as its weight says. */
  function Expand(ws: seq<nat>, p: nat): seq<nat>
    requires p <= |ws|
    decreases |ws| - p
  {
    if p == |ws| then [] else seq(ws[p], x => p) + Expand(ws, p + 1)
  }

  /** The weight of the servers before position `p`. */
  function Before(ws: seq<nat>, p: nat): nat
    requires p <= |ws|
  {
    if p == 0 then 0 else Before(ws, p - 1) + ws[p - 1]
  }

  lemma {:induction false} ExpandLength(ws: seq<nat>, p: nat)
    requires p <= |ws|
    ensures |Expand(ws, p)| + Before(ws, p) == Before(ws, |ws|)
    decreases |ws| - p
  {
    if p < |ws| {
      ExpandLength(ws, p + 1);
      assert Before(ws, p + 1) == Before(ws, p) + ws[p];
    }
  }

  lemma {:induction false} ExpandAt(ws: seq<nat>, p: nat, i: nat, x: nat)
    requires p <= i < |ws| && x < ws[i]
    ensures Before(ws, p) <= Before(ws, i) && Before(ws, i) - Before(ws, p) + x < |Expand(ws, p)|
    ensures Expand(ws, p)[Before(ws, i) - Before(ws, p) + x] == i
    decreases |ws| - p
  {
    if p < i {
      ExpandAt(ws, p + 1, i, x);
      assert Before(ws, p + 1) == Before(ws, p) + ws[p];
    }
  }

  /** The schedule of source hashing: the expansion repeated over the whole bucket. */
  function ShSchedule(ws: seq<nat>): (s: seq<nat>)
    requires Expand(ws, 0) != []
    ensures |s| == BUCKET_SIZE
  {
    Cycle(Expand(ws, 0), BUCKET_SIZE)
  }

  function Cycle(e: seq<nat>, n: nat): (s: seq<nat>)
    requires e != []
    ensures |s| == n
  {
    seq(n, k requires 0 <= k < n => e[k % |e|])
  }

  lemma NextModulo(k: nat, d: nat)
    requires d > 0
    ensures (k + 1) % d == if k % d + 1 == d then 0 else k % d + 1
  {
    var q := k / d;
    if k % d + 1 == d {
      assert k + 1 == (q + 1) * d + 0;
      Weights.QuotientUnique(k + 1, d, q + 1, 0);
    } else {
      Weights.QuotientUnique(k + 1, d, q, k % d + 1);
    }
  }

  ghost predicate Positive(ws: seq<nat>) {
    ws != [] && forall i :: 0 <= i < |ws| ==> ws[i] > 0
  }

  lemma PositiveExpands(ws: seq<nat>)
    requires Positive(ws)
    ensures Expand(ws, 0) != []
  {
    assert Expand(ws, 0)[0] == 0;
  }

  /** Where the walk over the cyclic list stands after `k` slots. */
  lemma ShStep(ws: seq<nat>, k: nat, pos: nat, weight: nat, total: nat)
    requires Positive(ws) && pos < |ws| && weight < ws[pos]
    requires total == |Expand(ws, 0)| > 0 && Before(ws, pos) + weight == k % total
    ensures Expand(ws, 0)[k % total] == pos
    ensures (k + 1) % total ==
      if weight + 1 < ws[pos] then Before(ws, pos) + weight + 1
      else if pos + 1 < |ws| then Before(ws, pos + 1) else 0
  {
    hide Expand;
    ExpandAt(ws, 0, pos, weight);
    ExpandLength(ws, 0);
    BeforeGrows(ws, pos + 1);
    assert Before(ws, pos + 1) == Before(ws, pos) + ws[pos];
    NextModulo(k, total);
  }

  lemma {:induction false} BeforeGrows(ws: seq<nat>, p: nat)
    requires Positive(ws) && p <= |ws|
    ensures Before(ws, p) <= Before(ws, |ws|)
    ensures p < |ws| ==> Before(ws, p) < Before(ws, |ws|)
    decreases |ws| - p
  {
    if p < |ws| {
      BeforeGrows(ws, p + 1);
      assert Before(ws, p + 1) == Before(ws, p) + ws[p];
    }
  }

  /** Fills all slots by walking the cyclic list, staying at each server for its weight. */
  method ShFill(bucket: array<Option<nat>>, w: array<nat>)
    requires bucket.Length == BUCKET_SIZE && Positive(w[..])
    modifies bucket
    ensures Expand(w[..], 0) != [] && Holds(bucket[..], ShSchedule(w[..]))
  {
    hide Expand, Before;
    ghost var ws := w[..];
    PositiveExpands(ws);
    ghost var total := |Expand(ws, 0)|;
    var pos, weight := 0, 0;
    BeforeStart(ws, total);
    for k := 0 to BUCKET_SIZE
      invariant pos < |ws| && weight < ws[pos] && w[..] == ws
      invariant Before(ws, pos) + weight == k % total
      invariant forall i :: 0 <= i < k ==> bucket[i] == Some(ShSchedule(ws)[i])
    {
      ShStep(ws, k, pos, weight, total);
      bucket[k] := Some(pos);
      weight := weight + 1;
      if weight >= w[pos] {
        weight := 0;
        pos := if pos + 1 == w.Length then 0 else pos + 1;
      }
    }
  }

  lemma BeforeStart(ws: seq<nat>, total: nat)
    requires total > 0
    ensures Before(ws, 0) == 0 == 0 % total
  {
  }

  lemma {:induction false} ExpandSlots(ws: seq<nat>, p: nat, i: nat)
    requires p <= |ws| && i < |ws|
    ensures Slots(Expand(ws, p), i) == if i < p then 0 else ws[i]
    decreases |ws| - p
  {
    if p < |ws| {
      ExpandSlots(ws, p + 1, i);
      RepeatSlots(p, ws[p], i);
      SlotsSplit(seq(ws[p], x => p), Expand(ws, p + 1), i);
    }
  }

  lemma {:induction false} RepeatSlots(p: nat, n: nat, i: nat)
    ensures Slots(seq(n, x => p), i) == if i == p then n else 0
  {
    if n > 0 {
      assert seq(n, x => p)[1..] == seq(n - 1, x => p);
      RepeatSlots(p, n - 1, i);
    }
  }

  lemma CycleUnroll(e: seq<nat>, n: nat)
    requires e != []
    ensures n < |e| ==> Cycle(e, n) == e[..n]
    ensures n >= |e| ==> Cycle(e, n) == e + Cycle(e, n - |e|)
  {
    forall k | 0 <= k < n ensures k >= |e| ==> k % |e| == (k - |e|) % |e| {
      if k >= |e| { Weights.AddModulus(k - |e|, |e|); }
    }
    forall k | 0 <= k < |e| ensures k % |e| == k {
      Weights.QuotientUnique(k, |e|, 0, k);
    }
  }

  /** A cycled list gives every server its share per full round, and at most one more share. */
  lemma {:induction false} CycleSlots(e: seq<nat>, n: nat, q: nat, r: nat, i: nat)
    requires e != [] && n == q * |e| + r && r < |e|
    ensures q * Slots(e, i) <= Slots(Cycle(e, n), i) <= q * Slots(e, i) + Slots(e, i)
    decreases q
  {
    hide Cycle;
    var share := Slots(e, i);
    CycleUnroll(e, n);
    if q == 0 {
      assert e == e[..n] + e[n..];
      SlotsSplit(e[..n], e[n..], i);
    } else {
      assert n - |e| == (q - 1) * |e| + r;
      assert q * share == (q - 1) * share + share;
      Weights.Larger(|e|, q);
      CycleSlots(e, n - |e|, q - 1, r, i);
      SlotsSplit(e, Cycle(e, n - |e|), i);
    }
  }

  lemma {:induction false} ExpandSum(ws: seq<nat>, p: nat)
    requires p <= |ws|
    ensures |Expand(ws, p)| == Sum(ws[p..])
    decreases |ws| - p
  {
    if p < |ws| {
      ExpandSum(ws, p + 1);
      assert ws[p..][1..] == ws[p + 1..];
    }
  }

  /** Of the 256 slots a server of weight `w`, out of a total weight `W`, gets between
      `256 / W * w` and `256 / W * w + w`. */
  lemma ShShare(ws: seq<nat>, i: nat)
    requires Positive(ws) && i < |ws|
    ensures Sum(ws) > 0 && Expand(ws, 0) != []
    ensures var rounds := BUCKET_SIZE / Sum(ws);
      rounds * ws[i] <= Slots(ShSchedule(ws), i) <= rounds * ws[i] + ws[i]
  {
    hide Expand, Cycle, Slots, Sum;
    PositiveExpands(ws);
    ExpandSum(ws, 0);
    assert ws[0..] == ws;
    ExpandSlots(ws, 0, i);
    var rounds, r := Weights.Division(BUCKET_SIZE, Sum(ws));
    CycleSlots(Expand(ws, 0), BUCKET_SIZE, rounds, r, i);
  }

  lemma CycleAt(e: seq<nat>, n: nat, k: nat)
    requires e != [] && k < n && k < |e|
    ensures Cycle(e, n)[k] == e[k]
  {
    Weights.QuotientUnique(k, |e|, 0, k);
  }

  /** Where a server stands in a bucket that holds all the weights. */
  lemma ShAt(ws: seq<nat>, i: nat, x: nat)
    requires Positive(ws) && Sum(ws) <= BUCKET_SIZE && i < |ws| && x < ws[i]
    ensures Expand(ws, 0) != [] && Before(ws, i) + x < BUCKET_SIZE && ShSchedule(ws)[Before(ws, i) + x] == i
  {
    hide Expand, Cycle;
    PositiveExpands(ws);
    ExpandAt(ws, 0, i, x);
    ExpandSum(ws, 0);
    assert ws[0..] == ws;
    CycleAt(Expand(ws, 0), BUCKET_SIZE, Before(ws, i) + x);
  }

  /** Such a bucket starts over behind the last server. */
  lemma ShWraps(ws: seq<nat>)
    requires Positive(ws) && Sum(ws) < BUCKET_SIZE
    ensures Expand(ws, 0) != [] && Before(ws, |ws|) == Sum(ws) && ShSchedule(ws)[Sum(ws)] == 0
  {
    hide Expand;
    PositiveExpands(ws);
    ExpandLength(ws, 0);
    ExpandSum(ws, 0);
    assert ws[0..] == ws;
    var n := |Expand(ws, 0)|;
    Weights.QuotientUnique(n, n, 1, 0);
    ExpandAt(ws, 0, 0, 0);
  }

  /** The first server on which two lists of weights differ, with the smaller one in `ws`. */
  lemma ShDiffersAt(ws: seq<nat>, vs: seq<nat>, i: nat)
    requires Positive(ws) && Positive(vs) && |ws| == |vs| >= 2 && Sum(ws) <= BUCKET_SIZE && Sum(vs) <= BUCKET_SIZE
    requires i < |ws| && Before(ws, i) == Before(vs, i) && ws[i] < vs[i]
    ensures Expand(ws, 0) != [] && Expand(vs, 0) != [] && ShSchedule(ws) != ShSchedule(vs)
  {
    hide Expand, Sum, ShSchedule, Before;
    PositiveExpands(ws);
    PositiveExpands(vs);
    ShAt(vs, i, ws[i]);
    BeforeNext(ws, i);
    if i + 1 < |ws| {
      ShAt(ws, i + 1, 0);
    } else {
      SumIsBefore(ws);
      ShWraps(ws);
    }
  }

  lemma BeforeNext(ws: seq<nat>, i: nat)
    requires i < |ws|
    ensures Before(ws, i + 1) == Before(ws, i) + ws[i]
  {
  }

  lemma SumIsBefore(ws: seq<nat>)
    ensures Sum(ws) == Before(ws, |ws|)
  {
    ExpandLength(ws, 0);
    ExpandSum(ws, 0);
    assert ws[0..] == ws;
  }

  /** With two servers or more, a source-hash schedule that holds all the weights determines them. */
  lemma {:induction false} ShDetermines(ws: seq<nat>, vs: seq<nat>, i: nat)
    requires Positive(ws) && Positive(vs) && |ws| == |vs| >= 2 && Sum(ws) <= BUCKET_SIZE && Sum(vs) <= BUCKET_SIZE
    requires Expand(ws, 0) != [] && Expand(vs, 0) != [] && ShSchedule(ws) == ShSchedule(vs) && i <= |ws|
    ensures ws[..i] == vs[..i] && Before(ws, i) == Before(vs, i)
  {
    hide Expand, Sum, ShSchedule, Positive;
    if i > 0 {
      ShDetermines(ws, vs, i - 1);
      if ws[i - 1] < vs[i - 1] {
        ShDiffersAt(ws, vs, i - 1);
      } else if vs[i - 1] < ws[i - 1] {
        ShDiffersAt(vs, ws, i - 1);
      }
      assert ws[..i] == ws[..i - 1] + [ws[i - 1]] && vs[..i] == vs[..i - 1] + [vs[i - 1]];
    }
  }

  lemma {:induction false} SlotOf(s: seq<nat>, i: nat) returns (k: nat)
    requires Slots(s, i) > 0
    ensures k < |s| && s[k] == i
  {
    if s[0] == i {
      k := 0;
    } else {
      k := SlotOf(s[1..], i);
      k := k + 1;
    }
  }

  // ---------------------------------------------------------------- round robin

  /** The schedule of round robin: the servers in list order, as far as the bucket reaches. */
  function RrSchedule(n: nat): (s: seq<nat>)
    ensures |s| <= BUCKET_SIZE
  {
    seq(if n < BUCKET_SIZE then n else BUCKET_SIZE, i => i)
  }

  method RrFill(bucket: array<Option<nat>>, n: nat)
    requires bucket.Length == BUCKET_SIZE && forall k :: 0 <= k < BUCKET_SIZE ==> bucket[k] == None
    modifies bucket
    ensures Holds(bucket[..], RrSchedule(n))
  {
    var i := 0;
    while i < n && i < BUCKET_SIZE
      invariant 0 <= i <= n && i <= BUCKET_SIZE
      invariant Holds(bucket[..], seq(i, k => k))
    {
      bucket[i] := Some(i);
      i := i + 1;
    }
  }

  /** Under the limit of 256 active servers every server has exactly one slot. */
  lemma {:induction false} RrOnce(n: nat, i: nat)
    requires i < n <= BUCKET_SIZE
    ensures Slots(RrSchedule(n), i) == 1
  {
    IotaSlots(n, i);
  }

  lemma {:induction false} IotaSlots(n: nat, i: nat)
    ensures Slots(seq(n, k => k), i) == if i < n then 1 else 0
  {
    if n > 0 {
      IotaSlots(n - 1, i);
      assert seq(n, k => k) == seq(n - 1, k => k) + [n - 1];
      SlotsSplit(seq(n - 1, k => k), [n - 1], i);
    }
  }
}
