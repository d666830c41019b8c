/** Publishing a service's scheduling slots and picking servers from them. */
module Sched {
  import opened Common
  import opened Buckets
  import opened Overload
  import Weights

  const SERVICES := 256
  const RR_RETRIES := 10

  datatype Algorithm = SourceHash | RoundRobin | WeightedRoundRobin | Unsupported
  datatype Server = Server(npsIndex: nat, weight: nat, active: bool)
  datatype Rc = Ok | NotSupported

  // ---------------------------------------------------------------- recalculation

  /** The servers a schedule is made from: active ones of non-zero weight, in list order. */
  function Eligible(servers: seq<Server>): (r: seq<Server>)
    ensures forall i :: 0 <= i < |r| ==> r[i] in servers && r[i].active && r[i].weight > 0
  {
    if servers == [] then []
    else if servers[0].active && servers[0].weight > 0 then [servers[0]] + Eligible(servers[1..])
    else Eligible(servers[1..])
  }

  function WeightsOf(servers: seq<Server>): (ws: seq<nat>)
    ensures |ws| == |servers|
  {
    seq(|servers|, i requires 0 <= i < |servers| => servers[i].weight)
  }

  /** The schedule, by list position, that `alg` prescribes for `n` servers of reduced weights `rs`. */
  ghost predicate Prescribes(alg: Algorithm, ws: seq<nat>, rs: seq<nat>, g: nat, s: seq<nat>) {
    if ws == [] then s == []
    else match alg
      case RoundRobin => s == RrSchedule(|ws|)
      case WeightedRoundRobin => Weights.Reduced(ws, rs, g) && s == WrrSchedule(rs)
      case SourceHash => Weights.Reduced(ws, rs, g) && Expand(rs, 0) != [] && s == ShSchedule(rs)
      case Unsupported => false
  }

  /** The slots of service `service` hold exactly the servers of `s`, in order, and then nothing. */
  ghost predicate Published(slots: map<nat, nat>, service: nat, servers: seq<Server>, s: seq<nat>) {
    && |s| <= BUCKET_SIZE
    && (forall k :: 0 <= k < |s| ==> s[k] < |servers|)
    && (forall k :: 0 <= k < BUCKET_SIZE ==> SlotIs(slots, service, servers, s, k))
  }

  predicate SlotIs(slots: map<nat, nat>, service: nat, servers: seq<Server>, s: seq<nat>, k: nat) {
    var key := Key(service, k);
    if k < |s| then key in slots && s[k] < |servers| && slots[key] == servers[s[k]].npsIndex else key !in slots
  }

  /** The number of slot `k` of a service. */
  function Key(service: nat, k: nat): nat {
    service * BUCKET_SIZE + k
  }

  /** The key lies in the block of service `service`. */
  predicate InBlock(key: nat, service: nat) {
    service * BUCKET_SIZE <= key < (service + 1) * BUCKET_SIZE
  }

  ghost predicate SameOutside(slots: map<nat, nat>, slots': map<nat, nat>, service: nat) {
    forall key: nat :: !InBlock(key, service) ==>
      (key in slots <==> key in slots') && (key in slots ==> slots[key] == slots'[key])
  }

  lemma BlocksDisjoint(a: nat, b: nat, key: nat)
    requires InBlock(key, a) && InBlock(key, b)
    ensures a == b
  {
  }

  /** A publication leaves what other services have published. */
  lemma OthersStayPublished(slots: map<nat, nat>, slots': map<nat, nat>, service: nat, other: nat,
                            servers: seq<Server>, s: seq<nat>)
    requires SameOutside(slots, slots', service) && other != service && Published(slots, other, servers, s)
    ensures Published(slots', other, servers, s)
  {
    forall k | 0 <= k < BUCKET_SIZE ensures SlotIs(slots', other, servers, s, k) {
      var key := Key(other, k);
      assert SlotIs(slots, other, servers, s, k);
      assert InBlock(key, other);
      if InBlock(key, service) { BlocksDisjoint(other, service, key); }
    }
  }

  class SchedInfo {
    /** The scheduling info table of the data plane: slot number to server index. */
    var slots: map<nat, nat>

    /** Fills an empty bucket by the service's algorithm. */
    method FillBucket(alg: Algorithm, servers: seq<Server>, bucket: array<Option<nat>>)
      returns (rc: Rc, ghost rs: seq<nat>, ghost g: nat, ghost s: seq<nat>)
      requires bucket.Length == BUCKET_SIZE && forall k :: 0 <= k < BUCKET_SIZE ==> bucket[k] == None
      requires forall i :: 0 <= i < |servers| ==> servers[i].weight > 0
      modifies bucket
      ensures rc == if servers != [] && alg == Unsupported then NotSupported else Ok
      ensures rc == Ok ==> Prescribes(alg, WeightsOf(servers), rs, g, s) && Holds(bucket[..], s)
    {
      rc, rs, g, s := Ok, [], 1, [];
      if |servers| > 0 {
        var w := new nat[|servers|](i requires 0 <= i < |servers| => servers[i].weight);
        assert w[..] == WeightsOf(servers);
        match alg {
          case SourceHash =>
            g := Weights.ReduceWeights(w);
            rs := w[..];
            ShFill(bucket, w);
            s := ShSchedule(rs);
          case RoundRobin =>
            RrFill(bucket, |servers|);
            s := RrSchedule(|servers|);
          case WeightedRoundRobin =>
            g := Weights.ReduceWeights(w);
            rs := w[..];
            WrrFill(bucket, w);
            s := WrrSchedule(rs);
          case Unsupported =>
            rc := NotSupported;
        }
      }
    }

    /** Recomputes and publishes the slots of one service; returns how many are filled. */
    method Recalculate(service: nat, alg: Algorithm, all: seq<Server>)
      returns (rc: Rc, entries: nat, ghost rs: seq<nat>, ghost g: nat, ghost s: seq<nat>)
      requires service < SERVICES
      modifies this
      ensures rc == if Eligible(all) != [] && alg == Unsupported then NotSupported else Ok
      ensures rc != Ok ==> slots == old(slots)
      ensures rc == Ok ==> Prescribes(alg, WeightsOf(Eligible(all)), rs, g, s)
      ensures rc == Ok ==> entries == |s| && Published(slots, service, Eligible(all), s)
      ensures SameOutside(old(slots), slots, service)
    {
      hide Prescribes, Holds, Eligible, WeightsOf, Published;
      entries := 0;
      var servers := Eligible(all);
      var bucket := new Option<nat>[BUCKET_SIZE](i => None);
      rc, rs, g, s := FillBucket(alg, servers, bucket);
      if rc != Ok {
        return;
      }
      InRange(alg, WeightsOf(servers), rs, g, s);
      entries := Publish(service, servers, bucket[..], s);
    }

    /** Writes a bucket into the slots of the service, one slot at a time. */
    method Publish(service: nat, servers: seq<Server>, bucket: seq<Option<nat>>, ghost s: seq<nat>)
      returns (entries: nat)
      requires |bucket| == BUCKET_SIZE && Holds(bucket, s)
      requires forall k :: 0 <= k < |s| ==> s[k] < |servers|
      modifies this
      ensures entries == |s| && Published(slots, service, servers, s)
      ensures SameOutside(old(slots), slots, service)
    {
      entries := 0;
      for k := 0 to BUCKET_SIZE
        invariant entries == if k < |s| then k else |s|
        invariant forall i :: 0 <= i < k ==> SlotIs(slots, service, servers, s, i)
        invariant SameOutside(old(slots), slots, service)
      {
        var key := Key(service, k);
        ghost var before := slots;
        if bucket[k].Some? {
          slots := slots[key := servers[bucket[k].value].npsIndex];
          entries := entries + 1;
        } else {
          slots := slots - {key};
        }
        forall i | 0 <= i < k ensures SlotIs(slots, service, servers, s, i) {
          assert SlotIs(before, service, servers, s, i);
        }
      }
    }
  }

  /** Every prescribed position names a server. */
  lemma InRange(alg: Algorithm, ws: seq<nat>, rs: seq<nat>, g: nat, s: seq<nat>)
    requires Prescribes(alg, ws, rs, g, s)
    ensures forall k :: 0 <= k < |s| ==> s[k] < |ws|
    ensures |s| <= BUCKET_SIZE
  {
    if ws != [] {
      match alg
      case RoundRobin =>
      case WeightedRoundRobin => LevelOrderInRange(rs, MaxOf(rs));
      case SourceHash => ExpandInRange(rs, 0);
    }
  }

  lemma {:induction false} LevelOrderInRange(ws: seq<nat>, level: nat)
    ensures forall k :: 0 <= k < |LevelOrder(ws, level)| ==> LevelOrder(ws, level)[k] < |ws|
  {
    if level > 0 {
      EmitInRange(ws, level, 0);
      LevelOrderInRange(ws, level - 1);
    }
  }

  lemma {:induction false} EmitInRange(ws: seq<nat>, level: nat, p: nat)
    requires p <= |ws|
    ensures forall k :: 0 <= k < |Emit(ws, level, p)| ==> Emit(ws, level, p)[k] < |ws|
    decreases |ws| - p
  {
    if p < |ws| { EmitInRange(ws, level, p + 1); }
  }

  lemma {:induction false} ExpandInRange(ws: seq<nat>, p: nat)
    requires p <= |ws|
    ensures forall k :: 0 <= k < |Expand(ws, p)| ==> Expand(ws, p)[k] < |ws|
    decreases |ws| - p
  {
    if p < |ws| { ExpandInRange(ws, p + 1); }
  }

  // ---------------------------------------------------------------- round-robin picks

  function CountBits(n: nat): nat {
    if n == 0 then 0 else n % 2 + CountBits(n / 2)
  }

  function BitAnd(a: nat, b: nat): nat {
    if a == 0 || b == 0 then 0 else a % 2 * (b % 2) + 2 * BitAnd(a / 2, b / 2)
  }

  lemma {:induction false} BitsPositive(n: nat)
    ensures CountBits(n) == 0 <==> n == 0
  {
    if n > 0 { BitsPositive(n / 2); }
  }

  lemma HalvesModulo(x: nat, m: nat)
    requires m > 0
    ensures x % (2 * m) == x % 2 + 2 * (x / 2 % m)
  {
    var q, r := x / 2 / m, x / 2 % m;
    assert x == q * (2 * m) + (x % 2 + 2 * r) by {
      assert x / 2 == q * m + r;
      assert 2 * (q * m) == q * (2 * m);
    }
    Weights.QuotientUnique(x, 2 * m, q, x % 2 + 2 * r);
  }

  /** Masking with `n - 1` is the remainder modulo `n` when `n` has a single bit. */
  lemma {:induction false} MaskIsModulo(x: nat, n: nat)
    requires CountBits(n) == 1
    ensures BitAnd(x, n - 1) == x % n
    decreases n
  {
    if n % 2 == 1 {
      BitsPositive(n / 2);
      assert n == 1;
    } else {
      var m := n / 2;
      assert (n - 1) % 2 == 1 && (n - 1) / 2 == m - 1;
      MaskIsModulo(x / 2, m);
      HalvesModulo(x, m);
      if n == 2 { assert BitAnd(x / 2, 0) == 0; }
    }
  }

  /** The hardware remainder `mod(x, n, shift)`; all that is assumed of it is its range. */
  ghost predicate IsMod(mod: (nat, nat, nat) -> nat) {
    forall x, n, shift :: n > 0 ==> mod(x, n, shift) < n
  }

  /** The part of a counter that the hardware divides when not shifting: the counter or its lower half. */
  function Low(x: nat, whole: bool): nat {
    if whole then x else x % 0x1_0000
  }

  /** Either reading of the hardware remainder: of the counter, or its lower half, and of its upper half. */
  ghost predicate IsRemainder(mod: (nat, nat, nat) -> nat, whole: bool) {
    && (forall x: nat, n: nat :: n > 0 ==> mod(x, n, 0) == Low(x, whole) % n)
    && (forall x: nat, n: nat :: n > 0 ==> mod(x, n, 16) == x / 0x1_0000 % n)
  }

  /** The slot within the service's block that the scheduling counter selects. */
  function RrIndex(counter: nat, entries: nat, mod: (nat, nat, nat) -> nat): nat
    requires entries > 0
  {
    if CountBits(entries) == 1 then BitAnd(counter, entries - 1)
    else mod(mod(counter, entries, 0) + mod(counter, entries, 16), entries, 0)
  }

  lemma RrIndexInRange(counter: nat, entries: nat, mod: (nat, nat, nat) -> nat)
    requires entries > 0 && IsMod(mod)
    ensures RrIndex(counter, entries, mod) < entries
    ensures CountBits(entries) == 1 ==> RrIndex(counter, entries, mod) == counter % entries
  {
    if CountBits(entries) == 1 {
      MaskIsModulo(counter, entries);
    }
  }

  lemma ModOfSum(a: nat, b: nat, n: nat)
    requires n > 0
    ensures (a % n + b % n) % n == (a + b) % n
  {
    var q, r := Weights.Division(a, n);
    var p, t := Weights.Division(b, n);
    var u, v := Weights.Division(r + t, n);
    assert a + b == (q + p + u) * n + v;
    Weights.QuotientUnique(a + b, n, q + p + u, v);
  }

  /** With a number of slots that is no power of two, the counter's parts are added before dividing. */
  lemma RrIndexIsSum(counter: nat, entries: nat, mod: (nat, nat, nat) -> nat, whole: bool)
    requires 0 < entries <= BUCKET_SIZE && CountBits(entries) != 1 && IsRemainder(mod, whole)
    ensures RrIndex(counter, entries, mod) == (Low(counter, whole) + counter / 0x1_0000) % entries
  {
    hide CountBits;
    var a, b := Low(counter, whole), counter / 0x1_0000;
    var c := a % entries + b % entries;
    SmallModulo(c, 0x1_0000);
    ModOfSum(a, b, entries);
  }

  /** For every number of slots the first 65536 counter values select them in turn. */
  lemma RrIndexIsModulo(counter: nat, entries: nat, mod: (nat, nat, nat) -> nat, whole: bool)
    requires 0 < entries <= BUCKET_SIZE && IsRemainder(mod, whole)
    requires counter < 0x1_0000 || CountBits(entries) == 1
    ensures RrIndex(counter, entries, mod) == counter % entries
  {
    hide CountBits;
    if CountBits(entries) == 1 {
      MaskIsModulo(counter, entries);
    } else {
      SmallModulo(counter, 0x1_0000);
      RrIndexIsSum(counter, entries, mod, whole);
    }
  }

  lemma HalvesStep(x: nat, whole: bool)
    requires (x + 1) % 0x1_0000 != 0
    ensures Low(x + 1, whole) + (x + 1) / 0x1_0000 == Low(x, whole) + x / 0x1_0000 + 1
  {
    NextModulo(x, 0x1_0000);
    var q, r := Weights.Division(x, 0x1_0000);
    Weights.QuotientUnique(x + 1, 0x1_0000, q, r + 1);
  }

  /** And so does every other block of 65536 values, from some slot on. */
  lemma RrStep(counter: nat, entries: nat, mod: (nat, nat, nat) -> nat, whole: bool)
    requires 0 < entries <= BUCKET_SIZE && IsRemainder(mod, whole) && (counter + 1) % 0x1_0000 != 0
    ensures RrIndex(counter + 1, entries, mod) == (RrIndex(counter, entries, mod) + 1) % entries
  {
    hide CountBits, RrIndex, Low, IsRemainder;
    if CountBits(entries) == 1 {
      RrIndexIsModulo(counter, entries, mod, whole);
      RrIndexIsModulo(counter + 1, entries, mod, whole);
      NextAfter(counter, entries);
    } else {
      RrIndexIsSum(counter, entries, mod, whole);
      RrIndexIsSum(counter + 1, entries, mod, whole);
      HalvesStep(counter, whole);
      NextAfter(Low(counter, whole) + counter / 0x1_0000, entries);
    }
  }

  lemma NextAfter(x: nat, n: nat)
    requires n > 0
    ensures (x + 1) % n == (x % n + 1) % n
  {
    NextModulo(x, n);
    SmallModulo(x % n, n);
    NextModulo(x % n, n);
  }

  lemma SameBlock(counter: nat, j: nat)
    requires 0 < j && counter % 0x1_0000 + j < 0x1_0000
    ensures (counter + j) % 0x1_0000 != 0
  {
    var q, r := Weights.Division(counter, 0x1_0000);
    Weights.QuotientUnique(counter + j, 0x1_0000, q, r + j);
  }

  /** The slot selected `j` picks later. */
  function RrLater(counter: nat, j: nat, entries: nat, mod: (nat, nat, nat) -> nat): nat
    requires entries > 0
  {
    RrIndex(counter + j, entries, mod)
  }

  lemma {:induction false} RrSteps(counter: nat, j: nat, entries: nat, mod: (nat, nat, nat) -> nat, whole: bool)
    requires 0 < entries <= BUCKET_SIZE && IsRemainder(mod, whole) && counter % 0x1_0000 + j < 0x1_0000
    ensures RrLater(counter, j, entries, mod) == (RrIndex(counter, entries, mod) + j) % entries
  {
    hide RrIndex, IsRemainder;
    if j == 0 {
      RrInRange(counter, entries, mod, whole);
      SmallModulo(RrIndex(counter, entries, mod), entries);
    } else {
      RrSteps(counter, j - 1, entries, mod, whole);
      SameBlock(counter, j);
      RrStep(counter + j - 1, entries, mod, whole);
      NextAfter(RrIndex(counter, entries, mod) + j - 1, entries);
    }
  }

  lemma RrInRange(counter: nat, entries: nat, mod: (nat, nat, nat) -> nat, whole: bool)
    requires 0 < entries <= BUCKET_SIZE && IsRemainder(mod, whole)
    ensures RrIndex(counter, entries, mod) < entries
  {
    hide BitAnd;
    if CountBits(entries) == 1 {
      MaskIsModulo(counter, entries);
    } else {
      RrIndexIsSum(counter, entries, mod, whole);
    }
  }

  /** As many consecutive picks as there are slots reach every slot, and so each exactly once. */
  lemma RrReachesAll(counter: nat, entries: nat, mod: (nat, nat, nat) -> nat, whole: bool, slot: nat) returns (j: nat)
    requires 0 < entries <= BUCKET_SIZE && IsRemainder(mod, whole) && slot < entries
    requires counter % 0x1_0000 + entries <= 0x1_0000
    ensures j < entries && RrLater(counter, j, entries, mod) == slot
    ensures forall i :: 0 <= i < entries && RrLater(counter, i, entries, mod) == slot ==> i == j
  {
    hide RrIndex, RrLater, IsRemainder;
    var first := RrIndex(counter, entries, mod);
    RrInRange(counter, entries, mod, whole);
    j := if first <= slot then slot - first else slot + entries - first;
    forall i | 0 <= i < entries ensures RrLater(counter, i, entries, mod) == if first + i < entries then first + i else first + i - entries {
      RrSteps(counter, i, entries, mod, whole);
      TurnOnce(first, i, entries);
    }
  }

  lemma TurnOnce(first: nat, i: nat, n: nat)
    requires first < n && i < n
    ensures (first + i) % n == if first + i < n then first + i else first + i - n
  {
    if first + i < n {
      SmallModulo(first + i, n);
    } else {
      Weights.QuotientUnique(first + i, n, 1, first + i - n);
    }
  }

  /** After a publication every value of the scheduling counter selects a filled slot of the service's
      own block, and so an eligible server. */
  lemma RrAlwaysFindsServer(slots: map<nat, nat>, service: nat, servers: seq<Server>, s: seq<nat>,
                            counter: nat, mod: (nat, nat, nat) -> nat)
    requires Published(slots, service, servers, s) && s != [] && IsMod(mod)
    ensures var key := Key(service, RrIndex(counter, |s|, mod));
      InBlock(key, service) && key in slots && exists i :: 0 <= i < |servers| && slots[key] == servers[i].npsIndex
  {
    RrIndexInRange(counter, |s|, mod);
    var k := RrIndex(counter, |s|, mod);
    assert SlotIs(slots, service, servers, s, k);
    assert slots[Key(service, k)] == servers[s[k]].npsIndex;
  }

  lemma Evens(x: nat, m: nat)
    requires m > 0 && x % m == 0
    ensures 2 * x % (2 * m) == 0
  {
    HalvesModulo(2 * x, m);
  }

  lemma {:induction false} PowerDivides(n: nat, bits: nat)
    requires CountBits(n) == 1 && n <= Power2(bits)
    ensures Power2(bits) % n == 0
    decreases bits
  {
    if n % 2 == 1 {
      BitsPositive(n / 2);
      assert n == 1;
    } else {
      PowerDivides(n / 2, bits - 1);
      Evens(Power2(bits - 1), n / 2);
    }
  }

  function Power2(n: nat): nat {
    if n == 0 then 1 else 2 * Power2(n - 1)
  }

  /** When the number of slots is a power of two, the 32-bit scheduling counter walks them cyclically,
      one further for each connection, also across its wrap-around. */
  lemma RrWalks(counter: nat, entries: nat, mod: (nat, nat, nat) -> nat)
    requires CountBits(entries) == 1 && entries <= Power2(32) && counter < Power2(32) && IsMod(mod)
    ensures RrIndex((counter + 1) % Power2(32), entries, mod) == (RrIndex(counter, entries, mod) + 1) % entries
  {
    hide Power2, BitAnd, CountBits;
    BitsPositive(entries);
    RrIndexInRange(counter, entries, mod);
    RrIndexInRange((counter + 1) % Power2(32), entries, mod);
    PowerDivides(entries, 32);
    WalkModulo(counter, entries, Power2(32));
  }

  lemma SmallModulo(r: nat, n: nat)
    requires r < n
    ensures r % n == r
  {
    Weights.QuotientUnique(r, n, 0, r);
  }

  lemma WalkModulo(c: nat, n: nat, m: nat)
    requires 0 < n && m % n == 0 && c < m
    ensures (c + 1) % m % n == (c % n + 1) % n
  {
    SmallModulo(c, m);
    NextModulo(c, m);
    NextModulo(c, n);
    SmallModulo(c % n, n);
    NextModulo(c % n, n);
  }

  // ---------------------------------------------------------------- shares

  lemma Exact(w: nat, g: nat, r: nat)
    requires w == g * r && w > 0
    ensures w / g == r
  {
    Weights.QuotientUnique(w, g, r, 0);
  }

  /** If the reduced weights fit the bucket, weighted round robin gives every server its weight divided
      by the common divisor. */
  lemma WrrSharesByWeight(ws: seq<nat>, rs: seq<nat>, g: nat, s: seq<nat>, i: nat)
    requires Prescribes(WeightedRoundRobin, ws, rs, g, s) && Sum(rs) <= BUCKET_SIZE && i < |ws| && ws[i] > 0
    ensures g * Slots(s, i) == ws[i] && Slots(s, i) == ws[i] / g
  {
    hide Sum, Slots, WrrSchedule, Weights.IsGcd;
    WrrExact(rs, i);
    Exact(ws[i], g, rs[i]);
  }

  // ---------------------------------------------------------------- source-hash picks

  datatype Probe = Success(server: nat) | Failed | Empty | Unavailable

  /** Would the server take a connection now? */
  predicate Accepts(info: map<nat, Thresholds>, loads: map<nat, Load>, server: nat)
    requires server in info && server in loads
  {
    Create(info[server], loads[server]).1
  }

  /** The load is the original one, up to refusals that the server has already answered. */
  ghost predicate Probed(t: Thresholds, load: Load, load': Load) {
    load' == load || (!Create(t, load).1 && load' == Create(t, load).0)
  }

  /** A refusal leaves the counter alone, and refusing again changes nothing more. */
  lemma RefusalIsStable(t: Thresholds, load: Load, load': Load)
    requires Probed(t, load, load')
    ensures load'.counter == load.counter
    ensures Create(t, load').1 == Create(t, load).1
    ensures Probed(t, load, if Create(t, load').1 then load' else Create(t, load').0)
  {
  }

  ghost predicate AllProbed(info: map<nat, Thresholds>, loads: map<nat, Load>, loads': map<nat, Load>) {
    && loads.Keys == loads'.Keys == info.Keys
    && forall x :: x in loads ==> Probed(info[x], loads[x], loads'[x])
  }

  /** Exactly the server `x` has one connection more; with no server nothing has changed. */
  ghost predicate OneMore(loads: map<nat, Load>, loads': map<nat, Load>, x: Option<nat>) {
    && loads.Keys == loads'.Keys
    && forall y :: y in loads ==> loads'[y].counter == loads[y].counter + if x == Some(y) then 1 else 0
  }

  /** The picked server's load is as its admission leaves it; any other is the original one, up to a
      refusal. */
  ghost predicate Took(info: map<nat, Thresholds>, loads: map<nat, Load>, loads': map<nat, Load>, x: Option<nat>) {
    && loads.Keys == loads'.Keys == info.Keys
    && forall y :: y in loads ==>
      if x == Some(y) then (loads'[y], true) == Create(info[y], loads[y]) else Probed(info[y], loads[y], loads'[y])
  }

  lemma TookIsOneMore(info: map<nat, Thresholds>, loads: map<nat, Load>, loads': map<nat, Load>, x: Option<nat>)
    requires Took(info, loads, loads', x)
    ensures OneMore(loads, loads', x)
  {
  }

  lemma BucketMask(x: nat)
    ensures BitAnd(x, BUCKET_SIZE - 1) == x % BUCKET_SIZE
  {
    assert CountBits(2) == 1;
    assert CountBits(8) == CountBits(4) == CountBits(2);
    assert CountBits(64) == CountBits(32) == CountBits(16) == CountBits(8);
    assert CountBits(256) == CountBits(128) == CountBits(64);
    MaskIsModulo(x, BUCKET_SIZE);
  }

  /** Every slot of the service is filled with a known server. */
  ghost predicate FullBlock(slots: map<nat, nat>, info: map<nat, Thresholds>, service: nat) {
    forall k :: 0 <= k < BUCKET_SIZE ==> Key(service, k) in slots && slots[Key(service, k)] in info
  }

  /** The server the hash value reaches after `k` further slots, cyclically within the block; none if the
      slot is empty or its server unknown. */
  function ServerAt(slots: map<nat, nat>, info: map<nat, Thresholds>, service: nat, hash: nat, k: nat): Option<nat> {
    var key := Key(service, (k + hash) % BUCKET_SIZE);
    if key in slots && slots[key] in info then Some(slots[key]) else None
  }

  /** The walk begins at the hashed slot and comes to each of the 256 slots of the block once. */
  lemma ReachesEverySlot(slots: map<nat, nat>, info: map<nat, Thresholds>, service: nat, hash: nat, slot: nat) returns (k: nat)
    requires hash < 256 && slot < 256
    ensures k < 256 && (slot == hash ==> k == 0)
    ensures ServerAt(slots, info, service, hash, k) ==
      var key := service * 256 + slot;
      if key in slots && slots[key] in info then Some(slots[key]) else None
  {
    k := if hash <= slot then slot - hash else slot + 256 - hash;
    TurnOnce(hash, k, 256);
  }

  /** The server reached after `k` slots is known and refuses. */
  ghost predicate Refuses(slots: map<nat, nat>, info: map<nat, Thresholds>, loads: map<nat, Load>,
                          service: nat, hash: nat, k: nat)
    requires loads.Keys == info.Keys
  {
    var x := ServerAt(slots, info, service, hash, k);
    x.Some? && !Accepts(info, loads, x.value)
  }

  /** The first `n` servers reached all refuse. */
  ghost predicate AllRefuse(slots: map<nat, nat>, info: map<nat, Thresholds>, loads: map<nat, Load>,
                            service: nat, hash: nat, n: nat)
    requires loads.Keys == info.Keys
  {
    forall j :: 0 <= j < n ==> Refuses(slots, info, loads, service, hash, j)
  }

  /** `picked` is the first of the `limit` servers reached that accepts, if all before it refuse. */
  ghost predicate PicksFirst(slots: map<nat, nat>, info: map<nat, Thresholds>, loads: map<nat, Load>,
                             service: nat, hash: nat, limit: nat, picked: Option<nat>)
    requires loads.Keys == info.Keys
  {
    if picked.None? then
      forall k :: 0 <= k < limit && AllRefuse(slots, info, loads, service, hash, k) ==>
        ServerAt(slots, info, service, hash, k).None? || Refuses(slots, info, loads, service, hash, k)
    else
      exists k ::
        && 0 <= k < limit
        && AllRefuse(slots, info, loads, service, hash, k)
        && picked == ServerAt(slots, info, service, hash, k)
        && Accepts(info, loads, picked.value)
  }

  /** On a full block a failure means that every server refuses. */
  lemma {:induction false} FailsIfAllRefuse(slots: map<nat, nat>, info: map<nat, Thresholds>, loads: map<nat, Load>,
                                            service: nat, hash: nat, limit: nat)
    requires loads.Keys == info.Keys && FullBlock(slots, info, service)
    requires PicksFirst(slots, info, loads, service, hash, limit, None)
    ensures AllRefuse(slots, info, loads, service, hash, limit)
  {
    if limit > 0 {
      hide Accepts;
      FailsIfAllRefuse(slots, info, loads, service, hash, limit - 1);
      assert ServerAt(slots, info, service, hash, limit - 1).Some?;
    }
  }

  /** Where the walk ends without a server, whatever the block holds. */
  lemma NothingPicked(slots: map<nat, nat>, info: map<nat, Thresholds>, loads: map<nat, Load>,
                      service: nat, hash: nat, limit: nat, n: nat)
    requires loads.Keys == info.Keys && AllRefuse(slots, info, loads, service, hash, n)
    requires n >= limit || ServerAt(slots, info, service, hash, n).None?
    ensures PicksFirst(slots, info, loads, service, hash, limit, None)
  {
    hide ServerAt, Accepts;
    forall k | 0 <= k < limit && AllRefuse(slots, info, loads, service, hash, k)
      ensures ServerAt(slots, info, service, hash, k).None? || Refuses(slots, info, loads, service, hash, k)
    {
      var at := Refuses(slots, info, loads, service, hash, n);
    }
  }

  lemma Picked(slots: map<nat, nat>, info: map<nat, Thresholds>, loads: map<nat, Load>,
               service: nat, hash: nat, limit: nat, n: nat)
    requires loads.Keys == info.Keys && AllRefuse(slots, info, loads, service, hash, n) && n < limit
    requires ServerAt(slots, info, service, hash, n).Some? && Accepts(info, loads, ServerAt(slots, info, service, hash, n).value)
    ensures PicksFirst(slots, info, loads, service, hash, limit, ServerAt(slots, info, service, hash, n))
  {
  }

  /** A published source-hash schedule fills the whole block. */
  lemma ShBlockIsFull(slots: map<nat, nat>, info: map<nat, Thresholds>, service: nat, servers: seq<Server>,
                      rs: seq<nat>, g: nat, s: seq<nat>)
    requires Published(slots, service, servers, s) && servers != []
    requires Prescribes(SourceHash, WeightsOf(servers), rs, g, s)
    requires forall i :: 0 <= i < |servers| ==> servers[i].npsIndex in info
    ensures FullBlock(slots, info, service)
  {
    forall k | 0 <= k < BUCKET_SIZE ensures Key(service, k) in slots && slots[Key(service, k)] in info {
      assert SlotIs(slots, service, servers, s, k);
    }
  }

  class Scheduler {
    /** The published slots and the server table, which a scheduling run only reads. */
    const slots: map<nat, nat>
    const info: map<nat, Thresholds>
    var loads: map<nat, Load>
    /** The scheduling counter of the service, 32 bits wide. */
    var counter: nat

    constructor (slots: map<nat, nat>, info: map<nat, Thresholds>, loads: map<nat, Load>)
      requires loads.Keys == info.Keys
      ensures this.slots == slots && this.info == info && this.loads == loads && counter == 0
    {
      this.slots, this.info, this.loads, counter := slots, info, loads, 0;
    }

    /** Looks one slot up and asks its server. */
    method GetServerInfo(slot: nat) returns (probe: Probe)
      requires loads.Keys == info.Keys
      modifies this`loads
      ensures loads.Keys == info.Keys
      ensures slot !in slots ==> probe == Empty && loads == old(loads)
      ensures slot in slots && slots[slot] !in info ==> probe == Failed && loads == old(loads)
      ensures slot in slots && slots[slot] in info ==>
        var x := slots[slot];
        && probe == (if Accepts(info, old(loads), x) then Success(x) else Unavailable)
        && loads == old(loads)[x := Create(info[x], old(loads)[x]).0]
    {
      if slot !in slots {
        return Empty;
      }
      var x := slots[slot];
      if x !in info {
        return Failed;
      }
      var (load, admitted) := Create(info[x], loads[x]);
      loads := loads[x := load];
      return if admitted then Success(x) else Unavailable;
    }

    /** One probe, from a state that differs from `loads0` by answered refusals only. */
    method ProbeSlot(slot: nat, ghost loads0: map<nat, Load>) returns (probe: Probe)
      requires AllProbed(info, loads0, loads)
      modifies this`loads
      ensures probe.Success? ==> slot in slots && probe.server == slots[slot] && Took(info, loads0, loads, Some(probe.server))
      ensures !probe.Success? ==> AllProbed(info, loads0, loads)
      ensures slot in slots && slots[slot] in info ==>
        probe == if Accepts(info, loads0, slots[slot]) then Success(slots[slot]) else Unavailable
      ensures slot !in slots || slots[slot] !in info ==> !probe.Success? && probe != Unavailable
    {
      if slot in slots && slots[slot] in info {
        RefusalIsStable(info[slots[slot]], loads0[slots[slot]], loads[slots[slot]]);
      }
      probe := GetServerInfo(slot);
    }

    /** Picks the server of the hashed slot or, with fallback, of the next slots, cyclically. In every
        case exactly the picked server has one connection more. */
    method ScheduleSh(service: nat, hash: nat, fallback: bool) returns (picked: Option<nat>)
      requires loads.Keys == info.Keys && hash < BUCKET_SIZE
      modifies this`loads
      ensures OneMore(old(loads), loads, picked) && Took(info, old(loads), loads, picked)
      ensures PicksFirst(slots, info, old(loads), service, hash, if fallback then 256 else 1, picked)
    {
      hide OneMore, Took, AllProbed, Accepts, BitAnd, PicksFirst, AllRefuse;
      ghost var loads0 := loads;
      NothingProbed(info, loads0);
      SmallModulo(hash, BUCKET_SIZE);
      NoneAsked(slots, info, loads0, service, hash);
      var probe := ProbeSlot(Key(service, hash), loads0);
      if probe.Success? {
        TookIsOneMore(info, loads0, loads, Some(probe.server));
        Picked(slots, info, loads0, service, hash, if fallback then 256 else 1, 0);
        return Some(probe.server);
      }
      if probe == Unavailable && fallback {
        var offset := 0;
        while offset < BUCKET_SIZE
          invariant 0 <= offset <= BUCKET_SIZE && AllProbed(info, loads0, loads)
          invariant AllRefuse(slots, info, loads0, service, hash, offset)
        {
          BucketMask(offset + hash);
          var slot := Key(service, BitAnd(offset + hash, BUCKET_SIZE - 1));
          probe := ProbeSlot(slot, loads0);
          if probe.Success? {
            TookIsOneMore(info, loads0, loads, Some(probe.server));
            Picked(slots, info, loads0, service, hash, 256, offset);
            return Some(probe.server);
          }
          if probe != Unavailable {
            break;
          }
          OneMoreRefuses(slots, info, loads0, service, hash, offset);
          offset := offset + 1;
        }
        NothingPicked(slots, info, loads0, service, hash, 256, offset);
      } else if probe == Unavailable {
        OneMoreRefuses(slots, info, loads0, service, hash, 0);
        NothingPicked(slots, info, loads0, service, hash, 1, 1);
      } else {
        NothingPicked(slots, info, loads0, service, hash, if fallback then 256 else 1, 0);
      }
      ProbedIsUnchanged(info, loads0, loads);
      return None;
    }

    /** Picks the server of the slot the counter selects among the `known` slots, a number read earlier.
        If that slot has been emptied since, the number is looked up anew, giving `entries`, and the pick
        repeated, up to ten times. */
    method ScheduleRr(service: nat, known: nat, entries: Option<nat>, mod: (nat, nat, nat) -> nat)
      returns (picked: Option<nat>)
      requires loads.Keys == info.Keys && known > 0 && IsMod(mod)
      modifies this
      ensures counter == (old(counter) + 1) % 0x1_0000_0000
      ensures OneMore(old(loads), loads, picked) && Took(info, old(loads), loads, picked)
      ensures var x := RrProbe(slots, service, old(counter), known, entries, mod, 10);
        picked == if x.Some? && x.value in info && Accepts(info, old(loads), x.value) then x else None
      // with an up-to-date number of slots, of whatever size, the counter goes through them in turn
      ensures InTurn(known, old(counter), mod) && service * 256 + old(counter) % known in slots ==>
        var x := slots[service * 256 + old(counter) % known];
        picked == if x in info && Accepts(info, old(loads), x) then Some(x) else None
    {
      hide OneMore, Took, Probed, Create, RrIndex, CountBits, IsRemainder;
      ghost var loads0 := loads;
      NothingProbed(info, loads0);
      ProbedIsUnchanged(info, loads0, loads0);
      if InTurn(known, counter, mod) {
        RrIndexIsModulo(counter, known, mod, IsRemainder(mod, true));
      }
      var index: nat, n, retries, probe := counter, known, RR_RETRIES, Empty;
      counter := (counter + 1) % 0x1_0000_0000;
      while retries > 0
        invariant 0 <= retries <= RR_RETRIES && n > 0 && loads == loads0 && probe == Empty
        invariant RrProbe(slots, service, index, n, entries, mod, retries)
               == RrProbe(slots, service, old(counter), known, entries, mod, RR_RETRIES)
        invariant counter == (old(counter) + 1) % 0x1_0000_0000
      {
        RrIndexInRange(index, n, mod);
        index := RrIndex(index, n, mod);
        probe := GetServerInfo(Key(service, index));
        if probe != Empty {
          break;
        }
        if entries.None? || entries.value == 0 {
          return None;
        }
        n := entries.value;
        retries := retries - 1;
      }
      if probe.Success? {
        AdmittedIsTook(info, loads0, loads, probe.server);
        TookIsOneMore(info, loads0, loads, Some(probe.server));
        return Some(probe.server);
      }
      if probe == Unavailable {
        RefusedIsTook(info, loads0, loads, slots[Key(service, index)]);
        TookIsOneMore(info, loads0, loads, None);
      }
      return None;
    }
  }

  /** A counter value that selects its remainder, by either reading of the hardware remainder. */
  ghost predicate InTurn(known: nat, counter: nat, mod: (nat, nat, nat) -> nat) {
    && 0 < known <= 256
    && (counter < 0x1_0000 || CountBits(known) == 1)
    && (IsRemainder(mod, true) || IsRemainder(mod, false))
  }

  /** The server a round-robin pick ends at: that of the first filled slot it is led to, reducing the
      index anew by the number looked up each time a slot is empty. */
  function RrProbe(slots: map<nat, nat>, service: nat, index: nat, n: nat, entries: Option<nat>,
                   mod: (nat, nat, nat) -> nat, retries: nat): Option<nat>
    requires n > 0
    decreases retries
  {
    if retries == 0 then None
    else
      var i := RrIndex(index, n, mod);
      if Key(service, i) in slots then Some(slots[Key(service, i)])
      else if entries.None? || entries.value == 0 then None
      else RrProbe(slots, service, i, entries.value, entries, mod, retries - 1)
  }

  /** With the right number at hand, one retry always leads to a filled slot. */
  lemma OneRetrySuffices(slots: map<nat, nat>, service: nat, servers: seq<Server>, s: seq<nat>, counter: nat,
                         known: nat, mod: (nat, nat, nat) -> nat, retries: nat)
    requires Published(slots, service, servers, s) && s != [] && 0 < known <= BUCKET_SIZE && IsMod(mod) && retries >= 2
    ensures var slot := RrSlot(counter, known, |s|, mod);
      && slot < |s| && Key(service, slot) in slots
      && RrProbe(slots, service, counter, known, Some(|s|), mod, retries) == Some(slots[Key(service, slot)])
  {
    hide RrIndex, Published;
    RrIndexInRange(counter, known, mod);
    var i := RrIndex(counter, known, mod);
    SlotFilledIff(slots, service, servers, s, i, known);
    if i >= |s| {
      RrIndexInRange(i, |s|, mod);
      SlotFilledIff(slots, service, servers, s, RrIndex(i, |s|, mod), |s|);
      assert RrProbe(slots, service, i, |s|, Some(|s|), mod, retries - 1).Some?;
    }
  }

  /** With a number that stays wrong, or right, and is a power of two, the pick ends at a filled slot iff
      the counter selects one at once. */
  lemma {:induction false} SameCountPicksIff(slots: map<nat, nat>, service: nat, servers: seq<Server>, s: seq<nat>, counter: nat,
                                             known: nat, mod: (nat, nat, nat) -> nat, retries: nat)
    requires Published(slots, service, servers, s) && 0 < known <= BUCKET_SIZE && CountBits(known) == 1
    requires IsMod(mod) && retries >= 1
    ensures var key, x := Key(service, counter % known), RrProbe(slots, service, counter, known, Some(known), mod, retries);
      if counter % known < |s| then key in slots && x == Some(slots[key]) else x == None
    decreases retries
  {
    hide RrIndex, Published, CountBits;
    RrIndexInRange(counter, known, mod);
    SlotFilledIff(slots, service, servers, s, counter % known, known);
    if counter % known >= |s| && retries > 1 {
      SmallModulo(counter % known, known);
      SameCountPicksIff(slots, service, servers, s, counter % known, known, mod, retries - 1);
    }
  }

  /** The slot a round-robin pick ends at, of a counter value, a slot count read earlier and the present one. */
  function RrSlot(counter: nat, known: nat, entries: nat, mod: (nat, nat, nat) -> nat): nat
    requires known > 0 && entries > 0
  {
    var first := RrIndex(counter, known, mod);
    if first < entries then first else RrIndex(first, entries, mod)
  }

  /** Without a change in between it is the slot the counter selects. */
  lemma RrSlotWhenKnown(counter: nat, entries: nat, mod: (nat, nat, nat) -> nat)
    requires entries > 0 && IsMod(mod)
    ensures RrSlot(counter, entries, entries, mod) == RrIndex(counter, entries, mod)
  {
    RrIndexInRange(counter, entries, mod);
  }

  lemma SlotFilledIff(slots: map<nat, nat>, service: nat, servers: seq<Server>, s: seq<nat>, k: nat, n: nat)
    requires Published(slots, service, servers, s) && k < n && (n <= BUCKET_SIZE || n == |s|)
    ensures Key(service, k) in slots <==> k < |s|
  {
    assert SlotIs(slots, service, servers, s, k);
  }

  lemma AdmittedIsTook(info: map<nat, Thresholds>, loads: map<nat, Load>, loads': map<nat, Load>, x: nat)
    requires loads.Keys == info.Keys && x in info && Create(info[x], loads[x]).1
    requires loads' == loads[x := Create(info[x], loads[x]).0]
    ensures Took(info, loads, loads', Some(x))
  {
  }

  lemma RefusedIsTook(info: map<nat, Thresholds>, loads: map<nat, Load>, loads': map<nat, Load>, x: nat)
    requires loads.Keys == info.Keys && x in info && !Create(info[x], loads[x]).1
    requires loads' == loads[x := Create(info[x], loads[x]).0]
    ensures Took(info, loads, loads', None)
  {
  }

  lemma NoneAsked(slots: map<nat, nat>, info: map<nat, Thresholds>, loads: map<nat, Load>, service: nat, hash: nat)
    requires loads.Keys == info.Keys
    ensures AllRefuse(slots, info, loads, service, hash, 0)
  {
  }

  lemma OneMoreRefuses(slots: map<nat, nat>, info: map<nat, Thresholds>, loads: map<nat, Load>, service: nat, hash: nat, n: nat)
    requires loads.Keys == info.Keys && AllRefuse(slots, info, loads, service, hash, n) && Refuses(slots, info, loads, service, hash, n)
    ensures AllRefuse(slots, info, loads, service, hash, n + 1)
  {
  }

  lemma NothingProbed(info: map<nat, Thresholds>, loads: map<nat, Load>)
    requires loads.Keys == info.Keys
    ensures AllProbed(info, loads, loads)
  {
  }

  lemma ProbedIsUnchanged(info: map<nat, Thresholds>, loads: map<nat, Load>, loads': map<nat, Load>)
    requires AllProbed(info, loads, loads')
    ensures Took(info, loads, loads', None) && OneMore(loads, loads', None)
  {
    TookIsOneMore(info, loads, loads', None);
  }
}
