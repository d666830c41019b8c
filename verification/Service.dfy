/** The requests that change a service: its servers, the slots published for them, and the number of
    slots, which is kept twice. */
module Service {
  import opened Common
  import opened Buckets
  import opened Sched
  import Weights

  /** A server of the service; `addr` stands for its address and port. */
  datatype Row = Row(addr: nat, server: Server)

  datatype Reply = Done | Failure | Refused

  function ServersOf(rows: seq<Row>): (r: seq<Server>)
    ensures |r| == |rows|
  {
    seq(|rows|, i requires 0 <= i < |rows| => rows[i].server)
  }

  /** The position of a server, or the number of servers if it is unknown. */
  function Find(rows: seq<Row>, addr: nat): (i: nat)
    ensures i <= |rows| && (i < |rows| ==> rows[i].addr == addr)
    ensures i == |rows| ==> forall k :: 0 <= k < |rows| ==> rows[k].addr != addr
  {
    if rows == [] || rows[0].addr == addr then 0 else 1 + Find(rows[1..], addr)
  }

  function ActiveCount(servers: seq<Server>): nat {
    if servers == [] then 0 else (if servers[0].active then 1 else 0) + ActiveCount(servers[1..])
  }

  ghost predicate Distinct(rows: seq<Row>) {
    forall i, j :: 0 <= i < j < |rows| ==> rows[i].addr != rows[j].addr
  }

  // ---------------------------------------------------------------- changing one row

  lemma {:induction false} SplitServers(a: seq<Server>, b: seq<Server>)
    ensures ActiveCount(a + b) == ActiveCount(a) + ActiveCount(b)
    ensures Eligible(a + b) == Eligible(a) + Eligible(b)
  {
    if a == [] {
      assert a + b == b;
    } else {
      assert (a + b)[1..] == a[1..] + b;
      SplitServers(a[1..], b);
    }
  }

  predicate IsEligible(x: Server) {
    x.active && x.weight > 0
  }

  /** Replacing a row changes the count by that row, and no schedule unless it was or is eligible. */
  lemma ReplaceRow(rows: seq<Row>, i: nat, row: Row)
    requires i < |rows|
    ensures var before, after := ServersOf(rows), ServersOf(rows[i := row]);
      && ActiveCount(after) == ActiveCount(before) - (if rows[i].server.active then 1 else 0) + (if row.server.active then 1 else 0)
      && (!IsEligible(rows[i].server) && !IsEligible(row.server) ==> Eligible(after) == Eligible(before))
      && (IsEligible(rows[i].server) && !IsEligible(row.server) ==> |Eligible(after)| == |Eligible(before)| - 1)
  {
    var a, b := ServersOf(rows[..i]), ServersOf(rows[i + 1..]);
    var x, y := rows[i].server, row.server;
    assert ServersOf(rows) == a + ([x] + b);
    assert ServersOf(rows[i := row]) == a + ([y] + b);
    SplitServers(a, [x] + b);
    SplitServers(a, [y] + b);
    SplitServers([x], b);
    SplitServers([y], b);
    OneServer(x);
    OneServer(y);
  }

  lemma OneServer(x: Server)
    ensures ActiveCount([x]) == if x.active then 1 else 0
    ensures Eligible([x]) == if IsEligible(x) then [x] else []
  {
    assert [x][1..] == [];
  }

  lemma AppendRow(rows: seq<Row>, row: Row)
    ensures var before, after := ServersOf(rows), ServersOf(rows + [row]);
      && ActiveCount(after) == ActiveCount(before) + (if row.server.active then 1 else 0)
      && (!IsEligible(row.server) ==> Eligible(after) == Eligible(before))
  {
    assert ServersOf(rows + [row]) == ServersOf(rows) + [row.server];
    SplitServers(ServersOf(rows), [row.server]);
    OneServer(row.server);
  }

  lemma {:induction false} FewEligible(servers: seq<Server>)
    ensures |Eligible(servers)| <= ActiveCount(servers)
  {
    if servers != [] { FewEligible(servers[1..]); }
  }

  // ---------------------------------------------------------------- the service

  /** The change of a weight that the control plane takes for none: it keeps the old weight in 8 bits. */
  predicate Hidden(weight: nat, weight': nat) {
    weight' != weight && weight' == weight % 0x100
  }

  class ServiceDb {
    const index: nat
    const sched: SchedInfo
    var rows: seq<Row>
    var alg: Algorithm
    /** The number of slots in the internal database and in the data plane's service table. */
    var stored: nat
    var known: nat

    /** What the last recalculation published. */
    ghost var rs: seq<nat>
    ghost var g: nat
    ghost var s: seq<nat>

    ghost predicate Valid()
      reads this
    {
      && index < SERVICES
      && alg != Unsupported
      && Distinct(rows)
      && ActiveCount(ServersOf(rows)) <= BUCKET_SIZE
    }

    /** The published slots are those that the algorithm prescribes for the present servers. */
    ghost predicate Current()
      reads this, sched
    {
      var servers := Eligible(ServersOf(rows));
      && Prescribes(alg, WeightsOf(servers), rs, g, s)
      && Published(sched.slots, index, servers, s)
    }

    /** The data plane knows how many slots are published. */
    ghost predicate Counted()
      reads this
    {
      known == |s|
    }

    constructor (index: nat, alg: Algorithm, sched: SchedInfo)
      requires index < SERVICES && alg != Unsupported
      requires forall key :: InBlock(key, index) ==> key !in sched.slots
      ensures Valid() && Current() && Counted() && stored == known
      ensures this.index == index && this.alg == alg && this.sched == sched && rows == []
    {
      this.index, this.alg, this.sched := index, alg, sched;
      rows, stored, known := [], 0, 0;
      rs, g, s := [], 1, [];
      new;
      assert Eligible(ServersOf(rows)) == [];
      forall k | 0 <= k < BUCKET_SIZE ensures SlotIs(sched.slots, index, [], [], k) {
        assert InBlock(Key(index, k), index);
      }
    }

    method Recalculate() returns (entries: nat)
      requires Valid()
      modifies this`rs, this`g, this`s, sched
      ensures Current() && entries == |s|
      ensures SameOutside(old(sched.slots), sched.slots, index)
    {
      hide Prescribes, Published, SameOutside, Eligible, WeightsOf;
      var rc;
      rc, entries, rs, g, s := sched.Recalculate(index, alg, ServersOf(rows));
    }

    /** A new server, or one that was deleted before. */
    method AddServer(addr: nat, weight: nat, pick: Option<nat>) returns (reply: Reply)
      requires Valid()
      modifies this, sched
      ensures Valid() && alg == old(alg) && SameOutside(old(sched.slots), sched.slots, index)
      ensures var i := Find(old(rows), addr);
        && reply == (
          if ActiveCount(ServersOf(old(rows))) == BUCKET_SIZE || (i < |old(rows)| && old(rows)[i].server.active) then Failure
          else if i == |old(rows)| && pick.None? then Refused
          else Done)
        && rows == (
          if reply != Done then old(rows)
          else if i == |old(rows)| then old(rows) + [Row(addr, Server(pick.value, weight, true))]
          else old(rows)[i := Row(addr, Server(old(rows)[i].server.npsIndex, weight, true))])
      ensures old(Current()) || (reply == Done && weight > 0) ==> Current()
      ensures if reply == Done && weight > 0 then stored == known == |s|
              else stored == old(stored) && known == old(known) && s == old(s)
    {
      hide Prescribes, Published, Eligible, ActiveCount, Find, ServersOf, WeightsOf;
      if ActiveCount(ServersOf(rows)) == BUCKET_SIZE {
        return Failure;
      }
      var i := Find(rows, addr);
      if i < |rows| {
        if rows[i].server.active {
          return Failure;
        }
        var row := Row(addr, Server(rows[i].server.npsIndex, weight, true));
        ReplaceRow(rows, i, row);
        rows := rows[i := row];
      } else {
        if pick.None? {
          return Refused;
        }
        var row := Row(addr, Server(pick.value, weight, true));
        AppendRow(rows, row);
        rows := rows + [row];
      }
      if weight > 0 {
        var entries := Recalculate();
        stored := entries;
        known := entries;
      }
      return Done;
    }

    /** Only weights matter here. The new number of slots is not stored in the internal database. */
    method ModifyServer(addr: nat, weight: nat) returns (reply: Reply)
      requires Valid()
      modifies this, sched
      ensures Valid() && alg == old(alg) && stored == old(stored) && SameOutside(old(sched.slots), sched.slots, index)
      ensures var i := Find(old(rows), addr);
        && reply == (if i < |old(rows)| && old(rows)[i].server.active then Done else Failure)
        && rows == (if reply == Done then old(rows)[i := Row(addr, old(rows)[i].server.(weight := weight))] else old(rows))
        && (if reply == Done && weight != old(rows)[i].server.weight % 0x100 then Current() && Counted()
            else sched.slots == old(sched.slots) && known == old(known) && (rs, g, s) == old((rs, g, s)))
        && (reply == Done && !Hidden(old(rows)[i].server.weight, weight) && old(Current()) ==> Current())
      ensures reply != Done && old(Current()) ==> Current()
    {
      hide Prescribes, Published, Eligible, ActiveCount, Find, ServersOf, WeightsOf;
      var i := Find(rows, addr);
      if i == |rows| || !rows[i].server.active {
        return Failure;
      }
      var prevWeight := rows[i].server.weight % 0x100;
      var row := Row(addr, rows[i].server.(weight := weight));
      ReplaceRow(rows, i, row);
      if weight == rows[i].server.weight { assert rows[i := row] == rows; }
      rows := rows[i := row];
      if weight != prevWeight {
        var entries := Recalculate();
        known := entries;
      }
      return Done;
    }

    /** Deletion only deactivates. The new number of slots is not stored in the internal database. */
    method DeleteServer(addr: nat) returns (reply: Reply)
      requires Valid()
      modifies this, sched
      ensures Valid() && alg == old(alg) && stored == old(stored) && SameOutside(old(sched.slots), sched.slots, index)
      ensures var i := Find(old(rows), addr);
        && reply == (if i < |old(rows)| && old(rows)[i].server.active then Done else Failure)
        && rows == (if reply == Done then old(rows)[i := Row(addr, old(rows)[i].server.(active := false))] else old(rows))
        && (if reply == Done && old(rows)[i].server.weight > 0 then Current() && Counted()
            else sched.slots == old(sched.slots) && known == old(known) && s == old(s))
      ensures old(Current()) ==> Current()
    {
      hide Prescribes, Published, Eligible, ActiveCount, Find, ServersOf, WeightsOf;
      var i := Find(rows, addr);
      if i == |rows| || !rows[i].server.active {
        return Failure;
      }
      var row := Row(addr, rows[i].server.(active := false));
      ReplaceRow(rows, i, row);
      rows := rows[i := row];
      if row.server.weight > 0 {
        var entries := Recalculate();
        known := entries;
      }
      return Done;
    }

    /** A change of the service itself: publishes the stored number of slots, which is only brought up
        to date if the algorithm changes. */
    method ModifyService(alg': Algorithm) returns (reply: Reply)
      requires Valid()
      modifies this, sched
      ensures Valid() && rows == old(rows) && SameOutside(old(sched.slots), sched.slots, index)
      ensures reply == if alg' == Unsupported then Refused else Done
      ensures alg == if reply == Done then alg' else old(alg)
      ensures old(Current()) || alg != old(alg) ==> Current()
      ensures reply != Done ==> stored == old(stored) && known == old(known) && s == old(s)
      ensures reply == Done ==> stored == known == if alg != old(alg) then |s| else old(stored)
      ensures alg == old(alg) ==> s == old(s) && sched.slots == old(sched.slots)
      // exactly when the data plane is told the right number
      ensures reply == Done ==> (Counted() <==> alg != old(alg) || old(stored) == |old(s)|)
    {
      hide Prescribes, Published, Eligible, ActiveCount, Find, ServersOf, WeightsOf;
      if alg' == Unsupported {
        return Refused;
      }
      var prev := alg;
      alg := alg';
      if prev != alg {
        var entries := Recalculate();
        stored := entries;
      }
      known := stored;
      return Done;
    }
  }

  // ---------------------------------------------------------------- whole runs

  datatype Request =
    | Add(addr: nat, weight: nat, pick: Option<nat>)
    | Modify(addr: nat, weight: nat)
    | Delete(addr: nat)
    | Change(alg: Algorithm)

  predicate SmallWeight(r: Request) {
    (r.Add? || r.Modify?) ==> r.weight < 0x100
  }

  predicate SmallWeights(requests: seq<Request>) {
    forall k :: 0 <= k < |requests| ==> SmallWeight(requests[k])
  }

  /** No change of the service follows a modification or deletion of a server. */
  predicate ChangesFirst(requests: seq<Request>) {
    forall j, k :: 0 <= j < k < |requests| && requests[k].Change? ==> !requests[j].Modify? && !requests[j].Delete?
  }

  predicate LightRows(rows: seq<Row>) {
    forall i :: 0 <= i < |rows| ==> rows[i].server.weight < 0x100
  }

  /** One request. A small weight keeps the slots right. The data plane's count stays right unless the
      request changes the service while the two counts differ. */
  method Handle(db: ServiceDb, r: Request) returns (reply: Reply)
    requires db.Valid()
    modifies db, db.sched
    ensures db.Valid() && SameOutside(old(db.sched.slots), db.sched.slots, db.index)
    ensures SmallWeight(r) && old(LightRows(db.rows) && db.Current()) ==> LightRows(db.rows) && db.Current()
    ensures old(db.Counted()) && (r.Change? ==> old(db.stored == db.known)) ==> db.Counted()
    ensures old(db.stored == db.known) && !r.Modify? && !r.Delete? ==> db.stored == db.known
  {
    hide Prescribes, Published, Eligible, ActiveCount, Find, ServersOf, WeightsOf, Distinct, SameOutside;
    match r {
      case Add(addr, weight, pick) => reply := db.AddServer(addr, weight, pick);
      case Modify(addr, weight) => reply := db.ModifyServer(addr, weight);
      case Delete(addr) => reply := db.DeleteServer(addr);
      case Change(alg') => reply := db.ModifyService(alg');
    }
  }

  /** Any run of requests on a new service: at most 256 servers are active; with weights below 256 the
      published slots are always those prescribed for the present servers; and if no change of the
      service follows a modification or deletion of a server, the data plane knows their number. */
  method Run(index: nat, alg: Algorithm, sched: SchedInfo, requests: seq<Request>) returns (db: ServiceDb)
    requires index < SERVICES && alg != Unsupported
    requires forall key :: InBlock(key, index) ==> key !in sched.slots
    modifies sched
    ensures db.Valid() && db.index == index && db.sched == sched
    ensures SmallWeights(requests) ==> db.Current()
    ensures ChangesFirst(requests) ==> db.Counted()
    ensures SameOutside(old(sched.slots), sched.slots, index)
  {
    hide Prescribes, Published, Eligible, ActiveCount, ServersOf, WeightsOf, Distinct;
    db := new ServiceDb(index, alg, sched);
    ghost var touched := false;
    for k := 0 to |requests|
      invariant fresh(db) && db.Valid() && db.index == index && db.sched == sched
      invariant SmallWeights(requests) ==> LightRows(db.rows) && db.Current()
      invariant touched <==> exists j :: 0 <= j < k && (requests[j].Modify? || requests[j].Delete?)
      invariant ChangesFirst(requests) ==> db.Counted() && (!touched ==> db.stored == db.known)
      invariant SameOutside(old(sched.slots), sched.slots, index)
    {
      var reply := Handle(db, requests[k]);
      touched := touched || requests[k].Modify? || requests[k].Delete?;
    }
  }

  /** With at most 256 active servers, round robin gives every eligible server exactly one slot. */
  lemma RrEachOnce(servers: seq<Server>, rs: seq<nat>, g: nat, s: seq<nat>, i: nat)
    requires ActiveCount(servers) <= BUCKET_SIZE && i < |Eligible(servers)|
    requires Prescribes(RoundRobin, WeightsOf(Eligible(servers)), rs, g, s)
    ensures Slots(s, i) == 1 && |s| == |Eligible(servers)|
  {
    FewEligible(servers);
    RrOnce(|Eligible(servers)|, i);
  }

  /** The failure, on any round-robin service whose numbers are in order: after the deletion of a server
      in use and a change of the service that keeps its algorithm, the data plane is told of one slot
      more than there is. */
  method StaleCount(db: ServiceDb, addr: nat)
    requires db.Valid() && db.Current() && db.Counted() && db.stored == db.known && db.alg == RoundRobin
    requires Find(db.rows, addr) < |db.rows| && IsEligible(db.rows[Find(db.rows, addr)].server)
    modifies db, db.sched
    ensures db.Valid() && db.Current() && db.known == |db.s| + 1
  {
    hide Published, SameOutside, Eligible, ActiveCount, ServersOf, Prescribes, WeightsOf, Find;
    ghost var i := Find(db.rows, addr);
    FewEligible(ServersOf(db.rows));
    ReplaceRow(db.rows, i, Row(addr, db.rows[i].server.(active := false)));
    RrLength(Eligible(ServersOf(db.rows)), db.rs, db.g, db.s);
    var reply := db.DeleteServer(addr);
    RrLength(Eligible(ServersOf(db.rows)), db.rs, db.g, db.s);
    reply := db.ModifyService(RoundRobin);
  }

  /** The slots are what the algorithm prescribes for the servers, by whatever reduction of weights. */
  ghost predicate Agrees(slots: map<nat, nat>, index: nat, alg: Algorithm, servers: seq<Server>) {
    exists rs, g, s :: Prescribes(alg, WeightsOf(servers), rs, g, s) && Published(slots, index, servers, s)
  }

  // ---------------------------------------------------------------- hidden changes of weight

  lemma OneTooMany(slots: map<nat, nat>, index: nat, servers: seq<Server>, rs: seq<nat>, g: nat, s: seq<nat>, fewer: seq<Server>)
    requires Prescribes(RoundRobin, WeightsOf(servers), rs, g, s) && Published(slots, index, servers, s)
    requires |fewer| < |servers| <= BUCKET_SIZE
    ensures !Agrees(slots, index, RoundRobin, fewer)
  {
    hide Published, Prescribes;
    RrLength(servers, rs, g, s);
    forall rs', g', s' ensures !(Prescribes(RoundRobin, WeightsOf(fewer), rs', g', s') && Published(slots, index, fewer, s')) {
      if Prescribes(RoundRobin, WeightsOf(fewer), rs', g', s') && Published(slots, index, fewer, s') {
        RrLength(fewer, rs', g', s');
        SlotFilledIff(slots, index, servers, s, |fewer|, BUCKET_SIZE);
        SlotFilledIff(slots, index, fewer, s', |fewer|, BUCKET_SIZE);
      }
    }
  }

  ghost predicate DistinctIndexes(servers: seq<Server>) {
    forall i, j :: 0 <= i < j < |servers| ==> servers[i].npsIndex != servers[j].npsIndex
  }

  lemma {:induction false} EligibleDistinct(servers: seq<Server>)
    requires DistinctIndexes(servers)
    ensures DistinctIndexes(Eligible(servers))
  {
    if servers != [] {
      EligibleDistinct(servers[1..]);
      forall x | x in Eligible(servers[1..]) ensures x.npsIndex != servers[0].npsIndex {
        assert x in servers[1..];
      }
    }
  }

  /** The reduced weights all fit the bucket. */
  ghost predicate Fits(servers: seq<Server>) {
    servers != [] ==> exists rs, g :: Weights.Reduced(WeightsOf(servers), rs, g) && Sum(rs) <= BUCKET_SIZE
  }

  ghost predicate HaveWeights(servers: seq<Server>) {
    forall i :: 0 <= i < |servers| ==> servers[i].weight > 0
  }

  lemma FitsReduced(servers: seq<Server>, rs: seq<nat>, g: nat)
    requires Fits(servers) && servers != [] && HaveWeights(servers) && Weights.Reduced(WeightsOf(servers), rs, g)
    ensures Sum(rs) <= BUCKET_SIZE && Positive(rs) && |rs| == |servers| && g > 0
  {
    hide Sum, Weights.IsGcd;
    var rs', g' :| Weights.Reduced(WeightsOf(servers), rs', g') && Sum(rs') <= BUCKET_SIZE;
    Weights.ReducedUnique(WeightsOf(servers), rs, g, rs', g');
    ReducedPositive(servers, rs, g);
  }

  lemma ReducedPositive(servers: seq<Server>, rs: seq<nat>, g: nat)
    requires servers != [] && HaveWeights(servers) && Weights.Reduced(WeightsOf(servers), rs, g)
    ensures Positive(rs) && |rs| == |servers| && g > 0
  {
    forall i | 0 <= i < |rs| ensures rs[i] > 0 {
      assert WeightsOf(servers)[i] == g * rs[i];
    }
  }

  /** Slots published for the same servers, up to weights, hold one schedule only. */
  lemma SameSchedule(slots: map<nat, nat>, index: nat, servers: seq<Server>, s: seq<nat>, servers': seq<Server>, s': seq<nat>)
    requires Published(slots, index, servers, s) && Published(slots, index, servers', s') && DistinctIndexes(servers)
    requires |servers| == |servers'| && forall i :: 0 <= i < |servers| ==> servers[i].npsIndex == servers'[i].npsIndex
    ensures s == s'
  {
    if |s| < |s'| {
      SlotFilledIff(slots, index, servers, s, |s|, BUCKET_SIZE);
      SlotFilledIff(slots, index, servers', s', |s|, BUCKET_SIZE);
    } else if |s'| < |s| {
      SlotFilledIff(slots, index, servers, s, |s'|, BUCKET_SIZE);
      SlotFilledIff(slots, index, servers', s', |s'|, BUCKET_SIZE);
    }
    forall k | 0 <= k < |s| ensures s[k] == s'[k] {
      assert SlotIs(slots, index, servers, s, k) && SlotIs(slots, index, servers', s', k);
    }
  }

  /** A schedule that holds all the weights determines the reduced weights. */
  lemma ScheduleDetermines(alg: Algorithm, servers: seq<Server>, rs: seq<nat>, g: nat, servers': seq<Server>, rs': seq<nat>, g': nat,
                           s: seq<nat>)
    requires alg == WeightedRoundRobin || alg == SourceHash
    requires |servers| == |servers'| >= 2 && HaveWeights(servers) && HaveWeights(servers') && Fits(servers) && Fits(servers')
    requires Prescribes(alg, WeightsOf(servers), rs, g, s) && Prescribes(alg, WeightsOf(servers'), rs', g', s)
    ensures rs == rs' && Positive(rs) && |rs| == |servers| && g > 0 && g' > 0
  {
    hide Sum, Weights.Reduced, Expand, WrrSchedule, ShSchedule, Slots;
    FitsReduced(servers, rs, g);
    FitsReduced(servers', rs', g');
    if alg == WeightedRoundRobin {
      forall i | 0 <= i < |rs| ensures rs[i] == rs'[i] {
        WrrExact(rs, i);
        WrrExact(rs', i);
      }
    } else {
      ShDetermines(rs, rs', |rs|);
      assert rs[..|rs|] == rs && rs'[..|rs|] == rs';
    }
  }

  lemma SameDivisor(g: nat, g': nat, x: nat)
    requires x > 0 && g * x == g' * x
    ensures g == g'
  {
    assert x * g == x * g';
    Weights.SameFactor(x, g, g');
  }

  /** `servers'` differs from `servers` in the weight of server `p` only. */
  ghost predicate Reweighed(servers: seq<Server>, servers': seq<Server>, p: nat, weight: nat) {
    p < |servers| && servers' == servers[p := servers[p].(weight := weight)]
  }

  /** With another server beside it, a change of one weight that leaves the slots alone leaves them wrong. */
  lemma ChangeShows(slots: map<nat, nat>, index: nat, alg: Algorithm, servers: seq<Server>, rs: seq<nat>, g: nat, s: seq<nat>,
                    servers': seq<Server>, p: nat, weight: nat)
    requires alg == WeightedRoundRobin || alg == SourceHash
    requires Prescribes(alg, WeightsOf(servers), rs, g, s) && Published(slots, index, servers, s)
    requires HaveWeights(servers) && DistinctIndexes(servers) && |servers| >= 2 && Fits(servers) && Fits(servers')
    requires Reweighed(servers, servers', p, weight) && 0 < weight != servers[p].weight
    ensures !Agrees(slots, index, alg, servers')
  {
    hide Published, Fits, Sum, Prescribes, Weights.IsGcd;
    forall rs', g', s' ensures !(Prescribes(alg, WeightsOf(servers'), rs', g', s') && Published(slots, index, servers', s')) {
      if Prescribes(alg, WeightsOf(servers'), rs', g', s') && Published(slots, index, servers', s') {
        SameSchedule(slots, index, servers, s, servers', s');
        ScheduleDetermines(alg, servers, rs, g, servers', rs', g', s);
        Factors(alg, servers, rs, g, s);
        Factors(alg, servers', rs', g', s');
        var j := if p == 0 then 1 else 0;
        SameDivisor(g, g', rs[j]);
        assert false;
      }
    }
  }

  lemma Factors(alg: Algorithm, servers: seq<Server>, rs: seq<nat>, g: nat, s: seq<nat>)
    requires alg == WeightedRoundRobin || alg == SourceHash
    requires Prescribes(alg, WeightsOf(servers), rs, g, s) && servers != []
    ensures |rs| == |servers| && forall i :: 0 <= i < |servers| ==> servers[i].weight == g * rs[i]
  {
    assert forall i :: 0 <= i < |servers| ==> WeightsOf(servers)[i] == servers[i].weight;
  }

  /** Alone, a server has the same slots whatever its weight. */
  lemma AloneAgrees(slots: map<nat, nat>, index: nat, alg: Algorithm, servers: seq<Server>, rs: seq<nat>, g: nat, s: seq<nat>,
                    servers': seq<Server>, weight: nat)
    requires alg == WeightedRoundRobin || alg == SourceHash
    requires Prescribes(alg, WeightsOf(servers), rs, g, s) && Published(slots, index, servers, s)
    requires HaveWeights(servers) && |servers| == 1 && Reweighed(servers, servers', 0, weight) && weight > 0
    ensures Agrees(slots, index, alg, servers')
  {
    SingleReduced(servers, rs, g);
    assert WeightsOf(servers') == [weight];
    Weights.SingleGcd(weight);
    assert Weights.Reduced([weight], [1], weight);
    assert Prescribes(alg, WeightsOf(servers'), rs, weight, s);
    PublishedAgain(slots, index, servers, servers', s);
  }

  lemma SingleReduced(servers: seq<Server>, rs: seq<nat>, g: nat)
    requires |servers| == 1 && HaveWeights(servers) && Weights.Reduced(WeightsOf(servers), rs, g)
    ensures rs == [1]
  {
    var w := servers[0].weight;
    assert WeightsOf(servers) == [w];
    Weights.SingleGcd(w);
    assert Weights.Reduced([w], [1], w);
    Weights.ReducedUnique([w], rs, g, [1], w);
  }

  lemma PublishedAgain(slots: map<nat, nat>, index: nat, servers: seq<Server>, servers': seq<Server>, s: seq<nat>)
    requires Published(slots, index, servers, s)
    requires |servers| == |servers'| && forall i :: 0 <= i < |servers| ==> servers[i].npsIndex == servers'[i].npsIndex
    ensures Published(slots, index, servers', s)
  {
    forall k | 0 <= k < BUCKET_SIZE ensures SlotIs(slots, index, servers', s, k) {
      assert SlotIs(slots, index, servers, s, k);
    }
  }

  /** A server that had a slot and is gone leaves the slots wrong. */
  lemma GoneShows(slots: map<nat, nat>, index: nat, alg: Algorithm, servers: seq<Server>, s: seq<nat>, fewer: seq<Server>,
                  p: nat, k: nat)
    requires Published(slots, index, servers, s) && k < |s| && s[k] == p < |servers|
    requires forall i :: 0 <= i < |fewer| ==> fewer[i].npsIndex != servers[p].npsIndex
    ensures !Agrees(slots, index, alg, fewer)
  {
    assert SlotIs(slots, index, servers, s, k);
    forall rs', g', s' ensures !(Prescribes(alg, WeightsOf(fewer), rs', g', s') && Published(slots, index, fewer, s')) {
      var slot := SlotIs(slots, index, fewer, s', k);
    }
  }

  /** Every server has a slot if the reduced weights fit. */
  lemma HasSlot(alg: Algorithm, servers: seq<Server>, rs: seq<nat>, g: nat, s: seq<nat>, p: nat) returns (k: nat)
    requires alg == WeightedRoundRobin || alg == SourceHash
    requires Prescribes(alg, WeightsOf(servers), rs, g, s) && HaveWeights(servers) && Fits(servers) && p < |servers|
    ensures k < |s| && s[k] == p
  {
    hide Sum, Slots, Expand, WrrSchedule, ShSchedule, Fits, Weights.Reduced;
    FitsReduced(servers, rs, g);
    if alg == WeightedRoundRobin {
      WrrExact(rs, p);
      k := SlotOf(s, p);
    } else {
      ShAt(rs, p, 0);
      k := Before(rs, p);
    }
  }

  /** A change of weight that is not followed by a recalculation, on a server in use: when the slots are
      right nevertheless. */
  lemma HiddenExact(slots: map<nat, nat>, index: nat, alg: Algorithm, a: seq<Server>, x: Server, b: seq<Server>,
                    rs: seq<nat>, g: nat, s: seq<nat>, weight: nat)
    requires alg != Unsupported && weight != x.weight
    requires var servers := a + [x] + b;
      && Prescribes(alg, WeightsOf(servers), rs, g, s) && Published(slots, index, servers, s)
      && HaveWeights(servers) && DistinctIndexes(servers) && |servers| <= BUCKET_SIZE
    ensures var servers, after := a + [x] + b, if weight > 0 then a + [x.(weight := weight)] + b else a + b;
      && (alg == RoundRobin ==> (Agrees(slots, index, alg, after) <==> weight > 0))
      && (alg != RoundRobin && Fits(servers) && Fits(after) ==>
            (Agrees(slots, index, alg, after) <==> weight > 0 && |servers| == 1))
  {
    hide Prescribes, Published, Fits, Agrees;
    var servers, p := a + [x] + b, |a|;
    var after := if weight > 0 then a + [x.(weight := weight)] + b else a + b;
    if weight > 0 {
      assert after == servers[p := x.(weight := weight)];
      if alg == RoundRobin {
        RrAgrees(slots, index, servers, rs, g, s, after);
      } else if |servers| == 1 {
        AloneAgrees(slots, index, alg, servers, rs, g, s, after, weight);
      } else if Fits(servers) && Fits(after) {
        ChangeShows(slots, index, alg, servers, rs, g, s, after, p, weight);
      }
    } else if alg == RoundRobin {
      OneTooMany(slots, index, servers, rs, g, s, after);
    } else if Fits(servers) {
      var k := HasSlot(alg, servers, rs, g, s, p);
      forall i | 0 <= i < |after| ensures after[i].npsIndex != servers[p].npsIndex {
        assert after[i] == servers[if i < p then i else i + 1];
      }
      GoneShows(slots, index, alg, servers, s, after, p, k);
    }
  }

  lemma RrAgrees(slots: map<nat, nat>, index: nat, servers: seq<Server>, rs: seq<nat>, g: nat, s: seq<nat>, after: seq<Server>)
    requires Prescribes(RoundRobin, WeightsOf(servers), rs, g, s) && Published(slots, index, servers, s)
    requires |servers| == |after| && forall i :: 0 <= i < |servers| ==> servers[i].npsIndex == after[i].npsIndex
    ensures Agrees(slots, index, RoundRobin, after)
  {
    PublishedAgain(slots, index, servers, after, s);
    assert Prescribes(RoundRobin, WeightsOf(after), rs, g, s);
  }

  lemma Parts(rows: seq<Row>, i: nat, row: Row) returns (a: seq<Server>, b: seq<Server>)
    requires i < |rows| && IsEligible(rows[i].server)
    ensures Eligible(ServersOf(rows)) == a + [rows[i].server] + b
    ensures Eligible(ServersOf(rows[i := row])) == if IsEligible(row.server) then a + [row.server] + b else a + b
  {
    hide Eligible;
    var l, r := ServersOf(rows[..i]), ServersOf(rows[i + 1..]);
    var x, y := rows[i].server, row.server;
    assert ServersOf(rows) == l + ([x] + r);
    assert ServersOf(rows[i := row]) == l + ([y] + r);
    a, b := Eligible(l), Eligible(r);
    EligibleAround(l, x, r);
    EligibleAround(l, y, r);
  }

  lemma EligibleAround(l: seq<Server>, x: Server, r: seq<Server>)
    ensures Eligible(l + ([x] + r)) == if IsEligible(x) then Eligible(l) + [x] + Eligible(r) else Eligible(l) + Eligible(r)
  {
    hide Eligible, ActiveCount;
    SplitServers(l, [x] + r);
    SplitServers([x], r);
    OneServer(x);
    assert Eligible(l) + ([x] + Eligible(r)) == Eligible(l) + [x] + Eligible(r);
    assert [] + Eligible(r) == Eligible(r);
  }

  /** The other failure, exactly. After a change of the weight of an active server the slots are right iff
      the change is not hidden by the 8-bit comparison or, being hidden, makes no difference: under round
      robin because the server keeps a weight, otherwise, as far as the reduced weights fit the bucket,
      because it keeps one and is the only server in use. */
  method ModifyExactly(db: ServiceDb, addr: nat, weight: nat)
    requires db.Valid() && db.Current() && DistinctIndexes(ServersOf(db.rows))
    requires Find(db.rows, addr) < |db.rows| && db.rows[Find(db.rows, addr)].server.active
    modifies db, db.sched
    ensures db.Valid()
    ensures var before, after := Eligible(ServersOf(old(db.rows))), Eligible(ServersOf(db.rows));
      var hidden := Hidden(old(db.rows[Find(db.rows, addr)].server.weight), weight);
      && (db.alg == RoundRobin ==>
            (Agrees(db.sched.slots, db.index, db.alg, after) <==> !hidden || weight > 0))
      && (db.alg != RoundRobin && Fits(before) && Fits(after) ==>
            (Agrees(db.sched.slots, db.index, db.alg, after) <==> !hidden || (weight > 0 && |before| == 1)))
  {
    hide Published, SameOutside, Eligible, ActiveCount, ServersOf, Prescribes, WeightsOf, Find, Fits, Agrees, DistinctIndexes;
    ghost var i := Find(db.rows, addr);
    ghost var servers, x, rows := Eligible(ServersOf(db.rows)), db.rows[i].server, db.rows;
    ghost var rs, g, s := db.rs, db.g, db.s;
    FewEligible(ServersOf(db.rows));
    EligibleDistinct(ServersOf(db.rows));
    var reply := db.ModifyServer(addr, weight);
    ghost var after := Eligible(ServersOf(db.rows));
    if Hidden(x.weight, weight) {
      ghost var a, b := Parts(rows, i, Row(addr, x.(weight := weight)));
      HiddenExact(db.sched.slots, db.index, db.alg, a, x, b, rs, g, s, weight);
    } else {
      CurrentAgrees(db.sched.slots, db.index, db.alg, after, db.rs, db.g, db.s);
    }
  }

  lemma CurrentAgrees(slots: map<nat, nat>, index: nat, alg: Algorithm, servers: seq<Server>, rs: seq<nat>, g: nat, s: seq<nat>)
    requires Prescribes(alg, WeightsOf(servers), rs, g, s) && Published(slots, index, servers, s)
    ensures Agrees(slots, index, alg, servers)
  {
  }

  lemma RrLength(servers: seq<Server>, rs: seq<nat>, g: nat, s: seq<nat>)
    requires Prescribes(RoundRobin, WeightsOf(servers), rs, g, s) && |servers| <= BUCKET_SIZE
    ensures |s| == |servers|
  {
  }
}
