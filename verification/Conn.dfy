/** Connections: a classification hash, an info table, an index allocator and per-server counters that
    are updated separately and have to agree. */
module Conn {
  import opened Common
  import opened Overload

  const ESTABLISHED: nat := 1
  const CLOSE_WAIT: nat := 7

  const F_INACTIVE: bv32 := 0x0100

  datatype Key = Key(clientIp: nat, virtualIp: nat, clientPort: nat, virtualPort: nat, protocol: nat)

  /** An entry of the connection info table. `server` is the server's index when the connection is bound
      and the server's address otherwise. */
  datatype Info = Info(
    bound: bool, server: nat, port: nat, key: Key, state: nat, flags: bv32,
    aging: bool, delete: bool, reset: bool, ageIteration: nat)

  datatype ServerInfo = ServerInfo(ip: nat, port: nat, available: bool, connFlags: bv32, t: Thresholds)

  /** The counters of a server; `load.counter` is its total of connections. */
  datatype Stats = Stats(sched: int, active: int, inactive: int, load: Load)

  function SetInactive(f: bv32): (r: bv32)
    ensures IsInactive(r)
  {
    f | F_INACTIVE
  }

  function ClearInactive(f: bv32): (r: bv32)
    ensures !IsInactive(r)
  {
    f & !F_INACTIVE
  }

  predicate IsInactive(f: bv32) {
    f & F_INACTIVE != 0
  }

  // ---------------------------------------------------------------- what happens to one entry

  function NewEntry(bound: bool, server: nat, port: nat, key: Key, state: nat, flags: bv32, reset: bool): Info {
    Info(bound, server, port, key, state,
         if state == ESTABLISHED then ClearInactive(flags) else SetInactive(flags),
         true, reset, reset, 0)
  }

  function Refreshed(e: Info): Info {
    e.(aging := true, delete := false)
  }

  function Closing(e: Info): Info {
    if e.state == CLOSE_WAIT || e.delete then e
    else e.(delete := false, aging := true, state := CLOSE_WAIT, flags := SetInactive(e.flags))
  }

  function Doomed(e: Info, reset: bool): Info {
    if e.delete then e
    else
      var d := e.(aging := false, delete := true, reset := reset);
      if reset && e.state == ESTABLISHED then d.(state := CLOSE_WAIT, flags := SetInactive(e.flags)) else d
  }

  /** What a packet does to the entry of its connection. */
  function Touched(e: Info, fin: bool, rst: bool, available: bool): Info {
    if e.reset then e
    else if !available then Doomed(e, false)
    else if rst then Doomed(e, true)
    else if e.state == ESTABLISHED && fin then Closing(e)
    else if !e.aging then Refreshed(e)
    else e
  }

  /** The marks of an entry that packets and scans leave: a reset one is to be deleted, and one to be
      deleted for another reason is not marked active. */
  predicate Marked(e: Info) {
    && (e.reset ==> e.delete)
    && (e.delete && !e.reset ==> !e.aging)
  }

  datatype Segment = Segment(fin: bool, rst: bool, available: bool)

  /** What a run of packets does to the entry of their connection. */
  function TouchedBy(e: Info, packets: seq<Segment>): Info {
    if packets == [] then e
    else
      var last := packets[|packets| - 1];
      Touched(TouchedBy(e, packets[..|packets| - 1]), last.fin, last.rst, last.available)
  }

  /** No packet reopens a closing connection, and none touches a reset one. */
  lemma {:induction false} NeverReopens(e: Info, packets: seq<Segment>)
    requires Marked(e)
    ensures Marked(TouchedBy(e, packets))
    ensures e.state == CLOSE_WAIT ==> TouchedBy(e, packets).state == CLOSE_WAIT
    ensures e.reset ==> TouchedBy(e, packets) == e
  {
    if packets != [] { NeverReopens(e, packets[..|packets| - 1]); }
  }

  // ---------------------------------------------------------------- counting entries

  function ActiveOn(infos: map<nat, Info>, s: nat): set<nat> {
    set i | i in infos && infos[i].server == s && infos[i].state == ESTABLISHED
  }

  function InactiveOn(infos: map<nat, Info>, s: nat): set<nat> {
    set i | i in infos && infos[i].server == s && infos[i].state != ESTABLISHED
  }

  /** What one entry contributes to the counters of server `s`. */
  function ActiveShare(e: Info, s: nat): int {
    if e.server == s && e.state == ESTABLISHED then 1 else 0
  }

  function InactiveShare(e: Info, s: nat): int {
    if e.server == s && e.state != ESTABLISHED then 1 else 0
  }

  lemma CountWithout(infos: map<nat, Info>, i: nat, s: nat)
    requires i in infos
    ensures |ActiveOn(infos - {i}, s)| == |ActiveOn(infos, s)| - ActiveShare(infos[i], s)
    ensures |InactiveOn(infos - {i}, s)| == |InactiveOn(infos, s)| - InactiveShare(infos[i], s)
  {
    ActiveWithout(infos, i, s);
    InactiveWithout(infos, i, s);
  }

  lemma ActiveWithout(infos: map<nat, Info>, i: nat, s: nat)
    requires i in infos
    ensures |ActiveOn(infos - {i}, s)| == |ActiveOn(infos, s)| - ActiveShare(infos[i], s)
  {
    assert ActiveOn(infos - {i}, s) == ActiveOn(infos, s) - {i};
  }

  lemma InactiveWithout(infos: map<nat, Info>, i: nat, s: nat)
    requires i in infos
    ensures |InactiveOn(infos - {i}, s)| == |InactiveOn(infos, s)| - InactiveShare(infos[i], s)
  {
    assert InactiveOn(infos - {i}, s) == InactiveOn(infos, s) - {i};
  }

  lemma CountWith(infos: map<nat, Info>, i: nat, e: Info, s: nat)
    requires i !in infos
    ensures |ActiveOn(infos[i := e], s)| == |ActiveOn(infos, s)| + ActiveShare(e, s)
    ensures |InactiveOn(infos[i := e], s)| == |InactiveOn(infos, s)| + InactiveShare(e, s)
  {
    assert infos[i := e] - {i} == infos;
    CountWithout(infos[i := e], i, s);
  }

  /** The counters of every server agree with the info table, and its load is within its thresholds. */
  ghost predicate Balanced(stats: map<nat, Stats>, infos: map<nat, Info>) {
    forall s :: s in stats ==>
      && stats[s].active == |ActiveOn(infos, s)|
      && stats[s].inactive == |InactiveOn(infos, s)|
  }

  /** `alvs_update_connection_statistics` on server `s`. */
  function Charge(stats: map<nat, Stats>, s: nat, sched: int, active: int, inactive: int): (r: map<nat, Stats>)
    requires s in stats
    ensures r.Keys == stats.Keys
  {
    var x := stats[s];
    stats[s := x.(sched := x.sched + sched, active := x.active + active, inactive := x.inactive + inactive)]
  }

  lemma BalancedWith(stats: map<nat, Stats>, infos: map<nat, Info>, i: nat, e: Info, sched: int)
    requires Balanced(stats, infos) && i !in infos && e.server in stats
    ensures Balanced(Charge(stats, e.server, sched, ActiveShare(e, e.server), InactiveShare(e, e.server)), infos[i := e])
  {
    forall s | s in stats { CountWith(infos, i, e, s); }
  }

  lemma BalancedWithout(stats: map<nat, Stats>, infos: map<nat, Info>, i: nat)
    requires Balanced(stats, infos) && i in infos && infos[i].server in stats
    ensures var e := infos[i];
      Balanced(Charge(stats, e.server, 0, -ActiveShare(e, e.server), -InactiveShare(e, e.server)), infos - {i})
  {
    forall s | s in stats { CountWithout(infos, i, s); }
  }

  /** Replacing an entry on the same server moves it between the two counts, or leaves both. */
  lemma BalancedUpdate(stats: map<nat, Stats>, infos: map<nat, Info>, i: nat, e: Info, d: int)
    requires Balanced(stats, infos) && i in infos && e.server == infos[i].server && e.server in stats
    requires d == ActiveShare(e, e.server) - ActiveShare(infos[i], e.server)
    ensures Balanced(Charge(stats, e.server, 0, d, -d), infos[i := e])
  {
    var rest := infos - {i};
    assert rest[i := e] == infos[i := e];
    forall s | s in stats
      ensures |ActiveOn(infos[i := e], s)| == |ActiveOn(infos, s)| - ActiveShare(infos[i], s) + ActiveShare(e, s)
      ensures |InactiveOn(infos[i := e], s)| == |InactiveOn(infos, s)| - InactiveShare(infos[i], s) + InactiveShare(e, s)
    {
      CountWithout(infos, i, s);
      CountWith(rest, i, e, s);
    }
  }

  // ---------------------------------------------------------------- agreement of the tables

  /** An index is allocated iff an info entry stands there iff exactly one key leads to it, and the
      entry stores that key. */
  ghost predicate Linked(hash: map<Key, nat>, infos: map<nat, Info>, pool: set<nat>) {
    && infos.Keys == pool
    && (forall k :: k in hash ==> hash[k] in infos && infos[hash[k]].key == k)
    && (forall i :: i in infos ==> infos[i].key in hash && hash[infos[i].key] == i)
  }

  /** The connections the three tables stand for. */
  ghost function View(hash: map<Key, nat>, infos: map<nat, Info>): map<Key, Info>
    requires forall k :: k in hash ==> hash[k] in infos
  {
    map k | k in hash :: infos[hash[k]]
  }

  lemma LinkedWith(hash: map<Key, nat>, infos: map<nat, Info>, pool: set<nat>, i: nat, e: Info)
    requires Linked(hash, infos, pool) && i !in pool && e.key !in hash
    ensures Linked(hash[e.key := i], infos[i := e], pool + {i})
    ensures View(hash[e.key := i], infos[i := e]) == View(hash, infos)[e.key := e]
  {
  }

  lemma LinkedWithout(hash: map<Key, nat>, infos: map<nat, Info>, pool: set<nat>, i: nat)
    requires Linked(hash, infos, pool) && i in infos
    ensures Linked(hash - {infos[i].key}, infos - {i}, pool - {i})
    ensures View(hash - {infos[i].key}, infos - {i}) == View(hash, infos) - {infos[i].key}
  {
  }

  lemma LinkedUpdate(hash: map<Key, nat>, infos: map<nat, Info>, pool: set<nat>, i: nat, e: Info)
    requires Linked(hash, infos, pool) && i in infos && e.key == infos[i].key
    ensures Linked(hash, infos[i := e], pool)
    ensures View(hash, infos[i := e]) == View(hash, infos)[e.key := e]
  {
  }

  /** Entries as packets create them: bound to a known server, in one of two states, with an INACTIVE
      flag that agrees with the state. */
  ghost predicate GoodEntry(e: Info, servers: set<nat>) {
    && e.bound
    && e.server in servers
    && (e.state == ESTABLISHED || e.state == CLOSE_WAIT)
    && (IsInactive(e.flags) <==> e.state != ESTABLISHED)
  }

  ghost predicate GoodEntries(infos: map<nat, Info>, servers: set<nat>) {
    forall i :: i in infos ==> GoodEntry(infos[i], servers)
  }

  /** Every server's total is the sum of its two counts, plus one for a server just admitted to, and
      its load is as a run without interference leaves it. */
  ghost predicate Loaded(servers: map<nat, ServerInfo>, stats: map<nat, Stats>, admitted: Option<nat>) {
    && stats.Keys == servers.Keys
    && forall s :: s in stats ==>
      && servers[s].t.l <= servers[s].t.u
      && Hysteresis(servers[s].t, stats[s].load)
      && stats[s].load.counter == stats[s].active + stats[s].inactive + if admitted == Some(s) then 1 else 0
  }
}
