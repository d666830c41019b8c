/** From the master's aging event to the backup's tables. */
module Mirror {
  import opened Common
  import opened Conn
  import opened SyncWire
  import opened SyncRecord
  import SyncBackup
  import opened SyncRoundTrip
  import SyncMaster
  import Aging
  import ConnTable

  /** The backup's index allocator: a free index for every set of allocated ones. */
  ghost predicate IsAlloc(alloc: set<nat> -> nat) {
    forall p :: alloc(p) !in p
  }

  /** Processing of a record by the backup, in the form its parser takes it. */
  function Processing(sv: Servers, alloc: set<nat> -> nat): SyncBackup.Processor<State> {
    (st: State, r: SyncConn) =>
      if st.stats.Keys == sv.info.Keys then Process(sv, st, r, alloc(st.pool)) else (st, 0)
  }

  /** Tables of the backup whose bound connections are on known servers. */
  ghost predicate Good(sv: Servers, st: State) {
    && st.Valid(sv)
    && forall i :: i in st.infos && st.infos[i].bound ==> st.infos[i].server in sv.info
  }

  /** A record of the kind a master writes. */
  predicate Proper(r: SyncConn) {
    Refusal(r) == 0 && FlagAgrees(r)
  }

  lemma ProcessKeepsGood(sv: Servers, st: State, r: SyncConn, pick: nat)
    requires sv.Consistent() && Good(sv, st) && pick !in st.pool
    ensures Good(sv, Process(sv, st, r, pick).0)
  {
    hide Linked, IsInactive, FlagsOf, RawFlags, NewEntry;
    ProcessKeepsLinked(sv, st, r, Some(pick), None);
    Shape(sv, st);
    EntryServer(sv, r);
  }

  /** Processing a record leaves every other connection as it is. */
  lemma OthersStay(sv: Servers, st: State, r: SyncConn, pick: nat, q: SyncConn)
    requires sv.Consistent() && Good(sv, st) && pick !in st.pool && KeyOf(q) != KeyOf(r) && Mirrored(sv, st, q)
    ensures Mirrored(sv, Process(sv, st, r, pick).0, q)
  {
    hide Linked, IsInactive, FlagsOf, RawFlags, EntryOf, Updated;
    EntryServer(sv, r);
    ProcessKeepsLinked(sv, st, r, Some(pick), None);
    Shape(sv, st);
    var i := st.hash[KeyOf(q)];
    var st' := Process(sv, st, r, pick).0;
    assert KeyOf(q) in st'.hash && st'.hash[KeyOf(q)] == i && st'.infos[i] == st.infos[i];
  }

  predicate DistinctKeys(rs: seq<SyncConn>) {
    forall i, j :: 0 <= i < j < |rs| ==> KeyOf(rs[i]) != KeyOf(rs[j])
  }

  lemma {:induction false} FoldKeeps(sv: Servers, alloc: set<nat> -> nat, rs: seq<SyncConn>, st: State, q: SyncConn)
    requires sv.Consistent() && IsAlloc(alloc) && Good(sv, st) && Mirrored(sv, st, q)
    requires forall i :: 0 <= i < |rs| ==> KeyOf(rs[i]) != KeyOf(q)
    ensures Mirrored(sv, Fold(rs, Processing(sv, alloc), st), q)
  {
    hide Good, Mirrored, Process;
    if rs != [] {
      GoodKeys(sv, st);
      var st' := Process(sv, st, rs[0], alloc(st.pool)).0;
      ProcessKeepsGood(sv, st, rs[0], alloc(st.pool));
      OthersStay(sv, st, rs[0], alloc(st.pool), q);
      FoldKeeps(sv, alloc, rs[1..], st', q);
    }
  }

  lemma GoodKeys(sv: Servers, st: State)
    requires Good(sv, st)
    ensures st.stats.Keys == sv.info.Keys
  {
  }

  /** Once the records of distinct connections have been processed, the backup has each connection whose
      record is not marked inactive, on the same server and in the same state as the master. */
  lemma {:induction false} FoldMirrors(sv: Servers, alloc: set<nat> -> nat, rs: seq<SyncConn>, st: State, j: nat)
    requires sv.Consistent() && IsAlloc(alloc) && Good(sv, st) && DistinctKeys(rs)
    requires forall i :: 0 <= i < |rs| ==> Proper(rs[i])
    requires j < |rs| && !IsInactive(RawFlags(rs[j]))
    ensures Mirrored(sv, Fold(rs, Processing(sv, alloc), st), rs[j])
  {
    hide Mirrored, Process, IsInactive, RawFlags, FlagAgrees, Refusal;
    GoodKeys(sv, st);
    var st' := Process(sv, st, rs[0], alloc(st.pool)).0;
    ProcessKeepsGood(sv, st, rs[0], alloc(st.pool));
    if j == 0 {
      ProcessMirrors(sv, st, rs[0], alloc(st.pool));
      ActiveIsTaken(sv, st, rs[0]);
      FoldKeeps(sv, alloc, rs[1..], st', rs[0]);
    } else {
      FoldMirrors(sv, alloc, rs[1..], st', j - 1);
    }
  }

  lemma ActiveIsTaken(sv: Servers, st: State, r: SyncConn)
    requires Good(sv, st) && Refusal(r) == 0 && !IsInactive(RawFlags(r))
    ensures Creates(sv, st, r) || Settled(sv, st, r)
  {
    hide Linked;
    Shape(sv, st);
  }

  lemma NeverGivesUp(sv: Servers, alloc: set<nat> -> nat, st: State, r: SyncConn)
    requires Proper(r)
    ensures Processing(sv, alloc)(st, r).1 >= 0
  {
  }

  /** The master's entries and servers fit the wire format. */
  ghost predicate Sendable(infos: map<nat, Info>, servers: map<nat, ServerInfo>) {
    && (forall i :: i in infos ==> Encodable(infos[i]) && (infos[i].key.protocol == PROTO_TCP || infos[i].key.protocol == PROTO_UDP))
    && (forall s :: s in servers ==> servers[s].ip < 0x1_0000_0000 && servers[s].port < 0x1_0000)
  }

  /** The record of the entry at `i`. */
  function RecordAt(infos: map<nat, Info>, servers: map<nat, ServerInfo>, i: nat): SyncConn
    requires i in infos && infos[i].server in servers && Encodable(infos[i])
    requires servers[infos[i].server].ip < 0x1_0000_0000 && servers[infos[i].server].port < 0x1_0000
  {
    RecordOf(infos[i], servers[infos[i].server].ip, servers[infos[i].server].port)
  }

  /** The scan changes nothing that a record tells. */
  lemma ScannedEntry(infos: map<nat, Info>, servers: map<nat, ServerInfo>, aged: seq<nat>, lo: nat, hi: nat, iteration: nat, i: nat)
    requires ConnTable.AgedIn(aged, infos, lo, hi, iteration) && i in aged && Sendable(infos, servers)
    requires infos[i].server in servers
    ensures var now := ConnTable.ScannedAll(infos, lo, hi, iteration);
      && i in now && now[i].server == infos[i].server && Encodable(now[i])
      && RecordAt(now, servers, i) == RecordAt(infos, servers, i)
  {
  }

  lemma EntryRecord(infos: map<nat, Info>, servers: map<nat, ServerInfo>, i: nat)
    requires i in infos && Sendable(infos, servers) && GoodEntries(infos, servers.Keys)
    ensures GoodEntry(infos[i], servers.Keys)
    ensures var r := RecordAt(infos, servers, i);
      Proper(r) && KeyOf(r) == infos[i].key && RawFlags(r) == infos[i].flags
  {
    RecordIsGood(infos[i], servers[infos[i].server].ip, servers[infos[i].server].port, servers.Keys);
  }

  lemma KeysDiffer(hash: map<Key, nat>, infos: map<nat, Info>, pool: set<nat>, i: nat, j: nat)
    requires Linked(hash, infos, pool) && i in infos && j in infos && i != j
    ensures infos[i].key != infos[j].key
  {
  }

  /** The records of the indices `aged`. */
  method Collect(infos: map<nat, Info>, servers: map<nat, ServerInfo>, aged: seq<nat>) returns (rs: seq<SyncConn>)
    requires Sendable(infos, servers) && GoodEntries(infos, servers.Keys)
    requires forall i :: i in aged ==> i in infos
    ensures |rs| == |aged| && forall x :: 0 <= x < |aged| ==> infos[aged[x]].server in servers && rs[x] == RecordAt(infos, servers, aged[x])
  {
    rs := [];
    for x := 0 to |aged|
      invariant |rs| == x
      invariant forall y :: 0 <= y < x ==> infos[aged[y]].server in servers && rs[y] == RecordAt(infos, servers, aged[y])
    {
      EntryRecord(infos, servers, aged[x]);
      rs := rs + [RecordAt(infos, servers, aged[x])];
    }
  }

  lemma RecordsProper(hash: map<Key, nat>, infos: map<nat, Info>, pool: set<nat>, servers: map<nat, ServerInfo>,
                      aged: seq<nat>, rs: seq<SyncConn>)
    requires Linked(hash, infos, pool) && Sendable(infos, servers) && GoodEntries(infos, servers.Keys)
    requires forall i :: i in aged ==> i in infos
    requires forall x, y :: 0 <= x < y < |aged| ==> aged[x] < aged[y]
    requires |rs| == |aged|
    requires forall x :: 0 <= x < |aged| ==> infos[aged[x]].server in servers && rs[x] == RecordAt(infos, servers, aged[x])
    ensures DistinctKeys(rs) && forall x :: 0 <= x < |rs| ==> Proper(rs[x])
  {
    hide Linked, Sendable, Proper;
    forall x | 0 <= x < |rs| ensures Proper(rs[x]) && KeyOf(rs[x]) == infos[aged[x]].key {
      EntryRecord(infos, servers, aged[x]);
    }
    forall x, y | 0 <= x < y < |rs| ensures KeyOf(rs[x]) != KeyOf(rs[y]) {
      assert aged[x] in aged && aged[y] in aged;
      KeysDiffer(hash, infos, pool, aged[x], aged[y]);
    }
  }

  lemma ScannedSendable(infos: map<nat, Info>, servers: map<nat, ServerInfo>, lo: nat, hi: nat, iteration: nat)
    requires Sendable(infos, servers)
    ensures Sendable(ConnTable.ScannedAll(infos, lo, hi, iteration), servers)
  {
  }

  lemma {:induction false} FoldGood(sv: Servers, alloc: set<nat> -> nat, rs: seq<SyncConn>, st: State)
    requires sv.Consistent() && IsAlloc(alloc) && Good(sv, st)
    ensures Good(sv, Fold(rs, Processing(sv, alloc), st))
  {
    hide Good, Process;
    if rs != [] {
      GoodKeys(sv, st);
      ProcessKeepsGood(sv, st, rs[0], alloc(st.pool));
      FoldGood(sv, alloc, rs[1..], Process(sv, st, rs[0], alloc(st.pool)).0);
    }
  }

  /** No entry is marked for deletion. */
  ghost predicate Unmarked(st: State) {
    forall i :: i in st.infos ==> !st.infos[i].delete
  }

  lemma ProcessKeepsUnmarked(sv: Servers, st: State, r: SyncConn, pick: nat)
    requires st.stats.Keys == sv.info.Keys && Unmarked(st)
    ensures Unmarked(Process(sv, st, r, pick).0)
  {
    hide IsInactive, FlagsOf, RawFlags, ServerOf, KeyOf, Charge;
  }

  lemma {:induction false} FoldUnmarked(sv: Servers, alloc: set<nat> -> nat, rs: seq<SyncConn>, st: State)
    requires sv.Consistent() && IsAlloc(alloc) && Good(sv, st) && Unmarked(st)
    ensures Unmarked(Fold(rs, Processing(sv, alloc), st))
  {
    hide Good, Process, Unmarked;
    if rs != [] {
      GoodKeys(sv, st);
      ProcessKeepsGood(sv, st, rs[0], alloc(st.pool));
      ProcessKeepsUnmarked(sv, st, rs[0], alloc(st.pool));
      FoldUnmarked(sv, alloc, rs[1..], Process(sv, st, rs[0], alloc(st.pool)).0);
    }
  }

  /** Aging event `id` finds the connection at index `i` established and in use. */
  predicate FoundInUse(infos: map<nat, Info>, id: nat, i: nat) {
    && i in infos
    && Aging.Scans(id, i)
    && infos[i].aging && !infos[i].delete
    && infos[i].state == ESTABLISHED
  }

  /** The backup has the connection established and in use, on the server at `ip` and `port`. */
  ghost predicate HasOn(sv: Servers, st: State, key: Key, ip: nat, port: nat) {
    && key in st.hash && st.hash[key] in st.infos
    && var e := st.infos[st.hash[key]];
    && e.key == key && e.state == ESTABLISHED && !IsInactive(e.flags) && e.aging
    && if e.bound then e.server in sv.info && sv.info[e.server].ip == ip && sv.info[e.server].port == port
       else e.server == ip && e.port == port
  }

  /** The backup has every connection that event `id` finds established and in use, on the server it has
      on the master. */
  ghost predicate MirrorsAll(sv: Servers, st: State, infos: map<nat, Info>, servers: map<nat, ServerInfo>, id: nat) {
    forall i :: FoundInUse(infos, id, i) ==>
      && infos[i].server in servers
      && HasOn(sv, st, infos[i].key, servers[infos[i].server].ip, servers[infos[i].server].port)
  }

  lemma MirroredHas(sv: Servers, st: State, infos: map<nat, Info>, servers: map<nat, ServerInfo>, i: nat)
    requires Sendable(infos, servers) && GoodEntries(infos, servers.Keys) && i in infos && infos[i].state == ESTABLISHED
    requires infos[i].server in servers && Mirrored(sv, st, RecordAt(infos, servers, i))
    ensures HasOn(sv, st, infos[i].key, servers[infos[i].server].ip, servers[infos[i].server].port)
  {
    hide Linked, IsInactive, RawFlags, GoodEntries, Sendable;
    EntryRecord(infos, servers, i);
    RecordFields(infos, servers, i);
    Shape(sv, st);
  }

  lemma RecordFields(infos: map<nat, Info>, servers: map<nat, ServerInfo>, i: nat)
    requires Sendable(infos, servers) && GoodEntries(infos, servers.Keys) && i in infos
    ensures infos[i].server in servers
    ensures var r, server := RecordAt(infos, servers, i), servers[infos[i].server];
      && r.state == infos[i].state < 0x100 && (r.serverAddr, r.serverPort) == (server.ip, server.port)
      && ServerKeyOf(r) == ServerKey(server.ip, infos[i].key.virtualIp, server.port, infos[i].key.virtualPort, infos[i].key.protocol)
      && (IsInactive(RawFlags(r)) <==> infos[i].state != ESTABLISHED)
  {
    RecordIsGood(infos[i], servers[infos[i].server].ip, servers[infos[i].server].port, servers.Keys);
  }

  // ---------------------------------------------------------------- the backup's counters

  /** All entries are bound, and the counters of every server count them by state. */
  ghost predicate Accurate(sv: Servers, st: State) {
    Counts(st) && FlagsRight(sv, st.infos) && forall i :: i in st.infos ==> st.infos[i].bound
  }

  lemma ProcessKeepsAccurate(sv: Servers, st: State, r: SyncConn, pick: nat)
    requires sv.Consistent() && Good(sv, st) && pick !in st.pool && Accurate(sv, st)
    requires Proper(r) && r.state < 0x100 && ServerKeyOf(r) in sv.index
    ensures Accurate(sv, Process(sv, st, r, pick).0)
  {
    hide Linked, IsInactive, RawFlags, Counts, Creates;
    Shape(sv, st);
    CountsKept(sv, st, r, Some(pick), None);
    ProcessEntries(sv, st, r, pick);
  }

  /** The entries after a record: as before, or the one created, or the one updated. */
  lemma ProcessEntries(sv: Servers, st: State, r: SyncConn, pick: nat)
    requires sv.Consistent() && Good(sv, st) && FlagsRight(sv, st.infos) && (forall i :: i in st.infos ==> st.infos[i].bound)
    requires Proper(r) && r.state < 0x100 && ServerKeyOf(r) in sv.index
    ensures var infos := Process(sv, st, r, pick).0.infos;
      FlagsRight(sv, infos) && forall i :: i in infos ==> infos[i].bound
  {
    hide Process, IsInactive, RawFlags, EntryOf, Updated, Linked;
    ProcessShape(sv, st, r, pick);
    MadeRight(sv, r);
    if KeyOf(r) in st.hash && st.hash[KeyOf(r)] in st.infos {
      UpdatedRight(sv, st.infos[st.hash[KeyOf(r)]], r);
    }
  }

  lemma ProcessShape(sv: Servers, st: State, r: SyncConn, pick: nat)
    requires sv.Consistent() && st.Valid(sv)
    ensures var n := Process(sv, st, r, pick).0.infos;
      || n == st.infos
      || n == st.infos[pick := EntryOf(sv, r)]
      || (KeyOf(r) in st.hash && st.hash[KeyOf(r)] in st.infos &&
          var i := st.hash[KeyOf(r)];
          n == st.infos[i := Updated(sv, st.infos[i], r)] || n == (st.infos - {i})[pick := EntryOf(sv, r)])
  {
    hide Linked, IsInactive, RawFlags, EntryOf, Updated, Charge, ActiveShare, InactiveShare;
    Shape(sv, st);
  }

  lemma MadeRight(sv: Servers, r: SyncConn)
    requires sv.Consistent() && FlagAgrees(r) && r.state < 0x100 && ServerKeyOf(r) in sv.index
    ensures var e := EntryOf(sv, r); e.bound && e.server in sv.info && (IsInactive(e.flags) <==> e.state != ESTABLISHED)
  {
    hide IsInactive, RawFlags, TakesFlags;
    EntryServer(sv, r);
    MadeFromRecord(sv, r);
  }

  lemma UpdatedRight(sv: Servers, e: Info, r: SyncConn)
    requires e.bound && FlagAgrees(r) && r.state < 0x100
    ensures var n := Updated(sv, e, r); n.bound && n.server == e.server && (IsInactive(n.flags) <==> n.state != ESTABLISHED)
  {
    hide IsInactive, RawFlags, FlagsOf, Merge;
    FlagFacts(r);
    UpdatedTwice(sv, e, r);
  }

  lemma {:induction false} FoldAccurate(sv: Servers, alloc: set<nat> -> nat, rs: seq<SyncConn>, st: State)
    requires sv.Consistent() && IsAlloc(alloc) && Good(sv, st) && Accurate(sv, st)
    requires forall x :: 0 <= x < |rs| ==> Proper(rs[x]) && rs[x].state < 0x100 && ServerKeyOf(rs[x]) in sv.index
    ensures Accurate(sv, Fold(rs, Processing(sv, alloc), st))
  {
    hide Good, Process, Accurate, Proper, ServerKeyOf;
    if rs != [] {
      GoodKeys(sv, st);
      ProcessKeepsGood(sv, st, rs[0], alloc(st.pool));
      ProcessKeepsAccurate(sv, st, rs[0], alloc(st.pool));
      FoldAccurate(sv, alloc, rs[1..], Process(sv, st, rs[0], alloc(st.pool)).0);
    }
  }

  /** The backup knows the servers of all the master's connections. */
  ghost predicate KnowsAll(sv: Servers, infos: map<nat, Info>, servers: map<nat, ServerInfo>) {
    forall i :: i in infos && infos[i].server in servers ==>
      var s, k := servers[infos[i].server], infos[i].key;
      ServerKey(s.ip, k.virtualIp, s.port, k.virtualPort, k.protocol) in sv.index
  }

  lemma EventAccurate(sv: Servers, alloc: set<nat> -> nat, st: State, infos: map<nat, Info>, servers: map<nat, ServerInfo>,
                      aged: seq<nat>, rs: seq<SyncConn>)
    requires sv.Consistent() && IsAlloc(alloc) && Good(sv, st) && Accurate(sv, st) && KnowsAll(sv, infos, servers)
    requires Sendable(infos, servers) && GoodEntries(infos, servers.Keys)
    requires |rs| == |aged| && forall x :: 0 <= x < |rs| ==> Proper(rs[x])
    requires forall x :: 0 <= x < |aged| ==> aged[x] in infos && infos[aged[x]].server in servers && rs[x] == RecordAt(infos, servers, aged[x])
    ensures Accurate(sv, Fold(rs, Processing(sv, alloc), st))
  {
    hide Good, Accurate, Proper, RecordAt, IsInactive, GoodEntries;
    forall x | 0 <= x < |rs| ensures rs[x].state < 0x100 && ServerKeyOf(rs[x]) in sv.index {
      RecordFields(infos, servers, aged[x]);
    }
    FoldAccurate(sv, alloc, rs, st);
  }

  lemma EventMirrors(sv: Servers, alloc: set<nat> -> nat, st: State, infos: map<nat, Info>, servers: map<nat, ServerInfo>,
                     id: nat, aged: seq<nat>, rs: seq<SyncConn>)
    requires sv.Consistent() && IsAlloc(alloc) && Good(sv, st)
    requires Sendable(infos, servers) && GoodEntries(infos, servers.Keys)
    requires ConnTable.AgedIn(aged, infos, Aging.FirstIndex(id), Aging.FirstIndex(id) + Aging.ENTRIES_PER_JOB, Aging.IterationNum(id))
    requires |rs| == |aged| && DistinctKeys(rs) && forall x :: 0 <= x < |rs| ==> Proper(rs[x])
    requires forall x :: 0 <= x < |aged| ==> aged[x] in infos && infos[aged[x]].server in servers && rs[x] == RecordAt(infos, servers, aged[x])
    ensures MirrorsAll(sv, Fold(rs, Processing(sv, alloc), st), infos, servers, id)
  {
    hide Good, Mirrored, Proper, RecordAt, IsInactive, HasOn, Sendable;
    forall i | FoundInUse(infos, id, i)
      ensures infos[i].server in servers
      ensures HasOn(sv, Fold(rs, Processing(sv, alloc), st), infos[i].key, servers[infos[i].server].ip, servers[infos[i].server].port)
    {
      assert i in aged;
      var x :| 0 <= x < |aged| && aged[x] == i;
      EntryRecord(infos, servers, i);
      RecordFields(infos, servers, i);
      FoldMirrors(sv, alloc, rs, st, x);
      MirroredHas(sv, Fold(rs, Processing(sv, alloc), st), infos, servers, i);
    }
  }

  /** One aging event on the master and the delivery of its frames to a backup: afterwards the backup has
      every established connection the event found in use, on the same server and established. */
  method MirrorEvent(db: ConnTable.ConnDb, id: nat, c: SyncMaster.Config, data: array<Byte>,
                     syncId: Byte, sv: Servers, alloc: set<nat> -> nat, st: State) returns (st': State)
    requires db.Valid() && Sendable(db.infos, db.servers)
    requires c.Valid() && data.Length == c.bufSize && data[SyncMaster.SYNC_OFFSET] == 0
    requires syncId == 0 || syncId == c.syncId
    requires sv.Consistent() && IsAlloc(alloc) && Good(sv, st)
    modifies db, data
    ensures db.Valid() && db.servers == old(db.servers) && Good(sv, st')
    ensures MirrorsAll(sv, st', old(db.infos), db.servers, id)
    // if nothing was marked for deletion, the backup's own next scan deletes none of them
    ensures Unmarked(st) ==> Unmarked(st')
    // and if it knows the servers, its active and inactive counts stay right
    ensures Accurate(sv, st) && KnowsAll(sv, old(db.infos), db.servers) ==> Accurate(sv, st')
  {
    hide Linked, GoodEntries, Balanced, Conn.Loaded, Good, Sendable, MirrorsAll, Proper, ConnTable.AgedIn, ConnTable.ScannedAll, ConnTable.RestScanned, Process, Unmarked, Accurate, KnowsAll;
    ghost var hash0, infos0, pool0 := db.hash, db.infos, db.pool;
    ConnTable.LoadedKeys(db.servers, db.stats, None);
    var aged := db.HandleAgingEvent(id);
    ConnTable.LoadedKeys(db.servers, db.stats, None);
    var rs := EventRecords(db.infos, db.servers, aged, id, hash0, infos0, pool0);
    forall s: State, r | r in rs ensures Processing(sv, alloc)(s, r).1 >= 0 {
      NeverGivesUp(sv, alloc, s, r);
    }
    EventMirrors(sv, alloc, st, infos0, db.servers, id, aged, rs);
    FoldGood(sv, alloc, rs, st);
    if Unmarked(st) { FoldUnmarked(sv, alloc, rs, st); }
    if Accurate(sv, st) && KnowsAll(sv, infos0, db.servers) {
      EventAccurate(sv, alloc, st, infos0, db.servers, aged, rs);
    }
    st' := Replicate(c, data, rs, syncId, Processing(sv, alloc), st);
  }

  /** The records of an event, taken after the scan, are those of the entries before it. */
  method EventRecords(infos: map<nat, Info>, servers: map<nat, ServerInfo>, aged: seq<nat>, ghost id: nat,
                      ghost hash0: map<Key, nat>, ghost infos0: map<nat, Info>, ghost pool0: set<nat>)
    returns (rs: seq<SyncConn>)
    requires Linked(hash0, infos0, pool0) && Sendable(infos0, servers)
    requires GoodEntries(infos0, servers.Keys) && GoodEntries(infos, servers.Keys)
    requires infos == ConnTable.ScannedAll(infos0, Aging.FirstIndex(id), Aging.FirstIndex(id) + Aging.ENTRIES_PER_JOB, Aging.IterationNum(id))
    requires ConnTable.AgedIn(aged, infos0, Aging.FirstIndex(id), Aging.FirstIndex(id) + Aging.ENTRIES_PER_JOB, Aging.IterationNum(id))
    ensures |rs| == |aged| && DistinctKeys(rs) && forall x :: 0 <= x < |rs| ==> Proper(rs[x])
    ensures forall x :: 0 <= x < |aged| ==>
      aged[x] in infos0 && infos0[aged[x]].server in servers && Encodable(infos0[aged[x]])
      && servers[infos0[aged[x]].server].ip < 0x1_0000_0000 && servers[infos0[aged[x]].server].port < 0x1_0000
      && rs[x] == RecordAt(infos0, servers, aged[x])
  {
    hide Linked, Proper, ConnTable.ScannedAll;
    ghost var lo, n := Aging.FirstIndex(id), Aging.IterationNum(id);
    ScannedSendable(infos0, servers, lo, lo + Aging.ENTRIES_PER_JOB, n);
    forall i | i in aged
      ensures i in infos && i in infos0 && infos0[i].server in servers
        && RecordAt(infos, servers, i) == RecordAt(infos0, servers, i)
    {
      EntryRecord(infos0, servers, i);
      ScannedEntry(infos0, servers, aged, lo, lo + Aging.ENTRIES_PER_JOB, n, i);
    }
    rs := Collect(infos, servers, aged);
    RecordsProper(hash0, infos0, pool0, servers, aged, rs);
  }
}
