/** A new connection: the published slots decide which servers are asked, and the first that grants a
    place gets the connection. */
module Dispatch {
  import opened Common
  import opened Overload
  import opened Conn
  import opened Sched
  import ConnTable

  function LimitsOf(servers: map<nat, ServerInfo>): (r: map<nat, Thresholds>)
    ensures r.Keys == servers.Keys
  {
    map s | s in servers :: servers[s].t
  }

  function LoadsOf(stats: map<nat, Stats>): (r: map<nat, Load>)
    ensures r.Keys == stats.Keys
  {
    map s | s in stats :: stats[s].load
  }

  /** The servers from the one reached after `k` slots on, up to an empty slot or the end of the walk. */
  function Walk(slots: map<nat, nat>, info: map<nat, Thresholds>, service: nat, hash: nat, k: nat): (p: seq<nat>)
    requires k <= 256
    ensures k + |p| <= 256
    ensures forall j :: 0 <= j < |p| ==> ServerAt(slots, info, service, hash, k + j) == Some(p[j])
    ensures k + |p| < 256 ==> ServerAt(slots, info, service, hash, k + |p|).None?
    decreases 256 - k
  {
    if k == 256 || ServerAt(slots, info, service, hash, k).None? then []
    else [ServerAt(slots, info, service, hash, k).value] + Walk(slots, info, service, hash, k + 1)
  }

  /** The servers asked, in order: that of the hashed slot and, with fallback, those of all slots from
      the hashed one on, cyclically. */
  function Probes(slots: map<nat, nat>, info: map<nat, Thresholds>, service: nat, hash: nat, fallback: bool): (p: seq<nat>) {
    var all := Walk(slots, info, service, hash, 0);
    if all == [] then [] else [all[0]] + if fallback then all else []
  }

  /** Asking in turn stops at the first server that accepts, or is not known. */
  lemma {:induction false} FirstAccepting(servers: map<nat, ServerInfo>, stats: map<nat, Stats>, probes: seq<nat>) returns (n: nat)
    requires stats.Keys == servers.Keys
    ensures n <= |probes|
    ensures forall k :: 0 <= k < n ==> probes[k] in servers && !Accepts(LimitsOf(servers), LoadsOf(stats), probes[k])
    ensures n < |probes| && probes[n] in servers ==> Accepts(LimitsOf(servers), LoadsOf(stats), probes[n])
    ensures ConnTable.AskInTurn(servers, stats, probes) == if n < |probes| && probes[n] in servers then Some(probes[n]) else None
  {
    if probes == [] || probes[0] !in servers || Accepts(LimitsOf(servers), LoadsOf(stats), probes[0]) {
      n := 0;
    } else {
      n := FirstAccepting(servers, stats, probes[1..]);
      n := n + 1;
    }
  }

  /** The server a new connection gets is the one source hashing picks. */
  lemma {:induction false} AskedAsScheduled(slots: map<nat, nat>, servers: map<nat, ServerInfo>, stats: map<nat, Stats>,
                                            service: nat, hash: nat, fallback: bool)
    requires stats.Keys == servers.Keys
    ensures PicksFirst(slots, LimitsOf(servers), LoadsOf(stats), service, hash, if fallback then 256 else 1,
                       ConnTable.AskInTurn(servers, stats, Probes(slots, LimitsOf(servers), service, hash, fallback)))
  {
    var info, loads := LimitsOf(servers), LoadsOf(stats);
    var all, probes := Walk(slots, info, service, hash, 0), Probes(slots, info, service, hash, fallback);
    WalkIsKnown(slots, info, service, hash);
    hide Accepts, PicksFirst, Walk, ServerAt;
    var n := FirstAccepting(servers, stats, probes);
    var k := if n == 0 then 0 else if n == |probes| && !fallback then 1 else n - 1;
    var limit := if fallback then 256 else 1;
    forall j | 0 <= j < k ensures Refuses(slots, info, loads, service, hash, j) {
      assert ServerAt(slots, info, service, hash, 0 + j) == Some(all[j]);
      assert all[j] == probes[if fallback then j + 1 else j];
    }
    if n < |probes| {
      assert ServerAt(slots, info, service, hash, 0 + k) == Some(all[k]);
      Picked(slots, info, loads, service, hash, limit, k);
    } else {
      NothingPicked(slots, info, loads, service, hash, limit, k);
    }
  }

  lemma WalkIsKnown(slots: map<nat, nat>, info: map<nat, Thresholds>, service: nat, hash: nat)
    ensures forall x :: x in Walk(slots, info, service, hash, 0) ==> x in info
  {
    var p := Walk(slots, info, service, hash, 0);
    forall j | 0 <= j < |p| ensures p[j] in info {
      assert ServerAt(slots, info, service, hash, 0 + j) == Some(p[j]);
    }
  }

  /** A packet of a connection that was unknown a moment ago, on a source-hashed service: by now it is known,
      or it goes to the server that source hashing picks, if there is one and the tables have room. */
  method NewConnection(db: ConnTable.ConnDb, slots: map<nat, nat>, service: nat, entries: nat, hash: nat, fallback: bool,
                       key: Key, fin: bool, rst: bool, pick: Option<nat>, hashOk: bool)
    returns (result: ConnTable.Result)
    requires db.Valid()
    modifies db
    ensures db.Valid() && old(db.stats).Keys == db.servers.Keys
    ensures entries == 0 ==> result == ConnTable.Ignore && db.Conns() == old(db.Conns())
    ensures entries > 0 && key in old(db.hash) ==> result == ConnTable.Retry && db.Conns() == old(db.Conns())
    ensures entries > 0 && key !in old(db.hash) ==> exists picked: Option<nat> ::
      && PicksFirst(slots, LimitsOf(db.servers), LoadsOf(old(db.stats)), service, hash,
                    if fallback then 256 else 1, picked)
      && if picked.Some? && pick.Some? && pick.value !in old(db.pool) && hashOk then
           && result == ConnTable.Success && picked.value in db.servers
           && db.Conns() == old(db.Conns())[key := NewEntry(true, picked.value, 0, key, ConnTable.FirstState(fin, rst),
                                                          db.servers[picked.value].connFlags, rst)]
         else result == ConnTable.Ignore && db.Conns() == old(db.Conns())
  {
    hide Linked, GoodEntries, Balanced, Conn.Loaded, View, PicksFirst, Probes, ConnTable.Rest;
    ConnTable.LoadedKeys(db.servers, db.stats, None);
    ConnTable.LinkedShape(db.hash, db.infos, db.pool);
    AskedAsScheduled(slots, db.servers, db.stats, service, hash, fallback);
    result := db.ScheduleNew(key, entries, Probes(slots, LimitsOf(db.servers), service, hash, fallback), fin, rst, pick, hashOk);
    ConnTable.LinkedShape(db.hash, db.infos, db.pool);
  }

  /** The servers asked by round robin: one, if the pick ends at a filled slot. */
  function RrProbes(slots: map<nat, nat>, service: nat, counter: nat, known: nat, entries: Option<nat>,
                    mod: (nat, nat, nat) -> nat): seq<nat>
  {
    if known == 0 then []
    else
      var x := RrProbe(slots, service, counter, known, entries, mod, RR_RETRIES);
      if x.None? then [] else [x.value]
  }

  lemma AskOne(servers: map<nat, ServerInfo>, stats: map<nat, Stats>, x: nat)
    requires stats.Keys == servers.Keys
    ensures ConnTable.AskInTurn(servers, stats, []) == None
    ensures ConnTable.AskInTurn(servers, stats, [x]) ==
      if x in servers && Accepts(LimitsOf(servers), LoadsOf(stats), x) then Some(x) else None
  {
    assert [x][1..] == [];
  }

  /** The same on a service scheduled by round robin, weighted or not. The scheduling counter advances iff a
      pick is made. */
  method NewConnectionRr(db: ConnTable.ConnDb, slots: map<nat, nat>, service: nat, counter: nat, known: nat,
                         entries: Option<nat>, mod: (nat, nat, nat) -> nat,
                         key: Key, fin: bool, rst: bool, pick: Option<nat>, hashOk: bool)
    returns (result: ConnTable.Result, counter': nat)
    requires db.Valid() && IsMod(mod) && counter < 0x1_0000_0000
    modifies db
    ensures db.Valid() && old(db.stats).Keys == db.servers.Keys
    ensures counter' == if known == 0 || key in old(db.hash) then counter else (counter + 1) % 0x1_0000_0000
    ensures known == 0 ==> result == ConnTable.Ignore && db.Conns() == old(db.Conns()) && db.stats == old(db.stats)
    ensures known > 0 && key in old(db.hash) ==>
      result == ConnTable.Retry && db.Conns() == old(db.Conns()) && db.stats == old(db.stats)
    ensures known > 0 && key !in old(db.hash) ==>
      var x := RrProbe(slots, service, counter, known, entries, mod, RR_RETRIES);
      if x.Some? && x.value in db.servers && Accepts(LimitsOf(db.servers), LoadsOf(old(db.stats)), x.value)
         && pick.Some? && pick.value !in old(db.pool) && hashOk then
        && result == ConnTable.Success
        && db.Conns() == old(db.Conns())[key := NewEntry(true, x.value, 0, key, ConnTable.FirstState(fin, rst),
                                                         db.servers[x.value].connFlags, rst)]
      else result == ConnTable.Ignore && db.Conns() == old(db.Conns())
  {
    hide Linked, GoodEntries, Balanced, Conn.Loaded, View, RrProbe, Accepts, ConnTable.AskInTurn, ConnTable.Rest, NewEntry;
    ConnTable.LoadedKeys(db.servers, db.stats, None);
    ConnTable.LinkedShape(db.hash, db.infos, db.pool);
    var probes := RrProbes(slots, service, counter, known, entries, mod);
    AskOne(db.servers, db.stats, if probes == [] then 0 else probes[0]);
    assert probes == [] || probes == [probes[0]];
    counter' := if known == 0 || key in db.hash then counter else (counter + 1) % 0x1_0000_0000;
    result := db.ScheduleNew(key, known, probes, fin, rst, pick, hashOk);
    ConnTable.LinkedShape(db.hash, db.infos, db.pool);
  }
}
