/** The life of locally scheduled connections. Packets and entry scans are atomic steps; what the hardware
    decides, a free index and room in the hash, is given with each step. */
module ConnTable {
  import opened Common
  import opened Overload
  import opened Conn
  import Aging

  datatype Result = Ignore | Retry | Success

  // ---------------------------------------------------------------- loads

  /** Taking back the admission that a failed creation had been granted. */
  lemma LoadedDelete(servers: map<nat, ServerInfo>, stats: map<nat, Stats>, infos: map<nat, Info>, s: nat)
    requires Loaded(servers, stats, Some(s)) && Balanced(stats, infos) && s in stats
    ensures var stats' := stats[s := stats[s].(load := Delete(servers[s].t, stats[s].load))];
      Loaded(servers, stats', None) && Balanced(stats', infos)
  {
  }

  /** Counting the entry that an admission was granted for. */
  lemma LoadedCharge(servers: map<nat, ServerInfo>, stats: map<nat, Stats>, s: nat, active: int, inactive: int)
    requires Loaded(servers, stats, Some(s)) && s in stats && active + inactive == 1
    ensures Loaded(servers, Charge(stats, s, 1, active, inactive), None)
  {
  }

  lemma LoadedAvailable(servers: map<nat, ServerInfo>, stats: map<nat, Stats>, s: nat, up: bool)
    requires Loaded(servers, stats, None) && s in servers
    ensures Loaded(servers[s := servers[s].(available := up)], stats, None)
  {
  }

  lemma LoadedMove(servers: map<nat, ServerInfo>, stats: map<nat, Stats>, s: nat, d: int)
    requires Loaded(servers, stats, None) && s in stats
    ensures Loaded(servers, Charge(stats, s, 0, d, -d), None)
  {
  }

  /** Uncounting an entry and giving up its place. */
  lemma LoadedRemove(servers: map<nat, ServerInfo>, stats: map<nat, Stats>, s: nat, active: int, inactive: int)
    requires Loaded(servers, stats, None) && s in stats && active + inactive == 1
    requires 0 <= active <= stats[s].active && 0 <= inactive <= stats[s].inactive
    ensures var stats' := Charge(stats, s, 0, -active, -inactive);
      Loaded(servers, stats'[s := stats'[s].(load := Delete(servers[s].t, stats'[s].load))], None)
  {
    HysteresisSwitchOrFree(servers[s].t, stats[s].load);
  }

  lemma HysteresisSwitchOrFree(t: Thresholds, load: Load)
    requires t.l <= t.u && Hysteresis(t, load)
    ensures Hysteresis(t, Create(t, load).0)
    ensures !Create(t, load).1 ==> Create(t, load).0 == load
    ensures Create(t, load).1 ==> Create(t, load).0.counter == load.counter + 1
    ensures load.counter > 0 ==> Hysteresis(t, Delete(t, load))
  {
    if t.u != 0 { HysteresisSwitch(t, load); }
  }

  /** Asking a server: a refusal changes nothing, an admission reserves one place. */
  lemma LoadedCreate(servers: map<nat, ServerInfo>, stats: map<nat, Stats>, infos: map<nat, Info>, s: nat)
    requires Loaded(servers, stats, None) && Balanced(stats, infos) && s in stats
    ensures var (load, ok) := Create(servers[s].t, stats[s].load);
      var stats' := stats[s := stats[s].(load := load)];
      if ok then Loaded(servers, stats', Some(s)) && Balanced(stats', infos) else stats' == stats
  {
    HysteresisSwitchOrFree(servers[s].t, stats[s].load);
  }

  // ---------------------------------------------------------------- entries

  lemma GoodUpdate(infos: map<nat, Info>, servers: set<nat>, i: nat, e: Info)
    requires GoodEntries(infos, servers) && GoodEntry(e, servers)
    ensures GoodEntries(infos[i := e], servers)
  {
  }

  lemma GoodRemove(infos: map<nat, Info>, servers: set<nat>, i: nat)
    requires GoodEntries(infos, servers)
    ensures GoodEntries(infos - {i}, servers)
  {
  }

  lemma PutAndTake(infos: map<nat, Info>, pool: set<nat>, i: nat, e: Info)
    requires i !in infos && i !in pool
    ensures infos[i := e] - {i} == infos && pool + {i} - {i} == pool
  {
  }

  lemma NewEntryShape(s: nat, key: Key, state: nat, flags: bv32, reset: bool)
    ensures var e := NewEntry(true, s, 0, key, state, flags, reset);
      && e.key == key && e.server == s
      && ActiveShare(e, s) == (if state == ESTABLISHED then 1 else 0)
      && InactiveShare(e, s) == (if state == ESTABLISHED then 0 else 1)
  {
  }

  lemma GoodNew(s: nat, key: Key, state: nat, flags: bv32, reset: bool, servers: set<nat>)
    requires s in servers && (state == ESTABLISHED || state == CLOSE_WAIT)
    ensures GoodEntry(NewEntry(true, s, 0, key, state, flags, reset), servers)
  {
  }

  /** Steps on an entry keep it good, its key and its server. */
  lemma GoodSteps(e: Info, servers: set<nat>, reset: bool)
    requires GoodEntry(e, servers)
    ensures GoodEntry(Closing(e), servers) && Closing(e).key == e.key && Closing(e).server == e.server
    ensures GoodEntry(Doomed(e, reset), servers) && Doomed(e, reset).key == e.key && Doomed(e, reset).server == e.server
    ensures GoodEntry(Refreshed(e), servers)
  {
  }

  /** What the counters hold besides the active and inactive counts. */
  function Rest(stats: map<nat, Stats>): map<nat, (int, Load)> {
    map s | s in stats :: (stats[s].sched, stats[s].load)
  }

  lemma RestCharge(stats: map<nat, Stats>, s: nat, sched: int, active: int, inactive: int)
    requires s in stats
    ensures Rest(Charge(stats, s, sched, active, inactive)) == Rest(stats)[s := (stats[s].sched + sched, stats[s].load)]
    ensures sched == 0 ==> Rest(Charge(stats, s, sched, active, inactive)) == Rest(stats)
  {
  }

  lemma RestLoad(stats: map<nat, Stats>, s: nat, load: Load)
    requires s in stats
    ensures Rest(stats[s := stats[s].(load := load)]) == Rest(stats)[s := (stats[s].sched, load)]
  {
  }

  /** A place given back at server `s`. */
  function Dropped(servers: map<nat, ServerInfo>, rest: map<nat, (int, Load)>, s: nat): map<nat, (int, Load)> {
    if s in servers && s in rest then rest[s := (rest[s].0, Delete(servers[s].t, rest[s].1))] else rest
  }

  /** The same after the scan of the indices `lo..hi`: a place given back for every entry deleted, in order. */
  function RestScanned(servers: map<nat, ServerInfo>, infos: map<nat, Info>, rest: map<nat, (int, Load)>,
                       lo: nat, hi: nat, iteration: nat): map<nat, (int, Load)>
    requires lo <= hi
    decreases hi
  {
    if lo == hi then rest
    else
      var r := RestScanned(servers, infos, rest, lo, hi - 1, iteration);
      if hi - 1 in infos && Aging.Decide(infos[hi - 1], iteration) == Aging.Delete then Dropped(servers, r, infos[hi - 1].server)
      else r
  }

  lemma RestDropped(servers: map<nat, ServerInfo>, stats: map<nat, Stats>, s: nat)
    requires s in servers && s in stats
    ensures Dropped(servers, Rest(stats), s) == Rest(stats)[s := (stats[s].sched, Delete(servers[s].t, stats[s].load))]
  {
  }

  // ---------------------------------------------------------------- what a packet means

  /** What a packet makes of an entry `e`, told without the code's steps: `n` is the entry after it. */
  ghost predicate PacketEffect(e: Info, n: Info, fin: bool, rst: bool, available: bool) {
    && n.key == e.key && n.server == e.server && n.bound == e.bound && n.port == e.port && n.ageIteration == e.ageIteration
    && if e.reset then n == e                                       // a reset connection is left alone
       else if !available then                                      // its server is down: to be deleted
         n.delete && n.state == e.state && n.flags == e.flags && (!e.delete ==> !n.aging && !n.reset)
       else if rst then                                             // RST: closed and to be deleted, for good
         if e.delete then n == e else Closed(n) && n.delete && n.reset && !n.aging
       else if fin && e.state == ESTABLISHED then                   // FIN: closed, and active once more
         if e.delete then n == e else Closed(n) && n.aging && !n.delete && !n.reset
       else                                                         // data: in use
         n.state == e.state && n.flags == e.flags && n.aging && !n.reset && (!e.aging ==> !n.delete)
  }

  ghost predicate Closed(n: Info) {
    n.state == CLOSE_WAIT && IsInactive(n.flags)
  }

  lemma PacketMeans(e: Info, fin: bool, rst: bool, available: bool, servers: set<nat>)
    requires GoodEntry(e, servers)
    ensures PacketEffect(e, Touched(e, fin, rst, available), fin, rst, available)
  {
  }

  /** The counters of every server follow the state of the entry that has changed. */
  ghost predicate CountsMove(stats: map<nat, Stats>, stats': map<nat, Stats>, e: Info, n: Info) {
    && stats'.Keys == stats.Keys
    && forall s :: s in stats ==>
      if s != e.server then stats'[s].active == stats[s].active && stats'[s].inactive == stats[s].inactive
      else
        && stats'[s].active == stats[s].active - (if e.state == ESTABLISHED then 1 else 0) + (if n.state == ESTABLISHED then 1 else 0)
        && stats'[s].inactive == stats[s].inactive - (if e.state != ESTABLISHED then 1 else 0) + (if n.state != ESTABLISHED then 1 else 0)
  }

  lemma PacketKeeps(e: Info, fin: bool, rst: bool, available: bool)
    ensures Touched(e, fin, rst, available).server == e.server
  {
  }

  lemma CountsMoved(stats: map<nat, Stats>, stats': map<nat, Stats>, infos: map<nat, Info>, i: nat, n: Info)
    requires Balanced(stats, infos) && Balanced(stats', infos[i := n]) && stats'.Keys == stats.Keys
    requires i in infos && infos[i].server == n.server
    ensures CountsMove(stats, stats', infos[i], n)
  {
    var rest := infos - {i};
    assert rest[i := n] == infos[i := n];
    forall s | s in stats
      ensures |ActiveOn(infos[i := n], s)| == |ActiveOn(infos, s)| - ActiveShare(infos[i], s) + ActiveShare(n, s)
      ensures |InactiveOn(infos[i := n], s)| == |InactiveOn(infos, s)| - InactiveShare(infos[i], s) + InactiveShare(n, s)
    {
      CountWithout(infos, i, s);
      CountWith(rest, i, n, s);
    }
  }

  /** The flags agree but for INACTIVE. */
  predicate SameBut(f: bv32, g: bv32) {
    f & 0xffff_feff == g & 0xffff_feff
  }

  /** The entry of a connection whose first packet has just come, and its effect on the counters. */
  ghost predicate FirstEffect(n: Info, key: Key, server: nat, fin: bool, rst: bool, flags: bv32) {
    && n.bound && n.key == key && n.server == server
    && n.state == (if fin || rst then CLOSE_WAIT else ESTABLISHED)
    && (IsInactive(n.flags) <==> fin || rst)
    && SameBut(n.flags, flags)
    && n.aging && n.delete == rst && n.reset == rst && n.ageIteration == 0
  }

  lemma FirstMeans(key: Key, server: nat, fin: bool, rst: bool, flags: bv32)
    ensures FirstEffect(NewEntry(true, server, 0, key, FirstState(fin, rst), flags, rst), key, server, fin, rst, flags)
  {
    hide SetInactive, ClearInactive, IsInactive, SameBut;
    OtherBits(flags);
  }

  lemma OtherBits(flags: bv32)
    ensures SameBut(SetInactive(flags), flags) && SameBut(ClearInactive(flags), flags)
  {
  }

  ghost predicate CountsAdd(stats: map<nat, Stats>, stats': map<nat, Stats>, n: Info) {
    && stats'.Keys == stats.Keys
    && forall s :: s in stats ==>
      && stats'[s].active == stats[s].active + (if s == n.server && n.state == ESTABLISHED then 1 else 0)
      && stats'[s].inactive == stats[s].inactive + (if s == n.server && n.state != ESTABLISHED then 1 else 0)
  }

  lemma CountsAdded(stats: map<nat, Stats>, stats': map<nat, Stats>, infos: map<nat, Info>, i: nat, n: Info)
    requires Balanced(stats, infos) && Balanced(stats', infos[i := n]) && stats'.Keys == stats.Keys && i !in infos
    ensures CountsAdd(stats, stats', n)
  {
    forall s | s in stats { CountWith(infos, i, n, s); }
  }

  class ConnDb {
    var servers: map<nat, ServerInfo>
    var hash: map<Key, nat>
    var infos: map<nat, Info>
    var pool: set<nat>
    var stats: map<nat, Stats>

    /** The tables agree; `admitted` names a server that has just granted a place. */
    ghost predicate Agree(admitted: Option<nat>)
      reads this
    {
      && Linked(hash, infos, pool)
      && GoodEntries(infos, stats.Keys)
      && Balanced(stats, infos)
      && Loaded(servers, stats, admitted)
    }

    ghost predicate Valid()
      reads this
    {
      Agree(None)
    }

    /** The connections the tables stand for. */
    ghost function Conns(): map<Key, Info>
      requires forall k :: k in hash ==> hash[k] in infos
      reads this
    {
      View(hash, infos)
    }

    constructor (servers: map<nat, ServerInfo>)
      requires forall s :: s in servers ==> servers[s].t.l <= servers[s].t.u
      ensures Valid() && this.servers == servers && Conns() == map[] && infos == map[]
    {
      this.servers, hash, infos, pool := servers, map[], map[], {};
      stats := map s | s in servers :: Stats(0, 0, 0, Load(0, false));
    }

    /** The control plane changes a server's availability. */
    method SetAvailable(s: nat, up: bool)
      requires Valid() && s in servers
      modifies this`servers
      ensures Valid() && servers == old(servers)[s := old(servers)[s].(available := up)]
    {
      hide Linked, GoodEntries, Balanced, Loaded;
      LoadedAvailable(servers, stats, s, up);
      servers := servers[s := servers[s].(available := up)];
    }

    method OverloadOnDelete(s: nat)
      requires s in stats && s in servers
      modifies this`stats
      ensures stats == old(stats)[s := old(stats)[s].(load := Delete(servers[s].t, old(stats)[s].load))]
      ensures stats.Keys == old(stats).Keys
    {
      stats := stats[s := stats[s].(load := Delete(servers[s].t, stats[s].load))];
    }

    /** Creates the entry of a connection for which server `s` has granted a place. On any failure the
        place is given back and the tables are as before. */
    method CreateNewEntry(s: nat, key: Key, state: nat, flags: bv32, reset: bool, pick: Option<nat>, hashOk: bool)
      returns (ok: bool)
      requires Agree(Some(s)) && s in stats && key !in hash && (state == ESTABLISHED || state == CLOSE_WAIT)
      modifies this`hash, this`infos, this`pool, this`stats
      ensures Valid()
      ensures ok <==> pick.Some? && pick.value !in old(pool) && hashOk
      ensures ok ==> Conns() == old(Conns())[key := NewEntry(true, s, 0, key, state, flags, reset)]
      ensures ok ==> hash == old(hash)[key := pick.value]
      ensures ok ==> infos == old(infos)[pick.value := NewEntry(true, s, 0, key, state, flags, reset)]
      ensures !ok ==> hash == old(hash) && infos == old(infos) && pool == old(pool)
      ensures Rest(stats) == Rest(old(stats))[s :=
        if ok then (old(stats)[s].sched + 1, old(stats)[s].load)
        else (old(stats)[s].sched, Delete(servers[s].t, old(stats)[s].load))]
    {
      hide Linked, GoodEntries, Balanced, Loaded, View, GoodEntry, Delete, NewEntry, ActiveShare, InactiveShare, Charge, Rest;
      LinkedShape(hash, infos, pool);
      LoadedKeys(servers, stats, Some(s));
      if pick.None? || pick.value in pool {
        GiveBack(s);
        return false;
      }
      var i := pick.value;
      var e := NewEntry(true, s, 0, key, state, flags, reset);
      NewEntryShape(s, key, state, flags, reset);
      PutAndTake(infos, pool, i, e);
      pool := pool + {i};
      infos := infos[i := e];
      if !hashOk {
        infos := infos - {i};
        GiveBack(s);
        pool := pool - {i};
        return false;
      }
      hash := hash[key := i];
      LinkedWith(old(hash), old(infos), old(pool), i, e);
      GoodNew(s, key, state, flags, reset, stats.Keys);
      GoodUpdate(old(infos), stats.Keys, i, e);
      CountNew(i, e, old(infos));
      return true;
    }

    /** Gives back a place granted by server `s`. */
    method GiveBack(s: nat)
      requires Loaded(servers, stats, Some(s)) && Balanced(stats, infos) && s in stats && s in servers
      modifies this`stats
      ensures Loaded(servers, stats, None) && Balanced(stats, infos) && stats.Keys == old(stats).Keys
      ensures Rest(stats) == Rest(old(stats))[s := (old(stats)[s].sched, Delete(servers[s].t, old(stats)[s].load))]
    {
      hide Balanced, Loaded, Delete, Rest;
      RestLoad(stats, s, Delete(servers[s].t, stats[s].load));
      LoadedDelete(servers, stats, infos, s);
      OverloadOnDelete(s);
    }

    /** Counts the new entry `e` of the table, which was `infos0` without it. */
    method CountNew(i: nat, e: Info, ghost infos0: map<nat, Info>)
      requires i !in infos0 && infos == infos0[i := e] && e.server in stats
      requires Loaded(servers, stats, Some(e.server)) && Balanced(stats, infos0)
      modifies this`stats
      ensures Loaded(servers, stats, None) && Balanced(stats, infos) && stats.Keys == old(stats).Keys
      ensures Rest(stats) == Rest(old(stats))[e.server := (old(stats)[e.server].sched + 1, old(stats)[e.server].load)]
    {
      hide Balanced, Loaded, Charge, Rest;
      BalancedWith(stats, infos0, i, e, 1);
      if e.state == ESTABLISHED {
        RestCharge(stats, e.server, 1, 1, 0);
        LoadedCharge(servers, stats, e.server, 1, 0);
        stats := Charge(stats, e.server, 1, 1, 0);
      } else {
        RestCharge(stats, e.server, 1, 0, 1);
        LoadedCharge(servers, stats, e.server, 0, 1);
        stats := Charge(stats, e.server, 1, 0, 1);
      }
    }

    /** Replaces the entry at index `i`, moving `d` from the inactive to the active count of its server. */
    method Replace(i: nat, e: Info, d: int)
      requires Valid() && i in infos
      requires GoodEntry(e, stats.Keys) && e.key == infos[i].key && e.server == infos[i].server
      requires d == ActiveShare(e, e.server) - ActiveShare(infos[i], e.server)
      modifies this`infos, this`stats
      ensures Valid() && infos == old(infos)[i := e] && Conns() == old(Conns())[e.key := e]
      ensures Rest(stats) == Rest(old(stats))
    {
      hide Linked, GoodEntries, Balanced, Loaded, View, ActiveShare, Rest, Charge;
      RestCharge(stats, e.server, 0, d, -d);
      LinkedShape(hash, infos, pool);
      LinkedUpdate(hash, infos, pool, i, e);
      LinkedShape(hash, infos[i := e], pool);
      GoodUpdate(infos, stats.Keys, i, e);
      BalancedUpdate(stats, infos, i, e, d);
      LoadedMove(servers, stats, e.server, d);
      stats := Charge(stats, e.server, 0, d, -d);
      infos := infos[i := e];
    }

    /** A FIN: closes an established connection that is not marked for deletion. */
    method UpdateState(i: nat)
      requires Valid() && i in infos
      modifies this`infos, this`stats
      ensures Valid() && infos == old(infos)[i := Closing(old(infos)[i])]
      ensures Conns() == old(Conns())[old(infos)[i].key := Closing(old(infos)[i])]
      ensures Rest(stats) == Rest(old(stats))
    {
      hide Linked, GoodEntries, Balanced, Loaded, View, GoodEntry, Rest;
      Lookup(hash, infos, pool, stats.Keys, i);
      var e := infos[i];
      GoodSteps(e, stats.Keys, false);
      if e.state == CLOSE_WAIT || e.delete {
        return;
      }
      Replace(i, e.(delete := false, aging := true, state := CLOSE_WAIT, flags := SetInactive(e.flags)), -1);
    }

    /** Marks a connection for deletion by the next scan. */
    method MarkToDelete(i: nat, reset: bool)
      requires Valid() && i in infos
      modifies this`infos, this`stats
      ensures Valid() && infos == old(infos)[i := Doomed(old(infos)[i], reset)]
      ensures Conns() == old(Conns())[old(infos)[i].key := Doomed(old(infos)[i], reset)]
      ensures Rest(stats) == Rest(old(stats))
    {
      hide Linked, GoodEntries, Balanced, Loaded, View, GoodEntry, Rest;
      Lookup(hash, infos, pool, stats.Keys, i);
      var e := infos[i];
      GoodSteps(e, stats.Keys, reset);
      if e.delete {
        return;
      }
      var d := e.(aging := false, delete := true, reset := reset);
      if reset && e.state == ESTABLISHED {
        Replace(i, d.(state := CLOSE_WAIT, flags := SetInactive(e.flags)), -1);
      } else {
        Replace(i, d, 0);
      }
    }

    method Refresh(i: nat)
      requires Valid() && i in infos
      modifies this`infos, this`stats
      ensures Valid() && infos == old(infos)[i := Refreshed(old(infos)[i])]
      ensures Conns() == old(Conns())[old(infos)[i].key := Refreshed(old(infos)[i])]
      ensures Rest(stats) == Rest(old(stats))
    {
      hide Linked, GoodEntries, Balanced, Loaded, View, GoodEntry, Rest;
      Lookup(hash, infos, pool, stats.Keys, i);
      GoodSteps(infos[i], stats.Keys, false);
      Replace(i, infos[i].(aging := true, delete := false), 0);
    }

    method AgeOut(i: nat, iteration: nat)
      requires Valid() && i in infos
      modifies this`infos, this`stats
      ensures Valid() && infos == old(infos)[i := Aging.AgedOut(old(infos)[i], iteration)]
      ensures Conns() == old(Conns())[old(infos)[i].key := Aging.AgedOut(old(infos)[i], iteration)]
      ensures Rest(stats) == Rest(old(stats))
    {
      hide Linked, GoodEntries, Balanced, Loaded, View, GoodEntry, Rest;
      Lookup(hash, infos, pool, stats.Keys, i);
      GoodAged(infos[i], stats.Keys, iteration);
      Replace(i, Aging.AgedOut(infos[i], iteration), 0);
    }

    /** Removes a connection from all tables and gives its place back. */
    method DeleteConn(i: nat)
      requires Valid() && i in infos
      modifies this`hash, this`infos, this`pool, this`stats
      ensures Valid() && infos == old(infos) - {i} && pool == old(pool) - {i}
      ensures Conns() == old(Conns()) - {old(infos)[i].key}
      ensures var s := old(infos)[i].server;
        s in servers && s in old(stats) &&
        Rest(stats) == Rest(old(stats))[s := (old(stats)[s].sched, Delete(servers[s].t, old(stats)[s].load))]
    {
      hide Linked, GoodEntries, Balanced, Loaded, View, Rest, Delete;
      var e := infos[i];
      LinkedWithout(hash, infos, pool, i);
      LinkedShape(hash - {e.key}, infos - {i}, pool - {i});
      GoodRemove(infos, stats.Keys, i);
      GoodAt(infos, stats.Keys, i);
      LoadedKeys(servers, stats, None);
      BalancedWithout(stats, infos, i);
      EntryCounted(stats, infos, i);
      LoadedRemove(servers, stats, e.server, ActiveShare(e, e.server), InactiveShare(e, e.server));
      hash := hash - {e.key};
      infos := infos - {i};
      if e.state == ESTABLISHED {
        stats := Charge(stats, e.server, 0, -1, 0);
      } else {
        stats := Charge(stats, e.server, 0, 0, -1);
      }
      RestCharge(old(stats), e.server, 0, -1, 0);
      RestCharge(old(stats), e.server, 0, 0, -1);
      RestLoad(stats, e.server, Delete(servers[e.server].t, stats[e.server].load));
      BalancedLoad(stats, infos, e.server, Delete(servers[e.server].t, stats[e.server].load));
      OverloadOnDelete(e.server);
      pool := pool - {i};
    }

    /** A packet of a known connection. */
    method DataPath(key: Key, fin: bool, rst: bool)
      requires Valid() && key in hash
      modifies this`infos, this`stats
      ensures Valid()
      ensures Conns() == old(Conns())[key := Touched(old(Conns())[key], fin, rst, servers[old(Conns())[key].server].available)]
      ensures infos == old(infos)[hash[key] := Touched(old(infos)[hash[key]], fin, rst, servers[old(infos)[hash[key]].server].available)]
      // what this means for the connection and for the counters
      ensures var e, n := old(infos)[hash[key]], infos[hash[key]];
        PacketEffect(e, n, fin, rst, servers[e.server].available) && CountsMove(old(stats), stats, e, n)
      ensures Rest(stats) == Rest(old(stats))
    {
      hide Linked, GoodEntries, Balanced, Loaded, View, GoodEntry, Touched, Rest, PacketEffect, CountsMove;
      LinkedShape(hash, infos, pool);
      KeyOf(hash, infos, pool, key);
      LoadedKeys(servers, stats, None);
      var i := hash[key];
      Lookup(hash, infos, pool, stats.Keys, i);
      PacketMeans(infos[i], fin, rst, servers[infos[i].server].available, stats.Keys);
      Touch(i, fin, rst);
      LoadedKeys(servers, stats, None);
      PacketKeeps(old(infos)[i], fin, rst, servers[old(infos)[i].server].available);
      CountsMoved(old(stats), stats, old(infos), i, infos[i]);
    }

    /** The data path behind the lookup of the entry at index `i`. */
    method Touch(i: nat, fin: bool, rst: bool)
      requires Valid() && i in infos && infos[i].server in servers
      modifies this`infos, this`stats
      ensures Valid() && infos == old(infos)[i := Touched(old(infos)[i], fin, rst, servers[old(infos)[i].server].available)]
      ensures Conns() == old(Conns())[old(infos)[i].key := Touched(old(infos)[i], fin, rst, servers[old(infos)[i].server].available)]
      ensures Rest(stats) == Rest(old(stats))
    {
      hide Linked, GoodEntries, Balanced, Loaded, View, GoodEntry, Doomed, Closing, Refreshed, Rest;
      LinkedShape(hash, infos, pool);
      Lookup(hash, infos, pool, stats.Keys, i);
      var e := infos[i];
      if e.reset {
        return;
      }
      if !servers[e.server].available {
        MarkToDelete(i, false);
        return;
      }
      if rst {
        MarkToDelete(i, true);
      } else if e.state == ESTABLISHED && fin {
        UpdateState(i);
      } else if !e.aging {
        Refresh(i);
      }
    }

    /** A packet of an unknown connection: if the service has any slots filled, asks the servers `probes`
        the scheduler selects, in turn, and creates the connection on the first that grants a place. */
    method ScheduleNew(key: Key, entries: nat, probes: seq<nat>, fin: bool, rst: bool, pick: Option<nat>, hashOk: bool)
      returns (result: Result)
      requires Valid()
      modifies this`hash, this`infos, this`pool, this`stats
      ensures Valid()
      ensures result == (
        if entries == 0 then Ignore
        else if key in old(hash) then Retry
        else if AskInTurn(servers, old(stats), probes).Some? && pick.Some? && pick.value !in old(pool) && hashOk then Success
        else Ignore)
      ensures result != Success ==> hash == old(hash) && infos == old(infos) && pool == old(pool)
      ensures result == Success ==>
        var s := AskInTurn(servers, old(stats), probes).value;
        && s in servers
        && Conns() == old(Conns())[key := NewEntry(true, s, 0, key, FirstState(fin, rst), servers[s].connFlags, rst)]
        && infos == old(infos)[pick.value := NewEntry(true, s, 0, key, FirstState(fin, rst), servers[s].connFlags, rst)]
        && hash == old(hash)[key := pick.value]
        && FirstEffect(infos[pick.value], key, s, fin, rst, servers[s].connFlags)
        && CountsAdd(old(stats), stats, infos[pick.value])
      ensures entries == 0 || result == Retry || AskInTurn(servers, old(stats), probes).None? ==> stats == old(stats)
      ensures entries > 0 && result != Retry && AskInTurn(servers, old(stats), probes).Some? ==>
        var s := AskInTurn(servers, old(stats), probes).value;
        var load := Create(servers[s].t, old(stats)[s].load).0;
        Rest(stats) == Rest(old(stats))[s :=
          if result == Success then (old(stats)[s].sched + 1, load) else (old(stats)[s].sched, Delete(servers[s].t, load))]
    {
      hide Linked, GoodEntries, Balanced, Loaded, View, Create, Rest, Delete, NewEntry, AskInTurn, FirstEffect, CountsAdd;
      LinkedShape(hash, infos, pool);
      LoadedKeys(servers, stats, None);
      if entries == 0 {
        return Ignore;
      }
      if key in hash {
        return Retry;
      }
      var granted := Ask(probes);
      if granted.None? {
        return Ignore;
      }
      var s := granted.value;
      RestLoad(old(stats), s, Create(servers[s].t, old(stats)[s].load).0);
      var ok := CreateNewEntry(s, key, FirstState(fin, rst), servers[s].connFlags, rst, pick, hashOk);
      if !ok {
        return Ignore;
      }
      FirstMeans(key, s, fin, rst, servers[s].connFlags);
      LoadedKeys(servers, stats, None);
      CountsAdded(old(stats), stats, old(infos), pick.value, infos[pick.value]);
      return Success;
    }

    /** Asks servers in turn for a place. */
    method Ask(probes: seq<nat>) returns (granted: Option<nat>)
      requires Valid()
      modifies this`stats
      ensures Agree(granted) && old(stats).Keys == stats.Keys == servers.Keys
      ensures granted == AskInTurn(servers, old(stats), probes)
      ensures granted.None? ==> stats == old(stats)
      ensures granted.Some? ==>
        var s := granted.value;
        stats == old(stats)[s := old(stats)[s].(load := Create(servers[s].t, old(stats)[s].load).0)]
    {
      hide Linked, GoodEntries, Balanced, Loaded, Create;
      LoadedKeys(servers, stats, None);
      var k := 0;
      while k < |probes|
        invariant 0 <= k <= |probes| && stats == old(stats)
        invariant AskInTurn(servers, stats, probes[k..]) == AskInTurn(servers, stats, probes)
      {
        var s := probes[k];
        if s !in servers {
          return None;
        }
        LoadedCreate(servers, stats, infos, s);
        var (load, admitted) := Create(servers[s].t, stats[s].load);
        stats := stats[s := stats[s].(load := load)];
        if admitted {
          assert stats.Keys == old(stats).Keys;
          return Some(s);
        }
        assert probes[k..][1..] == probes[k + 1..];
        k := k + 1;
      }
      return None;
    }

    /** The scan of one index in an aging event. */
    method Scan(i: nat, iteration: nat) returns (agedOut: bool)
      requires Valid()
      modifies this`hash, this`infos, this`pool, this`stats
      ensures Valid()
      ensures infos == Scanned(old(infos), i, iteration)
      // marked for deletion, or idle and its time is up: gone; active: marked idle; else left alone
      ensures i in old(infos) ==>
        var e := old(infos)[i];
        var mark := iteration % (if e.state == ESTABLISHED then 60 else 1);
        && (i in infos <==> !e.delete && (e.aging || e.ageIteration != mark))
        && (i in infos ==> infos[i] == if e.aging then e.(aging := false, ageIteration := mark) else e)
      ensures agedOut <==> i in old(infos) && Aging.Decide(old(infos)[i], iteration) == Aging.AgeOut
      ensures Rest(stats) ==
        if i in old(infos) && Aging.Decide(old(infos)[i], iteration) == Aging.Delete
        then Dropped(servers, Rest(old(stats)), old(infos)[i].server) else Rest(old(stats))
    {
      hide Linked, GoodEntries, Balanced, Loaded, View, Rest, Delete, Dropped;
      agedOut := false;
      if i in infos {
        var e := infos[i];
        Lookup(hash, infos, pool, stats.Keys, i);
        LoadedKeys(servers, stats, None);
        RestDropped(servers, stats, e.server);
        if e.delete {
          DeleteConn(i);
        } else if e.aging {
          AgeOut(i, iteration);
          agedOut := true;
        } else if e.ageIteration == Aging.AgeMark(iteration, e.state) && !e.aging {
          DeleteConn(i);
        }
      }
    }

    /** The aging event with id `id`: scans its 128 indices once each, in order, and returns the indices
        found active. */
    method HandleAgingEvent(id: nat) returns (aged: seq<nat>)
      requires Valid()
      modifies this`hash, this`infos, this`pool, this`stats
      ensures Valid()
      ensures infos == ScannedAll(old(infos), Aging.FirstIndex(id), Aging.FirstIndex(id) + Aging.ENTRIES_PER_JOB, Aging.IterationNum(id))
      ensures AgedIn(aged, old(infos), Aging.FirstIndex(id), Aging.FirstIndex(id) + Aging.ENTRIES_PER_JOB, Aging.IterationNum(id))
      ensures Rest(stats) == RestScanned(servers, old(infos), Rest(old(stats)), Aging.FirstIndex(id),
                                         Aging.FirstIndex(id) + Aging.ENTRIES_PER_JOB, Aging.IterationNum(id))
    {
      hide Linked, GoodEntries, Balanced, Loaded, View, Scanned, ScannedAll, AgedIn, Aging.Decide, Rest, Dropped, Delete;
      aged := [];
      ghost var infos0, rest0 := infos, Rest(stats);
      var iteration := Aging.IterationNum(id);
      var first := Aging.FirstIndex(id);
      var i := first;
      ScannedNothing(infos0, first, iteration);
      while i < first + Aging.ENTRIES_PER_JOB
        invariant first <= i <= first + Aging.ENTRIES_PER_JOB && Valid()
        invariant infos == ScannedAll(infos0, first, i, iteration)
        invariant AgedIn(aged, infos0, first, i, iteration)
        invariant Rest(stats) == RestScanned(servers, infos0, rest0, first, i, iteration)
      {
        ScannedOneMore(infos0, first, i, iteration, aged);
        var agedOut := Scan(i, iteration);
        if agedOut {
          aged := aged + [i];
        }
        i := i + 1;
      }
    }
  }

  /** `aged` lists, in order, the indices of `lo..hi` that the scan marks idle. */
  ghost predicate AgedIn(aged: seq<nat>, infos: map<nat, Info>, lo: nat, hi: nat, iteration: nat) {
    && (forall i :: i in aged <==> lo <= i < hi && i in infos && Aging.Decide(infos[i], iteration) == Aging.AgeOut)
    && (forall x, y :: 0 <= x < y < |aged| ==> aged[x] < aged[y])
  }

  lemma ScannedNothing(infos: map<nat, Info>, lo: nat, iteration: nat)
    ensures ScannedAll(infos, lo, lo, iteration) == infos && AgedIn([], infos, lo, lo, iteration)
  {
  }

  lemma ScannedOneMore(infos: map<nat, Info>, lo: nat, i: nat, iteration: nat, aged: seq<nat>)
    requires lo <= i && AgedIn(aged, infos, lo, i, iteration)
    ensures var now := ScannedAll(infos, lo, i, iteration);
      && (i in now <==> i in infos) && (i in infos ==> now[i] == infos[i])
      && Scanned(now, i, iteration) == ScannedAll(infos, lo, i + 1, iteration)
      && AgedIn(if i in now && Aging.Decide(now[i], iteration) == Aging.AgeOut then aged + [i] else aged,
                infos, lo, i + 1, iteration)
  {
    ScannedTable(infos, lo, i, iteration);
    hide Aging.Decide, ScannedAll, Scanned;
    if i in infos && Aging.Decide(infos[i], iteration) == Aging.AgeOut {
      forall x, y | 0 <= x < y < |aged + [i]| ensures (aged + [i])[x] < (aged + [i])[y] {
        assert (aged + [i])[x] in aged;
      }
    }
  }

  lemma ScannedTable(infos: map<nat, Info>, lo: nat, i: nat, iteration: nat)
    requires lo <= i
    ensures var now := ScannedAll(infos, lo, i, iteration);
      && (i in now <==> i in infos) && (i in infos ==> now[i] == infos[i])
      && Scanned(now, i, iteration) == ScannedAll(infos, lo, i + 1, iteration)
  {
    hide Aging.Decide;
  }

  /** The first server, of those asked in turn, that grants a place; an unknown server ends the search. */
  function AskInTurn(servers: map<nat, ServerInfo>, stats: map<nat, Stats>, probes: seq<nat>): (s: Option<nat>)
    requires stats.Keys == servers.Keys
    ensures s.Some? ==> s.value in probes && s.value in servers && Create(servers[s.value].t, stats[s.value].load).1
  {
    if probes == [] || probes[0] !in servers then None
    else if Create(servers[probes[0]].t, stats[probes[0]].load).1 then Some(probes[0])
    else AskInTurn(servers, stats, probes[1..])
  }

  function FirstState(fin: bool, rst: bool): nat {
    if fin || rst then CLOSE_WAIT else ESTABLISHED
  }

  /** The info table after the scan of index `i`. */
  function Scanned(infos: map<nat, Info>, i: nat, iteration: nat): map<nat, Info> {
    if i !in infos then infos
    else match Aging.Decide(infos[i], iteration)
      case Delete => infos - {i}
      case AgeOut => infos[i := Aging.AgedOut(infos[i], iteration)]
      case Keep => infos
  }

  /** The info table after the scan of the indices `lo..hi`. */
  function ScannedAll(infos: map<nat, Info>, lo: nat, hi: nat, iteration: nat): map<nat, Info> {
    map i | i in infos && !(lo <= i < hi && Aging.Decide(infos[i], iteration) == Aging.Delete) ::
      if lo <= i < hi && Aging.Decide(infos[i], iteration) == Aging.AgeOut then Aging.AgedOut(infos[i], iteration)
      else infos[i]
  }

  lemma GoodAged(e: Info, servers: set<nat>, iteration: nat)
    requires GoodEntry(e, servers)
    ensures GoodEntry(Aging.AgedOut(e, iteration), servers)
  {
  }

  lemma KeyOf(hash: map<Key, nat>, infos: map<nat, Info>, pool: set<nat>, key: Key)
    requires Linked(hash, infos, pool) && key in hash
    ensures hash[key] in infos && infos[hash[key]].key == key
  {
  }

  /** The view holds every entry under its key. */
  lemma Lookup(hash: map<Key, nat>, infos: map<nat, Info>, pool: set<nat>, servers: set<nat>, i: nat)
    requires Linked(hash, infos, pool) && GoodEntries(infos, servers) && i in infos
    ensures forall k :: k in hash ==> hash[k] in infos
    ensures infos[i].key in View(hash, infos) && View(hash, infos)[infos[i].key] == infos[i]
    ensures GoodEntry(infos[i], servers) && infos[i].server in servers
  {
  }

  lemma GoodAt(infos: map<nat, Info>, servers: set<nat>, i: nat)
    requires GoodEntries(infos, servers) && i in infos
    ensures GoodEntry(infos[i], servers)
  {
  }

  /** An entry is one of those its server counts. */
  lemma EntryCounted(stats: map<nat, Stats>, infos: map<nat, Info>, i: nat)
    requires Balanced(stats, infos) && i in infos && infos[i].server in stats
    ensures var e := infos[i];
      && ActiveShare(e, e.server) <= stats[e.server].active
      && InactiveShare(e, e.server) <= stats[e.server].inactive
  {
    var e := infos[i];
    CountWithout(infos, i, e.server);
  }

  lemma BalancedLoad(stats: map<nat, Stats>, infos: map<nat, Info>, s: nat, load: Load)
    requires Balanced(stats, infos) && s in stats
    ensures Balanced(stats[s := stats[s].(load := load)], infos)
  {
  }

  lemma LinkedShape(hash: map<Key, nat>, infos: map<nat, Info>, pool: set<nat>)
    requires Linked(hash, infos, pool)
    ensures infos.Keys == pool && forall k :: k in hash ==> hash[k] in infos
  {
  }

  lemma LoadedKeys(servers: map<nat, ServerInfo>, stats: map<nat, Stats>, admitted: Option<nat>)
    requires Loaded(servers, stats, admitted)
    ensures stats.Keys == servers.Keys
  {
  }

  // ---------------------------------------------------------------- whole runs

  datatype Step =
    | Packet(key: Key, fin: bool, rst: bool, entries: nat, probes: seq<nat>, pick: Option<nat>, hashOk: bool)
    | AgingEvent(id: nat)
    | Availability(server: nat, up: bool)

  /** The server table after a step. */
  function Switched(servers: map<nat, ServerInfo>, step: Step): map<nat, ServerInfo> {
    if step.Availability? && step.server in servers then servers[step.server := servers[step.server].(available := step.up)]
    else servers
  }

  /** What a step does to the entry at index `i`, on a server that is available or not. */
  function EntryAfter(e: Info, i: nat, step: Step, available: bool): Option<Info> {
    match step
    case Packet(key, fin, rst, _, _, _, _) => Some(if key == e.key then Touched(e, fin, rst, available) else e)
    case AgingEvent(id) => if Aging.Scans(id, i) then Aging.ScannedEntry(e, Aging.IterationNum(id)) else Some(e)
    case Availability(_, _) => Some(e)
  }

  /** What a step does to the info table: each entry on its own, and at most fresh ones added. */
  ghost predicate StepsTo(infos: map<nat, Info>, infos': map<nat, Info>, servers: map<nat, ServerInfo>, step: Step) {
    && (forall i :: i in infos ==> infos[i].server in servers && IsAfter(infos', i, EntryAfter(infos[i], i, step, servers[infos[i].server].available)))
    && (forall i :: i in infos' && i !in infos ==> Aging.Fresh(infos'[i]))
  }

  ghost predicate IsAfter(infos: map<nat, Info>, i: nat, e: Option<Info>) {
    if e.None? then i !in infos else i in infos && infos[i] == e.value
  }

  lemma TouchSteps(hash: map<Key, nat>, infos: map<nat, Info>, pool: set<nat>, servers: map<nat, ServerInfo>, step: Step)
    requires Linked(hash, infos, pool) && GoodEntries(infos, servers.Keys) && step.Packet? && step.key in hash
    ensures var i := hash[step.key];
      && i in infos && infos[i].server in servers
      && StepsTo(infos, infos[i := Touched(infos[i], step.fin, step.rst, servers[infos[i].server].available)], servers, step)
  {
    hide Touched;
  }

  lemma OthersStep(hash: map<Key, nat>, infos: map<nat, Info>, pool: set<nat>, servers: map<nat, ServerInfo>, step: Step)
    requires Linked(hash, infos, pool) && GoodEntries(infos, servers.Keys)
    requires step.Availability? || (step.Packet? && step.key !in hash)
    ensures StepsTo(infos, infos, servers, step)
    ensures forall i: nat, e :: i !in pool && Aging.Fresh(e) ==> StepsTo(infos, infos[i := e], servers, step)
  {
    hide Touched, Aging.Fresh;
  }

  lemma ScanSteps(infos: map<nat, Info>, servers: map<nat, ServerInfo>, step: Step)
    requires GoodEntries(infos, servers.Keys) && step.AgingEvent?
    ensures var lo := Aging.FirstIndex(step.id);
      StepsTo(infos, ScannedAll(infos, lo, lo + Aging.ENTRIES_PER_JOB, Aging.IterationNum(step.id)), servers, step)
  {
    hide Aging.Decide;
  }

  /** One step. */
  method Perform(db: ConnDb, step: Step)
    requires db.Valid()
    modifies db
    ensures db.Valid() && db.servers == Switched(old(db.servers), step)
    ensures StepsTo(old(db.infos), db.infos, old(db.servers), step)
  {
    hide Linked, GoodEntries, Balanced, Loaded, View, StepsTo, Rest, RestScanned, ScannedAll, AskInTurn, Create, Delete, NewEntry;
    LoadedKeys(db.servers, db.stats, None);
    LinkedShape(db.hash, db.infos, db.pool);
    match step {
      case Packet(key, fin, rst, entries, probes, pick, hashOk) =>
        if key in db.hash {
          TouchSteps(db.hash, db.infos, db.pool, db.servers, step);
          db.DataPath(key, fin, rst);
        } else {
          OthersStep(db.hash, db.infos, db.pool, db.servers, step);
          ghost var servers := db.servers;
          var result := db.ScheduleNew(key, entries, probes, fin, rst, pick, hashOk);
          if result == Success {
            ghost var s := AskInTurn(servers, old(db.stats), probes).value;
            Aging.NewIsFresh(true, s, 0, key, FirstState(fin, rst), servers[s].connFlags, rst);
          }
        }
      case AgingEvent(id) =>
        ScanSteps(db.infos, db.servers, step);
        var aged := db.HandleAgingEvent(id);
      case Availability(s, up) =>
        OthersStep(db.hash, db.infos, db.pool, db.servers, step);
        if s in db.servers {
          db.SetAvailable(s, up);
        }
    }
  }

  ghost predicate AllMarked(infos: map<nat, Info>) {
    forall i :: i in infos ==> Marked(infos[i])
  }

  lemma StepKeepsMarked(infos: map<nat, Info>, infos': map<nat, Info>, servers: map<nat, ServerInfo>, step: Step)
    requires StepsTo(infos, infos', servers, step) && AllMarked(infos)
    ensures AllMarked(infos')
  {
    forall i | i in infos' ensures Marked(infos'[i]) {
      if i in infos {
        assert IsAfter(infos', i, EntryAfter(infos[i], i, step, servers[infos[i].server].available));
      }
    }
  }

  /** What holds of the counters of server `s`, as read from the tables. */
  ghost predicate Conserved(infos: map<nat, Info>, stats: map<nat, Stats>, s: nat, t: Thresholds) {
    && s in stats
    && stats[s].active == |ActiveOn(infos, s)|
    && stats[s].inactive == |InactiveOn(infos, s)|
    && stats[s].load.counter == stats[s].active + stats[s].inactive
    && (t.u != 0 ==> |ActiveOn(infos, s)| + |InactiveOn(infos, s)| <= t.u)
  }

  /** Any run of packets, aging events and changes of availability on empty tables: the tables stay in
      bijection, the counters count the entries, no server has more connections than its upper threshold
      allows, and the marks of every entry agree. */
  method Run(servers: map<nat, ServerInfo>, steps: seq<Step>)
    returns (hash: map<Key, nat>, infos: map<nat, Info>, pool: set<nat>, stats: map<nat, Stats>)
    requires forall s :: s in servers ==> servers[s].t.l <= servers[s].t.u
    ensures Linked(hash, infos, pool)
    ensures forall s :: s in servers ==> Conserved(infos, stats, s, servers[s].t)
    ensures AllMarked(infos)
  {
    hide Linked, GoodEntries, Balanced, Loaded, View, StepsTo;
    var db := new ConnDb(servers);
    for k := 0 to |steps|
      invariant db.Valid() && fresh(db) && db.servers.Keys == servers.Keys
      invariant forall s :: s in servers ==> db.servers[s].t == servers[s].t
      invariant AllMarked(db.infos)
    {
      ghost var infos0, servers0 := db.infos, db.servers;
      Perform(db, steps[k]);
      StepKeepsMarked(infos0, db.infos, servers0, steps[k]);
    }
    hash, infos, pool, stats := db.hash, db.infos, db.pool, db.stats;
    forall s | s in servers ensures Conserved(infos, stats, s, servers[s].t) {
      ConservedOne(db.servers, stats, infos, s);
    }
  }

  lemma ConservedOne(servers: map<nat, ServerInfo>, stats: map<nat, Stats>, infos: map<nat, Info>, s: nat)
    requires Loaded(servers, stats, None) && Balanced(stats, infos) && s in servers
    ensures Conserved(infos, stats, s, servers[s].t)
  {
  }
}
