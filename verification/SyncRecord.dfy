/** What the backup does with one synchronisation record. */
module SyncRecord {
  import opened Common
  import opened Overload
  import opened Conn
  import opened SyncWire
  import Aging

  const PROTO_TCP := 6
  const PROTO_UDP := 17

  // connection flags of the IPVS interface (linux/ip_vs.h)
  const F_SYNC: bv32 := 0x0020
  const F_BACKUP_MASK: bv32 := 0x1f87
  const F_BACKUP_UPD_MASK: bv32 := 0x0700

  datatype ServerKey = ServerKey(serverIp: nat, virtualIp: nat, serverPort: nat, virtualPort: nat, protocol: nat)

  /** The server tables, which the control plane keeps. */
  datatype Servers = Servers(info: map<nat, ServerInfo>, index: map<ServerKey, nat>) {
    /** Both tables describe the same servers. */
    ghost predicate Consistent() {
      forall k :: k in index ==>
        index[k] in info && info[index[k]].ip == k.serverIp && info[index[k]].port == k.serverPort
    }
  }

  datatype State = State(hash: map<Key, nat>, infos: map<nat, Info>, pool: set<nat>, stats: map<nat, Stats>) {
    /** The connection tables agree, and every known server has counters. */
    ghost predicate Valid(sv: Servers) {
      Linked(hash, infos, pool) && stats.Keys == sv.info.Keys
    }
  }

  function KeyOf(r: SyncConn): Key {
    Key(r.clientAddr, r.virtualAddr, r.clientPort, r.virtualPort, r.protocol)
  }

  function ServerKeyOf(r: SyncConn): ServerKey {
    ServerKey(r.serverAddr, r.virtualAddr, r.serverPort, r.virtualPort, r.protocol)
  }

  function RawFlags(r: SyncConn): bv32 { r.flags as bv32 }

  function FlagsOf(r: SyncConn): bv32 {
    (RawFlags(r) & F_BACKUP_MASK) | F_SYNC
  }

  /** The INACTIVE flag of the record says what its state says. */
  predicate FlagAgrees(r: SyncConn) {
    IsInactive(RawFlags(r)) <==> r.state != ESTABLISHED
  }

  // ---------------------------------------------------------------- steps on the tables

  /** Removes the entry at `i`; counters are only touched if `server` names a known server. */
  function DeleteEntry(sv: Servers, st: State, i: nat): State
    requires i in st.infos && st.stats.Keys == sv.info.Keys
  {
    var e := st.infos[i];
    if e.key !in st.hash then st
    else
      var stats' :=
        if e.server !in sv.info then st.stats
        else
          var s := Charge(st.stats, e.server, 0, -ActiveShare(e, e.server), -InactiveShare(e, e.server));
          s[e.server := s[e.server].(load := Delete(sv.info[e.server].t, s[e.server].load))];
      State(st.hash - {e.key}, st.infos - {i}, st.pool - {i}, stats')
  }

  /** The entry a record creates: bound if the server is known. The state is stored in 8 bits. */
  function EntryOf(sv: Servers, r: SyncConn): Info {
    var k := ServerKeyOf(r);
    var e :=
      if k in sv.index then NewEntry(true, sv.index[k], 0, KeyOf(r), r.state, FlagsOf(r), false)
      else NewEntry(false, r.serverAddr, r.serverPort, KeyOf(r), r.state, FlagsOf(r), false);
    e.(state := r.state % 0x100)
  }

  /** Creates the record's connection at the free index `pick`. */
  function CreateFrom(sv: Servers, st: State, r: SyncConn, pick: nat): (State, int)
    requires st.stats.Keys == sv.info.Keys
  {
    var k := ServerKeyOf(r);
    if k in sv.index && sv.index[k] !in sv.info then (st, 1)
    else
      var e := EntryOf(sv, r);
      var stats' :=
        if !e.bound then st.stats
        else if r.state == ESTABLISHED then Charge(st.stats, e.server, 1, 1, 0)
        else Charge(st.stats, e.server, 1, 0, 1);
      (State(st.hash[e.key := pick], st.infos[pick := e], st.pool + {pick}, stats'), 0)
  }

  /** The updatable bits of `f` and the others of `g`. */
  function Merge(f: bv32, g: bv32): bv32 {
    (f & F_BACKUP_UPD_MASK) | (g & !F_BACKUP_UPD_MASK)
  }

  /** The entry after an update by a record of the same server. */
  function Updated(sv: Servers, e: Info, r: SyncConn): Info {
    var k := ServerKeyOf(r);
    var b := if !e.bound && k in sv.index then e.(server := sv.index[k], bound := true) else e;
    b.(flags := Merge(FlagsOf(r), e.flags),
       state := r.state % 0x100, aging := true, ageIteration := 0)
  }

  function UpdateFrom(sv: Servers, st: State, i: nat, r: SyncConn): State
    requires i in st.infos && st.stats.Keys == sv.info.Keys
    requires st.infos[i].bound ==> st.infos[i].server in sv.info
  {
    var e := st.infos[i];
    var stats' :=
      if !e.bound || IsInactive(e.flags) == IsInactive(FlagsOf(r)) then st.stats
      else if IsInactive(FlagsOf(r)) then Charge(st.stats, e.server, 0, -1, 1)
      else Charge(st.stats, e.server, 0, 1, -1);
    st.(infos := st.infos[i := Updated(sv, e, r)], stats := stats')
  }

  /** Address and port of the server an entry stands for. */
  function ServerOf(sv: Servers, e: Info): (nat, nat)
    requires e.bound ==> e.server in sv.info
  {
    if e.bound then (sv.info[e.server].ip, sv.info[e.server].port) else (e.server, e.port)
  }

  /** The record is not even looked at: negative gives the message up, positive skips the record. */
  function Refusal(r: SyncConn): int {
    if r.version != 0 || r.kind != 0 then -1
    else if r.protocol != PROTO_TCP && r.protocol != PROTO_UDP then 1
    else 0
  }

  /** The server whose information was looked up last when a creation begins. */
  function LastSeen(sv: Servers, st: State, r: SyncConn, last: Option<nat>): Option<nat> {
    if KeyOf(r) in st.hash && st.hash[KeyOf(r)] in st.infos && st.infos[st.hash[KeyOf(r)]].server in sv.info
    then Some(st.infos[st.hash[KeyOf(r)]].server) else last
  }

  /** A creation that finds no index or no room in the hash: all it leaves behind is a place given back
      at the server looked up last, although none was granted. */
  function FailToCreate(sv: Servers, st: State, r: SyncConn, last: Option<nat>): (State, int)
    requires st.stats.Keys == sv.info.Keys
  {
    var k := ServerKeyOf(r);
    if k in sv.index && sv.index[k] !in sv.info then (st, 1)
    else
      var s := if k in sv.index then Some(sv.index[k]) else last;
      if s.Some? && s.value in sv.info then
        (st.(stats := st.stats[s.value := st.stats[s.value].(load := Delete(sv.info[s.value].t, st.stats[s.value].load))]), -1)
      else (st, -1)
  }

  /** A creation; `room` is the index it gets, if there is one and room in the hash. */
  function CreateIn(sv: Servers, st: State, r: SyncConn, room: Option<nat>, last: Option<nat>): (State, int)
    requires st.stats.Keys == sv.info.Keys
  {
    if room.Some? then CreateFrom(sv, st, r, room.value) else FailToCreate(sv, st, r, last)
  }

  /** `alvs_state_sync_process_conn`, with the room a new connection would find. */
  function ProcessIn(sv: Servers, st: State, r: SyncConn, room: Option<nat>, last: Option<nat>): (State, int)
    requires st.stats.Keys == sv.info.Keys
  {
    if Refusal(r) != 0 then (st, Refusal(r))
    else if KeyOf(r) !in st.hash then CreateIn(sv, st, r, room, last)
    else
      var i := st.hash[KeyOf(r)];
      if i !in st.infos then (st, 1)
      else
        var e := st.infos[i];
        if e.bound && e.server !in sv.info then (st, 1)
        else if ServerOf(sv, e) == (r.serverAddr, r.serverPort) then (UpdateFrom(sv, st, i, r), 0)
        else if IsInactive(RawFlags(r)) then (st, 0)
        else CreateIn(sv, DeleteEntry(sv, st, i), r, room, LastSeen(sv, st, r, last))
  }

  /** The same where a new connection gets index `pick`. */
  function Process(sv: Servers, st: State, r: SyncConn, pick: nat): (State, int)
    requires st.stats.Keys == sv.info.Keys
  {
    ProcessIn(sv, st, r, Some(pick), None)
  }

  /** The record creates an entry. */
  predicate Creates(sv: Servers, st: State, r: SyncConn)
    requires st.stats.Keys == sv.info.Keys
  {
    Refusal(r) == 0 &&
    (KeyOf(r) !in st.hash ||
      var i := st.hash[KeyOf(r)];
      && i in st.infos
      && (st.infos[i].bound ==> st.infos[i].server in sv.info)
      && ServerOf(sv, st.infos[i]) != (r.serverAddr, r.serverPort)
      && !IsInactive(RawFlags(r)))
  }

  /** The backup's tables, updated in place. */
  class BackupDb {
    const sv: Servers
    var hash: map<Key, nat>
    var infos: map<nat, Info>
    var pool: set<nat>
    var stats: map<nat, Stats>

    ghost function Now(): State
      reads this
    {
      State(hash, infos, pool, stats)
    }

    constructor (sv: Servers, st: State)
      ensures this.sv == sv && Now() == st
    {
      this.sv, hash, infos, pool, stats := sv, st.hash, st.infos, st.pool, st.stats;
    }

    method DeleteWithoutLock(i: nat)
      requires i in infos && stats.Keys == sv.info.Keys
      modifies this
      ensures Now() == DeleteEntry(sv, old(Now()), i) && stats.Keys == sv.info.Keys
    {
      var e := infos[i];
      if e.key !in hash {
        return;
      }
      hash := hash - {e.key};
      infos := infos - {i};
      if e.server in sv.info {
        if e.state == ESTABLISHED {
          stats := Charge(stats, e.server, 0, -1, 0);
        } else {
          stats := Charge(stats, e.server, 0, 0, -1);
        }
        stats := stats[e.server := stats[e.server].(load := Delete(sv.info[e.server].t, stats[e.server].load))];
      }
      pool := pool - {i};
    }

    method CreateNewEntry(bound: bool, server: nat, port: nat, r: SyncConn, room: Option<nat>, last: Option<nat>) returns (ok: bool)
      requires stats.Keys == sv.info.Keys && (bound ==> server in sv.info)
      modifies this
      ensures ok <==> room.Some?
      ensures ok ==>
        var e := NewEntry(bound, server, port, KeyOf(r), r.state, FlagsOf(r), false).(state := r.state % 0x100);
        Now() == State(old(hash)[e.key := room.value], old(infos)[room.value := e], old(pool) + {room.value},
          if !bound then old(stats)
          else if r.state == ESTABLISHED then Charge(old(stats), server, 1, 1, 0)
          else Charge(old(stats), server, 1, 0, 1))
      ensures !ok ==> Now() == old(Now()).(stats :=
        if last.Some? && last.value in sv.info
        then old(stats)[last.value := old(stats)[last.value].(load := Delete(sv.info[last.value].t, old(stats)[last.value].load))]
        else old(stats))
    {
      if room.None? {
        if last.Some? && last.value in sv.info {
          var s := last.value;
          stats := stats[s := stats[s].(load := Delete(sv.info[s].t, stats[s].load))];
        }
        return false;
      }
      var pick := room.value;
      pool := pool + {pick};
      var e := NewEntry(bound, server, port, KeyOf(r), r.state, FlagsOf(r), false).(state := r.state % 0x100);
      infos := infos[pick := e];
      hash := hash[e.key := pick];
      if bound {
        if r.state == ESTABLISHED {
          stats := Charge(stats, server, 1, 1, 0);
        } else {
          stats := Charge(stats, server, 1, 0, 1);
        }
      }
      return true;
    }

    /** `last` is the server looked up last before. */
    method ProcessConn(r: SyncConn, room: Option<nat>, last: Option<nat>) returns (rc: int)
      requires stats.Keys == sv.info.Keys
      modifies this
      ensures (Now(), rc) == ProcessIn(sv, old(Now()), r, room, last)
    {
      hide IsInactive, RawFlags, DeleteEntry, CreateIn, UpdateFrom;
      var seen := last;
      if r.version != 0 {
        return -1;
      }
      if r.kind != 0 {
        return -1;
      }
      if r.protocol != PROTO_TCP && r.protocol != PROTO_UDP {
        return 1;
      }
      var found := KeyOf(r) in hash;
      if found {
        var i := hash[KeyOf(r)];
        if i !in infos {
          return 1;
        }
        var e := infos[i];
        if e.bound && e.server !in sv.info {
          return 1;
        }
        if e.server in sv.info {
          seen := Some(e.server);
        }
        var (addr, port) := ServerOf(sv, e);
        if r.serverPort != port || r.serverAddr != addr {
          if IsInactive(RawFlags(r)) {
            return 0;
          }
          DeleteWithoutLock(i);
          found := false;
        } else {
          Update(i, r);
          return 0;
        }
      }
      rc := CreateFor(r, room, seen);
    }

    /** Creates the connection of a record, bound to its server if that is known. */
    method CreateFor(r: SyncConn, room: Option<nat>, last: Option<nat>) returns (rc: int)
      requires stats.Keys == sv.info.Keys
      modifies this
      ensures (Now(), rc) == CreateIn(sv, old(Now()), r, room, last)
    {
      hide SetInactive, ClearInactive, FlagsOf, Charge;
      var k := ServerKeyOf(r);
      var ok;
      if k in sv.index {
        if sv.index[k] !in sv.info {
          return 1;
        }
        ok := CreateNewEntry(true, sv.index[k], 0, r, room, Some(sv.index[k]));
      } else {
        ok := CreateNewEntry(false, r.serverAddr, r.serverPort, r, room, last);
      }
      return if ok then 0 else -1;
    }

    method Update(i: nat, r: SyncConn)
      requires i in infos && stats.Keys == sv.info.Keys && (infos[i].bound ==> infos[i].server in sv.info)
      modifies this
      ensures Now() == UpdateFrom(sv, old(Now()), i, r)
    {
      hide IsInactive, FlagsOf, Charge, Merge;
      var e := infos[i];
      var flags := FlagsOf(r);
      if IsInactive(e.flags) != IsInactive(flags) && e.bound {
        if IsInactive(flags) {
          stats := Charge(stats, e.server, 0, -1, 1);
        } else {
          stats := Charge(stats, e.server, 0, 1, -1);
        }
      }
      if !e.bound {
        var k := ServerKeyOf(r);
        if k in sv.index {
          e := e.(server := sv.index[k], bound := true);
        }
      }
      e := e.(flags := Merge(flags, e.flags));
      e := e.(state := r.state % 0x100);
      e := e.(aging := true, ageIteration := 0);
      infos := infos[i := e];
    }
  }

  // ---------------------------------------------------------------- what processing keeps

  lemma ProcessKeepsLinked(sv: Servers, st: State, r: SyncConn, room: Option<nat>, last: Option<nat>)
    requires st.Valid(sv) && (room.Some? ==> room.value !in st.pool)
    ensures ProcessIn(sv, st, r, room, last).0.Valid(sv)
  {
    hide Linked;
    Shape(sv, st);
    if Refusal(r) == 0 {
      if KeyOf(r) !in st.hash {
        CreateKeeps(sv, st, r, room, last);
      } else {
        var i := st.hash[KeyOf(r)];
        var e := st.infos[i];
        if e.bound ==> e.server in sv.info {
          if ServerOf(sv, e) == (r.serverAddr, r.serverPort) {
            LinkedUpdate(st.hash, st.infos, st.pool, i, Updated(sv, e, r));
          } else if !IsInactive(RawFlags(r)) {
            LinkedWithout(st.hash, st.infos, st.pool, i);
            CreateKeeps(sv, DeleteEntry(sv, st, i), r, room, LastSeen(sv, st, r, last));
          }
        }
      }
    }
  }

  lemma Shape(sv: Servers, st: State)
    requires st.Valid(sv)
    ensures st.infos.Keys == st.pool
    ensures forall k :: k in st.hash ==> st.hash[k] in st.infos && st.infos[st.hash[k]].key == k
  {
  }

  lemma CreateKeeps(sv: Servers, st: State, r: SyncConn, room: Option<nat>, last: Option<nat>)
    requires st.Valid(sv) && (room.Some? ==> room.value !in st.pool) && KeyOf(r) !in st.hash
    ensures CreateIn(sv, st, r, room, last).0.Valid(sv)
  {
    hide Linked;
    if room.Some? { LinkedWith(st.hash, st.infos, st.pool, room.value, EntryOf(sv, r)); }
  }

  // ---------------------------------------------------------------- processing twice

  lemma FlagFacts(r: SyncConn)
    ensures IsInactive(FlagsOf(r)) == IsInactive(RawFlags(r))
    ensures FlagAgrees(r) ==> (if r.state == ESTABLISHED then ClearInactive(FlagsOf(r)) else SetInactive(FlagsOf(r))) == FlagsOf(r)
  {
  }

  lemma MergeFacts(f: bv32, g: bv32)
    ensures Merge(f, f) == f && Merge(f, Merge(f, g)) == Merge(f, g)
    ensures IsInactive(Merge(f, g)) == IsInactive(f)
  {
    MergeSelf(f);
    MergeTwice(f, g);
    MergeInactive(f, g);
  }

  lemma MergeSelf(f: bv32)
    ensures Merge(f, f) == f
  {
  }

  lemma MergeTwice(f: bv32, g: bv32)
    ensures Merge(f, Merge(f, g)) == Merge(f, g)
  {
  }

  lemma MergeInactive(f: bv32, g: bv32)
    ensures IsInactive(Merge(f, g)) == IsInactive(f)
  {
  }

  lemma UpdatedTwice(sv: Servers, e: Info, r: SyncConn)
    ensures Updated(sv, Updated(sv, e, r), r) == Updated(sv, e, r)
    ensures IsInactive(Updated(sv, e, r).flags) == IsInactive(FlagsOf(r))
  {
    hide Merge, IsInactive, FlagsOf;
    MergeFacts(FlagsOf(r), e.flags);
  }

  /** The entry at the record's key stands for the record's server and has taken on its flag. */
  ghost predicate Settled(sv: Servers, st: State, r: SyncConn) {
    && st.Valid(sv)
    && KeyOf(r) in st.hash
    && var e := st.infos[st.hash[KeyOf(r)]];
    && (e.bound ==> e.server in sv.info)
    && ServerOf(sv, e) == (r.serverAddr, r.serverPort)
  }

  /** On a settled connection processing is an update. */
  lemma SettledUpdates(sv: Servers, st: State, r: SyncConn, room: Option<nat>, last: Option<nat>)
    requires Settled(sv, st, r) && Refusal(r) == 0
    ensures ProcessIn(sv, st, r, room, last) == (UpdateFrom(sv, st, st.hash[KeyOf(r)], r), 0)
  {
  }

  /** An update leaves a settled connection, and updating again changes nothing. */
  lemma UpdateSettles(sv: Servers, st: State, r: SyncConn)
    requires sv.Consistent() && Settled(sv, st, r)
    ensures var st' := UpdateFrom(sv, st, st.hash[KeyOf(r)], r);
      Settled(sv, st', r) && UpdateFrom(sv, st', st.hash[KeyOf(r)], r) == st'
  {
    hide Linked, IsInactive, FlagsOf;
    Shape(sv, st);
    var i := st.hash[KeyOf(r)];
    var e := st.infos[i];
    LinkedUpdate(st.hash, st.infos, st.pool, i, Updated(sv, e, r));
    UpdatedTwice(sv, e, r);
    assert st.infos[i := Updated(sv, e, r)][i := Updated(sv, e, r)] == st.infos[i := Updated(sv, e, r)];
  }

  /** A creation leaves a settled connection; updating it then changes nothing iff the record's flag
      agrees with its state. */
  lemma CreateSettles(sv: Servers, st: State, r: SyncConn, pick: nat)
    requires sv.Consistent() && st.Valid(sv) && pick !in st.pool && KeyOf(r) !in st.hash
    ensures var (st', rc) := CreateFrom(sv, st, r, pick);
      && rc == 0 && Settled(sv, st', r) && st'.hash[KeyOf(r)] == pick
      && (UpdateFrom(sv, st', pick, r) == st' <==> FlagAgrees(r))
  {
    hide Linked, EntryOf, Updated, IsInactive, FlagsOf, FlagAgrees, Charge;
    var st' := CreateFrom(sv, st, r, pick).0;
    var e := EntryOf(sv, r);
    CreateKeeps(sv, st, r, Some(pick), None);
    EntryServer(sv, r);
    NewFlags(sv, r);
    assert st'.infos[pick] == e;
    if FlagAgrees(r) {
      assert st'.infos[pick := e] == st'.infos;
    } else {
      assert UpdateFrom(sv, st', pick, r).infos[pick] != st'.infos[pick];
    }
  }

  lemma EntryServer(sv: Servers, r: SyncConn)
    requires sv.Consistent()
    ensures var e := EntryOf(sv, r);
      && e.key == KeyOf(r)
      && (e.bound <==> ServerKeyOf(r) in sv.index) && (e.bound ==> e.server in sv.info && e.server == sv.index[ServerKeyOf(r)])
      && ServerOf(sv, e) == (r.serverAddr, r.serverPort)
  {
  }

  /** An update by the record that created the entry finds nothing to change iff the flag agrees. */
  lemma NewFlags(sv: Servers, r: SyncConn)
    ensures var e := EntryOf(sv, r);
      && (FlagAgrees(r) <==> Updated(sv, e, r) == e)
      && (FlagAgrees(r) <==> IsInactive(e.flags) == IsInactive(FlagsOf(r)))
  {
    hide FlagsOf, RawFlags, IsInactive, ClearInactive, SetInactive, Merge;
    FlagFacts(r);
    MergeFacts(FlagsOf(r), EntryOf(sv, r).flags);
  }

  /** With or without room for a new entry: processing a record twice in a row is processing it once, from
      any state of the tables, iff the record creates no entry, or it finds room and its INACTIVE flag
      agrees with its state, or it finds none either time and there is no server to take a place from. */
  lemma Idempotent(sv: Servers, st: State, r: SyncConn, room: Option<nat>, last: Option<nat>, room': Option<nat>, last': Option<nat>)
    requires sv.Consistent() && st.Valid(sv) && (room.Some? ==> room.value !in st.pool)
    requires last'.Some? ==> last'.value in sv.info
    ensures var once := ProcessIn(sv, st, r, room, last);
      once.0.stats.Keys == sv.info.Keys &&
      (ProcessIn(sv, once.0, r, room', last') == once <==>
        || !Creates(sv, st, r)
        || (if room.Some? then FlagAgrees(r) else room'.None? && ServerKeyOf(r) !in sv.index && last'.None?))
  {
    hide Linked, IsInactive, FlagAgrees, UpdateFrom, CreateFrom, FailToCreate, DeleteEntry;
    ProcessKeepsLinked(sv, st, r, room, last);
    Shape(sv, st);
    if Refusal(r) == 0 {
      if Creates(sv, st, r) {
        var from := if KeyOf(r) in st.hash then DeleteEntry(sv, st, st.hash[KeyOf(r)]) else st;
        if room.Some? {
          DeleteKeeps(sv, st, r, room.value);
          CreateSettles(sv, from, r, room.value);
          SettledUpdates(sv, CreateFrom(sv, from, r, room.value).0, r, room', last');
        } else {
          DeleteKeepsValid(sv, st, r);
          FailTwice(sv, from, r, LastSeen(sv, st, r, last), room', last');
        }
      } else if Settled(sv, st, r) {
        UpdateSettles(sv, st, r);
        UpdateKeepsHash(sv, st, r);
        SettledUpdates(sv, UpdateFrom(sv, st, st.hash[KeyOf(r)], r), r, room', last');
      }
    }
  }

  /** A second try after a creation that failed. */
  lemma FailTwice(sv: Servers, st: State, r: SyncConn, last: Option<nat>, room': Option<nat>, last': Option<nat>)
    requires sv.Consistent() && st.Valid(sv) && KeyOf(r) !in st.hash && (last'.Some? ==> last'.value in sv.info)
    ensures var (st', rc) := FailToCreate(sv, st, r, last);
      && rc == -1 && KeyOf(r) !in st'.hash && st'.stats.Keys == sv.info.Keys
      && (CreateIn(sv, st', r, room', last') == (st', -1) <==> room'.None? && ServerKeyOf(r) !in sv.index && last'.None?)
  {
    hide Linked;
    var st' := FailToCreate(sv, st, r, last).0;
    var k := ServerKeyOf(r);
    var s := if k in sv.index then Some(sv.index[k]) else last';
    if room'.None? && s.Some? {
      var st2 := FailToCreate(sv, st', r, last').0;
      assert st2.stats[s.value].load.counter == st'.stats[s.value].load.counter - 1;
    }
  }

  lemma UpdateKeepsHash(sv: Servers, st: State, r: SyncConn)
    requires Settled(sv, st, r)
    ensures UpdateFrom(sv, st, st.hash[KeyOf(r)], r).hash == st.hash
  {
  }

  lemma DeleteKeepsValid(sv: Servers, st: State, r: SyncConn)
    requires st.Valid(sv)
    ensures KeyOf(r) in st.hash ==>
      var d := DeleteEntry(sv, st, st.hash[KeyOf(r)]);
      d.Valid(sv) && KeyOf(r) !in d.hash
  {
    hide Linked;
    Shape(sv, st);
    if KeyOf(r) in st.hash {
      LinkedWithout(st.hash, st.infos, st.pool, st.hash[KeyOf(r)]);
    }
  }

  lemma DeleteKeeps(sv: Servers, st: State, r: SyncConn, pick: nat)
    requires st.Valid(sv) && pick !in st.pool
    ensures KeyOf(r) in st.hash ==>
      var d := DeleteEntry(sv, st, st.hash[KeyOf(r)]);
      d.Valid(sv) && pick !in d.pool && KeyOf(r) !in d.hash
  {
    hide Linked;
    DeleteKeepsValid(sv, st, r);
  }

  // ---------------------------------------------------------------- what a record means

  /** Records of a version, type or protocol that is not known. */
  lemma UnknownRecords(sv: Servers, st: State, r: SyncConn, room: Option<nat>, last: Option<nat>)
    requires st.stats.Keys == sv.info.Keys
    ensures r.version != 0 || r.kind != 0 ==> ProcessIn(sv, st, r, room, last) == (st, -1)
    ensures r.version == 0 && r.kind == 0 && r.protocol != 6 && r.protocol != 17 ==> ProcessIn(sv, st, r, room, last) == (st, 1)
  {
  }

  /** Tables that do not agree: the record is skipped. */
  lemma BrokenTables(sv: Servers, st: State, r: SyncConn, room: Option<nat>, last: Option<nat>)
    requires st.stats.Keys == sv.info.Keys && Refusal(r) == 0
    ensures KeyOf(r) in st.hash && st.hash[KeyOf(r)] !in st.infos ==> ProcessIn(sv, st, r, room, last) == (st, 1)
    ensures KeyOf(r) in st.hash && st.hash[KeyOf(r)] in st.infos ==>
      var e := st.infos[st.hash[KeyOf(r)]];
      e.bound && e.server !in sv.info ==> ProcessIn(sv, st, r, room, last) == (st, 1)
    ensures KeyOf(r) !in st.hash && ServerKeyOf(r) in sv.index && sv.index[ServerKeyOf(r)] !in sv.info ==>
      ProcessIn(sv, st, r, room, last) == (st, 1)
  {
  }

  /** An inactive record of a connection that the backup has on another server. */
  lemma StaleRecords(sv: Servers, st: State, r: SyncConn, room: Option<nat>, last: Option<nat>)
    requires st.Valid(sv) && Refusal(r) == 0 && KeyOf(r) in st.hash && !Settled(sv, st, r) && IsInactive(RawFlags(r))
    ensures ProcessIn(sv, st, r, room, last).0 == st
  {
    hide Linked;
    Shape(sv, st);
  }

  /** Of the flags of a record an entry keeps those of 0x1f87, marked as synchronised. */
  predicate TakesFlags(f: bv32, raw: bv32) {
    f & 0x1ea7 == (raw & 0x1e87) | 0x20 && f & 0xffff_e058 == 0
  }

  lemma TakenFlags(r: SyncConn)
    ensures TakesFlags(SetInactive(FlagsOf(r)), RawFlags(r)) && TakesFlags(ClearInactive(FlagsOf(r)), RawFlags(r))
  {
  }

  /** The entry for a record, field by field. */
  ghost predicate MadeFrom(sv: Servers, e: Info, r: SyncConn) {
    var server := ServerKey(r.serverAddr, r.virtualAddr, r.serverPort, r.virtualPort, r.protocol);
    && e.key == Key(r.clientAddr, r.virtualAddr, r.clientPort, r.virtualPort, r.protocol)
    && e.state == r.state % 0x100 && e.aging && !e.delete && !e.reset && e.ageIteration == 0
    && (if server in sv.index then e.bound && e.server == sv.index[server]
        else !e.bound && e.server == r.serverAddr && e.port == r.serverPort)
    && (IsInactive(e.flags) <==> r.state != ESTABLISHED)
    && TakesFlags(e.flags, RawFlags(r))
  }

  lemma MadeFromRecord(sv: Servers, r: SyncConn)
    ensures MadeFrom(sv, EntryOf(sv, r), r)
  {
    hide IsInactive, RawFlags, FlagsOf, SetInactive, ClearInactive, TakesFlags;
    TakenFlags(r);
  }

  /** A record that creates an entry creates it under the record's key. */
  lemma CreatedMeans(sv: Servers, st: State, r: SyncConn, pick: nat)
    requires sv.Consistent() && st.Valid(sv) && pick !in st.pool && Creates(sv, st, r)
    ensures var st' := Process(sv, st, r, pick).0;
      var key := Key(r.clientAddr, r.virtualAddr, r.clientPort, r.virtualPort, r.protocol);
      key in st'.hash && st'.hash[key] == pick && pick in st'.infos && MadeFrom(sv, st'.infos[pick], r)
  {
    hide Linked, IsInactive, RawFlags, DeleteEntry, CreateFrom, MadeFrom;
    Shape(sv, st);
    var from := if KeyOf(r) in st.hash then DeleteEntry(sv, st, st.hash[KeyOf(r)]) else st;
    DeleteKeeps(sv, st, r, pick);
    MadeFromRecord(sv, r);
    CreatedAt(sv, from, r, pick);
  }

  lemma CreatedAt(sv: Servers, st: State, r: SyncConn, pick: nat)
    requires sv.Consistent() && st.stats.Keys == sv.info.Keys
    ensures var st' := CreateFrom(sv, st, r, pick).0;
      KeyOf(r) in st'.hash && st'.hash[KeyOf(r)] == pick && pick in st'.infos && st'.infos[pick] == EntryOf(sv, r)
  {
    EntryServer(sv, r);
    hide EntryOf;
  }

  /** Of the flags of an entry an update replaces those of 0x0700. */
  predicate ReplacesFlags(f: bv32, raw: bv32, g: bv32) {
    f & 0x0700 == raw & 0x0700 && f & 0xffff_f8ff == g & 0xffff_f8ff
  }

  lemma ReplacedFlags(r: SyncConn, g: bv32)
    ensures ReplacesFlags(Merge(FlagsOf(r), g), RawFlags(r), g)
  {
  }

  /** What an update makes of an entry, field by field: three flags, the state and the idle mark; and an
      unbound entry is bound if the server has become known. */
  ghost predicate UpdateOf(sv: Servers, e: Info, n: Info, r: SyncConn) {
    var server := ServerKey(r.serverAddr, r.virtualAddr, r.serverPort, r.virtualPort, r.protocol);
    && n.key == e.key && n.port == e.port && n.delete == e.delete && n.reset == e.reset
    && n.state == r.state % 0x100 && n.aging && n.ageIteration == 0
    && ReplacesFlags(n.flags, RawFlags(r), e.flags)
    && (n.bound <==> e.bound || server in sv.index)
    && n.server == (if !e.bound && server in sv.index then sv.index[server] else e.server)
  }

  /** A record of a connection that the backup has on the record's server changes that entry only. */
  lemma UpdatedMeans(sv: Servers, st: State, r: SyncConn, room: Option<nat>, last: Option<nat>)
    requires Settled(sv, st, r) && Refusal(r) == 0
    ensures var i, st' := st.hash[KeyOf(r)], ProcessIn(sv, st, r, room, last).0;
      && st'.hash == st.hash && st'.pool == st.pool && i in st.infos
      && st'.infos == st.infos[i := st'.infos[i]] && UpdateOf(sv, st.infos[i], st'.infos[i], r)
  {
    hide Linked, IsInactive, RawFlags, UpdateOf, Updated, ProcessIn, ServerOf;
    Shape(sv, st);
    var i := st.hash[KeyOf(r)];
    SettledUpdates(sv, st, r, room, last);
    UpdateOfRecord(sv, st.infos[i], r);
    assert UpdateFrom(sv, st, i, r).infos[i] == Updated(sv, st.infos[i], r);
  }

  lemma UpdateOfRecord(sv: Servers, e: Info, r: SyncConn)
    ensures UpdateOf(sv, e, Updated(sv, e, r), r)
  {
    hide FlagsOf, Merge, RawFlags, ReplacesFlags;
    ReplacedFlags(r, e.flags);
  }

  // ---------------------------------------------------------------- active and inactive counts

  /** The entries that belong to a server of this machine. */
  function BoundOnly(infos: map<nat, Info>): map<nat, Info> {
    map i | i in infos && infos[i].bound :: infos[i]
  }

  /** The counters of every server count the bound entries by state. */
  ghost predicate Counts(st: State) {
    Balanced(st.stats, BoundOnly(st.infos))
  }

  /** Every bound entry is on a known server and its INACTIVE flag says what its state says. */
  ghost predicate FlagsRight(sv: Servers, infos: map<nat, Info>) {
    forall i :: i in infos && infos[i].bound ==>
      infos[i].server in sv.info && (IsInactive(infos[i].flags) <==> infos[i].state != ESTABLISHED)
  }

  lemma BoundUpdate(infos: map<nat, Info>, i: nat, e: Info)
    ensures BoundOnly(infos[i := e]) == if e.bound then BoundOnly(infos)[i := e] else BoundOnly(infos) - {i}
  {
  }

  lemma BoundRemove(infos: map<nat, Info>, i: nat)
    ensures BoundOnly(infos - {i}) == BoundOnly(infos) - {i}
  {
  }

  /** The flag of the record says what the state says that is stored, in 8 bits. */
  predicate StoredAgrees(r: SyncConn) {
    IsInactive(RawFlags(r)) <==> r.state % 0x100 != ESTABLISHED
  }

  /** A bound entry is updated. */
  lemma UpdateBoundCounts(sv: Servers, st: State, i: nat, r: SyncConn)
    requires i in st.infos && st.stats.Keys == sv.info.Keys && FlagsRight(sv, st.infos) && Counts(st) && st.infos[i].bound
    ensures Counts(UpdateFrom(sv, st, i, r)) <==> StoredAgrees(r)
  {
    hide FlagsOf, RawFlags, Merge, IsInactive, BoundOnly;
    FlagFacts(r);
    var e, n, bound := st.infos[i], Updated(sv, st.infos[i], r), BoundOnly(st.infos);
    BoundUpdate(st.infos, i, n);
    BoundAt(st.infos, i);
    var s := e.server;
    var d := ActiveShare(n, s) - ActiveShare(e, s);
    BalancedUpdate(st.stats, bound, i, n, d);
    var stats' := UpdateFrom(sv, st, i, r).stats;
    if StoredAgrees(r) {
      assert stats' == Charge(st.stats, s, 0, d, -d);
    } else {
      assert stats'[s].active != Charge(st.stats, s, 0, d, -d)[s].active;
    }
  }

  lemma BoundAt(infos: map<nat, Info>, i: nat)
    requires i in infos
    ensures infos[i].bound ==> i in BoundOnly(infos) && BoundOnly(infos)[i] == infos[i]
    ensures !infos[i].bound ==> i !in BoundOnly(infos)
  {
  }

  /** An unbound entry is updated. */
  lemma UpdateUnboundCounts(sv: Servers, st: State, i: nat, r: SyncConn)
    requires sv.Consistent() && i in st.infos && st.stats.Keys == sv.info.Keys && Counts(st) && !st.infos[i].bound
    ensures Counts(UpdateFrom(sv, st, i, r)) <==> ServerKeyOf(r) !in sv.index
  {
    hide FlagsOf, RawFlags, Merge, IsInactive, BoundOnly;
    var n, bound := Updated(sv, st.infos[i], r), BoundOnly(st.infos);
    BoundUpdate(st.infos, i, n);
    BoundAt(st.infos, i);
    if ServerKeyOf(r) in sv.index {
      CountWith(bound, i, n, n.server);
    } else {
      assert bound - {i} == bound;
    }
  }

  /** By how much the two counts of a server fall short of its entries. */
  function Excess(st: State, s: nat): int
    requires s in st.stats
  {
    st.stats[s].active + st.stats[s].inactive - |ActiveOn(BoundOnly(st.infos), s)| - |InactiveOn(BoundOnly(st.infos), s)|
  }

  lemma DeleteBoundCounts(sv: Servers, st: State, i: nat)
    requires i in st.infos && st.infos[i].key in st.hash && st.stats.Keys == sv.info.Keys && Counts(st)
    requires st.infos[i].bound && st.infos[i].server in sv.info
    ensures Counts(DeleteEntry(sv, st, i))
  {
    hide BoundOnly, ActiveShare, InactiveShare, ActiveOn, InactiveOn, Delete;
    var e, bound := st.infos[i], BoundOnly(st.infos);
    BoundRemove(st.infos, i);
    BoundAt(st.infos, i);
    BalancedWithout(st.stats, bound, i);
  }

  lemma DeleteUnboundCounts(sv: Servers, st: State, i: nat)
    requires i in st.infos && st.infos[i].key in st.hash && st.stats.Keys == sv.info.Keys && Counts(st)
    requires !st.infos[i].bound
    ensures var e, d := st.infos[i], DeleteEntry(sv, st, i);
      if e.server !in sv.info then Counts(d) else e.server in d.stats && Excess(d, e.server) == -1
  {
    hide BoundOnly, ActiveOn, InactiveOn, Delete;
    var bound := BoundOnly(st.infos);
    BoundRemove(st.infos, i);
    BoundAt(st.infos, i);
    assert bound - {i} == bound;
  }

  /** An entry is deleted: the counters stay right iff it is bound or its address is no server's index. */
  lemma DeleteCounts(sv: Servers, st: State, i: nat)
    requires st.Valid(sv) && i in st.infos && FlagsRight(sv, st.infos) && Counts(st)
    ensures var e, d := st.infos[i], DeleteEntry(sv, st, i);
      && d.stats.Keys == sv.info.Keys
      && (e.bound || e.server !in sv.info ==> Counts(d))
      && (!e.bound && e.server in sv.info ==> Excess(d, e.server) == -1)
  {
    hide DeleteEntry, Counts, Excess, IsInactive;
    DeleteKeepsKeys(sv, st, i);
    if st.infos[i].bound { DeleteBoundCounts(sv, st, i); } else { DeleteUnboundCounts(sv, st, i); }
  }

  /** The counters after a creation and the entries they count. */
  lemma CreateShares(sv: Servers, st: State, r: SyncConn, pick: nat, s: nat)
    requires sv.Consistent() && st.stats.Keys == sv.info.Keys && pick !in st.infos && s in st.stats
    ensures var st', bound := CreateFrom(sv, st, r, pick).0, BoundOnly(st.infos);
      var mine := ServerKeyOf(r) in sv.index && sv.index[ServerKeyOf(r)] == s;
      && st'.stats.Keys == sv.info.Keys
      && st'.stats[s].active == st.stats[s].active + (if mine && r.state == ESTABLISHED then 1 else 0)
      && st'.stats[s].inactive == st.stats[s].inactive + (if mine && r.state != ESTABLISHED then 1 else 0)
      && |ActiveOn(BoundOnly(st'.infos), s)| == |ActiveOn(bound, s)| + (if mine && r.state % 0x100 == ESTABLISHED then 1 else 0)
      && |InactiveOn(BoundOnly(st'.infos), s)| == |InactiveOn(bound, s)| + (if mine && r.state % 0x100 != ESTABLISHED then 1 else 0)
  {
    EntryServer(sv, r);
    EntryState(sv, r);
    hide BoundOnly, EntryOf, ActiveOn, InactiveOn;
    var e, bound := EntryOf(sv, r), BoundOnly(st.infos);
    BoundUpdate(st.infos, pick, e);
    NotBound(st.infos, pick);
    assert bound - {pick} == bound;
    CountWith(bound, pick, e, s);
  }

  lemma EntryState(sv: Servers, r: SyncConn)
    ensures EntryOf(sv, r).state == r.state % 0x100
  {
  }

  /** An entry is created: the excess stays, and the counters stay right iff the entry is unbound or the
      state it is counted by is the one stored. */
  lemma CreateCounts(sv: Servers, st: State, r: SyncConn, pick: nat)
    requires sv.Consistent() && st.stats.Keys == sv.info.Keys && pick !in st.infos
    ensures var st' := CreateFrom(sv, st, r, pick).0;
      && st'.stats.Keys == sv.info.Keys
      && (forall s :: s in st.stats ==> Excess(st', s) == Excess(st, s))
      && (Counts(st) ==> (Counts(st') <==> ServerKeyOf(r) !in sv.index || CountedAsStored(r)))
  {
    hide BoundOnly, ActiveOn, InactiveOn, CreateFrom;
    var st' := CreateFrom(sv, st, r, pick).0;
    CreateKeys(sv, st, r, pick);
    forall s | s in st.stats
      ensures Excess(st', s) == Excess(st, s)
      ensures Counts(st) && (ServerKeyOf(r) !in sv.index || CountedAsStored(r)) ==>
        && st'.stats[s].active == |ActiveOn(BoundOnly(st'.infos), s)|
        && st'.stats[s].inactive == |InactiveOn(BoundOnly(st'.infos), s)|
    {
      CreateShares(sv, st, r, pick, s);
    }
    if Counts(st) && ServerKeyOf(r) in sv.index && !CountedAsStored(r) {
      CreateShares(sv, st, r, pick, sv.index[ServerKeyOf(r)]);
    }
  }

  lemma CreateKeys(sv: Servers, st: State, r: SyncConn, pick: nat)
    requires sv.Consistent() && st.stats.Keys == sv.info.Keys
    ensures CreateFrom(sv, st, r, pick).0.stats.Keys == sv.info.Keys
  {
  }

  lemma NotBound(infos: map<nat, Info>, i: nat)
    requires i !in infos
    ensures i !in BoundOnly(infos)
  {
  }

  lemma CountsExcess(st: State, s: nat)
    requires Counts(st) && s in st.stats
    ensures Excess(st, s) == 0
  {
  }

  /** What becomes of the counters when the record is to create an entry. */
  lemma CreateInCounts(sv: Servers, st: State, r: SyncConn, room: Option<nat>, last: Option<nat>)
    requires sv.Consistent() && st.stats.Keys == sv.info.Keys && (room.Some? ==> room.value !in st.infos)
    ensures var st' := CreateIn(sv, st, r, room, last).0;
      && st'.stats.Keys == sv.info.Keys
      && (forall s :: s in st.stats ==> Excess(st', s) == Excess(st, s))
      && (Counts(st) ==> (Counts(st') <==> room.None? || ServerKeyOf(r) !in sv.index || CountedAsStored(r)))
  {
    hide CreateFrom, BoundOnly;
    if room.Some? { CreateCounts(sv, st, r, room.value); }
  }

  /** The state an entry is counted by when it is created is the one that is stored. */
  predicate CountedAsStored(r: SyncConn) {
    r.state % 0x100 == ESTABLISHED ==> r.state == ESTABLISHED
  }

  /** Exactly which records keep the active and inactive counts right. */
  lemma CountsKept(sv: Servers, st: State, r: SyncConn, room: Option<nat>, last: Option<nat>)
    requires sv.Consistent() && st.Valid(sv) && FlagsRight(sv, st.infos) && Counts(st)
    requires room.Some? ==> room.value !in st.pool
    ensures var created := room.None? || ServerKeyOf(r) !in sv.index || CountedAsStored(r);
      Counts(ProcessIn(sv, st, r, room, last).0) <==>
        if Refusal(r) != 0 then true
        else if KeyOf(r) !in st.hash then created
        else
          var e := st.infos[st.hash[KeyOf(r)]];
          if Settled(sv, st, r) then (if e.bound then StoredAgrees(r) else ServerKeyOf(r) !in sv.index)
          else IsInactive(RawFlags(r)) || ((e.bound || e.server !in sv.info) && created)
  {
    hide Linked, Counts, IsInactive, RawFlags, DeleteEntry, CreateIn, UpdateFrom, FlagsRight, StoredAgrees, CountedAsStored, Excess;
    Shape(sv, st);
    if Refusal(r) == 0 {
      if KeyOf(r) !in st.hash {
        CreateInCounts(sv, st, r, room, last);
      } else {
        var i := st.hash[KeyOf(r)];
        var e := st.infos[i];
        if e.bound { FlagsAt(sv, st.infos, i); }
        if Settled(sv, st, r) {
          if e.bound { UpdateBoundCounts(sv, st, i, r); } else { UpdateUnboundCounts(sv, st, i, r); }
        } else if !IsInactive(RawFlags(r)) {
          var from, seen := DeleteEntry(sv, st, i), LastSeen(sv, st, r, last);
          DeleteCounts(sv, st, i);
          DeleteFrees(sv, st, i);
          CreateInCounts(sv, from, r, room, seen);
          if !e.bound && e.server in sv.info && Counts(CreateIn(sv, from, r, room, seen).0) {
            CountsExcess(CreateIn(sv, from, r, room, seen).0, e.server);
          }
        }
      }
    }
  }

  lemma FlagsAt(sv: Servers, infos: map<nat, Info>, i: nat)
    requires FlagsRight(sv, infos) && i in infos && infos[i].bound
    ensures infos[i].server in sv.info
  {
  }

  lemma DeleteFrees(sv: Servers, st: State, i: nat)
    requires st.Valid(sv) && i in st.infos
    ensures forall j :: j !in st.pool ==> j !in DeleteEntry(sv, st, i).infos
  {
  }

  // ---------------------------------------------------------------- totals

  /** Every server's total is the sum of its active and inactive counts. */
  ghost predicate TotalsAdd(stats: map<nat, Stats>) {
    forall s :: s in stats ==> stats[s].load.counter == stats[s].active + stats[s].inactive
  }

  /** A creation counts the connection but not in the total. */
  lemma CreateSkipsTotal(sv: Servers, st: State, r: SyncConn, pick: nat)
    requires sv.Consistent() && st.stats.Keys == sv.info.Keys && TotalsAdd(st.stats)
    ensures TotalsAdd(CreateFrom(sv, st, r, pick).0.stats) <==> ServerKeyOf(r) !in sv.index
  {
    EntryServer(sv, r);
    hide EntryOf;
    if ServerKeyOf(r) in sv.index {
      var s := EntryOf(sv, r).server;
      var stats' := CreateFrom(sv, st, r, pick).0.stats;
      assert stats'[s].load.counter + 1 == stats'[s].active + stats'[s].inactive;
    }
  }

  lemma DeleteKeepsTotals(sv: Servers, st: State, i: nat)
    requires i in st.infos && st.stats.Keys == sv.info.Keys && TotalsAdd(st.stats)
    ensures TotalsAdd(DeleteEntry(sv, st, i).stats)
  {
  }

  lemma UpdateKeepsTotals(sv: Servers, st: State, i: nat, r: SyncConn)
    requires i in st.infos && st.stats.Keys == sv.info.Keys && TotalsAdd(st.stats)
    requires st.infos[i].bound ==> st.infos[i].server in sv.info
    ensures TotalsAdd(UpdateFrom(sv, st, i, r).stats)
  {
  }

  /** A creation that fails takes one from the total. */
  lemma FailLowersTotal(sv: Servers, st: State, r: SyncConn, last: Option<nat>)
    requires sv.Consistent() && st.stats.Keys == sv.info.Keys && TotalsAdd(st.stats) && (last.Some? ==> last.value in sv.info)
    ensures TotalsAdd(FailToCreate(sv, st, r, last).0.stats) <==> ServerKeyOf(r) !in sv.index && last.None?
  {
    var k := ServerKeyOf(r);
    var s := if k in sv.index then Some(sv.index[k]) else last;
    if s.Some? {
      var stats' := FailToCreate(sv, st, r, last).0.stats;
      assert stats'[s.value].load.counter + 1 == stats'[s.value].active + stats'[s.value].inactive;
    }
  }

  /** A record that moves a connection off its server and finds no room for it: the message is given up, the
      connection is gone, and the total of the old server has lost two if the new one is unknown; otherwise
      both have lost one. */
  lemma MoveWithoutRoom(sv: Servers, st: State, r: SyncConn, last: Option<nat>)
    requires sv.Consistent() && st.Valid(sv) && KeyOf(r) in st.hash && Creates(sv, st, r) && st.infos[st.hash[KeyOf(r)]].bound
    ensures var e := st.infos[st.hash[KeyOf(r)]];
      var (st', rc) := ProcessIn(sv, st, r, None, last);
      && rc == -1 && KeyOf(r) !in st'.hash && e.server in st'.stats
      && (ServerKeyOf(r) !in sv.index ==> st'.stats[e.server].load.counter == st.stats[e.server].load.counter - 2)
      && (ServerKeyOf(r) in sv.index && sv.index[ServerKeyOf(r)] != e.server ==>
            && st'.stats[e.server].load.counter == st.stats[e.server].load.counter - 1
            && var s := sv.index[ServerKeyOf(r)];
            && s in st'.stats && st'.stats[s].load.counter == st.stats[s].load.counter - 1)
  {
    hide Linked, IsInactive, RawFlags;
    Shape(sv, st);
  }

  lemma CreateInTotal(sv: Servers, st: State, r: SyncConn, room: Option<nat>, last: Option<nat>)
    requires sv.Consistent() && st.stats.Keys == sv.info.Keys && TotalsAdd(st.stats) && (last.Some? ==> last.value in sv.info)
    ensures TotalsAdd(CreateIn(sv, st, r, room, last).0.stats) <==> ServerKeyOf(r) !in sv.index && (room.Some? || last.None?)
  {
    hide CreateFrom, FailToCreate, TotalsAdd;
    if room.Some? { CreateSkipsTotal(sv, st, r, room.value); } else { FailLowersTotal(sv, st, r, last); }
  }

  /** The law that a server's total is the sum of its active and inactive connections does not survive
      synchronisation: a record keeps it iff it needs no new entry, or its server is unknown and either
      there is room for the entry or no other server has been looked up. */
  lemma TotalsKept(sv: Servers, st: State, r: SyncConn, room: Option<nat>, last: Option<nat>)
    requires sv.Consistent() && st.Valid(sv) && TotalsAdd(st.stats) && (last.Some? ==> last.value in sv.info)
    ensures TotalsAdd(ProcessIn(sv, st, r, room, last).0.stats) <==>
      || !Creates(sv, st, r)
      || (ServerKeyOf(r) !in sv.index && (room.Some? || LastSeen(sv, st, r, last).None?))
  {
    Shape(sv, st);
    hide Linked, TotalsAdd, IsInactive, RawFlags, DeleteEntry, CreateIn, UpdateFrom;
    if Refusal(r) == 0 {
      if KeyOf(r) !in st.hash {
        CreateInTotal(sv, st, r, room, last);
      } else {
        var i := st.hash[KeyOf(r)];
        if st.infos[i].bound ==> st.infos[i].server in sv.info {
          UpdateKeepsTotals(sv, st, i, r);
          DeleteKeepsTotals(sv, st, i);
          DeleteKeepsKeys(sv, st, i);
          CreateInTotal(sv, DeleteEntry(sv, st, i), r, room, LastSeen(sv, st, r, last));
        }
      }
    }
  }

  lemma DeleteKeepsKeys(sv: Servers, st: State, i: nat)
    requires i in st.infos && st.stats.Keys == sv.info.Keys
    ensures DeleteEntry(sv, st, i).stats.Keys == sv.info.Keys
  {
  }

  // ---------------------------------------------------------------- mirroring the master

  const TIMER_INTERVAL_SEC := 16

  /** The entry's fields fit the record's. */
  predicate Encodable(e: Info) {
    && e.key.protocol < 0x100 && e.state < 0x100
    && e.key.clientPort < 0x1_0000 && e.key.virtualPort < 0x1_0000
    && e.key.clientIp < 0x1_0000_0000 && e.key.virtualIp < 0x1_0000_0000
  }

  /** The record the master writes for an entry whose server is at `ip` and `port`. */
  function RecordOf(e: Info, ip: U32, port: U16): SyncConn
    requires Encodable(e)
  {
    SyncConn(0, e.key.protocol, 0, CONN_SIZE, e.flags as int, e.state,
             e.key.clientPort, e.key.virtualPort, port, 0, Aging.Iterations(e.state) * TIMER_INTERVAL_SEC,
             e.key.clientIp, e.key.virtualIp, ip)
  }

  /** A record of a TCP or UDP entry of the master is never refused, names the entry's connection and its
      server, gives its state and timeout in seconds, and has a flag that agrees with its state. */
  lemma RecordIsGood(e: Info, ip: U32, port: U16, servers: set<nat>)
    requires Encodable(e) && GoodEntry(e, servers) && (e.key.protocol == PROTO_TCP || e.key.protocol == PROTO_UDP)
    ensures var r := RecordOf(e, ip, port);
      && Refusal(r) == 0 && KeyOf(r) == e.key && RawFlags(r) == e.flags && FlagAgrees(r)
      && (r.clientAddr, r.clientPort) == (e.key.clientIp, e.key.clientPort)
      && (r.virtualAddr, r.virtualPort) == (e.key.virtualIp, e.key.virtualPort)
      && (r.serverAddr, r.serverPort) == (ip, port)
      && r.protocol == e.key.protocol && r.state == e.state
      && r.kind == 0 && r.version == 0 && r.size == 36 && r.fwmark == 0
      && r.timeout == if e.state == ESTABLISHED then 960 else 16
  {
  }

  /** The backup has the record's connection, on the record's server, in the record's state. */
  ghost predicate Mirrored(sv: Servers, st: State, r: SyncConn) {
    && Settled(sv, st, r)
    && var e := st.infos[st.hash[KeyOf(r)]];
    && e.state == r.state % 0x100
    && IsInactive(e.flags) == IsInactive(RawFlags(r))
    && e.aging
  }

  /** A record is mirrored by processing it, unless it is an inactive one whose connection the backup
      has on another server. */
  lemma ProcessMirrors(sv: Servers, st: State, r: SyncConn, pick: nat)
    requires sv.Consistent() && st.Valid(sv) && pick !in st.pool && Refusal(r) == 0 && FlagAgrees(r)
    requires forall i :: i in st.infos && st.infos[i].bound ==> st.infos[i].server in sv.info
    ensures Process(sv, st, r, pick).1 == 0
    ensures Mirrored(sv, Process(sv, st, r, pick).0, r) <==> Creates(sv, st, r) || Settled(sv, st, r)
  {
    hide Linked, FlagAgrees;
    ProcessKeepsLinked(sv, st, r, Some(pick), None);
    Shape(sv, st);
    FlagFacts(r);
    if Creates(sv, st, r) {
      var from := if KeyOf(r) in st.hash then DeleteEntry(sv, st, st.hash[KeyOf(r)]) else st;
      DeleteKeeps(sv, st, r, pick);
      CreateSettles(sv, from, r, pick);
      NewFlags(sv, r);
    } else if Settled(sv, st, r) {
      UpdateSettles(sv, st, r);
      UpdatedTwice(sv, st.infos[st.hash[KeyOf(r)]], r);
      SettledUpdates(sv, st, r, Some(pick), None);
    }
  }

  /** A mirrored connection outlives the next scan iff its entry is new or was not marked for deletion: an
      update leaves that mark. */
  lemma NextScanKeepsIff(sv: Servers, st: State, r: SyncConn, pick: nat, iteration: nat)
    requires sv.Consistent() && st.Valid(sv) && pick !in st.pool && Refusal(r) == 0 && FlagAgrees(r)
    requires forall i :: i in st.infos && st.infos[i].bound ==> st.infos[i].server in sv.info
    requires Creates(sv, st, r) || Settled(sv, st, r)
    ensures var st' := Process(sv, st, r, pick).0;
      && Mirrored(sv, st', r)
      && (Aging.Decide(st'.infos[st'.hash[KeyOf(r)]], iteration) == Aging.AgeOut <==>
            Creates(sv, st, r) || !st.infos[st.hash[KeyOf(r)]].delete)
  {
    hide Linked, FlagAgrees, IsInactive, FlagsOf, RawFlags;
    ProcessMirrors(sv, st, r, pick);
    Shape(sv, st);
    if Creates(sv, st, r) {
      var from := if KeyOf(r) in st.hash then DeleteEntry(sv, st, st.hash[KeyOf(r)]) else st;
      DeleteKeeps(sv, st, r, pick);
      CreateSettles(sv, from, r, pick);
    } else {
      SettledUpdates(sv, st, r, Some(pick), None);
    }
  }
}
