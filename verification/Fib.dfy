/** The forwarding table: a priority TCAM kept sorted by prefix length, written one slot
    at a time by the control plane while the data plane keeps looking addresses up. */
module Fib {
  import opened Common

  /** A 32-bit IPv4 address, most significant bit first. */
  type Ip = b: seq<bool> | |b| == 32 witness seq(32, i => false)

  const TCAM_SIZE := 0x2000

  function ZeroIp(): Ip {
    seq(32, i => false)
  }

  datatype FibType = Neighbor | Gateway | Drop
  datatype FibResult = FibResult(kind: FibType, nextHop: Ip)

  datatype Route = Route(dest: Ip, len: nat)
  type Prefix = r: Route | r.len <= 32 witness Route(ZeroIp(), 0)

  /** A row of the internal database. */
  datatype DbRow = DbRow(result: FibResult, index: nat)

  /** A ternary entry: only the bits set in `mask` are compared. */
  datatype TcamEntry = TcamEntry(key: Ip, mask: Ip, result: FibResult)
  type Table = seq<Option<TcamEntry>>

  // ---------------------------------------------------------------- keys and masks

  function ShiftLeft(b: Ip, n: nat): (r: Ip)
    requires n <= 32
  {
    b[n..] + seq(n, i => false)
  }

  function MaskOf(len: nat): (m: Ip)
    requires len <= 32
    ensures forall i :: 0 <= i < 32 ==> (m[i] <==> i < len)
  {
    if len == 0 then ZeroIp() else ShiftLeft(seq(32, i => true), 32 - len)
  }

  function EntryOf(r: Prefix, result: FibResult): TcamEntry {
    TcamEntry(r.dest, MaskOf(r.len), result)
  }

  predicate Matches(e: TcamEntry, a: Ip) {
    forall i :: 0 <= i < 32 ==> e.mask[i] ==> e.key[i] == a[i]
  }

  /** `r` covers `a`: their leading `r.len` bits agree. */
  predicate Covers(r: Prefix, a: Ip) {
    r.dest[..r.len] == a[..r.len]
  }

  lemma MatchIsCover(r: Prefix, result: FibResult, a: Ip)
    ensures Matches(EntryOf(r, result), a) <==> Covers(r, a)
  {
    if Covers(r, a) {
      forall i | 0 <= i < 32 && MaskOf(r.len)[i] ensures r.dest[i] == a[i] {
        assert r.dest[..r.len][i] == a[..r.len][i];
      }
    }
  }

  // ---------------------------------------------------------------- lookups

  /** The hardware lookup: the lowest valid matching slot wins. */
  function TcamLookup(t: Table, a: Ip): Option<FibResult> {
    if t == [] then None
    else if t[0].Some? && Matches(t[0].value, a) then Some(t[0].value.result)
    else TcamLookup(t[1..], a)
  }

  ghost predicate SameLookup(s: Table, t: Table) {
    forall a: Ip :: TcamLookup(s, a) == TcamLookup(t, a)
  }

  ghost predicate IsLongestCover<V>(routes: map<Prefix, V>, a: Ip, r: Prefix) {
    && r in routes
    && Covers(r, a)
    && forall q :: q in routes && Covers(q, a) ==> q.len <= r.len
  }

  /** Longest-prefix match, as section 5.2.4.3 of RFC 1812 states it. */
  ghost predicate IsLpm<V>(routes: map<Prefix, V>, a: Ip, found: Option<V>) {
    match found
    case None => forall r :: r in routes ==> !Covers(r, a)
    case Some(v) => exists r :: IsLongestCover(routes, a, r) && routes[r] == v
  }

  /** A prefix with no host bits set. */
  predicate Canonical(r: Prefix) {
    forall i :: r.len <= i < 32 ==> !r.dest[i]
  }

  /** With canonical prefixes the longest match is unique, so `IsLpm` is a function of the address. */
  lemma LpmUnique<V>(routes: map<Prefix, V>, a: Ip, x: Option<V>, y: Option<V>)
    requires forall r :: r in routes ==> Canonical(r)
    requires IsLpm(routes, a, x) && IsLpm(routes, a, y)
    ensures x == y
  {
    if x.Some? && y.Some? {
      var r :| IsLongestCover(routes, a, r) && routes[r] == x.value;
      var q :| IsLongestCover(routes, a, q) && routes[q] == y.value;
      forall i | 0 <= i < 32 ensures r.dest[i] == q.dest[i] {
        if i < r.len {
          assert r.dest[..r.len][i] == a[..r.len][i] == q.dest[..q.len][i];
        }
      }
      assert r.dest == q.dest;
    }
  }

  lemma {:induction false} LookupSplit(s: Table, t: Table, a: Ip)
    ensures TcamLookup(s + t, a) == if TcamLookup(s, a).Some? then TcamLookup(s, a) else TcamLookup(t, a)
  {
    if s == [] {
      assert s + t == t;
    } else {
      assert (s + t)[1..] == s[1..] + t;
      LookupSplit(s[1..], t, a);
    }
  }

  lemma {:induction false} LookupHit(t: Table, a: Ip) returns (i: nat)
    ensures i <= |t|
    ensures forall j :: 0 <= j < i ==> t[j].None? || !Matches(t[j].value, a)
    ensures i < |t| ==> t[i].Some? && Matches(t[i].value, a) && TcamLookup(t, a) == Some(t[i].value.result)
    ensures i == |t| ==> TcamLookup(t, a) == None
  {
    if t == [] || (t[0].Some? && Matches(t[0].value, a)) {
      i := 0;
    } else {
      var k := LookupHit(t[1..], a);
      i := k + 1;
    }
  }

  // ---------------------------------------------------------------- sorted images

  /** `order` lists the routes of `db` by slot number. */
  ghost predicate Enumerates(order: seq<Prefix>, db: map<Prefix, DbRow>) {
    && (forall i :: 0 <= i < |order| ==> order[i] in db && db[order[i]].index == i)
    && (forall r :: r in db ==> db[r].index < |order| && order[db[r].index] == r)
  }

  ghost predicate LongestFirst(order: seq<Prefix>) {
    forall i, j :: 0 <= i < j < |order| ==> order[i].len >= order[j].len
  }

  ghost predicate IsImage(t: Table, order: seq<Prefix>, db: map<Prefix, DbRow>) {
    && |order| <= |t|
    && (forall i :: 0 <= i < |order| ==> order[i] in db && t[i] == Some(EntryOf(order[i], db[order[i]].result)))
    && (forall i :: |order| <= i < |t| ==> t[i] == None)
  }

  function Results(db: map<Prefix, DbRow>): map<Prefix, FibResult> {
    map r | r in db :: db[r].result
  }

  /** The table the control plane maintains answers every address by longest-prefix match. */
  lemma SortedImageIsLpm(t: Table, order: seq<Prefix>, db: map<Prefix, DbRow>, a: Ip)
    requires Enumerates(order, db) && LongestFirst(order) && IsImage(t, order, db)
    ensures IsLpm(Results(db), a, TcamLookup(t, a))
  {
    var i := LookupHit(t, a);
    forall r | r in db ensures Covers(r, a) ==> i <= db[r].index {
      var k := db[r].index;
      MatchIsCover(r, db[r].result, a);
      assert t[k] == Some(EntryOf(order[k], db[order[k]].result));
    }
    if i < |t| {
      var r := order[i];
      MatchIsCover(r, db[r].result, a);
      forall q | q in Results(db) && Covers(q, a) ensures q.len <= r.len {
        assert order[db[q].index] == q;
      }
      assert IsLongestCover(Results(db), a, r);
    }
  }

  // ---------------------------------------------------------------- intermediate tables

  /** `t` with its used slots `j..n` copied one slot further; slot `j` is in the table twice. */
  function Spread(t: Table, j: nat, n: nat): (r: Table)
    requires j <= n < |t|
    ensures |r| == |t|
  {
    if j == n then t else t[..j + 1] + t[j..n] + t[n + 1..]
  }

  /** Repeating an entry right behind itself, or leaving out an empty slot, changes no lookup. */
  lemma LookupRepeat(x: Table, e: Table, y: Table, a: Ip)
    ensures TcamLookup(x + (e + (e + y)), a) == TcamLookup(x + (e + y), a)
  {
    LookupSplit(x, e + (e + y), a);
    LookupSplit(e, e + y, a);
    LookupSplit(e, y, a);
    LookupSplit(x, e + y, a);
  }

  lemma LookupGap(x: Table, y: Table, a: Ip)
    ensures TcamLookup(x + ([None] + y), a) == TcamLookup(x + y, a)
  {
    LookupSplit(x, [None] + y, a);
    LookupSplit([None], y, a);
    LookupSplit(x, y, a);
  }

  lemma Regroup<T>(t: seq<T>, j: nat, n: nat)
    requires j < n < |t|
    ensures var x, e, y, z := t[..j], [t[j]], t[j + 1..n], t[n + 1..];
      && x + (e + (e + (y + z))) == t[..j + 1] + t[j..n] + z
      && x + (e + (y + z)) == (x + (e + y)) + z
      && (x + (e + y)) + ([t[n]] + z) == t
  {
    var x, e, y, z := t[..j], [t[j]], t[j + 1..n], t[n + 1..];
    assert t[..j + 1] == x + e && t[j..n] == e + y;
    assert (x + e) + (e + y) + z == x + (e + (e + (y + z)));
    assert t == t[..n] + t[n..] && t[..n] == x + (e + y);
  }

  lemma SpreadKeepsLookup(t: Table, j: nat, n: nat, a: Ip)
    requires j <= n < |t| && t[n] == None
    ensures TcamLookup(Spread(t, j, n), a) == TcamLookup(t, a)
  {
    hide TcamLookup;
    if j < n {
      var x, e, y, z := t[..j], [t[j]], t[j + 1..n], t[n + 1..];
      LookupRepeat(x, e, y + z, a);
      LookupGap(x + (e + y), z, a);
      Regroup(t, j, n);
    }
  }

  /** `t` without its slot `d`: the used slots `d + 1..n` move one slot down. */
  function Closed(t: Table, d: nat, n: nat): (r: Table)
    requires d < n <= |t|
    ensures |r| == |t|
  {
    t[..d] + t[d + 1..n] + [None] + t[n..]
  }

  /** `t` with its used slots `d + 1..=j` copied one slot down. */
  function Closing(t: Table, d: nat, j: nat): (r: Table)
    requires d <= j < |t|
    ensures |r| == |t|
  {
    t[..d] + t[d + 1..j + 1] + t[j..]
  }

  /** Once one slot has moved down, every lookup already answers as if the deletion were complete. */
  lemma ClosingIsClosed(t: Table, d: nat, j: nat, n: nat, a: Ip)
    requires d < j < n <= |t|
    ensures TcamLookup(Closing(t, d, j), a) == TcamLookup(Closed(t, d, n), a)
  {
    var c := Closed(t, d, n);
    assert c[n - 1] == None;
    assert Closing(t, d, j) == Spread(c, j - 1, n - 1) by {
      var p := t[..d] + t[d + 1..j + 1];
      assert c[..j] == p && c[j - 1..n - 1] == t[j..n] && c[n..] == t[n..];
      assert p + t[j..n] + t[n..] == p + t[j..];
    }
    SpreadKeepsLookup(c, j - 1, n - 1, a);
  }

  // ---------------------------------------------------------------- ordered selection

  ghost predicate Ascending(rows: seq<Prefix>, db: map<Prefix, DbRow>) {
    && (forall r :: r in rows ==> r in db)
    && forall i, j :: 0 <= i < j < |rows| ==> db[rows[i]].index < db[rows[j]].index
  }

  lemma Lowest(keys: set<Prefix>, db: map<Prefix, DbRow>) returns (r: Prefix)
    requires keys != {} && keys <= db.Keys
    ensures r in keys && forall q :: q in keys ==> db[r].index <= db[q].index
  {
    r :| r in keys;
    if keys != {r} {
      var q := Lowest(keys - {r}, db);
      r := if db[q].index < db[r].index then q else r;
    }
  }

  lemma NothingAscending(db: map<Prefix, DbRow>)
    ensures Ascending([], db)
  {
  }

  lemma AscendingAppend(rows: seq<Prefix>, db: map<Prefix, DbRow>, r: Prefix)
    requires Ascending(rows, db) && r in db && forall q :: q in rows ==> db[q].index < db[r].index
    ensures Ascending(rows + [r], db)
  {
    forall i, j | 0 <= i < j < |rows| + 1 ensures db[(rows + [r])[i]].index < db[(rows + [r])[j]].index {
      assert rows[i] in rows;
    }
  }

  /** `SELECT ... ORDER BY nps_index`: the rows of `keys` by slot number. */
  method SelectOrdered(keys: set<Prefix>, db: map<Prefix, DbRow>) returns (rows: seq<Prefix>)
    requires keys <= db.Keys
    requires forall r, q :: r in keys && q in keys && db[r].index == db[q].index ==> r == q
    ensures forall r :: r in rows <==> r in keys
    ensures Ascending(rows, db)
  {
    hide Ascending;
    rows := [];
    NothingAscending(db);
    var rest := keys;
    while rest != {}
      invariant rest <= keys
      invariant forall r :: r in rows <==> r in keys - rest
      invariant forall r, q :: r in rows && q in rest ==> db[r].index < db[q].index
      invariant Ascending(rows, db)
      decreases |rest|
    {
      ghost var lowest := Lowest(rest, db);
      var r :| r in rest && forall q :: q in rest ==> db[r].index <= db[q].index;
      AscendingAppend(rows, db, r);
      rest := rest - {r};
      rows := rows + [r];
    }
  }

  /** Selecting the routes of the slots `p..` returns them in table order. */
  lemma SelectedSuffix(rows: seq<Prefix>, order: seq<Prefix>, p: nat, db: map<Prefix, DbRow>)
    requires p <= |order| && Enumerates(order, db) && Ascending(rows, db)
    requires forall r :: r in rows <==> r in db && p <= db[r].index
    ensures rows == order[p..]
  {
    SortedListsEqual(rows, order[p..], db);
  }

  lemma HasElement<T>(s: seq<T>)
    ensures s != [] ==> exists x :: x in s
  {
    if s != [] { assert s[0] in s; }
  }

  lemma {:induction false} SortedListsEqual(s: seq<Prefix>, t: seq<Prefix>, db: map<Prefix, DbRow>)
    requires Ascending(s, db) && Ascending(t, db)
    requires forall r :: r in s <==> r in t
    ensures s == t
  {
    if s == [] {
      HasElement(t);
    } else {
      assert s[0] in t && t[0] in s;
      forall r ensures r in s[1..] <==> r in t[1..] {
        assert r in s[1..] ==> r in s && r != s[0];
        assert r in t[1..] ==> r in t && r != t[0];
      }
      SortedListsEqual(s[1..], t[1..], db);
    }
  }

  // ---------------------------------------------------------------- the control plane's table

  datatype Rc = Ok | InternalError | Failure

  /** What a netlink route says beyond its destination prefix. */
  datatype RouteAttr = Unicast(gateway: Option<Ip>, hops: nat) | OtherType

  function SetFibParams(attr: RouteAttr, prev: FibResult): FibResult {
    if attr.OtherType? then prev.(kind := Drop)
    else if attr.gateway.None? then prev.(kind := Neighbor)
    else if attr.hops > 1 then prev.(kind := Drop)
    else FibResult(Gateway, attr.gateway.value)
  }

  /** The zeroed entry an add starts from. */
  function EmptyResult(): FibResult {
    FibResult(Neighbor, ZeroIp())
  }

  /** The two tables differ in at most one slot. */
  ghost predicate OneSlotApart(s: Table, t: Table) {
    && |s| == |t|
    && forall i, j :: 0 <= i < |s| && 0 <= j < |s| && s[i] != t[i] && s[j] != t[j] ==> i == j
  }

  ghost predicate SlotBySlot(h: seq<Table>) {
    forall k :: 0 < k < |h| ==> OneSlotApart(h[k - 1], h[k])
  }

  /** All of `h` answers lookups as `t` does. */
  ghost predicate AllSame(h: seq<Table>, t: Table) {
    forall k :: 0 <= k < |h| ==> SameLookup(h[k], t)
  }

  lemma ExtendsStep(h: seq<Table>, h0: seq<Table>, t: Table, t0: Table)
    requires h0 <= h && AllSame(h[|h0|..], t0) && SameLookup(t, t0)
    ensures h0 <= h + [t] && AllSame((h + [t])[|h0|..], t0)
  {
    assert (h + [t])[|h0|..] == h[|h0|..] + [t];
  }

  /** The rows of the slots `j..`, each one slot further. */
  function MovedUp(db: map<Prefix, DbRow>, j: nat): map<Prefix, DbRow> {
    map r | r in db :: if db[r].index >= j then db[r].(index := db[r].index + 1) else db[r]
  }

  lemma MoveUpStart(db: map<Prefix, DbRow>, t: Table, h: seq<Table>, order: seq<Prefix>)
    requires Enumerates(order, db) && |order| < |t|
    ensures MovedUp(db, |order|) == db && Spread(t, |order|, |order|) == t
    ensures h <= h && AllSame(h[|h|..], t)
  {
  }

  lemma MovedUpStep(db: map<Prefix, DbRow>, order: seq<Prefix>, j: nat)
    requires Enumerates(order, db) && j < |order|
    ensures order[j] in db && order[j] in MovedUp(db, j + 1) && MovedUp(db, j + 1)[order[j]] == db[order[j]]
    ensures db[order[j]].index == j
    ensures MovedUp(db, j) == MovedUp(db, j + 1)[order[j] := DbRow(db[order[j]].result, j + 1)]
  {
    forall r | r in db && r != order[j] ensures db[r].index != j {
      assert order[db[r].index] == r;
    }
  }

  /** One step of the upward shift: copying slot `j` into slot `j + 1`. */
  lemma SpreadStep(t: Table, order: seq<Prefix>, db: map<Prefix, DbRow>, j: nat)
    requires IsImage(t, order, db) && j < |order| < |t|
    ensures Spread(t, j, |order|) == Spread(t, j + 1, |order|)[j + 1 := Some(EntryOf(order[j], db[order[j]].result))]
    ensures SameLookup(Spread(t, j, |order|), t)
  {
    hide TcamLookup, EntryOf;
    SpreadWrite(t, j, |order|);
    forall a: Ip ensures TcamLookup(Spread(t, j, |order|), a) == TcamLookup(t, a) {
      SpreadKeepsLookup(t, j, |order|, a);
    }
  }

  lemma SpreadWrite(t: Table, j: nat, n: nat)
    requires j < n < |t|
    ensures Spread(t, j, n) == Spread(t, j + 1, n)[j + 1 := t[j]]
  {
    forall i | 0 <= i < |t| ensures Spread(t, j, n)[i] == Spread(t, j + 1, n)[j + 1 := t[j]][i] {
    }
  }

  /** The rows of the slots `d + 1..=j`, each one slot lower. */
  function MovedDown(db: map<Prefix, DbRow>, d: nat, j: nat): map<Prefix, DbRow> {
    map r | r in db :: if d < db[r].index <= j then db[r].(index := db[r].index - 1) else db[r]
  }

  lemma MoveDownStart(db: map<Prefix, DbRow>, t: Table, h: seq<Table>, order: seq<Prefix>, d: nat)
    requires Enumerates(order, db) && d < |order| <= |t|
    ensures MovedDown(db, d, d) == db && Closing(t, d, d) == t
    ensures h <= h && AllSame(h[|h|..], Closed(t, d, |order|))
  {
  }

  lemma MovedDownStep(db: map<Prefix, DbRow>, order: seq<Prefix>, d: nat, j: nat)
    requires Enumerates(order, db) && d < j < |order|
    ensures order[j] in db && order[j] in MovedDown(db, d, j - 1) && MovedDown(db, d, j - 1)[order[j]] == db[order[j]]
    ensures db[order[j]].index == j
    ensures MovedDown(db, d, j) == MovedDown(db, d, j - 1)[order[j] := DbRow(db[order[j]].result, j - 1)]
  {
    forall r | r in db && r != order[j] ensures db[r].index != j {
      assert order[db[r].index] == r;
    }
  }

  /** One step of the downward shift: copying slot `j` into slot `j - 1`. */
  lemma ClosingStep(t: Table, order: seq<Prefix>, db: map<Prefix, DbRow>, d: nat, j: nat)
    requires IsImage(t, order, db) && d < j < |order|
    ensures Closing(t, d, j) == Closing(t, d, j - 1)[j - 1 := Some(EntryOf(order[j], db[order[j]].result))]
    ensures SameLookup(Closing(t, d, j), Closed(t, d, |order|))
  {
    forall a: Ip ensures TcamLookup(Closing(t, d, j), a) == TcamLookup(Closed(t, d, |order|), a) {
      ClosingIsClosed(t, d, j, |order|, a);
    }
  }

  /** The slot order after an add: `r` stands at slot `p`, behind every route at least as long. */
  function Inserted(order: seq<Prefix>, r: Prefix, p: nat): seq<Prefix>
    requires p <= |order|
  {
    order[..p] + [r] + order[p..]
  }

  lemma InsertedEnumerates(order: seq<Prefix>, db: map<Prefix, DbRow>, r: Prefix, res: FibResult, p: nat)
    requires Enumerates(order, db) && r !in db && p <= |order|
    ensures Enumerates(Inserted(order, r, p), MovedUp(db, p)[r := DbRow(res, p)])
  {
    var order', db' := Inserted(order, r, p), MovedUp(db, p)[r := DbRow(res, p)];
    forall i | 0 <= i < |order'| ensures order'[i] in db' && db'[order'[i]].index == i {
      if i != p { assert order'[i] == order[if i < p then i else i - 1]; }
    }
    forall q | q in db' ensures db'[q].index < |order'| && order'[db'[q].index] == q {
      if q != r { assert order[db[q].index] == q; }
    }
  }

  lemma InsertedImage(t: Table, order: seq<Prefix>, db: map<Prefix, DbRow>, r: Prefix, res: FibResult, p: nat)
    requires IsImage(t, order, db) && r !in db && p <= |order| < |t|
    ensures IsImage(Spread(t, p, |order|)[p := Some(EntryOf(r, res))], Inserted(order, r, p),
                    MovedUp(db, p)[r := DbRow(res, p)])
  {
    var order', db' := Inserted(order, r, p), MovedUp(db, p)[r := DbRow(res, p)];
    var t' := Spread(t, p, |order|)[p := Some(EntryOf(r, res))];
    forall i | 0 <= i < |order'|
      ensures order'[i] in db' && t'[i] == Some(EntryOf(order'[i], db'[order'[i]].result))
    {
      var k := if i < p then i else i - 1;
      if i != p { assert order'[i] == order[k] && t'[i] == t[k]; }
    }
  }

  lemma InsertedResults(db: map<Prefix, DbRow>, r: Prefix, res: FibResult, p: nat)
    ensures Results(MovedUp(db, p)[r := DbRow(res, p)]) == Results(db)[r := res]
  {
  }

  lemma InsertedSorted(order: seq<Prefix>, r: Prefix, p: nat)
    requires LongestFirst(order) && p <= |order|
    requires forall i :: 0 <= i < |order| ==> (order[i].len < r.len <==> p <= i)
    ensures LongestFirst(Inserted(order, r, p))
  {
  }

  function Removed(order: seq<Prefix>, d: nat): seq<Prefix>
    requires d < |order|
  {
    order[..d] + order[d + 1..]
  }

  lemma RemovedEnumerates(order: seq<Prefix>, db: map<Prefix, DbRow>, r: Prefix)
    requires Enumerates(order, db) && r in db
    ensures Enumerates(Removed(order, db[r].index), MovedDown(db, db[r].index, |order| - 1) - {r})
  {
    var d := db[r].index;
    var order', db' := Removed(order, d), MovedDown(db, d, |order| - 1) - {r};
    forall i | 0 <= i < |order'| ensures order'[i] in db' && db'[order'[i]].index == i {
      assert order'[i] == order[if i < d then i else i + 1];
    }
    forall q | q in db' ensures db'[q].index < |order'| && order'[db'[q].index] == q {
      assert order[db[q].index] == q;
    }
  }

  lemma RemovedRow(order: seq<Prefix>, db: map<Prefix, DbRow>, r: Prefix, k: nat)
    requires Enumerates(order, db) && r in db && k < |order| && k != db[r].index
    ensures order[k] in db && order[k] in MovedDown(db, db[r].index, |order| - 1) - {r}
    ensures (MovedDown(db, db[r].index, |order| - 1) - {r})[order[k]].result == db[order[k]].result
  {
  }

  lemma RemovedImage(t: Table, order: seq<Prefix>, db: map<Prefix, DbRow>, r: Prefix)
    requires Enumerates(order, db) && IsImage(t, order, db) && r in db
    ensures IsImage(Closed(t, db[r].index, |order|), Removed(order, db[r].index),
                    MovedDown(db, db[r].index, |order| - 1) - {r})
  {
    hide MovedDown, EntryOf;
    var d := db[r].index;
    var order', db', t' := Removed(order, d), MovedDown(db, d, |order| - 1) - {r}, Closed(t, d, |order|);
    forall i | 0 <= i < |order'|
      ensures order'[i] in db' && t'[i] == Some(EntryOf(order'[i], db'[order'[i]].result))
    {
      var k := if i < d then i else i + 1;
      RemovedRow(order, db, r, k);
      assert order'[i] == order[k] && t'[i] == t[k];
    }
  }

  lemma RemovedResults(db: map<Prefix, DbRow>, r: Prefix, d: nat, j: nat)
    ensures Results(MovedDown(db, d, j) - {r}) == Results(db) - {r}
  {
  }

  lemma RemovedSorted(order: seq<Prefix>, d: nat)
    requires LongestFirst(order) && d < |order|
    ensures LongestFirst(Removed(order, d))
  {
  }

  /** The last write of a deletion, to the table that the shift has made of `t`: everything the table
      promises is kept, and all tables written since `h0` answer alike. */
  lemma DeleteLast(t: Table, h0: seq<Table>, h: seq<Table>, order: seq<Prefix>, db: map<Prefix, DbRow>, r: Prefix)
    requires Enumerates(order, db) && LongestFirst(order) && IsImage(t, order, db) && r in db
    requires db[r].index < |order| <= |t| && h0 <= h && AllSame(h[|h0|..], Closed(t, db[r].index, |order|))
    ensures var d, n := db[r].index, |order|;
      && var t', order', db' := Closing(t, d, n - 1)[n - 1 := None], Removed(order, d), MovedDown(db, d, n - 1) - {r};
      && Enumerates(order', db') && LongestFirst(order') && IsImage(t', order', db')
      && Results(db') == Results(db) - {r} && |order'| == n - 1
      && h0 < h + [t'] && AllSame((h + [t'])[|h0|..], t')
  {
    hide Enumerates, LongestFirst, IsImage, MovedDown, Closing, Closed, Removed, Results, AllSame;
    var d, n := db[r].index, |order|;
    RemovedEnumerates(order, db, r);
    RemovedImage(t, order, db, r);
    RemovedResults(db, r, d, n - 1);
    RemovedSorted(order, d);
    RemovedLength(order, d);
    ClosedLast(t, d, n);
    AllSameStep(h[|h0|..], Closed(t, d, n));
    assert (h + [Closed(t, d, n)])[|h0|..] == h[|h0|..] + [Closed(t, d, n)];
  }

  lemma InsertedLength(order: seq<Prefix>, r: Prefix, p: nat)
    requires p <= |order|
    ensures |Inserted(order, r, p)| == |order| + 1
  {
  }

  lemma RemovedLength(order: seq<Prefix>, d: nat)
    requires d < |order|
    ensures |Removed(order, d)| == |order| - 1
  {
  }

  lemma SlotIsUsed(order: seq<Prefix>, db: map<Prefix, DbRow>, r: Prefix)
    requires Enumerates(order, db) && r in db
    ensures db[r].index < |order|
  {
  }

  lemma ClosedLast(t: Table, d: nat, n: nat)
    requires d < n <= |t|
    ensures Closing(t, d, n - 1)[n - 1 := None] == Closed(t, d, n)
  {
  }

  lemma AllSameStep(h: seq<Table>, t: Table)
    requires AllSame(h, t)
    ensures AllSame(h + [t], t)
  {
  }

  lemma ModifyKeeps(t: Table, order: seq<Prefix>, db: map<Prefix, DbRow>, r: Prefix, res: FibResult)
    requires Enumerates(order, db) && IsImage(t, order, db) && r in db
    ensures var d := db[r].index;
      && Enumerates(order, db[r := DbRow(res, d)])
      && d < |t| && IsImage(t[d := Some(EntryOf(r, res))], order, db[r := DbRow(res, d)])
      && Results(db[r := DbRow(res, d)]) == Results(db)[r := res]
  {
  }

  lemma FirstShorter(order: seq<Prefix>, len: nat) returns (p: nat)
    requires LongestFirst(order)
    ensures p <= |order|
    ensures forall i :: 0 <= i < |order| ==> (order[i].len < len <==> p <= i)
  {
    p := 0;
    while p < |order| && order[p].len >= len
      invariant p <= |order|
      invariant forall i :: 0 <= i < p ==> order[i].len >= len
    {
      p := p + 1;
    }
  }

  class FibDb {
    var db: map<Prefix, DbRow>
    const tcam: array<Option<TcamEntry>>
    var count: nat

    /** The routes by slot. */
    ghost var order: seq<Prefix>
    /** Every content the TCAM has had, one per slot write. */
    ghost var history: seq<Table>

    ghost predicate Valid()
      reads this, tcam
    {
      && Recorded()
      && count == |order| <= TCAM_SIZE
      && Enumerates(order, db)
      && LongestFirst(order)
      && IsImage(tcam[..], order, db)
    }

    ghost predicate Recorded()
      reads this, tcam
    {
      && tcam.Length == TCAM_SIZE
      && history != []
      && history[|history| - 1] == tcam[..]
      && SlotBySlot(history)
    }

    constructor ()
      ensures Valid() && fresh(tcam) && db == map[] && |history| == 1
    {
      db, count, order := map[], 0, [];
      tcam := new Option<TcamEntry>[TCAM_SIZE](i => None);
      new;
      history := [tcam[..]];
    }

    /** One hardware write of one slot. */
    method WriteSlot(i: nat, e: Option<TcamEntry>)
      requires Recorded() && i < TCAM_SIZE
      modifies this`history, tcam
      ensures Recorded()
      ensures tcam[..] == old(tcam[..])[i := e]
      ensures history == old(history) + [tcam[..]]
    {
      tcam[i] := e;
      history := history + [tcam[..]];
    }

    /** Rewrites the row of `r`, in the database and then in the TCAM. */
    method Put(r: Prefix, row: DbRow)
      requires Recorded() && row.index < TCAM_SIZE
      modifies this`db, this`history, tcam
      ensures Recorded()
      ensures db == old(db)[r := row]
      ensures tcam[..] == old(tcam[..])[row.index := Some(EntryOf(r, row.result))]
      ensures history == old(history) + [tcam[..]]
    {
      db := db[r := row];
      WriteSlot(row.index, Some(EntryOf(r, row.result)));
    }

    /** Moves the routes `rows`, those of the slots `p..count`, one slot up, last slot first,
        and returns the slot this frees. */
    method MoveUp(rows: seq<Prefix>, ghost p: nat, ghost ord: seq<Prefix>) returns (slot: nat)
      requires Recorded() && tcam.Length == TCAM_SIZE && p <= |ord| == count < TCAM_SIZE && rows == ord[p..]
      requires Enumerates(ord, db) && IsImage(tcam[..], ord, db)
      modifies this`db, this`history, tcam
      ensures slot == p
      ensures Recorded() && tcam[..] == Spread(old(tcam[..]), p, |ord|)
      ensures db == MovedUp(old(db), p)
      ensures old(history) <= history && AllSame(history[|old(history)|..], old(tcam[..]))
    {
      hide *;
      ghost var t0, h0, db0 := tcam[..], history, db;
      MoveUpStart(db, t0, h0, ord);
      var k := |rows|;
      slot := count;
      while k > 0
        invariant 0 <= k <= |rows| && slot == p + k
        invariant Recorded() && tcam[..] == Spread(t0, p + k, |ord|)
        invariant db == MovedUp(db0, p + k)
        invariant h0 <= history && AllSame(history[|h0|..], t0)
      {
        k := k - 1;
        MovedUpStep(db0, ord, p + k);
        SpreadStep(t0, ord, db0, p + k);
        ExtendsStep(history, h0, Spread(t0, p + k, |ord|), t0);
        var r := rows[k];
        var row := DbRow(db[r].result, db[r].index + 1);
        assert r == ord[p + k] && row == DbRow(db0[r].result, p + k + 1);
        Put(r, row);
        slot := row.index - 1;
      }
    }

    /** Moves the routes `rows`, those of the slots `d + 1..count`, one slot down, first slot first. */
    method MoveDown(rows: seq<Prefix>, ghost d: nat, ghost ord: seq<Prefix>)
      requires Recorded() && tcam.Length == TCAM_SIZE && d < |ord| <= TCAM_SIZE && rows == ord[d + 1..]
      requires Enumerates(ord, db) && IsImage(tcam[..], ord, db)
      modifies this`db, this`history, tcam
      ensures Recorded() && tcam[..] == Closing(old(tcam[..]), d, |ord| - 1)
      ensures db == MovedDown(old(db), d, |ord| - 1)
      ensures old(history) <= history
      ensures AllSame(history[|old(history)|..], Closed(old(tcam[..]), d, |ord|))
    {
      hide *;
      ghost var t0, h0, db0 := tcam[..], history, db;
      ghost var t1 := Closed(t0, d, |ord|);
      MoveDownStart(db, t0, h0, ord, d);
      var k := 0;
      while k < |rows|
        invariant 0 <= k <= |rows|
        invariant Recorded() && tcam[..] == Closing(t0, d, d + k)
        invariant db == MovedDown(db0, d, d + k)
        invariant h0 <= history && AllSame(history[|h0|..], t1)
      {
        k := k + 1;
        MovedDownStep(db0, ord, d, d + k);
        ClosingStep(t0, ord, db0, d, d + k);
        ExtendsStep(history, h0, Closing(t0, d, d + k), t1);
        var r := rows[k - 1];
        var row := DbRow(db[r].result, db[r].index - 1);
        assert r == ord[d + k] && row == DbRow(db0[r].result, d + k - 1);
        Put(r, row);
      }
    }

    /** The rows an add has to move, by slot number. */
    method SelectShorter(len: nat) returns (rows: seq<Prefix>, ghost p: nat)
      requires Valid()
      ensures p <= count && rows == order[p..]
      ensures forall i :: 0 <= i < count ==> (order[i].len < len <==> p <= i)
    {
      p := FirstShorter(order, len);
      rows := SelectOrdered((set r | r in db && r.len < len), db);
      SelectedSuffix(rows, order, p, db);
    }

    /** The rows a delete has to move, by slot number. */
    method SelectAbove(slot: nat) returns (rows: seq<Prefix>)
      requires Valid() && slot < count
      ensures rows == order[slot + 1..]
    {
      rows := SelectOrdered((set r | r in db && slot < db[r].index), db);
      SelectedSuffix(rows, order, slot + 1, db);
    }

    /** Adds a route; a route that is already there or a full table is refused. */
    method Add(r: Prefix, attr: RouteAttr) returns (rc: Rc)
      requires Valid()
      modifies this, tcam
      ensures Valid()
      ensures rc == if r in old(db) then Failure else if |old(order)| == TCAM_SIZE then InternalError else Ok
      ensures rc != Ok ==> db == old(db) && tcam[..] == old(tcam[..]) && history == old(history)
      ensures rc == Ok ==> Results(db) == Results(old(db))[r := SetFibParams(attr, EmptyResult())]
      // every lookup answers as before until the last write
      ensures rc == Ok ==>
        old(history) < history && AllSame(history[|old(history)|..|history| - 1], old(tcam[..]))
    {
      hide Enumerates, LongestFirst, IsImage, SlotBySlot, AllSame, MovedUp, Spread, Inserted, EntryOf, Results;
      if r in db { return Failure; }
      if count == TCAM_SIZE { return InternalError; }
      ghost var t0, h0, db0 := tcam[..], history, db;
      var result := SetFibParams(attr, EmptyResult());
      var rows, p := SelectShorter(r.len);
      var slot := MoveUp(rows, p, order);
      ghost var h1 := history;
      Put(r, DbRow(result, slot));
      InsertedEnumerates(order, db0, r, result, slot);
      InsertedImage(t0, order, db0, r, result, slot);
      InsertedResults(db0, r, result, slot);
      InsertedSorted(order, r, slot);
      InsertedLength(order, r, slot);
      assert history[|h0|..|history| - 1] == h1[|h0|..];
      count := count + 1;
      order := Inserted(order, r, slot);
      rc := Ok;
    }

    /** Deletes a route. */
    method Delete(r: Prefix) returns (rc: Rc)
      requires Valid()
      modifies this, tcam
      ensures Valid()
      ensures rc == if r in old(db) then Ok else Failure
      ensures rc != Ok ==> db == old(db) && tcam[..] == old(tcam[..]) && history == old(history)
      ensures rc == Ok ==> Results(db) == Results(old(db)) - {r}
      // every lookup answers as after the deletion from the first write on
      ensures rc == Ok ==> old(history) < history && AllSame(history[|old(history)|..], tcam[..])
    {
      hide Enumerates, LongestFirst, IsImage, SlotBySlot, AllSame, MovedDown, Closing, Closed, Removed, EntryOf, Results;
      if r !in db { return Failure; }
      var slot := db[r].index;
      SlotIsUsed(order, db, r);
      ghost var t0, h0, db0 := tcam[..], history, db;
      MoveDownStart(db, t0, h0, order, slot);
      if slot != count - 1 {
        var rows := SelectAbove(slot);
        MoveDown(rows, slot, order);
      }
      DeleteLast(t0, h0, history, order, db0, r);
      count := count - 1;
      db := db - {r};
      WriteSlot(count, None);
      order := Removed(order, slot);
      rc := Ok;
    }

    /** Replaces what a route says, in place. */
    method Modify(r: Prefix, attr: RouteAttr) returns (rc: Rc)
      requires Valid()
      modifies this, tcam
      ensures Valid()
      ensures rc == if r in old(db) then Ok else Failure
      ensures rc != Ok ==> db == old(db) && tcam[..] == old(tcam[..]) && history == old(history)
      ensures rc == Ok ==> Results(db) == Results(old(db))[r := SetFibParams(attr, old(db)[r].result)]
      ensures rc == Ok ==> history == old(history) + [tcam[..]]
    {
      hide Enumerates, LongestFirst, IsImage, SlotBySlot, EntryOf, Results;
      if r !in db { return Failure; }
      var row := DbRow(SetFibParams(attr, db[r].result), db[r].index);
      SlotIsUsed(order, db, r);
      ModifyKeeps(tcam[..], order, db, r, row.result);
      Put(r, row);
      rc := Ok;
    }
  }

  // ---------------------------------------------------------------- the data plane

  datatype Counter = FailFibLookup | RejectByFib

  /** What the data plane does with a packet: the address to resolve (zero drops the packet)
      and the error counter it bumps. */
  datatype Decision = Decision(nextHop: Ip, bump: Option<Counter>)

  function Apply(result: FibResult, dest: Ip): Decision {
    match result.kind
    case Neighbor => Decision(dest, None)
    case Gateway => Decision(result.nextHop, None)
    case Drop => Decision(ZeroIp(), Some(RejectByFib))
  }

  function FibProcessing(t: Table, dest: Ip): Decision {
    match TcamLookup(t, dest)
    case None => Decision(ZeroIp(), Some(FailFibLookup))
    case Some(result) => Apply(result, dest)
  }

  /** What a route asks for, whatever the database held before. */
  function Meaning(attr: RouteAttr, dest: Ip): Decision {
    if attr.OtherType? then Decision(ZeroIp(), Some(RejectByFib))
    else if attr.gateway.None? then Decision(dest, None)
    else if attr.hops > 1 then Decision(ZeroIp(), Some(RejectByFib))
    else Decision(attr.gateway.value, None)
  }

  /** Routing of `dest` by the longest matching route of `routes`. */
  ghost predicate RoutedBy(routes: map<Prefix, RouteAttr>, dest: Ip, d: Decision) {
    || (exists r :: IsLongestCover(routes, dest, r) && d == Meaning(routes[r], dest))
    || ((forall r :: r in routes ==> !Covers(r, dest)) && d == Decision(ZeroIp(), Some(FailFibLookup)))
  }

  // ---------------------------------------------------------------- whole runs

  datatype RouteEvent =
    | AddRoute(route: Prefix, attr: RouteAttr)
    | DeleteRoute(route: Prefix)
    | ModifyRoute(route: Prefix, attr: RouteAttr)

  /** The routes in force after one event. */
  function Step(routes: map<Prefix, RouteAttr>, e: RouteEvent): map<Prefix, RouteAttr> {
    match e
    case AddRoute(r, attr) => if r in routes || |routes| == TCAM_SIZE then routes else routes[r := attr]
    case DeleteRoute(r) => routes - {r}
    case ModifyRoute(r, attr) => if r in routes then routes[r := attr] else routes
  }

  function RoutesAfter(events: seq<RouteEvent>): map<Prefix, RouteAttr> {
    if events == [] then map[] else Step(RoutesAfter(events[..|events| - 1]), events[|events| - 1])
  }

  /** The same step on what the database stores. */
  function ResultStep(results: map<Prefix, FibResult>, e: RouteEvent): map<Prefix, FibResult> {
    match e
    case AddRoute(r, attr) =>
      if r in results || |results| == TCAM_SIZE then results else results[r := SetFibParams(attr, EmptyResult())]
    case DeleteRoute(r) => results - {r}
    case ModifyRoute(r, attr) => if r in results then results[r := SetFibParams(attr, results[r])] else results
  }

  /** The database realises `routes`: same prefixes, and each row acts as its route asks. */
  ghost predicate Realises(results: map<Prefix, FibResult>, routes: map<Prefix, RouteAttr>) {
    && results.Keys == routes.Keys
    && forall r, dest: Ip :: r in routes ==> Apply(results[r], dest) == Meaning(routes[r], dest)
  }

  lemma StepRealises(results: map<Prefix, FibResult>, routes: map<Prefix, RouteAttr>, e: RouteEvent)
    requires Realises(results, routes)
    ensures Realises(ResultStep(results, e), Step(routes, e))
  {
    assert |results| == |results.Keys| == |routes.Keys| == |routes|;
  }

  lemma {:induction false} SlotsAreRows(order: seq<Prefix>, keys: set<Prefix>)
    requires forall i, j :: 0 <= i < j < |order| ==> order[i] != order[j]
    requires forall r :: r in keys <==> r in order
    ensures |order| == |keys|
  {
    if order == [] {
      assert keys == {};
    } else {
      var r, rest := order[0], order[1..];
      forall q ensures q in keys - {r} <==> q in rest {
        assert q in rest ==> q in order;
      }
      SlotsAreRows(rest, keys - {r});
    }
  }

  lemma LpmRoutes(results: map<Prefix, FibResult>, routes: map<Prefix, RouteAttr>, dest: Ip, t: Table)
    requires Realises(results, routes) && IsLpm(results, dest, TcamLookup(t, dest))
    ensures RoutedBy(routes, dest, FibProcessing(t, dest))
  {
    var found := TcamLookup(t, dest);
    if found.Some? {
      var r :| IsLongestCover(results, dest, r) && results[r] == found.value;
      assert IsLongestCover(routes, dest, r);
    }
  }

  lemma RowCount(order: seq<Prefix>, db: map<Prefix, DbRow>)
    requires Enumerates(order, db)
    ensures |Results(db)| == |order|
  {
    forall r ensures r in Results(db).Keys <==> r in order {
      assert r in db ==> order[db[r].index] == r;
    }
    SlotsAreRows(order, Results(db).Keys);
  }

  /** Handles one netlink event. Of the tables it writes, those before `switch` answer every lookup
      as the table did before the event, the others as it does after the event. */
  method Handle(fib: FibDb, e: RouteEvent) returns (rc: Rc, ghost switch: nat)
    requires fib.Valid()
    modifies fib, fib.tcam
    ensures fib.Valid()
    ensures Results(fib.db) == ResultStep(Results(old(fib.db)), e)
    ensures old(fib.history) <= fib.history && |old(fib.history)| <= switch <= |fib.history|
    ensures AllSame(fib.history[|old(fib.history)|..switch], old(fib.tcam[..]))
    ensures AllSame(fib.history[switch..], fib.tcam[..])
  {
    hide Enumerates, LongestFirst, IsImage, SlotBySlot, AllSame, SetFibParams, EmptyResult;
    RowCount(fib.order, fib.db);
    AllSameEdge(fib.tcam[..]);
    ghost var h0 := fib.history;
    switch := |h0|;
    match e {
      case AddRoute(r, attr) =>
        rc := fib.Add(r, attr);
        switch := if rc == Ok then |fib.history| - 1 else switch;
      case DeleteRoute(r) => rc := fib.Delete(r);
      case ModifyRoute(r, attr) => rc := fib.Modify(r, attr);
    }
    AllSameEdge(fib.tcam[..]);
    assert fib.history[|h0|..|h0|] == [];
    assert e.AddRoute? || rc != Ok ==> fib.history[switch..] == if rc == Ok then [fib.tcam[..]] else [];
    assert e.ModifyRoute? && rc == Ok ==> fib.history[switch..] == [fib.tcam[..]];
  }

  lemma AllSameEdge(t: Table)
    ensures AllSame([], t) && AllSame([t], t)
  {
  }

  /** The data plane routes every address by the routes in force after `events`. */
  ghost predicate Answers(t: Table, events: seq<RouteEvent>) {
    forall dest: Ip :: RoutedBy(RoutesAfter(events), dest, FibProcessing(t, dest))
  }

  /** Each table of `history` answers by some prefix of `events`, and never by an earlier one than
      a table before it. */
  ghost predicate Linearised(history: seq<Table>, era: seq<nat>, events: seq<RouteEvent>) {
    && |era| == |history|
    && (forall k :: 0 <= k < |era| ==> era[k] <= |events| && Answers(history[k], events[..era[k]]))
    && (forall j, k :: 0 <= j < k < |era| ==> era[j] <= era[k])
  }

  lemma SameAnswers(s: Table, t: Table, events: seq<RouteEvent>)
    requires SameLookup(s, t) && Answers(t, events)
    ensures Answers(s, events)
  {
    forall dest: Ip ensures FibProcessing(s, dest) == FibProcessing(t, dest) {
      assert TcamLookup(s, dest) == TcamLookup(t, dest);
    }
  }

  /** Appends the tables written by event `k`. */
  lemma LinearisedStep(h: seq<Table>, h': seq<Table>, switch: nat, era: seq<nat>, events: seq<RouteEvent>,
                       k: nat, t: Table, t': Table) returns (era': seq<nat>)
    requires k < |events| && Linearised(h, era, events) && h <= h' && |h| <= switch <= |h'|
    requires forall i :: 0 <= i < |era| ==> era[i] <= k
    requires Answers(t, events[..k]) && AllSame(h'[|h|..switch], t)
    requires Answers(t', events[..k + 1]) && AllSame(h'[switch..], t')
    ensures Linearised(h', era', events)
    ensures forall i :: 0 <= i < |era'| ==> era'[i] <= k + 1
  {
    era' := era + seq(switch - |h|, i => k) + seq(|h'| - switch, i => k + 1);
    forall i | 0 <= i < |era'| ensures Answers(h'[i], events[..era'[i]]) {
      if i < |h| {
        assert h'[i] == h[i];
      } else if i < switch {
        assert h'[i] == h'[|h|..switch][i - |h|];
        SameAnswers(h'[i], t, events[..k]);
      } else {
        assert h'[i] == h'[switch..][i - switch];
        SameAnswers(h'[i], t', events[..k + 1]);
      }
    }
  }

  lemma ValidAnswers(fib: FibDb, events: seq<RouteEvent>)
    requires fib.Valid() && Realises(Results(fib.db), RoutesAfter(events))
    ensures Answers(fib.tcam[..], events)
  {
    var t := fib.tcam[..];
    forall dest: Ip ensures RoutedBy(RoutesAfter(events), dest, FibProcessing(t, dest)) {
      SortedImageIsLpm(t, fib.order, fib.db, dest);
      LpmRoutes(Results(fib.db), RoutesAfter(events), dest, t);
    }
  }

  lemma RoutesAfterStep(events: seq<RouteEvent>, k: nat)
    requires k < |events|
    ensures RoutesAfter(events[..k + 1]) == Step(RoutesAfter(events[..k]), events[k])
  {
    assert events[..k + 1][..k] == events[..k];
  }

  lemma EmptyRealises()
    ensures Realises(Results(map[]), RoutesAfter([]))
  {
  }

  /** Any run of route events from an empty table. After it the data plane routes every address by the
      longest matching route in force; and at every moment of it, between any two slot writes, the
      data plane routed every address by the routes in force after some prefix of the run, moving
      only forward. */
  method Replay(events: seq<RouteEvent>) returns (t: Table, ghost history: seq<Table>, ghost era: seq<nat>)
    ensures Answers(t, events)
    ensures SlotBySlot(history) && history != [] && history[|history| - 1] == t
    ensures Linearised(history, era, events)
  {
    hide Realises, RoutesAfter, Answers, Enumerates, LongestFirst, IsImage, AllSame, SlotBySlot, ResultStep, Step, Results;
    var fib := new FibDb();
    EmptyRealises();
    assert events[..0] == [];
    ValidAnswers(fib, events[..0]);
    era := [0];
    var k := 0;
    while k < |events|
      invariant 0 <= k <= |events|
      invariant fib.Valid() && fresh(fib) && fresh(fib.tcam)
      invariant Realises(Results(fib.db), RoutesAfter(events[..k]))
      invariant Linearised(fib.history, era, events) && forall i :: 0 <= i < |era| ==> era[i] <= k
      invariant Answers(fib.tcam[..], events[..k])
    {
      StepRealises(Results(fib.db), RoutesAfter(events[..k]), events[k]);
      RoutesAfterStep(events, k);
      ghost var t0, h0 := fib.tcam[..], fib.history;
      var rc, switch := Handle(fib, events[k]);
      ValidAnswers(fib, events[..k + 1]);
      era := LinearisedStep(h0, fib.history, switch, era, events, k, t0, fib.tcam[..]);
      k := k + 1;
    }
    assert events[..k] == events;
    t, history := fib.tcam[..], fib.history;
  }
}
