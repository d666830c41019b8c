/** Aging: every connection index is scanned once per iteration, and a connection that stays idle for the
    number of iterations its state allows is deleted. */
module Aging {
  import opened Common
  import opened Conn
  import Weights

  const CONN_MAX := 64 * 1024 * 1024
  const ENTRIES_PER_JOB := 128
  const EVENTS_PER_ITERATION := CONN_MAX / ENTRIES_PER_JOB
  const ITER_ESTABLISHED: nat := 60
  const ITER_CLOSE_WAIT: nat := 1

  function Iterations(state: nat): (n: nat)
    ensures n > 0
  {
    if state == ESTABLISHED then ITER_ESTABLISHED else if state == CLOSE_WAIT then ITER_CLOSE_WAIT else 1
  }

  // ---------------------------------------------------------------- scan order

  /** From the id of a timer event the code derives an 8-bit iteration number and a range of indices. */
  function IterationNum(id: nat): nat { id / EVENTS_PER_ITERATION % 0x100 }

  function FirstIndex(id: nat): nat { id % EVENTS_PER_ITERATION * ENTRIES_PER_JOB }

  predicate Scans(id: nat, i: nat) {
    FirstIndex(id) <= i < FirstIndex(id) + ENTRIES_PER_JOB
  }

  /** The timer's ids start over after a number of iterations. The control plane configures as many as an
      established connection may be idle. */
  const CONFIGURED_PERIOD: nat := ITER_ESTABLISHED

  /** The id of event number `k`, counted without end. */
  function EventId(n: nat, k: nat): nat
    requires n > 0
  {
    k % (n * EVENTS_PER_ITERATION)
  }

  /** The iteration number the code works with in iteration `t`, counted without end. */
  function IterationAt(n: nat, t: nat): nat
    requires n > 0
  {
    t % n % 0x100
  }

  /** In every iteration, counted without end, exactly one event scans index `i`. */
  lemma ScannedOncePerIteration(n: nat, t: nat, i: nat) returns (k: nat)
    requires n > 0 && i < CONN_MAX
    ensures k / EVENTS_PER_ITERATION == t && Scans(EventId(n, k), i) && IterationNum(EventId(n, k)) == IterationAt(n, t)
    ensures forall j: nat :: j / EVENTS_PER_ITERATION == t && Scans(EventId(n, j), i) ==> j == k
  {
    hide Scans, IterationNum, EventId;
    k := t * EVENTS_PER_ITERATION + i / ENTRIES_PER_JOB;
    Weights.QuotientUnique(k, EVENTS_PER_ITERATION, t, i / ENTRIES_PER_JOB);
    EventParts(n, k);
    ScansItsRange(n, k, i);
    forall j: nat | j / EVENTS_PER_ITERATION == t && Scans(EventId(n, j), i) ensures j == k {
      ScansItsRange(n, j, i);
    }
  }

  lemma EventParts(n: nat, k: nat)
    requires n > 0
    ensures EventId(n, k) % EVENTS_PER_ITERATION == k % EVENTS_PER_ITERATION
    ensures IterationNum(EventId(n, k)) == IterationAt(n, k / EVENTS_PER_ITERATION)
  {
    SplitModulo(k, n, EVENTS_PER_ITERATION);
  }

  lemma SplitModulo(k: nat, m: nat, e: nat)
    requires m > 0 && e > 0
    ensures m * e > 0 && k % (m * e) / e == k / e % m && k % (m * e) % e == k % e
  {
    var a, b := Weights.Division(k, e);
    var q, r := Weights.Division(a, m);
    Regroup(q, m, r, e, b);
    Weights.QuotientUnique(k, m * e, q, r * e + b);
    Weights.QuotientUnique(r * e + b, e, r, b);
  }

  lemma Regroup(q: nat, m: nat, r: nat, e: nat, b: nat)
    requires r < m && b < e
    ensures (q * m + r) * e + b == q * (m * e) + (r * e + b) && r * e + b < m * e
  {
    Weights.Larger(e, m - r);
    assert (m - r) * e == m * e - r * e;
    assert (q * m + r) * e == q * m * e + r * e;
    assert q * m * e == q * (m * e);
  }

  lemma ScansItsRange(n: nat, k: nat, i: nat)
    requires n > 0
    ensures Scans(EventId(n, k), i) <==> k % EVENTS_PER_ITERATION == i / ENTRIES_PER_JOB
  {
    EventParts(n, k);
    hide EventId;
  }

  // ---------------------------------------------------------------- the scan of one entry

  datatype Action = Delete | AgeOut | Keep

  function AgeMark(iteration: nat, state: nat): nat {
    iteration % Iterations(state)
  }

  /** What the scan of iteration number `iteration` does with an entry. */
  function Decide(e: Info, iteration: nat): Action {
    if e.delete then Delete
    else if e.aging then AgeOut
    else if e.ageIteration == AgeMark(iteration, e.state) then Delete
    else Keep
  }

  function AgedOut(e: Info, iteration: nat): Info {
    e.(aging := false, ageIteration := AgeMark(iteration, e.state))
  }

  /** The entry after the scan, if it is still there. */
  function ScannedEntry(e: Info, iteration: nat): Option<Info> {
    match Decide(e, iteration)
    case Delete => None
    case AgeOut => Some(AgedOut(e, iteration))
    case Keep => Some(e)
  }

  /** Whatever packets still come, the next scan deletes the connection. */
  ghost predicate Condemned(e: Info) {
    forall packets, iteration :: Decide(TouchedBy(e, packets), iteration) == Delete
  }

  lemma CondemnedIffReset(e: Info)
    requires Marked(e)
    ensures Condemned(e) <==> e.reset
  {
    if e.reset {
      forall packets, iteration ensures Decide(TouchedBy(e, packets), iteration) == Delete {
        NeverReopens(e, packets);
      }
    } else {
      var data := [Segment(false, false, true)];
      assert data[..0] == [];
      assert TouchedBy(e, data) == Touched(e, false, false, true);
      assert Decide(TouchedBy(e, data), 0) == AgeOut;
    }
  }

  /** A packet with RST condemns its connection iff its server is up and the entry is not yet marked for
      deletion on another ground; in the other cases a later packet brings the connection back. */
  lemma ResetCondemnsIff(e: Info, fin: bool, available: bool)
    requires Marked(e)
    ensures Condemned(Touched(e, fin, true, available)) <==> e.reset || (available && !e.delete)
  {
    CondemnedIffReset(Touched(e, fin, true, available));
  }

  // ---------------------------------------------------------------- the life of a connection

  /** The entry as the scan of iteration `t` finds it; `packets(t)` came since the scan before. */
  function Found(n: nat, e0: Info, start: nat, packets: nat -> seq<Segment>, t: nat): Option<Info>
    requires n > 0 && start <= t
    decreases t, 0
  {
    var before := if t == start then Some(e0) else Left(n, e0, start, packets, t - 1);
    if before.None? then None else Some(TouchedBy(before.value, packets(t)))
  }

  /** The entry as the scan of iteration `t` leaves it. */
  function Left(n: nat, e0: Info, start: nat, packets: nat -> seq<Segment>, t: nat): Option<Info>
    requires n > 0 && start <= t
    decreases t, 1
  {
    var e := Found(n, e0, start, packets, t);
    if e.None? then None else ScannedEntry(e.value, IterationAt(n, t))
  }

  /** The scan of iteration `t` marks the connection idle. */
  predicate AgesOut(n: nat, e0: Info, start: nat, packets: nat -> seq<Segment>, t: nat)
    requires n > 0
  {
    && start <= t
    && Found(n, e0, start, packets, t).Some?
    && Decide(Found(n, e0, start, packets, t).value, IterationAt(n, t)) == AgeOut
  }

  /** The scan of iteration `t` deletes the connection. */
  predicate Dies(n: nat, e0: Info, start: nat, packets: nat -> seq<Segment>, t: nat)
    requires n > 0
  {
    start <= t && Found(n, e0, start, packets, t).Some? && Left(n, e0, start, packets, t).None?
  }

  /** The scan of iteration `t` finds the connection marked for deletion. */
  predicate FoundMarked(n: nat, e0: Info, start: nat, packets: nat -> seq<Segment>, t: nat)
    requires n > 0
  {
    start <= t && Found(n, e0, start, packets, t).Some? && Found(n, e0, start, packets, t).value.delete
  }

  predicate Quiet(packets: nat -> seq<Segment>, from: nat, to: nat) {
    forall t :: from < t <= to ==> packets(t) == []
  }

  /** A connection as it is created. */
  predicate Fresh(e: Info) {
    Marked(e) && (e.aging || e.delete)
  }

  lemma NewIsFresh(bound: bool, server: nat, port: nat, key: Key, state: nat, flags: bv32, reset: bool)
    ensures Fresh(NewEntry(bound, server, port, key, state, flags, reset))
  {
  }

  /** Any packet wakes an entry marked idle, or marks it for deletion. */
  lemma PacketsWake(e: Info, packets: seq<Segment>)
    requires Marked(e) && packets != []
    ensures Fresh(TouchedBy(e, packets))
  {
    NeverReopens(e, packets[..|packets| - 1]);
  }

  lemma FoundIsMarked(n: nat, e0: Info, start: nat, packets: nat -> seq<Segment>, t: nat)
    requires n > 0 && start <= t && Found(n, e0, start, packets, t).Some?
    requires if t == start then Marked(e0)
             else Left(n, e0, start, packets, t - 1).Some? && Marked(Left(n, e0, start, packets, t - 1).value)
    ensures Marked(Found(n, e0, start, packets, t).value)
    ensures packets(t) != [] ==> Fresh(Found(n, e0, start, packets, t).value)
  {
    var before := if t == start then e0 else Left(n, e0, start, packets, t - 1).value;
    NeverReopens(before, packets(t));
    if packets(t) != [] { PacketsWake(before, packets(t)); }
  }

  /** An entry that survives a scan is the one marked idle at some earlier scan, with no packet since. */
  lemma {:induction false} MarkedBefore(n: nat, e0: Info, start: nat, packets: nat -> seq<Segment>, t: nat) returns (t0: nat)
    requires n > 0 && Fresh(e0) && start <= t && Left(n, e0, start, packets, t).Some?
    ensures start <= t0 <= t && AgesOut(n, e0, start, packets, t0) && Quiet(packets, t0, t)
    ensures Marked(Left(n, e0, start, packets, t).value)
    decreases t
  {
    hide AgeMark, IterationAt;
    if t > start {
      t0 := MarkedBefore(n, e0, start, packets, t - 1);
      MarkingScan(n, e0, start, packets, t0);
      var none := MarkDiffers(n, e0, start, packets, t0, t - 1);
    }
    FoundIsMarked(n, e0, start, packets, t);
    if AgesOut(n, e0, start, packets, t) {
      t0 := t;
    }
  }

  /** A quiet scan of an entry marked idle. */
  lemma QuietScan(n: nat, e0: Info, start: nat, packets: nat -> seq<Segment>, t: nat, e: Info)
    requires n > 0 && start < t && Left(n, e0, start, packets, t - 1) == Some(e)
    requires !e.aging && !e.delete && packets(t) == []
    ensures Found(n, e0, start, packets, t) == Some(e)
    ensures Left(n, e0, start, packets, t) == if e.ageIteration == AgeMark(IterationAt(n, t), e.state) then None else Some(e)
  {
  }

  lemma MarkingScan(n: nat, e0: Info, start: nat, packets: nat -> seq<Segment>, t0: nat)
    requires n > 0 && AgesOut(n, e0, start, packets, t0)
    ensures !Found(n, e0, start, packets, t0).value.delete
    ensures Left(n, e0, start, packets, t0) == Some(AgedOut(Found(n, e0, start, packets, t0).value, IterationAt(n, t0)))
  {
  }

  /** The mark an idle connection gets in iteration `t`. */
  function MarkAt(n: nat, t: nat, state: nat): nat
    requires n > 0
  {
    AgeMark(IterationAt(n, t), state)
  }

  /** The mark of iteration `t0` comes up again in iteration `t`, and not before. */
  ghost predicate FirstReturn(n: nat, state: nat, t0: nat, t: nat)
    requires n > 0
  {
    && t0 < t && MarkAt(n, t, state) == MarkAt(n, t0, state)
    && forall j :: t0 < j < t ==> MarkAt(n, j, state) != MarkAt(n, t0, state)
  }

  /** Marked idle in iteration `t0` and left alone, an entry that is still there in iteration `t` is
      unchanged, and its mark has not come up again. */
  lemma {:induction false} MarkDiffers(n: nat, e0: Info, start: nat, packets: nat -> seq<Segment>, t0: nat, t: nat) returns (e: Info)
    requires n > 0 && AgesOut(n, e0, start, packets, t0) && Quiet(packets, t0, t) && t0 <= t
    requires Left(n, e0, start, packets, t).Some?
    ensures e == Found(n, e0, start, packets, t0).value
    ensures Left(n, e0, start, packets, t) == Some(AgedOut(e, IterationAt(n, t0)))
    ensures forall j :: t0 < j <= t ==> MarkAt(n, j, e.state) != MarkAt(n, t0, e.state)
    decreases t
  {
    MarkingScan(n, e0, start, packets, t0);
    e := Found(n, e0, start, packets, t0).value;
    if t > t0 {
      assert Left(n, e0, start, packets, t - 1).Some?;
      hide Found, Left, AgeMark, Decide, IterationAt;
      e := MarkDiffers(n, e0, start, packets, t0, t - 1);
      QuietScan(n, e0, start, packets, t, AgedOut(e, IterationAt(n, t0)));
    }
  }

  /** Conversely it stays as long as its mark does not come up. */
  lemma {:induction false} StaysUntil(n: nat, e0: Info, start: nat, packets: nat -> seq<Segment>, t0: nat, t: nat)
    requires n > 0 && AgesOut(n, e0, start, packets, t0) && Quiet(packets, t0, t) && t0 <= t
    requires forall j :: t0 < j <= t ==>
      MarkAt(n, j, Found(n, e0, start, packets, t0).value.state) != MarkAt(n, t0, Found(n, e0, start, packets, t0).value.state)
    ensures Left(n, e0, start, packets, t) == Some(AgedOut(Found(n, e0, start, packets, t0).value, IterationAt(n, t0)))
    decreases t
  {
    hide Found, Left, AgeMark, Decide, IterationAt;
    MarkingScan(n, e0, start, packets, t0);
    if t > t0 {
      var e := Found(n, e0, start, packets, t0).value;
      assert MarkAt(n, t, e.state) != MarkAt(n, t0, e.state);
      StaysUntil(n, e0, start, packets, t0, t - 1);
      QuietScan(n, e0, start, packets, t, AgedOut(e, IterationAt(n, t0)));
    }
  }

  /** Marked idle in iteration `t0` and left alone since, the connection has its mark come up in `t`. */
  ghost predicate Expires(n: nat, e0: Info, start: nat, packets: nat -> seq<Segment>, t0: nat, t: nat)
    requires n > 0
  {
    && AgesOut(n, e0, start, packets, t0)
    && Quiet(packets, t0, t)
    && FirstReturn(n, Found(n, e0, start, packets, t0).value.state, t0, t)
  }

  lemma DiesWhenExpired(n: nat, e0: Info, start: nat, packets: nat -> seq<Segment>, t0: nat, t: nat)
    requires n > 0 && Expires(n, e0, start, packets, t0, t)
    ensures Dies(n, e0, start, packets, t) && !FoundMarked(n, e0, start, packets, t)
  {
    hide Found, Left, AgeMark, Decide, IterationAt;
    MarkingScan(n, e0, start, packets, t0);
    StaysUntil(n, e0, start, packets, t0, t - 1);
    QuietScan(n, e0, start, packets, t, AgedOut(Found(n, e0, start, packets, t0).value, IterationAt(n, t0)));
  }

  /** The scan that deletes an entry not marked for deletion finds it as the scan before left it. */
  lemma DiesLater(n: nat, e0: Info, start: nat, packets: nat -> seq<Segment>, t: nat)
    requires n > 0 && Fresh(e0) && Dies(n, e0, start, packets, t) && !FoundMarked(n, e0, start, packets, t)
    ensures start < t && Left(n, e0, start, packets, t - 1).Some? && packets(t) == []
  {
    if t > start {
      var t0 := MarkedBefore(n, e0, start, packets, t - 1);
    }
    FoundIsMarked(n, e0, start, packets, t);
  }

  lemma ExpiresWhenDying(n: nat, e0: Info, start: nat, packets: nat -> seq<Segment>, t: nat) returns (t0: nat)
    requires n > 0 && Fresh(e0) && Dies(n, e0, start, packets, t) && !FoundMarked(n, e0, start, packets, t)
    ensures Expires(n, e0, start, packets, t0, t)
  {
    DiesLater(n, e0, start, packets, t);
    hide Found, Left, AgeMark, Decide, IterationAt;
    t0 := MarkedBefore(n, e0, start, packets, t - 1);
    MarkingScan(n, e0, start, packets, t0);
    var e := MarkDiffers(n, e0, start, packets, t0, t - 1);
    QuietScan(n, e0, start, packets, t, AgedOut(e, IterationAt(n, t0)));
  }

  /** When a connection is deleted, whatever packets come and whatever the timer's period: in iteration
      `t` iff the scan finds it marked for deletion, or its idle mark comes up for the first time. */
  lemma DeletionRule(n: nat, e0: Info, start: nat, packets: nat -> seq<Segment>, t: nat)
    requires n > 0 && Fresh(e0) && start <= t
    ensures Dies(n, e0, start, packets, t) <==>
      FoundMarked(n, e0, start, packets, t) || exists t0 :: Expires(n, e0, start, packets, t0, t)
  {
    if FoundMarked(n, e0, start, packets, t) {
      assert Dies(n, e0, start, packets, t);
    } else {
      hide Found, Left, Dies, FoundMarked, Expires, Fresh;
      if Dies(n, e0, start, packets, t) {
        var t0 := ExpiresWhenDying(n, e0, start, packets, t);
      }
      forall t0 | Expires(n, e0, start, packets, t0, t) ensures Dies(n, e0, start, packets, t) {
        DiesWhenExpired(n, e0, start, packets, t0, t);
      }
    }
  }

  // ---------------------------------------------------------------- idle timing

  /** Marked idle in iteration `t0`, left alone since, and idle for as many iterations as its state allows. */
  predicate Due(n: nat, e0: Info, start: nat, packets: nat -> seq<Segment>, t0: nat, t: nat)
    requires n > 0
  {
    && AgesOut(n, e0, start, packets, t0)
    && Quiet(packets, t0, t)
    && t == t0 + if Found(n, e0, start, packets, t0).value.state == ESTABLISHED then 60 else 1
  }

  /** Periods of whole multiples of 60 iterations that 8 bits can count. */
  predicate Exact(n: nat) {
    n > 0 && n % 60 == 0 && n <= 0x100
  }

  /** With such a period a mark comes up again after exactly the iterations of the state. */
  lemma MarkReturns(n: nat, state: nat, t0: nat, t: nat)
    requires Exact(n)
    ensures FirstReturn(n, state, t0, t) <==> t == t0 + if state == ESTABLISHED then 60 else 1
  {
    hide IterationAt, AgeMark;
    var step := Iterations(state);
    forall j: nat ensures MarkAt(n, j, state) == j % step {
      MarkIsRemainder(n, j, state);
    }
    Weights.AddModulus(t0, step);
    assert MarkAt(n, t0 + step, state) == MarkAt(n, t0, state);
    forall j | t0 < j < t0 + step ensures MarkAt(n, j, state) != MarkAt(n, t0, state) {
      NotYet(t0, j, step);
    }
  }

  lemma NotYet(t0: nat, j: nat, step: nat)
    requires t0 < j < t0 + step
    ensures j % step != t0 % step
  {
    var q, r := Weights.Division(t0, step);
    var d := j - t0;
    if r + d < step {
      Weights.QuotientUnique(j, step, q, r + d);
    } else {
      assert j == (q + 1) * step + (r + d - step);
      Weights.QuotientUnique(j, step, q + 1, r + d - step);
    }
  }

  lemma MarkIsRemainder(n: nat, j: nat, state: nat)
    requires Exact(n)
    ensures MarkAt(n, j, state) == j % Iterations(state)
  {
    if state == ESTABLISHED {
      var m := n / 60;
      assert n == m * 60;
      SplitModulo(j, m, 60);
      Small(j % n, 0x100);
    }
  }

  /** The idle rule: a connection is deleted in iteration `t` iff the scan finds it marked for deletion,
      or it was marked idle as many iterations earlier as its state allows and no packet has come since. */
  lemma IdleRule(n: nat, e0: Info, start: nat, packets: nat -> seq<Segment>, t: nat)
    requires Exact(n) && Fresh(e0) && start <= t
    ensures Dies(n, e0, start, packets, t) <==>
      FoundMarked(n, e0, start, packets, t) || exists t0 :: Due(n, e0, start, packets, t0, t)
  {
    hide Found, Left, Dies, FoundMarked, AgesOut, Quiet, Fresh, FirstReturn;
    DeletionRule(n, e0, start, packets, t);
    forall t0: nat ensures Expires(n, e0, start, packets, t0, t) <==> Due(n, e0, start, packets, t0, t) {
      ExpiresIsDue(n, e0, start, packets, t0, t);
    }
  }

  lemma ExpiresIsDue(n: nat, e0: Info, start: nat, packets: nat -> seq<Segment>, t0: nat, t: nat)
    requires Exact(n)
    ensures Expires(n, e0, start, packets, t0, t) <==> Due(n, e0, start, packets, t0, t)
  {
    hide FirstReturn, Found, Left, Quiet, Decide;
    if AgesOut(n, e0, start, packets, t0) {
      MarkReturns(n, Found(n, e0, start, packets, t0).value.state, t0, t);
    }
  }

  /** As the timer is configured: a connection, from its creation on, is deleted after being idle for 60
      iterations if it is established and for one if it is closing, or by a mark for deletion, and never else. */
  lemma ConfiguredTimeout(bound: bool, server: nat, port: nat, key: Key, state: nat, flags: bv32, reset: bool,
                          start: nat, packets: nat -> seq<Segment>, t: nat)
    requires start <= t
    ensures var e0 := NewEntry(bound, server, port, key, state, flags, reset);
      Dies(CONFIGURED_PERIOD, e0, start, packets, t) <==>
        || FoundMarked(CONFIGURED_PERIOD, e0, start, packets, t)
        || exists t0 :: Due(CONFIGURED_PERIOD, e0, start, packets, t0, t)
  {
    hide Dies, FoundMarked, Due;
    NewIsFresh(bound, server, port, key, state, flags, reset);
    IdleRule(CONFIGURED_PERIOD, NewEntry(bound, server, port, key, state, flags, reset), start, packets, t);
  }

  /** The idle rule holds for all connections. */
  ghost predicate KeepsTime(n: nat)
    requires n > 0
  {
    forall e0, start, packets, t :: Fresh(e0) && start <= t ==>
      (Dies(n, e0, start, packets, t) <==>
        FoundMarked(n, e0, start, packets, t) || exists t0 :: Due(n, e0, start, packets, t0, t))
  }

  /** With any other period some mark of an established connection comes up too early. */
  lemma EarlyReturn(n: nat) returns (t0: nat, t: nat)
    requires n > 0 && !Exact(n)
    ensures t0 < t < t0 + ITER_ESTABLISHED && MarkAt(n, t, ESTABLISHED) == MarkAt(n, t0, ESTABLISHED)
  {
    hide AgeMark;
    if n > 0x100 {
      t0, t := 240, 256;
      Small(240, n);
      Small(256, n);
      ZeroMark(240);
      ZeroMark(0);
    } else {
      var q, r := Weights.Division(n, ITER_ESTABLISHED);
      t0, t := q * ITER_ESTABLISHED, n;
      Small(t0, n);
      Small(t0, 0x100);
      Weights.QuotientUnique(n, n, 1, 0);
      Weights.QuotientUnique(t0, ITER_ESTABLISHED, q, 0);
      ZeroMark(t0);
      ZeroMark(0);
    }
  }

  lemma ZeroMark(iteration: nat)
    requires iteration % ITER_ESTABLISHED == 0
    ensures AgeMark(iteration, ESTABLISHED) == 0
  {
  }

  lemma Small(x: nat, n: nat)
    requires x < n
    ensures x % n == x
  {
    Weights.QuotientUnique(x, n, 0, x);
  }

  lemma {:induction false} FirstOf(n: nat, state: nat, t0: nat, t: nat) returns (t1: nat)
    requires n > 0 && t0 < t && MarkAt(n, t, state) == MarkAt(n, t0, state)
    ensures t1 <= t && FirstReturn(n, state, t0, t1)
    decreases t
  {
    if j :| t0 < j < t && MarkAt(n, j, state) == MarkAt(n, t0, state) {
      t1 := FirstOf(n, state, t0, j);
    } else {
      t1 := t;
    }
  }

  function NoPackets(t: nat): seq<Segment> { [] }

  /** An established connection that is never used again after being found active in iteration `t0`. */
  lemma DiesEarly(n: nat, t0: nat, t: nat, e0: Info)
    requires n > 0 && FirstReturn(n, ESTABLISHED, t0, t) && t < t0 + ITER_ESTABLISHED
    requires e0.state == ESTABLISHED && e0.aging && !e0.delete && !e0.reset
    ensures Dies(n, e0, t0, NoPackets, t) && !FoundMarked(n, e0, t0, NoPackets, t)
    ensures forall t1 :: !Due(n, e0, t0, NoPackets, t1, t)
  {
    var packets := NoPackets;
    assert Found(n, e0, t0, packets, t0) == Some(e0);
    assert AgesOut(n, e0, t0, packets, t0);
    DiesWhenExpired(n, e0, t0, packets, t0, t);
    forall t1 ensures !Due(n, e0, t0, packets, t1, t) {
      if Due(n, e0, t0, packets, t1, t) {
        StaysEstablished(n, e0, t0, t1);
      }
    }
  }

  lemma {:induction false} StaysEstablished(n: nat, e0: Info, start: nat, t: nat)
    requires n > 0 && start <= t && e0.state == ESTABLISHED
    ensures Found(n, e0, start, NoPackets, t).Some? ==> Found(n, e0, start, NoPackets, t).value.state == ESTABLISHED
    decreases t
  {
    if t > start { StaysEstablished(n, e0, start, t - 1); }
  }

  /** The idle rule holds iff the timer's ids start over after 60, 120, 180 or 240 iterations. */
  lemma TimerIsExactIff(n: nat)
    requires n > 0
    ensures KeepsTime(n) <==> Exact(n)
  {
    hide Found, Left, Dies, FoundMarked, Due, MarkAt, FirstReturn;
    if Exact(n) {
      forall e0, start, packets, t | Fresh(e0) && start <= t
        ensures Dies(n, e0, start, packets, t) <==>
          FoundMarked(n, e0, start, packets, t) || exists t0 :: Due(n, e0, start, packets, t0, t)
      {
        IdleRule(n, e0, start, packets, t);
      }
    } else {
      var t0, t := EarlyReturn(n);
      var t1 := FirstOf(n, ESTABLISHED, t0, t);
      var e0 := NewEntry(true, 0, 0, Key(0, 0, 0, 0, 0), ESTABLISHED, 0, false);
      FirstIsLater(n, ESTABLISHED, t0, t1);
      DiesEarly(n, t0, t1, e0);
      assert Dies(n, e0, t0, NoPackets, t1);
    }
  }

  lemma FirstIsLater(n: nat, state: nat, t0: nat, t: nat)
    requires n > 0 && FirstReturn(n, state, t0, t)
    ensures t0 < t
  {
  }
}
