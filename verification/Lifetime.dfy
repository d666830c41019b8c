/** The life of one connection within a run of the tables: packets, timer events and changes of
    availability, in any order, derive the life that the aging rules speak of. */
module Lifetime {
  import opened Common
  import opened Conn
  import opened ConnTable
  import Aging
  import Weights

  const EVENTS := Aging.EVENTS_PER_ITERATION

  /** The number of the next timer event after `steps`, which begin before event `k0`. */
  function Clock(k0: nat, steps: seq<Step>): nat {
    if steps == [] then k0
    else Clock(k0, steps[..|steps| - 1]) + if steps[|steps| - 1].AgingEvent? then 1 else 0
  }

  /** The timer delivers its events in order. */
  ghost predicate Timed(n: nat, k0: nat, steps: seq<Step>)
    requires n > 0
  {
    forall m :: 0 <= m < |steps| && steps[m].AgingEvent? ==> steps[m].id == Aging.EventId(n, Clock(k0, steps[..m]))
  }

  /** The iteration of the next scan of index `i` when event `k` is next. */
  function NextScan(i: nat, k: nat): nat {
    k / EVENTS + if k % EVENTS <= i / Aging.ENTRIES_PER_JOB then 0 else 1
  }

  lemma NextScanStep(n: nat, i: nat, k: nat)
    requires n > 0 && i < Aging.CONN_MAX
    ensures var scans := Aging.Scans(Aging.EventId(n, k), i);
      && NextScan(i, k + 1) == NextScan(i, k) + (if scans then 1 else 0)
      && (scans ==> NextScan(i, k) == k / EVENTS)
      && (scans ==> Aging.IterationNum(Aging.EventId(n, k)) == Aging.IterationAt(n, k / EVENTS))
  {
    hide Aging.Scans, Aging.IterationNum, Aging.EventId, Aging.IterationAt;
    Aging.ScansItsRange(n, k, i);
    Aging.EventParts(n, k);
    var q, r := Weights.Division(k, EVENTS);
    if r + 1 < EVENTS {
      Weights.QuotientUnique(k + 1, EVENTS, q, r + 1);
    } else {
      Weights.QuotientUnique(k + 1, EVENTS, q + 1, 0);
    }
  }

  /** Whether server `s` is available after `steps`. */
  function Available(up: bool, s: nat, steps: seq<Step>): bool {
    if steps == [] then up
    else
      var last := steps[|steps| - 1];
      if last.Availability? && last.server == s then last.up else Available(up, s, steps[..|steps| - 1])
  }

  /** What the run has to say about a connection: its entry, its index, whether its server was available
      at the start, and the next timer event. */
  datatype Origin = Origin(e: Info, i: nat, up: bool, k: nat)

  /** The packets of the connection that came, during `steps`, before the scan of iteration `t` and after
      the one before. */
  function Arrived(o: Origin, steps: seq<Step>, t: nat): seq<Segment> {
    if steps == [] then []
    else
      var before, last := steps[..|steps| - 1], steps[|steps| - 1];
      var rest := Arrived(o, before, t);
      if last.Packet? && last.key == o.e.key && NextScan(o.i, Clock(o.k, before)) == t
      then rest + [Segment(last.fin, last.rst, Available(o.up, o.e.server, before))]
      else rest
  }

  function Packets(o: Origin, steps: seq<Step>): nat -> seq<Segment> {
    (t: nat) => Arrived(o, steps, t)
  }

  function Start(o: Origin): nat { NextScan(o.i, o.k) }

  function Next(o: Origin, steps: seq<Step>): nat { NextScan(o.i, Clock(o.k, steps)) }

  /** Lives agree as long as the packets do. */
  lemma {:induction false} SamePackets(n: nat, e0: Info, start: nat, p: nat -> seq<Segment>, q: nat -> seq<Segment>, t: nat)
    requires n > 0 && start <= t && forall j :: start <= j <= t ==> p(j) == q(j)
    ensures Aging.Found(n, e0, start, p, t) == Aging.Found(n, e0, start, q, t)
    ensures Aging.Left(n, e0, start, p, t) == Aging.Left(n, e0, start, q, t)
    decreases t
  {
    hide Aging.Decide, Aging.IterationAt, TouchedBy;
    if t > start { SamePackets(n, e0, start, p, q, t - 1); }
  }

  /** The entry that the run `steps` has left behind is the one the next scan would find now. */
  ghost predicate Follows(n: nat, o: Origin, steps: seq<Step>, infos: map<nat, Info>)
    requires n > 0
  {
    && Start(o) <= Next(o, steps)
    && o.i in infos
    && Aging.Found(n, o.e, Start(o), Packets(o, steps), Next(o, steps)) == Some(infos[o.i])
    && infos[o.i].server == o.e.server && infos[o.i].key == o.e.key
    && forall t :: t > Next(o, steps) ==> Arrived(o, steps, t) == []
  }

  /** The connection was deleted in iteration `t`, which is over. */
  ghost predicate Over(n: nat, o: Origin, steps: seq<Step>, t: nat)
    requires n > 0
  {
    t < Next(o, steps) && Aging.Dies(n, o.e, Start(o), Packets(o, steps), t)
  }

  lemma StepKeepsServer(e: Info, i: nat, step: Step, up: bool)
    ensures var e' := EntryAfter(e, i, step, up);
      e'.Some? ==> e'.value.server == e.server && e'.value.key == e.key
  {
  }

  /** What one more step adds to the packets before the scan of iteration `t`. */
  function Brings(o: Origin, steps: seq<Step>, step: Step, t: nat): seq<Segment> {
    if step.Packet? && step.key == o.e.key && t == Next(o, steps)
    then [Segment(step.fin, step.rst, Available(o.up, o.e.server, steps))] else []
  }

  lemma AppendStep(o: Origin, steps: seq<Step>, step: Step)
    ensures var all := steps + [step];
      && Clock(o.k, all) == Clock(o.k, steps) + (if step.AgingEvent? then 1 else 0)
      && (forall t :: Arrived(o, all, t) == Arrived(o, steps, t) + Brings(o, steps, step, t))
      && (forall t :: Brings(o, steps, step, t) == [] ==> Arrived(o, all, t) == Arrived(o, steps, t))
      && Available(o.up, o.e.server, all) ==
         if step.Availability? && step.server == o.e.server then step.up else Available(o.up, o.e.server, steps)
  {
    assert (steps + [step])[..|steps|] == steps;
  }

  lemma TouchedOnce(e: Info, packets: seq<Segment>, p: Segment)
    ensures TouchedBy(e, packets + [p]) == Touched(TouchedBy(e, packets), p.fin, p.rst, p.available)
  {
    assert (packets + [p])[..|packets|] == packets;
  }

  /** A step that is no scan of the index. */
  lemma FollowsUnscanned(n: nat, o: Origin, steps: seq<Step>, step: Step, infos: map<nat, Info>, infos': map<nat, Info>)
    requires n > 0 && o.i < Aging.CONN_MAX && Follows(n, o, steps, infos)
    requires !step.AgingEvent? || (step.id == Aging.EventId(n, Clock(o.k, steps)) && !Aging.Scans(step.id, o.i))
    requires IsAfter(infos', o.i, EntryAfter(infos[o.i], o.i, step, Available(o.up, o.e.server, steps)))
    ensures Follows(n, o, steps + [step], infos')
  {
    hide Aging.Left, Aging.Scans, Aging.EventId, NextScan, Arrived, Clock, Available, Touched, TouchedBy;
    AppendStep(o, steps, step);
    NextScanStep(n, o.i, Clock(o.k, steps));
    var t := Next(o, steps);
    StepKeepsServer(infos[o.i], o.i, step, Available(o.up, o.e.server, steps));
    var p, q := Packets(o, steps), Packets(o, steps + [step]);
    if t > Start(o) { SamePackets(n, o.e, Start(o), p, q, t - 1); }
    if step.Packet? && step.key == o.e.key {
      var before := if t == Start(o) then o.e else Aging.Left(n, o.e, Start(o), p, t - 1).value;
      TouchedOnce(before, p(t), Segment(step.fin, step.rst, Available(o.up, o.e.server, steps)));
    }
  }

  /** The scan of the index. */
  lemma FollowsScanned(n: nat, o: Origin, steps: seq<Step>, step: Step, infos: map<nat, Info>, infos': map<nat, Info>)
    requires n > 0 && o.i < Aging.CONN_MAX && Follows(n, o, steps, infos)
    requires step.AgingEvent? && step.id == Aging.EventId(n, Clock(o.k, steps)) && Aging.Scans(step.id, o.i)
    requires IsAfter(infos', o.i, EntryAfter(infos[o.i], o.i, step, Available(o.up, o.e.server, steps)))
    ensures Next(o, steps) == Clock(o.k, steps) / EVENTS
    ensures o.i in infos' ==> Follows(n, o, steps + [step], infos')
    ensures o.i !in infos' ==> Over(n, o, steps + [step], Next(o, steps))
  {
    hide Aging.Scans, Aging.EventId, Aging.IterationNum, Aging.IterationAt, Aging.Decide, NextScan, Arrived, Clock, Available, TouchedBy;
    AppendStep(o, steps, step);
    NextScanStep(n, o.i, Clock(o.k, steps));
    var t := Next(o, steps);
    StepKeepsServer(infos[o.i], o.i, step, Available(o.up, o.e.server, steps));
    SamePackets(n, o.e, Start(o), Packets(o, steps), Packets(o, steps + [step]), t);
    if o.i in infos' { NoTouch(infos'[o.i]); }
  }

  lemma NoTouch(e: Info)
    ensures TouchedBy(e, []) == e
  {
  }

  lemma StaysOver(n: nat, o: Origin, steps: seq<Step>, step: Step, t: nat)
    requires n > 0 && o.i < Aging.CONN_MAX && Over(n, o, steps, t)
    requires step.AgingEvent? ==> step.id == Aging.EventId(n, Clock(o.k, steps))
    ensures Over(n, o, steps + [step], t)
  {
    hide Aging.Found, Aging.Left, Aging.Scans, Aging.EventId, NextScan, Arrived, Clock, Available;
    AppendStep(o, steps, step);
    NextScanStep(n, o.i, Clock(o.k, steps));
    SamePackets(n, o.e, Start(o), Packets(o, steps), Packets(o, steps + [step]), t);
  }

  /** As long as a scan finds the entry, no scan before has deleted it. */
  lemma {:induction false} AliveSoFar(n: nat, e0: Info, start: nat, packets: nat -> seq<Segment>, t: nat)
    requires n > 0 && start <= t && Aging.Found(n, e0, start, packets, t).Some?
    ensures forall j :: start <= j < t ==> !Aging.Dies(n, e0, start, packets, j)
    decreases t
  {
    if t > start {
      assert Aging.Left(n, e0, start, packets, t - 1).Some?;
      AliveSoFar(n, e0, start, packets, t - 1);
    }
  }

  lemma FollowsStart(n: nat, o: Origin, infos: map<nat, Info>)
    requires n > 0 && o.i in infos && infos[o.i] == o.e
    ensures Follows(n, o, [], infos)
  {
  }

  /** What a run keeps: while the connection is there its entry follows the rules, and after that its
      death stands. */
  ghost predicate Lived(n: nat, o: Origin, steps: seq<Step>, death: Option<nat>, trace: seq<map<nat, Info>>)
    requires n > 0
  {
    && |trace| == |steps| + 1
    && match death
       case None => Follows(n, o, steps, trace[|steps|]) && Present(o.i, trace, |steps|)
       case Some(m) => m < |steps| && DiedIn(o, steps, m, trace) && Over(n, o, steps, Clock(o.k, steps[..m]) / EVENTS)
  }

  /** The index is in use throughout the first tables of the trace. */
  ghost predicate Present(i: nat, trace: seq<map<nat, Info>>, m: nat)
    requires m < |trace|
  {
    forall j :: 0 <= j <= m ==> i in trace[j]
  }

  /** Step `m` is a scan of the index and takes the entry out of the table. */
  ghost predicate DiedIn(o: Origin, steps: seq<Step>, m: nat, trace: seq<map<nat, Info>>)
    requires m < |steps| && m + 1 < |trace|
  {
    && Present(o.i, trace, m) && o.i !in trace[m + 1]
    && steps[m].AgingEvent? && Aging.Scans(steps[m].id, o.i)
  }

  lemma LivedStep(n: nat, o: Origin, steps: seq<Step>, step: Step, infos: map<nat, Info>,
                  death: Option<nat>, trace: seq<map<nat, Info>>) returns (death': Option<nat>)
    requires n > 0 && o.i < Aging.CONN_MAX && Lived(n, o, steps, death, trace)
    requires step.AgingEvent? ==> step.id == Aging.EventId(n, Clock(o.k, steps))
    requires death.None? && o.i in trace[|steps|] ==>
      IsAfter(infos, o.i, EntryAfter(trace[|steps|][o.i], o.i, step, Available(o.up, o.e.server, steps)))
    ensures Lived(n, o, steps + [step], death', trace + [infos])
  {
    hide Follows, Over, Clock, Available, IsAfter, EntryAfter, Aging.Scans, Aging.EventId;
    var all := steps + [step];
    death' := death;
    if death.Some? {
      assert all[..death.value] == steps[..death.value];
      StaysOver(n, o, steps, step, Clock(o.k, steps[..death.value]) / EVENTS);
    } else {
      var before := trace[|steps|];
      if step.AgingEvent? && Aging.Scans(step.id, o.i) {
        assert all[..|steps|] == steps;
        FollowsScanned(n, o, steps, step, before, infos);
        death' := if o.i in infos then None else Some(|steps|);
      } else {
        FollowsUnscanned(n, o, steps, step, before, infos);
        FollowsShape(n, o, all, infos);
      }
    }
  }

  /** The whole of a run, as seen from one connection. If it is still there, its index has been in use
      throughout, its entry is what the rules of its life give, and no scan so far should have deleted it.
      If not, it went in a scan of its index, in an iteration in which those rules delete it; with the
      configured timer that is one that finds it marked for deletion, or idle for exactly the iterations
      of its state. */
  ghost predicate LivesByTheRules(n: nat, o: Origin, steps: seq<Step>, death: Option<nat>, trace: seq<map<nat, Info>>)
    requires n > 0 && |trace| == |steps| + 1
  {
    var start, packets := Start(o), Packets(o, steps);
    match death
    case None =>
      && Present(o.i, trace, |steps|)
      && start <= Next(o, steps)
      && Aging.Found(n, o.e, start, packets, Next(o, steps)) == Some(trace[|steps|][o.i])
      && (forall t :: start <= t < Next(o, steps) ==> !Aging.Dies(n, o.e, start, packets, t))
    case Some(m) =>
      && m < |steps| && DiedIn(o, steps, m, trace)
      && var t := Clock(o.k, steps[..m]) / EVENTS;
      && Aging.Dies(n, o.e, start, packets, t)
      && (n == Aging.CONFIGURED_PERIOD ==>
            Aging.FoundMarked(n, o.e, start, packets, t) || exists t0 :: Aging.Due(n, o.e, start, packets, t0, t))
  }

  lemma LivedByTheRules(n: nat, o: Origin, steps: seq<Step>, death: Option<nat>, trace: seq<map<nat, Info>>)
    requires n > 0 && Aging.Fresh(o.e) && Lived(n, o, steps, death, trace)
    ensures LivesByTheRules(n, o, steps, death, trace)
  {
    hide Follows, Over, Clock, Packets, Next, Start, Aging.Dies, Aging.Found, Aging.Scans, Aging.FoundMarked, Aging.Due, Aging.Fresh;
    if death.None? {
      FollowsShape(n, o, steps, trace[|steps|]);
      AliveSoFar(n, o.e, Start(o), Packets(o, steps), Next(o, steps));
    } else {
      var t := Clock(o.k, steps[..death.value]) / EVENTS;
      OverDies(n, o, steps, t);
      if n == Aging.CONFIGURED_PERIOD {
        Aging.IdleRule(n, o.e, Start(o), Packets(o, steps), t);
      }
    }
  }

  /** Any run of steps from tables that hold a connection as it is created, with the timer's events in
      order. `trace` lists the info tables of the run. */
  method Live(db: ConnDb, n: nat, o: Origin, steps: seq<Step>)
    returns (ghost death: Option<nat>, ghost trace: seq<map<nat, Info>>)
    requires db.Valid() && o.i in db.infos && o.i < Aging.CONN_MAX && db.infos[o.i] == o.e && Aging.Fresh(o.e)
    requires o.e.server in db.servers && db.servers[o.e.server].available == o.up
    requires n > 0 && Timed(n, o.k, steps)
    modifies db
    ensures db.Valid()
    ensures |trace| == |steps| + 1 && trace[0] == old(db.infos) && trace[|steps|] == db.infos
    ensures LivesByTheRules(n, o, steps, death, trace)
  {
    hide Linked, GoodEntries, Balanced, Conn.Loaded, StepsTo, Lived, LivesByTheRules, Clock, Available, Aging.EventId, Aging.Fresh;
    death, trace := None, [db.infos];
    assert steps[..0] == [];
    LivedStart(n, o, db.infos);
    for m := 0 to |steps|
      invariant db.Valid() && |trace| == m + 1 && trace[0] == old(db.infos) && trace[m] == db.infos
      invariant o.e.server in db.servers && db.servers[o.e.server].available == Available(o.up, o.e.server, steps[..m])
      invariant Lived(n, o, steps[..m], death, trace)
    {
      ghost var infos, servers := db.infos, db.servers;
      assert steps[..m + 1] == steps[..m] + [steps[m]];
      AppendStep(o, steps[..m], steps[m]);
      LivedServer(n, o, steps[..m], death, trace);
      Perform(db, steps[m]);
      if o.i in infos { StepAt(infos, db.infos, servers, steps[m], o.i); }
      death := LivedStep(n, o, steps[..m], steps[m], db.infos, death, trace);
      trace := trace + [db.infos];
    }
    assert steps[..|steps|] == steps;
    LivedByTheRules(n, o, steps, death, trace);
  }

  lemma LivedStart(n: nat, o: Origin, infos: map<nat, Info>)
    requires n > 0 && o.i in infos && infos[o.i] == o.e
    ensures Lived(n, o, [], None, [infos]) && Available(o.up, o.e.server, []) == o.up
  {
    FollowsStart(n, o, infos);
  }

  lemma LivedServer(n: nat, o: Origin, steps: seq<Step>, death: Option<nat>, trace: seq<map<nat, Info>>)
    requires n > 0 && Lived(n, o, steps, death, trace)
    ensures |trace| == |steps| + 1
    ensures death.None? ==> o.i in trace[|steps|] && trace[|steps|][o.i].server == o.e.server
  {
  }

  lemma FollowsShape(n: nat, o: Origin, steps: seq<Step>, infos: map<nat, Info>)
    requires n > 0 && Follows(n, o, steps, infos)
    ensures o.i in infos && infos[o.i].server == o.e.server && Start(o) <= Next(o, steps)
    ensures Aging.Found(n, o.e, Start(o), Packets(o, steps), Next(o, steps)) == Some(infos[o.i])
  {
  }

  lemma OverDies(n: nat, o: Origin, steps: seq<Step>, t: nat)
    requires n > 0 && Over(n, o, steps, t)
    ensures Start(o) <= t && Aging.Dies(n, o.e, Start(o), Packets(o, steps), t)
  {
  }

  lemma StepAt(infos: map<nat, Info>, infos': map<nat, Info>, servers: map<nat, ServerInfo>, step: Step, i: nat)
    requires StepsTo(infos, infos', servers, step) && i in infos
    ensures infos[i].server in servers
    ensures IsAfter(infos', i, EntryAfter(infos[i], i, step, servers[infos[i].server].available))
  {
  }
}
