/** Admission of connections to a server: a lock-free protocol over one shared connection counter
    and one OVERLOAD flag. */
module Overload {

  /** Upper and lower connection thresholds; an upper threshold of zero means no limit. */
  datatype Thresholds = Thresholds(u: nat, l: nat)

  // ---------------------------------------------------------------- one thread at a time

  datatype Load = Load(counter: int, overload: bool)

  /** The connection count `c` is low enough to end an overload. */
  predicate BelowLow(t: Thresholds, c: int) {
    if t.l != 0 then c < t.l else 4 * c < 3 * t.u
  }

  /** `alvs_server_overload_on_create_conn` run without interference: the new load and whether the
      connection is admitted. */
  function Create(t: Thresholds, s: Load): (r: (Load, bool)) {
    var c := s.counter + 1;
    if t.u == 0 then (s.(counter := c), true)
    else if c == t.u then
      if s.overload then (s, false) else (Load(c, true), true)
    else if c > t.u then (s.(overload := true), false)
    else if t.l != 0 && c <= t.l then (Load(c, false), true)
    else if s.overload then (s, false)
    else (s.(counter := c), true)
  }

  /** `alvs_server_overload_on_delete_conn` run without interference. */
  function Delete(t: Thresholds, s: Load): Load {
    var c := s.counter - 1;
    Load(c, s.overload && t.u != 0 && !BelowLow(t, c))
  }

  /** What a run without interference keeps: a full server is overloaded, and an overloaded server
      has not dropped below the low mark. */
  ghost predicate Hysteresis(t: Thresholds, s: Load) {
    && 0 <= s.counter
    && (t.u != 0 ==>
      && s.counter <= t.u
      && (s.counter == t.u ==> s.overload)
      && (s.overload ==> !BelowLow(t, s.counter)))
  }

  /** Under the invariant the branches of both operations collapse to a two-state hysteresis switch:
      OVERLOAD is raised by the admission that fills the server, refuses everything while raised, and
      falls with the deletion that crosses the low mark. */
  lemma HysteresisSwitch(t: Thresholds, s: Load)
    requires t.l <= t.u && t.u != 0 && Hysteresis(t, s)
    ensures Create(t, s) == if s.overload then (s, false) else (Load(s.counter + 1, s.counter + 1 == t.u), true)
    ensures Hysteresis(t, Create(t, s).0)
    ensures s.counter > 0 ==> Hysteresis(t, Delete(t, s))
    ensures Delete(t, s).overload <==> s.overload && !BelowLow(t, s.counter - 1)
  {
  }

  datatype Request = Open | Close

  /** The load after a run of requests; a close with nothing open does not happen. */
  function Serve(t: Thresholds, rs: seq<Request>): Load {
    if rs == [] then Load(0, false)
    else
      var s := Serve(t, rs[..|rs| - 1]);
      if rs[|rs| - 1].Open? then Create(t, s).0 else if s.counter > 0 then Delete(t, s) else s
  }

  lemma {:induction false} ServeKeepsHysteresis(t: Thresholds, rs: seq<Request>)
    requires t.l <= t.u
    ensures Hysteresis(t, Serve(t, rs))
  {
    if rs != [] {
      ServeKeepsHysteresis(t, rs[..|rs| - 1]);
    }
  }

  /** The promise in numbers, over every run without interference: a limited server never has more than
      its limit, at its limit it is overloaded, and overloaded it has at least as many connections as the
      low mark says or, without one, at least three quarters of the limit. */
  lemma ServeInNumbers(t: Thresholds, rs: seq<Request>)
    requires t.l <= t.u && t.u != 0
    ensures var s := Serve(t, rs);
      && 0 <= s.counter <= t.u
      && (s.counter == t.u ==> s.overload)
      && (s.overload && t.l != 0 ==> s.counter >= t.l)
      && (s.overload && t.l == 0 ==> 4 * s.counter >= 3 * t.u)
  {
    ServeKeepsHysteresis(t, rs);
  }

  /** What a request does, in numbers: an open is refused iff the server is overloaded; otherwise it is
      counted, and the one that reaches the limit raises the flag. A close lowers the flag iff it leaves
      fewer connections than the low mark or, without one, less than three quarters of the limit. */
  lemma NextInNumbers(t: Thresholds, rs: seq<Request>, r: Request)
    requires t.l <= t.u && t.u != 0
    ensures var s, s' := Serve(t, rs), Serve(t, rs + [r]);
      && (r.Open? ==> s' == if s.overload then s else Load(s.counter + 1, s.counter + 1 == t.u))
      && (r.Close? && s.counter > 0 ==>
            && s'.counter == s.counter - 1
            && (s'.overload <==> s.overload && (if t.l != 0 then s'.counter >= t.l else 4 * s'.counter >= 3 * t.u)))
  {
    assert (rs + [r])[..|rs|] == rs;
    ServeKeepsHysteresis(t, rs);
    HysteresisSwitch(t, Serve(t, rs));
  }

  /** Without a limit every open is admitted. */
  lemma NoLimit(t: Thresholds, load: Load)
    requires t.u == 0
    ensures Create(t, load) == (load.(counter := load.counter + 1), true)
  {
  }

  /** The shared counter and flag of one server. */
  class ServerLoad {
    const t: Thresholds
    var counter: int
    var overload: bool

    ghost function State(): Load
      reads this
    {
      Load(counter, overload)
    }

    constructor (t: Thresholds)
      ensures this.t == t && State() == Load(0, false)
    {
      this.t, counter, overload := t, 0, false;
    }

    /** Returns whether the connection has to be refused. */
    method OnCreateConn() returns (refused: bool)
      modifies this
      ensures (State(), !refused) == Create(t, old(State()))
      // the same in numbers, also for a server whose thresholds have changed
      ensures counter == old(counter) + if refused then 0 else 1
      ensures t.u == 0 ==> !refused && overload == old(overload)
      ensures t.u != 0 && old(counter) + 1 >= t.u ==> overload && (refused <==> old(counter) + 1 > t.u || old(overload))
      ensures t.u != 0 && old(counter) + 1 < t.u ==>
        if t.l != 0 && old(counter) + 1 <= t.l then !refused && !overload else refused == overload == old(overload)
    {
      var flags := overload;
      var c := counter + 1;
      counter := c;
      if t.u != 0 {
        if c == t.u {
          if flags {
            counter := counter - 1;
            return true;
          }
          overload := true;
          return false;
        } else if c > t.u {
          overload := true;
          counter := counter - 1;
          return true;
        }
        if t.l != 0 {
          if c <= t.l {
            overload := false;
            return false;
          }
        }
        if flags {
          counter := counter - 1;
        }
        return flags;
      }
      return false;
    }

    method OnDeleteConn()
      modifies this
      ensures State() == Delete(t, old(State()))
      ensures counter == old(counter) - 1
      ensures t.u == 0 ==> !overload
      ensures t.u != 0 ==>
        (overload <==> old(overload) && (if t.l != 0 then counter >= t.l else 4 * counter >= 3 * t.u))
    {
      var c := counter - 1;
      counter := c;
      if t.u == 0 {
        overload := false;
        return;
      }
      if t.l != 0 {
        if c < t.l { overload := false; }
      } else if t.u != 0 {
        if c * 4 < t.u * 3 { overload := false; }
      }
    }
  }

  // ---------------------------------------------------------------- many threads

  /** Where a connection's thread stands; each step is one atomic access to the shared words. */
  datatype Pc =
    | Idle                    // about to read the flag
    | HaveFlag(seen: bool)    // about to increment the counter
    | SetThenAdmit            // the increment filled the server; about to raise the flag
    | ClearThenAdmit          // the increment stayed at or below the low mark; about to lower the flag
    | SetThenUndo             // the increment went over the threshold; about to raise the flag
    | Undo                    // refused; about to take the increment back
    | Live                    // admitted; the next step deletes the connection
    | ClearThenGone           // deleted; about to lower the flag
    | Refused
    | Gone

  datatype Shared = Shared(counter: int, overload: bool, threads: seq<Pc>)

  /** The decision taken on the incremented counter value `c`. */
  function Decide(t: Thresholds, seen: bool, c: int): Pc {
    if t.u == 0 then Live
    else if c == t.u then if seen then Undo else SetThenAdmit
    else if c > t.u then SetThenUndo
    else if t.l != 0 && c <= t.l then ClearThenAdmit
    else if seen then Undo
    else Live
  }

  function Step(t: Thresholds, s: Shared, i: nat): Shared
    requires i < |s.threads|
  {
    match s.threads[i]
    case Idle => s.(threads := s.threads[i := HaveFlag(s.overload)])
    case HaveFlag(seen) =>
      Shared(s.counter + 1, s.overload, s.threads[i := Decide(t, seen, s.counter + 1)])
    case SetThenAdmit => Shared(s.counter, true, s.threads[i := Live])
    case ClearThenAdmit => Shared(s.counter, false, s.threads[i := Live])
    case SetThenUndo => Shared(s.counter, true, s.threads[i := Undo])
    case Undo => Shared(s.counter - 1, s.overload, s.threads[i := Refused])
    case Live =>
      var next := if t.u == 0 || BelowLow(t, s.counter - 1) then ClearThenGone else Gone;
      Shared(s.counter - 1, s.overload, s.threads[i := next])
    case ClearThenGone => Shared(s.counter, false, s.threads[i := Gone])
    case Refused => s
    case Gone => s
  }

  datatype Action = Spawn | Run(thread: nat)

  function Act(t: Thresholds, s: Shared, a: Action): Shared {
    match a
    case Spawn => s.(threads := s.threads + [Idle])
    case Run(i) => if i < |s.threads| then Step(t, s, i) else s
  }

  /** Any interleaving: any number of threads, scheduled in any order. */
  function Interleave(t: Thresholds, run: seq<Action>): Shared {
    if run == [] then Shared(0, false, [])
    else Act(t, Interleave(t, run[..|run| - 1]), run[|run| - 1])
  }

  predicate IsAdmitted(pc: Pc) { pc.Live? || pc.SetThenAdmit? || pc.ClearThenAdmit? }

  predicate IsUndoing(pc: Pc) { pc.Undo? || pc.SetThenUndo? }

  function Count(p: Pc -> bool, s: seq<Pc>): nat {
    if s == [] then 0 else Count(p, s[1..]) + if p(s[0]) then 1 else 0
  }

  lemma {:induction false} CountUpdate(p: Pc -> bool, s: seq<Pc>, i: nat, x: Pc)
    requires i < |s|
    ensures Count(p, s[i := x]) == Count(p, s) - (if p(s[i]) then 1 else 0) + if p(x) then 1 else 0
  {
    if i == 0 {
      assert s[0 := x][1..] == s[1..];
    } else {
      assert s[i := x][1..] == s[1..][i - 1 := x];
      CountUpdate(p, s[1..], i - 1, x);
    }
  }

  lemma {:induction false} CountAppend(p: Pc -> bool, s: seq<Pc>, x: Pc)
    ensures Count(p, s + [x]) == Count(p, s) + if p(x) then 1 else 0
  {
    if s != [] {
      assert (s + [x])[1..] == s[1..] + [x];
      CountAppend(p, s[1..], x);
    }
  }

  /** Admitted connections and admissions about to complete. */
  function Admitted(s: Shared): nat { Count(IsAdmitted, s.threads) }

  /** Refusals whose increment has not been taken back yet. */
  function Undoing(s: Shared): nat { Count(IsUndoing, s.threads) }

  ghost predicate Safe(t: Thresholds, s: Shared) {
    && s.counter == Admitted(s) + Undoing(s)
    && (t.u != 0 ==> Admitted(s) <= t.u)
  }

  lemma ActKeepsSafe(t: Thresholds, s: Shared, a: Action)
    requires Safe(t, s)
    ensures Safe(t, Act(t, s, a))
  {
    hide Count, BelowLow;
    match a
    case Spawn =>
      CountAppend(IsAdmitted, s.threads, Idle);
      CountAppend(IsUndoing, s.threads, Idle);
    case Run(i) =>
      if i < |s.threads| {
        var pc := Step(t, s, i).threads[i];
        assert Step(t, s, i).threads == s.threads[i := pc];
        CountUpdate(IsAdmitted, s.threads, i, pc);
        CountUpdate(IsUndoing, s.threads, i, pc);
      }
  }

  /** Under every interleaving the admitted connections, live or about to be, never exceed the upper
      threshold, and the counter is exactly those plus the refusals not yet taken back. */
  lemma {:induction false} NeverOverAdmitted(t: Thresholds, run: seq<Action>)
    ensures Safe(t, Interleave(t, run))
  {
    if run != [] {
      NeverOverAdmitted(t, run[..|run| - 1]);
      ActKeepsSafe(t, Interleave(t, run[..|run| - 1]), run[|run| - 1]);
    }
  }

  // ---------------------------------------------------------------- both views agree

  predicate Creating(pc: Pc) {
    pc.Idle? || pc.HaveFlag? || pc.SetThenAdmit? || pc.ClearThenAdmit? || pc.SetThenUndo? || pc.Undo?
  }

  function Rank(pc: Pc): nat {
    match pc
    case Idle => 4
    case HaveFlag(_) => 3
    case SetThenUndo => 2
    case SetThenAdmit => 1
    case ClearThenAdmit => 1
    case Undo => 1
    case _ => 0
  }

  /** Thread `i` runs its creation to the end with no other thread in between. */
  function CreateAlone(t: Thresholds, s: Shared, i: nat): Shared
    requires i < |s.threads|
    decreases Rank(s.threads[i])
  {
    if Creating(s.threads[i]) then CreateAlone(t, Step(t, s, i), i) else s
  }

  /** Thread `i` deletes its connection with no other thread in between. */
  function DeleteAlone(t: Thresholds, s: Shared, i: nat): Shared
    requires i < |s.threads|
  {
    var s1 := Step(t, s, i);
    if s1.threads[i].ClearThenGone? then Step(t, s1, i) else s1
  }

  /** The atomic steps, run without interference, are the sequential operations. */
  lemma AloneIsSequential(t: Thresholds, s: Shared, i: nat)
    requires i < |s.threads|
    ensures s.threads[i].Idle? ==>
      var (load, admitted) := Create(t, Load(s.counter, s.overload));
      CreateAlone(t, s, i) == Shared(load.counter, load.overload, s.threads[i := if admitted then Live else Refused])
    ensures s.threads[i].Live? ==>
      var load := Delete(t, Load(s.counter, s.overload));
      DeleteAlone(t, s, i) == Shared(load.counter, load.overload, s.threads[i := Gone])
  {
    if s.threads[i].Idle? {
      var s1 := Step(t, s, i);
      var s2 := Step(t, s1, i);
      assert CreateAlone(t, s, i) == CreateAlone(t, s1, i) == CreateAlone(t, s2, i);
      if Creating(s2.threads[i]) {
        var s3 := Step(t, s2, i);
        assert CreateAlone(t, s2, i) == CreateAlone(t, s3, i);
        if Creating(s3.threads[i]) {
          assert CreateAlone(t, s3, i) == Step(t, s3, i);
        }
      }
    }
  }

  // ---------------------------------------------------------------- what interference loses

  lemma RunAppend(t: Thresholds, run: seq<Action>, a: Action)
    ensures Interleave(t, run + [a]) == Act(t, Interleave(t, run), a)
  {
    assert (run + [a])[..|run|] == run;
  }

  lemma Then(t: Thresholds, run: seq<Action>, a: Action) returns (run': seq<Action>)
    ensures Interleave(t, run') == Act(t, Interleave(t, run), a)
  {
    run' := run + [a];
    RunAppend(t, run, a);
  }

  lemma {:induction false} ThenCreate(t: Thresholds, run: seq<Action>, i: nat) returns (run': seq<Action>)
    requires i < |Interleave(t, run).threads|
    ensures Interleave(t, run') == CreateAlone(t, Interleave(t, run), i)
    decreases Rank(Interleave(t, run).threads[i])
  {
    hide Interleave;
    run' := run;
    if Creating(Interleave(t, run).threads[i]) {
      run' := Then(t, run, Run(i));
      run' := ThenCreate(t, run', i);
    }
  }

  lemma ThenDelete(t: Thresholds, run: seq<Action>, i: nat) returns (run': seq<Action>)
    requires i < |Interleave(t, run).threads|
    ensures Interleave(t, run') == DeleteAlone(t, Interleave(t, run), i)
  {
    hide Interleave;
    run' := Then(t, run, Run(i));
    if Interleave(t, run').threads[i].ClearThenGone? {
      run' := Then(t, run', Run(i));
    }
  }

  function Copies(pc: Pc, n: nat): seq<Pc> {
    seq(n, _ => pc)
  }

  lemma EmptyEnough(t: Thresholds, n: nat)
    requires n < t.u
    ensures Hysteresis(t, Load(n, false))
  {
  }

  /** One connection after the other fills the server, and only the last one raises the flag. */
  lemma {:induction false} Fill(t: Thresholds, n: nat) returns (run: seq<Action>)
    requires t.l <= t.u && t.u != 0 && n <= t.u
    ensures Interleave(t, run) == Shared(n, n == t.u, Copies(Live, n))
  {
    if n == 0 {
      run := [];
    } else {
      hide Interleave, Create, CreateAlone, BelowLow, Hysteresis, Step;
      EmptyEnough(t, n - 1);
      run := Fill(t, n - 1);
      run := Then(t, run, Spawn);
      var s := Interleave(t, run);
      HysteresisSwitch(t, Load(n - 1, false));
      AloneIsSequential(t, s, n - 1);
      run := ThenCreate(t, run, n - 1);
      assert Copies(Live, n - 1) + [Live] == Copies(Live, n);
    }
  }

  /** A full server, one creation that went over the threshold and is about to raise the flag, and `k`
      of the connections deleted before it does. */
  lemma {:induction false} Drain(t: Thresholds, k: nat) returns (run: seq<Action>, flag: bool)
    requires t.l <= t.u && t.u != 0 && k <= t.u
    ensures Interleave(t, run) == Shared(t.u + 1 - k, flag, Copies(Gone, k) + Copies(Live, t.u - k) + [SetThenUndo])
  {
    hide Interleave, Delete, DeleteAlone;
    if k == 0 {
      flag := true;
      run := Fill(t, t.u);
      run := Then(t, run, Spawn);
      run := Then(t, run, Run(t.u));
      run := Then(t, run, Run(t.u));
    } else {
      run, flag := Drain(t, k - 1);
      var s := Interleave(t, run);
      assert s.threads[k - 1 := Gone] == Copies(Gone, k) + Copies(Live, t.u - k) + [SetThenUndo];
      AloneIsSequential(t, s, k - 1);
      run := ThenDelete(t, run, k - 1);
      DeleteCounts(t, Load(s.counter, s.overload));
      flag := Delete(t, Load(s.counter, s.overload)).overload;
    }
  }

  lemma DeleteCounts(t: Thresholds, load: Load)
    ensures Delete(t, load).counter == load.counter - 1
  {
  }

  /** Interference loses the hysteresis, whatever the limit: a creation that went over the threshold
      raises OVERLOAD after the last connection is gone. Nothing is live, no thread is under way, and
      the flag is up on an empty server. */
  lemma RaceLosesHysteresis(t: Thresholds) returns (run: seq<Action>)
    requires t.l <= t.u && t.u != 0
    ensures Interleave(t, run) == Shared(0, true, Copies(Gone, t.u) + [Refused])
    ensures !Hysteresis(t, Load(0, true)) && IdleOverload(Interleave(t, run))
  {
    hide Interleave;
    var flag: bool;
    run, flag := Drain(t, t.u);
    run := Then(t, run, Run(t.u));
    run := Then(t, run, Run(t.u));
  }

  /** No thread is between two of its steps. */
  predicate AtRest(s: Shared) {
    forall i :: 0 <= i < |s.threads| ==> s.threads[i].Live? || s.threads[i].Refused? || s.threads[i].Gone?
  }

  ghost predicate KeepsHysteresis(t: Thresholds) {
    forall run :: AtRest(Interleave(t, run)) ==>
      Hysteresis(t, Load(Interleave(t, run).counter, Interleave(t, run).overload))
  }

  /** So the states at rest of all interleavings keep the hysteresis iff the server has no limit. */
  lemma HysteresisSurvivesIff(t: Thresholds)
    requires t.l <= t.u
    ensures KeepsHysteresis(t) <==> t.u == 0
  {
    hide Interleave;
    if t.u == 0 {
      forall run ensures Hysteresis(t, Load(Interleave(t, run).counter, Interleave(t, run).overload)) {
        NeverOverAdmitted(t, run);
      }
    } else {
      var run := RaceLosesHysteresis(t);
      assert AtRest(Interleave(t, run));
    }
  }

  // ---------------------------------------------------------------- what comes after

  /** All threads are done, none holds a connection, and the flag is up. */
  predicate IdleOverload(s: Shared) {
    s.overload && forall i :: 0 <= i < |s.threads| ==> s.threads[i].Refused? || s.threads[i].Gone?
  }

  /** The flag is up, and every thread that is not done has seen it or is about to be refused. */
  ghost predicate Locked(s: Shared) {
    && s.overload
    && forall i :: 0 <= i < |s.threads| ==>
      var pc := s.threads[i];
      pc.Idle? || pc == HaveFlag(true) || pc.SetThenUndo? || pc.Undo? || pc.Refused? || pc.Gone?
  }

  lemma StaysLocked(t: Thresholds, s: Shared, a: Action)
    requires Locked(s) && Safe(t, s) && t.u != 0 && (t.l == 0 || t.u == 1)
    ensures Locked(Act(t, s, a))
  {
  }

  lemma {:induction false} NoneAdmitted(s: seq<Pc>)
    requires forall i :: 0 <= i < |s| ==> !IsAdmitted(s[i])
    ensures Count(IsAdmitted, s) == 0
  {
    if s != [] { NoneAdmitted(s[1..]); }
  }

  lemma {:induction false} LockedForGood(t: Thresholds, run: seq<Action>, more: seq<Action>)
    requires t.u != 0 && (t.l == 0 || t.u == 1) && IdleOverload(Interleave(t, run))
    ensures Locked(Interleave(t, run + more)) && Admitted(Interleave(t, run + more)) == 0
    decreases |more|
  {
    hide Interleave, Act;
    if more == [] {
      assert run + more == run;
    } else {
      var m := more[..|more| - 1];
      LockedForGood(t, run, m);
      NeverOverAdmitted(t, run + m);
      assert run + more == (run + m) + [more[|more| - 1]];
      RunAppend(t, run + m, more[|more| - 1]);
      StaysLocked(t, Interleave(t, run + m), more[|more| - 1]);
    }
    NoneAdmitted(Interleave(t, run + more).threads);
  }

  /** One thread is admitted. */
  lemma ThenAdmit(t: Thresholds, run: seq<Action>) returns (more: seq<Action>)
    requires t.u == 0 || (t.l != 0 && t.u > 1)
    requires IdleOverload(Interleave(t, run))
    ensures Admitted(Interleave(t, run + more)) > 0
  {
    hide Interleave, Count;
    var s := Interleave(t, run);
    NeverOverAdmitted(t, run);
    NoneAdmitted(s.threads);
    NoneUndoing(s.threads);
    var i := |s.threads|;
    more := [Spawn, Run(i), Run(i)];
    RunAppend(t, run, Spawn);
    RunAppend(t, run + [Spawn], Run(i));
    RunAppend(t, run + [Spawn] + [Run(i)], Run(i));
    assert run + more == run + [Spawn] + [Run(i)] + [Run(i)];
    var s' := Interleave(t, run + more);
    assert s'.threads == s.threads + [s'.threads[i]] && IsAdmitted(s'.threads[i]);
    CountAppend(IsAdmitted, s.threads, s'.threads[i]);
  }

  lemma {:induction false} NoneUndoing(s: seq<Pc>)
    requires forall i :: 0 <= i < |s| ==> !IsUndoing(s[i])
    ensures Count(IsUndoing, s) == 0
  {
    if s != [] { NoneUndoing(s[1..]); }
  }

  /** After a run that leaves the server idle but overloaded, some further run of any threads is admitted
      a connection iff the server has no limit, or a low mark and room for more than one connection. */
  lemma IdleOverloadRecovers(t: Thresholds, run: seq<Action>)
    requires IdleOverload(Interleave(t, run))
    ensures (exists more :: Admitted(Interleave(t, run + more)) > 0) <==> t.u == 0 || (t.l != 0 && t.u > 1)
  {
    hide Interleave, Count;
    if t.u == 0 || (t.l != 0 && t.u > 1) {
      var more := ThenAdmit(t, run);
      assert Admitted(Interleave(t, run + more)) > 0;
    } else {
      forall more ensures Admitted(Interleave(t, run + more)) == 0 {
        LockedForGood(t, run, more);
      }
    }
  }
}
