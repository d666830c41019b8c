/** Master and backup together: what the one packs, the other unpacks. */
module SyncRoundTrip {
  import opened Common
  import opened SyncWire
  import opened SyncBackup
  import opened SyncMaster

  /** The frame as the backup's parser gets it, without the Ethernet, IPv4 and UDP headers. */
  function Payload(frame: seq<seq<Byte>>): (p: seq<seq<Byte>>)
    requires frame != [] && |frame[0]| >= SYNC_OFFSET
    ensures p != []
  {
    [frame[0][SYNC_OFFSET..]] + frame[1..]
  }

  /** Processing records one by one, up to the first that makes the backup give the message up. */
  function RunRecords<S>(rs: seq<SyncConn>, process: Processor<S>, s: S): (S, Outcome) {
    if rs == [] then (s, Done)
    else
      var (s', rc) := process(s, rs[0]);
      if rc < 0 then (s', BadRecord) else RunRecords(rs[1..], process, s')
  }

  lemma {:induction false} ParsesRecords<S>(rs: seq<SyncConn>, process: Processor<S>, s: S)
    ensures ParseRecords(EncodeAll(rs), |rs|, process, s) == RunRecords(rs, process, s)
  {
    if rs != [] {
      var b := EncodeAll(rs);
      assert b[..CONN_SIZE] == EncodeConn(rs[0]) && b[CONN_SIZE..] == EncodeAll(rs[1..]);
      ConnRoundTrip(rs[0]);
      ParsesRecords(rs[1..], process, process(s, rs[0]).0);
    }
  }

  lemma PayloadBytes(c: Config, reserved: Byte, frame: seq<seq<Byte>>, rs: seq<SyncConn>)
    requires GoodFrame(c, reserved, frame, rs)
    ensures Flatten(Payload(frame)) == EncodeHeader(Header(c, reserved, |rs|)) + EncodeAll(rs)
  {
    hide NetHeader, EncodeAll, EncodeHeader, Flatten;
    var h := EncodeHeader(Header(c, reserved, |rs|));
    FlattenHead(frame[0], frame[1..]);
    assert [frame[0]] + frame[1..] == frame;
    FlattenHead(frame[0][SYNC_OFFSET..], frame[1..]);
    DropPrefix(frame[0], Flatten(frame[1..]), SYNC_OFFSET);
    DropPrefix(c.eth + NetHeader(c, |rs|) + h, EncodeAll(rs), SYNC_OFFSET);
    DropPrefix(c.eth + NetHeader(c, |rs|), h, SYNC_OFFSET);
  }

  lemma DropPrefix(a: seq<Byte>, b: seq<Byte>, n: nat)
    requires n <= |a|
    ensures (a + b)[n..] == a[n..] + b
  {
  }

  /** A frame of the master makes the backup process exactly the frame's records, in order, iff the
      synchronisation ids agree and the byte the master leaves unwritten happens to be zero; otherwise
      the backup drops the frame without touching anything. */
  lemma FrameRoundTrip<S>(c: Config, reserved: Byte, frame: seq<seq<Byte>>, rs: seq<SyncConn>,
                          syncId: Byte, process: Processor<S>, s: S)
    requires GoodFrame(c, reserved, frame, rs)
    ensures ParseMessage(Flatten(Payload(frame)), syncId, process, s) ==
      if syncId != 0 && c.syncId != syncId then (s, NotMySyncId)
      else if reserved != 0 then (s, BadVersion)
      else RunRecords(rs, process, s)
  {
    hide EncodeAll, EncodeHeader, DecodeHeader, Flatten;
    PayloadBytes(c, reserved, frame, rs);
    var h := Header(c, reserved, |rs|);
    var b := EncodeHeader(h) + EncodeAll(rs);
    assert b[..HEADER_SIZE] == EncodeHeader(h) && b[HEADER_SIZE..] == EncodeAll(rs);
    HeaderRoundTrip(h);
    ParsesRecords(rs, process, s);
  }

  /** Processing all records, none of which is rejected. */
  function Fold<S>(rs: seq<SyncConn>, process: Processor<S>, s: S): S {
    if rs == [] then s else Fold(rs[1..], process, process(s, rs[0]).0)
  }

  lemma {:induction false} RunIsFold<S(!new)>(rs: seq<SyncConn>, process: Processor<S>, s: S)
    requires forall s: S, r :: r in rs ==> process(s, r).1 >= 0
    ensures RunRecords(rs, process, s) == (Fold(rs, process, s), Done)
  {
    if rs != [] {
      RunIsFold(rs[1..], process, process(s, rs[0]).0);
    }
  }

  lemma {:induction false} FoldSplit<S>(a: seq<SyncConn>, b: seq<SyncConn>, process: Processor<S>, s: S)
    ensures Fold(a + b, process, s) == Fold(b, process, Fold(a, process, s))
  {
    if a == [] {
      assert a + b == b;
    } else {
      assert (a + b)[1..] == a[1..] + b;
      FoldSplit(a[1..], b, process, process(s, a[0]).0);
    }
  }

  lemma {:induction false} InFlatten(groups: seq<seq<SyncConn>>, k: nat, r: SyncConn)
    requires k < |groups| && r in groups[k]
    ensures r in Flatten(groups)
  {
    if k > 0 { InFlatten(groups[1..], k - 1, r); }
  }

  /** The code that processing of record `i` gives, all records before it having been processed. */
  function CodeOf<S>(rs: seq<SyncConn>, process: Processor<S>, s: S, i: nat): int
    requires i < |rs|
  {
    process(Fold(rs[..i], process, s), rs[i]).1
  }

  /** The backup stops behind the first record whose code is negative, and processes all if there is none;
      a positive code skips nothing but the record itself. */
  lemma {:induction false} RunStops<S>(rs: seq<SyncConn>, process: Processor<S>, s: S) returns (n: nat)
    ensures n <= |rs| && RunRecords(rs, process, s).0 == Fold(rs[..n], process, s)
    ensures forall i :: 0 <= i < n - 1 ==> CodeOf(rs, process, s, i) >= 0
    ensures if n > 0 && CodeOf(rs, process, s, n - 1) < 0 then RunRecords(rs, process, s).1 == BadRecord
            else n == |rs| && RunRecords(rs, process, s).1 == Done
  {
    if rs == [] {
      n := 0;
    } else {
      var (s', rc) := process(s, rs[0]);
      assert rs[..0] == [] && rs[..1][1..] == [];
      if rc < 0 {
        n := 1;
      } else {
        var m := RunStops(rs[1..], process, s');
        n := m + 1;
        assert CodeOf(rs, process, s, 0) == rc;
        forall i | 1 <= i <= m ensures CodeOf(rs, process, s, i) == CodeOf(rs[1..], process, s', i - 1) {
          assert rs[..i][1..] == rs[1..][..i - 1];
        }
        assert rs[..n][1..] == rs[1..][..m];
      }
    }
  }

  /** An aging event on the master, delivered to the backup: however the records were packed, the backup
      ends in the state of processing them one after the other. */
  method Replicate<S(!new)>(c: Config, data: array<Byte>, rs: seq<SyncConn>, syncId: Byte, process: Processor<S>, s0: S)
    returns (s: S)
    requires c.Valid() && data.Length == c.bufSize && data[SYNC_OFFSET] == 0
    requires syncId == 0 || syncId == c.syncId
    requires forall s: S, r :: r in rs ==> process(s, r).1 >= 0
    modifies data
    ensures s == Fold(rs, process, s0)
  {
    hide GoodFrame, Flatten, Fold, RunRecords, ParseMessage;
    var sent, groups := SendEvent(c, data, rs);
    s := s0;
    assert Fold(Flatten(groups[..0]), process, s0) == s0 by { FoldNothing(groups, process, s0); }
    for k := 0 to |sent|
      invariant s == Fold(Flatten(groups[..k]), process, s0)
    {
      assert GoodFrame(c, 0, sent[k], groups[k]);
      FrameFits(c, 0, sent[k], groups[k]);
      FrameRoundTrip(c, 0, sent[k], groups[k], syncId, process, s);
      forall r | r in groups[k] ensures r in rs {
        InFlatten(groups, k, r);
      }
      RunIsFold(groups[k], process, s);
      assert groups[..k + 1] == groups[..k] + [groups[k]];
      GroupsAppend(groups[..k], groups[k]);
      FoldSplit(Flatten(groups[..k]), groups[k], process, s0);
      var outcome;
      s, outcome := Backup(Some(AppInfo(true, syncId)), Payload(sent[k]), process, s);
    }
    assert groups[..|groups|] == groups;
  }

  lemma FoldNothing<S>(groups: seq<seq<SyncConn>>, process: Processor<S>, s: S)
    ensures Fold(Flatten(groups[..0]), process, s) == s
  {
  }

  lemma FrameFits(c: Config, reserved: Byte, frame: seq<seq<Byte>>, rs: seq<SyncConn>)
    requires GoodFrame(c, reserved, frame, rs)
    ensures frame != [] && |frame[0]| >= SYNC_OFFSET
  {
  }
}
