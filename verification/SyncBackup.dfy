/** Receiving synchronisation messages: a message arrives as a chain of frame buffers, and both its
    header and its records may straddle buffers. */
module SyncBackup {
  import opened Common
  import opened SyncWire

  const PROTO_VERSION := 1

  datatype AppInfo = AppInfo(backup: bool, syncId: Byte)

  datatype Outcome = Done | LookupFail | BackupDown | BadHeaderSize | NotMySyncId | BadVersion | BadBuffer | BadRecord

  /** Processing of one record: the new state, and a code that is negative to give the message up. */
  type Processor<!S> = (S, SyncConn) -> (S, int)

  // ---------------------------------------------------------------- the message as one byte string

  /** Processes the first `n` records of `bytes`. */
  function ParseRecords<S>(bytes: seq<Byte>, n: nat, process: Processor<S>, s: S): (S, Outcome)
    decreases n
  {
    if n == 0 then (s, Done)
    else if |bytes| < CONN_SIZE then (s, BadBuffer)
    else
      var (s', rc) := process(s, DecodeConn(bytes[..CONN_SIZE]));
      if rc < 0 then (s', BadRecord) else ParseRecords(bytes[CONN_SIZE..], n - 1, process, s')
  }

  /** A header is for us and of the supported version. */
  function CheckHeader(h: SyncHeader, syncId: Byte): Outcome {
    if syncId != 0 && h.syncId != syncId then NotMySyncId
    else if h.version == PROTO_VERSION && h.reserved == 0 && h.spare == 0 then Done
    else BadVersion
  }

  function ParseMessage<S>(bytes: seq<Byte>, syncId: Byte, process: Processor<S>, s: S): (S, Outcome) {
    if |bytes| < HEADER_SIZE then (s, BadHeaderSize)
    else
      var h := DecodeHeader(bytes[..HEADER_SIZE]);
      var check := CheckHeader(h, syncId);
      if check != Done then (s, check) else ParseRecords(bytes[HEADER_SIZE..], h.connCount, process, s)
  }

  // ---------------------------------------------------------------- the message as buffers

  /** What is left to read: the rest of the current buffer and the buffers behind it. */
  ghost function Remaining(frame: seq<seq<Byte>>, bi: nat, buffer: seq<Byte>): seq<Byte>
    requires bi < |frame|
  {
    buffer + Flatten(frame[bi + 1..])
  }

  lemma NextBuffer(frame: seq<seq<Byte>>, bi: nat, read: seq<Byte>, buffer: seq<Byte>)
    requires bi + 1 < |frame|
    ensures read + Remaining(frame, bi, buffer) == (read + buffer) + Remaining(frame, bi + 1, frame[bi + 1])
  {
    assert frame[bi + 1..][1..] == frame[bi + 2..];
    var rest := Flatten(frame[bi + 2..]);
    assert read + (buffer + (frame[bi + 1] + rest)) == (read + buffer) + (frame[bi + 1] + rest);
  }

  lemma LastBuffer(frame: seq<seq<Byte>>, buffer: seq<Byte>)
    requires frame != []
    ensures Remaining(frame, |frame| - 1, buffer) == buffer
  {
    assert frame[|frame|..] == [];
  }

  lemma TakeBytes(frame: seq<seq<Byte>>, bi: nat, read: seq<Byte>, buffer: seq<Byte>, size: nat)
    requires bi < |frame| && size <= |buffer|
    ensures read + Remaining(frame, bi, buffer) == (read + buffer[..size]) + Remaining(frame, bi, buffer[size..])
    ensures |Remaining(frame, bi, buffer)| >= |buffer|
  {
    var rest := Flatten(frame[bi + 1..]);
    assert read + (buffer + rest) == (read + buffer[..size]) + (buffer[size..] + rest);
  }

  /** Copies `src` into the tail buffer at `offset`. */
  method MemCopy(tail: array<Byte>, offset: nat, src: seq<Byte>)
    requires offset + |src| <= tail.Length
    modifies tail
    ensures tail[..offset + |src|] == old(tail[..offset]) + src
  {
    forall k | 0 <= k < |src| {
      tail[offset + k] := src[k];
    }
  }

  /** Reads `need` bytes from the current buffer, moving on to further buffers and keeping what it has
      read so far in a tail of fixed size as long as they do not suffice. */
  method Gather(frame: seq<seq<Byte>>, bi: nat, buffer: seq<Byte>, need: nat)
    returns (ok: bool, data: seq<Byte>, bi': nat, buffer': seq<Byte>)
    requires bi < |frame| && need <= CONN_SIZE
    ensures ok <==> need <= |Remaining(frame, bi, buffer)|
    ensures ok ==> bi' < |frame| && |data| == need
    ensures ok ==> Remaining(frame, bi, buffer) == data + Remaining(frame, bi', buffer')
  {
    hide Remaining;
    ghost var all := Remaining(frame, bi, buffer);
    var tail := new Byte[CONN_SIZE](i => 0);
    var tailLen: nat := 0;
    bi', buffer', data := bi, buffer, [];
    assert tail[..0] == [];
    assert [] + all == all;
    while |buffer'| + tailLen < need
      invariant bi' < |frame| && tailLen <= need
      invariant tail[..tailLen] + Remaining(frame, bi', buffer') == all
      decreases |frame| - bi'
    {
      if bi' + 1 == |frame| {
        LastBuffer(frame, buffer');
        assert |all| == tailLen + |buffer'|;
        return false, data, bi', buffer';
      }
      NextBuffer(frame, bi', tail[..tailLen], buffer');
      MemCopy(tail, tailLen, buffer');
      tailLen := tailLen + |buffer'|;
      bi' := bi' + 1;
      buffer' := frame[bi'];
    }
    var size := need - tailLen;
    ghost var read := tail[..tailLen];
    TakeBytes(frame, bi', read, buffer', size);
    if tailLen > 0 {
      MemCopy(tail, tailLen, buffer'[..size]);
      data := tail[..need];
    } else {
      data := buffer'[..size];
    }
    assert data == read + buffer'[..size];
    buffer' := buffer'[size..];
    ok := true;
  }

  /** The whole receive path. For every split of a message into buffers, empty ones included, it has the
      effect and the outcome of parsing the concatenated bytes. */
  method Backup<S>(app: Option<AppInfo>, frame: seq<seq<Byte>>, process: Processor<S>, s0: S)
    returns (s: S, outcome: Outcome)
    requires frame != []
    ensures app.None? ==> s == s0 && outcome == LookupFail
    ensures app.Some? && !app.value.backup ==> s == s0 && outcome == BackupDown
    ensures app.Some? && app.value.backup ==>
      (s, outcome) == ParseMessage(Flatten(frame), app.value.syncId, process, s0)
  {
    s := s0;
    if app.None? {
      return s, LookupFail;
    }
    if !app.value.backup {
      return s, BackupDown;
    }
    ghost var bytes := Flatten(frame);
    var bi: nat;
    var ok, data, buffer;
    ok, data, bi, buffer := Gather(frame, 0, frame[0], HEADER_SIZE);
    if !ok {
      return s, BadHeaderSize;
    }
    assert bytes[..HEADER_SIZE] == data && bytes[HEADER_SIZE..] == Remaining(frame, bi, buffer);
    var h := DecodeHeader(data);
    outcome := CheckHeader(h, app.value.syncId);
    if outcome != Done {
      return;
    }
    var ind := 0;
    while ind < h.connCount
      invariant 0 <= ind <= h.connCount && bi < |frame|
      invariant ParseRecords(bytes[HEADER_SIZE..], h.connCount, process, s0)
             == ParseRecords(Remaining(frame, bi, buffer), h.connCount - ind, process, s)
    {
      ghost var rest := Remaining(frame, bi, buffer);
      ok, data, bi, buffer := Gather(frame, bi, buffer, CONN_SIZE);
      if !ok {
        return s, BadBuffer;
      }
      assert rest[..CONN_SIZE] == data && rest[CONN_SIZE..] == Remaining(frame, bi, buffer);
      var (s', rc) := process(s, DecodeConn(data));
      s := s';
      if rc < 0 {
        return s, BadRecord;
      }
      ind := ind + 1;
    }
    outcome := Done;
  }

  /** What the first bytes of a message decide: too short, of another sync id, or of a version other than 1
      or with reserved bytes that are not zero, it has no effect; otherwise its fifth byte is the number of
      records, which begin behind the eighth. */
  lemma FirstBytesDecide<S>(bytes: seq<Byte>, syncId: Byte, process: Processor<S>, s: S)
    ensures ParseMessage(bytes, syncId, process, s) ==
      if |bytes| < 8 then (s, BadHeaderSize)
      else if syncId != 0 && bytes[1] != syncId then (s, NotMySyncId)
      else if bytes[5] != 1 || bytes[0] != 0 || bytes[6] != 0 || bytes[7] != 0 then (s, BadVersion)
      else ParseRecords(bytes[8..], bytes[4], process, s)
  {
    hide ParseRecords;
  }
}
