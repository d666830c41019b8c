/** Sending synchronisation messages: the connections that one aging event finds active are packed into
    frames of a few fixed-size buffers. */
module SyncMaster {
  import opened Common
  import opened SyncWire

  const ETH_SIZE := 14
  const NET_SIZE := 28
  const PROLOGUE_SIZE := ETH_SIZE + NET_SIZE + HEADER_SIZE
  /** Where the sync header starts, with its `reserved` byte. */
  const SYNC_OFFSET := ETH_SIZE + NET_SIZE
  const HEADROOM := 64
  const BUFFERS_LIMIT := 5
  const SYNC_PORT: U16 := 8848
  const SYNC_ADDR: U32 := 0xe0000051

  // ---------------------------------------------------------------- messages

  /** What is fixed for all messages of one master. */
  datatype Config = Config(bufSize: nat, eth: seq<Byte>, sourceIp: U32, syncId: Byte, checksum: nat -> U16) {
    /** The buffer holds the headers, the headroom and one record, and fits an 8-bit length. */
    predicate Valid() {
      && PROLOGUE_SIZE + CONN_SIZE + HEADROOM <= bufSize <= 0x100
      && |eth| == ETH_SIZE
    }
  }

  function SyncSize(n: nat): nat { HEADER_SIZE + n * CONN_SIZE }

  function UdpLen(n: nat): nat { 8 + SyncSize(n) }

  function IpLen(n: nat): nat { 20 + UdpLen(n) }

  /** IPv4 and UDP headers of a message of `n` records. */
  function NetHeader(c: Config, n: nat): (b: seq<Byte>)
    requires IpLen(n) < 0x1_0000
    ensures |b| == NET_SIZE
  {
    [0x45, 0] + Put16(IpLen(n)) + [0, 0, 0x40, 0, 1, 17] + Put16(c.checksum(IpLen(n))) + Put32(c.sourceIp)
    + Put32(SYNC_ADDR) + Put16(SYNC_PORT) + Put16(SYNC_PORT) + Put16(UdpLen(n)) + [0, 0]
  }

  function Header(c: Config, reserved: Byte, n: nat): SyncHeader
    requires n < 0x100
  {
    SyncHeader(reserved, c.syncId, SyncSize(n), n, 1, 0)
  }

  /** All headers of a message of `n` records. */
  function Prologue(c: Config, reserved: Byte, n: nat): (b: seq<Byte>)
    requires c.Valid() && n < 0x100
    ensures |b| == PROLOGUE_SIZE
  {
    c.eth + NetHeader(c, n) + EncodeHeader(Header(c, reserved, n))
  }

  function EncodeAll(rs: seq<SyncConn>): (b: seq<Byte>)
    ensures |b| == |rs| * CONN_SIZE
  {
    if rs == [] then [] else EncodeConn(rs[0]) + EncodeAll(rs[1..])
  }

  lemma {:induction false} EncodeAllAppend(rs: seq<SyncConn>, r: SyncConn)
    ensures EncodeAll(rs + [r]) == EncodeAll(rs) + EncodeConn(r)
  {
    if rs == [] {
      assert rs + [r] == [r] && [r][1..] == [];
    } else {
      assert (rs + [r])[1..] == rs[1..] + [r];
      EncodeAllAppend(rs[1..], r);
    }
  }

  /** The bytes of a message whose headers say `n` records and which carries `rs`. */
  function Message(c: Config, reserved: Byte, n: nat, rs: seq<SyncConn>): seq<Byte>
    requires c.Valid() && n < 0x100
  {
    Prologue(c, reserved, n) + EncodeAll(rs)
  }

  /** A frame the master may send for the records `rs`. */
  ghost predicate GoodFrame(c: Config, reserved: Byte, frame: seq<seq<Byte>>, rs: seq<SyncConn>) {
    && c.Valid()
    && 0 < |rs| < 0x100
    && 0 < |frame| <= BUFFERS_LIMIT
    && BuffersFit(c, frame)
    && Flatten(frame) == Message(c, reserved, |rs|, rs)
  }

  /** No buffer is overfull; the first one leaves the headroom and holds all headers. */
  ghost predicate BuffersFit(c: Config, frame: seq<seq<Byte>>) {
    && (forall k :: 0 <= k < |frame| ==> |frame[k]| <= c.bufSize)
    && (frame != [] ==> PROLOGUE_SIZE <= |frame[0]| <= c.bufSize - HEADROOM)
  }

  /** The length fields of a message: IPv4 total length, UDP length, sync size and record count, each
      read at its place in the frame, say what is really there. */
  lemma LengthsMatch(c: Config, reserved: Byte, frame: seq<seq<Byte>>, rs: seq<SyncConn>)
    requires GoodFrame(c, reserved, frame, rs)
    ensures var b := Flatten(frame);
      && |b| == PROLOGUE_SIZE + |rs| * CONN_SIZE
      && Get16(b, ETH_SIZE + 2) == |b| - ETH_SIZE
      && Get16(b, ETH_SIZE + 24) == |b| - ETH_SIZE - 20
      && Get16(b, SYNC_OFFSET + 2) == |b| - SYNC_OFFSET
      && b[SYNC_OFFSET + 4] == |rs|
  {
    hide EncodeAll;
    var b, n, h := Flatten(frame), NetHeader(c, |rs|), EncodeHeader(Header(c, reserved, |rs|));
    assert forall j :: 0 <= j < NET_SIZE ==> b[ETH_SIZE + j] == n[j];
    assert forall j :: 0 <= j < HEADER_SIZE ==> b[SYNC_OFFSET + j] == h[j];
    assert n[2..4] == Put16(IpLen(|rs|)) && n[24..26] == Put16(UdpLen(|rs|)) && h[2..4] == Put16(SyncSize(|rs|));
    assert b[ETH_SIZE + 2] == n[2] && b[ETH_SIZE + 3] == n[3] && b[ETH_SIZE + 24] == n[24] && b[ETH_SIZE + 25] == n[25];
    assert b[SYNC_OFFSET + 2] == h[2] && b[SYNC_OFFSET + 3] == h[3] && b[SYNC_OFFSET + 4] == h[4];
  }

  /** What else a frame says, each field read at its place: IPv4 without options, never fragmented, one hop,
      UDP, from the master to group 224.0.0.81, port 8848 on both sides; the sync id, version 1 and a zero
      spare field around the byte that is not written. */
  lemma FieldsMatch(c: Config, reserved: Byte, frame: seq<seq<Byte>>, rs: seq<SyncConn>)
    requires GoodFrame(c, reserved, frame, rs)
    ensures |Flatten(frame)| >= 50
    ensures var b := Flatten(frame);
      && b[..14] == c.eth
      && b[14] == 0x45 && b[20] == 0x40 && b[21] == 0 && b[22] == 1 && b[23] == 17
      && Spells(b[26..30]) == c.sourceIp && b[30..34] == [224, 0, 0, 81]
      && Spells(b[34..36]) == 8848 && Spells(b[36..38]) == 8848
      && b[42] == reserved && b[43] == c.syncId && b[47] == 1 && b[48..50] == [0, 0]
    ensures 1 <= |frame| <= 5 && |frame[0]| <= c.bufSize - 64 && forall k :: 0 <= k < |frame| ==> |frame[k]| <= c.bufSize
  {
    hide EncodeAll, Spells, Flatten;
    var n, h := NetHeader(c, |rs|), EncodeHeader(Header(c, reserved, |rs|));
    NetFields(c, |rs|);
    assert Flatten(frame) == c.eth + n + h + EncodeAll(rs);
    FieldsIn(c.eth, n, h, EncodeAll(rs));
    assert h[0] == reserved && h[1] == c.syncId && h[5] == 1 && h[6..8] == [0, 0];
  }

  lemma FieldsIn(e: seq<Byte>, n: seq<Byte>, h: seq<Byte>, x: seq<Byte>)
    requires |e| == 14 && |n| == 28 && |h| == 8
    ensures var b := e + n + h + x;
      && b[..14] == e && b[14] == n[0] && b[20..24] == n[6..10] && b[26..30] == n[12..16] && b[30..34] == n[16..20]
      && b[34..36] == n[20..22] && b[36..38] == n[22..24]
      && b[42] == h[0] && b[43] == h[1] && b[47] == h[5] && b[48..50] == h[6..8]
      && b[20] == n[6] && b[21] == n[7] && b[22] == n[8] && b[23] == n[9]
  {
  }

  lemma NetFields(c: Config, n: nat)
    requires IpLen(n) < 0x1_0000
    ensures var b := NetHeader(c, n);
      && b[0] == 0x45 && b[6] == 0x40 && b[7] == 0 && b[8] == 1 && b[9] == 17
      && Spells(b[12..16]) == c.sourceIp && b[16..20] == [224, 0, 0, 81]
      && Spells(b[20..22]) == 8848 && Spells(b[22..24]) == 8848
  {
    hide Spells;
    var b := NetHeader(c, n);
    Spells32(c.sourceIp);
    Spells16(8848);
    assert b[12..16] == Put32(c.sourceIp) && b[16..20] == Put32(0xe0000051);
    assert b[20..22] == Put16(8848) && b[22..24] == Put16(8848);
  }

  // ---------------------------------------------------------------- patching headers

  function Patch(b: seq<Byte>, offset: nat, x: seq<Byte>): (r: seq<Byte>)
    requires offset + |x| <= |b|
    ensures |r| == |b|
    ensures forall i :: 0 <= i < |b| ==> r[i] == if offset <= i < offset + |x| then x[i - offset] else b[i]
  {
    b[..offset] + x + b[offset + |x|..]
  }

  /** Rewrites the five length fields of a message in place. */
  function PatchLengths(c: Config, b: seq<Byte>, n: nat): (r: seq<Byte>)
    requires |b| >= PROLOGUE_SIZE && n < 0x100
    ensures |r| == |b|
    ensures forall i :: 0 <= i < |b| ==> r[i] == PatchedByte(c, n, i, b[i])
  {
    var b1 := Patch(b, ETH_SIZE + 24, Put16(UdpLen(n)));
    var b2 := Patch(b1, ETH_SIZE + 2, Put16(IpLen(n)));
    var b3 := Patch(b2, ETH_SIZE + 10, Put16(c.checksum(IpLen(n))));
    var b4 := Patch(b3, SYNC_OFFSET + 2, Put16(SyncSize(n)));
    Patch(b4, SYNC_OFFSET + 4, [n])
  }

  function PatchedByte(c: Config, n: nat, i: nat, other: Byte): Byte
    requires n < 0x100
  {
    if ETH_SIZE <= i < SYNC_OFFSET then NetField(c, n, i - ETH_SIZE, other)
    else if SYNC_OFFSET <= i < PROLOGUE_SIZE then SyncField(n, i - SYNC_OFFSET, other)
    else other
  }

  /** Byte `j` of the network headers for `n` records, given that byte for another number. */
  function NetField(c: Config, n: nat, j: nat, other: Byte): Byte
    requires n < 0x100
  {
    if j == 2 || j == 3 then Put16(IpLen(n))[j - 2]
    else if j == 10 || j == 11 then Put16(c.checksum(IpLen(n)))[j - 10]
    else if j == 24 || j == 25 then Put16(UdpLen(n))[j - 24]
    else other
  }

  /** Byte `j` of the sync header for `n` records, given that byte for another number. */
  function SyncField(n: nat, j: nat, other: Byte): Byte
    requires n < 0x100
  {
    if j == 2 || j == 3 then Put16(SyncSize(n))[j - 2] else if j == 4 then n else other
  }

  lemma NetDiffers(c: Config, n: nat, j: nat)
    requires n < 0x100 && j < NET_SIZE
    ensures NetHeader(c, n)[j] == NetField(c, n, j, NetHeader(c, 1)[j])
  {
    hide Put16, Put32;
  }

  lemma SyncDiffers(c: Config, reserved: Byte, n: nat, j: nat)
    requires n < 0x100 && j < HEADER_SIZE
    ensures EncodeHeader(Header(c, reserved, n))[j] == SyncField(n, j, EncodeHeader(Header(c, reserved, 1))[j])
  {
    hide Put16;
  }

  /** The patched headers are the headers of a message of that many records; nothing else moves. */
  lemma PatchedPrologue(c: Config, reserved: Byte, n: nat, rest: seq<Byte>)
    requires c.Valid() && n < 0x100
    ensures PatchLengths(c, Prologue(c, reserved, 1) + rest, n) == Prologue(c, reserved, n) + rest
  {
    hide NetHeader, EncodeHeader, PatchLengths, NetField, SyncField;
    var b, b' := Prologue(c, reserved, 1) + rest, Prologue(c, reserved, n) + rest;
    forall i | 0 <= i < |b| ensures PatchLengths(c, b, n)[i] == b'[i] {
      if ETH_SIZE <= i < SYNC_OFFSET {
        NetDiffers(c, n, i - ETH_SIZE);
      } else if SYNC_OFFSET <= i < PROLOGUE_SIZE {
        SyncDiffers(c, reserved, n, i - SYNC_OFFSET);
      }
    }
  }

  // ---------------------------------------------------------------- the aggregator

  /** The buffer being filled: how many bytes of it are used, and its length as the code counts it,
      which includes the headroom in a frame's first buffer. */
  ghost predicate BufferState(c: Config, amount: nat, base: nat, len: nat, inBuf: nat) {
    && 1 <= amount <= BUFFERS_LIMIT
    && base == inBuf * CONN_SIZE + (if amount == 1 then PROLOGUE_SIZE else 0)
    && len == base + (if amount == 1 then HEADROOM else 0)
    && len <= c.bufSize
    && (amount == 1 ==> inBuf > 0)
  }

  /** The 8-bit length and record counters never wrap. */
  lemma CountersFit(c: Config, amount: nat, base: nat, len: nat, inBuf: nat, count: nat)
    requires c.Valid() && BufferState(c, amount, base, len, inBuf)
    requires count <= 7 * (amount - 1) + inBuf
    ensures inBuf <= 7 && len < 0x100 && count <= 35
  {
  }

  /** How many records fit a buffer, the first one of a frame or another. */
  function PerBuffer(c: Config, first: bool): nat
    requires c.Valid()
  {
    (c.bufSize - if first then 114 else 0) / 36
  }

  /** How many records a frame of five buffers holds. */
  function Capacity(c: Config): nat
    requires c.Valid()
  {
    PerBuffer(c, true) + 4 * PerBuffer(c, false)
  }

  /** How many records the buffers before number `amount` hold if they are full. */
  function HeldBefore(c: Config, amount: nat): nat
    requires c.Valid()
  {
    if amount <= 1 then 0 else PerBuffer(c, true) + (amount - 2) * PerBuffer(c, false)
  }

  /** A buffer with no room for another record is full. */
  lemma FullBuffer(c: Config, amount: nat, base: nat, len: nat, inBuf: nat)
    requires c.Valid() && BufferState(c, amount, base, len, inBuf) && len + CONN_SIZE > c.bufSize
    ensures inBuf == PerBuffer(c, amount == 1)
    ensures HeldBefore(c, amount) + inBuf == HeldBefore(c, amount + 1)
    ensures amount == BUFFERS_LIMIT ==> HeldBefore(c, amount) + inBuf == Capacity(c)
  {
  }

  ghost predicate AllFull(c: Config, groups: seq<seq<SyncConn>>)
    requires c.Valid()
  {
    forall k :: 0 <= k < |groups| ==> |groups[k]| == Capacity(c)
  }

  class SyncMaster {
    const c: Config
    const frameData: array<Byte>
    var amountBuffers: nat
    var currentBase: nat
    var currentLen: nat
    var connCount: nat
    /** The buffers of the frame under construction, without the one being filled. */
    var frame: seq<seq<Byte>>
    var sent: seq<seq<seq<Byte>>>

    /** What `frameData` held, at the start of the event, where headers keep their `reserved` byte. */
    ghost var reserved: Byte
    ghost var inBuf: nat
    ghost var pending: seq<SyncConn>
    ghost var groups: seq<seq<SyncConn>>

    /** All records taken so far, sent or not. */
    ghost function Taken(): seq<SyncConn>
      reads this
    {
      Flatten(groups) + pending
    }

    ghost predicate Sound()
      reads this, frameData
    {
      && c.Valid()
      && frameData.Length == c.bufSize
      && |groups| == |sent|
      && (forall k :: 0 <= k < |sent| ==> GoodFrame(c, reserved, sent[k], groups[k]))
    }

    /** No frame is under construction. */
    ghost predicate Idle()
      reads this, frameData
    {
      && Sound()
      && pending == []
      && frameData[SYNC_OFFSET] == reserved
    }

    ghost predicate Filling()
      reads this, frameData
    {
      && Sound()
      && BufferState(c, amountBuffers, currentBase, currentLen, inBuf)
      && |frame| == amountBuffers - 1
      && BuffersFit(c, frame)
      && amountBuffers - 1 + inBuf <= connCount == |pending| <= 7 * (amountBuffers - 1) + inBuf
      && connCount > 0
      && connCount == HeldBefore(c, amountBuffers) + inBuf
      && Flatten(frame) + frameData[..currentBase] == Message(c, reserved, 1, pending)
    }

    ghost predicate Valid()
      reads this, frameData
    {
      && (if amountBuffers == 0 then Idle() else Filling() && inBuf > 0)
      && AllFull(c, groups)
    }

    constructor (c: Config, data: array<Byte>)
      requires c.Valid() && data.Length == c.bufSize
      ensures this.c == c && frameData == data
    {
      this.c, frameData := c, data;
      sent, groups, pending, frame := [], [], [], [];
    }

    /** Start of an aging event. */
    method Begin()
      requires c.Valid() && frameData.Length == c.bufSize
      modifies this
      ensures Valid() && Taken() == [] && sent == [] && reserved == frameData[SYNC_OFFSET]
    {
      hide GoodFrame, Message, BuffersFit, BufferState;
      connCount, amountBuffers, currentLen, currentBase := 0, 0, 0, 0;
      sent, groups, pending, reserved := [], [], [], frameData[SYNC_OFFSET];
    }

    method Write(offset: nat, x: seq<Byte>)
      requires offset + |x| <= frameData.Length
      modifies frameData
      ensures frameData[..] == Patch(old(frameData[..]), offset, x)
    {
      forall k | 0 <= k < |x| {
        frameData[offset + k] := x[k];
      }
    }

    /** Starts a frame with all headers and one record. The headers' `reserved` byte is not written. */
    method First(r: SyncConn)
      requires Idle()
      modifies this, frameData
      ensures Filling() && reserved == old(reserved) && groups == old(groups) && sent == old(sent)
      ensures pending == [r] && amountBuffers == inBuf == 1
    {
      hide GoodFrame, NetHeader, EncodeConn, EncodeHeader, Header, Message, Patch, Flatten, Put16;
      amountBuffers, connCount, frame := 1, 1, [];
      ghost var d := frameData[..];
      currentBase := PROLOGUE_SIZE + CONN_SIZE;
      currentLen := PROLOGUE_SIZE + CONN_SIZE;
      Write(0, c.eth);
      Write(ETH_SIZE, NetHeader(c, 1));
      Write(SYNC_OFFSET + 1, EncodeHeader(Header(c, 0, 1))[1..]);
      Write(PROLOGUE_SIZE, EncodeConn(r));
      currentLen := currentLen + HEADROOM;
      pending, inBuf := [r], 1;
      FirstBytes(c, reserved, d, r);
      SingleBuffer(frameData[..currentBase]);
    }

    /** Closes the buffer being filled. */
    method AddBuffer()
      requires Filling() && inBuf > 0
      modifies this
      ensures frame == old(frame) + [frameData[..old(currentBase)]] && amountBuffers == old(amountBuffers) + 1
      ensures currentBase == 0 && currentLen == 0 && inBuf == 0 && connCount == old(connCount)
      ensures reserved == old(reserved) && groups == old(groups) && sent == old(sent) && pending == old(pending)
      ensures BuffersFit(c, frame) && Flatten(frame) == Message(c, reserved, 1, pending)
    {
      hide GoodFrame, Message;
      var used := if amountBuffers == 1 then currentLen - HEADROOM else currentLen;
      FlattenSplit(frame, [frameData[..used]]);
      assert [frameData[..used]][1..] == [];
      frame := frame + [frameData[..used]];
      amountBuffers := amountBuffers + 1;
      currentBase, currentLen, inBuf := 0, 0, 0;
    }

    /** Corrects the length fields of the headers in `frameData`. */
    method UpdateLengths(n: nat)
      requires c.Valid() && frameData.Length == c.bufSize && n < 0x100
      modifies frameData
      ensures frameData[..] == PatchLengths(c, old(frameData[..]), n)
    {
      hide Patch, Put16;
      Write(ETH_SIZE + 24, Put16(UdpLen(n)));
      Write(ETH_SIZE + 2, Put16(IpLen(n)));
      Write(ETH_SIZE + 10, Put16(c.checksum(IpLen(n))));
      Write(SYNC_OFFSET + 2, Put16(SyncSize(n)));
      Write(SYNC_OFFSET + 4, [n]);
    }

    /** Loads the first buffer back, corrects its headers and stores it. */
    method CorrectHeaders(n: nat, ghost res: Byte, ghost rs: seq<SyncConn>)
      requires c.Valid() && frameData.Length == c.bufSize && n < 0x100
      requires frame != [] && BuffersFit(c, frame) && Flatten(frame) == Message(c, res, 1, rs)
      modifies this`frame, frameData
      ensures frame == [Prologue(c, res, n) + old(frame)[0][PROLOGUE_SIZE..]] + old(frame)[1..]
      ensures frameData[SYNC_OFFSET] == res
    {
      hide Message, Flatten, PatchLengths, Prologue;
      FirstBuffer(c, res, frame, rs);
      var f := frame[0];
      Write(0, f);
      ghost var x := frameData[|f|..];
      assert frameData[..] == Prologue(c, res, 1) + (f[PROLOGUE_SIZE..] + x);
      PatchedPrologue(c, res, n, f[PROLOGUE_SIZE..] + x);
      ReservedByte(c, res, n);
      UpdateLengths(n);
      frame := [frameData[..|f|]] + frame[1..];
      assert frame[0] == Prologue(c, res, n) + f[PROLOGUE_SIZE..];
      assert frameData[SYNC_OFFSET] == frameData[..][SYNC_OFFSET];
    }

    /** Completes the frame, corrects its headers and sends it. */
    method SendAggr()
      requires Filling() && inBuf > 0
      modifies this, frameData
      ensures Idle() && reserved == old(reserved) && Taken() == old(Taken())
      ensures groups == old(groups) + [old(pending)]
    {
      hide GoodFrame, Message, Flatten, Prologue, BuffersFit, HeldBefore;
      ghost var f := frame + [frameData[..currentBase]];
      CountersFit(c, amountBuffers, currentBase, currentLen, inBuf, connCount);
      AddBuffer();
      FirstBuffer(c, reserved, frame, pending);
      SentFrame(c, reserved, f, pending);
      if connCount > 1 {
        CorrectHeaders(connCount, reserved, pending);
      } else {
        assert f == [Prologue(c, reserved, 1) + f[0][PROLOGUE_SIZE..]] + f[1..];
        assert frameData[SYNC_OFFSET] == f[0][SYNC_OFFSET];
      }
      GroupsAppend(groups, pending);
      sent, groups, pending := sent + [frame], groups + [pending], [];
    }

    /** Sends a frame of its own for a connection that has changed state. */
    method SendSingle(r: SyncConn)
      requires Idle()
      modifies this, frameData
      ensures Idle() && reserved == old(reserved) && Taken() == old(Taken()) + [r]
      ensures |sent| == |old(sent)| + 1 && sent[..|old(sent)|] == old(sent)
      ensures GoodFrame(c, reserved, sent[|old(sent)|], [r])
    {
      hide GoodFrame, Message, Flatten, Prologue;
      First(r);
      frame := [frameData[..currentBase]];
      SingleBuffer(frame[0]);
      FirstBuffer(c, reserved, frame, pending);
      SentFrame(c, reserved, frame, pending);
      assert frame == [Prologue(c, reserved, 1) + frame[0][PROLOGUE_SIZE..]] + frame[1..];
      assert frameData[SYNC_OFFSET] == frame[0][SYNC_OFFSET];
      GroupsAppend(groups, pending);
      sent, groups, pending := sent + [frame], groups + [pending], [];
    }

    /** Takes one record: into the buffer, into a new buffer of the frame, or into a new frame. */
    method Aggr(r: SyncConn)
      requires Valid()
      modifies this, frameData
      ensures Valid() && amountBuffers > 0
      ensures reserved == old(reserved) && Taken() == old(Taken()) + [r]
      // the 4-bit and 8-bit counters of the state do not wrap
      ensures amountBuffers < 0x10 && currentLen < 0x100 && connCount < 0x100
    {
      hide GoodFrame, Message, Flatten, BuffersFit, EncodeConn, Patch, PerBuffer;
      if amountBuffers == 0 {
        First(r);
        CountersFit(c, amountBuffers, currentBase, currentLen, inBuf, connCount);
        return;
      }
      if currentLen + CONN_SIZE > c.bufSize {
        FullBuffer(c, amountBuffers, currentBase, currentLen, inBuf);
        if amountBuffers == BUFFERS_LIMIT {
          SendAggr();
          First(r);
          CountersFit(c, amountBuffers, currentBase, currentLen, inBuf, connCount);
          return;
        }
        AddBuffer();
      }
      AddRecord(r);
      CountersFit(c, amountBuffers, currentBase, currentLen, inBuf, connCount);
    }

    /** Appends a record to the buffer being filled, which has room for it. */
    method AddRecord(r: SyncConn)
      requires Filling() && currentLen + CONN_SIZE <= c.bufSize
      modifies this, frameData
      ensures Filling() && inBuf > 0
      ensures reserved == old(reserved) && groups == old(groups) && pending == old(pending) + [r]
    {
      hide GoodFrame, Flatten, BuffersFit, EncodeConn, Message, HeldBefore;
      ghost var y := frameData[..currentBase];
      Write(currentBase, EncodeConn(r));
      currentBase, currentLen := currentBase + CONN_SIZE, currentLen + CONN_SIZE;
      connCount := connCount + 1;
      assert frameData[..currentBase] == y + EncodeConn(r);
      MessageAppend(c, reserved, Flatten(frame), y, pending, r);
      pending, inBuf := pending + [r], inBuf + 1;
    }

    /** End of an aging event: sends what is left. */
    method End()
      requires Valid()
      modifies this, frameData
      ensures Idle() && reserved == old(reserved) && Taken() == old(Taken())
      ensures forall k :: 0 <= k < |groups| - 1 ==> |groups[k]| == Capacity(c)
    {
      hide GoodFrame, Message, Flatten, Prologue, BuffersFit, Capacity;
      if amountBuffers > 0 {
        SendAggr();
      }
    }
  }

  lemma MessageAppend(c: Config, reserved: Byte, x: seq<Byte>, y: seq<Byte>, rs: seq<SyncConn>, r: SyncConn)
    requires c.Valid() && x + y == Message(c, reserved, 1, rs)
    ensures x + (y + EncodeConn(r)) == Message(c, reserved, 1, rs + [r])
  {
    hide Prologue, EncodeConn, EncodeAll;
    EncodeAllAppend(rs, r);
    var p, e, z := Prologue(c, reserved, 1), EncodeAll(rs), EncodeConn(r);
    assert x + (y + z) == (x + y) + z;
    assert (p + e) + z == p + (e + z);
  }

  lemma GroupsAppend(groups: seq<seq<SyncConn>>, g: seq<SyncConn>)
    ensures Flatten(groups + [g]) == Flatten(groups) + g
  {
    FlattenSplit(groups, [g]);
    assert [g][1..] == [];
  }

  lemma ReservedByte(c: Config, reserved: Byte, n: nat)
    requires c.Valid() && n < 0x100
    ensures Prologue(c, reserved, n)[SYNC_OFFSET] == reserved
  {
    assert Prologue(c, reserved, n)[SYNC_OFFSET] == EncodeHeader(Header(c, reserved, n))[0];
  }

  /** With its headers corrected the frame is a good frame for all its records. */
  lemma SentFrame(c: Config, reserved: Byte, frame: seq<seq<Byte>>, rs: seq<SyncConn>)
    requires c.Valid() && 0 < |frame| <= BUFFERS_LIMIT && BuffersFit(c, frame) && 0 < |rs| < 0x100
    requires Flatten(frame) == Message(c, reserved, 1, rs)
    ensures GoodFrame(c, reserved, [Prologue(c, reserved, |rs|) + frame[0][PROLOGUE_SIZE..]] + frame[1..], rs)
  {
    hide Prologue, EncodeAll, Flatten, BuffersFit;
    FitsAgain(c, frame, Prologue(c, reserved, |rs|));
    var f, x := frame[0], frame[0][PROLOGUE_SIZE..];
    var p, p' := Prologue(c, reserved, 1), Prologue(c, reserved, |rs|);
    FirstBuffer(c, reserved, frame, rs);
    FlattenHead(f, frame[1..]);
    assert [f] + frame[1..] == frame;
    SamePrefix(p, x + Flatten(frame[1..]), EncodeAll(rs)) by {
      assert p + (x + Flatten(frame[1..])) == (p + x) + Flatten(frame[1..]);
    }
    FlattenHead(p' + x, frame[1..]);
    assert (p' + x) + Flatten(frame[1..]) == p' + (x + Flatten(frame[1..]));
  }

  lemma FitsAgain(c: Config, frame: seq<seq<Byte>>, p: seq<Byte>)
    requires frame != [] && BuffersFit(c, frame) && |p| == PROLOGUE_SIZE
    ensures |frame[0]| >= PROLOGUE_SIZE
    ensures BuffersFit(c, [p + frame[0][PROLOGUE_SIZE..]] + frame[1..])
  {
  }

  lemma FlattenHead(f: seq<Byte>, rest: seq<seq<Byte>>)
    ensures Flatten([f] + rest) == f + Flatten(rest)
  {
    assert ([f] + rest)[1..] == rest;
  }

  lemma SamePrefix(p: seq<Byte>, x: seq<Byte>, y: seq<Byte>)
    requires p + x == p + y
    ensures x == y
  {
    assert x == (p + x)[|p|..] && y == (p + y)[|p|..];
  }

  lemma SingleBuffer(x: seq<Byte>)
    ensures Flatten([x]) == x && Flatten([]) + x == x
  {
    assert [x][1..] == [];
  }

  /** The first buffer of a frame holds all the headers. */
  lemma FirstBuffer(c: Config, reserved: Byte, frame: seq<seq<Byte>>, rs: seq<SyncConn>)
    requires c.Valid() && frame != [] && BuffersFit(c, frame)
    requires Flatten(frame) == Message(c, reserved, 1, rs)
    ensures frame[0] == Prologue(c, reserved, 1) + frame[0][PROLOGUE_SIZE..]
    ensures frame[0][SYNC_OFFSET] == reserved
  {
    var b := Flatten(frame);
    assert b == frame[0] + Flatten(frame[1..]);
    assert b[..PROLOGUE_SIZE] == Prologue(c, reserved, 1);
    assert b[..PROLOGUE_SIZE] == frame[0][..PROLOGUE_SIZE];
    assert b[SYNC_OFFSET] == EncodeHeader(Header(c, reserved, 1))[0];
  }

  /** The four writes of a first buffer make a message of one record around the old `reserved` byte. */
  lemma FirstBytes(c: Config, reserved: Byte, d: seq<Byte>, r: SyncConn)
    requires c.Valid() && |d| == c.bufSize && d[SYNC_OFFSET] == reserved
    ensures var d1 := Patch(d, 0, c.eth);
      var d2 := Patch(d1, ETH_SIZE, NetHeader(c, 1));
      var d3 := Patch(d2, SYNC_OFFSET + 1, EncodeHeader(Header(c, 0, 1))[1..]);
      var d4 := Patch(d3, PROLOGUE_SIZE, EncodeConn(r));
      d4[..PROLOGUE_SIZE + CONN_SIZE] == Message(c, reserved, 1, [r])
  {
    hide NetHeader, EncodeConn, Patch;
    var d1 := Patch(d, 0, c.eth);
    var d2 := Patch(d1, ETH_SIZE, NetHeader(c, 1));
    var d3 := Patch(d2, SYNC_OFFSET + 1, EncodeHeader(Header(c, 0, 1))[1..]);
    var d4 := Patch(d3, PROLOGUE_SIZE, EncodeConn(r));
    EncodeAllAppend([], r);
    assert [] + [r] == [r];
    assert EncodeAll([r]) == EncodeConn(r);
    assert EncodeHeader(Header(c, reserved, 1)) == [reserved] + EncodeHeader(Header(c, 0, 1))[1..];
  }

  /** One aging event that finds the connections `rs` active: the records of the frames sent are `rs`,
      in order, every frame is well-formed and carries the same `reserved` byte, and no frame is sent early. */
  method SendEvent(c: Config, data: array<Byte>, rs: seq<SyncConn>)
    returns (sent: seq<seq<seq<Byte>>>, ghost groups: seq<seq<SyncConn>>)
    requires c.Valid() && data.Length == c.bufSize
    modifies data
    ensures |sent| == |groups| && Flatten(groups) == rs
    ensures forall k :: 0 <= k < |sent| ==> GoodFrame(c, old(data[SYNC_OFFSET]), sent[k], groups[k])
    // every frame but the last is full
    ensures forall k :: 0 <= k < |sent| - 1 ==> |groups[k]| == (c.bufSize - 114) / 36 + 4 * (c.bufSize / 36)
  {
    hide GoodFrame, Flatten, Message, BuffersFit, BufferState;
    var master := new SyncMaster(c, data);
    ghost var reserved := data[SYNC_OFFSET];
    master.Begin();
    for i := 0 to |rs|
      invariant master.Valid() && master.Taken() == rs[..i] && master.reserved == reserved
      invariant fresh(master) && master.frameData == data && master.c == c
    {
      master.Aggr(rs[i]);
    }
    master.End();
    assert rs[..|rs|] == rs;
    sent, groups := master.sent, master.groups;
  }
}
