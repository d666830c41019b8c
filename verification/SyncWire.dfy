/** The wire format of connection synchronisation messages, in network byte order. */
module SyncWire {
  import opened Common

  const HEADER_SIZE := 8
  const CONN_SIZE := 36

  type U16 = x: int | 0 <= x < 0x1_0000
  type U32 = x: int | 0 <= x < 0x1_0000_0000
  type U12 = x: int | 0 <= x < 0x1000
  type U4 = x: int | 0 <= x < 0x10

  datatype SyncHeader = SyncHeader(reserved: Byte, syncId: Byte, size: U16, connCount: Byte, version: Byte, spare: U16)

  datatype SyncConn = SyncConn(
    kind: Byte, protocol: Byte, version: U4, size: U12, flags: U32, state: U16,
    clientPort: U16, virtualPort: U16, serverPort: U16, fwmark: U32, timeout: U32,
    clientAddr: U32, virtualAddr: U32, serverAddr: U32)

  function Put16(x: U16): (b: seq<Byte>)
    ensures |b| == 2
  {
    [x / 0x100, x % 0x100]
  }

  function Put32(x: U32): (b: seq<Byte>)
    ensures |b| == 4
  {
    Put16(x / 0x1_0000) + Put16(x % 0x1_0000)
  }

  function Get16(b: seq<Byte>, i: nat): U16
    requires i + 2 <= |b|
  {
    var hi: int := b[i];
    hi * 0x100 + b[i + 1]
  }

  function Get32(b: seq<Byte>, i: nat): U32
    requires i + 4 <= |b|
  {
    var hi: int := Get16(b, i);
    hi * 0x1_0000 + Get16(b, i + 2)
  }

  function EncodeHeader(h: SyncHeader): (b: seq<Byte>)
    ensures |b| == HEADER_SIZE
  {
    [h.reserved, h.syncId] + Put16(h.size) + [h.connCount, h.version] + Put16(h.spare)
  }

  function DecodeHeader(b: seq<Byte>): SyncHeader
    requires |b| == HEADER_SIZE
  {
    SyncHeader(b[0], b[1], Get16(b, 2), b[4], b[5], Get16(b, 6))
  }

  function EncodeConn(c: SyncConn): (b: seq<Byte>)
    ensures |b| == CONN_SIZE
  {
    [c.kind, c.protocol] + Put16(c.version * 0x1000 + c.size) + Put32(c.flags) + Put16(c.state)
    + Put16(c.clientPort) + Put16(c.virtualPort) + Put16(c.serverPort) + Put32(c.fwmark) + Put32(c.timeout)
    + Put32(c.clientAddr) + Put32(c.virtualAddr) + Put32(c.serverAddr)
  }

  function DecodeConn(b: seq<Byte>): SyncConn
    requires |b| == CONN_SIZE
  {
    SyncConn(b[0], b[1], Get16(b, 2) / 0x1000, Get16(b, 2) % 0x1000, Get32(b, 4), Get16(b, 8),
             Get16(b, 10), Get16(b, 12), Get16(b, 14), Get32(b, 16), Get32(b, 20),
             Get32(b, 24), Get32(b, 28), Get32(b, 32))
  }

  lemma HeaderRoundTrip(h: SyncHeader)
    ensures DecodeHeader(EncodeHeader(h)) == h
  {
  }

  /** What is encoded is what is decoded: no field is lost, moved or truncated. */
  lemma ConnRoundTrip(c: SyncConn)
    ensures DecodeConn(EncodeConn(c)) == c
  {
    var b := EncodeConn(c);
    assert Get16(b, 2) == c.version * 0x1000 + c.size;
    assert Get32(b, 4) == c.flags;
    assert Get16(b, 8) == c.state;
    assert Get16(b, 10) == c.clientPort && Get16(b, 12) == c.virtualPort && Get16(b, 14) == c.serverPort;
    assert Get32(b, 16) == c.fwmark && Get32(b, 20) == c.timeout;
    assert Get32(b, 24) == c.clientAddr && Get32(b, 28) == c.virtualAddr && Get32(b, 32) == c.serverAddr;
  }

  /** Every 36 bytes are the encoding of the record they decode to. */
  lemma ConnRoundTripBack(b: seq<Byte>)
    requires |b| == CONN_SIZE
    ensures EncodeConn(DecodeConn(b)) == b
  {
    hide Get16, Get32, Put16, Put32;
    var c := DecodeConn(b);
    Put16Get16(b, 2);
    assert c.version * 0x1000 + c.size == Get16(b, 2);
    Put32Get32(b, 4);
    Put16Get16(b, 8);
    Put16Get16(b, 10);
    Put16Get16(b, 12);
    Put16Get16(b, 14);
    Put32Get32(b, 16);
    Put32Get32(b, 20);
    Put32Get32(b, 24);
    Put32Get32(b, 28);
    Put32Get32(b, 32);
    assert b == [b[0], b[1]] + b[2..4] + b[4..8] + b[8..10] + b[10..12] + b[12..14] + b[14..16]
      + b[16..20] + b[20..24] + b[24..28] + b[28..32] + b[32..36];
  }

  lemma Put16Get16(b: seq<Byte>, i: nat)
    requires i + 2 <= |b|
    ensures Put16(Get16(b, i)) == b[i..i + 2]
  {
  }

  lemma Put32Get32(b: seq<Byte>, i: nat)
    requires i + 4 <= |b|
    ensures Put32(Get32(b, i)) == b[i..i + 4]
  {
    Put16Get16(b, i);
    Put16Get16(b, i + 2);
    assert b[i..i + 4] == b[i..i + 2] + b[i + 2..i + 4];
  }

  /** The number that bytes spell, most significant first. */
  function Spells(b: seq<Byte>): nat {
    if b == [] then 0 else 0x100 * Spells(b[..|b| - 1]) + b[|b| - 1]
  }

  lemma Spells16(x: U16)
    ensures Spells(Put16(x)) == x
  {
    var b := Put16(x);
    assert b[..1] == [b[0]] && [b[0]][..0] == [];
    assert Spells([b[0]]) == b[0];
  }

  lemma Spells32(x: U32)
    ensures Spells(Put32(x)) == x
  {
    var b := Put32(x);
    assert b[..3][..2] == b[..2] && b[..2] == Put16(x / 0x1_0000);
    Spells16(x / 0x1_0000);
    assert b[2] == x % 0x1_0000 / 0x100 && b[3] == x % 0x100;
    var hi: nat, lo: nat := x / 0x1_0000, x % 0x1_0000;
    assert Spells(b[..3]) == 0x100 * hi + lo / 0x100;
    assert lo % 0x100 == x % 0x100;
  }

  /** Where each field of a record stands. */
  lemma ConnLayout(c: SyncConn)
    ensures var b := EncodeConn(c);
      && |b| == 36 && b[0] == c.kind && b[1] == c.protocol
      && Spells(b[2..4]) == 0x1000 * c.version + c.size
      && Spells(b[4..8]) == c.flags && Spells(b[8..10]) == c.state
      && Spells(b[10..12]) == c.clientPort && Spells(b[12..14]) == c.virtualPort && Spells(b[14..16]) == c.serverPort
      && Spells(b[16..20]) == c.fwmark && Spells(b[20..24]) == c.timeout
      && Spells(b[24..28]) == c.clientAddr && Spells(b[28..32]) == c.virtualAddr && Spells(b[32..36]) == c.serverAddr
  {
    hide Spells, Put16, Put32;
    var b := EncodeConn(c);
    Spells16(c.version * 0x1000 + c.size);
    Spells32(c.flags);
    Spells16(c.state);
    Spells16(c.clientPort);
    Spells16(c.virtualPort);
    Spells16(c.serverPort);
    Spells32(c.fwmark);
    Spells32(c.timeout);
    Spells32(c.clientAddr);
    Spells32(c.virtualAddr);
    Spells32(c.serverAddr);
    assert b[2..4] == Put16(c.version * 0x1000 + c.size);
    assert b[4..8] == Put32(c.flags) && b[8..10] == Put16(c.state);
    assert b[10..12] == Put16(c.clientPort) && b[12..14] == Put16(c.virtualPort) && b[14..16] == Put16(c.serverPort);
    assert b[16..20] == Put32(c.fwmark) && b[20..24] == Put32(c.timeout);
    assert b[24..28] == Put32(c.clientAddr) && b[28..32] == Put32(c.virtualAddr) && b[32..36] == Put32(c.serverAddr);
  }

  /** Where each field of the header stands. */
  lemma HeaderLayout(h: SyncHeader)
    ensures var b := EncodeHeader(h);
      && |b| == 8 && b[0] == h.reserved && b[1] == h.syncId && Spells(b[2..4]) == h.size
      && b[4] == h.connCount && b[5] == h.version && Spells(b[6..8]) == h.spare
  {
    hide Spells, Put16;
    var b := EncodeHeader(h);
    Spells16(h.size);
    Spells16(h.spare);
    assert b[2..4] == Put16(h.size) && b[6..8] == Put16(h.spare);
  }
}
