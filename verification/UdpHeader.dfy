/** The 31-byte header of a media datagram (networking/UdpProtocol.cpp, lines 20-54). */
module UdpHeaders {
  import opened Bytes

  const HEADER_SIZE := 31
  const MAGIC := 0x5252
  const VERSION := 1
  const MAX_FRAGMENTS := 1024

  const VIDEO: byte := 0
  const AUDIO: byte := 1
  const INPUT: byte := 2
  const CONTROL: byte := 3

  datatype UdpHeader = UdpHeader(
    magic: nat,
    version: byte,
    kind: byte,
    flags: byte,
    sessionId: nat,
    sequence: nat,
    fragmentIndex: nat,
    fragmentCount: nat,
    timestampNs: nat,
    payloadSize: nat)
  {
    /** Every field fits the width it has on the wire. */
    ghost predicate InRange() {
      && magic < 0x1_0000
      && sessionId < 0x1_0000_0000
      && sequence < 0x1_0000_0000_0000_0000
      && fragmentIndex < 0x1_0000
      && fragmentCount < 0x1_0000
      && timestampNs < 0x1_0000_0000_0000_0000
      && payloadSize < 0x1_0000
    }

    /** What a receiver accepts in a datagram that carries `available` payload bytes. */
    predicate Acceptable(available: nat) {
      && magic == MAGIC
      && version == VERSION
      && kind <= 8
      && payloadSize <= available
      && 1 <= fragmentCount <= MAX_FRAGMENTS
      && fragmentIndex < fragmentCount
    }
  }

  function EncodeUdpHeader(h: UdpHeader): (s: seq<byte>)
    ensures |s| == HEADER_SIZE
  {
    PutLE(h.magic, 2) + [h.version, h.kind, h.flags] + PutLE(h.sessionId, 4) + PutLE(h.sequence, 8)
    + PutLE(h.fragmentIndex, 2) + PutLE(h.fragmentCount, 2) + PutLE(h.timestampNs, 8) + PutLE(h.payloadSize, 2)
  }

  function RawHeader(buf: seq<byte>): (h: UdpHeader)
    requires |buf| >= HEADER_SIZE
  {
    UdpHeader(GetLE(buf[0..2]), buf[2], buf[3], buf[4], GetLE(buf[5..9]), GetLE(buf[9..17]),
              GetLE(buf[17..19]), GetLE(buf[19..21]), GetLE(buf[21..29]), GetLE(buf[29..31]))
  }

  function DecodeUdpHeader(buf: seq<byte>): (r: Option<UdpHeader>) {
    if |buf| < HEADER_SIZE then None else
      var h := RawHeader(buf);
      if h.magic != MAGIC || h.version != VERSION || h.kind > 8 then None
      else if |buf| < HEADER_SIZE + h.payloadSize then None
      else if h.fragmentCount == 0 || h.fragmentCount > MAX_FRAGMENTS then None
      else if h.fragmentIndex >= h.fragmentCount then None
      else Some(h)
  }

  lemma RawHeaderOfEncoding(h: UdpHeader, payload: seq<byte>)
    requires h.InRange()
    ensures RawHeader(EncodeUdpHeader(h) + payload) == h
  {
    var buf := EncodeUdpHeader(h) + payload;
    assert buf[0..2] == PutLE(h.magic, 2);
    assert buf[5..9] == PutLE(h.sessionId, 4);
    assert buf[9..17] == PutLE(h.sequence, 8);
    assert buf[17..19] == PutLE(h.fragmentIndex, 2);
    assert buf[19..21] == PutLE(h.fragmentCount, 2);
    assert buf[21..29] == PutLE(h.timestampNs, 8);
    assert buf[29..31] == PutLE(h.payloadSize, 2);
    Widths();
    GetPutLE(h.magic, 2);
    GetPutLE(h.sessionId, 4);
    GetPutLE(h.sequence, 8);
    GetPutLE(h.fragmentIndex, 2);
    GetPutLE(h.fragmentCount, 2);
    GetPutLE(h.timestampNs, 8);
    GetPutLE(h.payloadSize, 2);
  }

  /** Decoding inverts encoding on exactly the headers a receiver accepts, and rejects every other one. */
  lemma DecodeOfEncode(h: UdpHeader, payload: seq<byte>)
    requires h.InRange()
    ensures DecodeUdpHeader(EncodeUdpHeader(h) + payload) == if h.Acceptable(|payload|) then Some(h) else None
  {
    RawHeaderOfEncoding(h, payload);
  }

  /** A datagram has one reading: the header it decodes to encodes back to its first 31 bytes. */
  lemma EncodeOfDecode(buf: seq<byte>)
    requires DecodeUdpHeader(buf).Some?
    ensures var h := DecodeUdpHeader(buf).value;
      h.InRange() && h.Acceptable(|buf| - HEADER_SIZE) && EncodeUdpHeader(h) == buf[..HEADER_SIZE]
  {
    Widths();
    PutGetLE(buf[0..2]);
    PutGetLE(buf[5..9]);
    PutGetLE(buf[9..17]);
    PutGetLE(buf[17..19]);
    PutGetLE(buf[19..21]);
    PutGetLE(buf[21..29]);
    PutGetLE(buf[29..31]);
    assert buf[..HEADER_SIZE] == buf[0..2] + [buf[2], buf[3], buf[4]] + buf[5..9] + buf[9..17]
      + buf[17..19] + buf[19..21] + buf[21..29] + buf[29..31];
  }

  /** Where each field lies in a datagram, and what the first bytes of every datagram are. */
  lemma FieldOffsets(h: UdpHeader)
    ensures var s := EncodeUdpHeader(h);
      && |s| == 31
      && s[0..2] == PutLE(h.magic, 2) && s[2] == h.version && s[3] == h.kind && s[4] == h.flags
      && s[5..9] == PutLE(h.sessionId, 4) && s[9..17] == PutLE(h.sequence, 8)
      && s[17..19] == PutLE(h.fragmentIndex, 2) && s[19..21] == PutLE(h.fragmentCount, 2)
      && s[21..29] == PutLE(h.timestampNs, 8) && s[29..31] == PutLE(h.payloadSize, 2)
  {
  }

  /** A datagram is read exactly if it says so in its first bytes and its fragment and size are possible. */
  lemma AcceptedExactly(buf: seq<byte>)
    ensures DecodeUdpHeader(buf).Some? <==>
      && |buf| >= 31
      && GetLE(buf[0..2]) == 0x5252 && buf[2] == 1 && buf[3] <= 8
      && 31 + GetLE(buf[29..31]) <= |buf|
      && 1 <= GetLE(buf[19..21]) <= 1024 && GetLE(buf[17..19]) < GetLE(buf[19..21])
  {
  }

  /** Writes the header over the first bytes of a datagram buffer. */
  method WriteUdpHeader(buf: array<byte>, h: UdpHeader)
    requires buf.Length >= HEADER_SIZE
    modifies buf
    ensures buf[..HEADER_SIZE] == EncodeUdpHeader(h)
    ensures forall k :: HEADER_SIZE <= k < buf.Length ==> buf[k] == old(buf[k])
  {
    StoreLE(buf, 0, 2, h.magic);
    ghost var start := buf[..2];
    buf[2] := h.version;
    buf[3] := h.kind;
    buf[4] := h.flags;
    assert buf[..5] == start + [h.version, h.kind, h.flags];
    StoreLE(buf, 5, 4, h.sessionId);
    StoreLE(buf, 9, 8, h.sequence);
    StoreLE(buf, 17, 2, h.fragmentIndex);
    StoreLE(buf, 19, 2, h.fragmentCount);
    StoreLE(buf, 21, 8, h.timestampNs);
    StoreLE(buf, 29, 2, h.payloadSize);
  }
}
