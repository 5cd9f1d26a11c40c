/** Control messages and their payload bytes (networking/Protocol.cpp; ByteWriter and ByteReader of networking/Packet.cpp, lines 59-148). */
module ControlCodec {
  import opened Bytes
  import opened KeySizes

  const MAX_STRING := 1024
  const MAX_CODECS := 32

  // ---------- fields ----------

  datatype Kind = U8 | U16 | U32 | U64 | Flag | Text | Codecs | Raw(size: nat)

  datatype Val = Num(n: nat) | Bool(b: bool) | Str(s: seq<byte>)

  function Width(k: Kind): (n: nat)
    requires k.U8? || k.U16? || k.U32? || k.U64?
  {
    match k
    case U8 => 1
    case U16 => 2
    case U32 => 4
    case U64 => 8
  }

  predicate HasKind(k: Kind, v: Val) {
    match k
    case U8 | U16 | U32 | U64 => v.Num?
    case Flag => v.Bool?
    case Text | Codecs | Raw(_) => v.Str?
  }

  /** The value is one its C++ type can hold; raw bytes have their exact size. */
  ghost predicate InRange(k: Kind, v: Val) {
    && HasKind(k, v)
    && (v.Num? ==> v.n < Pow256(Width(k)))
    && (k.Raw? ==> |v.s| == k.size)
  }

  function Put(k: Kind, v: Val): (s: seq<byte>)
    requires HasKind(k, v)
  {
    match k
    case U8 | U16 | U32 | U64 => PutLE(v.n, Width(k))
    case Flag => [if v.b then 1 else 0]
    case Text => var n := Min(|v.s|, MAX_STRING); PutLE(n, 2) + v.s[..n]
    case Codecs => var n := Min(|v.s|, MAX_CODECS); [n] + v.s[..n]
    case Raw(_) => v.s
  }

  /** The next field and what follows it, unless the bytes run out. */
  function Get(k: Kind, s: seq<byte>): (r: Option<(Val, seq<byte>)>)
    ensures r.Some? ==> HasKind(k, r.value.0)
  {
    match k
    case U8 | U16 | U32 | U64 =>
      if |s| < Width(k) then None else Some((Num(GetLE(s[..Width(k)])), s[Width(k)..]))
    case Flag => if |s| < 1 then None else Some((Bool(s[0] != 0), s[1..]))
    case Text =>
      if |s| < 2 then None else
        var n := GetLE(s[..2]);
        if |s| < 2 + n then None else Some((Str(s[2..2 + n]), s[2 + n..]))
    case Codecs =>
      if |s| < 1 then None else
        var n: nat := s[0];
        if |s| < 1 + n then None else Some((Str(s[1..1 + n]), s[1 + n..]))
    case Raw(n) => if |s| < n then None else Some((Str(s[..n]), s[n..]))
  }

  /** What survives the wire: long strings and lists are cut. */
  function Cap(k: Kind, v: Val): (v': Val)
    requires HasKind(k, v)
    ensures HasKind(k, v')
  {
    match k
    case Text => Str(v.s[..Min(|v.s|, MAX_STRING)])
    case Codecs => Str(v.s[..Min(|v.s|, MAX_CODECS)])
    case _ => v
  }

  lemma GetOfPut(k: Kind, v: Val, tail: seq<byte>)
    requires InRange(k, v)
    ensures Get(k, Put(k, v) + tail) == Some((Cap(k, v), tail))
  {
    var s := Put(k, v) + tail;
    match k
    case U8 | U16 | U32 | U64 =>
      GetPutLE(v.n, Width(k));
      assert s[..Width(k)] == Put(k, v) && s[Width(k)..] == tail;
    case Flag =>
      assert s[1..] == tail;
    case Text =>
      var n := Min(|v.s|, MAX_STRING);
      Widths();
      GetPutLE(n, 2);
      assert s[..2] == PutLE(n, 2) && s[2..2 + n] == v.s[..n] && s[2 + n..] == tail;
    case Codecs =>
      var n := Min(|v.s|, MAX_CODECS);
      assert s[0] == n && s[1..1 + n] == v.s[..n] && s[1 + n..] == tail;
    case Raw(n) =>
      assert s[..n] == v.s && s[n..] == tail;
  }

  /** A field that is cut off anywhere is not read. */
  lemma GetOfCut(k: Kind, v: Val, n: nat)
    requires InRange(k, v) && n < |Put(k, v)|
    ensures Get(k, Put(k, v)[..n]) == None
  {
    var s := Put(k, v)[..n];
    if k.Text? && n >= 2 {
      var size := Min(|v.s|, MAX_STRING);
      Widths();
      GetPutLE(size, 2);
      assert s[..2] == PutLE(size, 2);
    }
  }

  // ---------- messages as lists of fields ----------

  ghost predicate AllInRange(ks: seq<Kind>, vs: seq<Val>) {
    |ks| == |vs| && forall i :: 0 <= i < |ks| ==> InRange(ks[i], vs[i])
  }

  predicate Typed(ks: seq<Kind>, vs: seq<Val>) {
    |ks| == |vs| && forall i :: 0 <= i < |ks| ==> HasKind(ks[i], vs[i])
  }

  function PutAll(ks: seq<Kind>, vs: seq<Val>): (s: seq<byte>)
    requires Typed(ks, vs)
  {
    if ks == [] then [] else Put(ks[0], vs[0]) + PutAll(ks[1..], vs[1..])
  }

  function GetAll(ks: seq<Kind>, s: seq<byte>): (r: Option<(seq<Val>, seq<byte>)>)
    ensures r.Some? ==> Typed(ks, r.value.0)
  {
    if ks == [] then Some(([], s))
    else
      match Get(ks[0], s)
      case None => None
      case Some((v, rest)) =>
        match GetAll(ks[1..], rest)
        case None => None
        case Some((vs, rest)) => Some(([v] + vs, rest))
  }

  function CapAll(ks: seq<Kind>, vs: seq<Val>): (vs': seq<Val>)
    requires Typed(ks, vs)
    ensures Typed(ks, vs')
  {
    seq(|ks|, i requires 0 <= i < |ks| => Cap(ks[i], vs[i]))
  }

  lemma {:induction false} GetAllOfPutAll(ks: seq<Kind>, vs: seq<Val>, tail: seq<byte>)
    requires AllInRange(ks, vs)
    ensures GetAll(ks, PutAll(ks, vs) + tail) == Some((CapAll(ks, vs), tail))
  {
    if ks == [] {
      assert PutAll(ks, vs) + tail == tail;
    } else {
      var rest := PutAll(ks[1..], vs[1..]) + tail;
      assert PutAll(ks, vs) + tail == Put(ks[0], vs[0]) + rest;
      GetOfPut(ks[0], vs[0], rest);
      GetAllOfPutAll(ks[1..], vs[1..], tail);
      assert CapAll(ks, vs) == [Cap(ks[0], vs[0])] + CapAll(ks[1..], vs[1..]);
    }
  }

  lemma {:induction false} GetAllOfCut(ks: seq<Kind>, vs: seq<Val>, n: nat)
    requires AllInRange(ks, vs) && n < |PutAll(ks, vs)|
    ensures GetAll(ks, PutAll(ks, vs)[..n]) == None
  {
    var first, rest := Put(ks[0], vs[0]), PutAll(ks[1..], vs[1..]);
    if n < |first| {
      assert PutAll(ks, vs)[..n] == first[..n];
      GetOfCut(ks[0], vs[0], n);
    } else {
      assert PutAll(ks, vs)[..n] == first + rest[..n - |first|];
      GetOfPut(ks[0], vs[0], rest[..n - |first|]);
      GetAllOfCut(ks[1..], vs[1..], n - |first|);
    }
  }

  // ---------- the sixteen messages ----------

  datatype Body =
    | ClientHello(clientName: seq<byte>, sessionCode: seq<byte>, appVersion: seq<byte>)
    | HostReject(reasonCode: nat, reasonText: seq<byte>)
    | HostApproved
    | HostCapabilities(hostName: seq<byte>, gameName: seq<byte>, captureMode: nat, width: nat, height: nat,
                       fps: nat, bitrateKbps: nat, offeredCodecs: seq<byte>)
    | ClientCapabilities(supportedCodecs: seq<byte>)
    | NegotiationResult(accepted: bool, codec: nat, width: nat, height: nat, fps: nat, bitrateKbps: nat, note: seq<byte>)
    | Ping(epochMs: nat)
    | Pong(echoEpochMs: nat)
    | InputPermission(controller: bool, keyboard: bool, mouse: bool, vibration: bool)
    | Kick(reason: seq<byte>)
    | Bye(reason: seq<byte>)
    | StreamStart(udpPort: nat, sessionId: nat, playerIndex: nat, codec: nat, width: nat, height: nat,
                  fps: nat, bitrateKbps: nat)
    | StreamStop(reason: seq<byte>)
    | KeyframeRequest
    | KeyExchange(publicKey: seq<byte>, salt: seq<byte>)
    | SessionKeyReady

  function IdOf(b: Body): (id: nat)
    ensures KnownId(id)
  {
    match b
    case ClientHello(_, _, _) => 0x01
    case HostReject(_, _) => 0x02
    case HostApproved => 0x03
    case HostCapabilities(_, _, _, _, _, _, _, _) => 0x04
    case ClientCapabilities(_) => 0x05
    case NegotiationResult(_, _, _, _, _, _, _) => 0x06
    case Ping(_) => 0x07
    case Pong(_) => 0x08
    case InputPermission(_, _, _, _) => 0x09
    case Kick(_) => 0x0A
    case Bye(_) => 0x0B
    case StreamStart(_, _, _, _, _, _, _, _) => 0x10
    case StreamStop(_) => 0x11
    case KeyframeRequest => 0x12
    case KeyExchange(_, _) => 0x13
    case SessionKeyReady => 0x14
  }

  predicate KnownId(id: nat) {
    0x01 <= id <= 0x0B || 0x10 <= id <= 0x14
  }

  /** The fields of a message type, in wire order. */
  function Schema(id: nat): (ks: seq<Kind>)
    requires KnownId(id)
  {
    match id
    case 0x01 => [Text, Text, Text]
    case 0x02 => [U16, Text]
    case 0x04 => [Text, Text, U8, U16, U16, U8, U32, Codecs]
    case 0x05 => [Codecs]
    case 0x06 => [Flag, U8, U16, U16, U8, U32, Text]
    case 0x07 => [U64]
    case 0x08 => [U64]
    case 0x09 => [Flag, Flag, Flag, Flag]
    case 0x0A => [Text]
    case 0x0B => [Text]
    case 0x10 => [U16, U32, U8, U8, U16, U16, U8, U32]
    case 0x11 => [Text]
    case 0x13 => [Raw(PUBLIC_KEY_BYTES), Raw(SALT_BYTES)]
    case _ => []
  }

  /** The types whose reader also demands that nothing follows. */
  predicate Exact(id: nat) {
    id == 0x03 || 0x07 <= id <= 0x09 || id == 0x10 || 0x12 <= id <= 0x14
  }

  function Fields(b: Body): (vs: seq<Val>)
    ensures Typed(Schema(IdOf(b)), vs)
  {
    match b
    case ClientHello(n, c, v) => [Str(n), Str(c), Str(v)]
    case HostReject(c, t) => [Num(c), Str(t)]
    case HostApproved => []
    case HostCapabilities(h, g, m, w, hh, f, r, cs) => [Str(h), Str(g), Num(m), Num(w), Num(hh), Num(f), Num(r), Str(cs)]
    case ClientCapabilities(cs) => [Str(cs)]
    case NegotiationResult(a, c, w, h, f, r, n) => [Bool(a), Num(c), Num(w), Num(h), Num(f), Num(r), Str(n)]
    case Ping(t) => [Num(t)]
    case Pong(t) => [Num(t)]
    case InputPermission(c, k, m, v) => [Bool(c), Bool(k), Bool(m), Bool(v)]
    case Kick(r) => [Str(r)]
    case Bye(r) => [Str(r)]
    case StreamStart(p, s, i, c, w, h, f, r) => [Num(p), Num(s), Num(i), Num(c), Num(w), Num(h), Num(f), Num(r)]
    case StreamStop(r) => [Str(r)]
    case KeyframeRequest => []
    case KeyExchange(k, s) => [Str(k), Str(s)]
    case SessionKeyReady => []
  }

  function Build(id: nat, vs: seq<Val>): (b: Body)
    requires KnownId(id) && Typed(Schema(id), vs)
    ensures IdOf(b) == id && Fields(b) == vs
  {
    match id
    case 0x01 => ClientHello(vs[0].s, vs[1].s, vs[2].s)
    case 0x02 => HostReject(vs[0].n, vs[1].s)
    case 0x03 => HostApproved
    case 0x04 => HostCapabilities(vs[0].s, vs[1].s, vs[2].n, vs[3].n, vs[4].n, vs[5].n, vs[6].n, vs[7].s)
    case 0x05 => ClientCapabilities(vs[0].s)
    case 0x06 => NegotiationResult(vs[0].b, vs[1].n, vs[2].n, vs[3].n, vs[4].n, vs[5].n, vs[6].s)
    case 0x07 => Ping(vs[0].n)
    case 0x08 => Pong(vs[0].n)
    case 0x09 => InputPermission(vs[0].b, vs[1].b, vs[2].b, vs[3].b)
    case 0x0A => Kick(vs[0].s)
    case 0x0B => Bye(vs[0].s)
    case 0x10 => StreamStart(vs[0].n, vs[1].n, vs[2].n, vs[3].n, vs[4].n, vs[5].n, vs[6].n, vs[7].n)
    case 0x11 => StreamStop(vs[0].s)
    case 0x12 => KeyframeRequest
    case 0x13 => KeyExchange(vs[0].s, vs[1].s)
    case _ => SessionKeyReady
  }

  lemma FieldsDetermineBody(a: Body, b: Body)
    requires IdOf(a) == IdOf(b) && Fields(a) == Fields(b)
    ensures a == b
  {
    var va, vb := Fields(a), Fields(b);
    assert forall i :: 0 <= i < |va| ==> va[i] == vb[i];
    match a
    case ClientHello(n, c, v) => assert va[0] == vb[0] && va[1] == vb[1] && va[2] == vb[2];
    case HostCapabilities(_, _, _, _, _, _, _, _) =>
      assert va[0] == vb[0] && va[1] == vb[1] && va[2] == vb[2] && va[3] == vb[3];
      assert va[4] == vb[4] && va[5] == vb[5] && va[6] == vb[6] && va[7] == vb[7];
    case _ =>
  }

  function Encode(b: Body): (s: seq<byte>) {
    PutAll(Schema(IdOf(b)), Fields(b))
  }

  function Decode(id: nat, s: seq<byte>): (r: Option<Body>)
    ensures r.Some? ==> IdOf(r.value) == id
  {
    if !KnownId(id) then None
    else
      match GetAll(Schema(id), s)
      case None => None
      case Some((vs, rest)) => if Exact(id) && rest != [] then None else Some(Build(id, vs))
  }

  const TWO16 := 0x1_0000
  const TWO32 := 0x1_0000_0000
  const TWO64 := 0x1_0000_0000_0000_0000

  /** Every integer has the width the program declares for it. */
  ghost predicate Representable(b: Body) {
    match b
    case HostReject(code, _) => code < TWO16
    case HostCapabilities(_, _, mode, w, h, fps, rate, _) => mode < 256 && w < TWO16 && h < TWO16 && fps < 256 && rate < TWO32
    case NegotiationResult(_, codec, w, h, fps, rate, _) => codec < 256 && w < TWO16 && h < TWO16 && fps < 256 && rate < TWO32
    case Ping(t) => t < TWO64
    case Pong(t) => t < TWO64
    case StreamStart(port, session, player, codec, w, h, fps, rate) =>
      && port < TWO16 && session < TWO32 && player < 256 && codec < 256
      && w < TWO16 && h < TWO16 && fps < 256 && rate < TWO32
    case _ => true
  }

  // ---------- the bytes of every message, written out ----------

  /** At most 1024 bytes behind their number. */
  function TextBytes(s: seq<byte>): (bytes: seq<byte>) {
    var n := if |s| < 1024 then |s| else 1024;
    PutLE(n, 2) + s[..n]
  }

  /** At most 32 codecs behind their number. */
  function CodecBytes(cs: seq<byte>): (bytes: seq<byte>) {
    var n := if |cs| < 32 then |cs| else 32;
    [n] + cs[..n]
  }

  function FlagByte(b: bool): (bytes: seq<byte>) {
    if b then [1] else [0]
  }

  /** What each message is on the wire, part by part. */
  function WireParts(b: Body): (parts: seq<seq<byte>>) {
    match b
    case ClientHello(name, code, version) => [TextBytes(name), TextBytes(code), TextBytes(version)]
    case HostReject(code, text) => [PutLE(code, 2), TextBytes(text)]
    case HostApproved => []
    case HostCapabilities(host, game, mode, w, h, fps, rate, codecs) =>
      [TextBytes(host), TextBytes(game), PutLE(mode, 1), PutLE(w, 2), PutLE(h, 2), PutLE(fps, 1), PutLE(rate, 4),
       CodecBytes(codecs)]
    case ClientCapabilities(codecs) => [CodecBytes(codecs)]
    case NegotiationResult(accepted, codec, w, h, fps, rate, note) =>
      [FlagByte(accepted), PutLE(codec, 1), PutLE(w, 2), PutLE(h, 2), PutLE(fps, 1), PutLE(rate, 4), TextBytes(note)]
    case Ping(t) => [PutLE(t, 8)]
    case Pong(t) => [PutLE(t, 8)]
    case InputPermission(controller, keyboard, mouse, vibration) =>
      [FlagByte(controller), FlagByte(keyboard), FlagByte(mouse), FlagByte(vibration)]
    case Kick(reason) => [TextBytes(reason)]
    case Bye(reason) => [TextBytes(reason)]
    case StreamStart(port, session, player, codec, w, h, fps, rate) =>
      [PutLE(port, 2), PutLE(session, 4), PutLE(player, 1), PutLE(codec, 1), PutLE(w, 2), PutLE(h, 2), PutLE(fps, 1),
       PutLE(rate, 4)]
    case StreamStop(reason) => [TextBytes(reason)]
    case KeyframeRequest => []
    case KeyExchange(publicKey, salt) => [publicKey, salt]
    case SessionKeyReady => []
  }

  function Joined(parts: seq<seq<byte>>): (s: seq<byte>) {
    if parts == [] then [] else parts[0] + Joined(parts[1..])
  }

  function PartsOf(ks: seq<Kind>, vs: seq<Val>): (parts: seq<seq<byte>>)
    requires Typed(ks, vs)
  {
    seq(|ks|, i requires 0 <= i < |ks| => Put(ks[i], vs[i]))
  }

  lemma {:induction false} PutAllIsJoined(ks: seq<Kind>, vs: seq<Val>)
    requires Typed(ks, vs)
    ensures PutAll(ks, vs) == Joined(PartsOf(ks, vs))
  {
    if ks != [] {
      PutAllIsJoined(ks[1..], vs[1..]);
      assert PartsOf(ks, vs)[1..] == PartsOf(ks[1..], vs[1..]);
    }
  }

  lemma PartsAreWireParts(b: Body)
    ensures PartsOf(Schema(IdOf(b)), Fields(b)) == WireParts(b)
  {
    var ks, vs := Schema(IdOf(b)), Fields(b);
    assert |ks| == |WireParts(b)|;
    forall i | 0 <= i < |ks| ensures Put(ks[i], vs[i]) == WireParts(b)[i] {
      match b
      case HostCapabilities(_, _, _, _, _, _, _, _) => CapabilitiesPart(b, i);
      case NegotiationResult(_, _, _, _, _, _, _) => ResultPart(b, i);
      case StreamStart(_, _, _, _, _, _, _, _) => StartPart(b, i);
      case _ => ShortPart(b, i);
    }
  }

  lemma CapabilitiesPart(b: Body, i: nat)
    requires b.HostCapabilities? && i < 8
    ensures Put(Schema(0x04)[i], Fields(b)[i]) == WireParts(b)[i]
  {
  }

  lemma ResultPart(b: Body, i: nat)
    requires b.NegotiationResult? && i < 7
    ensures Put(Schema(0x06)[i], Fields(b)[i]) == WireParts(b)[i]
  {
  }

  lemma StartPart(b: Body, i: nat)
    requires b.StreamStart? && i < 8
    ensures Put(Schema(0x10)[i], Fields(b)[i]) == WireParts(b)[i]
  {
  }

  lemma ShortPart(b: Body, i: nat)
    requires !b.HostCapabilities? && !b.NegotiationResult? && !b.StreamStart? && i < |Schema(IdOf(b))|
    ensures i < |WireParts(b)| && Put(Schema(IdOf(b))[i], Fields(b)[i]) == WireParts(b)[i]
  {
  }

  /** Every message is encoded as its parts, each as wide as the program writes it, one behind the other. */
  lemma WireBytes(b: Body)
    ensures Encode(b) == Joined(WireParts(b))
  {
    PutAllIsJoined(Schema(IdOf(b)), Fields(b));
    PartsAreWireParts(b);
  }

  /** The type numbers on the wire. */
  lemma TypeNumbers(b: Body)
    ensures IdOf(b) ==
      (match b
       case ClientHello(_, _, _) => 1 case HostReject(_, _) => 2 case HostApproved => 3
       case HostCapabilities(_, _, _, _, _, _, _, _) => 4 case ClientCapabilities(_) => 5
       case NegotiationResult(_, _, _, _, _, _, _) => 6 case Ping(_) => 7 case Pong(_) => 8
       case InputPermission(_, _, _, _) => 9 case Kick(_) => 10 case Bye(_) => 11
       case StreamStart(_, _, _, _, _, _, _, _) => 16 case StreamStop(_) => 17 case KeyframeRequest => 18
       case KeyExchange(_, _) => 19 case SessionKeyReady => 20)
  {
  }

  predicate KeySizesRight(b: Body) {
    b.KeyExchange? ==> |b.publicKey| == PUBLIC_KEY_BYTES && |b.salt| == SALT_BYTES
  }

  /** The message as the peer gets it. */
  function Capped(b: Body): (b': Body)
    ensures IdOf(b') == IdOf(b) && Fields(b') == CapAll(Schema(IdOf(b)), Fields(b))
  {
    Build(IdOf(b), CapAll(Schema(IdOf(b)), Fields(b)))
  }

  /** Strings of at most 1024 bytes and lists of at most 32 codecs. */
  predicate WithinLimits(b: Body) {
    AllWithinLimits(Schema(IdOf(b)), Fields(b))
  }

  predicate AllWithinLimits(ks: seq<Kind>, vs: seq<Val>)
    requires Typed(ks, vs)
  {
    forall i :: 0 <= i < |ks| ==>
      (ks[i].Text? ==> |vs[i].s| <= MAX_STRING) && (ks[i].Codecs? ==> |vs[i].s| <= MAX_CODECS)
  }

  lemma CapAllIsIdentityExactly(ks: seq<Kind>, vs: seq<Val>)
    requires Typed(ks, vs)
    ensures CapAll(ks, vs) == vs <==> AllWithinLimits(ks, vs)
  {
    if AllWithinLimits(ks, vs) {
      forall i | 0 <= i < |ks| ensures CapAll(ks, vs)[i] == vs[i] {
        assert vs[i].Str? ==> vs[i].s[..|vs[i].s|] == vs[i].s;
      }
    } else {
      var i :| 0 <= i < |ks| && !((ks[i].Text? ==> |vs[i].s| <= MAX_STRING) && (ks[i].Codecs? ==> |vs[i].s| <= MAX_CODECS));
      assert CapAll(ks, vs)[i] != vs[i];
    }
  }

  /** Nothing is cut exactly when the message is within the limits. */
  lemma CappedIsIdentityExactly(b: Body)
    ensures Capped(b) == b <==> WithinLimits(b)
  {
    CapAllIsIdentityExactly(Schema(IdOf(b)), Fields(b));
    if WithinLimits(b) {
      FieldsDetermineBody(Capped(b), b);
    }
  }

  lemma FieldsInRange(b: Body)
    requires Representable(b) && KeySizesRight(b)
    ensures AllInRange(Schema(IdOf(b)), Fields(b))
  {
    Widths();
    var ks, vs := Schema(IdOf(b)), Fields(b);
    assert b.KeyExchange? ==> vs[0].s == b.publicKey && vs[1].s == b.salt;
    forall i | 0 <= i < |ks| ensures InRange(ks[i], vs[i]) {
    }
  }

  lemma KeyExchangeDecodes(b: Body)
    requires b.KeyExchange?
    ensures Encode(b) == b.publicKey + b.salt
    ensures var s := Encode(b);
      Decode(0x13, s) == if |s| == PUBLIC_KEY_BYTES + SALT_BYTES
                         then Some(KeyExchange(s[..PUBLIC_KEY_BYTES], s[PUBLIC_KEY_BYTES..])) else None
  {
    var ks, vs := Schema(0x13), Fields(b);
    assert ks[1..] == [Raw(SALT_BYTES)] && vs[1..] == [Str(b.salt)] && ks[1..][1..] == [];
    assert PutAll(ks[1..], vs[1..]) == b.salt + PutAll([], []);
    var s := Encode(b);
    if |s| >= PUBLIC_KEY_BYTES {
      var rest := s[PUBLIC_KEY_BYTES..];
      if |rest| >= SALT_BYTES {
        var end := rest[SALT_BYTES..];
        assert GetAll([], end) == Some(([], end));
        assert GetAll(ks[1..], rest) == Some(([Str(rest[..SALT_BYTES])] + [], end));
        var got := [Str(s[..PUBLIC_KEY_BYTES])] + ([Str(rest[..SALT_BYTES])] + []);
        assert GetAll(ks, s) == Some((got, end));
        assert got[0] == Str(s[..PUBLIC_KEY_BYTES]) && got[1] == Str(rest[..SALT_BYTES]);
        assert |s| == PUBLIC_KEY_BYTES + SALT_BYTES ==> end == [] && rest[..SALT_BYTES] == s[PUBLIC_KEY_BYTES..];
        assert |s| != PUBLIC_KEY_BYTES + SALT_BYTES ==> |end| > 0;
      } else {
        assert GetAll(ks[1..], rest) == None;
      }
    }
  }

  lemma WrongKeySizes(b: Body)
    requires b.KeyExchange? && !KeySizesRight(b)
    ensures Decode(0x13, Encode(b)) != Some(Capped(b))
  {
    KeyExchangeDecodes(b);
    assert WithinLimits(b);
    CappedIsIdentityExactly(b);
  }

  lemma RightKeySizes(b: Body)
    requires Representable(b) && KeySizesRight(b)
    ensures Decode(IdOf(b), Encode(b)) == Some(Capped(b))
  {
    var ks, vs := Schema(IdOf(b)), Fields(b);
    FieldsInRange(b);
    GetAllOfPutAll(ks, vs, []);
    assert PutAll(ks, vs) + [] == PutAll(ks, vs);
    assert GetAll(ks, Encode(b)) == Some((CapAll(ks, vs), []));
  }

  /**
   * For all sixteen types, decoding the bytes of a message gives the message back with long strings and lists
   * cut to their caps, exactly when a key exchange carries a 64-byte key and a 16-byte salt.
   */
  lemma DecodeInvertsEncode(b: Body)
    requires Representable(b)
    ensures Decode(IdOf(b), Encode(b)) == Some(Capped(b)) <==> KeySizesRight(b)
  {
    if KeySizesRight(b) {
      RightKeySizes(b);
    } else {
      WrongKeySizes(b);
    }
  }

  /** No message is mistaken for a shorter one: a truncated payload never decodes. */
  lemma TruncatedNeverDecodes(b: Body, n: nat)
    requires Representable(b) && KeySizesRight(b) && n < |Encode(b)|
    ensures Decode(IdOf(b), Encode(b)[..n]) == None
  {
    FieldsInRange(b);
    GetAllOfCut(Schema(IdOf(b)), Fields(b), n);
  }

  /**
   * Bytes behind a message: the types that check for the end reject it, the others read the message and
   * drop the tail. So trailing bytes are rejected exactly for the types in `Exact`.
   */
  lemma TrailingBytesDecide(b: Body, tail: seq<byte>)
    requires Representable(b) && KeySizesRight(b) && tail != []
    ensures Decode(IdOf(b), Encode(b) + tail) == if Exact(IdOf(b)) then None else Some(Capped(b))
  {
    var ks, vs := Schema(IdOf(b)), Fields(b);
    FieldsInRange(b);
    GetAllOfPutAll(ks, vs, tail);
    assert GetAll(ks, Encode(b) + tail) == Some((CapAll(ks, vs), tail));
  }

  /** A farewell with one byte behind it is still read as that farewell. */
  lemma ByeIgnoresTail()
    ensures Decode(0x0B, Encode(Bye([])) + [7]) == Some(Bye([]))
  {
    TrailingBytesDecide(Bye([]), [7]);
    CappedIsIdentityExactly(Bye([]));
  }

  lemma GetText(text: seq<byte>)
    requires |text| < 0x1_0000
    ensures Get(Text, PutLE(|text|, 2) + text) == Some((Str(text), []))
  {
    var s := PutLE(|text|, 2) + text;
    Widths();
    GetPutLE(|text|, 2);
    assert s[..2] == PutLE(|text|, 2) && s[2..2 + |text|] == text && s[2 + |text|..] == [];
  }

  lemma ByeIsText(s: seq<byte>)
    ensures Decode(0x0B, s) == match Get(Text, s) case None => None case Some((v, rest)) => Some(Bye(v.s))
  {
    GetOnly(Text, s);
    assert GetAll(Schema(0x0B), s) == GetAll([Text], s);
  }

  /** A received text is not cut. */
  lemma LongTextIsRead(reason: seq<byte>)
    requires |reason| < 0x1_0000
    ensures Decode(0x0B, PutLE(|reason|, 2) + reason) == Some(Bye(reason))
  {
    GetText(reason);
    ByeIsText(PutLE(|reason|, 2) + reason);
  }

  lemma GetOnly(k: Kind, s: seq<byte>)
    ensures GetAll([k], s) == match Get(k, s) case None => None case Some((v, rest)) => Some(([v], rest))
  {
    var ks := [k];
    assert ks[1..] == [];
    match Get(k, s)
    case None =>
    case Some((v, rest)) =>
      assert GetAll(ks[1..], rest) == Some(([], rest));
      assert [v] + [] == [v];
  }

  lemma {:induction false} GetFlags(ks: seq<Kind>, s: seq<byte>)
    requires |ks| == |s| && forall i :: 0 <= i < |ks| ==> ks[i] == Flag
    ensures GetAll(ks, s) == Some((seq(|s|, i requires 0 <= i < |s| => Bool(s[i] != 0)), []))
  {
    var vs := seq(|s|, i requires 0 <= i < |s| => Bool(s[i] != 0));
    if ks == [] {
      assert vs == [] && s == [];
    } else {
      GetFlags(ks[1..], s[1..]);
      assert vs == [Bool(s[0] != 0)] + seq(|s[1..]|, i requires 0 <= i < |s[1..]| => Bool(s[1..][i] != 0));
    }
  }

  /** Any byte but zero reads as true. */
  lemma NonzeroIsTrue(flags: seq<byte>)
    requires |flags| == 4
    ensures Decode(0x09, flags) == Some(InputPermission(flags[0] != 0, flags[1] != 0, flags[2] != 0, flags[3] != 0))
  {
    GetFlags(Schema(0x09), flags);
  }

  // ---------- codec negotiation ----------

  /** Position `i` is the first host preference that the client lists. */
  ghost predicate FirstCommon(hostPreference: seq<byte>, clientSupported: seq<byte>, i: nat) {
    && i < |hostPreference|
    && hostPreference[i] in clientSupported
    && forall j :: 0 <= j < i ==> hostPreference[j] !in clientSupported
  }

  function Negotiated(hostPreference: seq<byte>, clientSupported: seq<byte>): (r: Option<byte>) {
    if hostPreference == [] then None
    else if hostPreference[0] in clientSupported then Some(hostPreference[0])
    else Negotiated(hostPreference[1..], clientSupported)
  }

  /** The result is the first common codec, and there is none only if the lists have nothing in common. */
  lemma {:induction false} NegotiatedIsFirstCommon(hostPreference: seq<byte>, clientSupported: seq<byte>) returns (i: nat)
    ensures var r := Negotiated(hostPreference, clientSupported);
      if r.Some? then FirstCommon(hostPreference, clientSupported, i) && hostPreference[i] == r.value
      else forall c <- hostPreference :: c !in clientSupported
  {
    if hostPreference == [] || hostPreference[0] in clientSupported {
      i := 0;
    } else {
      var k := NegotiatedIsFirstCommon(hostPreference[1..], clientSupported);
      i := k + 1;
      assert forall j :: 1 <= j < |hostPreference| ==> hostPreference[j] == hostPreference[1..][j - 1];
    }
  }

  method NegotiateCodec(hostPreference: seq<byte>, clientSupported: seq<byte>) returns (r: Option<byte>)
    ensures r == Negotiated(hostPreference, clientSupported)
  {
    for i := 0 to |hostPreference|
      invariant Negotiated(hostPreference, clientSupported) == Negotiated(hostPreference[i..], clientSupported)
    {
      if hostPreference[i] in clientSupported {
        return Some(hostPreference[i]);
      }
      assert hostPreference[i..][1..] == hostPreference[i + 1..];
    }
    return None;
  }

  // ---------- the writer and the reader ----------

  class ByteWriter {
    var buf: seq<byte>

    constructor ()
      ensures buf == []
    {
      buf := [];
    }

    /** Little-endian integer, a byte at a time. */
    method Integer(k: Kind, v: nat)
      requires HasKind(k, Num(v))
      modifies this
      ensures buf == old(buf) + Put(k, Num(v))
    {
      var rest := v;
      assert buf + PutLE(rest, Width(k)) == old(buf) + PutLE(v, Width(k));
      for i := 0 to Width(k)
        invariant buf + PutLE(rest, Width(k) - i) == old(buf) + PutLE(v, Width(k))
      {
        ghost var before := buf;
        buf := buf + [rest % 256];
        rest := rest / 256;
        assert before + ([buf[|before|]] + PutLE(rest, Width(k) - i - 1)) == buf + PutLE(rest, Width(k) - i - 1);
      }
      assert buf + [] == buf;
    }

    method Boolean(v: bool)
      modifies this
      ensures buf == old(buf) + Put(Flag, Bool(v))
    {
      buf := buf + [if v then 1 else 0];
    }

    method Bytes(data: seq<byte>)
      modifies this
      ensures buf == old(buf) + data
    {
      buf := buf + data;
    }

    method Text(s: seq<byte>)
      modifies this
      ensures buf == old(buf) + Put(Kind.Text, Str(s))
    {
      var n := if |s| > MAX_STRING then MAX_STRING else |s|;
      Integer(U16, n);
      buf := buf + s[..n];
    }

    method VideoCodecList(list: seq<byte>)
      modifies this
      ensures buf == old(buf) + Put(Codecs, Str(list))
    {
      var n := Min(|list|, MAX_CODECS);
      buf := buf + [n];
      for i := 0 to n
        invariant buf == old(buf) + ([n] + list[..i])
      {
        buf := buf + [list[i]];
        assert list[..i] + [list[i]] == list[..i + 1];
      }
    }

    method Write(k: Kind, v: Val)
      requires HasKind(k, v)
      modifies this
      ensures buf == old(buf) + Put(k, v)
    {
      match k
      case U8 | U16 | U32 | U64 => Integer(k, v.n);
      case Flag => Boolean(v.b);
      case Text => Text(v.s);
      case Codecs => VideoCodecList(v.s);
      case Raw(_) => Bytes(v.s);
    }
  }

  /** Field after field. */
  method WriteAll(w: ByteWriter, ks: seq<Kind>, vs: seq<Val>)
    requires Typed(ks, vs)
    modifies w
    ensures w.buf == old(w.buf) + PutAll(ks, vs)
  {
    for i := 0 to |ks|
      invariant w.buf + PutAll(ks[i..], vs[i..]) == old(w.buf) + PutAll(ks, vs)
    {
      assert ks[i..][1..] == ks[i + 1..] && vs[i..][1..] == vs[i + 1..];
      ghost var before := w.buf;
      w.Write(ks[i], vs[i]);
      assert before + (Put(ks[i], vs[i]) + PutAll(ks[i + 1..], vs[i + 1..])) == w.buf + PutAll(ks[i + 1..], vs[i + 1..]);
    }
    assert w.buf + [] == w.buf;
  }

  /** `writeMsg` for every type. */
  method EncodeMessage(b: Body) returns (s: seq<byte>)
    ensures s == Encode(b)
  {
    var w := new ByteWriter();
    WriteAll(w, Schema(IdOf(b)), Fields(b));
    assert [] + Encode(b) == Encode(b);
    return w.buf;
  }

  lemma {:induction false} GetLEAppend(s: seq<byte>, b: byte)
    ensures GetLE(s + [b]) == GetLE(s) + Pow256(|s|) * b
  {
    if s == [] {
      assert s + [b] == [b] && [b][1..] == [];
    } else {
      GetLEAppend(s[1..], b);
      assert (s + [b])[1..] == s[1..] + [b];
    }
  }

  /** A little-endian integer, a byte at a time. */
  method LoadLE(data: seq<byte>, pos: nat, n: nat) returns (v: nat)
    requires pos + n <= |data|
    ensures v == GetLE(data[pos..pos + n])
  {
    v := 0;
    var scale: nat := 1;
    for i := 0 to n
      invariant scale == Pow256(i) && v == GetLE(data[pos..pos + i])
    {
      GetLEAppend(data[pos..pos + i], data[pos + i]);
      assert data[pos..pos + i + 1] == data[pos..pos + i] + [data[pos + i]];
      v := v + scale * data[pos + i];
      scale := 256 * scale;
    }
  }

  lemma SliceOfRest(s: seq<byte>, i: nat, n: nat)
    requires i + n <= |s|
    ensures s[i..][..n] == s[i..i + n] && s[i..][n..] == s[i + n..]
  {
  }

  lemma TextBehind(s: seq<byte>, tail: seq<byte>, n: nat)
    requires 2 <= |s| && s[2..] == tail && n <= |tail|
    ensures s[2..2 + n] == tail[..n] && s[2 + n..] == tail[n..]
  {
    assert s[2..2 + n] == s[2..][..n] && s[2 + n..] == s[2..][n..];
  }

  class ByteReader {
    const data: seq<byte>
    var pos: nat
    var ok: bool

    constructor (data: seq<byte>)
      ensures Valid() && this.data == data && pos == 0 && ok
    {
      this.data := data;
      pos, ok := 0, true;
    }

    ghost predicate Valid()
      reads this
    {
      pos <= |data|
    }

    /** What is still to be read. */
    ghost function Rest(): (s: seq<byte>)
      requires Valid()
      reads this
    {
      data[pos..]
    }

    /** A read of `k`: it yields the next field and moves past it, or latches the failure. */
    twostate predicate DidRead(k: Kind, v: Val)
      requires Valid() && old(Valid())
      reads this
    {
      var next := Get(k, old(Rest()));
      if old(ok) && next.Some? then ok && v == next.value.0 && Rest() == next.value.1 else !ok
    }

    method Integer(k: Kind) returns (v: nat)
      requires Valid() && HasKind(k, Num(0))
      modifies this
      ensures Valid() && DidRead(k, Num(v))
    {
      var n := Width(k);
      if !ok || pos + n > |data| {
        ok := false;
        return 0;
      }
      v := LoadLE(data, pos, n);
      SliceOfRest(data, pos, n);
      pos := pos + n;
    }

    method Boolean() returns (v: bool)
      requires Valid()
      modifies this
      ensures Valid() && DidRead(Flag, Bool(v))
    {
      if !ok || pos + 1 > |data| {
        ok := false;
        return false;
      }
      v := data[pos] != 0;
      pos := pos + 1;
    }

    method Bytes(n: nat) returns (s: seq<byte>)
      requires Valid()
      modifies this
      ensures Valid() && DidRead(Raw(n), Str(s))
    {
      if !ok || pos + n > |data| {
        ok := false;
        return [];
      }
      s := data[pos..pos + n];
      pos := pos + n;
    }

    method Text() returns (s: seq<byte>)
      requires Valid()
      modifies this
      ensures Valid() && DidRead(Kind.Text, Str(s))
    {
      ghost var rest := Rest();
      var n := Integer(U16);
      assert ok ==> rest[2..] == data[pos..];
      if !ok || pos + n > |data| {
        ok := false;
        return [];
      }
      s := data[pos..pos + n];
      TextBehind(rest, data[pos..], n);
      pos := pos + n;
    }

    method VideoCodecList() returns (list: seq<byte>)
      requires Valid()
      modifies this
      ensures Valid() && DidRead(Codecs, Str(list))
    {
      list := [];
      if !ok || pos + 1 > |data| {
        ok := false;
        return;
      }
      var n: nat := data[pos];
      pos := pos + 1;
      ghost var start := pos;
      for i := 0 to n
        invariant Valid()
        invariant ok ==> pos == start + i && list == data[start..pos]
        invariant !ok ==> start + n > |data|
      {
        if !ok || pos + 1 > |data| {
          ok := false;
          list := list + [0];
        } else {
          list := list + [data[pos]];
          pos := pos + 1;
        }
      }
    }

    method Read(k: Kind) returns (v: Val)
      requires Valid()
      modifies this
      ensures Valid() && DidRead(k, v)
    {
      match k
      case U8 | U16 | U32 | U64 => var n := Integer(k); v := Num(n);
      case Flag => var b := Boolean(); v := Bool(b);
      case Text => var s := Text(); v := Str(s);
      case Codecs => var s := VideoCodecList(); v := Str(s);
      case Raw(n) => var s := Bytes(n); v := Str(s);
    }
  }

  /** Field after field; a failure latches and the rest reads as zeros. */
  method ReadAll(r: ByteReader, ks: seq<Kind>) returns (vs: seq<Val>)
    requires r.Valid() && r.ok
    modifies r
    ensures r.Valid()
    ensures var all := GetAll(ks, old(r.Rest()));
      if all.Some? then r.ok && vs == all.value.0 && r.Rest() == all.value.1 else !r.ok
  {
    vs := [];
    ghost var start := r.Rest();
    assert ks[0..] == ks;
    assert GetAll(ks, start).Some? ==> vs + GetAll(ks, start).value.0 == GetAll(ks, start).value.0;
    for i := 0 to |ks|
      invariant r.Valid() && |vs| == i
      invariant r.ok ==> GetAll(ks, start) == Behind(vs, GetAll(ks[i..], r.Rest()))
      invariant !r.ok ==> GetAll(ks, start) == None
    {
      assert ks[i..][1..] == ks[i + 1..];
      ghost var sofar := vs;
      var v := r.Read(ks[i]);
      vs := vs + [v];
      if r.ok {
        assert forall more: seq<Val> :: sofar + ([v] + more) == vs + more;
      }
    }
    if r.ok {
      assert vs + [] == vs;
    }
  }

  /** Values already read in front of what the rest yields. */
  ghost function Behind(vs: seq<Val>, rest: Option<(seq<Val>, seq<byte>)>): (r: Option<(seq<Val>, seq<byte>)>) {
    if rest.Some? then Some((vs + rest.value.0, rest.value.1)) else None
  }

  /** `readMsg` for every type, with the check for trailing bytes where the reader has one. */
  method DecodeMessage(rawType: nat, data: seq<byte>) returns (r: Option<Body>)
    ensures r == Decode(rawType, data)
  {
    if !KnownId(rawType) {
      return None;
    }
    var reader := new ByteReader(data);
    var vs := ReadAll(reader, Schema(rawType));
    if !reader.ok || (Exact(rawType) && reader.pos != |reader.data|) {
      return None;
    }
    return Some(Build(rawType, vs));
  }
}
