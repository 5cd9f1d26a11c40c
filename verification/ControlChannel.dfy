/** Messages, their bytes, frames and the connection put together: what a session may take the control channel to be. */
module ControlChannel {
  import opened Bytes
  import opened ControlCodec
  import TF = TcpFraming
  import TC = TcpConnections

  /** A message as `send` frames it. */
  function FrameOf(b: Body): (m: TF.Message) {
    TF.Message(IdOf(b), 0, Encode(b))
  }

  ghost predicate Sendable(b: Body) {
    Representable(b) && KeySizesRight(b)
  }

  lemma PutSize(k: Kind, v: Val)
    requires InRange(k, v) && (k.Raw? ==> k.size <= MAX_STRING)
    ensures |Put(k, v)| <= MAX_STRING + 2
  {
  }

  lemma {:induction false} PutAllSize(ks: seq<Kind>, vs: seq<Val>)
    requires AllInRange(ks, vs) && forall k <- ks :: k.Raw? ==> k.size <= MAX_STRING
    ensures |PutAll(ks, vs)| <= |ks| * (MAX_STRING + 2)
  {
    if ks != [] {
      assert ks[0] in ks;
      PutSize(ks[0], vs[0]);
      PutAllSize(ks[1..], vs[1..]);
    }
  }

  /** Every control message fits a frame. */
  lemma FitsFrame(b: Body)
    requires Sendable(b)
    ensures FrameOf(b).InRange() && |FrameOf(b).payload| <= TF.MAX_PAYLOAD
  {
    var ks := Schema(IdOf(b));
    FieldsInRange(b);
    assert |ks| <= 8 && forall k <- ks :: k.Raw? ==> k.size <= MAX_STRING;
    PutAllSize(ks, Fields(b));
  }

  /** The frames are those of the messages `bs`, in order. */
  ghost predicate Carries(ms: seq<TF.Message>, bs: seq<Body>) {
    |ms| == |bs| && forall i :: 0 <= i < |bs| ==> ms[i] == FrameOf(bs[i]) && Sendable(bs[i])
  }

  /**
   * The channel is a queue: on every run of a connection on which these messages are sent, whatever part of the wire has
   * arrived, the peer has decoded the first few of them, in order, each with long strings and lists cut, and nothing else;
   * once an open connection has nothing more to write and all of it has arrived, it has decoded them all.
   */
  lemma ChannelIsQueue(ops: seq<TC.Op>, bs: seq<Body>, n: nat)
    requires Carries(TC.Sends(ops), bs) && n <= |TC.Run(ops).wire|
    ensures var r := TF.Read(TC.Run(ops).wire[..n]);
      && !r.failed && |r.messages| <= |bs|
      && forall i :: 0 <= i < |r.messages| ==> Decode(r.messages[i].kind, r.messages[i].payload) == Some(Capped(bs[i]))
    ensures var c := TC.Run(ops);
      !c.closed && !c.writing && n == |c.wire| ==> |TF.Read(c.wire[..n]).messages| == |bs|
  {
    CarriedAreSendable(TC.Sends(ops), bs);
    TC.PeerReadsSends(ops, n);
    var r := TF.Read(TC.Run(ops).wire[..n]);
    forall i | 0 <= i < |r.messages| ensures Decode(r.messages[i].kind, r.messages[i].payload) == Some(Capped(bs[i])) {
      assert r.messages[i] == TC.Sends(ops)[i];
      DecodeInvertsEncode(bs[i]);
    }
  }

  lemma CarriedAreSendable(ms: seq<TF.Message>, bs: seq<Body>)
    requires Carries(ms, bs)
    ensures TF.Sendable(ms)
  {
    forall m | m in ms ensures m.InRange() && |m.payload| <= TF.MAX_PAYLOAD {
      var i :| 0 <= i < |ms| && ms[i] == m;
      FitsFrame(bs[i]);
    }
  }
}
