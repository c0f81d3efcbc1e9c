/** From the writes of a stream to the frames the peer decodes: the write side of
    SmuxWrite over the wire format of SmuxFrames. */
module SmuxWire {
  import opened Common
  import opened Framing
  import W = SmuxWrite
  import F = SmuxFrames

  const CMD_FIN: byte := 1
  const CMD_PSH: byte := 2

  /** _sendPSH and _sendFIN. */
  function OnWire(sid: nat, f: W.Frame): F.WireFrame {
    match f
    case Psh(data) => F.WireFrame(F.VERSION, CMD_PSH, sid, data)
    case Fin => F.WireFrame(F.VERSION, CMD_FIN, sid, [])
  }

  function AllOnWire(sid: nat, out: seq<W.Frame>): (r: seq<F.WireFrame>)
    ensures |r| == |out| && forall i :: 0 <= i < |out| ==> r[i] == OnWire(sid, out[i])
  {
    seq(|out|, i requires 0 <= i < |out| => OnWire(sid, out[i]))
  }

  /** What the payloads received on a stream add up to. */
  function Payload(fs: seq<F.WireFrame>): seq<byte> {
    if fs == [] then []
    else Payload(fs[..|fs| - 1]) + if fs[|fs| - 1].cmd == CMD_PSH then fs[|fs| - 1].data else []
  }

  lemma {:induction false} PayloadIsSent(sid: nat, out: seq<W.Frame>)
    ensures Payload(AllOnWire(sid, out)) == W.Sent(out)
  {
    if out != [] {
      var n := |out| - 1;
      PayloadIsSent(sid, out[..n]);
      assert AllOnWire(sid, out)[..n] == AllOnWire(sid, out[..n]);
    }
  }

  /** The frame is of the stream's write side: window updates and the frame that opens a
      stream carry its id too. */
  predicate IsOf(sid: nat, f: F.WireFrame) {
    f.sid == sid && (f.cmd == CMD_PSH || f.cmd == CMD_FIN)
  }

  function Of(sid: nat, fs: seq<F.WireFrame>): seq<F.WireFrame> {
    if fs == [] then []
    else
      var n := |fs| - 1;
      Of(sid, fs[..n]) + if IsOf(sid, fs[n]) then [fs[n]] else []
  }

  lemma {:induction false} OfHasAll(sid: nat, fs: seq<F.WireFrame>)
    ensures forall f :: f in fs && IsOf(sid, f) ==> f in Of(sid, fs)
  {
    if fs != [] {
      var n := |fs| - 1;
      OfHasAll(sid, fs[..n]);
      assert forall f :: f in fs ==> f in fs[..n] || f == fs[n];
    }
  }

  predicate Fits(f: F.WireFrame) {
    |f.data| < F.TWO16 && f.sid < F.TWO32
  }

  lemma StreamFits(es: seq<W.Event>, sid: nat, f: F.WireFrame)
    requires sid < F.TWO32 && f in AllOnWire(sid, W.ExecAll(es).out)
    ensures Fits(f)
  {
    var out := W.ExecAll(es).out;
    W.SentIsPrefix(es);
    var i :| 0 <= i < |out| && AllOnWire(sid, out)[i] == f;
    assert out[i].Psh? ==> |out[i].data| <= W.MAX_FRAME_SIZE;
  }

  /** Whatever happened to a stream, whatever other streams and updates share its session,
      and however the transport cut the session's output up: the peer decodes exactly the
      frames that were sent, and the stream's own among them add up to a prefix of its
      accepted writes. */
  lemma WritesArrive(es: seq<W.Event>, sid: nat, fs: seq<F.WireFrame>, chunks: seq<seq<byte>>)
    requires sid < F.TWO32 && Of(sid, fs) == AllOnWire(sid, W.ExecAll(es).out)
    requires forall f :: f in fs && !IsOf(sid, f) ==> Fits(f)
    requires Concat(chunks) == Concat(F.EncodeAll(fs))
    ensures Incremental(F.Next)
    ensures var s := W.ExecAll(es);
      var (received, rest) := Feed(F.Next, chunks);
      && received == fs && rest == []
      && Payload(Of(sid, received)) == W.Sent(s.out)
      && W.IsPrefix(Payload(Of(sid, received)), Concat(s.accepted))
  {
    var s := W.ExecAll(es);
    W.SentIsPrefix(es);
    OfHasAll(sid, fs);
    forall f | f in fs
      ensures Fits(f)
    {
      if IsOf(sid, f) {
        StreamFits(es, sid, f);
      }
    }
    assert forall i :: 0 <= i < |fs| ==> Fits(fs[i]);
    F.FramesArrive(fs, chunks);
    PayloadIsSent(sid, s.out);
  }
}
