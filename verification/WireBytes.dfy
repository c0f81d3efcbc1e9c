/** The frames of the other two wires byte by byte: SMUX version 2 (extension/lib/smux.js)
    and the control stream (tunnel/ctrl.go), and what a control body is judged by. */
module WireBytes {
  import opened Common
  import BigEndian
  import F = SmuxFrames
  import W = SmuxWrite
  import S = SmuxWire
  import opened Ctrl

  /** A SMUX frame: version, command, a length of two bytes and a stream id of four, the
      least significant first, and the data. */
  predicate IsSmuxFrame(b: seq<byte>, f: F.WireFrame) {
    && |b| == 8 + |f.data| && b[0] == f.ver && b[1] == f.cmd
    && b[2] as int + 256 * (b[3] as int) == |f.data|
    && b[4] as int + 256 * (b[5] as int) + 65536 * (b[6] as int) + 16777216 * (b[7] as int) == f.sid
    && b[8..] == f.data
  }

  lemma SmuxFrameBytes(f: F.WireFrame)
    requires |f.data| < 65536 && f.sid < 4294967296
    ensures IsSmuxFrame(F.Encode(f), f)
  {
    F.HeaderFields(f);
    DivMod(|f.data|, 65536);
    DivMod(f.sid, 4294967296);
  }

  /** What the reader takes a buffer's head for, in the same terms. */
  lemma SmuxFrameIsRead(b: seq<byte>)
    ensures F.Next(b).None? <==> |b| < 8 || |b| < 8 + b[2] as int + 256 * (b[3] as int)
    ensures F.Next(b).Some? ==>
      var (f, size) := F.Next(b).value;
      size == 8 + |f.data| <= |b| && IsSmuxFrame(b[..size], f)
  {
  }

  /** A stream's frames: version 2; command 2 with data, command 1 for its end. */
  lemma SmuxCommands(sid: nat, f: W.Frame)
    ensures S.OnWire(sid, f) == if f.Psh? then F.WireFrame(2, 2, sid, f.data) else F.WireFrame(2, 1, sid, [])
  {
  }

  // ---- The control stream

  /** A control frame: the body's length in four bytes, the most significant first, and the
      body. */
  lemma CtrlFrameBytes(body: seq<byte>)
    requires |body| <= 65536
    ensures var b := Frame(body);
      && |b| == 4 + |body| && b[4..] == body
      && 16777216 * (b[0] as int) + 65536 * (b[1] as int) + 256 * (b[2] as int) + b[3] as int == |body|
  {
    var b := Frame(body);
    assert b[0..4] == BigEndian.Put32(|body|);
    BigEndian.RoundTrip32(|body|, b, 0);
  }

  /** One read of a stream that does not begin with the magic word 57 49 53 50: the end, if
      it is cut short; lost, if the length is beyond 65536; else the body that follows, judged,
      and the rest. */
  lemma CtrlReadBytes<N, C>(json: Json<N, C>, b: seq<byte>)
    requires |b| >= 4 && !(b[0] == 0x57 && b[1] == 0x49 && b[2] == 0x53 && b[3] == 0x50)
    ensures var n := 16777216 * (b[0] as int) + 65536 * (b[1] as int) + 256 * (b[2] as int) + b[3] as int;
      Read(json, b) == if n > 65536 then (Desync, b[4..])
                       else if |b| < 4 + n then (Ended, [])
                       else (Judge(json, b[4..4 + n]), b[4 + n..])
  {
    assert b[..4] != MAGIC by {
      assert b[..4][0] == b[0] && b[..4][1] == b[1] && b[..4][2] == b[2] && b[..4][3] == b[3];
    }
    var n := BigEndian.Get32(b[..4], 0);
    if 4 + n <= |b| {
      assert b[4..][..n] == b[4..4 + n] && b[4..][n..] == b[4 + n..];
    }
  }

  /** A body is a message exactly when its head reads, says version 1 and a known type, and
      it reads as that type; any other is refused, and neither ends the stream. */
  lemma JudgedByItsHead<N, C>(json: Json<N, C>, body: seq<byte>)
    ensures Judge(json, body) ==
      if json.head(body) == Some(Head(NetviewKind, 1)) && json.netview(body).Some? then Got(Netview(json.netview(body).value))
      else if json.head(body) == Some(Head(ClaimKind, 1)) && json.claim(body).Some? then Got(Message.Claim(json.claim(body).value))
      else Refused
  {
  }
}
