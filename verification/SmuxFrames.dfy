/** SMUX v2 frames on the wire (extension/lib/smux.js): an eight-byte header, all
    integers little-endian, and the payload. */
module SmuxFrames {
  import opened Common
  import opened Framing

  const HEADER_LEN := 8
  const VERSION: byte := 2
  const TWO16 := 0x1_0000
  const TWO32 := 0x1_0000_0000

  datatype WireFrame = WireFrame(ver: byte, cmd: byte, sid: nat, data: seq<byte>)

  // ---- Numbers, least significant byte first. What does not fit is cut off.

  function PutUint16(n: nat): (b: seq<byte>)
    ensures |b| == 2
  {
    [n % 256, n / 256 % 256]
  }

  function PutUint32(n: nat): (b: seq<byte>)
    ensures |b| == 4
  {
    PutUint16(n) + PutUint16(n / TWO16)
  }

  function GetUint16(b: seq<byte>, at: nat): nat
    requires at + 2 <= |b|
  {
    b[at] as int + 256 * (b[at + 1] as int)
  }

  function GetUint32(b: seq<byte>, at: nat): nat
    requires at + 4 <= |b|
  {
    GetUint16(b, at) + TWO16 * GetUint16(b, at + 2)
  }

  lemma Uint16RoundTrip(n: nat, before: seq<byte>, after: seq<byte>)
    ensures GetUint16(before + PutUint16(n) + after, |before|) == n % TWO16
  {
    var b := before + PutUint16(n) + after;
    assert b[|before|] == PutUint16(n)[0] && b[|before| + 1] == PutUint16(n)[1];
    Bytes(n);
  }

  lemma Bytes(n: nat)
    ensures n % 256 + 256 * (n / 256 % 256) == n % TWO16
  {
    DivMod(n, 256);
    DivMod(n / 256, 256);
    DivDiv(n, 256, 256);
    DivUnique(n, TWO16, n / 256 / 256, n % 256 + 256 * (n / 256 % 256));
  }

  lemma Uint32RoundTrip(n: nat, before: seq<byte>, after: seq<byte>)
    ensures GetUint32(before + PutUint32(n) + after, |before|) == n % TWO32
  {
    var lo, hi := PutUint16(n), PutUint16(n / TWO16);
    Uint16RoundTrip(n, before, hi + after);
    Uint16RoundTrip(n / TWO16, before + lo, after);
    assert before + lo + (hi + after) == before + PutUint32(n) + after;
    assert (before + lo) + hi + after == before + PutUint32(n) + after;
    Halves(n);
  }

  lemma Halves(n: nat)
    ensures n % TWO16 + TWO16 * (n / TWO16 % TWO16) == n % TWO32
  {
    DivMod(n, TWO16);
    DivMod(n / TWO16, TWO16);
    DivDiv(n, TWO16, TWO16);
    DivUnique(n, TWO32, n / TWO16 / TWO16, n % TWO16 + TWO16 * (n / TWO16 % TWO16));
  }

  // ---- Frames

  /** The bytes of a frame. */
  function Encode(f: WireFrame): seq<byte> {
    [f.ver, f.cmd] + PutUint16(|f.data|) + PutUint32(f.sid) + f.data
  }

  /** The frame at the head of a buffer, when all of it is there. */
  function Next(b: seq<byte>): Option<(WireFrame, nat)> {
    if |b| < HEADER_LEN then None
    else
      var total := HEADER_LEN + GetUint16(b, 2);
      if |b| < total then None
      else Some((WireFrame(b[0], b[1], GetUint32(b, 4), b[HEADER_LEN..total]), total))
  }

  lemma NextIsIncremental()
    ensures Incremental(Next)
  {
    forall b, x ensures IncrementalAt(Next, b, x) {
      NextSeesThrough(b, x);
    }
  }

  lemma NextSeesThrough(b: seq<byte>, x: seq<byte>)
    ensures Next(b).Some? ==> 0 < Next(b).value.1 <= |b| && Next(b + x) == Next(b)
  {
    if Next(b).Some? {
      var total := Next(b).value.1;
      assert GetUint16(b + x, 2) == GetUint16(b, 2) && GetUint32(b + x, 4) == GetUint32(b, 4);
      assert (b + x)[HEADER_LEN..total] == b[HEADER_LEN..total];
    }
  }

  /** A frame is read back as it was written exactly when its length and its stream's id
      fit their fields. */
  lemma FrameRoundTrip(f: WireFrame)
    ensures Reads(Next, Encode(f), f) <==> |f.data| < TWO16 && f.sid < TWO32
  {
    HeaderFields(f);
    var b := Encode(f);
    var total := HEADER_LEN + |f.data| % TWO16;
    DivMod(|f.data|, TWO16);
    if |f.data| < TWO16 {
      assert b[HEADER_LEN..total] == f.data;
    } else {
      assert total < |b|;
    }
  }

  lemma HeaderFields(f: WireFrame)
    ensures var b := Encode(f);
      && |b| == HEADER_LEN + |f.data| && b[0] == f.ver && b[1] == f.cmd
      && GetUint16(b, 2) == |f.data| % TWO16 && GetUint32(b, 4) == f.sid % TWO32
  {
    var head, len, sid := [f.ver, f.cmd], PutUint16(|f.data|), PutUint32(f.sid);
    Uint16RoundTrip(|f.data|, head, sid + f.data);
    Uint32RoundTrip(f.sid, head + len, f.data);
    assert head + len + (sid + f.data) == Encode(f);
    assert (head + len) + sid + f.data == Encode(f);
  }

  function EncodeAll(fs: seq<WireFrame>): seq<seq<byte>> {
    seq(|fs|, i requires 0 <= i < |fs| => Encode(fs[i]))
  }

  /** Whatever frames one end writes, the other end reads, however the transport cuts the
      bytes up. */
  lemma FramesArrive(fs: seq<WireFrame>, chunks: seq<seq<byte>>)
    requires forall i :: 0 <= i < |fs| ==> |fs[i].data| < TWO16 && fs[i].sid < TWO32
    requires Concat(chunks) == Concat(EncodeAll(fs))
    ensures Incremental(Next) && Framing.Feed(Next, chunks) == (fs, [])
  {
    NextIsIncremental();
    forall i | 0 <= i < |fs| ensures Reads(Next, EncodeAll(fs)[i], fs[i]) {
      FrameRoundTrip(fs[i]);
    }
    FramesSurviveTheWire(Next, EncodeAll(fs), fs, chunks);
  }

  lemma Shift<T>(before: seq<T>, x: T, after: seq<T>)
    ensures before + [x] + after == before + ([x] + after)
  {
  }

  // ---- The session

  class SmuxServer {
    var buffer: seq<byte>
    var closed: bool
    ghost var dispatched: seq<WireFrame>   // the frames handed to _dispatch
    ghost var fed: seq<byte>               // what was fed while open

    /** What was dispatched, and what is buffered, are the frames and the rest of all that
        was fed. */
    ghost predicate Valid()
      reads this
    {
      Incremental(Next) && (dispatched, buffer) == Drain(Next, fed)
    }

    constructor ()
      ensures Valid() && !closed && dispatched == []
    {
      buffer, closed, dispatched, fed := [], false, [], [];
      new;
      NextIsIncremental();
      DrainEmpty(Next);
    }

    method Feed(data: seq<byte>)
      requires Valid()
      modifies `buffer, `dispatched, `fed
      ensures Valid()
      ensures fed == if closed then old(fed) else old(fed) + data
    {
      if closed {
        return;
      }
      DrainAppend(Next, fed, data);
      fed := fed + data;
      buffer := if |buffer| == 0 then data else buffer + data;
      assert old(buffer) == [] ==> old(buffer) + data == data;
      ProcessFrames();
    }

    method ProcessFrames()
      requires Incremental(Next)
      modifies `buffer, `dispatched
      ensures dispatched == old(dispatched) + Drain(Next, old(buffer)).0
      ensures buffer == Drain(Next, old(buffer)).1
    {
      var more := true;
      assert dispatched + Drain(Next, buffer).0 == old(dispatched) + Drain(Next, old(buffer)).0;
      while more
        invariant dispatched + Drain(Next, buffer).0 == old(dispatched) + Drain(Next, old(buffer)).0
        invariant Drain(Next, buffer).1 == Drain(Next, old(buffer)).1
        invariant !more ==> Next(buffer).None?
        decreases more, |buffer|
      {
        more := ProcessFrame();
      }
      DrainStep(Next, buffer);
      assert dispatched + [] == dispatched;
    }

    /** One turn of the loop: a frame leaves the buffer, if all of it is there. */
    method ProcessFrame() returns (more: bool)
      requires Incremental(Next)
      modifies `buffer, `dispatched
      ensures dispatched + Drain(Next, buffer).0 == old(dispatched) + Drain(Next, old(buffer)).0
      ensures Drain(Next, buffer).1 == Drain(Next, old(buffer)).1
      ensures if more then |buffer| < |old(buffer)| else buffer == old(buffer) && Next(buffer).None?
    {
      if |buffer| < HEADER_LEN {
        return false;
      }
      var len := GetUint16(buffer, 2);
      var total := HEADER_LEN + len;
      if |buffer| < total {
        return false;
      }
      TakeFrame(total);
      return true;
    }

    method TakeFrame(total: nat)
      requires Incremental(Next) && Next(buffer).Some? && total == Next(buffer).value.1
      modifies `buffer, `dispatched
      ensures dispatched + Drain(Next, buffer).0 == old(dispatched) + Drain(Next, old(buffer)).0
      ensures Drain(Next, buffer).1 == Drain(Next, old(buffer)).1 && |buffer| < |old(buffer)|
    {
      DrainStep(Next, buffer);
      var frame := WireFrame(buffer[0], buffer[1], GetUint32(buffer, 4), buffer[HEADER_LEN..total]);
      buffer := buffer[total..];
      Dispatch(frame);
      Shift(old(dispatched), frame, Drain(Next, buffer).0);
    }

    method Dispatch(frame: WireFrame)
      modifies `dispatched
      ensures dispatched == old(dispatched) + [frame]
    {
      dispatched := dispatched + [frame];
    }

    /** The buffer _sendFrame hands to the output. */
    static method BuildFrame(cmd: byte, sid: nat, data: seq<byte>) returns (buf: array<byte>)
      ensures fresh(buf) && buf[..] == Encode(WireFrame(VERSION, cmd, sid, data))
    {
      buf := new byte[HEADER_LEN + |data|](i => 0);
      buf[0], buf[1] := VERSION, cmd;
      buf[2], buf[3] := |data| % 256, |data| / 256 % 256;
      buf[4], buf[5] := sid % 256, sid / 256 % 256;
      buf[6], buf[7] := sid / TWO16 % 256, sid / TWO16 / 256 % 256;
      ghost var header := buf[..HEADER_LEN];
      assert header == [VERSION, cmd] + PutUint16(|data|) + PutUint32(sid);
      SetBytes(buf, data, HEADER_LEN);
      assert buf[..] == header + data;
    }
  }
}
