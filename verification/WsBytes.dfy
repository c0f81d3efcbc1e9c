/** A WebSocket frame byte by byte and bit by bit (RFC 6455 section 5.2), and what each
    opcode does: in numbers, for the decoder and for the encoder of
    extension/lib/ws-codec.js. */
module WsBytes {
  import opened Common
  import opened BigEndian
  import opened Bits
  import opened WsFrames
  import opened WsCodec

  /** Bit j of a number, the lowest first. */
  predicate Bit(x: nat, j: nat) {
    x / Pow2(j) % 2 == 1
  }

  lemma BitOfHalf(x: nat, j: nat)
    requires j > 0
    ensures Bit(x, j) <==> Bit(x / 2, j - 1)
  {
    DivDiv(x, 2, Pow2(j - 1));
  }

  lemma XorOfHalves(a: nat, b: nat, j: nat)
    requires j > 0
    ensures Bit(Xor(a, b), j) <==> Bit(Xor(a / 2, b / 2), j - 1)
  {
    XorBits(a, b);
    BitOfHalf(Xor(a, b), j);
  }

  lemma XorOfUnits(a: nat, b: nat)
    ensures Bit(Xor(a, b), 0) <==> Bit(a, 0) != Bit(b, 0)
  {
    XorBits(a, b);
    assert Pow2(0) == 1;
  }

  lemma {:induction false} XorIsBitwise(a: nat, b: nat, j: nat)
    ensures Bit(Xor(a, b), j) <==> Bit(a, j) != Bit(b, j)
    decreases j
  {
    if j == 0 {
      XorOfUnits(a, b);
    } else {
      BitOfHalf(a, j);
      BitOfHalf(b, j);
      XorOfHalves(a, b, j);
      XorIsBitwise(a / 2, b / 2, j - 1);
    }
  }

  // ---- The bytes of a frame

  /** How many bytes the length takes after the first two. */
  function LengthBytes(b: seq<byte>): nat
    requires |b| >= 2
  {
    if b[1] % 128 < 126 then 0 else if b[1] % 128 == 126 then 2 else 8
  }

  predicate HasLength(b: seq<byte>) {
    |b| >= 2 && |b| >= 2 + LengthBytes(b)
  }

  /** The length is beyond 32 bits. */
  predicate IsTooLong(b: seq<byte>)
    requires HasLength(b)
  {
    b[1] % 128 == 127 && (b[2] > 0 || b[3] > 0 || b[4] > 0 || b[5] > 0)
  }

  /** The length the frame says, the most significant byte first. */
  function Said(b: seq<byte>): int
    requires HasLength(b)
  {
    if b[1] % 128 < 126 then b[1] % 128
    else if b[1] % 128 == 126 then 256 * (b[2] as int) + b[3] as int
    else 16777216 * (b[6] as int) + 65536 * (b[7] as int) + 256 * (b[8] as int) + b[9] as int
  }

  /** Where the payload begins: after the key, if there is one. */
  function PayloadAt(b: seq<byte>): nat
    requires HasLength(b)
  {
    2 + LengthBytes(b) + if b[1] >= 128 then 4 else 0
  }

  /** Each bit of the one is the other's, turned where the key has a bit. */
  predicate IsTurned(x: byte, y: byte, key: byte) {
    forall j :: 0 <= j < 8 ==> (Bit(x, j) <==> Bit(y, j) != Bit(key, j))
  }

  /** Byte i of the payload as it is, or turned with byte i mod 4 of the key. */
  predicate PayloadIs(b: seq<byte>, payload: seq<byte>)
    requires HasLength(b) && PayloadAt(b) + |payload| <= |b|
  {
    forall i :: 0 <= i < |payload| ==>
      if b[1] >= 128 then IsTurned(payload[i], b[PayloadAt(b) + i], b[PayloadAt(b) - 4 + i % 4])
      else payload[i] == b[PayloadAt(b) + i]
  }

  /** The first `size` bytes are the frame f. */
  predicate IsFrame(b: seq<byte>, f: RawFrame, size: nat) {
    && HasLength(b) && !IsTooLong(b)
    && |f.payload| == Said(b) && size == PayloadAt(b) + |f.payload| <= |b|
    && (f.fin <==> b[0] >= 128) && f.opcode == b[0] % 16
    && PayloadIs(b, f.payload)
  }

  lemma MaskTurns(payload: seq<byte>, key: seq<byte>, i: nat)
    requires |key| == 4 && i < |payload|
    ensures IsTurned(Mask(payload, key)[i], payload[i], key[i % 4]) && IsTurned(payload[i], Mask(payload, key)[i], key[i % 4])
  {
    forall j | 0 <= j < 8
      ensures Bit(Mask(payload, key)[i], j) <==> Bit(payload[i], j) != Bit(key[i % 4], j)
    {
      XorIsBitwise(payload[i], key[i % 4], j);
    }
  }

  lemma LengthIsSaid(b: seq<byte>)
    requires |b| >= 2
    ensures match ReadLength(b)
      case NeedMore => !HasLength(b)
      case TooLong => HasLength(b) && IsTooLong(b)
      case Length(len, off) => HasLength(b) && !IsTooLong(b) && len == Said(b) && off == 2 + LengthBytes(b)
  {
  }

  /** What the decoder takes a buffer's head for: nothing yet, exactly while the length or
      the payload is not all there; an oversize length, exactly if it is beyond 32 bits; and
      otherwise the frame that the bytes are. */
  lemma ParseIsExact(b: seq<byte>)
    ensures Parse(b) == More <==> !HasLength(b) || (!IsTooLong(b) && |b| < PayloadAt(b) + Said(b))
    ensures Parse(b) == Oversize <==> HasLength(b) && IsTooLong(b)
    ensures Parse(b).Got? ==> IsFrame(b, Parse(b).frame, Parse(b).size)
  {
    if |b| >= 2 {
      LengthIsSaid(b);
      if Parse(b).Got? {
        var Length(len, off) := ReadLength(b);
        PayloadIsTold(b, len, off);
      }
    }
  }

  lemma PayloadIsTold(b: seq<byte>, len: nat, off: nat)
    requires |b| >= 2 && ReadLength(b) == Length(len, off) && Parse(b).Got?
    requires HasLength(b) && !IsTooLong(b) && len == Said(b) && off == 2 + LengthBytes(b)
    ensures IsFrame(b, Parse(b).frame, Parse(b).size)
  {
    GotParts(b, len, off);
    PartsAreThere(b, len, off);
    FrameIsTold(b, PartsAt(b, len, off).value);
  }

  lemma GotParts(b: seq<byte>, len: nat, off: nat)
    requires |b| >= 2 && ReadLength(b) == Length(len, off) && Parse(b).Got?
    ensures PartsAt(b, len, off).Some?
    ensures var p := PartsAt(b, len, off).value; Parse(b) == Got(FrameOf(p.head, p.key, p.payload), p.size)
  {
  }

  lemma FrameIsTold(b: seq<byte>, p: Parts)
    requires HasLength(b) && !IsTooLong(b)
    requires var at := PayloadAt(b);
      && p.size == at + Said(b) <= |b| && p.head == b[0] && p.payload == b[at..p.size]
      && p.key == if b[1] >= 128 then b[at - 4..at] else []
    ensures |p.key| == 0 || |p.key| == 4
    ensures IsFrame(b, FrameOf(p.head, p.key, p.payload), p.size)
  {
    if b[1] >= 128 {
      PayloadTurned(b, p.key, p.payload, PayloadAt(b));
    }
  }

  lemma PartsAreThere(b: seq<byte>, len: nat, off: nat)
    requires HasLength(b) && off == 2 + LengthBytes(b) && PartsAt(b, len, off).Some?
    ensures var at := PayloadAt(b);
      && at + len <= |b|
      && PartsAt(b, len, off) == Some(Parts(b[0], if b[1] >= 128 then b[at - 4..at] else [], b[at..at + len], at + len))
  {
    assert b[off..off] == [];
  }

  lemma PayloadTurned(b: seq<byte>, key: seq<byte>, payload: seq<byte>, at: nat)
    requires 4 <= at && at + |payload| <= |b|
    requires key == b[at - 4..at] && payload == b[at..at + |payload|]
    ensures forall i :: 0 <= i < |payload| ==> IsTurned(Mask(payload, key)[i], b[at + i], b[at - 4 + i % 4])
  {
    forall i | 0 <= i < |payload|
      ensures IsTurned(Mask(payload, key)[i], b[at + i], b[at - 4 + i % 4])
    {
      MaskTurns(payload, key, i);
      assert key[i % 4] == b[at - 4 + i % 4];
    }
  }

  // ---- What the encoder writes

  /** The bytes are one final frame with this opcode and payload, the length in its shortest
      form, masked with this key or not at all. */
  predicate IsEncoded(b: seq<byte>, opcode: nat, payload: seq<byte>, key: Option<seq<byte>>) {
    && IsFrame(b, RawFrame(true, opcode, payload), |b|)
    && b[0] == 128 + opcode
    && LengthBytes(b) == (if |payload| < 126 then 0 else if |payload| < 65536 then 2 else 8)
    && (b[1] >= 128 <==> key.Some?)
    && (key.Some? ==> b[PayloadAt(b) - 4..PayloadAt(b)] == key.value)
  }

  lemma WrittenIsEncoded(style: Style, opcode: nat, payload: seq<byte>)
    requires opcode < 16 && style.rsv == 0 && Fits(style, RawFrame(true, opcode, payload))
    requires style.form == if |payload| < 126 then Short else if |payload| < 65536 then Middle else Long
    ensures IsEncoded(Write(style, RawFrame(true, opcode, payload)), opcode, payload, style.key)
  {
    var f := RawFrame(true, opcode, payload);
    FrameRoundTrip(style, f);
    ParseIsExact(Write(style, f));
    HeaderBytes(style, f);
    BytesOfWritten(Header(style, f), Body(style, f));
  }

  lemma HeaderBytes(style: Style, f: RawFrame)
    requires f.fin && style.rsv == 0 && Fits(style, f)
    ensures var h := Header(style, f);
      && |h| == 2 + (match style.form case Short => 0 case Middle => 2 case Long => 8)
      && h[0] == 128 + f.opcode
      && h[1] == (if style.key.Some? then 128 else 0)
                 + (match style.form case Short => |f.payload| case Middle => 126 case Long => 127)
  {
  }

  lemma BytesOfWritten(h: seq<byte>, body: seq<byte>)
    ensures forall i :: 0 <= i < |h| ==> (h + body)[i] == h[i]
    ensures |body| >= 4 ==> (h + body)[|h|..|h| + 4] == body[..4]
  {
  }

  // ---- What a frame does

  /** Opcodes 1 and 2 begin a message, and tell it if the frame is final; 0 continues one,
      and closes if there is none; 8, 9 and 10 tell a close, a ping and a pong, whatever is
      being put together; any other closes. */
  lemma OpcodesInNumbers(frag: Fragment, f: RawFrame)
    ensures f.opcode == 1 || f.opcode == 2 ==>
      Handle(frag, f) == if f.fin then (frag, [Data(f.opcode, f.payload)]) else (Some((f.opcode, f.payload)), [])
    ensures f.opcode == 0 && frag.None? ==> Handle(frag, f) == (None, [Close([])])
    ensures f.opcode == 0 && frag.Some? ==>
      var whole := frag.value.1 + f.payload;
      Handle(frag, f) == if f.fin then (None, [Data(frag.value.0, whole)]) else (Some((frag.value.0, whole)), [])
    ensures f.opcode == 8 ==> Handle(frag, f) == (frag, [Close(f.payload)])
    ensures f.opcode == 9 ==> Handle(frag, f) == (frag, [Ping(f.payload)])
    ensures f.opcode == 10 ==> Handle(frag, f) == (frag, [Pong(f.payload)])
    ensures f.opcode !in {0, 1, 2, 8, 9, 10} ==> Handle(frag, f) == (frag, [Close([])])
  {
  }
}
