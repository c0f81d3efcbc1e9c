/** WebSocket frames on the wire (extension/lib/ws-codec.js; RFC 6455 section 5.2): what
    the decoder sees at the head of its buffer, and every way a peer may write a frame. */
module WsFrames {
  import opened Common
  import opened BigEndian
  import opened Bits
  import opened Framing

  const OP_CONT := 0x0
  const OP_TEXT := 0x1
  const OP_BINARY := 0x2
  const OP_CLOSE := 0x8
  const OP_PING := 0x9
  const OP_PONG := 0xa

  datatype RawFrame = RawFrame(fin: bool, opcode: nat, payload: seq<byte>)

  // ---- Decoding one frame

  /** The payload's length and where the length field ends; or that more bytes are needed
      to tell; or that the length does not fit 32 bits. */
  datatype Length = NeedMore | TooLong | Length(len: nat, off: nat)

  function ReadLength(b: seq<byte>): Length
    requires |b| >= 2
  {
    var len7 := b[1] % 128;
    if len7 < 126 then Length(len7, 2)
    else if len7 == 126 then
      if |b| < 4 then NeedMore else Length(Get16(b, 2), 4)
    else if |b| < 10 then NeedMore
    else if b[2] != 0 || b[3] != 0 || b[4] != 0 || b[5] != 0 then TooLong
    else Length(Get32(b, 6), 10)
  }

  datatype Parsed = More | Oversize | Got(frame: RawFrame, size: nat)

  function Parse(b: seq<byte>): Parsed {
    if |b| < 2 then More
    else
      match ReadLength(b)
      case NeedMore => More
      case TooLong => Oversize
      case Length(len, off) => ParsePayload(b, len, off)
  }

  /** The frame whose payload, or the key before it, is at off. */
  function ParsePayload(b: seq<byte>, len: nat, off: nat): Parsed
    requires |b| >= 2
  {
    match PartsAt(b, len, off)
    case None => More
    case Some(p) => Got(FrameOf(p.head, p.key, p.payload), p.size)
  }

  datatype Parts = Parts(head: byte, key: seq<byte>, payload: seq<byte>, size: nat)

  /** The frame's first byte, its key and payload as they are in the buffer, and its end. */
  function PartsAt(b: seq<byte>, len: nat, off: nat): (p: Option<Parts>)
    requires |b| >= 2
    ensures p.Some? ==> |p.value.key| == 0 || |p.value.key| == 4
  {
    var start := if b[1] >= 128 then off + 4 else off;
    if |b| < start || |b| < start + len then None
    else Some(Parts(b[0], b[off..start], b[start..start + len], start + len))
  }

  /** A key of no bytes is none. */
  function FrameOf(head: byte, key: seq<byte>, payload: seq<byte>): RawFrame
    requires |key| == 0 || |key| == 4
  {
    RawFrame(head >= 128, head % 16, if key == [] then payload else Mask(payload, key))
  }

  /** Every byte with the byte of the key whose turn it is. */
  function Mask(payload: seq<byte>, key: seq<byte>): (r: seq<byte>)
    requires |key| == 4
    ensures |r| == |payload|
  {
    seq(|payload|, i requires 0 <= i < |payload| => XorByte(payload[i], key[i % 4]))
  }

  lemma MaskTwice(payload: seq<byte>, key: seq<byte>)
    requires |key| == 4
    ensures Mask(Mask(payload, key), key) == payload
  {
    forall i | 0 <= i < |payload| ensures Mask(Mask(payload, key), key)[i] == payload[i] {
      XorUndo(payload[i], key[i % 4]);
    }
  }

  function Next(b: seq<byte>): Option<(RawFrame, nat)> {
    match Parse(b)
    case Got(frame, size) => Some((frame, size))
    case _ => None
  }

  lemma LengthSeesThrough(b: seq<byte>, x: seq<byte>)
    requires |b| >= 2 && ReadLength(b) != NeedMore
    ensures ReadLength(b + x) == ReadLength(b)
    ensures ReadLength(b).Length? ==> 2 <= ReadLength(b).off <= |b|
  {
  }

  lemma ParseSeesThrough(b: seq<byte>, x: seq<byte>)
    ensures Parse(b) != More ==> Parse(b + x) == Parse(b)
    ensures Parse(b).Got? ==> 0 < Parse(b).size <= |b|
  {
    if |b| >= 2 && ReadLength(b) != NeedMore {
      LengthSeesThrough(b, x);
      if Parse(b).Got? {
        var Length(len, off) := ReadLength(b);
        PayloadSeesThrough(b, x, len, off);
      }
    }
  }

  lemma PayloadSeesThrough(b: seq<byte>, x: seq<byte>, len: nat, off: nat)
    requires |b| >= 2 && ParsePayload(b, len, off).Got?
    ensures ParsePayload(b + x, len, off) == ParsePayload(b, len, off)
  {
    PartsSeeThrough(b, x, len, off);
  }

  lemma PartsSeeThrough(b: seq<byte>, x: seq<byte>, len: nat, off: nat)
    requires |b| >= 2 && PartsAt(b, len, off).Some?
    ensures PartsAt(b + x, len, off) == PartsAt(b, len, off)
  {
    var start := if b[1] >= 128 then off + 4 else off;
    SliceSeesThrough(b, x, off, start);
    SliceSeesThrough(b, x, start, start + len);
  }

  lemma SliceSeesThrough(b: seq<byte>, x: seq<byte>, from: nat, to: nat)
    requires from <= to <= |b|
    ensures (b + x)[from..to] == b[from..to]
  {
  }

  lemma NextIsIncremental()
    ensures Incremental(Next)
  {
    forall b, x ensures IncrementalAt(Next, b, x) {
      ParseSeesThrough(b, x);
    }
  }

  // ---- Writing one frame

  /** How a peer writes a frame: any reserved bits, any of the three length forms that
      fits, and a masking key or none. */
  datatype Style = Style(rsv: nat, form: Form, key: Option<seq<byte>>)
  datatype Form = Short | Middle | Long

  predicate Fits(style: Style, f: RawFrame) {
    && style.rsv < 8 && f.opcode < 16
    && (style.key.Some? ==> |style.key.value| == 4)
    && match style.form
       case Short => |f.payload| < 126
       case Middle => |f.payload| < 0x1_0000
       case Long => |f.payload| < TWO32
  }

  function LengthField(form: Form, masked: bool, len: nat): seq<byte>
    requires form.Short? ==> len < 126
  {
    var bit := if masked then 128 else 0;
    match form
    case Short => [bit + len]
    case Middle => [bit + 126] + Put16(len)
    case Long => [bit + 127, 0, 0, 0, 0] + Put32(len)
  }

  function Write(style: Style, f: RawFrame): seq<byte>
    requires Fits(style, f)
  {
    Header(style, f) + Body(style, f)
  }

  function Header(style: Style, f: RawFrame): seq<byte>
    requires Fits(style, f)
  {
    [(if f.fin then 128 else 0) + 16 * style.rsv + f.opcode] + LengthField(style.form, style.key.Some?, |f.payload|)
  }

  function Body(style: Style, f: RawFrame): seq<byte>
    requires Fits(style, f)
  {
    match style.key
    case None => f.payload
    case Some(key) => key + Mask(f.payload, key)
  }

  lemma LengthIsRead(style: Style, f: RawFrame, rest: seq<byte>)
    requires Fits(style, f)
    ensures ReadLength(Header(style, f) + rest) == Length(|f.payload|, |Header(style, f)|)
    ensures (Header(style, f) + rest)[1] >= 128 <==> style.key.Some?
  {
    var b, len := Header(style, f) + rest, |f.payload|;
    match style.form
    case Short =>
    case Middle =>
      assert b[2..4] == Put16(len);
      RoundTrip16(len, b, 2);
    case Long =>
      assert b[6..10] == Put32(len);
      RoundTrip32(len, b, 6);
  }

  /** However a frame is written, it is read back: whether it is final, its opcode, and
      its payload unmasked. */
  lemma FrameRoundTrip(style: Style, f: RawFrame)
    requires Fits(style, f)
    ensures Reads(Next, Write(style, f), f)
  {
    var h, b := Header(style, f), Write(style, f);
    LengthIsRead(style, f, Body(style, f));
    assert b[0] == h[0];
    PartsAreRead(style, f, h);
    FrameIsRead(style, f, h[0]);
  }

  /** The key and the payload as they are written. */
  function KeyOf(style: Style): seq<byte> {
    if style.key.Some? then style.key.value else []
  }

  function Masked(style: Style, f: RawFrame): (p: seq<byte>)
    requires style.key.Some? ==> |style.key.value| == 4
    ensures |p| == |f.payload|
  {
    if style.key.Some? then Mask(f.payload, style.key.value) else f.payload
  }

  lemma PartsAreRead(style: Style, f: RawFrame, h: seq<byte>)
    requires Fits(style, f) && |h| >= 2 && (h[1] >= 128 <==> style.key.Some?)
    ensures var b := h + Body(style, f);
      PartsAt(b, |f.payload|, |h|) == Some(Parts(h[0], KeyOf(style), Masked(style, f), |b|))
  {
    var key, p := KeyOf(style), Masked(style, f);
    var b := h + Body(style, f);
    assert Body(style, f) == key + p;
    assert b[0] == h[0] && b[1] == h[1];
    assert b[|h|..|h| + |key|] == key;
    assert b[|h| + |key|..|h| + |key| + |p|] == p;
  }

  lemma FrameIsRead(style: Style, f: RawFrame, head: byte)
    requires Fits(style, f) && head == Header(style, f)[0]
    ensures FrameOf(head, KeyOf(style), Masked(style, f)) == f
  {
    FirstByte(style, f);
    if style.key.Some? {
      MaskTwice(f.payload, style.key.value);
    }
  }

  lemma FirstByte(style: Style, f: RawFrame)
    requires Fits(style, f)
    ensures var b0 := (if f.fin then 128 else 0) + 16 * style.rsv + f.opcode;
      (b0 >= 128 <==> f.fin) && b0 % 16 == f.opcode
  {
    var b0 := (if f.fin then 128 else 0) + 16 * style.rsv + f.opcode;
    DivUnique(b0, 16, (if f.fin then 8 else 0) + style.rsv, f.opcode);
  }
}
