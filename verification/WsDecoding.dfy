/** The decoder's buffer over a whole connection, and the decoder and encoder as
    extension/lib/ws-codec.js has them. */
module WsDecoding {
  import opened Common
  import opened BigEndian
  import opened Bits
  import opened Dropping
  import opened Framing
  import opened WsFrames
  import opened WsCodec
  import opened WsBytes

  type WsSight = Sight<RawFrame>

  /** A length beyond 32 bits. */
  predicate TooLongAhead(b: seq<byte>) {
    Parse(b) == Oversize
  }

  const OVERSIZE_HEADER := 10

  lemma ParserIsSound()
    ensures Incremental(Next) && Local(Next) && Alarm(Next, TooLongAhead, OVERSIZE_HEADER)
  {
    NextIsIncremental();
    forall b, k | Next(b).Some? && 0 < Next(b).value.1 <= k <= |b| ensures Next(b[..k]) == Next(b) {
      FrameIsInPart(b, k);
    }
    forall b, c | TooLongAhead(b) && |c| >= 10 && c[..10] == b[..10] ensures TooLongAhead(c) {
      assert forall i :: 0 <= i < 10 ==> c[i] == c[..10][i] == b[i];
    }
  }

  lemma FrameIsInPart(b: seq<byte>, k: nat)
    requires Next(b).Some? && 0 < Next(b).value.1 <= k <= |b|
    ensures Next(b[..k]) == Next(b)
  {
    var Length(len, off) := ReadLength(b);
    LengthIsInPart(b, k);
    PayloadSeesThrough(b[..k], b[k..], len, off);
    assert b[..k] + b[k..] == b;
  }

  lemma LengthIsInPart(b: seq<byte>, k: nat)
    requires 2 <= k <= |b| && ReadLength(b).Length? && ReadLength(b).off <= k
    ensures ReadLength(b[..k]) == ReadLength(b)
  {
  }

  function HandleSight(frag: Fragment, s: WsSight): (Fragment, seq<Event>) {
    match s
    case Saw(f) => Handle(frag, f)
    case Dropped => (frag, [Close([])])
  }

  function Told(frag: Fragment, ss: seq<WsSight>): (Fragment, seq<Event>) {
    if ss == [] then (frag, [])
    else
      var (frag', es) := Told(frag, ss[..|ss| - 1]);
      var (frag'', more) := HandleSight(frag', ss[|ss| - 1]);
      (frag'', es + more)
  }

  lemma ToldOneMore(frag: Fragment, ss: seq<WsSight>, s: WsSight)
    ensures var (frag', es) := Told(frag, ss);
      var (frag'', more) := HandleSight(frag', s);
      Told(frag, ss + [s]) == (frag'', es + more)
  {
    assert (ss + [s])[..|ss|] == ss;
  }

  type Looked = (seq<WsSight>, seq<byte>)

  /** What is seen in all, when so much was seen before. */
  function After(before: seq<WsSight>, ahead: Looked): Looked {
    (before + ahead.0, ahead.1)
  }

  lemma AfterNothing(ahead: Looked)
    ensures After([], ahead) == ahead
  {
    assert [] + ahead.0 == ahead.0;
  }

  lemma NothingAfter(before: seq<WsSight>, b: seq<byte>)
    ensures After(before, ([], b)) == (before, b)
  {
    assert before + [] == before;
  }

  lemma AfterOneMore(before: seq<WsSight>, s: WsSight, ahead: Looked)
    ensures After(before, After([s], ahead)) == After(before + [s], ahead)
  {
    assert before + ([s] + ahead.0) == (before + [s]) + ahead.0;
  }

  lemma ParseLooks(b: seq<byte>)
    requires Incremental(Next) && Alarm(Next, TooLongAhead, OVERSIZE_HEADER)
    ensures match Parse(b)
      case More => Look(Next, TooLongAhead, b) == ([], b)
      case Oversize => b != [] && Look(Next, TooLongAhead, b) == After([Dropped], Look(Next, TooLongAhead, []))
      case Got(frame, size) =>
        0 < size <= |b| && Look(Next, TooLongAhead, b) == After([Saw(frame)], Look(Next, TooLongAhead, b[size..]))
  {
    LookStep(Next, TooLongAhead, OVERSIZE_HEADER, b);
    LookEmpty(Next, TooLongAhead, OVERSIZE_HEADER);
    NothingAfter([Dropped], []);
  }

  lemma {:induction false} ToldFrames(frag: Fragment, fs: seq<RawFrame>)
    ensures Told(frag, SawAll(fs)) == HandleAll(frag, fs)
  {
    if fs != [] {
      ToldFrames(frag, fs[..|fs| - 1]);
      assert SawAll(fs)[..|fs| - 1] == SawAll(fs[..|fs| - 1]);
    }
  }

  // ---- When the split of the bytes does not matter

  /** Exactly the streams that hold no length beyond 32 bits, or end with its header, are
      decoded alike however they are split. */
  lemma SplitsDoNotMatter(b: seq<byte>)
    ensures Incremental(Next)
    ensures Clean(Next, TooLongAhead, OVERSIZE_HEADER, b)
       <==> forall chunks :: Concat(chunks) == b ==> LookAll(Next, TooLongAhead, chunks) == Look(Next, TooLongAhead, b)
  {
    ParserIsSound();
    SplitIndependence(Next, TooLongAhead, OVERSIZE_HEADER, b);
  }

  /** Whatever messages a peer sends, whole or in fragments, with control messages between
      the fragments; however it writes each frame, masked or not; and however the bytes
      are split: the decoder tells exactly those messages, in order. */
  lemma MessagesArrive(items: seq<Item>, styles: seq<Style>, wires: seq<seq<byte>>, chunks: seq<seq<byte>>)
    requires forall i :: 0 <= i < |items| ==> WellFormed(items[i])
    requires var fs := AllFrames(items);
      && |styles| == |wires| == |fs|
      && forall i :: 0 <= i < |fs| ==> Fits(styles[i], fs[i]) && wires[i] == Write(styles[i], fs[i])
    requires Concat(chunks) == Concat(wires)
    ensures Incremental(Next)
    ensures var (seen, left) := LookAll(Next, TooLongAhead, chunks);
      left == [] && Told(None, seen) == (None, AllEvents(items))
  {
    var fs := AllFrames(items);
    ParserIsSound();
    forall i | 0 <= i < |fs| ensures Reads(Next, wires[i], fs[i]) {
      FrameRoundTrip(styles[i], fs[i]);
    }
    DrainFrames(Next, wires, fs);
    CleanStreamsAreSplitAnyhow(Next, TooLongAhead, OVERSIZE_HEADER, chunks);
    ToldFrames(None, fs);
    ItemsAreTold(items);
  }

  // ---- The program

  class WsDecoder {
    var buf: seq<byte>
    var frag: Fragment

    ghost function Ahead(): (seq<WsSight>, seq<byte>)
      reads this
      requires Incremental(Next)
    {
      Look(Next, TooLongAhead, buf)
    }

    constructor ()
      ensures buf == [] && frag == None
    {
      buf, frag := [], None;
    }

    method Push(data: seq<byte>)
      modifies `buf
      ensures buf == old(buf) + data
    {
      if |buf| == 0 {
        buf := data;
      } else {
        buf := buf + data;
      }
    }

    /** Everything at the head of the buffer is taken and told. */
    method ParseAll() returns (events: seq<Event>, ghost seen: seq<WsSight>)
      modifies this
      ensures Incremental(Next)
      ensures old(Ahead()) == (seen, buf)
      ensures (frag, events) == Told(old(frag), seen)
    {
      ParserIsSound();
      events, seen := [], [];
      var more := true;
      AfterNothing(Ahead());
      while more
        invariant (frag, events) == Told(old(frag), seen)
        invariant old(Ahead()) == After(seen, Ahead())
        invariant !more ==> Ahead() == ([], buf)
        decreases more, |buf|
      {
        ghost var sight;
        var told;
        more, told, sight := ParseOne();
        if more {
          ToldOneMore(old(frag), seen, sight);
          AfterOneMore(seen, sight, Ahead());
          seen := seen + [sight];
          events := events + told;
        }
      }
      NothingAfter(seen, buf);
    }

    method ParseOne() returns (more: bool, told: seq<Event>, ghost sight: WsSight)
      modifies this
      ensures Incremental(Next)
      ensures !more ==> buf == old(buf) && frag == old(frag) && Ahead() == ([], buf)
      ensures more ==> |buf| < |old(buf)| && old(Ahead()) == After([sight], Ahead())
      ensures more ==> (frag, told) == HandleSight(old(frag), sight)
      ensures more && sight.Saw? ==> IsFrame(old(buf), sight.frame, |old(buf)| - |buf|)
      ensures HasLength(old(buf)) && IsTooLong(old(buf)) ==>
        more && buf == [] && frag == old(frag) && told == [Close([])]
    {
      ParserIsSound();
      told, sight := [], Dropped;
      ParseLooks(buf);
      ParseIsExact(buf);
      var parsed := Parse(buf);
      more := parsed != More;
      if parsed.Oversize? {
        buf, told := [], [Close([])];
      } else if parsed.Got? {
        sight := Saw(parsed.frame);
        buf := buf[parsed.size..];
        told := HandleFrame(parsed.frame);
      }
    }

    method HandleFrame(f: RawFrame) returns (told: seq<Event>)
      modifies `frag
      ensures (frag, told) == Handle(old(frag), f)
    {
      told := [];
      if f.opcode == OP_TEXT || f.opcode == OP_BINARY {
        if f.fin {
          return [Data(f.opcode, f.payload)];
        }
        frag := Some((f.opcode, f.payload));
      } else if f.opcode == OP_CONT {
        if frag.None? {
          return [Close([])];
        }
        var (op, sofar) := frag.value;
        var merged := sofar + f.payload;
        if f.fin {
          frag := None;
          return [Data(op, merged)];
        }
        frag := Some((op, merged));
      } else if f.opcode == OP_CLOSE {
        return [Close(f.payload)];
      } else if f.opcode == OP_PING {
        return [Ping(f.payload)];
      } else if f.opcode == OP_PONG {
        return [Pong(f.payload)];
      } else {
        return [Close([])];
      }
    }
  }

  /** The style in which the encoder writes: no reserved bits, the shortest length form. */
  function EncoderStyle(len: nat, key: Option<seq<byte>>): Style {
    Style(0, if len < 126 then Short else if len < 0x1_0000 then Middle else Long, key)
  }

  /** encodeWsFrame; the key is the four random bytes, when the frame is to be masked. */
  method EncodeWsFrame(opcode: nat, payload: seq<byte>, key: Option<seq<byte>>) returns (out: array<byte>)
    requires opcode < 16 && |payload| < TWO32
    requires key.Some? ==> |key.value| == 4
    ensures fresh(out)
    ensures out[..] == Write(EncoderStyle(|payload|, key), RawFrame(true, opcode, payload))
    ensures IsEncoded(out[..], opcode, payload, key)
  {
    WrittenIsEncoded(EncoderStyle(|payload|, key), opcode, payload);
    var header := EncodeHeader(opcode, |payload|, key.Some?);
    ghost var f := RawFrame(true, opcode, payload);
    assert header == Header(EncoderStyle(|payload|, key), f);
    if key.None? {
      out := Join(header, payload);
    } else {
      var masked := MaskBytes(payload, key.value);
      out := Join(header, key.value + masked);
    }
  }

  method EncodeHeader(opcode: nat, len: nat, masked: bool) returns (header: seq<byte>)
    requires opcode < 16 && len < TWO32
    ensures header == [128 + opcode] + LengthField(EncoderStyle(len, None).form, masked, len)
  {
    var bit := if masked then 128 else 0;
    if len < 126 {
      header := [128 + opcode, bit + len];
    } else if len < 65536 {
      header := [128 + opcode, bit + 126, len / 256 % 256, len % 256];
    } else {
      header := [128 + opcode, bit + 127, 0, 0, 0, 0,
                 len / 65536 / 256 % 256, len / 65536 % 256, len / 256 % 256, len % 256];
    }
  }

  method Join(a: seq<byte>, b: seq<byte>) returns (out: array<byte>)
    ensures fresh(out) && out[..] == a + b
  {
    out := new byte[|a| + |b|](i => 0);
    SetBytes(out, a, 0);
    SetBytes(out, b, |a|);
  }

  method MaskBytes(payload: seq<byte>, key: seq<byte>) returns (masked: seq<byte>)
    requires |key| == 4
    ensures masked == Mask(payload, key)
  {
    masked := [];
    var i := 0;
    while i < |payload|
      invariant 0 <= i == |masked| <= |payload|
      invariant masked == Mask(payload, key)[..i]
    {
      masked := masked + [XorByte(payload[i], key[i % 4])];
      i := i + 1;
    }
  }

  /** Decoding what the encoder wrote gives back opcode and payload, in every length form,
      masked or not, whatever follows. */
  lemma DecodeEncoded(opcode: nat, payload: seq<byte>, key: Option<seq<byte>>, rest: seq<byte>)
    requires opcode < 16 && |payload| < TWO32
    requires key.Some? ==> |key.value| == 4
    ensures var f := RawFrame(true, opcode, payload);
      var wire := Write(EncoderStyle(|payload|, key), f);
      Parse(wire + rest) == Got(f, |wire|)
  {
    var f := RawFrame(true, opcode, payload);
    var wire := Write(EncoderStyle(|payload|, key), f);
    FrameRoundTrip(EncoderStyle(|payload|, key), f);
    ParseSeesThrough(wire, rest);
  }
}
