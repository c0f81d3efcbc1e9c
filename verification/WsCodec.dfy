/** The WebSocket decoder and encoder of extension/lib/ws-codec.js: frames become events,
    fragmented messages are put together, however the bytes arrive. */
module WsCodec {
  import opened Common
  import opened BigEndian
  import opened Framing
  import opened WsFrames

  datatype Event =
    | Data(opcode: nat, payload: seq<byte>)
    | Close(payload: seq<byte>)
    | Ping(payload: seq<byte>)
    | Pong(payload: seq<byte>)

  /** The message being put together (_frag). */
  type Fragment = Option<(nat, seq<byte>)>

  function Handle(frag: Fragment, f: RawFrame): (Fragment, seq<Event>) {
    if f.opcode == OP_TEXT || f.opcode == OP_BINARY then
      if f.fin then (frag, [Data(f.opcode, f.payload)]) else (Some((f.opcode, f.payload)), [])
    else if f.opcode == OP_CONT then
      match frag
      case None => (None, [Close([])])
      case Some((op, sofar)) =>
        if f.fin then (None, [Data(op, sofar + f.payload)]) else (Some((op, sofar + f.payload)), [])
    else if f.opcode == OP_CLOSE then (frag, [Close(f.payload)])
    else if f.opcode == OP_PING then (frag, [Ping(f.payload)])
    else if f.opcode == OP_PONG then (frag, [Pong(f.payload)])
    else (frag, [Close([])])
  }

  function HandleAll(frag: Fragment, fs: seq<RawFrame>): (Fragment, seq<Event>) {
    if fs == [] then (frag, [])
    else
      var (frag', es) := HandleAll(frag, fs[..|fs| - 1]);
      var (frag'', more) := Handle(frag', fs[|fs| - 1]);
      (frag'', es + more)
  }

  lemma {:induction false} HandleAllAdd(frag: Fragment, a: seq<RawFrame>, b: seq<RawFrame>)
    ensures var (mid, es) := HandleAll(frag, a);
      HandleAll(frag, a + b) == (HandleAll(mid, b).0, es + HandleAll(mid, b).1)
  {
    var (mid, es) := HandleAll(frag, a);
    if b == [] {
      assert a + b == a && es + [] == es;
    } else {
      var n := |b| - 1;
      HandleAllAdd(frag, a, b[..n]);
      assert (a + b)[..|a + b| - 1] == a + b[..n];
      var (frag', more) := HandleAll(mid, b[..n]);
      assert es + (more + Handle(frag', b[n]).1) == (es + more) + Handle(frag', b[n]).1;
    }
  }

  // ---- Messages and the frames that carry them

  datatype Control = Control(opcode: nat, payload: seq<byte>)

  /** A part of a message, after the control frames that were put in before it. */
  datatype Part = Part(controls: seq<Control>, payload: seq<byte>)

  datatype Item = Alone(control: Control) | Message(opcode: nat, first: seq<byte>, rest: seq<Part>)

  predicate WellFormedControl(c: Control) {
    c.opcode == OP_CLOSE || c.opcode == OP_PING || c.opcode == OP_PONG
  }

  predicate WellFormedPart(p: Part) {
    forall i :: 0 <= i < |p.controls| ==> WellFormedControl(p.controls[i])
  }

  predicate WellFormed(item: Item) {
    match item
    case Alone(c) => WellFormedControl(c)
    case Message(opcode, _, rest) =>
      && (opcode == OP_TEXT || opcode == OP_BINARY)
      && forall i :: 0 <= i < |rest| ==> WellFormedPart(rest[i])
  }

  function ControlFrames(cs: seq<Control>): seq<RawFrame> {
    if cs == [] then []
    else ControlFrames(cs[..|cs| - 1]) + [RawFrame(true, cs[|cs| - 1].opcode, cs[|cs| - 1].payload)]
  }

  /** The continuation frames; the last of them is final. */
  function PartFrames(rest: seq<Part>): seq<RawFrame> {
    if rest == [] then []
    else
      ControlFrames(rest[0].controls)
      + [RawFrame(|rest| == 1, OP_CONT, rest[0].payload)]
      + PartFrames(rest[1..])
  }

  function FramesOf(item: Item): seq<RawFrame> {
    match item
    case Alone(c) => ControlFrames([c])
    case Message(opcode, first, rest) => [RawFrame(rest == [], opcode, first)] + PartFrames(rest)
  }

  function AllFrames(items: seq<Item>): seq<RawFrame> {
    if items == [] then [] else AllFrames(items[..|items| - 1]) + FramesOf(items[|items| - 1])
  }

  // ---- What the receiver should be told

  function ControlEvents(cs: seq<Control>): seq<Event> {
    if cs == [] then []
    else
      var c := cs[|cs| - 1];
      ControlEvents(cs[..|cs| - 1])
      + [if c.opcode == OP_CLOSE then Close(c.payload) else if c.opcode == OP_PING then Ping(c.payload) else Pong(c.payload)]
  }

  function PartControls(rest: seq<Part>): seq<Event> {
    if rest == [] then [] else ControlEvents(rest[0].controls) + PartControls(rest[1..])
  }

  function PartPayloads(rest: seq<Part>): seq<byte> {
    if rest == [] then [] else rest[0].payload + PartPayloads(rest[1..])
  }

  /** The controls put into a message come first, then the message, whole. */
  function EventsOf(item: Item): seq<Event> {
    match item
    case Alone(c) => ControlEvents([c])
    case Message(opcode, first, rest) => PartControls(rest) + [Data(opcode, first + PartPayloads(rest))]
  }

  function AllEvents(items: seq<Item>): seq<Event> {
    if items == [] then [] else AllEvents(items[..|items| - 1]) + EventsOf(items[|items| - 1])
  }

  lemma HandleOne(frag: Fragment, f: RawFrame)
    ensures HandleAll(frag, [f]) == Handle(frag, f)
  {
    var none: seq<RawFrame> := [];
    assert [f][..0] == none;
    assert HandleAll(frag, none) == (frag, []);
    assert [] + Handle(frag, f).1 == Handle(frag, f).1;
  }

  lemma {:induction false} ControlsPassThrough(frag: Fragment, cs: seq<Control>)
    requires forall i :: 0 <= i < |cs| ==> WellFormedControl(cs[i])
    ensures HandleAll(frag, ControlFrames(cs)) == (frag, ControlEvents(cs))
  {
    if cs != [] {
      var n := |cs| - 1;
      ControlsPassThrough(frag, cs[..n]);
      var f := RawFrame(true, cs[n].opcode, cs[n].payload);
      HandleAllAdd(frag, ControlFrames(cs[..n]), [f]);
      HandleOne(frag, f);
    }
  }

  lemma PartIsHandled(op: nat, sofar: seq<byte>, part: Part, last: bool)
    requires WellFormedPart(part)
    ensures var joined := sofar + part.payload;
      HandleAll(Some((op, sofar)), ControlFrames(part.controls) + [RawFrame(last, OP_CONT, part.payload)])
      == if last then (None, ControlEvents(part.controls) + [Data(op, joined)])
         else (Some((op, joined)), ControlEvents(part.controls))
  {
    var f := RawFrame(last, OP_CONT, part.payload);
    ControlsPassThrough(Some((op, sofar)), part.controls);
    HandleAllAdd(Some((op, sofar)), ControlFrames(part.controls), [f]);
    HandleOne(Some((op, sofar)), f);
    assert ControlEvents(part.controls) + [] == ControlEvents(part.controls);
  }

  lemma {:induction false} PartsAreJoined(op: nat, sofar: seq<byte>, rest: seq<Part>)
    requires rest != [] && forall i :: 0 <= i < |rest| ==> WellFormedPart(rest[i])
    ensures HandleAll(Some((op, sofar)), PartFrames(rest))
         == (None, PartControls(rest) + [Data(op, sofar + PartPayloads(rest))])
    decreases |rest|
  {
    var part, more := rest[0], rest[1..];
    var joined := sofar + part.payload;
    var fs := ControlFrames(part.controls) + [RawFrame(|rest| == 1, OP_CONT, part.payload)];
    assert WellFormedPart(part);
    PartIsHandled(op, sofar, part, |rest| == 1);
    HandleAllAdd(Some((op, sofar)), fs, PartFrames(more));
    assert joined + PartPayloads(more) == sofar + PartPayloads(rest);
    if |rest| == 1 {
      NothingMore(ControlEvents(part.controls), Data(op, joined));
      assert joined + [] == joined;
    } else {
      PartsAreJoined(op, joined, more);
      Regroup(ControlEvents(part.controls), PartControls(more), Data(op, sofar + PartPayloads(rest)));
    }
  }

  lemma NothingMore(a: seq<Event>, e: Event)
    ensures (a + [e]) + [] == (a + []) + [e]
  {
  }

  lemma Regroup(a: seq<Event>, b: seq<Event>, e: Event)
    ensures a + (b + [e]) == (a + b) + [e]
  {
  }

  lemma ItemIsToldOnce(item: Item)
    requires WellFormed(item)
    ensures HandleAll(None, FramesOf(item)) == (None, EventsOf(item))
  {
    match item
    case Alone(c) =>
      ControlsPassThrough(None, [c]);
    case Message(opcode, first, rest) =>
      var f := RawFrame(rest == [], opcode, first);
      HandleAllAdd(None, [f], PartFrames(rest));
      HandleOne(None, f);
      if rest == [] {
        assert first + [] == first;
      } else {
        PartsAreJoined(opcode, first, rest);
        assert [] + EventsOf(item) == EventsOf(item);
      }
  }

  /** The frames of any sequence of messages and control messages are told as just those,
      in order. */
  lemma {:induction false} ItemsAreTold(items: seq<Item>)
    requires forall i :: 0 <= i < |items| ==> WellFormed(items[i])
    ensures HandleAll(None, AllFrames(items)) == (None, AllEvents(items))
  {
    if items != [] {
      var n := |items| - 1;
      ItemsAreTold(items[..n]);
      HandleAllAdd(None, AllFrames(items[..n]), FramesOf(items[n]));
      ItemIsToldOnce(items[n]);
    }
  }
}
