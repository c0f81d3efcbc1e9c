/** The control stream between hub and spoke (tunnel/ctrl.go): length-prefixed JSON
    messages, with the word that opens a session allowed before any of them. */
module Ctrl {
  import opened Common
  import opened BigEndian

  const MAX_FRAME := 65536
  const VERSION := 1
  const MAGIC: seq<byte> := [0x57, 0x49, 0x53, 0x50]   // "WISP"

  /** What the first look at a body says: its type and version. */
  datatype Head = Head(kind: Kind, v: int)
  datatype Kind = NetviewKind | ClaimKind | OtherKind

  /** JSON, as far as this code uses it: the head of a body, the body as either message,
      and a message as a body. */
  datatype Json<!N, !C> = Json(
    head: seq<byte> -> Option<Head>,
    netview: seq<byte> -> Option<N>,
    claim: seq<byte> -> Option<C>,
    marshal: Message<N, C> -> seq<byte>)

  datatype Message<N, C> = Netview(netview: N) | Claim(claim: C)

  /** A message; or a refusal that leaves the stream readable; or one that does not; or
      the end of the stream. */
  datatype Result<N, C> = Got(message: Message<N, C>) | Refused | Desync | Ended

  function Judge<N, C>(json: Json<N, C>, body: seq<byte>): Result<N, C> {
    match json.head(body)
    case None => Refused
    case Some(head) =>
      if head.v != VERSION then Refused
      else
        match head.kind
        case NetviewKind => (match json.netview(body) case None => Refused case Some(m) => Got(Netview(m)))
        case ClaimKind => (match json.claim(body) case None => Refused case Some(m) => Got(Claim(m)))
        case OtherKind => Refused
  }

  /** The first four bytes that are not the magic word, and what follows them. */
  function SkipMagic(left: seq<byte>): (r: Option<(seq<byte>, seq<byte>)>)
    ensures r.Some? ==> |r.value.0| == 4 && |r.value.1| <= |left| - 4
    decreases |left|
  {
    if |left| < 4 then None
    else if left[..4] == MAGIC then SkipMagic(left[4..])
    else Some((left[..4], left[4..]))
  }

  /** What one read gives, and what it leaves. */
  function Read<N, C>(json: Json<N, C>, left: seq<byte>): (Result<N, C>, seq<byte>) {
    match SkipMagic(left)
    case None => (Ended, [])
    case Some((hdr, rest)) =>
      var n := Get32(hdr, 0);
      if n > MAX_FRAME then (Desync, rest)
      else if |rest| < n then (Ended, [])
      else (Judge(json, rest[..n]), rest[n..])
  }

  /** Reading until the stream ends or is lost, refusals passed over. */
  function ReadAll<N, C>(json: Json<N, C>, left: seq<byte>): seq<Result<N, C>>
    decreases |left|
  {
    var (r, rest) := Read(json, left);
    if r.Ended? then []
    else if r.Desync? then [r]
    else if |rest| < |left| then [r] + ReadAll(json, rest)
    else []
  }

  /** The bytes of a message with this body. */
  function Frame(body: seq<byte>): seq<byte> {
    Put32(|body|) + body
  }

  // ---- What a peer puts on the stream

  datatype Item = Magic | Body(body: seq<byte>)

  predicate Legal(item: Item) {
    item.Body? ==> |item.body| <= MAX_FRAME
  }

  function Wire(items: seq<Item>): seq<byte> {
    if items == [] then []
    else (if items[0].Magic? then MAGIC else Frame(items[0].body)) + Wire(items[1..])
  }

  function Judged<N, C>(json: Json<N, C>, items: seq<Item>): seq<Result<N, C>> {
    if items == [] then []
    else (if items[0].Magic? then [] else [Judge(json, items[0].body)]) + Judged(json, items[1..])
  }

  /** The four bytes of the magic word are those of one number only. */
  lemma MagicNumber(n: nat)
    requires n < TWO32 && Put32(n) == MAGIC
    ensures n == 0x57495350
  {
    RoundTrip32(n, MAGIC, 0);
  }

  /** No length that a message may have reads as the magic word. */
  lemma NoLegalLengthIsTheMagic(n: nat)
    requires n <= MAX_FRAME
    ensures Put32(n) != MAGIC
  {
    if Put32(n) == MAGIC {
      MagicNumber(n);
    }
  }

  lemma FrameIsRead<N, C>(json: Json<N, C>, body: seq<byte>, rest: seq<byte>)
    requires |body| <= MAX_FRAME
    ensures Read(json, Frame(body) + rest) == (Judge(json, body), rest)
  {
    var b := Frame(body) + rest;
    var after := b[4..];
    assert b[..4] == Put32(|body|) && after == body + rest;
    NoLegalLengthIsTheMagic(|body|);
    RoundTrip32(|body|, b[..4], 0);
    assert b[..4][0..4] == b[..4];
    assert after[..|body|] == body && after[|body|..] == rest;
  }

  lemma MagicIsSkipped<N, C>(json: Json<N, C>, rest: seq<byte>)
    ensures Read(json, MAGIC + rest) == Read(json, rest)
    ensures ReadAll(json, MAGIC + rest) == ReadAll(json, rest)
  {
    assert (MAGIC + rest)[..4] == MAGIC && (MAGIC + rest)[4..] == rest;
  }

  /** Whatever bodies of legal size are written, with the magic word before any of them,
      once or more often: each is judged, once and in order, and a refused one costs
      nothing but itself. */
  lemma {:induction false} FramesAreReadInOrder<N, C>(json: Json<N, C>, items: seq<Item>)
    requires forall i :: 0 <= i < |items| ==> Legal(items[i])
    ensures ReadAll(json, Wire(items)) == Judged(json, items)
  {
    if items != [] {
      var rest := Wire(items[1..]);
      FramesAreReadInOrder(json, items[1..]);
      assert Legal(items[0]);
      match items[0]
      case Magic =>
        MagicIsSkipped(json, rest);
        assert [] + Judged(json, items[1..]) == Judged(json, items[1..]);
      case Body(body) =>
        FrameIsRead(json, body, rest);
    }
  }

  // ---- Written messages

  /** Marshalling is undone by unmarshalling, and says type and version in the head. */
  ghost predicate Faithful<N(!new), C(!new)>(json: Json<N, C>) {
    forall m: Message<N, C> :: Judge(json, json.marshal(m)) == Got(m)
  }

  datatype Sent<N, C> = Opening | Sending(message: Message<N, C>)

  /** A message too large is not written. */
  predicate Written<N, C>(json: Json<N, C>, s: Sent<N, C>) {
    s.Sending? ==> |json.marshal(s.message)| <= MAX_FRAME
  }

  function ItemsOf<N, C>(json: Json<N, C>, sent: seq<Sent<N, C>>): seq<Item> {
    if sent == [] then []
    else [if sent[0].Opening? then Magic else Body(json.marshal(sent[0].message))] + ItemsOf(json, sent[1..])
  }

  function Messages<N, C>(sent: seq<Sent<N, C>>): seq<Result<N, C>> {
    if sent == [] then []
    else (if sent[0].Opening? then [] else [Got(sent[0].message)]) + Messages(sent[1..])
  }

  lemma {:induction false} JudgedAreTheMessages<N(!new), C(!new)>(json: Json<N, C>, sent: seq<Sent<N, C>>)
    requires Faithful(json)
    requires forall i :: 0 <= i < |sent| ==> Written(json, sent[i])
    ensures forall i :: 0 <= i < |ItemsOf(json, sent)| ==> Legal(ItemsOf(json, sent)[i])
    ensures Judged(json, ItemsOf(json, sent)) == Messages(sent)
  {
    if sent != [] {
      var items := ItemsOf(json, sent);
      JudgedAreTheMessages(json, sent[1..]);
      assert items[1..] == ItemsOf(json, sent[1..]);
      assert Written(json, sent[0]);
      forall i | 0 <= i < |items| ensures Legal(items[i]) {
        assert i > 0 ==> items[i] == items[1..][i - 1];
      }
    }
  }

  /** The messages one end writes, with the session opened anew between any of them, are
      the messages the other end reads. */
  lemma MessagesArrive<N(!new), C(!new)>(json: Json<N, C>, sent: seq<Sent<N, C>>)
    requires Faithful(json)
    requires forall i :: 0 <= i < |sent| ==> Written(json, sent[i])
    ensures ReadAll(json, Wire(ItemsOf(json, sent))) == Messages(sent)
  {
    JudgedAreTheMessages(json, sent);
    FramesAreReadInOrder(json, ItemsOf(json, sent));
  }

  /** A length beyond the limit leaves the reader where the body begins, and so is told
      apart from every refusal that leaves it at the next frame. */
  lemma OversizeLosesTheFrame<N, C>(json: Json<N, C>, n: nat, rest: seq<byte>)
    requires MAX_FRAME < n < TWO32 && Put32(n) != MAGIC
    ensures Read(json, Put32(n) + rest) == (Desync, rest)
  {
    var b := Put32(n) + rest;
    assert b[..4] == Put32(n) && b[4..] == rest;
    assert b[..4][0..4] == b[..4];
    RoundTrip32(n, b[..4], 0);
  }

  // ---- The program

  class Conn {
    var left: seq<byte>   // what the stream still holds, before it ends

    constructor (bytes: seq<byte>)
      ensures left == bytes
    {
      left := bytes;
    }

    /** io.ReadFull. */
    method ReadFull(n: nat) returns (data: Option<seq<byte>>)
      modifies this
      ensures data.Some? <==> old(|left|) >= n
      ensures data.Some? ==> data.value == old(left)[..n] && left == old(left)[n..]
      ensures data.None? ==> left == []
    {
      if |left| < n {
        left := [];
        return None;
      }
      data := Some(left[..n]);
      left := left[n..];
    }

    method ReadHeader() returns (hdr: Option<seq<byte>>)
      modifies this
      ensures hdr.None? <==> SkipMagic(old(left)).None?
      ensures hdr.None? ==> left == []
      ensures hdr.Some? ==> SkipMagic(old(left)) == Some((hdr.value, left))
    {
      hdr := ReadFull(4);
      while hdr.Some? && hdr.value == MAGIC
        invariant hdr.None? ==> left == [] && SkipMagic(old(left)).None?
        invariant hdr.Some? ==> |hdr.value| == 4
        invariant hdr.Some? ==> SkipMagic(old(left)) == if hdr.value == MAGIC then SkipMagic(left) else Some((hdr.value, left))
        decreases hdr.Some?, |left|
      {
        hdr := ReadFull(4);
      }
    }

    method ReadMessage<N, C>(json: Json<N, C>) returns (r: Result<N, C>)
      modifies this
      ensures (r, left) == Read(json, old(left))
    {
      var hdr := ReadHeader();
      if hdr.None? {
        return Ended;
      }
      var n := Get32(hdr.value, 0);
      if n > MAX_FRAME {
        return Desync;
      }
      var body := ReadFull(n);
      if body.None? {
        return Ended;
      }
      r := Judge(json, body.value);
    }

    /** The other end of the stream: the bytes are appended. */
    method WriteMessage<N, C>(json: Json<N, C>, m: Message<N, C>) returns (ok: bool)
      modifies this
      ensures ok <==> |json.marshal(m)| <= MAX_FRAME
      ensures left == if ok then old(left) + Frame(json.marshal(m)) else old(left)
    {
      var body := json.marshal(m);
      if |body| > MAX_FRAME {
        return false;
      }
      left := left + Put32(|body|);
      left := left + body;
      return true;
    }
  }
}
