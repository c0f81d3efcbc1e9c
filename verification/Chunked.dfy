/** HTTP chunked bodies (RFC 9112 section 7.1): the writer of extension/lib/forwarder.js
    and the reader of extension/lib/tunnel-connection.js. */
module Chunked {
  import opened Common

  const CR: byte := 13
  const LF: byte := 10
  const SEMICOLON: byte := 59

  // ---- Hexadecimal

  function HexDigit(d: nat): byte
    requires d < 16
  {
    if d < 10 then 48 + d else 87 + d
  }

  /** toString(16). */
  function Hex(n: nat): (s: seq<byte>)
    ensures |s| > 0
  {
    if n < 16 then [HexDigit(n)] else Hex(n / 16) + [HexDigit(n % 16)]
  }

  function DigitValue(c: byte): Option<nat> {
    if 48 <= c <= 57 then Some(c - 48)
    else if 65 <= c <= 70 then Some(c - 55)
    else if 97 <= c <= 102 then Some(c - 87)
    else None
  }

  predicate IsSpace(c: byte) {
    9 <= c <= 13 || c == 32
  }

  function UpTo(s: seq<byte>, c: byte): seq<byte> {
    if s == [] || s[0] == c then [] else [s[0]] + UpTo(s[1..], c)
  }

  function TrimLeft(s: seq<byte>): seq<byte> {
    if s != [] && IsSpace(s[0]) then TrimLeft(s[1..]) else s
  }

  /** The value of the digits at the head, and how many there are. */
  function LeadingDigits(s: seq<byte>, sofar: nat): (nat, nat) {
    if s == [] || DigitValue(s[0]).None? then (sofar, 0)
    else
      var (v, n) := LeadingDigits(s[1..], 16 * sofar + DigitValue(s[0]).value);
      (v, n + 1)
  }

  /** parseInt(s, 16): a sign, a prefix 0x, and as many digits as there are. Spaces after
      the digits do not matter to it. */
  function ParseInt16(s: seq<byte>): Option<int> {
    var signed := s != [] && (s[0] == 43 || s[0] == 45);
    var t := if signed then s[1..] else s;
    var u := if |t| >= 2 && t[0] == 48 && (t[1] == 120 || t[1] == 88) then t[2..] else t;
    var (v, n) := LeadingDigits(u, 0);
    var i: int := v;
    if n == 0 then None else Some(if signed && s[0] == 45 then -i else i)
  }

  /** The size on a chunk's first line; what follows a semicolon is ignored. */
  function ParseSize(line: seq<byte>): Option<int> {
    ParseInt16(TrimLeft(UpTo(line, SEMICOLON)))
  }

  predicate IsHex(c: byte) {
    48 <= c <= 57 || 97 <= c <= 102
  }

  lemma {:induction false} HexIsHex(n: nat)
    ensures forall i :: 0 <= i < |Hex(n)| ==> IsHex(Hex(n)[i])
  {
    if n >= 16 {
      HexIsHex(n / 16);
    }
  }

  lemma {:induction false} DigitsAppend(s: seq<byte>, d: nat, sofar: nat)
    requires d < 16 && forall i :: 0 <= i < |s| ==> IsHex(s[i])
    ensures LeadingDigits(s, sofar).1 == |s|
    ensures LeadingDigits(s + [HexDigit(d)], sofar) == (16 * LeadingDigits(s, sofar).0 + d, |s| + 1)
  {
    if s == [] {
      assert ([] + [HexDigit(d)])[1..] == [];
    } else {
      DigitsAppend(s[1..], d, 16 * sofar + DigitValue(s[0]).value);
      assert (s + [HexDigit(d)])[1..] == s[1..] + [HexDigit(d)];
    }
  }

  lemma {:induction false} HexRoundTrip(n: nat)
    ensures LeadingDigits(Hex(n), 0) == (n, |Hex(n)|)
    ensures Hex(n)[0] == 48 ==> n == 0 && |Hex(n)| == 1
  {
    var none: seq<byte> := [];
    if n < 16 {
      DigitsAppend(none, n, 0);
      assert none + [HexDigit(n)] == Hex(n);
    } else {
      HexRoundTrip(n / 16);
      HexIsHex(n / 16);
      DigitsAppend(Hex(n / 16), n % 16, 0);
    }
  }

  lemma {:induction false} UpToAbsent(s: seq<byte>, c: byte)
    requires c !in s
    ensures UpTo(s, c) == s
  {
    if s != [] {
      UpToAbsent(s[1..], c);
    }
  }

  lemma SizeIsRead(n: nat)
    ensures ParseSize(Hex(n)) == Some(n)
  {
    var s := Hex(n);
    HexIsHex(n);
    HexRoundTrip(n);
    UpToAbsent(s, SEMICOLON);
    assert IsHex(s[0]) && (|s| >= 2 ==> IsHex(s[1]));
  }

  // ---- Lines

  /** Where the first CR LF is. */
  function CrlfAt(b: seq<byte>): (at: Option<nat>)
    ensures at.Some? ==> at.value + 2 <= |b|
  {
    if |b| < 2 then None
    else if b[0] == CR && b[1] == LF then Some(0)
    else
      match CrlfAt(b[1..])
      case None => None
      case Some(i) => Some(i + 1)
  }

  lemma {:induction false} CrlfStays(b: seq<byte>, x: seq<byte>)
    ensures CrlfAt(b).Some? ==> CrlfAt(b + x) == CrlfAt(b)
  {
    if |b| >= 2 {
      CrlfStays(b[1..], x);
      assert (b + x)[1..] == b[1..] + x;
    }
  }

  lemma {:induction false} CrlfAfter(line: seq<byte>, rest: seq<byte>)
    requires CR !in line
    ensures CrlfAt(line + [CR, LF] + rest) == Some(|line|)
  {
    var b := line + [CR, LF] + rest;
    if line == [] {
      assert b == [CR, LF] + rest;
    } else {
      CrlfAfter(line[1..], rest);
      assert b[1..] == line[1..] + [CR, LF] + rest;
      assert b[0] == line[0];
    }
  }

  // ---- Decoding

  /** The whole body; or the stream ended within it; or a size was not a number, or was
      less than nothing. */
  datatype Outcome = Body(body: seq<byte>) | Closed | BadSize | Negative

  function Prepend(data: seq<byte>, o: Outcome): Outcome {
    if o.Body? then Body(data + o.body) else o
  }

  /** A chunk's data and the bytes after it, or what ends the body. */
  datatype Part = Chunk(data: seq<byte>, rest: seq<byte>) | End(outcome: Outcome)

  function FirstPart(b: seq<byte>): (p: Part)
    ensures p.Chunk? ==> |p.rest| < |b|
  {
    match CrlfAt(b)
    case None => End(Closed)
    case Some(i) => PartOfSize(ParseSize(b[..i]), b[i + 2..])
  }

  function PartOfSize(size: Option<int>, rest: seq<byte>): (p: Part)
    ensures p.Chunk? ==> |p.rest| < |rest|
  {
    match size
    case None => End(BadSize)
    case Some(n) =>
      if n < 0 then End(Negative)
      else if n == 0 then End(Body([]))
      else if |rest| < n + 2 then End(Closed)
      else Chunk(rest[..n], rest[n + 2..])
  }

  /** What the bytes of a stream that then ends decode to. */
  function Decode(b: seq<byte>): Outcome
    decreases |b|
  {
    match FirstPart(b)
    case End(outcome) => outcome
    case Chunk(data, rest) => Prepend(data, Decode(rest))
  }

  // ---- Encoding

  function Wrap(data: seq<byte>): seq<byte> {
    Hex(|data|) + [CR, LF] + data + [CR, LF]
  }

  const TERMINATOR: seq<byte> := [48, CR, LF, CR, LF]

  /** A chunk each, but nothing for an empty one. */
  function Wraps(chunks: seq<seq<byte>>): seq<byte> {
    if chunks == [] then []
    else Wraps(chunks[..|chunks| - 1]) + if chunks[|chunks| - 1] == [] then [] else Wrap(chunks[|chunks| - 1])
  }

  lemma DecodeWrap(data: seq<byte>, rest: seq<byte>)
    requires data != []
    ensures Decode(Wrap(data) + rest) == Prepend(data, Decode(rest))
  {
    var b := Wrap(data) + rest;
    var hex := Hex(|data|);
    var after := data + [CR, LF] + rest;
    assert b == hex + [CR, LF] + after;
    HexIsHex(|data|);
    CrlfAfter(hex, after);
    SizeIsRead(|data|);
    assert b[..|hex|] == hex && b[|hex| + 2..] == after;
    assert after[..|data|] == data && after[|data| + 2..] == rest;
  }

  lemma DecodeTerminator(rest: seq<byte>)
    ensures Decode(TERMINATOR + rest) == Body([])
  {
    var b := TERMINATOR + rest;
    assert Hex(0) == [48];
    CrlfAfter([48], [CR, LF] + rest);
    assert b == [48] + [CR, LF] + ([CR, LF] + rest);
    SizeIsRead(0);
    assert b[..1] == [48];
  }

  /** Whatever was chunked is read back, whatever follows. */
  lemma {:induction false} DecodeWraps(chunks: seq<seq<byte>>, rest: seq<byte>)
    ensures Decode(Wraps(chunks) + rest) == Prepend(Concat(chunks), Decode(rest))
  {
    if chunks == [] {
      assert [] + rest == rest;
      assert Decode(rest).Body? ==> [] + Decode(rest).body == Decode(rest).body;
    } else {
      var n := |chunks| - 1;
      var wrap := if chunks[n] == [] then [] else Wrap(chunks[n]);
      DecodeWraps(chunks[..n], wrap + rest);
      Joined(Wraps(chunks[..n]), wrap, rest);
      DecodeOne(chunks[n], rest);
      PrependTwice(Concat(chunks[..n]), chunks[n], Decode(rest));
    }
  }

  lemma Joined(a: seq<byte>, b: seq<byte>, c: seq<byte>)
    ensures (a + b) + c == a + (b + c)
  {
  }

  lemma DecodeOne(data: seq<byte>, rest: seq<byte>)
    ensures Decode((if data == [] then [] else Wrap(data)) + rest) == Prepend(data, Decode(rest))
  {
    if data == [] {
      assert [] + rest == rest;
      PrependNothing(Decode(rest));
    } else {
      DecodeWrap(data, rest);
    }
  }

  lemma PrependTwice(a: seq<byte>, b: seq<byte>, o: Outcome)
    ensures Prepend(a, Prepend(b, o)) == Prepend(a + b, o)
  {
    if o.Body? {
      assert a + (b + o.body) == (a + b) + o.body;
    }
  }

  lemma ChunkedRoundTrip(chunks: seq<seq<byte>>, rest: seq<byte>)
    ensures Decode(Wraps(chunks) + TERMINATOR + rest) == Body(Concat(chunks))
  {
    assert Wraps(chunks) + TERMINATOR + rest == Wraps(chunks) + (TERMINATOR + rest);
    DecodeWraps(chunks, TERMINATOR + rest);
    DecodeTerminator(rest);
    assert Concat(chunks) + [] == Concat(chunks);
  }

  // ---- Reading from a stream that delivers its bytes in chunks

  /** Uint8Array.subarray's reading of an index: a negative one counts from the end. */
  function IndexIn(b: seq<byte>, k: int): (i: nat)
    ensures i <= |b|
  {
    if k >= |b| then |b| else if k >= 0 then k else if |b| + k >= 0 then |b| + k else 0
  }

  function Subarray(b: seq<byte>, from: int, to: int): seq<byte> {
    var i, j := IndexIn(b, from), IndexIn(b, to);
    if i <= j then b[i..j] else []
  }

  function SubarrayFrom(b: seq<byte>, from: int): (r: seq<byte>)
    ensures |r| <= |b|
  {
    b[IndexIn(b, from)..]
  }

  /** The buffer, and the chunks still to come. */
  datatype Input = Input(buf: seq<byte>, chunks: seq<seq<byte>>) {
    function Ahead(): seq<byte> { buf + Concat(chunks) }

    function More(): Input
      requires chunks != []
    {
      Input(buf + chunks[0], chunks[1..])
    }
  }

  /** Chunks are taken in until the buffer holds a line, or there are no more. */
  function FilledToLine(s: Input): (t: Input)
    ensures |t.Ahead()| == |s.Ahead()|
    decreases |s.chunks|
  {
    if CrlfAt(s.buf).Some? || s.chunks == [] then s
    else
      MoreIsAhead(s);
      FilledToLine(s.More())
  }

  /** Until it is so long, or there are no more. */
  function FilledTo(s: Input, length: int): (t: Input)
    ensures |t.Ahead()| == |s.Ahead()|
    decreases |s.chunks|
  {
    if |s.buf| >= length || s.chunks == [] then s
    else
      MoreIsAhead(s);
      FilledTo(s.More(), length)
  }

  lemma MoreIsAhead(s: Input)
    requires s.chunks != []
    ensures s.More().Ahead() == s.Ahead()
  {
    ConcatHead(s.chunks);
    assert s.buf + (s.chunks[0] + Concat(s.chunks[1..])) == (s.buf + s.chunks[0]) + Concat(s.chunks[1..]);
  }

  /** A chunk's data and what is left to read, or what ends the body. */
  datatype Taken = Took(data: seq<byte>, rest: Input) | Ends(outcome: Outcome)

  /** A size below zero is taken as subarray takes it: it depends on what the buffer
      happens to hold. */
  function TakeData(s: Input, size: int): (r: Taken)
    ensures r.Took? ==> |r.rest.Ahead()| <= |s.Ahead()|
  {
    var t := FilledTo(s, size + 2);
    if |t.buf| < size + 2 then Ends(Closed)
    else Took(Subarray(t.buf, 0, size), Input(SubarrayFrom(t.buf, size + 2), t.chunks))
  }

  function TakeSized(s: Input, size: Option<int>): (r: Taken)
    ensures r.Took? ==> |r.rest.Ahead()| <= |s.Ahead()|
  {
    match size
    case None => Ends(BadSize)
    case Some(n) => if n == 0 then Ends(Body([])) else TakeData(s, n)
  }

  function TakeChunk(s: Input): (r: Taken)
    ensures r.Took? ==> |r.rest.Ahead()| < |s.Ahead()|
  {
    var t := FilledToLine(s);
    match CrlfAt(t.buf)
    case None => Ends(Closed)
    case Some(i) => TakeSized(Input(t.buf[i + 2..], t.chunks), ParseSize(t.buf[..i]))
  }

  /** What the program makes of a stream. */
  function ReadBody(s: Input): Outcome
    decreases |s.Ahead()|
  {
    match TakeChunk(s)
    case Ends(outcome) => outcome
    case Took(data, rest) => Prepend(data, ReadBody(rest))
  }

  lemma {:induction false} FilledToLineIs(s: Input)
    ensures var t := FilledToLine(s);
      t.Ahead() == s.Ahead() && CrlfAt(t.buf) == CrlfAt(s.Ahead())
    decreases |s.chunks|
  {
    if CrlfAt(s.buf).Some? || s.chunks == [] {
      CrlfStays(s.buf, Concat(s.chunks));
      assert s.chunks == [] ==> s.buf + [] == s.buf;
    } else {
      MoreIsAhead(s);
      FilledToLineIs(s.More());
    }
  }

  lemma {:induction false} FilledToIs(s: Input, length: int)
    ensures var t := FilledTo(s, length);
      t.Ahead() == s.Ahead() && (|t.buf| < length ==> t.buf == s.Ahead())
    decreases |s.chunks|
  {
    if |s.buf| >= length || s.chunks == [] {
      assert s.buf + [] == s.buf;
    } else {
      MoreIsAhead(s);
      FilledToIs(s.More(), length);
    }
  }

  lemma TakeDataIs(s: Input, n: nat)
    requires n > 0
    ensures match PartOfSize(Some(n), s.Ahead())
      case End(outcome) => TakeData(s, n) == Ends(outcome)
      case Chunk(data, rest) => TakeData(s, n).Took? && TakeData(s, n).data == data && TakeData(s, n).rest.Ahead() == rest
  {
    FilledToIs(s, n + 2);
    var t := FilledTo(s, n + 2);
    if |t.buf| >= n + 2 {
      Cut(t.buf, Concat(t.chunks), n, n + 2);
    }
  }

  /** One chunk is what the bytes say, unless its size is below zero. */
  lemma TakeChunkIs(s: Input)
    ensures match FirstPart(s.Ahead())
      case End(outcome) => outcome == Negative || TakeChunk(s) == Ends(outcome)
      case Chunk(data, rest) => TakeChunk(s).Took? && TakeChunk(s).data == data && TakeChunk(s).rest.Ahead() == rest
  {
    FilledToLineIs(s);
    var t := FilledToLine(s);
    var at := CrlfAt(t.buf);
    if at.Some? {
      var i := at.value;
      Cut(t.buf, Concat(t.chunks), i, i + 2);
      var size := ParseSize(t.buf[..i]);
      if size.Some? && size.value > 0 {
        TakeDataIs(Input(t.buf[i + 2..], t.chunks), size.value);
      }
    }
  }

  /** Where no size the reader meets is below zero, the result depends on the bytes alone,
      not on how many came with the header nor on how the rest was split. */
  lemma {:induction false} ReadsTheBytes(s: Input)
    requires Decode(s.Ahead()) != Negative
    ensures ReadBody(s) == Decode(s.Ahead())
    decreases |s.Ahead()|
  {
    TakeChunkIs(s);
    if FirstPart(s.Ahead()).Chunk? {
      ReadsTheBytes(TakeChunk(s).rest);
    }
  }

  // ---- The program

  /** A stream that is read chunk by chunk until it ends. */
  class Source {
    var incoming: seq<seq<byte>>

    constructor (chunks: seq<seq<byte>>)
      ensures incoming == chunks
    {
      incoming := chunks;
    }

    method Read() returns (chunk: Option<seq<byte>>)
      modifies this
      ensures chunk.None? <==> old(incoming) == []
      ensures chunk.Some? ==> incoming == old(incoming[1..]) && chunk.value == old(incoming[0])
      ensures chunk.None? ==> incoming == []
    {
      if incoming == [] {
        return None;
      }
      chunk := Some(incoming[0]);
      incoming := incoming[1..];
    }
  }

  /** One more chunk in the buffer, unless the stream has ended. */
  method ReadMore(stream: Source, buf: seq<byte>) returns (more: bool, merged: seq<byte>)
    modifies stream
    ensures more <==> old(stream.incoming) != []
    ensures more ==> Input(merged, stream.incoming) == Input(buf, old(stream.incoming)).More()
    ensures !more ==> merged == buf && stream.incoming == []
  {
    var chunk := stream.Read();
    match chunk {
      case None =>
        return false, buf;
      case Some(data) =>
        return true, buf + data;
    }
  }

  method IndexOfCrlf(b: seq<byte>) returns (at: Option<nat>)
    ensures at == CrlfAt(b)
  {
    var i := 0;
    assert b[0..] == b;
    while i + 2 <= |b|
      invariant 0 <= i <= |b|
      invariant CrlfAt(b) == match CrlfAt(b[i..]) case None => None case Some(k) => Some(k + i)
    {
      if b[i] == CR && b[i + 1] == LF {
        return Some(i);
      }
      assert b[i..][1..] == b[i + 1..];
      i := i + 1;
    }
    return None;
  }

  /** The buffer is filled until it holds a line, unless the stream ends before. */
  method FillLine(stream: Source, buf0: seq<byte>) returns (at: Option<nat>, buf: seq<byte>)
    modifies stream
    ensures Input(buf, stream.incoming) == FilledToLine(Input(buf0, old(stream.incoming)))
    ensures at == CrlfAt(buf)
  {
    buf := buf0;
    at := IndexOfCrlf(buf);
    var more := true;
    while at.None? && more
      invariant FilledToLine(Input(buf, stream.incoming)) == FilledToLine(Input(buf0, old(stream.incoming)))
      invariant at == CrlfAt(buf)
      invariant !more ==> stream.incoming == []
      decreases more, |stream.incoming|
    {
      more, buf := ReadMore(stream, buf);
      at := IndexOfCrlf(buf);
    }
  }

  /** The buffer is filled up to a length, unless the stream ends before. */
  method Fill(stream: Source, buf0: seq<byte>, length: int) returns (buf: seq<byte>)
    modifies stream
    ensures Input(buf, stream.incoming) == FilledTo(Input(buf0, old(stream.incoming)), length)
  {
    buf := buf0;
    var more := true;
    while |buf| < length && more
      invariant FilledTo(Input(buf, stream.incoming), length) == FilledTo(Input(buf0, old(stream.incoming)), length)
      invariant !more ==> stream.incoming == []
      decreases more, |stream.incoming|
    {
      more, buf := ReadMore(stream, buf);
    }
  }

  /** Trailers are read up to an empty line, or to the end of the stream. */
  method SkipTrailers(stream: Source, buf0: seq<byte>)
    modifies stream
  {
    var buf := buf0;
    var more := true;
    while more
      decreases |Input(buf, stream.incoming).Ahead()|, more, |stream.incoming|
    {
      var end := IndexOfCrlf(buf);
      match end {
        case Some(at) =>
          if at == 0 {
            return;
          }
          buf := buf[at + 2..];
        case None =>
          if stream.incoming != [] {
            MoreIsAhead(Input(buf, stream.incoming));
          }
          more, buf := ReadMore(stream, buf);
      }
    }
  }

  /** One chunk, or what ends the body. */
  method ReadChunk(stream: Source, buf0: seq<byte>) returns (chunk: seq<byte>, end: Option<Outcome>, buf: seq<byte>)
    modifies stream
    ensures match TakeChunk(Input(buf0, old(stream.incoming)))
      case Ends(outcome) => end == Some(outcome)
      case Took(data, rest) => end == None && chunk == data && Input(buf, stream.incoming) == rest
  {
    chunk, end := [], None;
    var crlf;
    crlf, buf := FillLine(stream, buf0);
    if crlf.None? {
      end := Some(Closed);
      return;
    }
    var size := ParseSize(buf[..crlf.value]);
    buf := buf[crlf.value + 2..];
    if size.None? {
      end := Some(BadSize);
    } else if size.value == 0 {
      SkipTrailers(stream, buf);
      end := Some(Body([]));
    } else {
      chunk, end, buf := ReadData(stream, buf, size.value);
    }
  }

  /** The data of a chunk, and the two bytes that end it. */
  method ReadData(stream: Source, buf0: seq<byte>, size: int) returns (chunk: seq<byte>, end: Option<Outcome>, buf: seq<byte>)
    modifies stream
    ensures match TakeData(Input(buf0, old(stream.incoming)), size)
      case Ends(outcome) => end == Some(outcome)
      case Took(data, rest) => end == None && chunk == data && Input(buf, stream.incoming) == rest
  {
    chunk, end := [], None;
    buf := Fill(stream, buf0, size + 2);
    if |buf| < size + 2 {
      end := Some(Closed);
    } else {
      chunk, buf := Subarray(buf, 0, size), SubarrayFrom(buf, size + 2);
    }
  }

  /** What the program makes of the stream; and so, unless a size is below zero, what its
      bytes decode to. */
  method ReadChunkedBody(stream: Source, carry: seq<byte>) returns (r: Outcome)
    modifies stream
    ensures r == ReadBody(Input(carry, old(stream.incoming)))
    ensures Decode(carry + Concat(old(stream.incoming))) != Negative ==> r == Decode(carry + Concat(old(stream.incoming)))
  {
    ghost var given := Input(carry, stream.incoming);
    var buf, out, end := carry, [], None;
    PrependNothing(ReadBody(given));
    while end.None?
      invariant end.None? ==> Prepend(out, ReadBody(Input(buf, stream.incoming))) == ReadBody(given)
      invariant end.Some? ==> Prepend(out, end.value) == ReadBody(given)
      decreases end.None?, |Input(buf, stream.incoming).Ahead()|
    {
      var chunk;
      chunk, end, buf := ReadChunk(stream, buf);
      PrependTwice(out, chunk, ReadBody(Input(buf, stream.incoming)));
      if end.None? {
        out := out + chunk;
      }
    }
    if Decode(given.Ahead()) != Negative {
      ReadsTheBytes(given);
    }
    r := if end.value.Body? then Body(out + end.value.body) else end.value;
  }

  lemma Cut(buf: seq<byte>, x: seq<byte>, at: nat, next: nat)
    requires at <= next <= |buf|
    ensures (buf + x)[..at] == buf[..at] && (buf + x)[next..] == buf[next..] + x
  {
  }

  lemma PrependNothing(o: Outcome)
    ensures Prepend([], o) == o
  {
    assert o.Body? ==> [] + o.body == o.body;
  }

  /** The bytes are written after the ones written before; where the next ones go. */
  method Append(out: array<byte>, data: seq<byte>, at: nat, ghost written: seq<byte>) returns (next: nat)
    requires at + |data| <= out.Length && out[..at] == written
    modifies out
    ensures next == at + |data| && out[..next] == written + data
  {
    SetBytes(out, data, at);
    next := at + |data|;
  }

  /** _chunkedWrap. */
  method ChunkedWrap(data: seq<byte>) returns (out: array<byte>)
    ensures fresh(out) && out[..] == Wrap(data)
  {
    var hex := Hex(|data|);
    out := new byte[|hex| + 2 + |data| + 2](i => 0);
    var o := Append(out, hex, 0, []);
    o := Append(out, [CR, LF], o, hex);
    o := Append(out, data, o, hex + [CR, LF]);
    o := Append(out, [CR, LF], o, hex + [CR, LF] + data);
    assert out[..] == out[..o];
  }

  /** pipeBody, when the body is chunked: what is written for the chunks of the reader. */
  method PipeBody(values: seq<seq<byte>>) returns (written: seq<byte>)
    ensures written == Wraps(values) + TERMINATOR
  {
    written := [];
    var i := 0;
    while i < |values|
      invariant 0 <= i <= |values| && written == Wraps(values[..i])
    {
      WrapsMore(values, i);
      if |values[i]| > 0 {
        var frame := ChunkedWrap(values[i]);
        written := written + frame[..];
      }
      i := i + 1;
    }
    assert values[..i] == values;
    written := written + TERMINATOR;
  }

  lemma WrapsMore(values: seq<seq<byte>>, i: nat)
    requires i < |values|
    ensures Wraps(values[..i + 1]) == Wraps(values[..i]) + (if values[i] == [] then [] else Wrap(values[i]))
    ensures values[i] == [] ==> Wraps(values[..i + 1]) == Wraps(values[..i])
  {
    assert values[..i + 1][..i] == values[..i];
  }

  /** A body that was piped, cut up anyhow into what came with the header and what the
      stream delivers, is read back whole. */
  lemma PipedBodyArrives(values: seq<seq<byte>>, carry: seq<byte>, chunks: seq<seq<byte>>, rest: seq<byte>)
    requires carry + Concat(chunks) == Wraps(values) + TERMINATOR + rest
    ensures ReadBody(Input(carry, chunks)) == Body(Concat(values))
  {
    ChunkedRoundTrip(values, rest);
    ReadsTheBytes(Input(carry, chunks));
  }
}
