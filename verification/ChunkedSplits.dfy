/** What a chunk size below zero does to the reader of extension/lib/tunnel-connection.js:
    the buffer is sliced from its end, so what is read depends on how much of the stream
    happens to be in it. */
module ChunkedSplits {
  import opened Common
  import opened Chunked

  /** How far the stream's first size line below zero reaches. */
  function ThroughNegative(b: seq<byte>): (k: nat)
    requires Decode(b) == Negative
    ensures k <= |b|
    decreases |b|
  {
    match FirstPart(b)
    case End(_) => CrlfAt(b).value + 2
    case Chunk(_, rest) => |b| - |rest| + ThroughNegative(rest)
  }

  // ---- What comes after a line, or after a chunk, does not change it

  lemma {:induction false} CrlfCut(b: seq<byte>)
    requires CrlfAt(b).Some?
    ensures CrlfAt(b[..CrlfAt(b).value + 2]) == CrlfAt(b)
  {
    if !(b[0] == CR && b[1] == LF) {
      CrlfCut(b[1..]);
      var k := CrlfAt(b).value + 2;
      assert b[..k][1..] == b[1..][..k - 1];
    }
  }

  /** The same line, and other bytes after it. */
  lemma LineAgain(b: seq<byte>, y: seq<byte>)
    requires CrlfAt(b).Some?
    ensures var i := CrlfAt(b).value;
      var c := b[..i + 2] + y;
      CrlfAt(c) == Some(i) && c[..i] == b[..i] && c[i + 2..] == y
  {
    CrlfCut(b);
    CrlfStays(b[..CrlfAt(b).value + 2], y);
  }

  predicate SizedAt(p: seq<byte>, n: int, y: seq<byte>, chunks: seq<seq<byte>>) {
    && TakeChunk(Input(p + y, chunks)) == TakeSized(Input(y, chunks), Some(n))
    && FirstPart(p + y) == PartOfSize(Some(n), y)
  }

  /** After these bytes the reader is at data of this size, whatever follows. */
  ghost predicate AtSize(p: seq<byte>, n: int) {
    forall y, chunks :: SizedAt(p, n, y, chunks)
  }

  predicate TakenAt(p: seq<byte>, data: seq<byte>, y: seq<byte>, chunks: seq<seq<byte>>) {
    && TakeChunk(Input(p + y, chunks)) == Took(data, Input(y, chunks))
    && FirstPart(p + y) == Chunk(data, y)
  }

  /** After these bytes the reader has taken this data, whatever follows. */
  ghost predicate AtChunk(p: seq<byte>, data: seq<byte>) {
    forall y, chunks :: TakenAt(p, data, y, chunks)
  }

  /** The stream's first line gives a size. */
  predicate HasSize(b: seq<byte>) {
    CrlfAt(b).Some? && ParseSize(b[..CrlfAt(b).value]).Some?
  }

  lemma LineIsAtSize(b: seq<byte>) returns (p: seq<byte>, n: int)
    requires HasSize(b)
    ensures p == b[..CrlfAt(b).value + 2] && Some(n) == ParseSize(b[..CrlfAt(b).value]) && AtSize(p, n)
  {
    p, n := b[..CrlfAt(b).value + 2], ParseSize(b[..CrlfAt(b).value]).value;
    forall y, chunks
      ensures SizedAt(p, n, y, chunks)
    {
      LineAgain(b, y);
    }
  }

  lemma DataIsTaken(after: seq<byte>, n: nat, y: seq<byte>, chunks: seq<seq<byte>>)
    requires n > 0 && |after| == n + 2
    ensures TakeSized(Input(after + y, chunks), Some(n)) == Took(after[..n], Input(y, chunks))
    ensures PartOfSize(Some(n), after + y) == Chunk(after[..n], y)
  {
    assert (after + y)[..n] == after[..n] && (after + y)[n + 2..] == y;
  }

  lemma SizeThenData(p: seq<byte>, n: nat, after: seq<byte>)
    requires AtSize(p, n) && n > 0 && |after| == n + 2
    ensures AtChunk(p + after, after[..n])
  {
    forall y, chunks
      ensures TakenAt(p + after, after[..n], y, chunks)
    {
      Joined(p, after, y);
      assert SizedAt(p, n, after + y, chunks);
      DataIsTaken(after, n, y, chunks);
    }
  }

  /** A chunk's bytes, up to the next chunk. */
  lemma ChunkHead(b: seq<byte>) returns (head: seq<byte>)
    requires FirstPart(b).Chunk?
    ensures b == head + FirstPart(b).rest && AtChunk(head, FirstPart(b).data)
  {
    var p, n := LineIsAtSize(b);
    var y := b[|p|..];
    assert b == p + y;
    assert SizedAt(p, n, y, []);
    SizeThenData(p, n, y[..n + 2]);
    head := p + y[..n + 2];
    Halves(p, y, n + 2);
    assert y[..n + 2][..n] == y[..n];
  }

  lemma Halves(p: seq<byte>, y: seq<byte>, k: nat)
    requires k <= |y|
    ensures p + y == p + y[..k] + y[k..]
  {
  }

  lemma PrependTellsApart(data: seq<byte>, o: Outcome, o': Outcome)
    ensures Prepend(data, o) == Prepend(data, o') <==> o == o'
  {
    if o.Body? && o'.Body? {
      assert (data + o.body)[|data|..] == o.body && (data + o'.body)[|data|..] == o'.body;
    }
  }

  // ---- The last chunk

  lemma TerminatorIsRead(s: Input, rest: seq<byte>)
    requires s.Ahead() == TERMINATOR + rest
    ensures ReadBody(s) == Body([])
  {
    DecodeTerminator(rest);
    ReadsTheBytes(s);
  }

  lemma TerminatorAlone(chunk: seq<byte>, rest: seq<byte>)
    requires chunk == TERMINATOR + rest
    ensures ReadBody(Input([], [chunk])) == Body([])
  {
    ConcatOne(chunk);
    assert Input([], [chunk]).Ahead() == chunk;
    TerminatorIsRead(Input([], [chunk]), rest);
  }

  lemma TerminatorBuffered(buf: seq<byte>)
    requires buf == TERMINATOR
    ensures ReadBody(Input(buf, [])) == Body([])
  {
    assert Input(buf, []).Ahead() == TERMINATOR + [];
    TerminatorIsRead(Input(buf, []), []);
  }

  // ---- A size below zero, by what the slices do

  /** -1: one byte is skipped, and all the buffer but its last byte is data. */
  lemma MinusOne(x: seq<byte>)
    requires x == [48] + TERMINATOR
    ensures TakeData(Input([], [[48], TERMINATOR]), -1) == Took([], Input([], [TERMINATOR]))
    ensures TakeData(Input(x, []), -1) == Took(x[..5], Input(TERMINATOR, []))
  {
    var s := Input([], [[48], TERMINATOR]);
    assert s.More() == Input([48], [TERMINATOR]);
    assert FilledTo(s, 1) == Input([48], [TERMINATOR]);
    assert x[1..] == TERMINATOR;
  }

  /** -2: nothing is skipped. */
  lemma MinusTwo(x: seq<byte>)
    requires x == TERMINATOR
    ensures TakeData(Input([], [x]), -2) == Took([], Input([], [x]))
    ensures TakeData(Input(x, []), -2) == Took(x[..3], Input(x, []))
  {
    assert x[0..] == x;
  }

  /** -3 or less: the end of the buffer is kept, whatever was before it. */
  lemma MinusMore(n: int, x: seq<byte>, zeros: seq<byte>)
    requires n <= -3 && |zeros| == -n && x == TERMINATOR + zeros
    ensures TakeData(Input([], [x]), n) == Took([], Input([], [x]))
    ensures TakeData(Input(x, []), n) == Took(x[..5], Input(zeros[2..], []))
  {
    assert x[7..] == zeros[2..];
  }

  lemma {:induction false} NoLine(b: seq<byte>)
    requires forall i :: 0 <= i < |b| ==> b[i] == 0
    ensures CrlfAt(b) == None
  {
    if |b| >= 2 {
      NoLine(b[1..]);
    }
  }

  lemma NoLineIsClosed(b: seq<byte>)
    requires forall i :: 0 <= i < |b| ==> b[i] == 0
    ensures ReadBody(Input(b, [])) == Closed
  {
    NoLine(b);
  }

  /** Right after a size below zero, these bytes are read in two ways. */
  lemma TwoWays(n: int) returns (x: seq<byte>, chunks: seq<seq<byte>>)
    requires n < 0
    ensures Concat(chunks) == x
    ensures TakeData(Input([], chunks), n).Took? && TakeData(Input(x, []), n).Took?
    ensures var s, t := TakeData(Input([], chunks), n), TakeData(Input(x, []), n);
      Prepend(s.data, ReadBody(s.rest)) != Prepend(t.data, ReadBody(t.rest))
  {
    if n == -1 {
      x, chunks := [48] + TERMINATOR, [[48], TERMINATOR];
      ConcatTwo([48], TERMINATOR);
      MinusOne(x);
      TerminatorAlone(TERMINATOR, []);
      TerminatorBuffered(TERMINATOR);
      assert |x[..5] + []| == 5;
    } else if n == -2 {
      x, chunks := TERMINATOR, [TERMINATOR];
      ConcatOne(x);
      MinusTwo(x);
      TerminatorAlone(x, []);
      TerminatorBuffered(x);
      assert |x[..3] + []| == 3;
    } else {
      var zeros: seq<byte> := seq(-n, i => 0);
      x := TERMINATOR + zeros;
      chunks := [x];
      ConcatOne(x);
      MinusMore(n, x, zeros);
      TerminatorAlone(x, zeros);
      NoLineIsClosed(zeros[2..]);
    }
  }

  lemma ConcatTwo(a: seq<byte>, b: seq<byte>)
    ensures Concat([a, b]) == a + b
  {
    assert [a, b][..1] == [a];
    ConcatOne(a);
  }

  // ---- In any stream

  /** The two readings, of bytes that come after what the buffer holds. */
  ghost predicate Differ(p: seq<byte>, x: seq<byte>, s: Input, t: Input) {
    s.Ahead() == t.Ahead() == p + x && ReadBody(s) != ReadBody(t)
  }

  lemma ReadAtSize(p: seq<byte>, n: int, y: seq<byte>, chunks: seq<seq<byte>>)
    requires AtSize(p, n) && n != 0 && TakeData(Input(y, chunks), n).Took?
    ensures var r := TakeData(Input(y, chunks), n);
      ReadBody(Input(p + y, chunks)) == Prepend(r.data, ReadBody(r.rest))
  {
    assert SizedAt(p, n, y, chunks);
  }

  lemma DifferAtSize(p: seq<byte>, n: int) returns (x: seq<byte>, s: Input, t: Input)
    requires AtSize(p, n) && n < 0
    ensures Differ(p, x, s, t)
  {
    var chunks;
    x, chunks := TwoWays(n);
    s, t := Input(p + [], chunks), Input(p + x, []);
    ReadAtSize(p, n, [], chunks);
    ReadAtSize(p, n, x, []);
    BothAhead(p, x, chunks);
  }

  lemma BothAhead(p: seq<byte>, x: seq<byte>, chunks: seq<seq<byte>>)
    requires Concat(chunks) == x
    ensures Input(p + [], chunks).Ahead() == p + x && Input(p + x, []).Ahead() == p + x
  {
    assert p + [] == p && (p + x) + [] == p + x;
  }

  lemma ReadAtChunk(head: seq<byte>, data: seq<byte>, s: Input)
    requires AtChunk(head, data)
    ensures ReadBody(Input(head + s.buf, s.chunks)) == Prepend(data, ReadBody(s))
    ensures Input(head + s.buf, s.chunks).Ahead() == head + s.Ahead()
  {
    assert TakenAt(head, data, s.buf, s.chunks);
    Joined(head, s.buf, Concat(s.chunks));
  }

  lemma DifferAtChunk(head: seq<byte>, data: seq<byte>, p: seq<byte>, x: seq<byte>, s: Input, t: Input)
    requires AtChunk(head, data) && Differ(p, x, s, t)
    ensures Differ(head + p, x, Input(head + s.buf, s.chunks), Input(head + t.buf, t.chunks))
  {
    Joined(head, p, x);
    ReadAtChunk(head, data, s);
    ReadAtChunk(head, data, t);
    PrependTellsApart(data, ReadBody(s), ReadBody(t));
  }

  /** The first size line below zero of what follows a chunk is the stream's own. */
  lemma ThroughChunk(head: seq<byte>, data: seq<byte>, y: seq<byte>)
    requires AtChunk(head, data) && Decode(y) == Negative
    ensures Decode(head + y) == Negative && ThroughNegative(head + y) == |head| + ThroughNegative(y)
    ensures (head + y)[..ThroughNegative(head + y)] == head + y[..ThroughNegative(y)]
  {
    assert TakenAt(head, data, y, []);
    TakeOver(head, y, ThroughNegative(y));
  }

  lemma TakeOver(a: seq<byte>, b: seq<byte>, k: nat)
    requires k <= |b|
    ensures (a + b)[..|a| + k] == a + b[..k]
  {
  }

  /** In every stream that meets a size below zero the split matters from there on: with the
      stream as it is up to the end of that line, there are bytes to follow that are read
      in two ways. */
  lemma {:induction false} NegativeSizesSplit(b: seq<byte>) returns (x: seq<byte>, s: Input, t: Input)
    requires Decode(b) == Negative
    ensures Differ(b[..ThroughNegative(b)], x, s, t)
    decreases |b|
  {
    if FirstPart(b).Chunk? {
      var data, rest := FirstPart(b).data, FirstPart(b).rest;
      var head := ChunkHead(b);
      x, s, t := NegativeSizesSplit(rest);
      ThroughChunk(head, data, rest);
      DifferAtChunk(head, data, rest[..ThroughNegative(rest)], x, s, t);
      s, t := Input(head + s.buf, s.chunks), Input(head + t.buf, t.chunks);
    } else {
      var p, n := LineIsAtSize(b);
      x, s, t := DifferAtSize(p, n);
    }
  }

  /** And whatever follows, the stream still meets that size there. */
  lemma {:induction false} NegativeStays(b: seq<byte>, y: seq<byte>)
    requires Decode(b) == Negative
    ensures var c := b[..ThroughNegative(b)] + y;
      Decode(c) == Negative && ThroughNegative(c) == ThroughNegative(b)
    decreases |b|
  {
    if FirstPart(b).Chunk? {
      var data, rest := FirstPart(b).data, FirstPart(b).rest;
      var head := ChunkHead(b);
      NegativeStays(rest, y);
      ThroughChunk(head, data, rest);
      ThroughChunk(head, data, rest[..ThroughNegative(rest)] + y);
      Joined(head, rest[..ThroughNegative(rest)], y);
    } else {
      LineAgain(b, y);
    }
  }

  // ---- Two streams

  /** "-3" and a last chunk: an empty body where the chunk comes by itself, and an error
      where it came with the line. */
  lemma NegativeSizeSplits()
    ensures ReadBody(Input([45, 51, CR, LF], [TERMINATOR])) == Body([])
    ensures ReadBody(Input([45, 51, CR, LF] + TERMINATOR, [])) == Closed
  {
    var line := MinusThree();
    var p := line + [CR, LF];
    ReadAtSize(p, -3, [], [TERMINATOR]);
    ReadAtSize(p, -3, TERMINATOR, []);
    KeptOrLost();
    assert [45, 51, CR, LF] == p + [] == p;
  }

  lemma KeptOrLost()
    ensures TakeData(Input([], [TERMINATOR]), -3) == Took([], Input([], [TERMINATOR])) && ReadBody(Input([], [TERMINATOR])) == Body([])
    ensures TakeData(Input(TERMINATOR, []), -3) == Took([48, CR], Input([LF], [])) && ReadBody(Input([LF], [])) == Closed
  {
    TerminatorAlone(TERMINATOR, []);
    assert CrlfAt([LF]) == None;
  }

  lemma MinusThree() returns (line: seq<byte>)
    ensures line == [45, 51] && AtSize(line + [CR, LF], -3)
  {
    line := [45, 51];
    UpToAbsent(line, SEMICOLON);
    assert line[1..] == [51] && [51][1..] == [];
    assert LeadingDigits([51], 0) == (3, 1);
    SizeLine(line, -3);
  }

  lemma SizeLine(line: seq<byte>, n: int)
    requires CR !in line && ParseSize(line) == Some(n)
    ensures AtSize(line + [CR, LF], n)
  {
    var b := line + [CR, LF];
    CrlfAfter(line, []);
    assert b + [] == b && b[..|line|] == line && b[..|line| + 2] == b;
    var p, m := LineIsAtSize(b);
  }

  /** "-64" and a last chunk are an empty body however they come: that the split matters is
      true of the stream so far, and not of every way it may go on. */
  lemma HarmlessHere(line: seq<byte>, s: Input)
    requires line == [45, 54, 52] && s.Ahead() == line + [CR, LF] + TERMINATOR
    ensures Decode(s.Ahead()) == Negative && ReadBody(s) == Body([])
  {
    MinusHundred(line);
    WholeRead(line, s, -100);
  }

  lemma WholeRead(line: seq<byte>, s: Input, n: int)
    requires |line| == 3 && CR !in line && ParseSize(line) == Some(n) && n <= -7
    requires s.Ahead() == line + [CR, LF] + TERMINATOR
    ensures Decode(s.Ahead()) == Negative && ReadBody(s) == Body([])
  {
    var rest := LineTaken(line, s, n);
    WholeBuffer(rest, n);
    ReadOn(s, rest);
    TerminatorIsRead(rest, []);
  }

  lemma ReadOn(s: Input, rest: Input)
    requires TakeChunk(s) == Took([], rest)
    ensures ReadBody(s) == ReadBody(rest)
  {
    var o := ReadBody(rest);
    assert o.Body? ==> [] + o.body == o.body;
  }

  /** The line is taken off the stream, with the buffer as full as it got. */
  lemma LineTaken(line: seq<byte>, s: Input, n: int) returns (rest: Input)
    requires |line| == 3 && CR !in line && ParseSize(line) == Some(n) && n < 0
    requires s.Ahead() == line + [CR, LF] + TERMINATOR
    ensures TakeChunk(s) == TakeData(rest, n) && rest.Ahead() == TERMINATOR + [] && |rest.buf| <= |TERMINATOR|
    ensures Decode(s.Ahead()) == Negative
  {
    var b := s.Ahead();
    CrlfAfter(line, TERMINATOR);
    assert b[..3] == line && b[5..] == TERMINATOR;
    FilledToLineIs(s);
    var t := FilledToLine(s);
    Cut(t.buf, Concat(t.chunks), 3, 5);
    rest := Input(t.buf[5..], t.chunks);
  }

  lemma MinusHundred(line: seq<byte>)
    requires line == [45, 54, 52]
    ensures ParseSize(line) == Some(-100)
  {
    UpToAbsent(line, SEMICOLON);
    assert line[1..] == [54, 52] && [54, 52][1..] == [52] && [52][1..] == [];
    assert LeadingDigits([52], 6) == (100, 1);
  }

  /** A buffer shorter than the size is not sliced at all. */
  lemma WholeBuffer(s: Input, n: int)
    requires |s.buf| <= |TERMINATOR| && n <= -7
    ensures TakeData(s, n) == Took([], s)
  {
    assert s.buf[0..] == s.buf;
  }
}
