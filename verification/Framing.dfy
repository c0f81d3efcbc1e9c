/** Cutting a byte stream into frames, as a decoder that keeps what it could not use yet
    does it: however the stream is split into chunks, the frames are those of the whole. */
module Framing {
  import opened Common

  /** Looks for a frame at the head of a buffer, and says how long it is. */
  type Parser<!F(!new)> = seq<byte> -> Option<(F, nat)>

  /** A frame that is there is still there, and the same, when more bytes follow. */
  ghost predicate Incremental<F(!new)>(next: Parser<F>) {
    forall b, x :: IncrementalAt(next, b, x)
  }

  predicate IncrementalAt<F(==, !new)>(next: Parser<F>, b: seq<byte>, x: seq<byte>) {
    next(b).Some? ==> 0 < next(b).value.1 <= |b| && next(b + x) == next(b)
  }

  /** The frames at the head of a buffer, and what is left of it. */
  ghost function Drain<F(!new)>(next: Parser<F>, b: seq<byte>): (seq<F>, seq<byte>)
    requires Incremental(next)
    decreases |b|
  {
    match next(b)
    case None => ([], b)
    case Some((f, n)) =>
      assert IncrementalAt(next, b, []);
      var (fs, rest) := Drain(next, b[n..]);
      ([f] + fs, rest)
  }

  /** Chunk after chunk is added to what was left, and drained. */
  ghost function Feed<F(!new)>(next: Parser<F>, chunks: seq<seq<byte>>): (seq<F>, seq<byte>)
    requires Incremental(next)
  {
    if chunks == [] then ([], [])
    else
      var (fs, rest) := Feed(next, chunks[..|chunks| - 1]);
      var (more, rest') := Drain(next, rest + chunks[|chunks| - 1]);
      (fs + more, rest')
  }

  lemma DrainStep<F(!new)>(next: Parser<F>, b: seq<byte>)
    requires Incremental(next)
    ensures next(b).None? ==> Drain(next, b) == ([], b)
    ensures next(b).Some? ==>
      var (f, n) := next(b).value;
      0 < n <= |b| && Drain(next, b) == ([f] + Drain(next, b[n..]).0, Drain(next, b[n..]).1)
  {
    assert IncrementalAt(next, b, []);
  }

  lemma {:induction false} DrainAppend<F(!new)>(next: Parser<F>, b: seq<byte>, x: seq<byte>)
    requires Incremental(next)
    ensures var (fs, rest) := Drain(next, b);
      var (more, rest') := Drain(next, rest + x);
      Drain(next, b + x) == (fs + more, rest')
    decreases |b|
  {
    DrainStep(next, b);
    match next(b)
    case None =>
      assert Drain(next, b).0 + Drain(next, b + x).0 == Drain(next, b + x).0;
    case Some((f, n)) =>
      assert IncrementalAt(next, b, x);
      DrainStep(next, b + x);
      DrainAppend(next, b[n..], x);
      assert (b + x)[n..] == b[n..] + x;
      var (fs, rest) := Drain(next, b[n..]);
      assert [f] + (fs + Drain(next, rest + x).0) == ([f] + fs) + Drain(next, rest + x).0;
  }

  lemma DrainEmpty<F(!new)>(next: Parser<F>)
    requires Incremental(next)
    ensures Drain(next, []) == ([], [])
  {
    DrainStep(next, []);
  }

  /** However the bytes arrive, the frames are those of the whole, and what is left is
      what the whole leaves. */
  lemma {:induction false} SplitsDoNotMatter<F(!new)>(next: Parser<F>, chunks: seq<seq<byte>>)
    requires Incremental(next)
    ensures Feed(next, chunks) == Drain(next, Concat(chunks))
  {
    if chunks == [] {
      DrainEmpty(next);
    } else {
      SplitsDoNotMatter(next, chunks[..|chunks| - 1]);
      DrainAppend(next, Concat(chunks[..|chunks| - 1]), chunks[|chunks| - 1]);
    }
  }

  /** The bytes are those of the frame, and nothing else. */
  ghost predicate Reads<F(!new)>(next: Parser<F>, wire: seq<byte>, f: F) {
    wire != [] && next(wire) == Some((f, |wire|))
  }

  lemma {:induction false} DrainFrames<F(!new)>(next: Parser<F>, wires: seq<seq<byte>>, fs: seq<F>)
    requires Incremental(next)
    requires |wires| == |fs| && forall i :: 0 <= i < |fs| ==> Reads(next, wires[i], fs[i])
    ensures Drain(next, Concat(wires)) == (fs, [])
  {
    if fs == [] {
      DrainEmpty(next);
    } else {
      var head, tail := wires[0], Concat(wires[1..]);
      assert Reads(next, head, fs[0]);
      DrainFrames(next, wires[1..], fs[1..]);
      ConcatHead(wires);
      DrainStep(next, head + tail);
      assert IncrementalAt(next, head, tail);
      assert (head + tail)[|head|..] == tail;
      assert [fs[0]] + fs[1..] == fs;
    }
  }

  /** Frames that were written one after the other, and cut up anyhow, are read back as
      they were. */
  lemma FramesSurviveTheWire<F(!new)>(next: Parser<F>, wires: seq<seq<byte>>, fs: seq<F>, chunks: seq<seq<byte>>)
    requires Incremental(next)
    requires |wires| == |fs| && forall i :: 0 <= i < |fs| ==> Reads(next, wires[i], fs[i])
    requires Concat(chunks) == Concat(wires)
    ensures Feed(next, chunks) == (fs, [])
  {
    SplitsDoNotMatter(next, chunks);
    DrainFrames(next, wires, fs);
  }
}
