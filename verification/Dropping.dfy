/** A decoder that, on something it cannot handle, throws its whole buffer away: when what
    it finds depends on how the bytes were split, and when it does not. */
module Dropping {
  import opened Common
  import opened Framing

  /** What a look at the buffer found: a frame, or a reason to drop the buffer. */
  datatype Sight<F> = Saw(frame: F) | Dropped

  /** Tells from the first k bytes that a buffer is to be dropped. */
  ghost predicate Alarm<F(!new)>(next: Parser<F>, bad: seq<byte> -> bool, k: nat) {
    && k > 0
    && forall b :: bad(b) ==> |b| >= k && next(b).None? && (forall c :: |c| >= k && c[..k] == b[..k] ==> bad(c))
  }

  /** A frame is recognized by its own bytes. */
  ghost predicate Local<F(!new)>(next: Parser<F>) {
    forall b, k :: next(b).Some? && 0 < next(b).value.1 <= k <= |b| ==> next(b[..k]) == next(b)
  }

  function SawAll<F>(fs: seq<F>): (r: seq<Sight<F>>)
    ensures |r| == |fs|
  {
    seq(|fs|, i requires 0 <= i < |fs| => Saw(fs[i]))
  }

  /** Everything at the head of the buffer is taken. */
  ghost function Look<F(!new)>(next: Parser<F>, bad: seq<byte> -> bool, b: seq<byte>): (seq<Sight<F>>, seq<byte>)
    requires Incremental(next)
  {
    var (fs, rest) := Drain(next, b);
    if bad(rest) then (SawAll(fs) + [Dropped], []) else (SawAll(fs), rest)
  }

  /** Chunk after chunk is added to the buffer, and looked at. */
  ghost function LookAll<F(!new)>(next: Parser<F>, bad: seq<byte> -> bool, chunks: seq<seq<byte>>)
    : (seq<Sight<F>>, seq<byte>)
    requires Incremental(next)
  {
    if chunks == [] then ([], [])
    else
      var (ss, rest) := LookAll(next, bad, chunks[..|chunks| - 1]);
      var (more, rest') := Look(next, bad, rest + chunks[|chunks| - 1]);
      (ss + more, rest')
  }

  /** No alarm is met, or nothing follows it. */
  ghost predicate Clean<F(!new)>(next: Parser<F>, bad: seq<byte> -> bool, k: nat, b: seq<byte>)
    requires Incremental(next)
  {
    var rest := Drain(next, b).1;
    bad(rest) ==> |rest| == k
  }

  lemma SawAdd<F>(a: seq<F>, b: seq<F>)
    ensures SawAll(a + b) == SawAll(a) + SawAll(b)
  {
  }

  lemma AlarmStays<F(!new)>(next: Parser<F>, bad: seq<byte> -> bool, k: nat, b: seq<byte>, x: seq<byte>)
    requires Incremental(next) && Alarm(next, bad, k) && bad(b)
    ensures |b| >= k && bad(b + x) && Drain(next, b + x) == ([], b + x)
  {
    assert (b + x)[..k] == b[..k];
    DrainStep(next, b + x);
  }

  lemma LookEmpty<F(!new)>(next: Parser<F>, bad: seq<byte> -> bool, k: nat)
    requires Incremental(next) && Alarm(next, bad, k)
    ensures Look(next, bad, []) == ([], [])
  {
    DrainEmpty(next);
  }

  /** Looking at one frame, or at an alarm, or at neither. */
  lemma LookStep<F(!new)>(next: Parser<F>, bad: seq<byte> -> bool, k: nat, b: seq<byte>)
    requires Incremental(next) && Alarm(next, bad, k)
    ensures next(b).Some? ==>
      var (f, n) := next(b).value;
      0 < n <= |b| && Look(next, bad, b) == ([Saw(f)] + Look(next, bad, b[n..]).0, Look(next, bad, b[n..]).1)
    ensures next(b).None? ==> Look(next, bad, b) == if bad(b) then ([Dropped], []) else ([], b)
  {
    DrainStep(next, b);
    if next(b).Some? {
      var (f, n) := next(b).value;
      var fs := Drain(next, b[n..]).0;
      SawAdd([f], fs);
      assert SawAll([f]) == [Saw(f)];
      assert ([Saw(f)] + SawAll(fs)) + [Dropped] == [Saw(f)] + (SawAll(fs) + [Dropped]);
    } else {
      assert SawAll(Drain(next, b).0) + [Dropped] == [Dropped];
    }
  }

  lemma LookFurther<F(!new)>(next: Parser<F>, bad: seq<byte> -> bool, b: seq<byte>, x: seq<byte>)
    requires Incremental(next)
    requires !bad(Drain(next, b).1)
    ensures var (ss, rest) := Look(next, bad, b);
      Look(next, bad, b + x) == (ss + Look(next, bad, rest + x).0, Look(next, bad, rest + x).1)
  {
    var (fs, rest) := Drain(next, b);
    var gs := Drain(next, rest + x).0;
    DrainAppend(next, b, x);
    SawAdd(fs, gs);
    assert (SawAll(fs) + SawAll(gs)) + [Dropped] == SawAll(fs) + (SawAll(gs) + [Dropped]);
  }

  lemma {:induction false} CleanStreamsAreSplitAnyhow<F(!new)>(
      next: Parser<F>, bad: seq<byte> -> bool, k: nat, chunks: seq<seq<byte>>)
    requires Incremental(next) && Alarm(next, bad, k) && Clean(next, bad, k, Concat(chunks))
    ensures LookAll(next, bad, chunks) == Look(next, bad, Concat(chunks))
  {
    if chunks == [] {
      LookEmpty(next, bad, k);
    } else {
      var before, x := Concat(chunks[..|chunks| - 1]), chunks[|chunks| - 1];
      var rest := Drain(next, before).1;
      DrainAppend(next, before, x);
      if bad(rest) {
        AlarmStays(next, bad, k, rest, x);
        assert x == [] && before + x == before;
        CleanStreamsAreSplitAnyhow(next, bad, k, chunks[..|chunks| - 1]);
        LookEmpty(next, bad, k);
        assert Look(next, bad, before).0 + [] == Look(next, bad, before).0;
        assert [] + x == [];
      } else {
        CleanStreamsAreSplitAnyhow(next, bad, k, chunks[..|chunks| - 1]);
        LookFurther(next, bad, before, x);
      }
    }
  }

  /** What was drained, alone, is drained to the end. */
  lemma {:induction false} DrainedPart<F(!new)>(next: Parser<F>, b: seq<byte>)
    requires Incremental(next) && Local(next)
    ensures var (fs, rest) := Drain(next, b);
      && |rest| <= |b| && b[|b| - |rest|..] == rest
      && Drain(next, b[..|b| - |rest|]) == (fs, [])
    decreases |b|
  {
    DrainStep(next, b);
    if next(b).None? {
      assert b[..0] == [];
      DrainEmpty(next);
    } else {
      var n := next(b).value.1;
      DrainedPart(next, b[n..]);
      var rest := Drain(next, b).1;
      var m := |b| - |rest|;
      assert b[n..][..m - n] == b[..m][n..];
      assert next(b[..m]) == next(b);
      DrainStep(next, b[..m]);
    }
  }

  /** When bytes follow an alarm, what is found depends on whether they come with it. */
  lemma DirtyStreamsAreNot<F(!new)>(next: Parser<F>, bad: seq<byte> -> bool, k: nat, b: seq<byte>)
    returns (chunks: seq<seq<byte>>)
    requires Incremental(next) && Local(next) && Alarm(next, bad, k) && !Clean(next, bad, k, b)
    ensures Concat(chunks) == b && LookAll(next, bad, chunks) != Look(next, bad, b)
  {
    var (fs, rest) := Drain(next, b);
    DrainedPart(next, b);
    AlarmHead(next, bad, k, rest);
    var m := |b| - |rest|;
    var head, tail := b[..m + k], b[m + k..];
    PartThenAlarm(next, bad, k, b[..m], fs, rest[..k]);
    Pieces(b, m, k);
    chunks := [head, tail];
    TwoChunks(next, bad, k, head, tail);
    SomethingIsSeen(next, bad, k, tail);
    assert Look(next, bad, b) == (SawAll(fs) + [Dropped], []);
    Longer(SawAll(fs) + [Dropped], Look(next, bad, tail).0);
  }

  lemma AlarmHead<F(!new)>(next: Parser<F>, bad: seq<byte> -> bool, k: nat, b: seq<byte>)
    requires Alarm(next, bad, k) && bad(b)
    ensures |b| >= k && bad(b[..k])
  {
    assert b[..k][..k] == b[..k];
  }

  lemma Pieces(b: seq<byte>, m: nat, k: nat)
    requires m + k <= |b|
    ensures b[..m] + b[m..][..k] == b[..m + k]
    ensures b[..m + k] + b[m + k..] == b
    ensures [] + b[m + k..] == b[m + k..]
  {
  }

  lemma Longer<T>(a: seq<T>, b: seq<T>)
    ensures a + b == a ==> b == []
  {
    assert |a + b| == |a| + |b|;
  }

  lemma PartThenAlarm<F(!new)>(
      next: Parser<F>, bad: seq<byte> -> bool, k: nat, part: seq<byte>, fs: seq<F>, alarm: seq<byte>)
    requires Incremental(next) && Alarm(next, bad, k)
    requires Drain(next, part) == (fs, []) && bad(alarm)
    ensures Look(next, bad, part + alarm) == (SawAll(fs) + [Dropped], [])
  {
    assert [] + alarm == alarm;
    LookFurther(next, bad, part, alarm);
    LookStep(next, bad, k, alarm);
  }

  lemma TwoChunks<F(!new)>(next: Parser<F>, bad: seq<byte> -> bool, k: nat, head: seq<byte>, tail: seq<byte>)
    requires Incremental(next) && Alarm(next, bad, k)
    ensures Concat([head, tail]) == head + tail
    ensures var (ss, rest) := Look(next, bad, head);
      LookAll(next, bad, [head, tail]) == (ss + Look(next, bad, rest + tail).0, Look(next, bad, rest + tail).1)
  {
    var none: seq<seq<byte>> := [];
    ConcatOne(head);
    assert [head, tail][..1] == [head] && [head][..0] == none;
    assert LookAll(next, bad, none) == ([], []);
    assert [] + head == head && [] + Look(next, bad, head).0 == Look(next, bad, head).0;
    assert LookAll(next, bad, [head]) == Look(next, bad, head);
  }

  lemma SomethingIsSeen<F(!new)>(next: Parser<F>, bad: seq<byte> -> bool, k: nat, b: seq<byte>)
    requires Incremental(next) && Alarm(next, bad, k) && b != []
    ensures Look(next, bad, b).0 != [] || Look(next, bad, b).1 != []
  {
    LookStep(next, bad, k, b);
  }

  /** Exactly the clean streams are taken alike however they are split. */
  lemma SplitIndependence<F(!new)>(next: Parser<F>, bad: seq<byte> -> bool, k: nat, b: seq<byte>)
    requires Incremental(next) && Local(next) && Alarm(next, bad, k)
    ensures Clean(next, bad, k, b) <==>
      forall chunks :: Concat(chunks) == b ==> LookAll(next, bad, chunks) == Look(next, bad, b)
  {
    if Clean(next, bad, k, b) {
      forall chunks | Concat(chunks) == b ensures LookAll(next, bad, chunks) == Look(next, bad, b) {
        CleanStreamsAreSplitAnyhow(next, bad, k, chunks);
      }
    } else {
      var chunks := DirtyStreamsAreNot(next, bad, k, b);
    }
  }
}
