/** How many FINs a stream of extension/lib/smux.js sends: as many as there are close calls
    that find it not yet closed. A graceful close waits on the tail, and until its turn a
    second close, of either kind, still finds the stream open. */
module SmuxFins {
  import opened Common
  import opened SmuxWrite

  function Fins(out: seq<Frame>): nat {
    if out == [] then 0 else Fins(out[..|out| - 1]) + if out[|out| - 1].Fin? then 1 else 0
  }

  function Closings(tail: seq<Task>): nat {
    if tail == [] then 0 else (if tail[0].Closing? then 1 else 0) + Closings(tail[1..])
  }

  /** A close call, graceful or forced, on a stream that is not closed yet. */
  predicate FindsOpen(s: WriteSide, e: Event) {
    (e.CallClose? || e.CallForceClose?) && !s.closed
  }

  /** How many close calls of the run did. */
  function ClosesFoundOpen(es: seq<Event>): nat {
    if es == [] then 0
    else
      var n := |es| - 1;
      ClosesFoundOpen(es[..n]) + if FindsOpen(ExecAll(es[..n]), es[n]) then 1 else 0
  }

  /** FINs sent and FINs to come. */
  function Owed(s: WriteSide): nat {
    Fins(s.out) + Closings(s.tail)
  }

  lemma FinsAppend(out: seq<Frame>, f: Frame)
    ensures Fins(out + [f]) == Fins(out) + if f.Fin? then 1 else 0
  {
    assert (out + [f])[..|out|] == out;
  }

  lemma {:induction false} ClosingsAppend(tail: seq<Task>, t: Task)
    ensures Closings(tail + [t]) == Closings(tail) + if t.Closing? then 1 else 0
  {
    if tail == [] {
      assert (tail + [t])[1..] == tail;
    } else {
      ClosingsAppend(tail[1..], t);
      assert (tail + [t])[1..] == tail[1..] + [t] && (tail + [t])[0] == tail[0];
    }
  }

  lemma ClosingsHead(t: Task, rest: seq<Task>)
    ensures Closings([t] + rest) == Closings(rest) + if t.Closing? then 1 else 0
  {
    assert ([t] + rest)[1..] == rest;
  }

  /** A turn sends the FIN of the close it finishes, unless the session is closed, and
      no other. */
  lemma TurnOwes(s: WriteSide)
    ensures if s.sessionClosed then Owed(Turn(s)) <= Owed(s) else Owed(Turn(s)) == Owed(s)
  {
    if s.tail != [] && !s.waiting {
      match s.tail[0]
      case Closing => FinsAppend(s.out, Fin);
      case Writing(data, offset, started) =>
        ClosingsHead(Writing(data, offset, true), s.tail[1..]);
        if started && offset < |data| && !s.closed && !s.remoteClosed && WriteWin(s) > 0 {
          var n := ChunkLen(s, |data| - offset);
          ClosingsHead(Writing(data, offset + n, true), s.tail[1..]);
          FinsAppend(s.out, Psh(data[offset..offset + n]));
        }
    }
  }

  lemma StepOwes(s: WriteSide, e: Event, t: WriteSide)
    requires t == Exec(s, e) && (s.sessionClosed ==> s.closed)
    ensures var added := if FindsOpen(s, e) then 1 else 0;
      && Owed(t) <= Owed(s) + added
      && (!t.sessionClosed ==> !s.sessionClosed && Owed(t) == Owed(s) + added)
  {
    match e
    case CallWrite(data) => ClosingsAppend(s.tail, Writing(data, 0, false));
    case CallClose => ClosingsAppend(s.tail, Closing);
    case CallForceClose => FinsAppend(s.out, Fin);
    case Run => TurnOwes(s);
    case _ =>
  }

  lemma ShutWithSession(es: seq<Event>)
    ensures ExecAll(es).sessionClosed ==> ExecAll(es).closed
  {
    InvHolds(es);
  }

  /** In every run: the FINs sent and the closes on the tail are at most the close calls
      that found the stream open, and exactly as many unless the session was closed. */
  lemma {:induction false} FinsAreCloses(es: seq<Event>)
    ensures var s := ExecAll(es);
      && Fins(s.out) + Closings(s.tail) <= ClosesFoundOpen(es)
      && (!s.sessionClosed ==> Fins(s.out) + Closings(s.tail) == ClosesFoundOpen(es))
  {
    if es != [] {
      var n := |es| - 1;
      FinsAreCloses(es[..n]);
      ShutWithSession(es[..n]);
      ExecAllThen(es[..n], es[n]);
      assert es[..n] + [es[n]] == es;
      StepOwes(ExecAll(es[..n]), es[n], ExecAll(es));
    }
  }

  /** A stream sends one FIN at most, whatever happens to it, if one close call at most
      finds it open; and once its tail has run out without the session being closed,
      only if so. */
  lemma OneFinIffOneClose(es: seq<Event>)
    ensures ClosesFoundOpen(es) <= 1 ==> Fins(ExecAll(es).out) <= 1
    ensures ExecAll(es).tail == [] && SessionClose !in es ==>
      (Fins(ExecAll(es).out) <= 1 <==> ClosesFoundOpen(es) <= 1)
  {
    FinsAreCloses(es);
    if SessionClose !in es {
      NeverSessionClosed(es);
    }
  }

  /** Two closes before the tail is drained: two graceful ones, or a graceful and a
      forced one, send two FINs. */
  lemma ClosingTwiceSendsTwoFins()
    ensures ExecAll([CallClose, CallClose, Run, Run]).out == [Fin, Fin]
    ensures ExecAll([CallClose, CallForceClose, Run]).out == [Fin, Fin]
  {
    var es := [CallClose, CallClose, Run, Run];
    assert es[..3] == [CallClose, CallClose, Run] && es[..3][..2] == [CallClose, CallClose];
    assert es[..3][..2][..1] == [CallClose];
    var none: seq<Event> := [];
    assert ExecAll(none) == FRESH && [CallClose][..0] == none;
    assert ExecAll([CallClose]) == FRESH.(closing := true, tail := [Closing]);
    assert ExecAll([CallClose, CallClose]) == FRESH.(closing := true, tail := [Closing, Closing]);
    assert [Closing, Closing][1..] == [Closing];
    assert ExecAll(es[..3]).out == [Fin];
    var fs := [CallClose, CallForceClose, Run];
    assert fs[..2] == [CallClose, CallForceClose] && fs[..2][..1] == [CallClose];
    assert ExecAll(fs[..2]).out == [Fin];
  }
}
