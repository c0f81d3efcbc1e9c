/** How a stream of extension/lib/smux.js ends, at both of its sides: which writes it takes,
    when it goes silent, which waiting reads end, and the limits it keeps, in numbers. */
module SmuxEnds {
  import opened Common
  import opened SmuxWrite
  import opened SmuxFlow

  // ---- Which writes are taken

  /** From this call or arrival on the stream takes no write. */
  predicate EndsWrites(e: Event) {
    e.CallClose? || e.CallForceClose? || e.RemoteFin? || e.SessionClose?
  }

  predicate Open(es: seq<Event>) {
    forall e :: e in es ==> !EndsWrites(e)
  }

  /** The writes called before anything ended the stream. */
  function WritesWhileOpen(es: seq<Event>): seq<seq<byte>> {
    if es == [] then []
    else
      var n := |es| - 1;
      WritesWhileOpen(es[..n]) + if es[n].CallWrite? && Open(es[..n]) then [es[n].data] else []
  }

  predicate TakesWrites(s: WriteSide) {
    !s.closed && !s.closing && !s.remoteClosed
  }

  lemma StepEndsWrites(s: WriteSide, e: Event)
    requires ClosesLast(s) && (s.removed ==> s.closed) && (s.sessionClosed ==> s.closed)
    ensures TakesWrites(Exec(s, e)) <==> TakesWrites(s) && !EndsWrites(e)
    ensures Exec(s, e).accepted == if e.CallWrite? && TakesWrites(s) then s.accepted + [e.data] else s.accepted
  {
    if e.Run? && TakesWrites(s) && s.tail != [] {
      assert s.tail[0].Writing?;
    }
  }

  /** In every run the writes taken are those called before the first close, of either kind,
      the peer's FIN or the session's end, all of them and in that order. */
  lemma {:induction false} AcceptedAreWrittenWhileOpen(es: seq<Event>)
    ensures ExecAll(es).accepted == WritesWhileOpen(es)
    ensures TakesWrites(ExecAll(es)) <==> Open(es)
  {
    if es != [] {
      var n := |es| - 1;
      AcceptedAreWrittenWhileOpen(es[..n]);
      InvHolds(es[..n]);
      StepEndsWrites(ExecAll(es[..n]), es[n]);
      assert es == es[..n] + [es[n]];
    }
  }

  // ---- When it goes silent

  lemma StepAfterEnd(s: WriteSide, e: Event)
    requires s.closed || s.remoteClosed
    ensures Exec(s, e).closed || Exec(s, e).remoteClosed
    ensures Sent(Exec(s, e).out) == Sent(s.out) && Exec(s, e).numWritten == s.numWritten
  {
    SentAppend(s.out, Fin);
    assert Sent(s.out) + [] == Sent(s.out);
    if e.Run? {
      TurnAfterEnd(s);
    }
  }

  lemma TurnAfterEnd(s: WriteSide)
    requires s.closed || s.remoteClosed
    ensures Turn(s).out == s.out || Turn(s).out == s.out + [Fin]
    ensures Turn(s).numWritten == s.numWritten && (s.closed ==> Turn(s).closed) && Turn(s).remoteClosed == s.remoteClosed
  {
  }

  /** Once a stream is closed, or its peer has finished, no more of its data is sent. */
  lemma {:induction false} NoDataAfterTheEnd(es: seq<Event>, more: seq<Event>)
    requires ExecAll(es).closed || ExecAll(es).remoteClosed
    ensures var s := ExecAll(es + more);
      (s.closed || s.remoteClosed) && Sent(s.out) == Sent(ExecAll(es).out) && s.numWritten == ExecAll(es).numWritten
  {
    if more == [] {
      assert es + more == es;
    } else {
      var n := |more| - 1;
      NoDataAfterTheEnd(es, more[..n]);
      assert es + more == (es + more[..n]) + [more[n]];
      ExecAllThen(es + more[..n], more[n]);
      StepAfterEnd(ExecAll(es + more[..n]), more[n]);
    }
  }

  lemma StepAfterSession(s: WriteSide, e: Event)
    requires s.sessionClosed && s.closed
    ensures Exec(s, e).sessionClosed && Exec(s, e).closed && Exec(s, e).out == s.out
  {
  }

  /** Once the session is closed, nothing at all leaves the stream. */
  lemma {:induction false} NothingAfterTheSession(es: seq<Event>, more: seq<Event>)
    requires ExecAll(es).sessionClosed
    ensures ExecAll(es + more).out == ExecAll(es).out && ExecAll(es + more).sessionClosed && ExecAll(es + more).closed
  {
    InvHolds(es);
    if more == [] {
      assert es + more == es;
    } else {
      var n := |more| - 1;
      NothingAfterTheSession(es, more[..n]);
      assert es + more == (es + more[..n]) + [more[n]];
      ExecAllThen(es + more[..n], more[n]);
      StepAfterSession(ExecAll(es + more[..n]), more[n]);
    }
  }

  /** A forced close of an open stream is over at once: the FIN is out, whatever is still
      queued is never sent. */
  lemma ForcedCloseIsNow(es: seq<Event>, more: seq<Event>)
    requires !ExecAll(es).closed
    ensures var s := ExecAll(es + [CallForceClose]);
      s.closed && s.out == ExecAll(es).out + [Fin]
      && Sent(ExecAll(es + [CallForceClose] + more).out) == Sent(ExecAll(es).out)
  {
    InvHolds(es);
    ExecAllThen(es, CallForceClose);
    NoDataAfterTheEnd(es + [CallForceClose], more);
    SentAppend(ExecAll(es).out, Fin);
    assert Sent(ExecAll(es).out) + [] == Sent(ExecAll(es).out);
  }

  // ---- What one turn sends

  /** A turn that sends data sends as much of the write as the window and a frame of 32768
      bytes allow: all that is left, or the whole window, or a full frame. */
  lemma SendsAsMuchAsItMay(s: WriteSide) returns (n: nat)
    requires s.tail != [] && !s.waiting && s.tail[0].Writing? && s.tail[0].started && s.tail[0].offset < |s.tail[0].data|
    requires !s.closed && !s.remoteClosed && !s.sessionClosed && WriteWin(s) > 0
    ensures var window := s.peerWindow - (s.numWritten - s.peerConsumed);
      var left := |s.tail[0].data| - s.tail[0].offset;
      && 0 < n <= left && n <= window && n <= 32768 && (n == left || n == window || n == 32768)
    ensures Turn(s).out == s.out + [Psh(s.tail[0].data[s.tail[0].offset..][..n])]
    ensures Turn(s).tail == [Writing(s.tail[0].data, s.tail[0].offset + n, true)] + s.tail[1..]
    ensures Turn(s).numWritten == s.numWritten + n
  {
    var Writing(data, offset, _) := s.tail[0];
    n := ChunkLen(s, |data| - offset);
    assert data[offset..][..n] == data[offset..offset + n];
  }

  /** Whatever ends an open stream wakes the writer that waits for window. A graceful close
      takes no more writes, and comes after those that were taken; it sends nothing itself. */
  lemma EndsWakeTheWriter(es: seq<Event>, e: Event)
    requires !ExecAll(es).closed
    requires e == CallClose || e == CallForceClose || e == RemoteFin || e == SessionClose
    ensures !ExecAll(es + [e]).waiting
    ensures var s, t := ExecAll(es), ExecAll(es + [CallClose]);
      && t.closing && !t.closed && t.remoteClosed == s.remoteClosed
      && t.tail == s.tail + [Closing] && t.out == s.out && t.accepted == s.accepted
  {
    InvHolds(es);
    ExecAllThen(es, e);
    ExecAllThen(es, CallClose);
  }

  // ---- Which waiting reads end

  /** What ends a stream ends the read that waits on it. */
  lemma EndsEndTheWait(r: ReadSide)
    requires !r.closed && !r.sessionClosed
    ensures !RemoteFinished(r).waiting && !Unblock(r).waiting && !ShutSession(r).waiting
    ensures RemoteFinished(r).remoteClosed && !Unblock(r).closed && ShutSession(r).closed
  {
  }

  /** So does the next frame: data is handed to it, and an end gives it nothing. */
  lemma NextFrameEndsTheWait(steps: seq<Step>)
    requires var s := Reach(steps); s.r.waiting && !s.r.closed && s.delivered < |s.w.out|
    ensures var s, t := Reach(steps), Reach(steps + [Deliver]);
      && !t.r.waiting && t.delivered == s.delivered + 1 && t.r.queue == []
      && match s.w.out[s.delivered]
         case Psh(data) => t.r.handed == s.r.handed + [data] && t.r.given == s.r.given + data && !t.r.remoteClosed
         case Fin => t.r.handed == s.r.handed && t.r.given == s.r.given && t.r.remoteClosed
  {
    WaitingReads(steps);
    ReachThen(steps, Deliver);
  }

  /** Step i closed the reader's stream while a read was waiting on it. */
  predicate ShutOnAWaitingRead(steps: seq<Step>, i: nat)
    requires i < |steps|
  {
    steps[i].ShutReader? && Reach(steps[..i]).r.waiting && !Reach(steps[..i]).r.closed
  }

  predicate SomeReadWasLate(steps: seq<Step>) {
    exists i: nat :: i < |steps| && ShutOnAWaitingRead(steps, i)
  }

  /** In every run a read waits only where nothing is queued and the peer has not finished;
      and one waits on a closed stream exactly if the end of a graceful close closed the
      stream over it. */
  lemma {:induction false} WaitingReads(steps: seq<Step>)
    ensures var r := Reach(steps).r;
      && (r.waiting ==> r.queue == [] && !r.remoteClosed)
      && (r.waiting && r.closed <==> SomeReadWasLate(steps))
  {
    if steps != [] {
      var n := |steps| - 1;
      WaitingReads(steps[..n]);
      FlowInvHolds(steps[..n]);
      LateStep(steps);
      ReadStep(Reach(steps[..n]), steps[n]);
    }
  }

  lemma LateStep(steps: seq<Step>)
    requires steps != []
    ensures SomeReadWasLate(steps) <==> SomeReadWasLate(steps[..|steps| - 1]) || ShutOnAWaitingRead(steps, |steps| - 1)
  {
    var n := |steps| - 1;
    forall i: nat | i < n
      ensures ShutOnAWaitingRead(steps, i) <==> ShutOnAWaitingRead(steps[..n], i)
    {
      assert steps[..n][..i] == steps[..i];
    }
    if SomeReadWasLate(steps) {
      var i: nat :| i < |steps| && ShutOnAWaitingRead(steps, i);
    }
  }

  lemma ReadStep(s: Flow, step: Step)
    requires ReadInv(s.r) && (s.r.waiting ==> !s.r.remoteClosed)
    ensures var r := Next(s, step).r;
      && (r.waiting ==> r.queue == [] && !r.remoteClosed)
      && (r.waiting && r.closed <==> s.r.waiting && (s.r.closed || step.ShutReader?))
  {
  }

  /** A read that waits at step i was called after the last close began. */
  lemma {:induction false} WaitingReadCameAfter(steps: seq<Step>, j: nat, i: nat)
    requires j < i <= |steps| && steps[j] == UnblockReads
    requires Reach(steps[..i]).r.waiting && !Reach(steps[..i]).r.closed
    ensures exists k :: j < k < i && steps[k] == ReadCall
  {
    assert steps[..i][..i - 1] == steps[..i - 1] && steps[..i][i - 1] == steps[i - 1];
    WaitBegins(Reach(steps[..i - 1]), steps[i - 1]);
    if steps[i - 1] != ReadCall {
      WaitingReadCameAfter(steps, j, i - 1);
    }
  }

  lemma WaitBegins(s: Flow, step: Step)
    requires Next(s, step).r.waiting && !Next(s, step).r.closed
    ensures step != UnblockReads
    ensures step == ReadCall || (s.r.waiting && !s.r.closed)
  {
  }

  /** Such a read never ends. */
  lemma {:induction false} LateReadWaitsForEver(steps: seq<Step>, more: seq<Step>)
    requires Reach(steps).r.waiting && Reach(steps).r.closed
    ensures Reach(steps + more).r.waiting && Reach(steps + more).r.closed
    ensures Reach(steps + more).r.given == Reach(steps).r.given
  {
    if more == [] {
      assert steps + more == steps;
    } else {
      var n := |more| - 1;
      LateReadWaitsForEver(steps, more[..n]);
      assert steps + more == (steps + more[..n]) + [more[n]];
      ReachThen(steps + more[..n], more[n]);
      LateReadStays(Reach(steps + more[..n]), more[n]);
    }
  }

  lemma LateReadStays(s: Flow, step: Step)
    requires s.r.waiting && s.r.closed
    ensures Next(s, step).r.waiting && Next(s, step).r.closed && Next(s, step).r.given == s.r.given
  {
  }

  /** There is such a run: a graceful close, a read while the writes drain, and the end of
      the close. */
  lemma ReadMayBeLate()
    ensures var r := Reach([UnblockReads, ReadCall, ShutReader]).r; r.waiting && r.closed
  {
    var none: seq<Step> := [];
    ReachThen(none, UnblockReads);
    ReachThen([UnblockReads], ReadCall);
    ReachThen([UnblockReads, ReadCall], ShutReader);
    assert none + [UnblockReads] == [UnblockReads] && [UnblockReads] + [ReadCall] == [UnblockReads, ReadCall];
    assert [UnblockReads, ReadCall] + [ShutReader] == [UnblockReads, ReadCall, ShutReader];
    ReadIsLateIn(Reach(none));
  }

  lemma ReadIsLateIn(s: Flow)
    requires s.r == UNREAD
    ensures var r := Next(Next(Next(s, UnblockReads), ReadCall), ShutReader).r; r.waiting && r.closed
  {
  }

  // ---- Limits

  /** Until the peer has given credit a stream sends 262144 bytes at most, in frames of
      32768 bytes at most. */
  lemma {:induction false} FirstWindow(es: seq<Event>)
    requires forall e :: e in es ==> !e.Upd?
    ensures var s := ExecAll(es);
      && s.peerConsumed == 0 && s.peerWindow == 262144 && s.numWritten <= 262144
  {
    if es != [] {
      var n := |es| - 1;
      FirstWindow(es[..n]);
      assert es[n] in es;
      WindowStep(ExecAll(es[..n]), es[n]);
    }
  }

  lemma WindowStep(s: WriteSide, e: Event)
    requires !e.Upd?
    ensures var t := Exec(s, e);
      && t.peerConsumed == s.peerConsumed && t.peerWindow == s.peerWindow
      && (t.numWritten == s.numWritten || t.numWritten - s.numWritten <= WriteWin(s))
  {
    if e.Run? {
      TurnStaysInWindow(s);
    }
  }

  lemma FramesAreSmall(es: seq<Event>, i: nat)
    requires i < |ExecAll(es).out| && ExecAll(es).out[i].Psh?
    ensures 1 <= |ExecAll(es).out[i].data| <= 32768
  {
    SentIsPrefix(es);
  }

  /** In every run of two connected streams: never more than 1048576 bytes unacknowledged or
      unread; whatever was read is credited, but for less than 524288 bytes, and something
      is as soon as anything was read; and a drained writer has a window exactly while fewer
      than 4294967296 bytes were credited. */
  lemma LimitsInNumbers(steps: seq<Step>)
    ensures var s := Reach(steps);
      && s.w.numWritten - s.acked <= 1048576
      && |Concat(s.r.queue)| + |Concat(s.r.handed)| <= 1048576
      && (!s.r.sessionClosed ==>
            && s.r.numRead - (if s.r.upds == [] then 0 else s.r.upds[|s.r.upds| - 1]) < 524288
            && (s.r.numRead > 0 ==> s.r.upds != []))
      && (Drained(s) ==> (WriteWin(s.w) > 0 <==> s.r.numRead - s.r.updIncr < 4294967296))
  {
    UnreadFitsTheBuffer(steps);
    FlowInvHolds(steps);
    if Drained(Reach(steps)) {
      DrainedWriterMayWrite(steps);
    }
  }

  /** What is not yet credited is what was read since the last credit. */
  predicate Accounted(r: ReadSide) {
    && r.numRead == r.updIncr + (if r.upds == [] then 0 else r.upds[|r.upds| - 1])
    && (r.upds == [] ==> r.numRead == 0)
  }

  lemma Accounts(steps: seq<Step>)
    ensures var r := Reach(steps).r; (!r.closed ==> !r.sessionClosed) && (!r.sessionClosed ==> Accounted(r))
  {
    FlowInvHolds(steps);
  }

  /** The credits after a read of n bytes: one more, of all that was read by then, exactly if
      the read is the first of any bytes or brings what is not yet credited to 524288 bytes
      or more. */
  predicate Credits(upds: seq<nat>, numRead: nat, n: nat, after: seq<nat>) {
    var last := if upds == [] then 0 else upds[|upds| - 1];
    if numRead == 0 || numRead + n - last >= 524288 then after == upds + [numRead + n] else after == upds
  }

  lemma CreditIsDue(r: ReadSide, n: nat)
    requires !r.sessionClosed && Accounted(r)
    ensures Credits(r.upds, r.numRead, n, AccountRead(r, n).upds)
  {
  }

  /** In every run credit is given when it is due: by a read that takes what is queued, */
  lemma CreditWhenDue(steps: seq<Step>)
    requires var r := Reach(steps).r; !r.closed && r.queue != []
    ensures var r := Reach(steps).r;
      Credits(r.upds, r.numRead, |r.queue[0]|, Reach(steps + [ReadCall]).r.upds)
  {
    Accounts(steps);
    ReachThen(steps, ReadCall);
    var r := Reach(steps).r;
    CreditIsDue(r.(queue := r.queue[1..], given := r.given + r.queue[0]), |r.queue[0]|);
    ReadTakes(Reach(steps));
  }

  lemma ReadTakes(s: Flow)
    requires !s.r.closed && s.r.queue != []
    ensures Next(s, ReadCall).r
      == AccountRead(s.r.(queue := s.r.queue[1..], given := s.r.given + s.r.queue[0]), |s.r.queue[0]|)
  {
  }

  /** and by one that waited, when it takes what it was handed. */
  lemma CreditWhenTaken(steps: seq<Step>)
    requires var r := Reach(steps).r; !r.sessionClosed && r.handed != []
    ensures var r := Reach(steps).r;
      Credits(r.upds, r.numRead, |r.handed[0]|, Reach(steps + [TakeHanded]).r.upds)
  {
    Accounts(steps);
    ReachThen(steps, TakeHanded);
    var r := Reach(steps).r;
    var taken := r.(handed := r.handed[1..]);
    CreditIsDue(taken, |r.handed[0]|);
    assert Reach(steps + [TakeHanded]).r == AccountRead(taken, |r.handed[0]|);
  }

  /** A credit that reaches the writer tells it the count modulo 2^32 and a window of 1048576
      bytes. */
  lemma CreditIsTold(steps: seq<Step>)
    requires var s := Reach(steps); s.updsDelivered < |s.r.upds| && !s.w.removed
    ensures var s, t := Reach(steps), Reach(steps + [DeliverUpd]);
      && t.w.peerWindow == 1048576 && t.w.peerConsumed == s.r.upds[s.updsDelivered] % 4294967296
      && (t.w.waiting <==> s.w.waiting && 1048576 <= s.w.numWritten - t.w.peerConsumed)
  {
    ReachThen(steps, DeliverUpd);
  }

  /** A closed session gives no more credit, whatever is still read. */
  lemma {:induction false} NoCreditAfterTheSession(steps: seq<Step>, more: seq<Step>)
    requires Reach(steps).r.sessionClosed
    ensures Reach(steps + more).r.sessionClosed && Reach(steps + more).r.upds == Reach(steps).r.upds
  {
    if more == [] {
      assert steps + more == steps;
    } else {
      var n := |more| - 1;
      NoCreditAfterTheSession(steps, more[..n]);
      assert steps + more == (steps + more[..n]) + [more[n]];
      ReachThen(steps + more[..n], more[n]);
      SilentStep(Reach(steps + more[..n]), more[n]);
    }
  }

  lemma SilentStep(s: Flow, step: Step)
    requires s.r.sessionClosed
    ensures Next(s, step).r.sessionClosed && Next(s, step).r.upds == s.r.upds
  {
  }
}
