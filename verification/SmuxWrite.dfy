/** The write side of a SMUX v2 stream (extension/lib/smux.js): writes queued on the
    stream's tail, sent as the peer's window allows, and drained before the FIN.

    `Turn` is one turn of the loop in _writeSync, or one step of the promise tail. In
    the program turns that do not wait follow one another without interruption; here
    anything may happen between two of them, so what holds here holds there. */
module SmuxWrite {
  import opened Common

  const INITIAL_PEER_WINDOW := 262144
  const MAX_FRAME_SIZE := 32768

  /** A frame put on the session's output for this stream. */
  datatype Frame = Psh(data: seq<byte>) | Fin

  /** What waits on the tail: a write, from where it has got to, or a close. */
  datatype Task = Writing(data: seq<byte>, offset: nat, started: bool) | Closing

  datatype WriteSide = WriteSide(
    closed: bool,          // _closed
    closing: bool,         // _closing
    remoteClosed: bool,    // _remoteClosed
    waiting: bool,         // _writeResolve is set
    removed: bool,         // no longer in the session's map
    sessionClosed: bool,   // the session's _closed
    numWritten: nat,
    peerConsumed: nat,
    peerWindow: nat,
    tail: seq<Task>,       // _writeTail
    out: seq<Frame>,       // what reached the output
    accepted: seq<seq<byte>>)  // the writes that were not rejected, in call order

  const FRESH := WriteSide(false, false, false, false, false, false, 0, 0, INITIAL_PEER_WINDOW, [], [], [])

  /** May be negative. */
  function WriteWin(s: WriteSide): int {
    s.peerWindow - (s.numWritten - s.peerConsumed)
  }

  function Emit(s: WriteSide, f: Frame): WriteSide {
    if s.sessionClosed then s else s.(out := s.out + [f])
  }

  function Min(a: int, b: int): int {
    if a < b then a else b
  }

  // ---- Calls and arrivals

  function Write(s: WriteSide, data: seq<byte>): (WriteSide, bool) {
    if s.closed || s.closing || s.remoteClosed then (s, false)
    else (s.(tail := s.tail + [Writing(data, 0, false)], accepted := s.accepted + [data]), true)
  }

  function Close(s: WriteSide): WriteSide {
    if s.closed then s else s.(closing := true, waiting := false, tail := s.tail + [Closing])
  }

  function ForceClose(s: WriteSide): WriteSide {
    if s.closed then s else Emit(s.(closed := true, waiting := false, removed := true), Fin)
  }

  function HandleUpd(s: WriteSide, consumed: nat, window: nat): WriteSide {
    if s.removed then s
    else
      var t := s.(peerConsumed := consumed, peerWindow := window);
      t.(waiting := t.waiting && WriteWin(t) <= 0)
  }

  function HandleFin(s: WriteSide): WriteSide {
    if s.removed then s else s.(remoteClosed := true, waiting := false)
  }

  function CloseSession(s: WriteSide): WriteSide {
    if s.sessionClosed then s
    else if s.removed then s.(sessionClosed := true)
    else s.(sessionClosed := true, closed := true, closing := true, waiting := false, removed := true)
  }

  /** The next step of the tail, unless it waits for the window. */
  function Turn(s: WriteSide): WriteSide {
    if s.tail == [] || s.waiting then s
    else
      match s.tail[0]
      case Closing => FinishClose(s)
      case Writing(data, offset, started) =>
        if started && offset >= |data| then Drop(s)
        else if s.closed || s.remoteClosed then Drop(s)
        else if !started then Resume(s, Writing(data, offset, true))
        else if WriteWin(s) <= 0 then s.(waiting := true)
        else Send(s)
  }

  function FinishClose(s: WriteSide): WriteSide
    requires s.tail != []
  {
    Emit(s.(closed := true, removed := true, tail := s.tail[1..]), Fin)
  }

  /** The write is done, or fails. */
  function Drop(s: WriteSide): WriteSide
    requires s.tail != []
  {
    s.(tail := s.tail[1..])
  }

  function Resume(s: WriteSide, t: Task): WriteSide
    requires s.tail != []
  {
    s.(tail := [t] + s.tail[1..])
  }

  function Send(s: WriteSide): WriteSide
    requires s.tail != [] && s.tail[0].Writing? && s.tail[0].offset < |s.tail[0].data| && WriteWin(s) > 0
  {
    var Writing(data, offset, _) := s.tail[0];
    var n := ChunkLen(s, |data| - offset);
    var t := Emit(Resume(s, Writing(data, offset + n, true)), Psh(data[offset..offset + n]));
    t.(numWritten := t.numWritten + n)
  }

  function ChunkLen(s: WriteSide, remaining: nat): (n: nat)
    requires remaining > 0 && WriteWin(s) > 0
    ensures 0 < n <= remaining && n <= WriteWin(s) && n <= MAX_FRAME_SIZE
  {
    Min(Min(WriteWin(s), remaining), MAX_FRAME_SIZE)
  }

  // ---- Runs

  datatype Event =
    | CallWrite(data: seq<byte>) | CallClose | CallForceClose
    | Upd(consumed: nat, window: nat) | RemoteFin | SessionClose | Run

  function Exec(s: WriteSide, e: Event): WriteSide {
    match e
    case CallWrite(data) => Write(s, data).0
    case CallClose => Close(s)
    case CallForceClose => ForceClose(s)
    case Upd(consumed, window) => HandleUpd(s, consumed, window)
    case RemoteFin => HandleFin(s)
    case SessionClose => CloseSession(s)
    case Run => Turn(s)
  }

  function ExecAll(es: seq<Event>): WriteSide {
    if es == [] then FRESH else Exec(ExecAll(es[..|es| - 1]), es[|es| - 1])
  }

  lemma ExecAllThen(es: seq<Event>, e: Event)
    ensures ExecAll(es + [e]) == Exec(ExecAll(es), e)
  {
    assert (es + [e])[..|es|] == es;
  }

  /** The payloads sent, end to end. */
  function Sent(out: seq<Frame>): seq<byte> {
    if out == [] then []
    else
      match out[|out| - 1]
      case Psh(data) => Sent(out[..|out| - 1]) + data
      case Fin => Sent(out[..|out| - 1])
  }

  /** The bytes of a write that are still to be sent. */
  function Pending(t: Task): seq<byte> {
    if t.Writing? && t.offset <= |t.data| then t.data[t.offset..] else []
  }

  function Left(tail: seq<Task>): seq<byte> {
    if tail == [] then [] else Pending(tail[0]) + Left(tail[1..])
  }

  predicate Unsent(tail: seq<Task>) {
    forall i :: 0 < i < |tail| && tail[i].Writing? ==> tail[i].offset == 0 && !tail[i].started
  }

  /** Writes first, then closes; no close at all on a stream nobody closed. */
  predicate ClosesLast(s: WriteSide) {
    && (forall i, j :: 0 <= i < j < |s.tail| && s.tail[i].Closing? ==> s.tail[j].Closing?)
    && (!s.closing ==> forall i :: 0 <= i < |s.tail| ==> s.tail[i].Writing?)
  }

  /** Frames are never empty nor larger than a frame may be, and nothing but FIN
      follows a FIN. */
  predicate WellFramed(out: seq<Frame>) {
    && (forall i :: 0 <= i < |out| && out[i].Psh? ==> 0 < |out[i].data| <= MAX_FRAME_SIZE)
    && (forall i, j :: 0 <= i < j < |out| && out[i].Fin? ==> out[j].Fin?)
  }

  predicate IsPrefix(a: seq<byte>, b: seq<byte>) {
    |a| <= |b| && a == b[..|a|]
  }

  /** A writer that waits has no window, and nothing has ended its wait. */
  predicate NoLostWakeup(s: WriteSide) {
    s.waiting ==> WriteWin(s) <= 0 && !s.closed && !s.remoteClosed
  }

  /** Once a FIN is out the stream is closed. */
  predicate OutInv(s: WriteSide) {
    WellFramed(s.out) && (Fin in s.out ==> s.closed) && (s.removed ==> s.closed) && (s.sessionClosed ==> s.closed)
  }

  predicate TailInv(s: WriteSide) {
    ClosesLast(s) && Unsent(s.tail) && NoLostWakeup(s)
  }

  /** What was sent is the start of what was accepted, and while the stream is open the
      tail holds the rest. */
  predicate DataInv(s: WriteSide) {
    && s.numWritten == |Sent(s.out)|
    && if s.closed || s.remoteClosed then IsPrefix(Sent(s.out), Concat(s.accepted))
       else Sent(s.out) + Left(s.tail) == Concat(s.accepted)
  }

  predicate Inv(s: WriteSide) {
    OutInv(s) && TailInv(s) && DataInv(s)
  }

  lemma SentAppend(out: seq<Frame>, f: Frame)
    ensures Sent(out + [f]) == Sent(out) + if f.Psh? then f.data else []
  {
    assert (out + [f])[..|out|] == out;
  }

  lemma {:induction false} LeftAppend(tail: seq<Task>, t: Task)
    ensures Left(tail + [t]) == Left(tail) + Pending(t)
  {
    if tail == [] {
      assert (tail + [t])[1..] == tail;
    } else {
      LeftAppend(tail[1..], t);
      assert (tail + [t])[1..] == tail[1..] + [t] && (tail + [t])[0] == tail[0];
      Assoc(Pending(tail[0]), Left(tail[1..]), Pending(t));
    }
  }

  lemma WriteKeepsInv(s: WriteSide, data: seq<byte>)
    requires Inv(s)
    ensures Inv(Write(s, data).0)
  {
    var t := Write(s, data).0;
    if t != s {
      assert OutInv(t) && TailInv(t);
      LeftAppend(s.tail, Writing(data, 0, false));
      AcceptedAppend(s.accepted, data);
      Assoc(Sent(s.out), Left(s.tail), data);
    }
  }

  lemma AcceptedAppend(accepted: seq<seq<byte>>, data: seq<byte>)
    ensures Concat(accepted + [data]) == Concat(accepted) + data
  {
    ConcatAdd(accepted, [data]);
    ConcatOne(data);
  }

  lemma Assoc(a: seq<byte>, b: seq<byte>, c: seq<byte>)
    ensures a + (b + c) == (a + b) + c
  {
  }

  lemma CloseKeepsInv(s: WriteSide)
    requires Inv(s)
    ensures Inv(Close(s))
  {
    LeftAppend(s.tail, Closing);
    assert Left(s.tail) + [] == Left(s.tail);
  }

  lemma ForceCloseKeepsInv(s: WriteSide)
    requires Inv(s)
    ensures Inv(ForceClose(s))
  {
    SentAppend(s.out, Fin);
    SentIsPrefixNow(s);
  }

  /** Only a turn sends data, and never beyond the window. */
  lemma TurnStaysInWindow(s: WriteSide)
    ensures var t := Turn(s);
      && t.peerConsumed == s.peerConsumed && t.peerWindow == s.peerWindow && (s.removed ==> t.removed)
      && (t.numWritten == s.numWritten || t.numWritten - s.numWritten <= WriteWin(s))
  {
  }

  lemma OutGrows(s: WriteSide, e: Event)
    ensures s.out <= Exec(s, e).out
  {
    if e.Run? {
      TurnOutGrows(s);
    }
  }

  lemma TurnOutGrows(s: WriteSide)
    ensures s.out <= Turn(s).out
  {
  }

  lemma TurnKeepsOut(s: WriteSide)
    requires OutInv(s)
    ensures OutInv(Turn(s))
  {
  }

  lemma TurnKeepsTail(s: WriteSide)
    requires TailInv(s)
    ensures TailInv(Turn(s))
  {
    if s.tail != [] && !s.waiting {
      TailKeeps(s, s.tail[1..]);
      if s.tail[0].Writing? {
        TailKeeps(s, [s.tail[0].(started := true)] + s.tail[1..]);
        if s.tail[0].offset < |s.tail[0].data| && WriteWin(s) > 0 {
          TailKeeps(s, Send(s).tail);
        }
      }
    }
  }

  lemma TailKeeps(s: WriteSide, tail: seq<Task>)
    requires TailInv(s) && s.tail != []
    requires tail == s.tail[1..] || (|tail| == |s.tail| && tail[1..] == s.tail[1..] && tail[0].Writing? && s.tail[0].Writing?)
    ensures ClosesLast(s.(tail := tail)) && Unsent(tail)
  {
    if |tail| == |s.tail| {
      assert forall i :: 0 < i < |tail| ==> tail[i] == tail[1..][i - 1] == s.tail[1..][i - 1] == s.tail[i];
    }
  }

  lemma TurnKeepsData(s: WriteSide)
    requires OutInv(s) && DataInv(s)
    ensures DataInv(Turn(s))
  {
    if s.tail != [] && !s.waiting {
      match s.tail[0]
      case Closing =>
        FinishKeepsData(s);
      case Writing(data, offset, started) =>
        if started && offset < |data| && !s.closed && !s.remoteClosed && WriteWin(s) > 0 {
          SendKeepsData(s);
        } else {
          ResumeLeft(s.tail, Writing(data, offset, true));
        }
    }
  }

  lemma FinishKeepsData(s: WriteSide)
    requires DataInv(s) && s.tail != []
    ensures DataInv(FinishClose(s))
  {
    SentAppend(s.out, Fin);
    SentIsPrefixNow(s);
    assert Sent(s.out) + [] == Sent(s.out);
  }

  lemma ResumeLeft(tail: seq<Task>, t: Task)
    requires tail != []
    ensures Left([t] + tail[1..]) == Pending(t) + Left(tail[1..])
  {
    assert ([t] + tail[1..])[1..] == tail[1..];
  }

  lemma SendKeepsData(s: WriteSide)
    requires OutInv(s) && DataInv(s) && s.tail != [] && !s.closed && !s.remoteClosed
    requires s.tail[0].Writing? && s.tail[0].offset < |s.tail[0].data| && WriteWin(s) > 0
    ensures DataInv(Send(s))
  {
    var t, data, offset, n := SendMoves(s);
    SentIsMoved(s, t, data, offset, n);
  }

  /** One chunk of what was left is now sent. */
  lemma SentIsMoved(s: WriteSide, t: WriteSide, data: seq<byte>, offset: nat, n: nat)
    requires DataInv(s) && s.tail != [] && !s.closed && !s.remoteClosed && !t.closed && !t.remoteClosed
    requires offset + n <= |data| && Pending(s.tail[0]) == data[offset..]
    requires Sent(t.out) == Sent(s.out) + data[offset..offset + n]
    requires Left(t.tail) == data[offset + n..] + Left(s.tail[1..])
    requires t.numWritten == s.numWritten + n && t.accepted == s.accepted
    ensures DataInv(t)
  {
    Moved(Sent(s.out), data, offset, n, Left(s.tail[1..]));
  }

  /** What is left begins with a chunk; the chunk is sent. */
  lemma Moved(sent: seq<byte>, data: seq<byte>, offset: nat, n: nat, rest: seq<byte>)
    requires offset + n <= |data|
    ensures (sent + data[offset..offset + n]) + (data[offset + n..] + rest) == sent + (data[offset..] + rest)
  {
    Split(data, offset, n);
    SentThenLeft(sent, data[offset..offset + n], data[offset + n..], rest);
  }

  lemma SendMoves(s: WriteSide) returns (t: WriteSide, data: seq<byte>, offset: nat, n: nat)
    requires s.tail != [] && !s.sessionClosed
    requires s.tail[0].Writing? && s.tail[0].offset < |s.tail[0].data| && WriteWin(s) > 0
    ensures t == Send(s) && offset + n <= |data| && Pending(s.tail[0]) == data[offset..]
    ensures Sent(t.out) == Sent(s.out) + data[offset..offset + n]
    ensures Left(t.tail) == data[offset + n..] + Left(s.tail[1..])
    ensures t.numWritten == s.numWritten + n && t.accepted == s.accepted
    ensures t.closed == s.closed && t.remoteClosed == s.remoteClosed
  {
    t, data, offset := Send(s), s.tail[0].data, s.tail[0].offset;
    n := ChunkLen(s, |data| - offset);
    assert t.out == s.out + [Psh(data[offset..offset + n])];
    assert t.tail == [Writing(data, offset + n, true)] + s.tail[1..];
    OneMoreSent(s.out, t.out, data[offset..offset + n]);
    ResumedLeft(s.tail, t.tail, data, offset + n);
  }

  lemma OneMoreSent(out: seq<Frame>, out': seq<Frame>, data: seq<byte>)
    requires out' == out + [Psh(data)]
    ensures Sent(out') == Sent(out) + data
  {
    SentAppend(out, Psh(data));
  }

  lemma ResumedLeft(tail: seq<Task>, tail': seq<Task>, data: seq<byte>, offset: nat)
    requires tail != [] && offset <= |data| && tail' == [Writing(data, offset, true)] + tail[1..]
    ensures Left(tail') == data[offset..] + Left(tail[1..])
  {
    ResumeLeft(tail, Writing(data, offset, true));
  }

  lemma Split(data: seq<byte>, offset: nat, n: nat)
    requires offset + n <= |data|
    ensures data[offset..] == data[offset..offset + n] + data[offset + n..]
  {
  }

  lemma SentThenLeft(sent: seq<byte>, chunk: seq<byte>, after: seq<byte>, rest: seq<byte>)
    ensures (sent + chunk) + (after + rest) == sent + ((chunk + after) + rest)
  {
  }

  lemma SentIsPrefixNow(s: WriteSide)
    requires DataInv(s)
    ensures IsPrefix(Sent(s.out), Concat(s.accepted))
  {
    Beginning(Sent(s.out), Left(s.tail), Concat(s.accepted));
  }

  lemma Beginning(sent: seq<byte>, left: seq<byte>, all: seq<byte>)
    ensures sent + left == all ==> IsPrefix(sent, all)
  {
  }

  lemma ExecKeepsInv(s: WriteSide, e: Event)
    requires Inv(s)
    ensures Inv(Exec(s, e))
  {
    SentIsPrefixNow(s);
    match e
    case CallWrite(data) => WriteKeepsInv(s, data);
    case CallClose => CloseKeepsInv(s);
    case CallForceClose => ForceCloseKeepsInv(s);
    case Run => TurnKeepsOut(s); TurnKeepsTail(s); TurnKeepsData(s);
    case _ =>
  }

  lemma {:induction false} InvHolds(es: seq<Event>)
    ensures Inv(ExecAll(es))
  {
    if es != [] {
      InvHolds(es[..|es| - 1]);
      ExecKeepsInv(ExecAll(es[..|es| - 1]), es[|es| - 1]);
    }
  }

  /** Whatever happens to a stream and in whatever order: the bytes it has sent are a
      prefix of what was accepted, in call order; every data frame fits; no data follows
      a FIN; and a writer that waits is one the window does not let through. */
  lemma SentIsPrefix(es: seq<Event>)
    ensures var s := ExecAll(es);
      && IsPrefix(Sent(s.out), Concat(s.accepted))
      && WellFramed(s.out)
      && s.numWritten == |Sent(s.out)|
      && NoLostWakeup(s)
  {
    InvHolds(es);
    SentIsPrefixNow(ExecAll(es));
  }

  /** Nothing ends the stream but its own graceful close. */
  predicate Gentle(es: seq<Event>) {
    forall i :: 0 <= i < |es| ==> !es[i].CallForceClose? && !es[i].RemoteFin? && !es[i].SessionClose?
  }

  /** A graceful close that runs to its end sends everything first. */
  lemma {:induction false} GracefulCloseSendsAll(es: seq<Event>)
    requires Gentle(es)
    ensures !ExecAll(es).remoteClosed
    ensures ExecAll(es).closed ==> Complete(ExecAll(es))
  {
    if es != [] {
      var n := |es| - 1;
      var s := ExecAll(es[..n]);
      GracefulCloseSendsAll(es[..n]);
      InvHolds(es[..n]);
      NeverSessionClosed(es[..n]);
      assert !es[n].CallForceClose? && !es[n].RemoteFin? && !es[n].SessionClose?;
      GentleStep(s, es[n]);
      assert ExecAll(es) == Exec(s, es[n]);
    }
  }

  /** All that was accepted has been sent, and the FIN after it. */
  predicate Complete(s: WriteSide) {
    Sent(s.out) == Concat(s.accepted) && Fin in s.out
  }

  lemma GentleStep(s: WriteSide, e: Event)
    requires Inv(s) && !s.remoteClosed && !s.sessionClosed && (s.closed ==> Complete(s))
    requires !e.CallForceClose? && !e.RemoteFin? && !e.SessionClose?
    ensures !Exec(s, e).remoteClosed
    ensures Exec(s, e).closed ==> Complete(Exec(s, e))
  {
    if e.Run? {
      if s.closed {
        TurnAfterClose(s);
      } else if Turn(s).closed {
        assert s.tail[0].Closing?;
        ClosesLeaveNothing(s.tail);
        SentAppend(s.out, Fin);
        assert Sent(s.out) + [] == Sent(s.out);
      }
    }
  }

  lemma {:induction false} ClosesLeaveNothing(tail: seq<Task>)
    requires forall i :: 0 <= i < |tail| ==> tail[i].Closing?
    ensures Left(tail) == []
  {
    if tail != [] {
      ClosesLeaveNothing(tail[1..]);
    }
  }

  lemma TurnAfterClose(s: WriteSide)
    requires s.closed
    ensures Sent(Turn(s).out) == Sent(s.out) && (Fin in s.out ==> Fin in Turn(s).out)
    ensures Turn(s).accepted == s.accepted
  {
    assert Turn(s).out == s.out || Turn(s).out == s.out + [Fin];
    SentAppend(s.out, Fin);
    assert Sent(s.out) + [] == Sent(s.out);
  }

  lemma StaysOpen(s: WriteSide, e: Event)
    requires !s.sessionClosed && !e.SessionClose?
    ensures !Exec(s, e).sessionClosed
  {
  }

  lemma {:induction false} NeverSessionClosed(es: seq<Event>)
    requires SessionClose !in es
    ensures !ExecAll(es).sessionClosed
  {
    if es != [] {
      var n := |es| - 1;
      NeverSessionClosed(es[..n]);
      assert es[n] in es;
      StaysOpen(ExecAll(es[..n]), es[n]);
    }
  }
}
