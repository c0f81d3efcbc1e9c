/** Credit-based flow control between two SMUX v2 streams that run
    extension/lib/smux.js, joined by a channel for frames and a channel for window
    updates, each in order and without loss. */
module SmuxFlow {
  import opened Common
  import opened SmuxWrite

  const MAX_STREAM_BUFFER := 1048576
  const UPD_THRESHOLD := 524288
  const TWO32 := 0x1_0000_0000

  /** The read side of a stream. */
  datatype ReadSide = ReadSide(
    queue: seq<seq<byte>>,   // _readQueue
    waiting: bool,           // _readResolve is set
    handed: seq<seq<byte>>,  // chunks a waiting read was resolved with and has not accounted for yet
    closed: bool,            // _closed, and out of the session's map
    remoteClosed: bool,      // _remoteClosed
    sessionClosed: bool,     // the session's _closed
    numRead: nat,
    updIncr: nat,
    given: seq<byte>,        // what reads were given, end to end
    upds: seq<nat>)          // the counts sent in UPD frames, before they are cut to 32 bits

  const UNREAD := ReadSide([], false, [], false, false, false, 0, 0, [], [])

  function PushData(r: ReadSide, data: seq<byte>): ReadSide {
    if r.closed then r
    else if r.waiting then r.(waiting := false, handed := r.handed + [data], given := r.given + data)
    else r.(queue := r.queue + [data])
  }

  function AccountRead(r: ReadSide, n: nat): ReadSide {
    var t := r.(numRead := r.numRead + n, updIncr := r.updIncr + n);
    if t.numRead == n || t.updIncr >= UPD_THRESHOLD
    then t.(updIncr := 0, upds := if t.sessionClosed then t.upds else t.upds + [t.numRead])
    else t
  }

  function Read(r: ReadSide): ReadSide {
    if r.closed then r
    else if r.queue != [] then
      AccountRead(r.(queue := r.queue[1..], given := r.given + r.queue[0]), |r.queue[0]|)
    else if r.remoteClosed then r
    else r.(waiting := true)
  }

  /** A read that waited goes on with the chunk it was resolved with. */
  function Take(r: ReadSide): ReadSide {
    if r.handed == [] then r else AccountRead(r.(handed := r.handed[1..]), |r.handed[0]|)
  }

  function RemoteFinished(r: ReadSide): ReadSide {
    if r.closed then r else r.(remoteClosed := true, waiting := false)
  }

  /** What the receiver's own close does to its reads: first the waiting read ends, then
      the stream is closed. */
  function Unblock(r: ReadSide): ReadSide {
    if r.closed then r else r.(waiting := false)
  }

  function Shut(r: ReadSide): ReadSide {
    r.(closed := true)
  }

  function ShutSession(r: ReadSide): ReadSide {
    if r.sessionClosed then r
    else if r.closed then r.(sessionClosed := true)
    else r.(sessionClosed := true, closed := true, waiting := false)
  }

  // ---- Both ends

  /** The channels hold what was put out and has not been delivered: the frames of w.out
      from `delivered` on, the updates of r.upds from `updsDelivered` on. */
  datatype Flow = Flow(
    w: WriteSide,
    r: ReadSide,
    delivered: nat,
    updsDelivered: nat,
    acked: nat)   // the count in the last update the writer took, before it was cut

  const START := Flow(FRESH, UNREAD, 0, 0, 0)

  datatype Step =
    | AtWriter(e: Event)   // anything but an update, which only the channel delivers
    | Deliver | DeliverUpd
    | ReadCall | TakeHanded | UnblockReads | ShutReader | ShutReaderSession

  function Next(s: Flow, step: Step): Flow {
    match step
    case AtWriter(e) => if e.Upd? then s else s.(w := Exec(s.w, e))
    case Deliver => DeliverFrame(s)
    case DeliverUpd => DeliverUpdate(s)
    case ReadCall => s.(r := Read(s.r))
    case TakeHanded => s.(r := Take(s.r))
    case UnblockReads => s.(r := Unblock(s.r))
    case ShutReader => s.(r := Shut(s.r))
    case ShutReaderSession => s.(r := ShutSession(s.r))
  }

  function DeliverFrame(s: Flow): Flow {
    if s.delivered >= |s.w.out| then s
    else
      var r := match s.w.out[s.delivered]
        case Psh(data) => PushData(s.r, data)
        case Fin => RemoteFinished(s.r);
      s.(r := r, delivered := s.delivered + 1)
  }

  function DeliverUpdate(s: Flow): Flow {
    if s.updsDelivered >= |s.r.upds| then s
    else
      var n := s.r.upds[s.updsDelivered];
      s.(w := HandleUpd(s.w, n % TWO32, MAX_STREAM_BUFFER),
         updsDelivered := s.updsDelivered + 1,
         acked := if s.w.removed then s.acked else n)
  }

  function Reach(steps: seq<Step>): Flow {
    if steps == [] then START else Next(Reach(steps[..|steps| - 1]), steps[|steps| - 1])
  }

  // ---- What every step keeps

  function Latest(upds: seq<nat>): nat {
    if upds == [] then 0 else upds[|upds| - 1]
  }

  /** Every byte given to a read is counted, or about to be; every counted byte is
      credited to the writer, but for less than half a buffer. */
  predicate ReadInv(r: ReadSide) {
    && r.numRead + |Concat(r.handed)| == |r.given|
    && r.updIncr < UPD_THRESHOLD
    && (!r.sessionClosed ==> Latest(r.upds) + r.updIncr == r.numRead && (r.upds == [] ==> r.numRead == 0))
    && (forall i, j :: 0 <= i <= j < |r.upds| ==> r.upds[i] <= r.upds[j])
    && (forall i :: 0 <= i < |r.upds| ==> r.upds[i] <= r.numRead)
    && (r.sessionClosed ==> r.closed)
    && (r.waiting ==> r.queue == [])
  }

  /** The writer's counters are those of the last update it took, cut to 32 bits, and it
      is within the window. */
  predicate CreditInv(s: Flow) {
    && s.updsDelivered <= |s.r.upds|
    && s.w.peerConsumed == s.acked % TWO32
    && s.acked <= s.r.numRead
    && (forall i :: s.updsDelivered <= i < |s.r.upds| ==> s.acked <= s.r.upds[i])
    && (!s.w.removed ==> s.acked == Latest(s.r.upds[..s.updsDelivered]))
    && (s.w.peerWindow == MAX_STREAM_BUFFER || (s.w.peerWindow == INITIAL_PEER_WINDOW && (s.w.removed || s.updsDelivered == 0)))
    && s.w.numWritten <= s.acked + s.w.peerWindow
  }

  /** Nothing is lost, repeated or reordered on the way to the reader. */
  predicate DeliveryInv(s: Flow) {
    && s.delivered <= |s.w.out|
    && var arrived := Sent(s.w.out[..s.delivered]);
       var have := s.r.given + Concat(s.r.queue);
       if s.r.closed then IsPrefix(have, arrived) else have == arrived
  }

  predicate FlowInv(s: Flow) {
    Inv(s.w) && ReadInv(s.r) && CreditInv(s) && DeliveryInv(s)
  }

  lemma ConcatTail(chunks: seq<seq<byte>>)
    requires chunks != []
    ensures Concat(chunks) == chunks[0] + Concat(chunks[1..])
    ensures |Concat(chunks)| == |chunks[0]| + |Concat(chunks[1..])|
  {
    ConcatHead(chunks);
  }

  /** A read changes the updates only by appending, and never lowers the count. */
  predicate Grows(r: ReadSide, t: ReadSide) {
    && r.numRead <= t.numRead && r.upds <= t.upds
    && forall i :: |r.upds| <= i < |t.upds| ==> r.numRead <= t.upds[i]
  }

  lemma AccountKeepsReadInv(r: ReadSide, s: ReadSide, n: nat)
    requires ReadInv(r) && s == r.(queue := s.queue, handed := s.handed, given := s.given)
    requires r.numRead + n + |Concat(s.handed)| == |s.given| && (r.waiting ==> s.queue == [])
    ensures ReadInv(AccountRead(s, n)) && Grows(r, AccountRead(s, n))
  {
    AccountGrows(s, n);
    AccountCounts(r, s, n);
  }

  lemma AccountGrows(s: ReadSide, n: nat)
    ensures Grows(s, AccountRead(s, n))
  {
  }

  lemma AccountCounts(r: ReadSide, s: ReadSide, n: nat)
    requires ReadInv(r) && s == r.(queue := s.queue, handed := s.handed, given := s.given)
    requires r.numRead + n + |Concat(s.handed)| == |s.given| && (r.waiting ==> s.queue == [])
    ensures ReadInv(AccountRead(s, n))
  {
    var t := AccountRead(s, n);
    assert t.upds == r.upds || t.upds == r.upds + [r.numRead + n];
  }

  lemma PushKeepsReadInv(r: ReadSide, data: seq<byte>)
    requires ReadInv(r)
    ensures ReadInv(PushData(r, data))
  {
    AcceptedAppend(r.handed, data);
  }

  lemma ClosingKeepsReadInv(r: ReadSide)
    requires ReadInv(r)
    ensures ReadInv(Unblock(r)) && ReadInv(Shut(r)) && ReadInv(ShutSession(r))
  {
  }

  lemma ReadKeepsReadInv(r: ReadSide)
    requires ReadInv(r)
    ensures ReadInv(Read(r)) && Grows(r, Read(r))
  {
    if !r.closed && r.queue != [] {
      var t := r.(queue := r.queue[1..], given := r.given + r.queue[0]);
      AccountKeepsReadInv(r, t, |r.queue[0]|);
    }
  }

  lemma TakeKeepsReadInv(r: ReadSide)
    requires ReadInv(r)
    ensures ReadInv(Take(r)) && Grows(r, Take(r))
  {
    if r.handed != [] {
      ConcatTail(r.handed);
      AccountKeepsReadInv(r, r.(handed := r.handed[1..]), |r.handed[0]|);
    }
  }

  lemma GrowingKeepsCredit(s: Flow, r: ReadSide)
    requires CreditInv(s) && Grows(s.r, r)
    ensures CreditInv(s.(r := r))
  {
    assert r.upds[..s.updsDelivered] == s.r.upds[..s.updsDelivered];
  }

  lemma WriterKeepsCredit(s: Flow, e: Event)
    requires CreditInv(s) && !e.Upd?
    ensures CreditInv(s.(w := Exec(s.w, e)))
  {
    if e.Run? {
      TurnKeepsCredit(s);
    }
  }

  lemma TurnKeepsCredit(s: Flow)
    requires CreditInv(s)
    ensures CreditInv(s.(w := Turn(s.w)))
  {
    TurnStaysInWindow(s.w);
    DivMod(s.acked, TWO32);
    CreditAfter(s, Turn(s.w));
  }

  lemma CreditAfter(s: Flow, w: WriteSide)
    requires CreditInv(s)
    requires w.peerConsumed == s.w.peerConsumed && w.peerWindow == s.w.peerWindow && (s.w.removed ==> w.removed)
    requires w.numWritten <= s.acked + w.peerWindow
    ensures CreditInv(s.(w := w))
  {
  }

  lemma UpdateKeepsCredit(s: Flow)
    requires CreditInv(s) && ReadInv(s.r)
    ensures CreditInv(DeliverUpdate(s))
  {
    if s.updsDelivered < |s.r.upds| {
      var k := s.updsDelivered;
      assert s.r.upds[..k + 1][k] == s.r.upds[k];
    }
  }

  lemma SentMonotone(out: seq<Frame>, k: nat)
    requires k <= |out|
    ensures IsPrefix(Sent(out[..k]), Sent(out))
  {
    if k < |out| {
      SentMonotone(out[..|out| - 1], k);
      assert out[..|out| - 1][..k] == out[..k];
    } else {
      assert out[..k] == out;
    }
  }

  // ---- What arrives

  /** The reader's bytes, given or queued. */
  function Have(r: ReadSide): seq<byte> {
    r.given + Concat(r.queue)
  }

  lemma PushHas(r: ReadSide, data: seq<byte>)
    requires !r.closed && (r.waiting ==> r.queue == [])
    ensures Have(PushData(r, data)) == Have(r) + data
  {
    AcceptedAppend(r.queue, data);
    Assoc(r.given, Concat(r.queue), data);
    if r.waiting {
      assert r.given + data + [] == r.given + data && r.given + [] == r.given;
    }
  }

  /** Reading moves bytes from the queue to the reads, in order. */
  lemma ReadHas(r: ReadSide)
    ensures Have(Read(r)) == Have(r) && Have(Take(r)) == Have(r)
  {
    if !r.closed && r.queue != [] {
      ConcatTail(r.queue);
      Assoc(r.given, r.queue[0], Concat(r.queue[1..]));
    }
  }

  lemma ReaderKeepsDelivery(s: Flow, r: ReadSide)
    requires DeliveryInv(s) && Have(r) == Have(s.r) && (s.r.closed ==> r.closed)
    ensures DeliveryInv(s.(r := r))
  {
  }

  lemma WriterKeepsDelivery(s: Flow, e: Event)
    requires DeliveryInv(s)
    ensures DeliveryInv(s.(w := Exec(s.w, e)))
  {
    OutGrows(s.w, e);
    assert Exec(s.w, e).out[..s.delivered] == s.w.out[..s.delivered];
  }

  lemma UpdateKeepsDelivery(s: Flow)
    requires DeliveryInv(s)
    ensures DeliveryInv(DeliverUpdate(s)) && DeliverUpdate(s).w.out == s.w.out
  {
  }

  lemma FrameKeepsDelivery(s: Flow)
    requires DeliveryInv(s) && ReadInv(s.r)
    ensures DeliveryInv(DeliverFrame(s))
  {
    if s.delivered < |s.w.out| {
      var f := s.w.out[s.delivered];
      assert s.w.out[..s.delivered + 1] == s.w.out[..s.delivered] + [f];
      SentAppend(s.w.out[..s.delivered], f);
      if f.Psh? && !s.r.closed {
        PushHas(s.r, f.data);
      }
    }
  }

  lemma StepKeepsInv(s: Flow, step: Step)
    requires FlowInv(s)
    ensures FlowInv(Next(s, step))
  {
    match step
    case AtWriter(e) =>
      if !e.Upd? {
        ExecKeepsInv(s.w, e);
        WriterKeepsDelivery(s, e);
        WriterKeepsCredit(s, e);
      }
    case Deliver => FrameKeepsInv(s);
    case DeliverUpd => UpdateKeepsInv(s);
    case _ =>
      ReaderStepKeepsReadInv(s.r, step);
      ReaderKeepsInv(s, Next(s, step).r);
  }

  predicate AtReader(step: Step) {
    step.ReadCall? || step.TakeHanded? || step.UnblockReads? || step.ShutReader? || step.ShutReaderSession?
  }

  lemma ReaderStepKeepsReadInv(r: ReadSide, step: Step)
    requires ReadInv(r) && AtReader(step)
    ensures var t := Next(START.(r := r), step).r;
      ReadInv(t) && Grows(r, t) && Have(t) == Have(r) && (r.closed ==> t.closed)
  {
    if step.ReadCall? {
      ReadKeepsReadInv(r);
      ReadHas(r);
    } else if step.TakeHanded? {
      TakeKeepsReadInv(r);
      ReadHas(r);
    } else {
      ClosingStepKeepsReadInv(r, step);
    }
  }

  lemma ClosingStepKeepsReadInv(r: ReadSide, step: Step)
    requires ReadInv(r) && AtReader(step) && !step.ReadCall? && !step.TakeHanded?
    ensures var t := Next(START.(r := r), step).r;
      ReadInv(t) && Grows(r, t) && Have(t) == Have(r) && (r.closed ==> t.closed)
  {
    ClosingKeepsReadInv(r);
    var t := Next(START.(r := r), step).r;
    assert t.given == r.given && t.queue == r.queue && t.numRead == r.numRead && t.upds == r.upds;
  }

  lemma ReaderKeepsInv(s: Flow, r: ReadSide)
    requires FlowInv(s) && ReadInv(r) && Grows(s.r, r) && Have(r) == Have(s.r) && (s.r.closed ==> r.closed)
    ensures FlowInv(s.(r := r))
  {
    GrowingKeepsCredit(s, r);
    ReaderKeepsDelivery(s, r);
  }

  lemma FrameKeepsInv(s: Flow)
    requires FlowInv(s)
    ensures FlowInv(DeliverFrame(s))
  {
    FrameKeepsDelivery(s);
    FrameKeepsReader(s);
    FrameKeepsCredit(s);
  }

  lemma FrameKeepsReader(s: Flow)
    requires ReadInv(s.r)
    ensures ReadInv(DeliverFrame(s).r) && DeliverFrame(s).w == s.w
    ensures DeliverFrame(s).r.numRead == s.r.numRead && DeliverFrame(s).r.upds == s.r.upds
  {
    if s.delivered < |s.w.out| && s.w.out[s.delivered].Psh? {
      PushKeepsReadInv(s.r, s.w.out[s.delivered].data);
    }
  }

  lemma FrameKeepsCredit(s: Flow)
    requires CreditInv(s) && ReadInv(s.r)
    ensures CreditInv(DeliverFrame(s))
  {
    FrameKeepsReader(s);
  }

  lemma UpdateKeepsInv(s: Flow)
    requires FlowInv(s)
    ensures FlowInv(DeliverUpdate(s))
  {
    UpdateKeepsCredit(s);
    UpdateKeepsDelivery(s);
    if s.updsDelivered < |s.r.upds| {
      ExecKeepsInv(s.w, Upd(s.r.upds[s.updsDelivered] % TWO32, MAX_STREAM_BUFFER));
    }
  }

  lemma {:induction false} FlowInvHolds(steps: seq<Step>)
    ensures FlowInv(Reach(steps))
  {
    if steps == [] {
      StartHolds();
    } else {
      FlowInvHolds(steps[..|steps| - 1]);
      LastStepHolds(steps);
    }
  }

  lemma StartHolds()
    ensures FlowInv(START)
  {
    StartDelivered();
    StartCredited();
  }

  lemma StartDelivered()
    ensures DeliveryInv(START) && ReadInv(START.r)
  {
    assert Concat(UNREAD.queue) == [] && Sent(FRESH.out[..0]) == [];
  }

  lemma StartCredited()
    ensures CreditInv(START) && Inv(START.w)
  {
    assert START.r.upds[..0] == [];
  }

  lemma LastStepHolds(steps: seq<Step>)
    requires steps != [] && FlowInv(Reach(steps[..|steps| - 1]))
    ensures FlowInv(Reach(steps))
  {
    StepKeepsInv(Reach(steps[..|steps| - 1]), steps[|steps| - 1]);
  }

  // ---- What holds in every run

  /** What reads were given, and then what is queued, is the data of the frames delivered
      so far; the bytes still in the channel follow it. Every byte written is in exactly
      one of these places, and all of them are in the order they were accepted in. */
  lemma NothingIsLost(steps: seq<Step>)
    ensures var s := Reach(steps);
      && s.delivered <= |s.w.out|
      && (!s.r.closed ==> s.r.given + Concat(s.r.queue) == Sent(s.w.out[..s.delivered]))
      && Sent(s.w.out) == Sent(s.w.out[..s.delivered]) + Sent(s.w.out[s.delivered..])
      && IsPrefix(s.r.given, Concat(s.w.accepted))
  {
    FlowInvHolds(steps);
    NothingIsLostIn(Reach(steps));
  }

  lemma SentInTwo(out: seq<Frame>, k: nat)
    requires k <= |out|
    ensures Sent(out) == Sent(out[..k]) + Sent(out[k..])
  {
    SentAdd(out[..k], out[k..]);
    assert out[..k] + out[k..] == out;
  }

  lemma NothingIsLostIn(s: Flow)
    requires Inv(s.w) && DeliveryInv(s)
    ensures Sent(s.w.out) == Sent(s.w.out[..s.delivered]) + Sent(s.w.out[s.delivered..])
    ensures IsPrefix(s.r.given, Concat(s.w.accepted))
  {
    SentInTwo(s.w.out, s.delivered);
    SentIsPrefixNow(s.w);
    SentMonotone(s.w.out, s.delivered);
    GivenIsPrefix(s.r.given, Concat(s.r.queue), Sent(s.w.out[..s.delivered]), Sent(s.w.out), Concat(s.w.accepted));
  }

  lemma GivenIsPrefix(given: seq<byte>, queued: seq<byte>, arrived: seq<byte>, sent: seq<byte>, accepted: seq<byte>)
    requires IsPrefix(given + queued, arrived) && IsPrefix(arrived, sent) && IsPrefix(sent, accepted)
    ensures IsPrefix(given, accepted)
  {
    forall i | 0 <= i < |given| ensures given[i] == accepted[i] {
      assert given[i] == (given + queued)[i] == arrived[i] == sent[i];
    }
  }

  lemma {:induction false} SentAdd(a: seq<Frame>, b: seq<Frame>)
    ensures Sent(a + b) == Sent(a) + Sent(b)
  {
    if b == [] {
      assert a + b == a;
    } else {
      var n := |b| - 1;
      SentAdd(a, b[..n]);
      assert (a + b)[..|a + b| - 1] == a + b[..n];
      if b[n].Psh? {
        Assoc(Sent(a), Sent(b[..n]), b[n].data);
      }
    }
  }

  /** The writer never has more than the peer's window unacknowledged, and so a stream
      never holds more than a buffer of unread data. */
  lemma UnreadFitsTheBuffer(steps: seq<Step>)
    ensures var s := Reach(steps);
      && s.w.numWritten - s.acked <= s.w.peerWindow <= MAX_STREAM_BUFFER
      && |Concat(s.r.queue)| + |Concat(s.r.handed)| <= MAX_STREAM_BUFFER
  {
    var s := Reach(steps);
    FlowInvHolds(steps);
    SentMonotone(s.w.out, s.delivered);
  }

  /** Nothing is on its way and nothing is unread. */
  predicate Drained(s: Flow) {
    && s.delivered == |s.w.out| && s.updsDelivered == |s.r.upds|
    && s.r.queue == [] && s.r.handed == []
    && !s.r.closed && !s.w.removed
  }

  /** Exactly as long as fewer than 2^32 bytes were credited, a writer whose data has all
      been read has a window to write in. */
  lemma DrainedWriterMayWrite(steps: seq<Step>)
    requires Drained(Reach(steps))
    ensures var s := Reach(steps);
      && s.r.numRead == s.w.numWritten
      && (WriteWin(s.w) > 0 <==> s.r.numRead - s.r.updIncr < TWO32)
  {
    FlowInvHolds(steps);
    DrainedCounts(Reach(steps));
  }

  lemma DrainedCounts(s: Flow)
    requires FlowInv(s) && Drained(s)
    ensures s.r.numRead == s.w.numWritten
    ensures WriteWin(s.w) > 0 <==> s.r.numRead - s.r.updIncr < TWO32
    ensures WriteWin(s.w) > 0 ==> WriteWin(s.w) >= MAX_FRAME_SIZE
  {
    assert s.w.out[..s.delivered] == s.w.out;
    assert s.r.upds[..s.updsDelivered] == s.r.upds;
    assert Concat(s.r.queue) == [] && Concat(s.r.handed) == [];
    assert |s.r.given| == |Sent(s.w.out)| by {
      assert s.r.given + [] == s.r.given;
    }
    CutCredit(s.acked, s.r.updIncr, s.w.peerWindow);
  }

  lemma CutCredit(credited: nat, behind: nat, window: nat)
    requires behind < UPD_THRESHOLD
    requires window == MAX_STREAM_BUFFER || (window == INITIAL_PEER_WINDOW && credited + behind == 0)
    ensures window - (credited + behind - credited % TWO32) > 0 <==> credited < TWO32
    ensures credited < TWO32 ==> window - (credited + behind - credited % TWO32) >= MAX_FRAME_SIZE
  {
    DivMod(credited, TWO32);
  }

  /** No credit deadlock on a stream of fewer than 2^32 bytes. */
  lemma ShortStreamNeverStalls(steps: seq<Step>)
    requires Drained(Reach(steps)) && Reach(steps).w.numWritten < TWO32
    ensures WriteWin(Reach(steps).w) > 0 && !Reach(steps).w.waiting
  {
    DrainedWriterMayWrite(steps);
    FlowInvHolds(steps);
  }

  predicate OnlyFins(frames: seq<Frame>) {
    forall i :: 0 <= i < |frames| ==> frames[i].Fin?
  }

  /** No window; no update under way or still to be sent; only FINs on their way. */
  predicate Stalled(s: Flow) {
    && WriteWin(s.w) <= 0 && s.updsDelivered == |s.r.upds| && s.r.queue == [] && s.r.handed == []
    && s.delivered <= |s.w.out| && OnlyFins(s.w.out[s.delivered..])
  }

  lemma StalledWriter(w: WriteSide, e: Event)
    requires WriteWin(w) <= 0 && !e.Upd?
    ensures var t := Exec(w, e);
      && t.numWritten == w.numWritten && WriteWin(t) <= 0
      && (t.out == w.out || t.out == w.out + [Fin])
  {
    if e.Run? {
      StalledTurn(w);
    }
  }

  lemma StalledTurn(w: WriteSide)
    requires WriteWin(w) <= 0
    ensures var t := Turn(w);
      && t.numWritten == w.numWritten && t.peerConsumed == w.peerConsumed && t.peerWindow == w.peerWindow
      && (t.out == w.out || t.out == w.out + [Fin])
  {
  }

  lemma StallStays(s: Flow, step: Step)
    requires Stalled(s)
    ensures Stalled(Next(s, step)) && Next(s, step).w.numWritten == s.w.numWritten
  {
    match step
    case AtWriter(e) =>
      if !e.Upd? {
        StalledWriter(s.w, e);
        OneFinMore(s.w.out, s.delivered);
      }
    case Deliver =>
      if s.delivered < |s.w.out| {
        assert s.w.out[s.delivered..][0].Fin?;
        assert s.w.out[s.delivered..][1..] == s.w.out[s.delivered + 1..];
      }
    case _ =>
  }

  lemma OneFinMore(out: seq<Frame>, k: nat)
    requires k <= |out| && OnlyFins(out[k..])
    ensures OnlyFins((out + [Fin])[k..])
  {
    assert (out + [Fin])[k..] == out[k..] + [Fin];
  }

  lemma {:induction false} StallIsForGood(steps: seq<Step>, more: seq<Step>)
    requires Stalled(Reach(steps))
    ensures Stalled(Reach(steps + more)) && Reach(steps + more).w.numWritten == Reach(steps).w.numWritten
  {
    if more == [] {
      assert steps + more == steps;
    } else {
      var n := |more| - 1;
      StallIsForGood(steps, more[..n]);
      assert steps + more == (steps + more[..n]) + [more[n]];
      ReachThen(steps + more[..n], more[n]);
      StallStays(Reach(steps + more[..n]), more[n]);
    }
  }

  /** A stream of 2^32 bytes and half a buffer is over: with everything read and every
      update delivered there is no window, and whatever happens next there is none and
      nothing more is sent. */
  lemma LongStreamStalls(steps: seq<Step>, more: seq<Step>)
    requires Drained(Reach(steps)) && Reach(steps).w.numWritten >= TWO32 + UPD_THRESHOLD
    ensures WriteWin(Reach(steps).w) <= 0
    ensures WriteWin(Reach(steps + more).w) <= 0 && Reach(steps + more).w.numWritten == Reach(steps).w.numWritten
  {
    DrainedWriterMayWrite(steps);
    FlowInvHolds(steps);
    StallIsForGood(steps, more);
  }

  // ---- The stall is real

  /** Drained, and open at both ends with nobody waiting. */
  predicate Idle(s: Flow) {
    && Drained(s) && s.w.tail == [] && !s.w.waiting && !s.w.closed && !s.w.closing && !s.w.remoteClosed
    && !s.w.sessionClosed && !s.r.waiting && !s.r.remoteClosed && !s.r.sessionClosed
  }

  function Block(): seq<byte> {
    seq(MAX_FRAME_SIZE, i => 0)
  }

  /** One more frame's worth of data is written, sent, delivered, read and credited. */
  function Round(steps: seq<Step>): seq<Step> {
    Received(Written(steps))
  }

  function Written(steps: seq<Step>): seq<Step> {
    steps + [AtWriter(CallWrite(Block()))] + [AtWriter(Run)] + [AtWriter(Run)] + [AtWriter(Run)]
  }

  function Received(steps: seq<Step>): seq<Step> {
    steps + [Deliver] + [ReadCall] + [DeliverUpd]
  }

  lemma ReachThen(steps: seq<Step>, step: Step)
    ensures Reach(steps + [step]) == Next(Reach(steps), step)
  {
    assert (steps + [step])[..|steps|] == steps;
  }

  lemma ReachRound(steps: seq<Step>)
    ensures Reach(Round(steps)) == ReadAndCredit(WriteAndSend(Reach(steps)))
  {
    ReachWritten(steps);
    ReachReceived(Written(steps));
  }

  lemma ReachWritten(steps: seq<Step>)
    ensures Reach(Written(steps)) == WriteAndSend(Reach(steps))
  {
    var s1 := steps + [AtWriter(CallWrite(Block()))];
    ReachThen(steps, AtWriter(CallWrite(Block())));
    ReachThen(s1, AtWriter(Run));
    ReachThen(s1 + [AtWriter(Run)], AtWriter(Run));
    ReachThen(s1 + [AtWriter(Run)] + [AtWriter(Run)], AtWriter(Run));
  }

  lemma ReachReceived(steps: seq<Step>)
    ensures Reach(Received(steps)) == ReadAndCredit(Reach(steps))
  {
    ReachThen(steps, Deliver);
    ReachThen(steps + [Deliver], ReadCall);
    ReachThen(steps + [Deliver] + [ReadCall], DeliverUpd);
  }

  function WriteAndSend(s: Flow): Flow {
    s.(w := Turn(Turn(Turn(Write(s.w, Block()).0))))
  }

  function ReadAndCredit(s: Flow): Flow {
    DeliverUpdate(Next(DeliverFrame(s), ReadCall))
  }

  lemma BlockIsSent(s: Flow)
    requires Idle(s) && WriteWin(s.w) >= MAX_FRAME_SIZE
    ensures WriteAndSend(s) == s.(w := s.w.(
      out := s.w.out + [Psh(Block())], accepted := s.w.accepted + [Block()], numWritten := s.w.numWritten + MAX_FRAME_SIZE))
  {
    var w1 := Write(s.w, Block()).0;
    var w2 := Turn(w1);
    assert w2 == w1.(tail := [Writing(Block(), 0, true)]);
    var w3 := Turn(w2);
    assert Block()[0..MAX_FRAME_SIZE] == Block();
    assert w3.tail == [Writing(Block(), MAX_FRAME_SIZE, true)];
  }

  lemma RoundKeepsIdle(s: Flow)
    requires Idle(s) && WriteWin(s.w) >= MAX_FRAME_SIZE
    ensures var t := ReadAndCredit(WriteAndSend(s));
      Idle(t) && t.w.numWritten == s.w.numWritten + MAX_FRAME_SIZE
  {
    BlockIsSent(s);
    var t1 := WriteAndSend(s);
    var t2 := DeliverFrame(t1);
    assert t2.r == s.r.(queue := [Block()]);
    var t3 := Next(t2, ReadCall);
    assert t3.r.queue == [];
  }

  /** There is a run after which both ends are open and idle, and the writer has no
      window. */
  lemma StallIsReachable() returns (steps: seq<Step>)
    ensures Idle(Reach(steps)) && WriteWin(Reach(steps).w) <= 0
  {
    steps := [];
    var k := 0;
    while k < 131088 && WriteWin(Reach(steps).w) > 0
      invariant 0 <= k <= 131088
      invariant Idle(Reach(steps)) && Reach(steps).w.numWritten == k * MAX_FRAME_SIZE
    {
      FlowInvHolds(steps);
      DrainedCounts(Reach(steps));
      ReachRound(steps);
      RoundKeepsIdle(Reach(steps));
      steps := Round(steps);
      k := k + 1;
    }
    if k == 131088 {
      LongStreamStalls(steps, []);
    }
  }
}
