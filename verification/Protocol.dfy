/** The LAN-routing protocol over whole runs of one hub generation, one lock section or one
    write at a time: the hub's table changes, any number of publishes are under way at once,
    streams come and go, and netviews reach each spoke from its streams in order, or late and
    repeated from anywhere. */
module Protocol {
  import opened Common
  import opened Net
  import opened Sorting
  import opened Rib
  import opened RibRuns
  import opened NetviewRouter
  import opened Hub

  /** The hub's identity, this run's generation, and the order of printed prefixes. */
  datatype Run = Run(id: Key, gen: string, rank: Prefix -> nat)

  type Pid = nat   // a publish under way
  type Sid = nat   // a stream

  /** How far a publish is: it has taken its netview; it has marked its targets and is to
      install the routes; it has read them, at some revision, and is to set them; it is to
      write to the targets that are left. */
  datatype Job =
    | Taken(n: Netview)
    | Marked(n: Netview, targets: set<Sid>)
    | Fetched(n: Netview, targets: set<Sid>, routes: map<Prefix, Route>, at: nat)
    | Writing(n: Netview, targets: set<Sid>)
  {
    function Left(): set<Sid> { if Taken? then {} else targets }
  }

  /** A spoke's slot: its last stream, and the revision last marked as sent on it. */
  datatype Slot = Slot(conn: Option<Sid>, sent: nat)

  /** A stream: whether it still carries bytes, what is unread on it, and the highest
      revision it was ever marked with. */
  datatype Stream = Stream(key: Key, live: bool, queue: seq<Netview>, most: nat)

  /** `top`, `sinkRev` and a stream's `most` are not the program's: the highest revision ever
      marked as published, and the one at which the routes now set were read. */
  datatype Sys = Sys(
    rib: State, published: nat, sink: map<Prefix, Route>, slots: map<Key, Slot>,
    streams: map<Sid, Stream>, jobs: map<Pid, Job>,
    spokes: map<Key, RouterState>, history: seq<Netview>, top: nat, sinkRev: nat)

  datatype Action =
    | Change(op: Op)                                // any locked section of the RIB
    | Begin(pid: Pid, n: Netview)                   // a publish takes its netview,
    | Mark(pid: Pid)                                // marks its targets,
    | FetchRoutes(pid: Pid)                         // reads the routes
    | SetRoutes(pid: Pid)                           // and sets them,
    | WriteTo(pid: Pid, sid: Sid, fails: bool)      // and writes to a target
    | Attach(key: Key, sid: Sid) | Detach(sid: Sid) // a stream opens, or dies
    | Enroll(key: Key) | Expel(key: Key)            // a spoke's slot appears, or goes
    | Receive(sid: Sid)                             // the next netview of a live stream
    | Replay(key: Key, i: nat)                      // an earlier netview, late or again

  ghost predicate ValidRun(c: Run) {
    c.id != "" && Injective(c.rank)
  }

  function SpokeOf(s: Sys, key: Key): RouterState {
    if key in s.spokes then s.spokes[key] else EMPTY_ROUTER
  }

  predicate InRun(c: Run, r: RouterState) {
    r.hub == c.id && r.gen == c.gen
  }

  // ---- The steps of a publish

  predicate IsStale(slot: Slot, rev: nat) {
    slot.conn.Some? && slot.sent != rev
  }

  function ToMark(slots: map<Key, Slot>, rev: nat): set<Sid> {
    set k | k in slots && IsStale(slots[k], rev) :: slots[k].conn.value
  }

  function Max(a: nat, b: nat): nat { if a < b then b else a }

  function Raise(st: Stream, rev: nat): Stream {
    st.(most := Max(st.most, rev))
  }

  function MarkedSlots(slots: map<Key, Slot>, rev: nat): map<Key, Slot> {
    map k | k in slots :: if IsStale(slots[k], rev) then slots[k].(sent := rev) else slots[k]
  }

  function MarkedStreams(s: Sys, rev: nat): map<Sid, Stream> {
    map sid | sid in s.streams :: if sid in ToMark(s.slots, rev) then Raise(s.streams[sid], rev) else s.streams[sid]
  }

  function Marking(s: Sys, pid: Pid): Sys
    requires pid in s.jobs
  {
    var n := s.jobs[pid].n;
    var targets := ToMark(s.slots, n.rev);
    s.(published := n.rev,
       top := Max(s.top, n.rev),
       slots := MarkedSlots(s.slots, n.rev),
       streams := MarkedStreams(s, n.rev),
       jobs := s.jobs[pid := if n.rev != s.published then Marked(n, targets) else Writing(n, targets)])
  }

  function Fetching(s: Sys, pid: Pid): Sys
    requires pid in s.jobs && s.jobs[pid].Marked?
  {
    var j := s.jobs[pid];
    s.(jobs := s.jobs[pid := Fetched(j.n, j.targets, Installable(s.rib.claims), s.rib.rev)])
  }

  function Setting(s: Sys, pid: Pid): Sys
    requires pid in s.jobs && s.jobs[pid].Fetched?
  {
    var j := s.jobs[pid];
    s.(sink := j.routes, sinkRev := j.at, jobs := s.jobs[pid := Writing(j.n, j.targets)])
  }

  /** A write that fails closes that stream alone. */
  function Written(st: Stream, n: Netview, fails: bool): Stream {
    if !st.live then st
    else if fails then st.(live := false, queue := [])
    else st.(queue := st.queue + [n])
  }

  function Write(s: Sys, pid: Pid, sid: Sid, fails: bool): Sys
    requires pid in s.jobs && s.jobs[pid].Writing? && sid in s.streams
  {
    var j := s.jobs[pid];
    s.(jobs := s.jobs[pid := Writing(j.n, j.targets - {sid})],
       streams := s.streams[sid := Written(s.streams[sid], j.n, fails)])
  }

  // ---- The system

  ghost predicate Init(c: Run, rows: map<Key, seq<Prefix>>, s: Sys) {
    && SizedRows(rows)
    && s == Sys(NewState(rows), 0, map[], map[], map[], map[], s.spokes, [], 0, 0)
    && forall k :: k in s.spokes ==> !InRun(c, s.spokes[k])
  }

  ghost predicate Next(c: Run, s: Sys, a: Action, t: Sys) {
    match a
    case Change(op) => Sound(op) && t == s.(rib := Step(s.rib, op))
    case Begin(pid, n) =>
      && IsMessageOf(n, c.id, c.gen, s.rib, c.rank) && pid !in s.jobs
      && t == s.(jobs := s.jobs[pid := Taken(n)], history := s.history + [n])
    case Mark(pid) => pid in s.jobs && s.jobs[pid].Taken? && t == Marking(s, pid)
    case FetchRoutes(pid) => pid in s.jobs && s.jobs[pid].Marked? && t == Fetching(s, pid)
    case SetRoutes(pid) => pid in s.jobs && s.jobs[pid].Fetched? && t == Setting(s, pid)
    case WriteTo(pid, sid, fails) =>
      && pid in s.jobs && s.jobs[pid].Writing? && sid in s.jobs[pid].targets && sid in s.streams
      && t == Write(s, pid, sid, fails)
    case Attach(key, sid) =>
      && sid !in s.streams
      && t == s.(streams := s.streams[sid := Stream(key, true, [], 0)],
                 slots := if key in s.slots then s.slots[key := Slot(Some(sid), 0)] else s.slots)
    case Detach(sid) =>
      && sid in s.streams && t == s.(streams := s.streams[sid := s.streams[sid].(live := false, queue := [])])
    case Enroll(key) => t == if key == "" || key in s.slots then s else s.(slots := s.slots[key := Slot(None, 0)])
    case Expel(key) => t == s.(slots := s.slots - {key})
    case Receive(sid) =>
      && sid in s.streams && s.streams[sid].live && s.streams[sid].queue != []
      && var st := s.streams[sid];
      && t == s.(streams := s.streams[sid := st.(queue := st.queue[1..])],
                 spokes := s.spokes[st.key := Deliver(SpokeOf(s, st.key), st.queue[0], c.rank)])
    case Replay(key, i) =>
      && i < |s.history|
      && t == s.(spokes := s.spokes[key := Deliver(SpokeOf(s, key), s.history[i], c.rank)])
  }

  /** A run of the system: states and the actions between them. */
  ghost predicate Behaviour(c: Run, rows: map<Key, seq<Prefix>>, states: seq<Sys>, actions: seq<Action>) {
    && |states| == |actions| + 1
    && Init(c, rows, states[0])
    && forall i: nat :: i < |actions| ==> StepAt(c, states, actions, i)
  }

  ghost predicate StepAt(c: Run, states: seq<Sys>, actions: seq<Action>, i: nat)
    requires i < |actions| < |states|
  {
    Next(c, states[i], actions[i], states[i + 1])
  }

  // ---- The invariant

  /** Every netview taken is of this run; one of the current revision says what the table
      says now, and one revision was never taken with two contents. */
  ghost predicate HistoryOk(c: Run, rib: State, history: seq<Netview>) {
    && (forall n :: n in history ==> n.hub == c.id && n.gen == c.gen && n.rev <= rib.rev)
    && (forall n :: n in history && n.rev == rib.rev ==> IsMessageOf(n, c.id, c.gen, rib, c.rank))
    && (forall a, b :: a in history && b in history && a.rev == b.rev ==> a == b)
  }

  /** All of this run of the hub. */
  ghost predicate OfRun(c: Run, ns: seq<Netview>) {
    forall n :: n in ns ==> n.hub == c.id && n.gen == c.gen
  }

  ghost predicate SpokeOk(c: Run, history: seq<Netview>, r: RouterState) {
    InRun(c, r) ==> exists n :: n in history && r == Install(n, c.rank)
  }

  /** Some publish still has to write this revision to the stream. */
  ghost predicate Pending(jobs: map<Pid, Job>, sid: Sid, rev: nat) {
    exists pid :: pid in jobs && sid in jobs[pid].Left() && jobs[pid].n.rev == rev
  }

  ghost predicate Queued(queue: seq<Netview>, rev: nat) {
    exists n :: n in queue && n.rev == rev
  }

  predicate HasIt(c: Run, r: RouterState, rev: nat) {
    InRun(c, r) && r.rev >= rev
  }

  /** The highest revision a live stream was marked with is still to be written to it, or on
      its way, or its spoke has it or better. */
  ghost predicate StreamOk(c: Run, rev: nat, history: seq<Netview>, jobs: map<Pid, Job>, sid: Sid, st: Stream, r: RouterState) {
    && st.most <= rev
    && (forall n :: n in st.queue ==> n in history)
    && (st.live && st.most > 0 ==> Pending(jobs, sid, st.most) || Queued(st.queue, st.most) || HasIt(c, r, st.most))
  }

  ghost predicate SlotOk(streams: map<Sid, Stream>, key: Key, slot: Slot) {
    slot.conn.Some? ==>
      (slot.conn.value in streams && streams[slot.conn.value].key == key && slot.sent <= streams[slot.conn.value].most)
  }

  ghost predicate JobOk(rib: State, history: seq<Netview>, streams: map<Sid, Stream>, j: Job) {
    && j.n in history
    && (forall sid :: sid in j.Left() ==> sid in streams)
    && (j.Fetched? ==> j.at <= rib.rev && (j.at == rib.rev ==> j.routes == Installable(rib.claims)))
  }

  ghost predicate SinkOk(s: Sys) {
    && s.published <= s.top <= s.rib.rev && s.sinkRev <= s.rib.rev
    && (s.sinkRev == s.rib.rev ==> s.sink == Installable(s.rib.claims))
  }

  ghost predicate StreamsOk(c: Run, s: Sys) {
    forall sid :: sid in s.streams ==>
      StreamOk(c, s.rib.rev, s.history, s.jobs, sid, s.streams[sid], SpokeOf(s, s.streams[sid].key))
  }

  ghost predicate SpokesOk(c: Run, s: Sys) {
    forall k :: k in s.spokes ==> SpokeOk(c, s.history, s.spokes[k])
  }

  ghost predicate SlotsOk(s: Sys) {
    forall k :: k in s.slots ==> SlotOk(s.streams, k, s.slots[k])
  }

  ghost predicate JobsOk(s: Sys) {
    forall pid :: pid in s.jobs ==> JobOk(s.rib, s.history, s.streams, s.jobs[pid])
  }

  ghost predicate Inv(c: Run, s: Sys) {
    && RibRuns.Inv(s.rib) && s.rib.rev >= 1
    && HistoryOk(c, s.rib, s.history)
    && SpokesOk(c, s) && StreamsOk(c, s) && SlotsOk(s) && JobsOk(s) && SinkOk(s)
  }

  lemma SnapshotOfSameContent(es: seq<Entry>, a: Claims, b: Claims, rank: Prefix -> nat)
    requires SameContent(a, b) && IsSnapshot(es, a, rank)
    ensures IsSnapshot(es, b, rank)
  {
    forall p: Prefix
      ensures IsStatic(a, p) == IsStatic(b, p)
    {
      assert p in a ==> SameRoute(a[p], b[p]);
    }
    var lessA := (p: Prefix, q: Prefix) => Before(a, rank, p, q);
    var lessB := (p: Prefix, q: Prefix) => Before(b, rank, p, q);
    forall i, j | 0 <= i < j < |es|
      ensures lessB(Prefixes(es)[i], Prefixes(es)[j])
    {
      assert lessA(Prefixes(es)[i], Prefixes(es)[j]);
    }
    forall i | 0 <= i < |es|
      ensures es[i] == EntryOf(es[i].prefix, b[es[i].prefix])
    {
      assert SameRoute(a[es[i].prefix], b[es[i].prefix]);
    }
  }

  lemma ChangeKeepsHistory(c: Run, s: State, t: State, history: seq<Netview>)
    requires HistoryOk(c, s, history) && RevNames(s, t)
    ensures HistoryOk(c, t, history)
  {
    forall n | n in history && n.rev == t.rev
      ensures IsMessageOf(n, c.id, c.gen, t, c.rank)
    {
      var es :| IsSnapshot(es, s.claims, c.rank) && n == Message(c.id, c.gen, s.rev, es, s.members);
      SnapshotOfSameContent(es, s.claims, t.claims, c.rank);
    }
  }

  lemma TakingKeepsHistory(c: Run, s: State, history: seq<Netview>, n: Netview)
    requires ValidRun(c) && HistoryOk(c, s, history) && IsMessageOf(n, c.id, c.gen, s, c.rank)
    ensures HistoryOk(c, s, history + [n])
  {
    forall m | m in history && m.rev == n.rev
      ensures m == n
    {
      MessageIsUnique(c, s, m, n);
    }
  }

  lemma MessageIsUnique(c: Run, s: State, m: Netview, n: Netview)
    requires ValidRun(c)
    requires IsMessageOf(m, c.id, c.gen, s, c.rank) && IsMessageOf(n, c.id, c.gen, s, c.rank)
    ensures m == n
  {
    var es :| IsSnapshot(es, s.claims, c.rank) && m == Message(c.id, c.gen, s.rev, es, s.members);
    var fs :| IsSnapshot(fs, s.claims, c.rank) && n == Message(c.id, c.gen, s.rev, fs, s.members);
    SnapshotIsUnique(es, fs, s.claims, s.claims, c.rank);
  }

  lemma SameContentInstalls(a: Claims, b: Claims)
    requires SameContent(a, b)
    ensures Installable(a) == Installable(b)
  {
    forall p | p in a
      ensures RouteOf(a[p]) == RouteOf(b[p])
    {
      assert SameRoute(a[p], b[p]);
    }
  }

  // ---- Every step keeps it

  lemma ChangeKeepsInv(c: Run, s: Sys, op: Op, t: Sys)
    requires ValidRun(c) && Inv(c, s) && Next(c, s, Change(op), t)
    ensures Inv(c, t)
  {
    StepKeepsInv(s.rib, op);
    StepNames(s.rib, op);
    ChangeKeepsHistory(c, s.rib, t.rib, s.history);
    if s.rib.rev == t.rib.rev {
      SameContentInstalls(s.rib.claims, t.rib.claims);
    }
    forall sid | sid in t.streams
      ensures StreamOk(c, t.rib.rev, t.history, t.jobs, sid, t.streams[sid], SpokeOf(t, t.streams[sid].key))
    {
      assert StreamOk(c, s.rib.rev, s.history, s.jobs, sid, s.streams[sid], SpokeOf(s, s.streams[sid].key));
    }
    forall pid | pid in t.jobs
      ensures JobOk(t.rib, t.history, t.streams, t.jobs[pid])
    {
      assert JobOk(s.rib, s.history, s.streams, s.jobs[pid]);
    }
  }

  /** A job may be replaced by one with the same netview and the same targets left. */
  lemma PendingStays(jobs: map<Pid, Job>, pid: Pid, j: Job, sid: Sid, rev: nat)
    requires pid in jobs ==> j.n == jobs[pid].n && (sid in jobs[pid].Left() ==> sid in j.Left())
    ensures Pending(jobs, sid, rev) ==> Pending(jobs[pid := j], sid, rev)
  {
    if Pending(jobs, sid, rev) {
      var q :| q in jobs && sid in jobs[q].Left() && jobs[q].n.rev == rev;
      assert q in jobs[pid := j] && sid in jobs[pid := j][q].Left();
    }
  }

  lemma BeginKeepsInv(c: Run, s: Sys, pid: Pid, n: Netview, t: Sys)
    requires ValidRun(c) && Inv(c, s) && Next(c, s, Begin(pid, n), t)
    ensures Inv(c, t)
  {
    TakingKeepsHistory(c, s.rib, s.history, n);
    forall m | m in s.history
      ensures m in t.history
    {
    }
    assert n in t.history;
    forall sid | sid in t.streams
      ensures StreamOk(c, t.rib.rev, t.history, t.jobs, sid, t.streams[sid], SpokeOf(t, t.streams[sid].key))
    {
      assert StreamOk(c, s.rib.rev, s.history, s.jobs, sid, s.streams[sid], SpokeOf(s, s.streams[sid].key));
      PendingStays(s.jobs, pid, Taken(n), sid, s.streams[sid].most);
    }
    forall k | k in t.spokes
      ensures SpokeOk(c, t.history, t.spokes[k])
    {
      HistoryGrows(c, s.history, t.history, s.spokes[k]);
    }
    forall q | q in t.jobs
      ensures JobOk(t.rib, t.history, t.streams, t.jobs[q])
    {
      if q != pid {
        assert JobOk(s.rib, s.history, s.streams, s.jobs[q]);
      }
    }
  }

  lemma HistoryGrows(c: Run, h: seq<Netview>, g: seq<Netview>, r: RouterState)
    requires SpokeOk(c, h, r) && forall n :: n in h ==> n in g
    ensures SpokeOk(c, g, r)
  {
  }

  lemma MarkKeepsStream(c: Run, s: Sys, pid: Pid, sid: Sid)
    requires Inv(c, s) && pid in s.jobs && s.jobs[pid].Taken? && sid in s.streams
    ensures var t := Marking(s, pid);
      StreamOk(c, t.rib.rev, t.history, t.jobs, sid, t.streams[sid], SpokeOf(t, t.streams[sid].key))
  {
    var t := Marking(s, pid);
    var n := s.jobs[pid].n;
    var st := s.streams[sid];
    assert JobOk(s.rib, s.history, s.streams, s.jobs[pid]);
    assert StreamOk(c, s.rib.rev, s.history, s.jobs, sid, st, SpokeOf(s, st.key));
    PendingStays(s.jobs, pid, t.jobs[pid], sid, st.most);
    if sid in ToMark(s.slots, n.rev) {
      assert sid in t.jobs[pid].Left() && t.jobs[pid].n.rev == n.rev;
      assert Pending(t.jobs, sid, n.rev);
    }
  }

  lemma MarkKeepsSlot(c: Run, s: Sys, pid: Pid, key: Key)
    requires Inv(c, s) && pid in s.jobs && s.jobs[pid].Taken? && key in s.slots
    ensures SlotOk(Marking(s, pid).streams, key, Marking(s, pid).slots[key])
  {
    assert SlotOk(s.streams, key, s.slots[key]);
    if IsStale(s.slots[key], s.jobs[pid].n.rev) {
      assert s.slots[key].conn.value in ToMark(s.slots, s.jobs[pid].n.rev);
    }
  }

  lemma MarkKeepsInv(c: Run, s: Sys, pid: Pid, t: Sys)
    requires ValidRun(c) && Inv(c, s) && Next(c, s, Mark(pid), t)
    ensures Inv(c, t)
  {
    assert JobOk(s.rib, s.history, s.streams, s.jobs[pid]);
    forall sid | sid in t.streams
      ensures StreamOk(c, t.rib.rev, t.history, t.jobs, sid, t.streams[sid], SpokeOf(t, t.streams[sid].key))
    {
      MarkKeepsStream(c, s, pid, sid);
    }
    forall k | k in t.slots
      ensures SlotOk(t.streams, k, t.slots[k])
    {
      MarkKeepsSlot(c, s, pid, k);
    }
    forall q | q in t.jobs
      ensures JobOk(t.rib, t.history, t.streams, t.jobs[q])
    {
      assert JobOk(s.rib, s.history, s.streams, s.jobs[q]);
      MarkedExist(s, s.jobs[pid].n.rev);
    }
  }

  lemma MarkedExist(s: Sys, rev: nat)
    requires SlotsOk(s)
    ensures forall sid :: sid in ToMark(s.slots, rev) ==> sid in s.streams
  {
    forall sid | sid in ToMark(s.slots, rev)
      ensures sid in s.streams
    {
      var k :| k in s.slots && IsStale(s.slots[k], rev) && s.slots[k].conn.value == sid;
      assert SlotOk(s.streams, k, s.slots[k]);
    }
  }

  lemma InstallKeepsInv(c: Run, s: Sys, a: Action, t: Sys)
    requires ValidRun(c) && Inv(c, s) && Next(c, s, a, t) && (a.FetchRoutes? || a.SetRoutes?)
    ensures Inv(c, t)
  {
    var pid := a.pid;
    assert JobOk(s.rib, s.history, s.streams, s.jobs[pid]);
    forall sid | sid in t.streams
      ensures StreamOk(c, t.rib.rev, t.history, t.jobs, sid, t.streams[sid], SpokeOf(t, t.streams[sid].key))
    {
      assert StreamOk(c, s.rib.rev, s.history, s.jobs, sid, s.streams[sid], SpokeOf(s, s.streams[sid].key));
      PendingStays(s.jobs, pid, t.jobs[pid], sid, s.streams[sid].most);
    }
    forall q | q in t.jobs
      ensures JobOk(t.rib, t.history, t.streams, t.jobs[q])
    {
      assert JobOk(s.rib, s.history, s.streams, s.jobs[q]);
    }
  }

  /** A write to one stream: what was pending there is on its way, or the stream is dead. */
  lemma WriteKeepsStream(c: Run, s: Sys, pid: Pid, sid: Sid, fails: bool, other: Sid)
    requires Inv(c, s) && pid in s.jobs && s.jobs[pid].Writing? && sid in s.streams && other in s.streams
    ensures var t := Write(s, pid, sid, fails);
      StreamOk(c, t.rib.rev, t.history, t.jobs, other, t.streams[other], SpokeOf(t, t.streams[other].key))
  {
    var t := Write(s, pid, sid, fails);
    var j := s.jobs[pid];
    var st := s.streams[other];
    assert JobOk(s.rib, s.history, s.streams, j);
    assert StreamOk(c, s.rib.rev, s.history, s.jobs, other, st, SpokeOf(s, st.key));
    if other != sid {
      PendingStays(s.jobs, pid, t.jobs[pid], other, st.most);
    } else {
      WrittenIsOk(c, s, pid, sid, fails, t.jobs);
    }
  }

  lemma WrittenIsOk(c: Run, s: Sys, pid: Pid, sid: Sid, fails: bool, jobs: map<Pid, Job>)
    requires pid in s.jobs && s.jobs[pid].Writing? && sid in s.streams && s.jobs[pid].n in s.history
    requires jobs == s.jobs[pid := Writing(s.jobs[pid].n, s.jobs[pid].targets - {sid})]
    requires StreamOk(c, s.rib.rev, s.history, s.jobs, sid, s.streams[sid], SpokeOf(s, s.streams[sid].key))
    ensures StreamOk(c, s.rib.rev, s.history, jobs, sid, Written(s.streams[sid], s.jobs[pid].n, fails), SpokeOf(s, s.streams[sid].key))
  {
    var st, n := s.streams[sid], s.jobs[pid].n;
    var u := Written(st, n, fails);
    if u.live && st.most > 0 {
      assert u.queue == st.queue + [n];
      if Queued(st.queue, st.most) {
        var m :| m in st.queue && m.rev == st.most;
        assert m in u.queue;
      } else if Pending(s.jobs, sid, st.most) {
        var q :| q in s.jobs && sid in s.jobs[q].Left() && s.jobs[q].n.rev == st.most;
        if q == pid {
          assert n in u.queue;
        } else {
          assert q in jobs && sid in jobs[q].Left();
        }
      }
    }
  }

  lemma WriteKeepsInv(c: Run, s: Sys, pid: Pid, sid: Sid, fails: bool, t: Sys)
    requires ValidRun(c) && Inv(c, s) && Next(c, s, WriteTo(pid, sid, fails), t)
    ensures Inv(c, t)
  {
    forall other | other in t.streams
      ensures StreamOk(c, t.rib.rev, t.history, t.jobs, other, t.streams[other], SpokeOf(t, t.streams[other].key))
    {
      WriteKeepsStream(c, s, pid, sid, fails, other);
    }
    forall k | k in t.slots
      ensures SlotOk(t.streams, k, t.slots[k])
    {
      assert SlotOk(s.streams, k, s.slots[k]);
    }
    forall q | q in t.jobs
      ensures JobOk(t.rib, t.history, t.streams, t.jobs[q])
    {
      assert JobOk(s.rib, s.history, s.streams, s.jobs[q]);
    }
  }

  lemma DeliveredSpoke(c: Run, history: seq<Netview>, r: RouterState, n: Netview)
    requires c.id != "" && SpokeOk(c, history, r) && n in history && n.hub == c.id && n.gen == c.gen
    ensures SpokeOk(c, history, Deliver(r, n, c.rank))
    ensures HasIt(c, Deliver(r, n, c.rank), n.rev)
    ensures InRun(c, r) ==> HasIt(c, Deliver(r, n, c.rank), r.rev)
  {
  }

  /** A spoke that moved on keeps its streams in order. */
  lemma StreamOfMovedSpoke(c: Run, rev: nat, history: seq<Netview>, jobs: map<Pid, Job>, sid: Sid, st: Stream, r: RouterState, u: RouterState)
    requires StreamOk(c, rev, history, jobs, sid, st, r) && (InRun(c, r) ==> HasIt(c, u, r.rev))
    ensures StreamOk(c, rev, history, jobs, sid, st, u)
  {
  }

  lemma ReceivedStream(c: Run, rev: nat, history: seq<Netview>, jobs: map<Pid, Job>, sid: Sid, st: Stream, r: RouterState, u: RouterState)
    requires StreamOk(c, rev, history, jobs, sid, st, r) && st.queue != []
    requires HasIt(c, u, st.queue[0].rev) && (InRun(c, r) ==> HasIt(c, u, r.rev))
    ensures StreamOk(c, rev, history, jobs, sid, st.(queue := st.queue[1..]), u)
  {
    if Queued(st.queue, st.most) {
      var n :| n in st.queue && n.rev == st.most;
      assert n == st.queue[0] || n in st.queue[1..];
    }
  }

  lemma ReceiveKeepsStream(c: Run, s: Sys, sid: Sid, t: Sys, other: Sid)
    requires ValidRun(c) && Inv(c, s) && Next(c, s, Receive(sid), t) && other in s.streams
    ensures StreamOk(c, t.rib.rev, t.history, t.jobs, other, t.streams[other], SpokeOf(t, t.streams[other].key))
    ensures SpokeOk(c, s.history, SpokeOf(t, s.streams[sid].key))
  {
    var st, o := s.streams[sid], s.streams[other];
    var r, u := SpokeOf(s, st.key), SpokeOf(t, st.key);
    assert StreamOk(c, s.rib.rev, s.history, s.jobs, sid, st, r);
    assert StreamOk(c, s.rib.rev, s.history, s.jobs, other, o, SpokeOf(s, o.key));
    assert st.queue[0] in s.history;
    DeliveredSpoke(c, s.history, r, st.queue[0]);
    if other == sid {
      ReceivedStream(c, s.rib.rev, s.history, s.jobs, sid, st, r, u);
    } else if o.key == st.key {
      StreamOfMovedSpoke(c, s.rib.rev, s.history, s.jobs, other, o, r, u);
    }
  }

  lemma ReceiveKeepsInv(c: Run, s: Sys, sid: Sid, t: Sys)
    requires ValidRun(c) && Inv(c, s) && Next(c, s, Receive(sid), t)
    ensures Inv(c, t)
  {
    forall other | other in t.streams
      ensures StreamOk(c, t.rib.rev, t.history, t.jobs, other, t.streams[other], SpokeOf(t, t.streams[other].key))
    {
      ReceiveKeepsStream(c, s, sid, t, other);
    }
    ReceiveKeepsStream(c, s, sid, t, sid);
    SlotsOfSameStreams(s, t);
    JobsOfSameStreams(s, t);
  }

  lemma SlotsOfSameStreams(s: Sys, t: Sys)
    requires SlotsOk(s) && t.slots == s.slots
    requires forall sid :: sid in s.streams ==>
      sid in t.streams && t.streams[sid].key == s.streams[sid].key && t.streams[sid].most == s.streams[sid].most
    ensures SlotsOk(t)
  {
    forall k | k in t.slots
      ensures SlotOk(t.streams, k, t.slots[k])
    {
      assert SlotOk(s.streams, k, s.slots[k]);
    }
  }

  lemma JobsOfSameStreams(s: Sys, t: Sys)
    requires JobsOk(s) && t.jobs == s.jobs && t.rib == s.rib && t.history == s.history
    requires forall sid :: sid in s.streams ==> sid in t.streams
    ensures JobsOk(t)
  {
    forall q | q in t.jobs
      ensures JobOk(t.rib, t.history, t.streams, t.jobs[q])
    {
      assert JobOk(s.rib, s.history, s.streams, s.jobs[q]);
    }
  }

  lemma ReplayKeepsInv(c: Run, s: Sys, key: Key, i: nat, t: Sys)
    requires ValidRun(c) && Inv(c, s) && Next(c, s, Replay(key, i), t)
    ensures Inv(c, t)
  {
    assert s.history[i] in s.history;
    DeliveredSpoke(c, s.history, SpokeOf(s, key), s.history[i]);
    forall sid | sid in t.streams
      ensures StreamOk(c, t.rib.rev, t.history, t.jobs, sid, t.streams[sid], SpokeOf(t, t.streams[sid].key))
    {
      var st := s.streams[sid];
      assert StreamOk(c, s.rib.rev, s.history, s.jobs, sid, st, SpokeOf(s, st.key));
      if st.key == key {
        StreamOfMovedSpoke(c, s.rib.rev, s.history, s.jobs, sid, st, SpokeOf(s, key), SpokeOf(t, key));
      }
    }
    JobsOfSameStreams(s, t);
  }

  lemma AttachKeepsInv(c: Run, s: Sys, key: Key, sid: Sid, t: Sys)
    requires ValidRun(c) && Inv(c, s) && Next(c, s, Attach(key, sid), t)
    ensures Inv(c, t)
  {
    forall other | other in t.streams
      ensures StreamOk(c, t.rib.rev, t.history, t.jobs, other, t.streams[other], SpokeOf(t, t.streams[other].key))
    {
      assert other in s.streams ==> StreamOk(c, s.rib.rev, s.history, s.jobs, other, s.streams[other], SpokeOf(s, s.streams[other].key));
    }
    forall k | k in t.slots
      ensures SlotOk(t.streams, k, t.slots[k])
    {
      assert SlotOk(s.streams, k, s.slots[k]);
    }
    JobsOfSameStreams(s, t);
  }

  lemma DetachKeepsInv(c: Run, s: Sys, sid: Sid, t: Sys)
    requires ValidRun(c) && Inv(c, s) && Next(c, s, Detach(sid), t)
    ensures Inv(c, t)
  {
    forall other | other in t.streams
      ensures StreamOk(c, t.rib.rev, t.history, t.jobs, other, t.streams[other], SpokeOf(t, t.streams[other].key))
    {
      assert StreamOk(c, s.rib.rev, s.history, s.jobs, other, s.streams[other], SpokeOf(s, s.streams[other].key));
    }
    SlotsOfSameStreams(s, t);
    JobsOfSameStreams(s, t);
  }

  lemma SlotKeepsInv(c: Run, s: Sys, a: Action, t: Sys)
    requires ValidRun(c) && Inv(c, s) && Next(c, s, a, t) && (a.Enroll? || a.Expel?)
    ensures Inv(c, t)
  {
    SameStreamsOk(c, s, t);
    forall k | k in t.slots
      ensures SlotOk(t.streams, k, t.slots[k])
    {
      assert k in s.slots ==> SlotOk(s.streams, k, s.slots[k]);
    }
  }

  lemma SameStreamsOk(c: Run, s: Sys, t: Sys)
    requires StreamsOk(c, s) && t == s.(slots := t.slots)
    ensures StreamsOk(c, t)
  {
    forall sid | sid in t.streams
      ensures StreamOk(c, t.rib.rev, t.history, t.jobs, sid, t.streams[sid], SpokeOf(t, t.streams[sid].key))
    {
      assert StreamOk(c, s.rib.rev, s.history, s.jobs, sid, s.streams[sid], SpokeOf(s, s.streams[sid].key));
    }
  }

  lemma NextKeepsInv(c: Run, s: Sys, a: Action, t: Sys)
    requires ValidRun(c) && Inv(c, s) && Next(c, s, a, t)
    ensures Inv(c, t)
  {
    match a
    case Change(op) => ChangeKeepsInv(c, s, op, t);
    case Begin(pid, n) => BeginKeepsInv(c, s, pid, n, t);
    case Mark(pid) => MarkKeepsInv(c, s, pid, t);
    case FetchRoutes(_) => InstallKeepsInv(c, s, a, t);
    case SetRoutes(_) => InstallKeepsInv(c, s, a, t);
    case WriteTo(pid, sid, fails) => WriteKeepsInv(c, s, pid, sid, fails, t);
    case Receive(sid) => ReceiveKeepsInv(c, s, sid, t);
    case Replay(key, i) => ReplayKeepsInv(c, s, key, i, t);
    case Attach(key, sid) => AttachKeepsInv(c, s, key, sid, t);
    case Detach(sid) => DetachKeepsInv(c, s, sid, t);
    case _ => SlotKeepsInv(c, s, a, t);
  }

  lemma {:induction false} InvHolds(c: Run, rows: map<Key, seq<Prefix>>, states: seq<Sys>, actions: seq<Action>, i: nat)
    requires ValidRun(c) && Behaviour(c, rows, states, actions) && i < |states|
    ensures Inv(c, states[i])
  {
    if i == 0 {
      NewKeepsInv(rows);
    } else {
      InvHolds(c, rows, states, actions, i - 1);
      assert StepAt(c, states, actions, i - 1);
      NextKeepsInv(c, states[i - 1], actions[i - 1], states[i]);
    }
  }

  // ---- What a spoke holds

  /** The stream is live and drained, it was marked with the current revision, and no
      publish still has to write that to it. */
  ghost predicate Drained(s: Sys, sid: Sid) {
    && sid in s.streams && s.streams[sid].live && s.streams[sid].queue == []
    && s.streams[sid].most == s.rib.rev && !Pending(s.jobs, sid, s.rib.rev)
  }

  ghost predicate HasTheTable(c: Run, rib: State, r: RouterState) {
    exists n :: IsMessageOf(n, c.id, c.gen, rib, c.rank) && r == Install(n, c.rank)
  }

  /** Convergence: the spoke of a drained stream has installed exactly the hub's present
      table, and no spoke of this run is ever ahead of the hub. */
  lemma SettledSpokeHasTheTable(c: Run, rows: map<Key, seq<Prefix>>, states: seq<Sys>, actions: seq<Action>, i: nat, sid: Sid)
    requires ValidRun(c) && Behaviour(c, rows, states, actions) && i < |states|
    ensures forall key :: InRun(c, SpokeOf(states[i], key)) ==> SpokeOf(states[i], key).rev <= states[i].rib.rev
    ensures Drained(states[i], sid) ==> HasTheTable(c, states[i].rib, SpokeOf(states[i], states[i].streams[sid].key))
  {
    InvHolds(c, rows, states, actions, i);
    var s := states[i];
    forall key | InRun(c, SpokeOf(s, key))
      ensures SpokeOf(s, key).rev <= s.rib.rev
    {
      var _ := InRunHolds(c, s, key);
    }
    if Drained(s, sid) {
      var key := s.streams[sid].key;
      assert StreamOk(c, s.rib.rev, s.history, s.jobs, sid, s.streams[sid], SpokeOf(s, key));
      var n := InRunHolds(c, s, key);
      assert IsMessageOf(n, c.id, c.gen, s.rib, c.rank);
    }
  }

  /** The spoke's slot says that the current revision was sent; its stream is live and
      drained, with no write of that revision pending. */
  ghost predicate SentAndDrained(s: Sys, key: Key) {
    && key in s.slots && s.slots[key].conn.Some? && s.slots[key].sent == s.rib.rev
    && var sid := s.slots[key].conn.value;
    && sid in s.streams && s.streams[sid].live && s.streams[sid].queue == [] && !Pending(s.jobs, sid, s.rib.rev)
  }

  /** The hub's own record is enough: a spoke whose slot says so has the table. */
  lemma SentSpokeHasTheTable(c: Run, rows: map<Key, seq<Prefix>>, states: seq<Sys>, actions: seq<Action>, i: nat, key: Key)
    requires ValidRun(c) && Behaviour(c, rows, states, actions) && i < |states|
    requires SentAndDrained(states[i], key)
    ensures HasTheTable(c, states[i].rib, SpokeOf(states[i], key))
  {
    InvHolds(c, rows, states, actions, i);
    SentIsMost(c, states[i], key);
    SettledSpokeHasTheTable(c, rows, states, actions, i, states[i].slots[key].conn.value);
  }

  lemma SentIsMost(c: Run, s: Sys, key: Key)
    requires Inv(c, s) && SentAndDrained(s, key)
    ensures Drained(s, s.slots[key].conn.value) && s.streams[s.slots[key].conn.value].key == key
  {
    assert SlotOk(s.streams, key, s.slots[key]);
    MostIsBounded(c, s, s.slots[key].conn.value);
  }

  lemma InRunHolds(c: Run, s: Sys, key: Key) returns (n: Netview)
    requires Inv(c, s) && InRun(c, SpokeOf(s, key)) && c.id != ""
    ensures n in s.history && SpokeOf(s, key) == Install(n, c.rank) && n.rev <= s.rib.rev
  {
    assert key in s.spokes && SpokeOk(c, s.history, s.spokes[key]);
    n :| n in s.history && s.spokes[key] == Install(n, c.rank);
  }

  /** A publish that took the present table marks every attached stream with its revision. */
  lemma PublishMarksAll(c: Run, s: Sys, pid: Pid, t: Sys, key: Key)
    requires Inv(c, s) && Next(c, s, Mark(pid), t) && s.jobs[pid].n.rev == s.rib.rev
    requires key in s.slots && s.slots[key].conn.Some?
    ensures var sid := s.slots[key].conn.value;
      sid in t.streams && t.streams[sid].most == t.rib.rev
  {
    var sid := s.slots[key].conn.value;
    assert SlotOk(s.streams, key, s.slots[key]);
    assert StreamOk(c, s.rib.rev, s.history, s.jobs, sid, s.streams[sid], SpokeOf(s, s.streams[sid].key));
    if IsStale(s.slots[key], s.rib.rev) {
      assert sid in ToMark(s.slots, s.rib.rev);
    }
  }

  lemma MarksStay(c: Run, s: Sys, a: Action, t: Sys, sid: Sid)
    requires Next(c, s, a, t) && sid in s.streams
    ensures sid in t.streams && t.streams[sid].key == s.streams[sid].key && s.streams[sid].most <= t.streams[sid].most
  {
  }

  lemma {:induction false} MarksStayOn(c: Run, rows: map<Key, seq<Prefix>>, states: seq<Sys>, actions: seq<Action>, i: nat, j: nat, sid: Sid)
    requires Behaviour(c, rows, states, actions) && i <= j < |states| && sid in states[i].streams
    ensures sid in states[j].streams && states[j].streams[sid].key == states[i].streams[sid].key
    ensures states[i].streams[sid].most <= states[j].streams[sid].most
    decreases j
  {
    if i < j {
      MarksStayOn(c, rows, states, actions, i, j - 1, sid);
      assert StepAt(c, states, actions, j - 1);
      MarksStay(c, states[j - 1], actions[j - 1], states[j], sid);
    }
  }

  /** Once a publish of the present table has marked its targets, then until the table
      changes again, whatever other publishes do before, between and after: every stream
      attached at that moment carries the table to its spoke, if it lives to be drained. */
  lemma PublishSettles(c: Run, rows: map<Key, seq<Prefix>>, states: seq<Sys>, actions: seq<Action>, m: nat, i: nat, key: Key)
    requires ValidRun(c) && Behaviour(c, rows, states, actions) && m < i < |states|
    requires actions[m].Mark? && actions[m].pid in states[m].jobs
    requires states[m].jobs[actions[m].pid].n.rev == states[m].rib.rev == states[i].rib.rev
    requires key in states[m].slots && states[m].slots[key].conn.Some?
    ensures var sid := states[m].slots[key].conn.value;
      && sid in states[i].streams && states[i].streams[sid].most == states[i].rib.rev
      && (states[i].streams[sid].live && states[i].streams[sid].queue == [] && !Pending(states[i].jobs, sid, states[i].rib.rev) ==>
          HasTheTable(c, states[i].rib, SpokeOf(states[i], key)))
  {
    var sid := states[m].slots[key].conn.value;
    assert StepAt(c, states, actions, m);
    InvHolds(c, rows, states, actions, m);
    InvHolds(c, rows, states, actions, i);
    PublishMarksAll(c, states[m], actions[m].pid, states[m + 1], key);
    ChangesOnlyByChange(c, states[m], actions[m], states[m + 1]);
    assert SlotOk(states[m].streams, key, states[m].slots[key]);
    MarksStayOn(c, rows, states, actions, m, i, sid);
    MarksStayOn(c, rows, states, actions, m + 1, i, sid);
    MostIsBounded(c, states[i], sid);
    if Drained(states[i], sid) {
      SettledSpokeHasTheTable(c, rows, states, actions, i, sid);
    }
  }

  lemma MostIsBounded(c: Run, s: Sys, sid: Sid)
    requires Inv(c, s) && sid in s.streams
    ensures s.streams[sid].most <= s.rib.rev
  {
    assert StreamOk(c, s.rib.rev, s.history, s.jobs, sid, s.streams[sid], SpokeOf(s, s.streams[sid].key));
  }

  lemma ChangesOnlyByChange(c: Run, s: Sys, a: Action, t: Sys)
    requires Next(c, s, a, t) && !a.Change?
    ensures t.rib == s.rib
  {
  }

  // ---- What the hub installs for itself

  /** Operation f read the routes for the publish, and it did not again before state i. */
  ghost predicate LastFetch(actions: seq<Action>, f: nat, pid: Pid, i: nat)
    requires i <= |actions|
  {
    f < i && actions[f] == FetchRoutes(pid) && forall j :: f < j < i ==> actions[j] != FetchRoutes(pid)
  }

  /** Operation m set routes, and no later one did before state i. */
  ghost predicate LastSet(actions: seq<Action>, m: nat, i: nat)
    requires i <= |actions|
  {
    m < i && actions[m].SetRoutes? && forall j :: m < j < i ==> !actions[j].SetRoutes?
  }

  predicate RoutesAt(s: Sys, routes: map<Prefix, Route>, rev: nat) {
    s.rib.rev == rev && routes == Installable(s.rib.claims)
  }

  /** The publish holds the routes of the table as it was when it read them. */
  ghost predicate HoldsFetched(states: seq<Sys>, actions: seq<Action>, pid: Pid, i: nat)
    requires i <= |actions| < |states| && pid in states[i].jobs && states[i].jobs[pid].Fetched?
  {
    exists f: nat :: LastFetch(actions, f, pid, i) && RoutesAt(states[f], states[i].jobs[pid].routes, states[i].jobs[pid].at)
  }

  ghost predicate AllHoldFetched(states: seq<Sys>, actions: seq<Action>, i: nat)
    requires i <= |actions| < |states|
  {
    forall pid :: pid in states[i].jobs && states[i].jobs[pid].Fetched? ==> HoldsFetched(states, actions, pid, i)
  }

  /** The routes the hub has installed were set last by m, whose publish had read them at f. */
  ghost predicate SetFrom(states: seq<Sys>, actions: seq<Action>, f: nat, m: nat, i: nat)
    requires i <= |actions| < |states|
  {
    && LastSet(actions, m, i) && LastFetch(actions, f, actions[m].pid, m)
    && RoutesAt(states[f], states[i].sink, states[i].sinkRev)
  }

  /** Nothing was set yet; or what is set was read, by the publish that set it last. */
  ghost predicate SinkWasRead(states: seq<Sys>, actions: seq<Action>, i: nat)
    requires i <= |actions| < |states|
  {
    || (states[i].sink == map[] && states[i].sinkRev == 0 && forall j :: 0 <= j < i ==> !actions[j].SetRoutes?)
    || exists f: nat, m: nat :: SetFrom(states, actions, f, m, i)
  }

  /** In every run, what the hub has installed is what its table gave when the publish that
      set routes last had read them. */
  lemma {:induction false} SinkIsWhatWasRead(c: Run, rows: map<Key, seq<Prefix>>, states: seq<Sys>, actions: seq<Action>, i: nat)
    requires ValidRun(c) && Behaviour(c, rows, states, actions) && i < |states|
    ensures SinkWasRead(states, actions, i)
    ensures AllHoldFetched(states, actions, i)
  {
    if i > 0 {
      SinkIsWhatWasRead(c, rows, states, actions, i - 1);
      assert StepAt(c, states, actions, i - 1);
      SinkStep(c, states, actions, i);
    }
  }

  lemma SinkStep(c: Run, states: seq<Sys>, actions: seq<Action>, i: nat)
    requires 0 < i <= |actions| < |states| && StepAt(c, states, actions, i - 1)
    requires AllHoldFetched(states, actions, i - 1) && SinkWasRead(states, actions, i - 1)
    ensures AllHoldFetched(states, actions, i) && SinkWasRead(states, actions, i)
  {
    forall pid | pid in states[i].jobs && states[i].jobs[pid].Fetched?
      ensures HoldsFetched(states, actions, pid, i)
    {
      FetchedStep(c, states, actions, pid, i);
    }
    if actions[i - 1].SetRoutes? {
      SetStep(c, states, actions, i);
    } else {
      StillSet(c, states, actions, i - 1, i);
    }
  }

  lemma StillSet(c: Run, states: seq<Sys>, actions: seq<Action>, h: nat, i: nat)
    requires h + 1 == i <= |actions| < |states| && StepAt(c, states, actions, h) && !actions[h].SetRoutes?
    requires SinkWasRead(states, actions, h)
    ensures SinkWasRead(states, actions, i)
  {
    OnlySetRoutesSets(c, states[h], actions[h], states[i]);
    if exists f: nat, m: nat :: SetFrom(states, actions, f, m, h) {
      var f: nat, m: nat :| SetFrom(states, actions, f, m, h);
      assert SetFrom(states, actions, f, m, i);
    }
  }

  lemma FetchedStep(c: Run, states: seq<Sys>, actions: seq<Action>, pid: Pid, i: nat)
    requires 0 < i <= |actions| < |states| && StepAt(c, states, actions, i - 1)
    requires pid in states[i].jobs && states[i].jobs[pid].Fetched? && AllHoldFetched(states, actions, i - 1)
    ensures HoldsFetched(states, actions, pid, i)
  {
    var j := states[i].jobs[pid];
    if actions[i - 1] == FetchRoutes(pid) {
      assert LastFetch(actions, i - 1, pid, i) && RoutesAt(states[i - 1], j.routes, j.at);
    } else {
      FetchedBefore(c, states[i - 1], actions[i - 1], states[i], pid);
      assert HoldsFetched(states, actions, pid, i - 1);
      var f: nat :| LastFetch(actions, f, pid, i - 1) && RoutesAt(states[f], j.routes, j.at);
      assert LastFetch(actions, f, pid, i);
    }
  }

  lemma SetStep(c: Run, states: seq<Sys>, actions: seq<Action>, i: nat)
    requires 0 < i <= |actions| < |states| && StepAt(c, states, actions, i - 1) && actions[i - 1].SetRoutes?
    requires AllHoldFetched(states, actions, i - 1)
    ensures SinkWasRead(states, actions, i)
  {
    var pid, s := actions[i - 1].pid, states[i - 1];
    assert HoldsFetched(states, actions, pid, i - 1);
    var f: nat :| LastFetch(actions, f, pid, i - 1) && RoutesAt(states[f], s.jobs[pid].routes, s.jobs[pid].at);
    assert SetFrom(states, actions, f, i - 1, i);
  }

  lemma FetchedBefore(c: Run, s: Sys, a: Action, t: Sys, pid: Pid)
    requires Next(c, s, a, t) && a != FetchRoutes(pid) && pid in t.jobs && t.jobs[pid].Fetched?
    ensures pid in s.jobs && s.jobs[pid] == t.jobs[pid]
  {
  }

  lemma OnlySetRoutesSets(c: Run, s: Sys, a: Action, t: Sys)
    requires Next(c, s, a, t) && !a.SetRoutes?
    ensures t.sink == s.sink && t.sinkRev == s.sinkRev
  {
  }

  /** Routes set at a revision other than the one they were read at. */
  predicate SetsStale(s: Sys, a: Action) {
    a.SetRoutes? && a.pid in s.jobs && s.jobs[a.pid].Fetched? && s.jobs[a.pid].at != s.rib.rev
  }

  predicate Installing(j: Job, rev: nat) {
    j.Marked? || (j.Fetched? && j.at == rev)
  }

  ghost predicate SomeInstalling(s: Sys) {
    exists pid :: pid in s.jobs && Installing(s.jobs[pid], s.rib.rev)
  }

  /** Operation k set stale routes at the revision of state i, and none were set since. */
  ghost predicate StaleSince(states: seq<Sys>, actions: seq<Action>, k: nat, i: nat)
    requires k < i <= |actions| < |states|
  {
    && SetsStale(states[k], actions[k]) && states[k].rib.rev == states[i].rib.rev
    && forall j :: k < j < i ==> !actions[j].SetRoutes?
  }

  /** At the present revision, the routes set last were stale. */
  ghost predicate LastSetIsStale(states: seq<Sys>, actions: seq<Action>, i: nat)
    requires i <= |actions| < |states|
  {
    exists k: nat :: k < i && StaleSince(states, actions, k, i)
  }

  /** Once the present revision was published: the routes were set at it, or some publish is
      about to set them, or those set last were stale. */
  ghost predicate InstallOk(states: seq<Sys>, actions: seq<Action>, i: nat)
    requires i <= |actions| < |states|
  {
    var s := states[i];
    s.top == s.rib.rev ==> s.sinkRev == s.rib.rev || SomeInstalling(s) || LastSetIsStale(states, actions, i)
  }

  lemma StillStale(states: seq<Sys>, actions: seq<Action>, i: nat)
    requires 0 < i <= |actions| < |states| && LastSetIsStale(states, actions, i - 1)
    requires !actions[i - 1].SetRoutes? && states[i - 1].rib.rev == states[i].rib.rev
    ensures LastSetIsStale(states, actions, i)
  {
    var k: nat :| k < i - 1 && StaleSince(states, actions, k, i - 1);
    assert StaleSince(states, actions, k, i);
  }

  lemma InstallStep(c: Run, states: seq<Sys>, actions: seq<Action>, i: nat)
    requires 0 < i <= |actions| < |states| && StepAt(c, states, actions, i - 1)
    requires InstallOk(states, actions, i - 1) && SinkOk(states[i - 1]) && SinkOk(states[i])
    requires states[i - 1].rib.rev <= states[i].rib.rev
    ensures InstallOk(states, actions, i)
  {
    var s, a, t := states[i - 1], actions[i - 1], states[i];
    if a.SetRoutes? {
      if SetsStale(s, a) {
        assert StaleSince(states, actions, i - 1, i);
      }
    } else if t.top == t.rib.rev && !(s.top == s.rib.rev == t.rib.rev && LastSetIsStale(states, actions, i - 1)) {
      NextKeepsInstall(c, s, a, t);
    } else if t.top == t.rib.rev {
      StillStale(states, actions, i);
    }
  }

  /** The routes were set at the present revision, or are about to be, if it was published. */
  lemma NextKeepsInstall(c: Run, s: Sys, a: Action, t: Sys)
    requires SinkOk(s) && Next(c, s, a, t) && !a.SetRoutes? && SinkOk(t) && s.rib.rev <= t.rib.rev
    requires s.top == s.rib.rev == t.rib.rev ==> s.sinkRev == s.rib.rev || SomeInstalling(s)
    requires t.top == t.rib.rev
    ensures t.sinkRev == t.rib.rev || SomeInstalling(t)
  {
    if a.Mark? {
      MarkKeepsInstall(s, a.pid);
    } else if a.FetchRoutes? {
      assert Installing(t.jobs[a.pid], t.rib.rev);
    } else {
      assert s.top == s.rib.rev == t.rib.rev;
      OthersKeepInstall(c, s, a, t);
    }
  }

  lemma MarkKeepsInstall(s: Sys, pid: Pid)
    requires SinkOk(s) && pid in s.jobs && s.jobs[pid].Taken? && SinkOk(Marking(s, pid))
    requires s.top == s.rib.rev ==> s.sinkRev == s.rib.rev || SomeInstalling(s)
    requires Marking(s, pid).top == s.rib.rev
    ensures s.sinkRev == s.rib.rev || SomeInstalling(Marking(s, pid))
  {
    var t := Marking(s, pid);
    if t.jobs[pid].Marked? {
      assert Installing(t.jobs[pid], t.rib.rev);
    } else if s.sinkRev != s.rib.rev {
      var q :| q in s.jobs && Installing(s.jobs[q], s.rib.rev);
      assert q in t.jobs && Installing(t.jobs[q], t.rib.rev);
    }
  }

  lemma OthersKeepInstall(c: Run, s: Sys, a: Action, t: Sys)
    requires Next(c, s, a, t) && !a.Mark? && !a.FetchRoutes? && !a.SetRoutes?
    requires s.top == s.rib.rev == t.rib.rev && (s.sinkRev == s.rib.rev || SomeInstalling(s))
    ensures t.sinkRev == t.rib.rev || SomeInstalling(t)
  {
    OnlySetRoutesSets(c, s, a, t);
    if s.sinkRev != s.rib.rev {
      var q :| q in s.jobs && Installing(s.jobs[q], s.rib.rev);
      assert q in t.jobs && Installing(t.jobs[q], t.rib.rev);
    }
  }

  lemma {:induction false} InstallHolds(c: Run, rows: map<Key, seq<Prefix>>, states: seq<Sys>, actions: seq<Action>, i: nat)
    requires ValidRun(c) && Behaviour(c, rows, states, actions) && i < |states|
    ensures InstallOk(states, actions, i)
  {
    if i > 0 {
      InvHolds(c, rows, states, actions, i - 1);
      InvHolds(c, rows, states, actions, i);
      InstallHolds(c, rows, states, actions, i - 1);
      assert StepAt(c, states, actions, i - 1);
      RevisionAdvances(c, states[i - 1], actions[i - 1], states[i]);
      InstallStep(c, states, actions, i);
    }
  }

  lemma {:induction false} RevisionNeverFalls(c: Run, rows: map<Key, seq<Prefix>>, states: seq<Sys>, actions: seq<Action>, k: nat, i: nat)
    requires Behaviour(c, rows, states, actions) && k <= i < |states|
    ensures states[k].rib.rev <= states[i].rib.rev
    decreases i
  {
    if k < i {
      RevisionNeverFalls(c, rows, states, actions, k, i - 1);
      assert StepAt(c, states, actions, i - 1);
      RevisionAdvances(c, states[i - 1], actions[i - 1], states[i]);
    }
  }

  /** Stale routes set last leave the sink at the revision they were read at. */
  lemma {:induction false} StaleIsOld(c: Run, rows: map<Key, seq<Prefix>>, states: seq<Sys>, actions: seq<Action>, k: nat, i: nat)
    requires Behaviour(c, rows, states, actions) && k < i < |states| && StaleSince(states, actions, k, i)
    ensures states[i].sinkRev != states[i].rib.rev
    decreases i
  {
    assert StepAt(c, states, actions, i - 1);
    if k < i - 1 {
      RevisionNeverFalls(c, rows, states, actions, k, i - 1);
      RevisionNeverFalls(c, rows, states, actions, i - 1, i);
      assert StaleSince(states, actions, k, i - 1);
      StaleIsOld(c, rows, states, actions, k, i - 1);
      OnlySetRoutesSets(c, states[i - 1], actions[i - 1], states[i]);
    }
  }

  /** Once the present revision was published and no publish is about to install it: routes
      have been set, last by m with what was read at f. They are the present table's exactly
      when the table gave the same routes at f as it does now. At f its revision was the
      present one exactly when the set at m was not stale; and if so the routes are present. */
  lemma SinkIsTheTable(c: Run, rows: map<Key, seq<Prefix>>, states: seq<Sys>, actions: seq<Action>, i: nat)
    returns (f: nat, m: nat)
    requires ValidRun(c) && Behaviour(c, rows, states, actions) && i < |states|
    requires states[i].top == states[i].rib.rev && !SomeInstalling(states[i])
    ensures SetFrom(states, actions, f, m, i)
    ensures states[i].sink == Installable(states[i].rib.claims) <==> Installable(states[f].rib.claims) == Installable(states[i].rib.claims)
    ensures states[f].rib.rev == states[i].rib.rev <==> !LastSetIsStale(states, actions, i)
    ensures !LastSetIsStale(states, actions, i) ==> states[i].sink == Installable(states[i].rib.claims)
  {
    SinkWasSet(c, rows, states, actions, i);
    SinkIsWhatWasRead(c, rows, states, actions, i);
    f, m :| SetFrom(states, actions, f, m, i);
  }

  lemma SinkWasSet(c: Run, rows: map<Key, seq<Prefix>>, states: seq<Sys>, actions: seq<Action>, i: nat)
    requires ValidRun(c) && Behaviour(c, rows, states, actions) && i < |states|
    requires states[i].top == states[i].rib.rev && !SomeInstalling(states[i])
    ensures exists f: nat, m: nat :: SetFrom(states, actions, f, m, i)
    ensures states[i].sinkRev == states[i].rib.rev <==> !LastSetIsStale(states, actions, i)
    ensures states[i].sinkRev == states[i].rib.rev ==> states[i].sink == Installable(states[i].rib.claims)
  {
    InvHolds(c, rows, states, actions, i);
    InstallHolds(c, rows, states, actions, i);
    SinkIsWhatWasRead(c, rows, states, actions, i);
    if LastSetIsStale(states, actions, i) {
      var k: nat :| k < i && StaleSince(states, actions, k, i);
      StaleIsOld(c, rows, states, actions, k, i);
    }
  }

  lemma RevisionAdvances(c: Run, s: Sys, a: Action, t: Sys)
    requires Next(c, s, a, t)
    ensures s.rib.rev <= t.rib.rev
  {
    if a.Change? {
      StepNames(s.rib, a.op);
    } else {
      ChangesOnlyByChange(c, s, a, t);
    }
  }

  predicate AllDone(jobs: map<Pid, Job>) {
    forall pid :: pid in jobs ==> jobs[pid].Writing? && jobs[pid].targets == {}
  }

  ghost predicate Last(c: Run, rows: map<Key, seq<Prefix>>, states: seq<Sys>, actions: seq<Action>, s: Sys) {
    Behaviour(c, rows, states, actions) && states[|states| - 1] == s
  }

  lemma Extend(c: Run, rows: map<Key, seq<Prefix>>, states: seq<Sys>, actions: seq<Action>, s: Sys, a: Action, t: Sys)
    requires Last(c, rows, states, actions, s) && Next(c, s, a, t)
    ensures Last(c, rows, states + [t], actions + [a], t)
  {
    forall i: nat | i < |actions| + 1
      ensures StepAt(c, states + [t], actions + [a], i)
    {
      assert i < |actions| ==> StepAt(c, states, actions, i);
    }
  }

  /** It does happen that routes are set late: with every publish over and the present
      revision published, the hub has installed nothing of a table that has a route. One
      publish reads the routes, the table changes, a second publish reads and sets them, and
      then the first sets what it had read. */
  lemma StaleInstallIsReachable(c: Run) returns (rows: map<Key, seq<Prefix>>, states: seq<Sys>, actions: seq<Action>)
    requires ValidRun(c)
    ensures Behaviour(c, rows, states, actions)
    ensures var s := states[|states| - 1];
      AllDone(s.jobs) && s.published == s.rib.rev && s.sink == map[] && Installable(s.rib.claims) != map[]
  {
    var p := Prefix(V4(7), 32);
    rows := map["a" := [p]];
    var s: Sys;
    states, actions, s := FirstFetch(c, rows);
    var first := s.jobs[0].n;
    states, actions, s := ClaimedThen(c, rows, states, actions, s, p);
    var n: Netview;
    states, actions, s, n := SecondPublish(c, rows, states, actions, s, p);
    states, actions := Then(c, rows, states, actions, s, SetRoutes(0), Setting(s, 0));
    assert Setting(s, 0).jobs == map[0 := Writing(first, {}), 1 := Writing(n, {})];
  }

  lemma Then(c: Run, rows: map<Key, seq<Prefix>>, states: seq<Sys>, actions: seq<Action>, s: Sys, a: Action, t: Sys)
    returns (states': seq<Sys>, actions': seq<Action>)
    requires Last(c, rows, states, actions, s) && Next(c, s, a, t)
    ensures Last(c, rows, states', actions', t)
  {
    Extend(c, rows, states, actions, s, a, t);
    states', actions' := states + [t], actions + [a];
  }

  /** A publish with nobody to write to, until it has read the routes. */
  function Read(s: Sys, pid: Pid, n: Netview): Sys {
    s.(published := n.rev, top := Max(s.top, n.rev), history := s.history + [n],
       jobs := s.jobs[pid := Fetched(n, {}, Installable(s.rib.claims), s.rib.rev)])
  }

  lemma Fetch(c: Run, rows: map<Key, seq<Prefix>>, states: seq<Sys>, actions: seq<Action>, s: Sys, pid: Pid, n: Netview)
    returns (states': seq<Sys>, actions': seq<Action>)
    requires Last(c, rows, states, actions, s)
    requires s.slots == map[] && s.streams == map[] && pid !in s.jobs && s.published != n.rev
    requires IsMessageOf(n, c.id, c.gen, s.rib, c.rank)
    ensures Last(c, rows, states', actions', Read(s, pid, n))
  {
    var s1 := s.(jobs := s.jobs[pid := Taken(n)], history := s.history + [n]);
    states', actions' := Then(c, rows, states, actions, s, Begin(pid, n), s1);
    var s2 := Marking(s1, pid);
    states', actions' := Then(c, rows, states', actions', s1, Mark(pid), s2);
    states', actions' := Then(c, rows, states', actions', s2, FetchRoutes(pid), Fetching(s2, pid));
    NobodyToMark(s1, pid);
    assert Fetching(s2, pid).jobs == Read(s, pid, n).jobs;
  }

  lemma NobodyToMark(s: Sys, pid: Pid)
    requires s.slots == map[] && s.streams == map[] && pid in s.jobs && s.jobs[pid].n.rev != s.published
    ensures var n := s.jobs[pid].n;
      Marking(s, pid) == s.(published := n.rev, top := Max(s.top, n.rev), jobs := s.jobs[pid := Marked(n, {})])
  {
    assert ToMark(s.slots, s.jobs[pid].n.rev) == {};
    assert Marking(s, pid).slots == map[] && Marking(s, pid).streams == map[];
  }

  lemma FirstFetch(c: Run, rows: map<Key, seq<Prefix>>) returns (states: seq<Sys>, actions: seq<Action>, s: Sys)
    requires ValidRun(c) && SizedRows(rows)
    ensures Last(c, rows, states, actions, s)
    ensures s.rib == NewState(rows) && s.slots == map[] && s.streams == map[] && s.published == 1
    ensures s.jobs.Keys == {0} && s.jobs[0].Fetched? && s.jobs[0].targets == {} && s.jobs[0].routes == map[]
  {
    var s0 := Sys(NewState(rows), 0, map[], map[], map[], map[], map[], [], 0, 0);
    var n := Message(c.id, c.gen, 1, [], []);
    EmptySnapshot(c.rank);
    assert IsMessageOf(n, c.id, c.gen, s0.rib, c.rank);
    states, actions := [s0], [];
    assert Last(c, rows, states, actions, s0);
    states, actions := Fetch(c, rows, states, actions, s0, 0, n);
    s := Read(s0, 0, n);
    assert Installable(s0.rib.claims) == map[];
  }

  lemma ClaimedThen(c: Run, rows: map<Key, seq<Prefix>>, states: seq<Sys>, actions: seq<Action>, s: Sys, p: Prefix)
    returns (states': seq<Sys>, actions': seq<Action>, t: Sys)
    requires Last(c, rows, states, actions, s) && p == Prefix(V4(7), 32) && s.rib == NewState(map["a" := [p]])
    ensures Last(c, rows, states', actions', t) && t == s.(rib := t.rib)
    ensures t.rib == s.rib.(claims := map[p := Claim("a", false, [], "", 0)], rev := 2)
  {
    ClaimEnters(p, s.rib);
    var claim := Claimed("a", [p], [], true, 0);
    t := s.(rib := Step(s.rib, claim));
    states', actions' := Then(c, rows, states, actions, s, Change(claim), t);
  }

  /** A second publish, from its start until the routes are set. */
  lemma SecondPublish(c: Run, rows: map<Key, seq<Prefix>>, states: seq<Sys>, actions: seq<Action>, s: Sys, p: Prefix)
    returns (states': seq<Sys>, actions': seq<Action>, t: Sys, n: Netview)
    requires Last(c, rows, states, actions, s)
    requires s.slots == map[] && s.streams == map[] && s.published == 1 && s.rib.rev == 2 && 1 !in s.jobs && s.rib.members == []
    requires s.rib.claims == map[p := Claim("a", false, [], "", 0)]
    ensures Last(c, rows, states', actions', t)
    ensures t.rib == s.rib && t.published == 2 && t.jobs == s.jobs[1 := Writing(n, {})]
    ensures Installable(t.rib.claims) != map[]
  {
    var es := [EntryOf(p, s.rib.claims[p])];
    SingleSnapshot(p, s.rib.claims, c.rank);
    n := Message(c.id, c.gen, 2, es, []);
    assert IsMessageOf(n, c.id, c.gen, s.rib, c.rank);
    states', actions' := Fetch(c, rows, states, actions, s, 1, n);
    t := Setting(Read(s, 1, n), 1);
    states', actions' := Then(c, rows, states', actions', Read(s, 1, n), SetRoutes(1), t);
    assert p in Installable(t.rib.claims);
    assert t.jobs == s.jobs[1 := Writing(n, {})];
  }

  lemma EmptySnapshot(rank: Prefix -> nat)
    ensures IsSnapshot([], map[], rank)
  {
  }

  lemma SingleSnapshot(p: Prefix, claims: Claims, rank: Prefix -> nat)
    requires claims.Keys == {p}
    ensures IsSnapshot([EntryOf(p, claims[p])], claims, rank)
  {
    assert Prefixes([EntryOf(p, claims[p])]) == [p];
  }

  // ---- A publish that nothing interrupts

  function PeerOf(streams: map<Sid, Stream>, slot: Slot): Peer {
    if slot.conn.Some? && slot.conn.value in streams
    then Peer(true, streams[slot.conn.value].live, slot.sent, streams[slot.conn.value].queue)
    else Peer(false, false, slot.sent, [])
  }

  function HubOf(s: Sys): HubState {
    HubState(s.rib, s.published, s.sink, map k | k in s.slots :: PeerOf(s.streams, s.slots[k]))
  }

  /** The writes to these streams, one after the other. */
  function WriteAll(s: Sys, pid: Pid, order: seq<Sid>, fails: set<Key>): Sys {
    if order == [] then s
    else
      var t, sid := WriteAll(s, pid, order[..|order| - 1], fails), order[|order| - 1];
      if pid in t.jobs && t.jobs[pid].Writing? && sid in t.streams then Write(t, pid, sid, t.streams[sid].key in fails) else t
  }

  function WrittenTo(streams: map<Sid, Stream>, order: seq<Sid>, n: Netview, fails: set<Key>): map<Sid, Stream> {
    map sid | sid in streams :: if sid in order then Written(streams[sid], n, streams[sid].key in fails) else streams[sid]
  }

  lemma {:induction false} WriteAllIs(s: Sys, pid: Pid, order: seq<Sid>, fails: set<Key>)
    requires pid in s.jobs && s.jobs[pid].Writing? && Distinct(order) && forall sid :: sid in order ==> sid in s.streams
    ensures var j := s.jobs[pid];
      WriteAll(s, pid, order, fails) == s.(jobs := s.jobs[pid := Writing(j.n, j.targets - (set sid | sid in order))],
                                           streams := WrittenTo(s.streams, order, j.n, fails))
  {
    var j := s.jobs[pid];
    if order == [] {
      NothingWritten(s, pid, fails);
    } else {
      var n := |order| - 1;
      WriteAllIs(s, pid, order[..n], fails);
      assert order[n] !in order[..n];
      OneMoreWritten(s.streams, order, j, fails);
    }
  }

  lemma NothingWritten(s: Sys, pid: Pid, fails: set<Key>)
    requires pid in s.jobs && s.jobs[pid].Writing?
    ensures var j := s.jobs[pid];
      s == s.(jobs := s.jobs[pid := Writing(j.n, j.targets - (set sid: Sid | sid in []))], streams := WrittenTo(s.streams, [], j.n, fails))
  {
    assert WrittenTo(s.streams, [], s.jobs[pid].n, fails) == s.streams;
    assert s.jobs[pid].targets - (set sid: Sid | sid in []) == s.jobs[pid].targets;
  }

  lemma OneMoreWritten(streams: map<Sid, Stream>, order: seq<Sid>, j: Job, fails: set<Key>)
    requires j.Writing? && order != [] && order[|order| - 1] !in order[..|order| - 1] && order[|order| - 1] in streams
    ensures var n := |order| - 1;
      var before := WrittenTo(streams, order[..n], j.n, fails);
      && (j.targets - (set sid | sid in order[..n])) - {order[n]} == j.targets - (set sid | sid in order)
      && order[n] in before && before[order[n]] == streams[order[n]]
      && before[order[n] := Written(before[order[n]], j.n, before[order[n]].key in fails)] == WrittenTo(streams, order, j.n, fails)
  {
    assert order == order[..|order| - 1] + [order[|order| - 1]];
  }

  /** From its netview to its last write, whichever order the targets come in. */
  function WholePublish(s: Sys, pid: Pid, n: Netview, order: seq<Sid>, fails: set<Key>): Sys {
    var s1 := s.(jobs := s.jobs[pid := Taken(n)], history := s.history + [n]);
    var s2 := Marking(s1, pid);
    WriteAll(Installed(s2, pid), pid, order, fails)
  }

  /** Uninterrupted, the steps of a publish are the one step the hub's Publish is proved to
      take. */
  lemma PublishAlone(c: Run, s: Sys, pid: Pid, n: Netview, order: seq<Sid>, fails: set<Key>)
    requires Inv(c, s) && n.rev == s.rib.rev
    requires Distinct(order) && forall sid :: sid in order <==> sid in ToMark(s.slots, n.rev)
    ensures var t := WholePublish(s, pid, n, order, fails);
      HubOf(t) == Publish(HubOf(s), n, fails) && pid in t.jobs && t.jobs[pid] == Writing(n, {})
  {
    MarkedExist(s, n.rev);
    WholePublishIs(s, pid, n, order, fails);
    var t := WholePublish(s, pid, n, order, fails);
    forall k | k in s.slots
      ensures PeerOf(t.streams, t.slots[k]) == Push(PeerOf(s.streams, s.slots[k]), n.rev, n, k in fails)
    {
      PushedSlot(s, t, n, order, fails, k);
    }
    SamePeers(HubOf(t).peers, HubOf(s).peers, n, fails);
  }

  lemma SamePeers(after: map<Key, Peer>, before: map<Key, Peer>, n: Netview, fails: set<Key>)
    requires after.Keys == before.Keys && forall k :: k in before ==> after[k] == Push(before[k], n.rev, n, k in fails)
    ensures after == map k | k in before :: Push(before[k], n.rev, n, k in fails)
  {
  }

  lemma WholePublishIs(s: Sys, pid: Pid, n: Netview, order: seq<Sid>, fails: set<Key>)
    requires Distinct(order) && forall sid :: sid in order <==> sid in ToMark(s.slots, n.rev)
    requires forall sid :: sid in order ==> sid in s.streams
    ensures var t := WholePublish(s, pid, n, order, fails);
      && t.rib == s.rib && t.published == n.rev
      && t.sink == (if s.published != n.rev then Installable(s.rib.claims) else s.sink)
      && t.slots == MarkedSlots(s.slots, n.rev)
      && t.streams == WrittenTo(MarkedStreams(s, n.rev), order, n, fails)
      && pid in t.jobs && t.jobs[pid] == Writing(n, {})
  {
    var s2 := Marking(s.(jobs := s.jobs[pid := Taken(n)], history := s.history + [n]), pid);
    InstallAlone(s2, pid);
    WriteAllIs(Installed(s2, pid), pid, order, fails);
    assert ToMark(s.slots, n.rev) - (set sid | sid in order) == {};
  }

  function Installed(s: Sys, pid: Pid): Sys
    requires pid in s.jobs
  {
    if s.jobs[pid].Marked? then Setting(Fetching(s, pid), pid) else s
  }

  lemma InstallAlone(s: Sys, pid: Pid)
    requires pid in s.jobs && (s.jobs[pid].Marked? || s.jobs[pid].Writing?)
    ensures var t, j := Installed(s, pid), s.jobs[pid];
      && t == s.(sink := t.sink, sinkRev := t.sinkRev, jobs := s.jobs[pid := Writing(j.n, j.targets)])
      && t.sink == if j.Marked? then Installable(s.rib.claims) else s.sink
  {
    if s.jobs[pid].Marked? {
      var j := s.jobs[pid];
      assert Fetching(s, pid).jobs[pid := Writing(j.n, j.targets)] == s.jobs[pid := Writing(j.n, j.targets)];
    } else {
      assert s.jobs[pid := s.jobs[pid]] == s.jobs;
    }
  }

  lemma PushedSlot(s: Sys, t: Sys, n: Netview, order: seq<Sid>, fails: set<Key>, k: Key)
    requires SlotsOk(s) && k in s.slots
    requires forall sid :: sid in order <==> sid in ToMark(s.slots, n.rev)
    requires t.slots == MarkedSlots(s.slots, n.rev)
    requires t.streams == WrittenTo(MarkedStreams(s, n.rev), order, n, fails)
    ensures PeerOf(t.streams, t.slots[k]) == Push(PeerOf(s.streams, s.slots[k]), n.rev, n, k in fails)
  {
    assert SlotOk(s.streams, k, s.slots[k]);
    if s.slots[k].conn.Some? {
      var sid := s.slots[k].conn.value;
      if sid in order {
        var l :| l in s.slots && IsStale(s.slots[l], n.rev) && s.slots[l].conn.value == sid;
        assert SlotOk(s.streams, l, s.slots[l]);
        assert l == k;
      } else {
        assert !IsStale(s.slots[k], n.rev);
      }
    }
  }

  // ---- Lookups

  /** A lookup at a settled spoke finds the longest prefix of the hub's own table that
      contains the address, and nothing only when the hub has no route for it. */
  lemma SettledLookupAgrees(c: Run, rows: map<Key, seq<Prefix>>, states: seq<Sys>, actions: seq<Action>, i: nat,
                            sid: Sid, a: Addr, r: Option<Prefix>)
    requires ValidRun(c) && Behaviour(c, rows, states, actions) && i < |states|
    requires Drained(states[i], sid)
    requires IsLongest(ParsedPrefixes(SpokeOf(states[i], states[i].streams[sid].key).claims), a, r)
    ensures LongestRoute(Routes(states[i].rib.claims), a, r)
  {
    InvHolds(c, rows, states, actions, i);
    SettledSpokeHasTheTable(c, rows, states, actions, i, sid);
    LookupInTable(c, states[i].rib, SpokeOf(states[i], states[i].streams[sid].key), a, r);
  }

  /** r is the one longest of the routes that contain a, none when none does. */
  ghost predicate LongestRoute(routes: map<Prefix, Route>, a: Addr, r: Option<Prefix>) {
    match r
    case None => forall p :: p in routes ==> !p.Contains(a)
    case Some(best) =>
      && best in routes && best.Contains(a)
      && forall p :: p in routes && p.Contains(a) && p != best ==> p.bits < best.bits
  }

  lemma LookupInTable(c: Run, rib: State, spoke: RouterState, a: Addr, r: Option<Prefix>)
    requires RibRuns.Inv(rib) && HasTheTable(c, rib, spoke)
    requires IsLongest(ParsedPrefixes(spoke.claims), a, r)
    ensures LongestRoute(Routes(rib.claims), a, r)
  {
    var n :| IsMessageOf(n, c.id, c.gen, rib, c.rank) && spoke == Install(n, c.rank);
    var es :| IsSnapshot(es, rib.claims, c.rank) && n == Message(c.id, c.gen, rib.rev, es, rib.members);
    ParsedOfEntries(rib, es);
    assert forall p :: p in rib.claims <==> p in ParsedPrefixes(n.claims);
    if r.Some? {
      forall p | p in rib.claims && p.Contains(a) && p != r.value
        ensures p.bits < r.value.bits
      {
        assert GoodClaim(rib.allow, p, rib.claims[p]) && GoodClaim(rib.allow, r.value, rib.claims[r.value]);
        assert p.bits <= r.value.bits;
        SharedAddressNests(p, r.value, a);
      }
    }
  }

  lemma ParsedOfEntries(rib: State, es: seq<Entry>)
    requires RibRuns.Inv(rib)
    requires forall e :: e in es ==> e.prefix in rib.claims
    ensures ParsedPrefixes(ClaimsOf(es)) == Prefixes(es)
  {
    if es != [] {
      var n := |es| - 1;
      ParsedOfEntries(rib, es[..n]);
      assert ClaimsOf(es)[..n] == ClaimsOf(es[..n]);
      assert es[n].prefix in rib.claims;
      assert GoodClaim(rib.allow, es[n].prefix, rib.claims[es[n].prefix]);
      MaskedContains(es[n].prefix, es[n].prefix.addr);
      assert Prefixes(es) == Prefixes(es[..n]) + [es[n].prefix];
    }
  }

  // ---- A spoke never goes back

  /** Along a run a spoke that is in this generation stays in it and its revision never
      goes back. */
  lemma {:induction false} SpokeNeverGoesBack(c: Run, rows: map<Key, seq<Prefix>>, states: seq<Sys>, actions: seq<Action>,
                                               i: nat, j: nat, key: Key)
    requires ValidRun(c) && Behaviour(c, rows, states, actions) && i <= j < |states|
    requires InRun(c, SpokeOf(states[i], key))
    ensures HasIt(c, SpokeOf(states[j], key), SpokeOf(states[i], key).rev)
    decreases j
  {
    if i < j {
      SpokeNeverGoesBack(c, rows, states, actions, i, j - 1, key);
      assert StepAt(c, states, actions, j - 1);
      InvHolds(c, rows, states, actions, j - 1);
      NextAdvances(c, states[j - 1], actions[j - 1], states[j], key);
    }
  }

  lemma NextAdvances(c: Run, s: Sys, a: Action, t: Sys, key: Key)
    requires Inv(c, s) && Next(c, s, a, t) && InRun(c, SpokeOf(s, key))
    ensures HasIt(c, SpokeOf(t, key), SpokeOf(s, key).rev)
  {
    NextDelivers(c, s, a, t, key);
  }

  // ---- The highest revision delivered

  /** What an action delivers to a spoke. */
  function Delivery(s: Sys, a: Action, key: Key): seq<Netview> {
    if a.Receive? && a.sid in s.streams && s.streams[a.sid].key == key && s.streams[a.sid].queue != []
    then [s.streams[a.sid].queue[0]]
    else if a.Replay? && a.key == key && a.i < |s.history| then [s.history[a.i]]
    else []
  }

  /** What was delivered to a spoke on the way to state i. */
  function DeliveredTo(states: seq<Sys>, actions: seq<Action>, i: nat, key: Key): seq<Netview>
    requires i <= |actions| < |states|
  {
    if i == 0 then [] else DeliveredTo(states, actions, i - 1, key) + Delivery(states[i - 1], actions[i - 1], key)
  }

  /** The router holds this netview of the list, and none of the list is newer. */
  ghost predicate HoldsTop(c: Run, ns: seq<Netview>, r: RouterState, top: Netview) {
    top in ns && r == Install(top, c.rank) && forall n :: n in ns ==> n.rev <= top.rev
  }

  /** It holds the highest of the list; or the list is empty and it holds nothing of this
      run. */
  ghost predicate HoldsHighest(c: Run, ns: seq<Netview>, r: RouterState) {
    if ns == [] then !InRun(c, r) else exists top :: HoldsTop(c, ns, r, top)
  }

  lemma DeliveryRaises(c: Run, ns: seq<Netview>, r: RouterState, n: Netview)
    requires c.id != "" && n.hub == c.id && n.gen == c.gen && HoldsHighest(c, ns, r)
    requires OfRun(c, ns)
    ensures HoldsHighest(c, ns + [n], Deliver(r, n, c.rank))
  {
    assert n in ns + [n];
    if ns == [] {
      assert HoldsTop(c, ns + [n], Deliver(r, n, c.rank), n);
    } else {
      var top :| HoldsTop(c, ns, r, top);
      assert HoldsTop(c, ns + [n], Deliver(r, n, c.rank), if n.rev <= top.rev then top else n);
    }
  }

  /** What an action delivers is of this run, and what it does to a spoke is what it
      delivers. */
  lemma NextDelivers(c: Run, s: Sys, a: Action, t: Sys, key: Key)
    requires Inv(c, s) && Next(c, s, a, t)
    ensures var ns := Delivery(s, a, key);
      && OfRun(c, ns) && |ns| <= 1
      && SpokeOf(t, key) == if ns == [] then SpokeOf(s, key) else Deliver(SpokeOf(s, key), ns[0], c.rank)
  {
    if a.Receive? {
      var st := s.streams[a.sid];
      assert StreamOk(c, s.rib.rev, s.history, s.jobs, a.sid, st, SpokeOf(s, st.key));
      assert st.queue[0] in s.history;
    } else if a.Replay? {
      assert s.history[a.i] in s.history;
    } else {
      OthersDeliverNothing(c, s, a, t);
    }
  }

  lemma OthersDeliverNothing(c: Run, s: Sys, a: Action, t: Sys)
    requires Next(c, s, a, t) && !a.Receive? && !a.Replay?
    ensures t.spokes == s.spokes
  {
  }

  /** All of this run, and the router holds the highest of them. */
  ghost predicate Held(c: Run, ns: seq<Netview>, r: RouterState) {
    OfRun(c, ns) && HoldsHighest(c, ns, r)
  }

  lemma NextRaises(c: Run, s: Sys, a: Action, t: Sys, key: Key, before: seq<Netview>)
    requires ValidRun(c) && Inv(c, s) && Next(c, s, a, t) && Held(c, before, SpokeOf(s, key))
    ensures Held(c, before + Delivery(s, a, key), SpokeOf(t, key))
  {
    NextDelivers(c, s, a, t, key);
    var ns := Delivery(s, a, key);
    if ns == [] {
      assert before + ns == before;
    } else {
      assert ns == [ns[0]] && ns[0] in ns;
      DeliveryRaises(c, before, SpokeOf(s, key), ns[0]);
    }
  }

  lemma NothingDelivered(c: Run, rows: map<Key, seq<Prefix>>, s: Sys, key: Key)
    requires ValidRun(c) && Init(c, rows, s)
    ensures Held(c, [], SpokeOf(s, key))
  {
    assert !InRun(c, EMPTY_ROUTER);
  }

  ghost predicate HeldAt(c: Run, states: seq<Sys>, actions: seq<Action>, i: nat, key: Key)
    requires i <= |actions| < |states|
  {
    Held(c, DeliveredTo(states, actions, i, key), SpokeOf(states[i], key))
  }

  lemma RunRaises(c: Run, rows: map<Key, seq<Prefix>>, states: seq<Sys>, actions: seq<Action>, i: nat, key: Key)
    requires ValidRun(c) && Behaviour(c, rows, states, actions) && 0 < i <= |actions| && HeldAt(c, states, actions, i - 1, key)
    ensures HeldAt(c, states, actions, i, key)
  {
    InvHolds(c, rows, states, actions, i - 1);
    assert StepAt(c, states, actions, i - 1);
    NextRaises(c, states[i - 1], actions[i - 1], states[i], key, DeliveredTo(states, actions, i - 1, key));
  }

  /** In every run a spoke holds the highest revision ever delivered to it, in whatever
      order, how late and how often the netviews came. */
  lemma {:induction false} SpokeHoldsTheHighest(c: Run, rows: map<Key, seq<Prefix>>, states: seq<Sys>, actions: seq<Action>,
                                                 i: nat, key: Key)
    requires ValidRun(c) && Behaviour(c, rows, states, actions) && i < |states|
    ensures HeldAt(c, states, actions, i, key)
  {
    if i == 0 {
      NothingDelivered(c, rows, states[0], key);
    } else {
      SpokeHoldsTheHighest(c, rows, states, actions, i - 1, key);
      RunRaises(c, rows, states, actions, i, key);
    }
  }
}
