/** The peer routes of the shared p2p host (tunnel/p2p_host.go): which listener an inbound
    peer's streams go to. Explicit tunnels hold keys outright; mesh routes take what is
    left. Listeners are known by an id here. */
module P2pHost {
  import opened Strings

  type Key = string
  type Ln = nat
  type Route = nat

  datatype Table = Table(
    routes: map<Key, Ln>,
    mesh: map<Key, Route>,
    known: set<Key>,                // meshKnown
    lists: map<Route, set<Key>>,    // the peers each mesh listener was last given
    given: map<Ln, seq<Key>>)       // the peers each explicit listener was last given

  const EMPTY := Table(map[], map[], {}, map[], map[])

  datatype Target = Explicit(ln: Ln) | Mesh(route: Route) | Nobody

  function Dispatch(t: Table, peer: Key): Target {
    if peer in t.routes then Explicit(t.routes[peer])
    else if peer in t.mesh then Mesh(t.mesh[peer])
    else Nobody
  }

  function Elems(peers: seq<Key>): set<Key> {
    set p | p in peers
  }

  predicate Conflict(t: Table, ln: Ln, peers: seq<Key>) {
    exists p :: p in peers && p in t.routes && t.routes[p] != ln
  }

  function KeysOf(mesh: map<Key, Route>, r: Route): set<Key> {
    set p | p in mesh && mesh[p] == r
  }

  /** The mesh routes that lose a key. */
  function Affected(t: Table, want: set<Key>): set<Route> {
    set p | p in want && p in t.mesh :: t.mesh[p]
  }

  function Reconcile(t: Table, ln: Ln, peers: seq<Key>): Table {
    if Conflict(t, ln, peers) then t
    else
      var want := Elems(peers);
      var mesh := t.mesh - want;
      t.(routes := (map p | p in t.routes && t.routes[p] != ln :: t.routes[p]) + (map p | p in want :: ln),
         mesh := mesh,
         lists := t.lists + (map r | r in Affected(t, want) :: KeysOf(mesh, r)),
         given := t.given[ln := peers])
  }

  function Wanted(peers: seq<Key>): set<Key> {
    set p | p in peers && TrimSpace(p) != "" :: TrimSpace(p)
  }

  /** The wanted keys that are free for a mesh route. */
  function Claimed(t: Table, r: Route, want: set<Key>): set<Key> {
    set p | p in want && p !in t.routes && (p in t.mesh ==> t.mesh[p] == r)
  }

  function ReconcileMesh(t: Table, r: Route, peers: seq<Key>): Table {
    var want := Wanted(peers);
    var claimed := Claimed(t, r, want);
    t.(mesh := (map p | p in t.mesh && (t.mesh[p] == r ==> p in want) :: t.mesh[p]) + (map p | p in claimed :: r),
       known := t.known + want,
       lists := t.lists[r := claimed])
  }

  function Unregister(t: Table, ln: Ln): Table {
    t.(routes := map p | p in t.routes && t.routes[p] != ln :: t.routes[p])
  }

  function UnregisterMesh(t: Table, r: Route): Table {
    t.(mesh := map p | p in t.mesh && t.mesh[p] != r :: t.mesh[p],
       known := t.known - (set p | p in KeysOf(t.mesh, r) && p !in t.routes),
       lists := t.lists[r := {}])
  }

  function Teardown(t: Table): Table {
    t.(routes := map[], mesh := map[], known := {})
  }

  function GivenTo(t: Table, ln: Ln): seq<Key> {
    if ln in t.given then t.given[ln] else []
  }

  // ---- Single calls

  /** A stream goes to the explicit tunnel that has its peer's key, else to the mesh route
      that has it. */
  lemma ExplicitComesFirst(t: Table, p: Key)
    ensures forall ln :: Dispatch(t, p) == Explicit(ln) <==> p in t.routes && t.routes[p] == ln
    ensures forall r :: Dispatch(t, p) == Mesh(r) <==> p !in t.routes && p in t.mesh && t.mesh[p] == r
  {
  }

  /** A change of an explicit tunnel's peers is all or nothing: if another tunnel has one of
      them nothing changes; otherwise the tunnel holds exactly the wanted keys, every other tunnel what
      it held, and no mesh route any of the wanted keys. */
  lemma ReconcileIsAllOrNothing(t: Table, ln: Ln, peers: seq<Key>)
    ensures var u := Reconcile(t, ln, peers);
      if exists i :: 0 <= i < |peers| && peers[i] in t.routes && t.routes[peers[i]] != ln then u == t
      else
        && (forall p :: p in u.routes && u.routes[p] == ln <==> p in peers)
        && (forall p :: p in t.routes && t.routes[p] != ln ==> p in u.routes && u.routes[p] == t.routes[p])
        && (forall p :: p in u.routes && u.routes[p] != ln ==> p in t.routes && t.routes[p] == u.routes[p])
        && (forall p :: p in u.mesh <==> p in t.mesh && p !in peers)
        && (forall p :: p in u.mesh ==> u.mesh[p] == t.mesh[p])
        && (forall p :: p in peers ==> Dispatch(u, p) == Explicit(ln))
        && GivenTo(u, ln) == peers && forall l :: l != ln ==> GivenTo(u, l) == GivenTo(t, l)
  {
    var u := Reconcile(t, ln, peers);
    ConflictIsAnothers(t, ln, peers);
    if !Conflict(t, ln, peers) {
      forall p | p in t.routes && t.routes[p] != ln ensures p in u.routes && u.routes[p] == t.routes[p] {
        assert p !in peers;
      }
    }
  }

  lemma ConflictIsAnothers(t: Table, ln: Ln, peers: seq<Key>)
    ensures Conflict(t, ln, peers) <==> exists i :: 0 <= i < |peers| && peers[i] in t.routes && t.routes[peers[i]] != ln
  {
    if i :| 0 <= i < |peers| && peers[i] in t.routes && t.routes[peers[i]] != ln {
      assert peers[i] in peers;
    }
  }

  /** Closing a tunnel or a mesh route takes away what it still holds and nothing of
      anyone else's, whoever took over its keys since. */
  lemma StaleCloseIsHarmless(t: Table, ln: Ln, r: Route, p: Key)
    ensures Dispatch(t, p) != Explicit(ln) && Dispatch(t, p).Explicit? ==> Dispatch(Unregister(t, ln), p) == Dispatch(t, p)
    ensures Dispatch(Unregister(t, ln), p) != Explicit(ln)
    ensures p in t.mesh && t.mesh[p] != r ==> p in UnregisterMesh(t, r).mesh && UnregisterMesh(t, r).mesh[p] == t.mesh[p]
    ensures UnregisterMesh(t, r).routes == t.routes && Unregister(t, ln).mesh == t.mesh
    ensures Dispatch(UnregisterMesh(t, r), p) != Mesh(r)
  {
  }

  predicate Wants(peers: seq<Key>, p: Key) {
    p != "" && exists i :: 0 <= i < |peers| && TrimSpace(peers[i]) == p
  }

  /** Setting a mesh route's peers leaves it exactly the wanted keys that it had or that nobody
      has, takes its others away, leaves everybody else's, and makes every wanted key a
      known one. */
  lemma MeshPeersAreExact(t: Table, r: Route, peers: seq<Key>)
    ensures var u := ReconcileMesh(t, r, peers);
      && (forall p :: p in u.mesh && u.mesh[p] == r <==> Wants(peers, p) && if p in t.mesh then t.mesh[p] == r else p !in t.routes)
      && (forall p :: p in u.mesh && u.mesh[p] != r <==> p in t.mesh && t.mesh[p] != r)
      && (forall p :: p in u.mesh && u.mesh[p] != r ==> u.mesh[p] == t.mesh[p])
      && (forall p :: p in u.known <==> p in t.known || Wants(peers, p))
      && u.routes == t.routes && u.given == t.given
      && (forall q :: q != r ==> (q in u.lists <==> q in t.lists) && (q in u.lists ==> u.lists[q] == t.lists[q]))
  {
    forall p
      ensures p in Wanted(peers) <==> Wants(peers, p)
    {
      WantedAreWants(peers, p);
    }
  }

  lemma WantedAreWants(peers: seq<Key>, p: Key)
    ensures p in Wanted(peers) <==> Wants(peers, p)
  {
    if Wants(peers, p) {
      var i :| 0 <= i < |peers| && TrimSpace(peers[i]) == p;
      assert peers[i] in peers;
    }
  }

  /** Closing one takes exactly its keys, and makes those unknown that no explicit tunnel
      has; closing an explicit tunnel takes exactly its keys. */
  lemma ClosesAreExact(t: Table, r: Route, ln: Ln)
    ensures var u := UnregisterMesh(t, r);
      && (forall p :: p in u.mesh <==> p in t.mesh && t.mesh[p] != r)
      && (forall p :: p in u.mesh ==> u.mesh[p] == t.mesh[p])
      && (forall p :: p in u.known <==> p in t.known && !(p in t.mesh && t.mesh[p] == r && p !in t.routes))
      && u.routes == t.routes && u.given == t.given
    ensures var u := Unregister(t, ln);
      && (forall p :: p in u.routes <==> p in t.routes && t.routes[p] != ln)
      && (forall p :: p in u.routes ==> u.routes[p] == t.routes[p])
      && u.mesh == t.mesh && u.known == t.known && u.lists == t.lists
  {
  }

  /** A teardown leaves nobody to dispatch to and no key known, and takes nothing else. */
  lemma TeardownIsExact(t: Table, p: Key)
    ensures Dispatch(Teardown(t), p) == Nobody && p !in Teardown(t).known
    ensures Teardown(t).lists == t.lists && Teardown(t).given == t.given
  {
  }

  // ---- Every run

  datatype Call =
    | CallReconcile(ln: Ln, peers: seq<Key>)
    | CallReconcileMesh(route: Route, wanted: seq<Key>)
    | CallUnregister(gone: Ln)
    | CallUnregisterMesh(goneRoute: Route)
    | CallTeardown

  function Next(t: Table, c: Call): Table {
    match c
    case CallReconcile(ln, peers) => Reconcile(t, ln, peers)
    case CallReconcileMesh(r, peers) => ReconcileMesh(t, r, peers)
    case CallUnregister(ln) => Unregister(t, ln)
    case CallUnregisterMesh(r) => UnregisterMesh(t, r)
    case CallTeardown => Teardown(t)
  }

  function Reach(cs: seq<Call>): Table {
    if cs == [] then EMPTY else Next(Reach(cs[..|cs| - 1]), cs[|cs| - 1])
  }

  ghost predicate Exclusive(t: Table) {
    forall p :: p in t.routes ==> p !in t.mesh
  }

  function ListOf(t: Table, r: Route): set<Key> {
    if r in t.lists then t.lists[r] else {}
  }

  lemma StepKeepsExclusive(t: Table, c: Call)
    requires Exclusive(t)
    ensures Exclusive(Next(t, c))
  {
  }

  /** No key is ever held by an explicit tunnel and a mesh route at once; and every key a
      mesh route holds is known to be one. */
  lemma {:induction false} OneHolderPerKey(cs: seq<Call>)
    ensures Exclusive(Reach(cs))
    ensures forall p :: p in Reach(cs).mesh ==> p in Reach(cs).known
  {
    if cs != [] {
      OneHolderPerKey(cs[..|cs| - 1]);
      StepKeepsExclusive(Reach(cs[..|cs| - 1]), cs[|cs| - 1]);
    }
  }

  /** The list a mesh route was last given is the keys it holds. */
  predicate ListIsExact(t: Table, r: Route) {
    ListOf(t, r) == KeysOf(t.mesh, r)
  }

  lemma StepKeepsLists(t: Table, c: Call, r: Route)
    requires Exclusive(t) && ListIsExact(t, r) && !c.CallTeardown?
    ensures ListIsExact(Next(t, c), r)
  {
    match c
    case CallReconcile(ln, peers) => ReconcileKeepsLists(t, ln, peers, r);
    case CallReconcileMesh(r', peers) => MeshKeepsLists(t, r', peers, r);
    case CallUnregister(_) =>
    case CallUnregisterMesh(r') =>
      assert KeysOf(UnregisterMesh(t, r').mesh, r) == if r' == r then {} else KeysOf(t.mesh, r);
  }

  lemma ReconcileKeepsLists(t: Table, ln: Ln, peers: seq<Key>, r: Route)
    requires ListIsExact(t, r)
    ensures ListIsExact(Reconcile(t, ln, peers), r)
  {
    if !Conflict(t, ln, peers) && r !in Affected(t, Elems(peers)) {
      assert forall p :: p in KeysOf(t.mesh, r) ==> p !in peers;
      assert KeysOf(Reconcile(t, ln, peers).mesh, r) == KeysOf(t.mesh, r);
    }
  }

  lemma MeshKeepsLists(t: Table, r': Route, peers: seq<Key>, r: Route)
    requires Exclusive(t) && ListIsExact(t, r)
    ensures ListIsExact(ReconcileMesh(t, r', peers), r)
  {
    assert KeysOf(ReconcileMesh(t, r', peers).mesh, r)
      == if r' == r then Claimed(t, r, Wanted(peers)) else KeysOf(t.mesh, r);
  }

  /** Setting a route's keys, or closing it, makes its list exact again. */
  lemma ListIsMended(t: Table, r: Route, peers: seq<Key>)
    requires Exclusive(t)
    ensures ListIsExact(ReconcileMesh(t, r, peers), r) && ListIsExact(UnregisterMesh(t, r), r)
  {
    assert KeysOf(ReconcileMesh(t, r, peers).mesh, r) == Claimed(t, r, Wanted(peers));
    assert KeysOf(UnregisterMesh(t, r).mesh, r) == {};
  }

  /** Until the host is torn down, every mesh route's list is exactly the keys mapped to
      it. */
  lemma {:induction false} ListsAreExact(cs: seq<Call>, r: Route)
    requires forall i :: 0 <= i < |cs| ==> !cs[i].CallTeardown?
    ensures ListIsExact(Reach(cs), r)
  {
    if cs != [] {
      ListsAreExact(cs[..|cs| - 1], r);
      OneHolderPerKey(cs[..|cs| - 1]);
      StepKeepsLists(Reach(cs[..|cs| - 1]), cs[|cs| - 1], r);
    }
  }

  /** Until it is closed or the host is torn down, an explicit listener's own list is
      exactly the keys routed to it. */
  lemma {:induction false} TunnelListsAreExact(cs: seq<Call>, ln: Ln)
    requires forall i :: 0 <= i < |cs| ==> !cs[i].CallTeardown? && cs[i] != CallUnregister(ln)
    ensures Elems(GivenTo(Reach(cs), ln)) == KeysOf(Reach(cs).routes, ln)
  {
    if cs != [] {
      var n := |cs| - 1;
      TunnelListsAreExact(cs[..n], ln);
      StepKeepsTunnelList(Reach(cs[..n]), cs[n], ln);
    }
  }

  lemma StepKeepsTunnelList(t: Table, c: Call, ln: Ln)
    requires Elems(GivenTo(t, ln)) == KeysOf(t.routes, ln) && !c.CallTeardown? && c != CallUnregister(ln)
    ensures Elems(GivenTo(Next(t, c), ln)) == KeysOf(Next(t, c).routes, ln)
  {
    match c
    case CallReconcile(l, peers) =>
      ReconcileIsAllOrNothing(t, l, peers);
    case CallUnregister(l) =>
      assert KeysOf(Unregister(t, l).routes, ln) == KeysOf(t.routes, ln);
    case _ =>
  }

  /** Tearing the host down takes the keys and leaves the lists: a list stays exact exactly
      when it was empty. */
  lemma TeardownLeavesLists(t: Table, r: Route)
    ensures ListIsExact(Teardown(t), r) <==> ListOf(t, r) == {}
  {
    assert KeysOf(Teardown(t).mesh, r) == {};
  }

  /** The call sets the route's list from what it then maps to it. */
  predicate Mends(c: Call, r: Route) {
    (c.CallReconcileMesh? && c.route == r) || (c.CallUnregisterMesh? && c.goneRoute == r)
  }

  /** Call i tore the host down while the route's list had keys, and the list was not set
      since. */
  predicate TornAt(cs: seq<Call>, i: nat, r: Route)
    requires i < |cs|
  {
    cs[i].CallTeardown? && ListOf(Reach(cs[..i]), r) != {} && forall j :: i < j < |cs| ==> !Mends(cs[j], r)
  }

  predicate LeftBehind(cs: seq<Call>, r: Route) {
    exists i: nat :: i < |cs| && TornAt(cs, i, r)
  }

  /** The list has keys, and none is mapped to the route. */
  predicate ListIsStale(t: Table, r: Route) {
    ListOf(t, r) != {} && KeysOf(t.mesh, r) == {}
  }

  /** Nothing but setting it mends a stale list. */
  lemma StepKeepsStale(t: Table, c: Call, r: Route)
    requires ListIsStale(t, r) && !Mends(c, r)
    ensures ListIsStale(Next(t, c), r)
  {
    match c
    case CallReconcile(ln, peers) =>
      assert r !in Affected(t, Elems(peers)) by {
        assert forall p :: p in t.mesh && t.mesh[p] == r ==> p in KeysOf(t.mesh, r);
      }
      assert KeysOf(Next(t, c).mesh, r) == {};
    case CallReconcileMesh(r', peers) =>
      assert forall p :: p in Next(t, c).mesh && Next(t, c).mesh[p] == r ==> p in KeysOf(t.mesh, r);
    case CallUnregister(_) =>
    case CallUnregisterMesh(r') =>
      assert forall p :: p in KeysOf(Next(t, c).mesh, r) ==> p in KeysOf(t.mesh, r);
    case CallTeardown =>
      assert KeysOf(Next(t, c).mesh, r) == {};
  }

  lemma LeftBehindStep(cs: seq<Call>, r: Route)
    requires cs != []
    ensures var n := |cs| - 1;
      LeftBehind(cs, r) <==>
      || (cs[n].CallTeardown? && ListOf(Reach(cs[..n]), r) != {})
      || (LeftBehind(cs[..n], r) && !Mends(cs[n], r))
  {
    var n := |cs| - 1;
    forall i: nat | i < n
      ensures TornAt(cs, i, r) <==> TornAt(cs[..n], i, r) && !Mends(cs[n], r)
    {
      assert cs[..n][..i] == cs[..i];
      assert forall j :: i < j < n ==> cs[..n][j] == cs[j];
    }
    assert TornAt(cs, n, r) <==> cs[n].CallTeardown? && ListOf(Reach(cs[..n]), r) != {};
    if LeftBehind(cs, r) {
      var i: nat :| i < |cs| && TornAt(cs, i, r);
    }
  }

  /** In every run a mesh route's list is the keys mapped to it, exactly unless a teardown
      found keys in it and it has not been set since; then none is mapped. */
  lemma {:induction false} ListsAreExactUnlessTorn(cs: seq<Call>, r: Route)
    ensures ListIsExact(Reach(cs), r) <==> !LeftBehind(cs, r)
    ensures LeftBehind(cs, r) ==> ListIsStale(Reach(cs), r)
  {
    if cs != [] {
      var n := |cs| - 1;
      var t := Reach(cs[..n]);
      ListsAreExactUnlessTorn(cs[..n], r);
      OneHolderPerKey(cs[..n]);
      LeftBehindStep(cs, r);
      ListStep(t, cs[n], r);
    }
  }

  lemma ListStep(t: Table, c: Call, r: Route)
    requires Exclusive(t) && (ListIsExact(t, r) || ListIsStale(t, r))
    ensures var u := Next(t, c);
      if (c.CallTeardown? && ListOf(t, r) != {}) || (ListIsStale(t, r) && !Mends(c, r)) then ListIsStale(u, r)
      else ListIsExact(u, r)
  {
    if c.CallTeardown? {
      TeardownLeavesLists(t, r);
    } else if Mends(c, r) {
      ListIsMended(t, r, if c.CallReconcileMesh? then c.wanted else []);
    } else if ListIsStale(t, r) {
      StepKeepsStale(t, c, r);
    } else {
      StepKeepsLists(t, c, r);
    }
  }

  /** A teardown of a route that holds a key: its list names the key still. */
  lemma TeardownLeavesAList()
    ensures var t := Reach([CallReconcileMesh(0, ["a"]), CallTeardown]);
      ListOf(t, 0) == {"a"} && t.mesh == map[]
  {
    var cs := [CallReconcileMesh(0, ["a"]), CallTeardown];
    assert cs[..1] == [cs[0]] && cs[..1][..0] == [];
    assert TrimSpace("a") == "a";
    assert "a" in Wanted(["a"]);
    assert Wanted(["a"]) == {"a"};
  }

  /** What a mesh route gets is every wanted key that no explicit tunnel and no other mesh
      route holds; so a key it lost comes back once the explicit tunnel is closed. */
  lemma LostKeyComesBack(t: Table, ln: Ln, r: Route, peers: seq<Key>, p: Key)
    requires Exclusive(t) && p in t.routes && t.routes[p] == ln && p in Wanted(peers)
    ensures Dispatch(ReconcileMesh(t, r, peers), p) == Explicit(ln)
    ensures Dispatch(ReconcileMesh(Unregister(t, ln), r, peers), p) == Mesh(r)
  {
  }

  /** Listing a peer twice is no conflict: the change goes through, as if it were listed
      once, but for the listener's own list. */
  lemma ListedTwiceIsListedOnce(t: Table, ln: Ln, peers: seq<Key>, p: Key)
    requires p in peers
    ensures Conflict(t, ln, peers + [p]) == Conflict(t, ln, peers)
    ensures !Conflict(t, ln, peers) ==>
      Reconcile(t, ln, peers + [p]) == Reconcile(t, ln, peers).(given := t.given[ln := peers + [p]])
  {
    assert Elems(peers + [p]) == Elems(peers);
    assert forall q :: q in peers + [p] <==> q in peers;
  }
}
