/** The manager of tunnel/p2p_host.go as the object it is there: its maps, edited key by
    key under one lock. */
module P2pHostManager {
  import opened Strings
  import opened P2pHost

  /** The map, with some keys mapped to one value. */
  function With(m: map<Key, nat>, keys: set<Key>, v: nat): map<Key, nat> {
    m + map p | p in keys :: v
  }

  lemma WithOneMore(m: map<Key, nat>, keys: set<Key>, v: nat, p: Key)
    ensures With(m, keys, v)[p := v] == With(m, keys + {p}, v)
    ensures With(m, {}, v) == m
  {
  }

  lemma ClaimedOneMore(t: Table, r: Route, done: set<Key>, p: Key)
    ensures Claimed(t, r, done + {p}) == Claimed(t, r, done) + Claimed(t, r, {p})
  {
  }

  /** A key may be taken, as the map stands now. */
  predicate FreeNow(t: Table, mesh: map<Key, Route>, r: Route, p: Key) {
    p !in t.routes && (p in mesh ==> mesh[p] == r)
  }

  /** One more key is claimed if it is still free, and that is if it was free at first. */
  lemma ClaimStep(t: Table, r: Route, done: set<Key>, p: Key)
    requires p !in done
    ensures var claimed := Claimed(t, r, done);
      var mesh := With(t.mesh, claimed, r);
      if FreeNow(t, mesh, r, p)
      then Claimed(t, r, done + {p}) == claimed + {p} && With(t.mesh, claimed + {p}, r) == mesh[p := r]
      else Claimed(t, r, done + {p}) == claimed
  {
    ClaimedOneMore(t, r, done, p);
    WithOneMore(t.mesh, Claimed(t, r, done), r, p);
    assert Claimed(t, r, {p}) == if p in Claimed(t, r, {p}) then {p} else {};
  }

  class Manager {
    var routes: map<Key, Ln>
    var meshRoutes: map<Key, Route>
    var meshKnown: set<Key>
    var lists: map<Route, set<Key>>   // the mesh listeners' peers
    var given: map<Ln, seq<Key>>      // the explicit listeners' peers

    ghost function View(): Table
      reads this
    {
      Table(routes, meshRoutes, meshKnown, lists, given)
    }

    constructor ()
      ensures View() == EMPTY
    {
      routes, meshRoutes, meshKnown, lists, given := map[], map[], {}, map[], map[];
    }

    /** False on a conflict. Told are the mesh routes to notify. */
    method Reconcile(ln: Ln, peers: seq<Key>) returns (ok: bool, told: set<Route>)
      modifies this
      ensures View() == P2pHost.Reconcile(old(View()), ln, peers)
      ensures ok <==> !Conflict(old(View()), ln, peers)
      ensures told == if ok then Affected(old(View()), Elems(peers)) else {}
    {
      ghost var t := View();
      told := {};
      var want: set<Key> := {};
      var i := 0;
      while i < |peers|
        invariant 0 <= i <= |peers| && want == Elems(peers[..i])
        invariant forall p :: p in want && p in routes ==> routes[p] == ln
      {
        var p := peers[i];
        if p in routes && routes[p] != ln {
          return false, {};
        }
        want := want + {p};
        i := i + 1;
      }
      assert peers[..i] == peers;
      assert !Conflict(t, ln, peers);
      told := Preempt(want);
      TakeRoutes(ln, want);
      SetLists(told);
      given := given[ln := peers];
      ok := true;
    }

    /** The wanted keys are dropped from the mesh routes that hold them. */
    method Preempt(want: set<Key>) returns (affected: set<Route>)
      modifies `meshRoutes
      ensures meshRoutes == old(meshRoutes) - want
      ensures affected == Affected(old(View()), want)
    {
      affected := {};
      var rest := want;
      ghost var done: set<Key> := {};
      while rest != {}
        invariant rest + done == want && rest !! done
        invariant meshRoutes == old(meshRoutes) - done
        invariant affected == Affected(old(View()), done)
        decreases rest
      {
        var p :| p in rest;
        if p in meshRoutes {
          affected := affected + {meshRoutes[p]};
          meshRoutes := meshRoutes - {p};
        }
        rest, done := rest - {p}, done + {p};
      }
      assert done == want;
    }

    method TakeRoutes(ln: Ln, want: set<Key>)
      modifies `routes
      ensures routes == (map p | p in old(routes) && old(routes)[p] != ln :: old(routes)[p]) + (map p | p in want :: ln)
    {
      AddRoutes(ln, want);
      DropRoutes(ln, want);
    }

    method AddRoutes(ln: Ln, want: set<Key>)
      modifies `routes
      ensures routes == With(old(routes), want, ln)
    {
      var rest := want;
      ghost var done: set<Key> := {};
      assert routes == With(routes, {}, ln);
      while rest != {}
        invariant rest + done == want
        invariant routes == With(old(routes), done, ln)
        decreases rest
      {
        var p :| p in rest;
        WithOneMore(old(routes), done, ln, p);
        routes := routes[p := ln];
        rest, done := rest - {p}, done + {p};
      }
      assert done == want;
    }

    method DropRoutes(ln: Ln, want: set<Key>)
      modifies `routes
      ensures routes == map p | p in old(routes) && (old(routes)[p] != ln || p in want) :: old(routes)[p]
    {
      var held := routes.Keys;
      while held != {}
        invariant held <= old(routes).Keys
        invariant routes == map p | p in old(routes) && (p in held || old(routes)[p] != ln || p in want) :: old(routes)[p]
        decreases held
      {
        var p :| p in held;
        if routes[p] == ln && p !in want {
          routes := routes - {p};
        }
        held := held - {p};
      }
    }

    /** The keys that are mapped to a route, gathered from the map. */
    method Gather(r: Route) returns (keep: set<Key>)
      ensures keep == KeysOf(meshRoutes, r)
    {
      keep := {};
      var rest := meshRoutes.Keys;
      while rest != {}
        invariant rest <= meshRoutes.Keys
        invariant keep == set p | p in meshRoutes && p !in rest && meshRoutes[p] == r
        decreases rest
      {
        var p :| p in rest;
        if meshRoutes[p] == r {
          keep := keep + {p};
        }
        rest := rest - {p};
      }
    }

    method SetLists(affected: set<Route>)
      modifies `lists
      ensures lists == old(lists) + (map r | r in affected :: KeysOf(meshRoutes, r))
    {
      var rest := affected;
      while rest != {}
        invariant rest <= affected
        invariant lists == old(lists) + (map r | r in affected - rest :: KeysOf(meshRoutes, r))
        decreases rest
      {
        var r :| r in rest;
        var keep := Gather(r);
        lists := lists[r := keep];
        rest := rest - {r};
      }
    }

    method ReconcileMesh(r: Route, peers: seq<Key>) returns (claimed: set<Key>)
      modifies this
      ensures View() == P2pHost.ReconcileMesh(old(View()), r, peers)
      ensures claimed == Claimed(old(View()), r, Wanted(peers))
    {
      ghost var t := View();
      var want := TrimAll(peers);
      DropKeys(r, want);
      assert Claimed(View(), r, want) == Claimed(t, r, want);
      claimed := Claim(r, want);
      lists := lists[r := claimed];
    }

    static method TrimAll(peers: seq<Key>) returns (want: set<Key>)
      ensures want == Wanted(peers)
    {
      want := {};
      var i := 0;
      while i < |peers|
        invariant 0 <= i <= |peers| && want == Wanted(peers[..i])
      {
        var p := TrimSpace(peers[i]);
        if p != "" && p !in want {
          want := want + {p};
        }
        i := i + 1;
      }
      assert peers[..i] == peers;
    }

    method DropKeys(r: Route, keep: set<Key>)
      modifies `meshRoutes
      ensures meshRoutes == map p | p in old(meshRoutes) && (old(meshRoutes)[p] == r ==> p in keep) :: old(meshRoutes)[p]
    {
      var rest := meshRoutes.Keys;
      while rest != {}
        invariant rest <= old(meshRoutes).Keys
        invariant meshRoutes == map p | p in old(meshRoutes) && (p in rest || (old(meshRoutes)[p] == r ==> p in keep)) :: old(meshRoutes)[p]
        decreases rest
      {
        var p :| p in rest;
        if meshRoutes[p] == r && p !in keep {
          meshRoutes := meshRoutes - {p};
        }
        rest := rest - {p};
      }
    }

    method Claim(r: Route, want: set<Key>) returns (claimed: set<Key>)
      modifies `meshRoutes, `meshKnown
      ensures claimed == Claimed(old(View()), r, want)
      ensures meshRoutes == With(old(meshRoutes), claimed, r)
      ensures meshKnown == old(meshKnown) + want
    {
      ghost var t := View();
      claimed := {};
      var rest := want;
      ghost var done: set<Key> := {};
      WithOneMore(t.mesh, {}, r, "");
      while rest != {}
        invariant rest + done == want && rest !! done
        invariant claimed == Claimed(t, r, done)
        invariant meshRoutes == With(t.mesh, claimed, r)
        invariant meshKnown == t.known + done
        decreases rest
      {
        var p :| p in rest;
        ClaimStep(t, r, done, p);
        var free := ClaimOne(r, p);
        assert free <==> FreeNow(t, With(t.mesh, claimed, r), r, p);
        claimed := if free then claimed + {p} else claimed;
        rest, done := rest - {p}, done + {p};
      }
      assert done == want;
    }

    method ClaimOne(r: Route, p: Key) returns (free: bool)
      modifies `meshRoutes, `meshKnown
      ensures free <==> p !in routes && (p in old(meshRoutes) ==> old(meshRoutes)[p] == r)
      ensures meshRoutes == if free then old(meshRoutes)[p := r] else old(meshRoutes)
      ensures meshKnown == old(meshKnown) + {p}
    {
      meshKnown := meshKnown + {p};
      free := p !in routes && (p !in meshRoutes || meshRoutes[p] == r);
      if free {
        meshRoutes := meshRoutes[p := r];
      }
    }

    /** True when the listener still held a key, and is closed. */
    method Unregister(ln: Ln) returns (owned: bool)
      modifies `routes
      ensures View() == P2pHost.Unregister(old(View()), ln)
      ensures owned <==> exists p :: p in old(routes) && old(routes)[p] == ln
    {
      owned := false;
      var rest := routes.Keys;
      while rest != {}
        invariant rest <= old(routes).Keys
        invariant routes == map p | p in old(routes) && (p in rest || old(routes)[p] != ln) :: old(routes)[p]
        invariant owned <==> exists p :: p in old(routes) && p !in rest && old(routes)[p] == ln
        decreases rest
      {
        var p :| p in rest;
        if routes[p] == ln {
          routes := routes - {p};
          owned := true;
        }
        rest := rest - {p};
      }
    }

    method UnregisterMesh(r: Route)
      modifies this
      ensures View() == P2pHost.UnregisterMesh(old(View()), r)
    {
      var owned := Gather(r);
      DropKeys(r, {});
      Forget(owned);
      lists := lists[r := {}];
    }

    method Forget(owned: set<Key>)
      modifies `meshKnown
      ensures meshKnown == old(meshKnown) - (set p | p in owned && p !in routes)
    {
      var rest := owned;
      while rest != {}
        invariant rest <= owned
        invariant meshKnown == old(meshKnown) - (set p | p in owned && p !in rest && p !in routes)
        decreases rest
      {
        var p :| p in rest;
        if p !in routes {
          meshKnown := meshKnown - {p};
        }
        rest := rest - {p};
      }
    }

    method Teardown()
      modifies this
      ensures View() == P2pHost.Teardown(old(View()))
    {
      routes, meshRoutes, meshKnown := map[], map[], {};
    }

    method Dispatch(peer: Key) returns (target: Target)
      ensures target == P2pHost.Dispatch(View(), peer)
    {
      if peer !in routes && peer !in meshRoutes {
        return Nobody;
      }
      if peer !in routes {
        return Mesh(meshRoutes[peer]);
      }
      return Explicit(routes[peer]);
    }
  }
}
