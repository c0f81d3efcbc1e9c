/** The controlHub struct of tunnel/ctrlhub.go, its loops written out: each method does
    to the hub what its function in module `Hub` says. */
module ControlHub {
  import opened Common
  import opened Net
  import opened Rib
  import opened LiveRib
  import opened NetviewRouter
  import opened Hub

  class ControlHub {
    const id: Key
    const gen: string
    const rib: RibTable
    var published: nat
    var sink: map<Prefix, Route>
    var peers: map<Key, Peer>

    function St(): HubState
      reads this, rib
    {
      HubState(rib.St(), published, sink, peers)
    }

    constructor (id: Key, gen: string, allow: map<Key, seq<Prefix>>, rank: Prefix -> nat)
      ensures fresh(rib) && rib.rank == rank && this.id == id && this.gen == gen
      ensures St() == HubState(NewState(allow), 0, map[], map[])
    {
      var table := new RibTable(allow, rank);
      this.id, this.gen, this.rib := id, gen, table;
      published, sink, peers := 0, map[], map[];
    }

    /** `fails` are the spokes whose stream does not take the write in time. */
    method Publish(fails: set<Key>) returns (ghost n: Netview)
      requires Injective(rib.rank)
      modifies this
      ensures IsMessageOf(n, id, gen, rib.St(), rib.rank)
      ensures St() == Hub.Publish(old(St()), n, fails)
    {
      var rev, es, members := rib.Snapshot();
      var message := Message(id, gen, rev, es, members);
      n := message;
      var install := rev != published;
      if install {
        published := rev;
      }
      PushAll(rev, message, fails);
      if install {
        InstallRoutes();
      }
    }

    method PushAll(rev: nat, message: Netview, fails: set<Key>)
      modifies this`peers
      ensures peers == map k | k in old(peers) :: Push(old(peers)[k], rev, message, k in fails)
    {
      ghost var before := peers;
      var todo := peers.Keys;
      while todo != {}
        invariant todo <= before.Keys == peers.Keys
        invariant forall k :: k in before ==>
          peers[k] == if k in todo then before[k] else Push(before[k], rev, message, k in fails)
        decreases todo
      {
        var key :| key in todo;
        todo := todo - {key};
        var p := peers[key];
        if !p.conn || p.sent == rev {
          continue;
        }
        p := p.(sent := rev);
        if p.live {
          if key in fails {
            p := p.(live := false, queue := []);
          } else {
            p := p.(queue := p.queue + [message]);
          }
        }
        peers := peers[key := p];
      }
    }

    method InstallRoutes()
      modifies this`sink
      ensures sink == Installable(rib.claims)
    {
      var out: map<Prefix, Route> := map[];
      var todo := rib.claims.Keys;
      while todo != {}
        invariant todo <= rib.claims.Keys
        invariant forall p :: p in out <==> p in rib.claims && p !in todo && RouteOf(rib.claims[p]).peer != ""
        invariant forall p :: p in out ==> out[p] == RouteOf(rib.claims[p])
        decreases todo
      {
        var prefix :| prefix in todo;
        todo := todo - {prefix};
        var route := RouteOf(rib.claims[prefix]);
        if route.peer == "" {
          continue;
        }
        out := out[prefix := route];
      }
      sink := out;
    }

    /** The stream is attached, and what the slot had been sent is forgotten. */
    method OpenStream(key: Key)
      modifies this`peers
      ensures St() == Open(old(St()), key)
    {
      peers := peers[key := Peer(true, true, 0, [])];
    }

    /** runStream's opening: a fresh stream is told the current table at once, unless the
        table is empty. */
    method StartStream(key: Key, fails: set<Key>) returns (ghost n: Option<Netview>)
      requires Injective(rib.rank)
      modifies this
      ensures n.Some? <==> old(rib.claims) != map[]
      ensures n.Some? ==> IsMessageOf(n.value, id, gen, rib.St(), rib.rank)
      ensures St() == if n.Some? then Hub.Publish(Open(old(St()), key), n.value, fails) else Open(old(St()), key)
    {
      n := None;
      OpenStream(key);
      var _, es, _ := rib.Snapshot();
      EmptyTable(es, rib.claims, rib.rank);
      if |es| > 0 {
        ghost var m := Publish(fails);
        n := Some(m);
      }
    }

    method CloseStream(key: Key)
      modifies this`peers
      ensures St() == Drop(old(St()), key)
    {
      if key in peers {
        peers := peers[key := peers[key].(live := false, queue := [])];
      }
    }

    method Register(key: Key) returns (ok: bool)
      modifies this`peers
      ensures ok == (key != "")
      ensures St() == Hub.Register(old(St()), key)
    {
      if key == "" {
        return false;
      }
      if key !in peers {
        peers := peers[key := NO_PEER];
      }
      return true;
    }

    method Unregister(key: Key)
      modifies this`peers
      ensures St() == Hub.Unregister(old(St()), key)
    {
      if key in peers {
        peers := peers - {key};
      }
    }

    /** apply: an empty incremental message never reaches the RIB, an empty whole-intent
        one does. The new table is what the claim says, and then it is published. */
    method HandleClaim(key: Key, add: seq<Prefix>, drop: seq<Prefix>, first: bool, now: int, fails: set<Key>)
      returns (ghost n: Netview)
      requires Injective(rib.rank)
      modifies this, rib
      ensures IsMessageOf(n, id, gen, rib.St(), rib.rank)
      ensures var claimed := Rib.ApplyClaim(old(rib.St()), key, add, drop, first, now).0;
        St() == Hub.Publish(old(St()).(rib := claimed), n, fails)
    {
      if first || |add| != 0 || |drop| != 0 {
        var _ := rib.ApplyClaim(key, add, drop, first, now);
      } else {
        assert MaskAll(add) == [] && MaskAll(drop) == [];
      }
      n := Publish(fails);
    }

    /** One tick of the sweep: published only when something was withdrawn. */
    method SweepTick(now: int, ttl: int, fails: set<Key>) returns (ghost n: Option<Netview>)
      requires Injective(rib.rank)
      modifies this, rib
      ensures rib.St() == Rib.Withdraw(old(rib.St()), now, ttl)
      ensures n.Some? <==> Expired(old(rib.claims), now, ttl) != {}
      ensures n.Some? ==> IsMessageOf(n.value, id, gen, rib.St(), rib.rank)
      ensures n.Some? ==> St() == Hub.Publish(old(St()).(rib := rib.St()), n.value, fails)
      ensures n.None? ==> St() == old(St()).(rib := rib.St())
    {
      n := None;
      var withdrawn := rib.Withdraw(now, ttl);
      assert withdrawn != [] ==> withdrawn[0] in Expired(old(rib.claims), now, ttl);
      if |withdrawn| > 0 {
        ghost var m := Publish(fails);
        n := Some(m);
      }
    }
  }

  /** Only an empty table has an empty snapshot. */
  lemma EmptyTable(es: seq<Entry>, claims: Claims, rank: Prefix -> nat)
    requires IsSnapshot(es, claims, rank)
    ensures es == [] <==> claims == map[]
  {
    if es != [] {
      assert es[0].prefix in claims;
    } else {
      assert forall p :: p in claims ==> p in Prefixes(es);
    }
  }
}
