/** The rib struct of tunnel/rib.go: one locked section per method, each loop written
    out, each proved to do to the table exactly what its function on `State` says. */
module LiveRib {
  import opened Common
  import opened Net
  import opened Sorting
  import opened Rib

  /** The masked copy of the policy rows that the constructor and SetAllow store. */
  method CopyRows(allow: map<Key, seq<Prefix>>) returns (rows: Policy)
    ensures rows == MaskRows(allow)
  {
    rows := map[];
    var todo := allow.Keys;
    while todo != {}
      invariant todo <= allow.Keys
      invariant rows.Keys == allow.Keys - todo
      invariant forall k :: k in rows ==> rows[k] == MaskAll(allow[k])
      decreases |todo|
    {
      var peer :| peer in todo;
      var row: seq<Prefix> := [];
      for i := 0 to |allow[peer]|
        invariant row == MaskAll(allow[peer])[..i]
      {
        row := row + [allow[peer][i].Masked()];
      }
      assert row == MaskAll(allow[peer]);
      todo := todo - {peer};
      rows := rows[peer := row];
    }
  }

  ghost function Elems(s: seq<Prefix>): set<Prefix> {
    set p | p in s
  }

  lemma ElemsAppend(s: seq<Prefix>, p: Prefix)
    ensures Elems(s + [p]) == Elems(s) + {p}
  {
  }

  /** One turn, visiting p, of a loop that walks a map's keys in any order and deletes
      those in `gone`, with the keys in `todo` still unvisited. */
  lemma SweepStep(before: Claims, now: Claims, gone: set<Prefix>, todo: set<Prefix>, p: Prefix)
    requires p in todo && todo <= before.Keys
    requires now == before - (gone - todo)
    ensures p in now && now[p] == before[p]
    ensures p !in gone ==> now == before - (gone - (todo - {p})) && Count(gone - (todo - {p})) == Count(gone - todo)
    ensures p in gone ==> now - {p} == before - (gone - (todo - {p})) && Count(gone - (todo - {p})) == Count(gone - todo) + 1
  {
    if p in gone {
      assert gone - (todo - {p}) == (gone - todo) + {p};
      CountOneMore(gone - todo, p);
    } else {
      assert gone - (todo - {p}) == gone - todo;
    }
  }

  class RibTable {
    const rank: Prefix -> nat
    var rev: nat
    var claims: Claims
    var allow: Policy
    var members: seq<Member>

    function St(): State
      reads this
    {
      State(rev, claims, allow, members)
    }

    constructor (allow: map<Key, seq<Prefix>>, rank: Prefix -> nat)
      ensures St() == NewState(allow) && this.rank == rank
    {
      var rows := CopyRows(allow);
      this.rank := rank;
      this.rev := 1;
      this.claims := map[];
      this.allow := rows;
      this.members := [];
    }

    method SetMembers(members: seq<Member>)
      modifies this
      ensures St() == Rib.SetMembers(old(St()), members)
    {
      if this.members == members {
        return;
      }
      this.members := members;
      rev := rev + 1;
    }

    method SetAllow(allow: map<Key, seq<Prefix>>)
      modifies this
      ensures St() == Rib.SetAllow(old(St()), allow)
    {
      var rows := CopyRows(allow);
      this.allow := rows;
      ghost var before, gone := claims, Disapproved(claims, rows);
      var todo := claims.Keys;
      while todo != {}
        invariant todo <= before.Keys && claims == before - (gone - todo)
        invariant rev == old(rev) && this.allow == rows && members == old(members)
        decreases todo
      {
        var prefix :| prefix in todo;
        SweepStep(before, claims, gone, todo, prefix);
        todo := todo - {prefix};
        var claim := claims[prefix];
        if claim.isStatic || Approved(this.allow, claim.origin, prefix) {
          continue;
        }
        claims := claims - {prefix};
      }
      assert gone - {} == gone;
      rev := rev + 1;
    }

    /** applyClaim: the withdrawals a whole-intent message implies, then the drops it
        names, then its adds. */
    method ApplyClaim(origin: Key, add: seq<Prefix>, drop: seq<Prefix>, replace: bool, now: int)
      returns (accepted: seq<Prefix>)
      modifies this
      ensures (St(), accepted) == Rib.ApplyClaim(old(St()), origin, add, drop, replace, now)
    {
      if replace {
        RemoveLeftOut(origin, add);
      }
      RemoveDropped(origin, drop);
      accepted := Accept(origin, add, now);
    }

    method RemoveDropped(origin: Key, drop: seq<Prefix>)
      modifies this`claims, this`rev
      ensures St() == DropAll(old(St()), origin, MaskAll(drop))
    {
      ghost var drops := MaskAll(drop);
      for i := 0 to |drop|
        invariant St() == DropAll(old(St()), origin, drops[..i])
      {
        assert drops[..i + 1][..i] == drops[..i];
        var prefix := drop[i].Masked();
        if prefix !in claims || claims[prefix].origin != origin || claims[prefix].isStatic {
          continue;
        }
        claims := claims - {prefix};
        rev := rev + 1;
      }
      assert drops[..|drop|] == drops;
    }

    method Accept(origin: Key, add: seq<Prefix>, now: int) returns (accepted: seq<Prefix>)
      modifies this`claims, this`rev
      ensures (St(), accepted) == AddAll(old(St()), origin, MaskAll(add), now)
    {
      ghost var masked := MaskAll(add);
      accepted := [];
      for i := 0 to |add|
        invariant (St(), accepted) == AddAll(old(St()), origin, masked[..i], now)
      {
        assert masked[..i + 1][..i] == masked[..i];
        var prefix := add[i].Masked();
        if prefix in claims && claims[prefix].origin == origin {
          claims := claims[prefix := claims[prefix].(seen := now)];
          accepted := accepted + [prefix];
          continue;
        }
        if !Approved(allow, origin, prefix) {
          continue;
        }
        if CoversMember(members, prefix) {
          continue;
        }
        if prefix in claims {
          continue;
        }
        claims := claims[prefix := Claim(origin, false, [], "", now)];
        rev := rev + 1;
        accepted := accepted + [prefix];
      }
      assert masked[..|add|] == masked;
    }

    /** The first part of a whole-intent claim: what it no longer names goes. */
    method RemoveLeftOut(origin: Key, add: seq<Prefix>)
      modifies this`claims, this`rev
      ensures St() == Remove(old(St()), LeftOut(old(claims), origin, MaskAll(add)))
    {
      var keep: set<Prefix> := {};
      ghost var masked := MaskAll(add);
      for i := 0 to |add|
        invariant forall p :: p in keep <==> p in masked[..i]
      {
        assert masked[..i + 1] == masked[..i] + [masked[i]];
        keep := keep + {add[i].Masked()};
      }
      assert masked[..|add|] == masked;
      ghost var before, gone := claims, LeftOut(claims, origin, masked);
      var todo := claims.Keys;
      assert gone - todo == {};
      while todo != {}
        invariant todo <= before.Keys && claims == before - (gone - todo)
        invariant rev == old(rev) + Count(gone - todo)
        decreases todo
      {
        var prefix :| prefix in todo;
        SweepStep(before, claims, gone, todo, prefix);
        todo := todo - {prefix};
        var held := claims[prefix];
        assert prefix in gone <==> !held.isStatic && held.origin == origin && prefix !in keep;
        if held.isStatic || held.origin != origin {
          continue;
        }
        if prefix in keep {
          continue;
        }
        claims := claims - {prefix};
        rev := rev + 1;
      }
      assert gone - {} == gone;
    }

    method Withdraw(now: int, ttl: int) returns (withdrawn: seq<Prefix>)
      modifies this
      ensures St() == Rib.Withdraw(old(St()), now, ttl)
      ensures forall p :: p in withdrawn <==> p in Expired(old(claims), now, ttl)
      ensures Distinct(withdrawn)
      ensures forall i, j :: 0 <= i < j < |withdrawn| ==> withdrawn[i].bits >= withdrawn[j].bits
    {
      withdrawn := RemoveExpired(now, ttl);
      withdrawn := LongestFirst(withdrawn);
    }

    method RemoveExpired(now: int, ttl: int) returns (withdrawn: seq<Prefix>)
      modifies this`claims, this`rev
      ensures St() == Remove(old(St()), Expired(old(claims), now, ttl))
      ensures forall p :: p in withdrawn <==> p in Expired(old(claims), now, ttl)
      ensures Distinct(withdrawn)
    {
      withdrawn := [];
      ghost var before, gone := claims, Expired(claims, now, ttl);
      var todo := claims.Keys;
      assert gone - todo == {};
      while todo != {}
        invariant todo <= before.Keys && claims == before - (gone - todo)
        invariant rev == old(rev) + Count(gone - todo)
        invariant Elems(withdrawn) == gone - todo && Distinct(withdrawn)
        decreases todo
      {
        var prefix :| prefix in todo;
        SweepStep(before, claims, gone, todo, prefix);
        todo := todo - {prefix};
        var claim := claims[prefix];
        assert prefix in gone <==> !claim.isStatic && now - claim.seen > ttl;
        if claim.isStatic {
          continue;
        }
        if now - claim.seen <= ttl {
          continue;
        }
        claims := claims - {prefix};
        assert prefix !in Elems(withdrawn);
        ElemsAppend(withdrawn, prefix);
        withdrawn := withdrawn + [prefix];
        rev := rev + 1;
      }
      assert gone - {} == gone;
    }

    method AddStatic(prefix: Prefix, via: Option<Addr>, allow: seq<Key>, now: int) returns (ok: bool)
      modifies this
      ensures var r := Rib.AddStatic(old(St()), prefix, via, allow, now);
        ok == r.Some? && St() == if ok then r.value else old(St())
    {
      var p := prefix.Masked();
      var claim := Claim(STATIC_ORIGIN, true, allow, "", now);
      if via.Some? {
        var key := MemberKey(members, Unmap(via.value));
        if key.None? {
          return false;
        }
        claim := claim.(via := key.value);
      }
      if p in claims && SameRoute(claims[p], claim) {
        return true;
      }
      claims := claims[p := claim];
      rev := rev + 1;
      return true;
    }

    /** The winners in publication order, gathered in whatever order the map yields. */
    method Snapshot() returns (snapRev: nat, es: seq<Entry>, snapMembers: seq<Member>)
      requires Injective(rank)
      ensures snapRev == rev && snapMembers == members
      ensures IsSnapshot(es, claims, rank)
    {
      var winners: seq<Prefix> := [];
      var todo := claims.Keys;
      while todo != {}
        invariant todo <= claims.Keys
        invariant forall p :: p in winners <==> p in claims && p !in todo
        invariant Distinct(winners)
        decreases todo
      {
        var p :| p in todo;
        winners := winners + [p];
        todo := todo - {p};
      }
      var sorted := PublicationOrder(claims, rank, winners);
      es := EntriesOf(claims, sorted);
      assert Prefixes(es) == sorted;
      return rev, es, members;
    }
  }

  method EntriesOf(claims: Claims, prefixes: seq<Prefix>) returns (es: seq<Entry>)
    requires forall p :: p in prefixes ==> p in claims
    ensures |es| == |prefixes| && forall j :: 0 <= j < |es| ==> es[j] == EntryOf(prefixes[j], claims[prefixes[j]])
  {
    es := [];
    for i := 0 to |prefixes|
      invariant |es| == i
      invariant forall j :: 0 <= j < i ==> es[j] == EntryOf(prefixes[j], claims[prefixes[j]])
    {
      es := es + [EntryOf(prefixes[i], claims[prefixes[i]])];
    }
  }

  /** Sorted by length alone: the order within one length is left open. */
  method LongestFirst(prefixes: seq<Prefix>) returns (r: seq<Prefix>)
    ensures forall p :: p in r <==> p in prefixes
    ensures Distinct(prefixes) ==> Distinct(r)
    ensures forall i, j :: 0 <= i < j < |r| ==> r[i].bits >= r[j].bits
  {
    var longer := (a: Prefix, b: Prefix) => a.bits > b.bits;
    r := Sort(longer, prefixes);
    SameElems(prefixes, r);
    assert WeakOrder(longer);
    forall i, j | 0 <= i < j < |r|
      ensures r[i].bits >= r[j].bits
    {
      assert !longer(r[j], r[i]);
    }
  }

  method PublicationOrder(claims: Claims, rank: Prefix -> nat, winners: seq<Prefix>) returns (r: seq<Prefix>)
    requires Injective(rank) && Distinct(winners)
    ensures StrictlySorted((a: Prefix, b: Prefix) => Before(claims, rank, a, b), r)
    ensures forall p :: p in r <==> p in winners
  {
    var less := (a: Prefix, b: Prefix) => Before(claims, rank, a, b);
    r := Sort(less, winners);
    BeforeIsTotal(claims, rank);
    SameElems(winners, r);
    DistinctSortedIsStrict(less, r);
  }
}
