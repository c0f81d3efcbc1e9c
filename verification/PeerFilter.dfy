/** The spoke's local block policy (tunnel/peerfilter.go): who owns an address is an
    exact member first, then the longest claim that contains it, and a packet is
    dropped when its owner is blocked. */
module PeerFilter {
  import opened Common
  import opened Net
  import opened Sorting
  import opened Strings
  import opened Rib
  import opened NetviewRouter

  datatype Owned = Owned(prefix: Prefix, owner: Key)

  datatype Policy = Policy(members: map<Addr, Key>, claims: seq<Owned>, blocked: set<Key>)

  /** The key of the last member row that names a: the one a map filled in order keeps. */
  function MemberOf(members: seq<Member>, a: Addr): Option<Key> {
    if members == [] then None
    else
      var m := members[|members| - 1];
      if m.ip.Parsed? && Unmap(m.ip.addr) == a then Some(m.key)
      else MemberOf(members[..|members| - 1], a)
  }

  /** The claims that parse, each a masked prefix and who claimed it. */
  function OwnedBy(claims: seq<NetviewClaim>): seq<Owned> {
    if claims == [] then []
    else
      var n := |claims| - 1;
      match claims[n].prefix
      case Cidr(p) => OwnedBy(claims[..n]) + [Owned(p.Masked(), claims[n].origin)]
      case NotCidr(_) => OwnedBy(claims[..n])
  }

  /** Of the table's claims that contain a, c is one of the longest. */
  ghost predicate LongestClaim(table: seq<Owned>, a: Addr, c: Owned) {
    && c in table && c.prefix.Contains(a)
    && forall d :: d in table && d.prefix.Contains(a) ==> d.prefix.bits <= c.prefix.bits
  }

  /** key owns a: an exact member decides, and only where there is none a claim does. */
  ghost predicate Owns(members: seq<Member>, claims: seq<NetviewClaim>, a: Addr, key: Key) {
    match MemberOf(members, a)
    case Some(k) => key == k
    case None => exists c :: LongestClaim(OwnedBy(claims), a, c) && c.owner == key
  }

  ghost predicate Unowned(members: seq<Member>, claims: seq<NetviewClaim>, a: Addr) {
    MemberOf(members, a).None? && forall c :: c in OwnedBy(claims) ==> !c.prefix.Contains(a)
  }

  /** The policy says what the netview and the block list say. */
  ghost predicate Reflects(p: Policy, members: seq<Member>, claims: seq<NetviewClaim>, blocked: set<Key>) {
    && p.blocked == blocked
    && RowsReflect(p.members, members)
    && (forall c :: c in p.claims <==> c in OwnedBy(claims))
    && LongestFirst(p.claims)
  }

  /** The keys of the block list, trimmed; a blank one is none. */
  ghost function BlockedKeys(blocked: seq<Key>): set<Key> {
    (set k | k in blocked :: TrimSpace(k)) - {""}
  }

  /** A key is blocked if some entry of the list is that key with the spaces around it taken
      off, and it is not blank. */
  lemma BlockedAreTheEntries(blocked: seq<Key>, key: Key)
    ensures key in BlockedKeys(blocked) <==> key != "" && exists i :: 0 <= i < |blocked| && TrimSpace(blocked[i]) == key
  {
    if i :| 0 <= i < |blocked| && TrimSpace(blocked[i]) == key {
      assert blocked[i] in blocked;
    }
  }

  lemma OneMoreBlocked(blocked: seq<Key>, n: nat)
    requires n < |blocked|
    ensures BlockedKeys(blocked[..n + 1]) == BlockedKeys(blocked[..n]) + ({TrimSpace(blocked[n])} - {""})
  {
    assert blocked[..n + 1] == blocked[..n] + [blocked[n]];
  }

  ghost predicate RowsReflect(rows: map<Addr, Key>, members: seq<Member>) {
    forall a :: MemberOf(members, a) == if a in rows then Some(rows[a]) else None
  }

  ghost predicate LongestFirst(claims: seq<Owned>) {
    forall j, k :: 0 <= j < k < |claims| ==> claims[j].prefix.bits >= claims[k].prefix.bits
  }

  /** Over a hub's table, which holds each prefix once, an address has one owner. */
  lemma OwnerIsUnique(members: seq<Member>, claims: seq<NetviewClaim>, a: Addr, k: Key, l: Key)
    requires forall c, d :: c in OwnedBy(claims) && d in OwnedBy(claims) && c.prefix == d.prefix ==> c == d
    requires forall c :: c in OwnedBy(claims) ==> c.prefix.IsMasked() && c.prefix.bits <= c.prefix.addr.Width()
    requires Owns(members, claims, a, k) && Owns(members, claims, a, l)
    ensures k == l
  {
    if MemberOf(members, a).None? {
      var c :| LongestClaim(OwnedBy(claims), a, c) && c.owner == k;
      var d :| LongestClaim(OwnedBy(claims), a, d) && d.owner == l;
      SharedAddressNests(c.prefix, d.prefix, a);
    }
  }

  /** i is the last member row whose address is a. */
  predicate LastWith(members: seq<Member>, a: Addr, i: nat) {
    && i < |members| && members[i].ip.Parsed? && Unmap(members[i].ip.addr) == a
    && forall j :: i < j < |members| && members[j].ip.Parsed? ==> Unmap(members[j].ip.addr) != a
  }

  /** An address is the member's whose row, unmapped, names it; the last such row's. */
  lemma {:induction false} MemberIsTheLastRow(members: seq<Member>, a: Addr)
    ensures match MemberOf(members, a)
      case Some(k) => exists i: nat :: LastWith(members, a, i) && members[i].key == k
      case None => forall i: nat :: !LastWith(members, a, i)
  {
    if members != [] {
      var n := |members| - 1;
      MemberIsTheLastRow(members[..n], a);
      if members[n].ip.Parsed? && Unmap(members[n].ip.addr) == a {
        assert LastWith(members, a, n);
      } else {
        forall i: nat
          ensures LastWith(members, a, i) <==> LastWith(members[..n], a, i)
        {
        }
        if MemberOf(members, a).Some? {
          var i: nat :| LastWith(members[..n], a, i) && members[..n][i].key == MemberOf(members, a).value;
          assert LastWith(members, a, i);
        }
      }
    }
  }

  /** The claims that decide are the rows that parse, masked, each its origin's. */
  lemma {:induction false} OwnedAreTheRows(claims: seq<NetviewClaim>, c: Owned)
    ensures c in OwnedBy(claims) <==>
      exists i :: 0 <= i < |claims| && claims[i].prefix.Cidr? && c == Owned(claims[i].prefix.p.Masked(), claims[i].origin)
  {
    if claims != [] {
      var n := |claims| - 1;
      OwnedAreTheRows(claims[..n], c);
      assert claims == claims[..n] + [claims[n]];
    }
  }

  /** A member's own address is his, whatever claim covers it; any other is that of a claim
      that contains it and than which no other that does is longer. */
  lemma OwnersAreMembersFirst(members: seq<Member>, claims: seq<NetviewClaim>, a: Addr, key: Key)
    ensures (exists i: nat :: LastWith(members, a, i)) ==>
      (Owns(members, claims, a, key) <==> exists i: nat :: LastWith(members, a, i) && members[i].key == key)
    ensures (forall i: nat :: !LastWith(members, a, i)) ==>
      (Owns(members, claims, a, key) <==> exists c :: LongestClaim(OwnedBy(claims), a, c) && c.owner == key)
  {
    MemberIsTheLastRow(members, a);
    if i: nat :| LastWith(members, a, i) {
      forall j: nat | LastWith(members, a, j)
        ensures j == i
      {
      }
    }
  }

  class PeerFilter {
    var policy: Option<Policy>
    const rank: Prefix -> nat

    constructor (rank: Prefix -> nat)
      ensures policy == None && this.rank == rank
    {
      policy := None;
      this.rank := rank;
    }

    /** Blocking nobody is no policy at all. */
    method SetPolicy(members: seq<Member>, claims: seq<NetviewClaim>, blocked: seq<Key>)
      modifies this`policy
      ensures BlockedKeys(blocked) == {} ==> policy == None
      ensures BlockedKeys(blocked) != {} ==> policy.Some? && Reflects(policy.value, members, claims, BlockedKeys(blocked))
    {
      var keys: set<Key> := {};
      for n := 0 to |blocked|
        invariant keys == BlockedKeys(blocked[..n])
      {
        OneMoreBlocked(blocked, n);
        var key := TrimSpace(blocked[n]);
        if key != "" {
          keys := keys + {key};
        }
      }
      assert blocked[..|blocked|] == blocked;
      if keys == {} {
        policy := None;
        return;
      }
      var rows := MemberRows(members);
      var table := ClaimRows(claims, rank);
      policy := Some(Policy(rows, table, keys));
    }

    static method MemberRows(members: seq<Member>) returns (rows: map<Addr, Key>)
      ensures RowsReflect(rows, members)
    {
      rows := map[];
      for n := 0 to |members|
        invariant RowsReflect(rows, members[..n])
      {
        assert members[..n + 1][..n] == members[..n];
        if members[n].ip.Parsed? {
          rows := rows[Unmap(members[n].ip.addr) := members[n].key];
        }
      }
      assert members[..|members|] == members;
    }

    static method ClaimRows(claims: seq<NetviewClaim>, rank: Prefix -> nat) returns (rows: seq<Owned>)
      ensures forall c :: c in rows <==> c in OwnedBy(claims)
      ensures LongestFirst(rows)
    {
      var parsed: seq<Owned> := [];
      for n := 0 to |claims|
        invariant parsed == OwnedBy(claims[..n])
      {
        assert claims[..n + 1][..n] == claims[..n];
        match claims[n].prefix
        case NotCidr(_) =>
        case Cidr(p) => parsed := parsed + [Owned(p.Masked(), claims[n].origin)];
      }
      assert claims[..|claims|] == claims;
      rows := SortClaims(parsed, rank);
    }

    static method SortClaims(claims: seq<Owned>, rank: Prefix -> nat) returns (r: seq<Owned>)
      ensures forall c :: c in r <==> c in claims
      ensures LongestFirst(r)
    {
      var less := (a: Owned, b: Owned) => LongerFirst(rank, a.prefix, b.prefix);
      r := Sort(less, claims);
      SameElems(claims, r);
      assert WeakOrder(less);
      forall j, k | 0 <= j < k < |r|
        ensures r[j].prefix.bits >= r[k].prefix.bits
      {
        assert !less(r[k], r[j]);
      }
    }

    /** With a policy in force: blocked exactly when the owner of the address is. */
    method Blocked(addr: Addr, ghost members: seq<Member>, ghost claims: seq<NetviewClaim>, ghost blocked: set<Key>)
      returns (r: bool)
      requires policy.Some? ==> Reflects(policy.value, members, claims, blocked)
      ensures policy == None || Unowned(members, claims, Unmap(addr)) ==> !r
      ensures policy.Some? && !Unowned(members, claims, Unmap(addr)) ==>
        exists key :: Owns(members, claims, Unmap(addr), key) && r == (key in blocked)
    {
      if policy == None {
        return false;
      }
      var p := policy.value;
      var a := Unmap(addr);
      if a in p.members {
        assert Owns(members, claims, a, p.members[a]);
        return p.members[a] in p.blocked;
      }
      for k := 0 to |p.claims|
        invariant forall j :: 0 <= j < k ==> !p.claims[j].prefix.Contains(a)
      {
        if p.claims[k].prefix.Contains(a) {
          FirstIsLongest(p.claims, OwnedBy(claims), a, k);
          assert Owns(members, claims, a, p.claims[k].owner);
          return p.claims[k].owner in p.blocked;
        }
      }
      return false;
    }
  }

  lemma FirstIsLongest(sorted: seq<Owned>, table: seq<Owned>, a: Addr, k: nat)
    requires LongestFirst(sorted) && forall c :: c in sorted <==> c in table
    requires k < |sorted| && sorted[k].prefix.Contains(a)
    requires forall j :: 0 <= j < k ==> !sorted[j].prefix.Contains(a)
    ensures LongestClaim(table, a, sorted[k])
  {
    assert sorted[k] in sorted;
    forall d | d in table && d.prefix.Contains(a)
      ensures d.prefix.bits <= sorted[k].prefix.bits
    {
      var j :| 0 <= j < |sorted| && sorted[j] == d;
    }
  }
}
