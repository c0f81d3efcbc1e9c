/** Who carries a route, and what a spoke is told of it: the hub's installed routes and a
    netview's content, in terms of the claims, the members and the operator's words. */
module Carriers {
  import opened Common
  import opened Net
  import opened Sorting
  import opened Rib
  import opened RibRuns
  import opened RibExact
  import opened NetviewRouter
  import opened Hub

  /** The hub installs p to this peer with these readers. */
  predicate Carries(claims: Claims, p: Prefix, peer: Key, readers: seq<Key>) {
    p in Installable(claims) && Installable(claims)[p] == Route(peer, readers)
  }

  /** An operator's route is carried by the first member with the address it goes by, with
      the readers the operator gave; one that goes by nobody, or by a member without a key,
      is not installed. */
  lemma StaticIsCarriedByVia(s: State, p: Prefix, via: Option<Addr>, readers: seq<Key>, now: int)
    requires AddStatic(s, p, via, readers, now).Some?
    ensures var t := AddStatic(s, p, via, readers, now).value;
      && (via.None? ==> p.Masked() !in Installable(t.claims))
      && (via.Some? ==> exists i: nat :: FirstWith(s.members, Unmap(via.value), i)
                                         && IsCarriedBy(t.claims, p.Masked(), s.members[i].key, readers))
  {
    StaticIsExact(s, p, via, readers, now);
    if via.Some? {
      var t := AddStatic(s, p, via, readers, now).value;
      var i: nat :| FirstWith(s.members, Unmap(via.value), i) && t.claims[p.Masked()].via == s.members[i].key;
      assert IsCarriedBy(t.claims, p.Masked(), s.members[i].key, readers);
    }
  }

  /** By this peer, or by nobody if its key is empty. */
  predicate IsCarriedBy(claims: Claims, p: Prefix, peer: Key, readers: seq<Key>) {
    if peer == "" then p !in Installable(claims) else Carries(claims, p, peer, readers)
  }

  /** A spoke's route is one for everybody to read. */
  ghost predicate Plain(claims: Claims) {
    forall p :: p in claims && !claims[p].isStatic ==> claims[p].allow == []
  }

  lemma {:induction false} AddsArePlain(s: State, origin: Key, add: seq<Prefix>, now: int)
    requires Plain(s.claims)
    ensures Plain(AddAll(s, origin, add, now).0.claims)
  {
    if add != [] {
      AddsArePlain(s, origin, add[..|add| - 1], now);
    }
  }

  lemma StepIsPlain(s: State, op: Op)
    requires Plain(s.claims)
    ensures Plain(Step(s, op).claims)
  {
    if op.Claimed? {
      var add := MaskAll(op.add);
      var s1 := if op.replace then Remove(s, LeftOut(s.claims, op.origin, add)) else s;
      DropAllKeeps(s1, op.origin, MaskAll(op.drop));
      AddsArePlain(DropAll(s1, op.origin, MaskAll(op.drop)), op.origin, add, op.now);
    }
  }

  /** In every run a spoke's route is carried by the spoke that claimed it, for everybody. */
  lemma {:induction false} ClaimIsCarriedByItsSpoke(s: State, ops: seq<Op>)
    requires s.claims == map[]
    ensures var claims := Run(s, ops).claims;
      && Plain(claims)
      && forall p :: p in claims && !claims[p].isStatic && claims[p].origin != "" ==> Carries(claims, p, claims[p].origin, [])
  {
    if ops != [] {
      var n := |ops| - 1;
      ClaimIsCarriedByItsSpoke(s, ops[..n]);
      StepIsPlain(Run(s, ops[..n]), ops[n]);
    }
  }

  // ---- What a netview says

  /** The row says this route of the table. */
  predicate Says(row: NetviewClaim, claims: Claims, p: Prefix) {
    p in claims && row == NetviewClaim(Cidr(p), claims[p].origin, claims[p].allow)
  }

  /** A netview of a table names the hub, its run, the revision and the members, and has one
      row for each route and no other: its prefix, who claimed it, and its readers; longer
      prefixes first. */
  lemma MessageSaysTheTable(n: Netview, id: Key, gen: string, s: State, rank: Prefix -> nat)
    requires IsMessageOf(n, id, gen, s, rank)
    ensures n.hub == id && n.gen == gen && n.rev == s.rev && n.members == s.members
    ensures forall p :: p in s.claims ==> exists i :: 0 <= i < |n.claims| && Says(n.claims[i], s.claims, p)
    ensures forall i :: 0 <= i < |n.claims| ==> n.claims[i].prefix.Cidr? && Says(n.claims[i], s.claims, n.claims[i].prefix.p)
    ensures forall i, j :: 0 <= i < j < |n.claims| ==>
      n.claims[i].prefix != n.claims[j].prefix && n.claims[i].prefix.p.bits >= n.claims[j].prefix.p.bits
  {
    var es :| IsSnapshot(es, s.claims, rank) && n == Message(id, gen, s.rev, es, s.members);
    forall p | p in s.claims
      ensures exists i :: 0 <= i < |n.claims| && Says(n.claims[i], s.claims, p)
    {
      var i := RowOf(es, s.claims, rank, p);
      assert Says(n.claims[i], s.claims, p);
    }
    forall i, j | 0 <= i < j < |n.claims|
      ensures n.claims[i].prefix != n.claims[j].prefix && n.claims[i].prefix.p.bits >= n.claims[j].prefix.p.bits
    {
      SnapshotOrder(es, s.claims, rank, i, j);
    }
  }

  lemma RowOf(es: seq<Entry>, claims: Claims, rank: Prefix -> nat, p: Prefix) returns (i: nat)
    requires IsSnapshot(es, claims, rank) && p in claims
    ensures i < |es| && es[i].prefix == p && Says(ClaimsOf(es)[i], claims, p)
  {
    assert p in Prefixes(es);
    i :| i < |es| && Prefixes(es)[i] == p;
  }

  // ---- What a router makes of it

  predicate IsGateway(members: seq<Member>, hub: Key, i: nat) {
    i < |members| && members[i].key == hub && forall j :: 0 <= j < i ==> members[j].key != hub
  }

  lemma {:induction false} GatewayIsTheHubs(members: seq<Member>, hub: Key)
    ensures (exists i: nat :: IsGateway(members, hub, i) && Gateway(members, hub) == members[i].ip)
      || ((forall i :: 0 <= i < |members| ==> members[i].key != hub) && Gateway(members, hub) == Unparsed(""))
  {
    if members != [] {
      if members[0].key == hub {
        assert IsGateway(members, hub, 0);
      } else {
        GatewayIsTheHubs(members[1..], hub);
        if i: nat :| IsGateway(members[1..], hub, i) && Gateway(members[1..], hub) == members[1..][i].ip {
          assert IsGateway(members, hub, i + 1);
        }
      }
    }
  }

  /** An installed netview is what the router then says: its hub, run, revision, members and
      rows; the first row of the hub's own key as the gateway; and the masked prefix of every
      row that parses, no other, longer ones first and equals in printed order. */
  lemma InstallSaysTheNetview(n: Netview, rank: Prefix -> nat)
    ensures var r := Install(n, rank);
      && r.hub == n.hub && r.gen == n.gen && r.rev == n.rev && r.members == n.members && r.claims == n.claims
      && (forall p :: p in r.routes <==> exists i :: 0 <= i < |n.claims| && n.claims[i].prefix.Cidr? && n.claims[i].prefix.p.Masked() == p)
      && (forall i, j :: 0 <= i < j < |r.routes| ==>
            r.routes[i].bits > r.routes[j].bits || (r.routes[i].bits == r.routes[j].bits && rank(r.routes[i]) <= rank(r.routes[j])))
    ensures var r := Install(n, rank);
      (exists i: nat :: IsGateway(n.members, n.hub, i) && r.gateway == n.members[i].ip)
      || ((forall i :: 0 <= i < |n.members| ==> n.members[i].key != n.hub) && r.gateway == Unparsed(""))
  {
    GatewayIsTheHubs(n.members, n.hub);
    ParsedAreRows(n.claims);
    RoutesAreSorted(n.claims, rank);
  }

  lemma {:induction false} ParsedAreRows(claims: seq<NetviewClaim>)
    ensures forall p :: p in ParsedPrefixes(claims) <==>
      exists i :: 0 <= i < |claims| && claims[i].prefix.Cidr? && claims[i].prefix.p.Masked() == p
  {
    if claims != [] {
      var n := |claims| - 1;
      ParsedAreRows(claims[..n]);
      assert claims == claims[..n] + [claims[n]];
    }
  }

  lemma RoutesAreSorted(claims: seq<NetviewClaim>, rank: Prefix -> nat)
    ensures var l := RouteList(claims, rank);
      && (forall p :: p in l <==> p in ParsedPrefixes(claims))
      && (forall i, j :: 0 <= i < j < |l| ==> l[i].bits > l[j].bits || (l[i].bits == l[j].bits && rank(l[i]) <= rank(l[j])))
  {
    var less := (a: Prefix, b: Prefix) => LongerFirst(rank, a, b);
    var l := RouteList(claims, rank);
    assert WeakOrder(less);
    SameElems(ParsedPrefixes(claims), l);
    forall i, j | 0 <= i < j < |l|
      ensures l[i].bits > l[j].bits || (l[i].bits == l[j].bits && rank(l[i]) <= rank(l[j]))
    {
      assert !less(l[j], l[i]);
    }
  }

  /** A destination written in the ::ffff: form is looked up as the IPv4 address it spells,
      and every other as it is; a prefix stands for its address. */
  lemma LookupUnmaps(v: nat, a: Addr, p: Prefix)
    requires v < 0x1_0000_0000
    ensures DstOf(DstAddr(V6(0xffff_0000_0000 + v))) == Some(V4(v))
    ensures a.V4? || a.v / 0x1_0000_0000 != 0xffff ==> DstOf(DstAddr(a)) == Some(a)
    ensures DstOf(DstPrefix(p)) == DstOf(DstAddr(p.addr)) && DstOf(DstOther) == None
  {
    LowBits(v);
    MappedForm(V6(0xffff_0000_0000 + v));
    MappedForm(a);
  }

  lemma LowBits(v: nat)
    requires v < 0x1_0000_0000
    ensures (0xffff_0000_0000 + v) / 0x1_0000_0000 == 0xffff && (0xffff_0000_0000 + v) % 0x1_0000_0000 == v
  {
  }
}
