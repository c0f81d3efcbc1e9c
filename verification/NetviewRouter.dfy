/** The spoke's versioned routing table (tunnel/netview_router.go): which netviews it
    installs, in whatever order they arrive, and which prefix answers a lookup. */
module NetviewRouter {
  import opened Common
  import opened Net
  import opened Sorting
  import opened Rib

  /** A claim's prefix as text, as far as parsing it goes. */
  datatype PrefixText = Cidr(p: Prefix) | NotCidr(text: string)

  datatype NetviewClaim = NetviewClaim(prefix: PrefixText, origin: Key, allow: seq<Key>)

  datatype Netview = Netview(hub: Key, gen: string, rev: nat, members: seq<Member>, claims: seq<NetviewClaim>)

  datatype RouterState = RouterState(
    hub: Key, gen: string, rev: nat, gateway: IpText, routes: seq<Prefix>,
    members: seq<Member>, claims: seq<NetviewClaim>)

  const NO_GATEWAY: IpText := Unparsed("")

  const EMPTY_ROUTER: RouterState := RouterState("", "", 0, NO_GATEWAY, [], [], [])

  // ---- Installing a netview

  /** From the same run of the same hub only a newer revision; from any other, any. */
  predicate Accepts(r: RouterState, n: Netview) {
    n.hub != "" && !(n.hub == r.hub && n.gen == r.gen && n.rev <= r.rev)
  }

  /** The masked prefixes of the claims that parse, in claim order. */
  function ParsedPrefixes(claims: seq<NetviewClaim>): seq<Prefix> {
    if claims == [] then []
    else
      var n := |claims| - 1;
      match claims[n].prefix
      case Cidr(p) => ParsedPrefixes(claims[..n]) + [p.Masked()]
      case NotCidr(_) => ParsedPrefixes(claims[..n])
  }

  predicate LongerFirst(rank: Prefix -> nat, a: Prefix, b: Prefix) {
    if a.bits != b.bits then a.bits > b.bits else rank(a) < rank(b)
  }

  function RouteList(claims: seq<NetviewClaim>, rank: Prefix -> nat): seq<Prefix> {
    Sort((a: Prefix, b: Prefix) => LongerFirst(rank, a, b), ParsedPrefixes(claims))
  }

  /** The address of the first member row that carries the hub's own key. */
  function Gateway(members: seq<Member>, hub: Key): IpText {
    if members == [] then NO_GATEWAY
    else if members[0].key == hub then members[0].ip
    else Gateway(members[1..], hub)
  }

  function Install(n: Netview, rank: Prefix -> nat): RouterState {
    RouterState(n.hub, n.gen, n.rev, Gateway(n.members, n.hub), RouteList(n.claims, rank), n.members, n.claims)
  }

  function Deliver(r: RouterState, n: Netview, rank: Prefix -> nat): RouterState {
    if Accepts(r, n) then Install(n, rank) else r
  }

  function DeliverAll(ns: seq<Netview>, rank: Prefix -> nat): RouterState {
    if ns == [] then EMPTY_ROUTER
    else Deliver(DeliverAll(ns[..|ns| - 1], rank), ns[|ns| - 1], rank)
  }

  // ---- Which netview a delivery history leaves installed

  predicate SameRun(a: Netview, b: Netview) {
    a.hub == b.hub && a.gen == b.gen
  }

  /** Message i is the newest of the last run heard from: since it only nameless
      messages and older or equal ones of its run, and in the unbroken stretch of its
      run before it only older ones. */
  ghost predicate IsCurrent(ns: seq<Netview>, i: nat) {
    && i < |ns| && ns[i].hub != ""
    && (forall j :: i < j < |ns| ==> ns[j].hub == "" || (SameRun(ns[j], ns[i]) && ns[j].rev <= ns[i].rev))
    && (forall j :: 0 <= j < i && ns[j].hub != "" && Unbroken(ns, j, i) ==> ns[j].rev < ns[i].rev)
  }

  ghost predicate Unbroken(ns: seq<Netview>, j: int, i: nat)
    requires 0 <= j <= i < |ns|
  {
    forall k :: j <= k <= i && ns[k].hub != "" ==> SameRun(ns[k], ns[i])
  }

  /** Whatever was delivered, in whatever order and however often, the router holds the
      current message of that history; it is empty only if no message named a hub. */
  lemma {:induction false} InstalledIsCurrent(ns: seq<Netview>, rank: Prefix -> nat) returns (i: nat)
    ensures if Nameless(ns) then DeliverAll(ns, rank) == EMPTY_ROUTER
            else IsCurrent(ns, i) && DeliverAll(ns, rank) == Install(ns[i], rank)
  {
    i := 0;
    if ns != [] {
      var n := |ns| - 1;
      i := InstalledIsCurrent(ns[..n], rank);
      if Accepts(DeliverAll(ns[..n], rank), ns[n]) {
        if Nameless(ns[..n]) {
          FirstIsCurrent(ns);
        } else {
          NewerIsCurrent(ns, i);
        }
        i := n;
      } else if !Nameless(ns[..n]) {
        StaysCurrent(ns, i);
      }
    }
  }

  predicate Nameless(ns: seq<Netview>) {
    forall j :: 0 <= j < |ns| ==> ns[j].hub == ""
  }

  lemma FirstIsCurrent(ns: seq<Netview>)
    requires ns != [] && Nameless(ns[..|ns| - 1]) && ns[|ns| - 1].hub != ""
    ensures IsCurrent(ns, |ns| - 1)
  {
    assert forall j :: 0 <= j < |ns| - 1 ==> ns[j] == ns[..|ns| - 1][j];
  }

  lemma NewerIsCurrent(ns: seq<Netview>, i: nat)
    requires ns != [] && IsCurrent(ns[..|ns| - 1], i)
    requires ns[|ns| - 1].hub != ""
    requires SameRun(ns[|ns| - 1], ns[i]) ==> ns[i].rev < ns[|ns| - 1].rev
    ensures IsCurrent(ns, |ns| - 1)
  {
    var n := |ns| - 1;
    var ms := ns[..n];
    forall j | 0 <= j < n && ns[j].hub != "" && Unbroken(ns, j, n)
      ensures ns[j].rev < ns[n].rev
    {
      assert SameRun(ns[j], ns[n]);
      if j <= i {
        assert SameRun(ns[i], ns[n]);
        if j < i {
          assert forall k :: j <= k <= i && ms[k].hub != "" ==> SameRun(ns[k], ns[n]);
          assert Unbroken(ms, j, i);
          assert ms[j].rev < ms[i].rev;
        }
      } else {
        assert ms[j].rev <= ms[i].rev && SameRun(ms[j], ms[i]);
      }
    }
  }

  lemma StaysCurrent(ns: seq<Netview>, i: nat)
    requires ns != [] && IsCurrent(ns[..|ns| - 1], i)
    requires var n := ns[|ns| - 1]; n.hub == "" || (SameRun(n, ns[i]) && n.rev <= ns[i].rev)
    ensures IsCurrent(ns, i)
  {
    var ms := ns[..|ns| - 1];
    forall j | 0 <= j < i && ns[j].hub != "" && Unbroken(ns, j, i)
      ensures ns[j].rev < ns[i].rev
    {
      assert forall k :: j <= k <= i && ms[k].hub != "" ==> SameRun(ns[k], ns[i]);
      assert Unbroken(ms, j, i);
      assert ms[j].rev < ms[i].rev;
    }
  }

  lemma CurrentIsUnique(ns: seq<Netview>, i: nat, j: nat)
    requires IsCurrent(ns, i) && IsCurrent(ns, j)
    ensures i == j
  {
    if i < j {
      assert Unbroken(ns, i, j);
    } else if j < i {
      CurrentIsUnique(ns, j, i);
    }
  }

  /** All from one run of one hub, each revision with one content. */
  ghost predicate OneRun(ns: seq<Netview>) {
    && (forall n :: n in ns ==> n.hub != "")
    && (forall a, b :: a in ns && b in ns ==> SameRun(a, b) && (a.rev == b.rev ==> a == b))
  }

  lemma NeverBroken(ns: seq<Netview>, i: nat)
    requires OneRun(ns) && i < |ns|
    ensures forall j :: 0 <= j <= i ==> Unbroken(ns, j, i)
  {
    forall k | 0 <= k <= i
      ensures SameRun(ns[k], ns[i])
    {
      assert ns[k] in ns && ns[i] in ns;
    }
  }

  /** Within one run the router holds the highest revision delivered. */
  lemma HighestRevisionWins(ns: seq<Netview>, rank: Prefix -> nat, top: Netview)
    requires OneRun(ns) && top in ns && forall n :: n in ns ==> n.rev <= top.rev
    ensures DeliverAll(ns, rank) == Install(top, rank)
  {
    var i := InstalledIsCurrent(ns, rank);
    var k :| 0 <= k < |ns| && ns[k] == top;
    assert ns[k].hub != "";
    assert ns[i] in ns;
    NeverBroken(ns, i);
    assert ns[i].rev == top.rev;
  }

  /** Order, repetition and delay do not matter: two spokes that were sent the same
      netviews of one run hold the same table. */
  lemma DeliveryOrderIsIrrelevant(ns: seq<Netview>, ms: seq<Netview>, rank: Prefix -> nat)
    requires OneRun(ns) && forall n :: n in ns <==> n in ms
    ensures DeliverAll(ns, rank) == DeliverAll(ms, rank)
  {
    assert ms != [] ==> ms[0] in ns;
    if ns != [] {
      var top := HighestOf(ns);
      HighestRevisionWins(ns, rank, top);
      HighestRevisionWins(ms, rank, top);
    }
  }

  lemma {:induction false} HighestOf(ns: seq<Netview>) returns (top: Netview)
    requires ns != []
    ensures top in ns && forall n :: n in ns ==> n.rev <= top.rev
  {
    var k := |ns| - 1;
    top := ns[k];
    if k > 0 {
      var t := HighestOf(ns[..k]);
      top := if t.rev > ns[k].rev then t else ns[k];
    }
    assert forall n :: n in ns ==> n in ns[..k] || n == ns[k];
  }

  /** Across runs it does matter: a delayed netview of the hub's previous run is taken
      for a restarted hub and displaces the current one. */
  lemma DelayedGenerationDisplaces(rank: Prefix -> nat)
    ensures var before := Netview("hub", "g1", 9, [], []);
      var after := Netview("hub", "g2", 1, [], []);
      DeliverAll([before, after, before], rank) == Install(before, rank)
  {
    var before := Netview("hub", "g1", 9, [], []);
    var after := Netview("hub", "g2", 1, [], []);
    var ns := [before, after, before];
    assert ns[..2] == [before, after] && ns[..2][..1] == [before] && [before][..0] == [];
    assert DeliverAll([before], rank) == Install(before, rank);
    assert DeliverAll([before, after], rank) == Install(after, rank);
  }

  /** Within a run the revision only advances: one delivery takes the router back exactly
      when it is named, comes from another run and has a lower revision. */
  lemma RevisionAdvancesWithinRun(r: RouterState, n: Netview, rank: Prefix -> nat)
    ensures var t := Deliver(r, n, rank);
      && (t.hub == r.hub && t.gen == r.gen ==> t.rev >= r.rev)
      && (t.hub == r.hub && t.gen == r.gen && t.rev == r.rev ==> t == r)
      && (t.rev < r.rev <==> n.hub != "" && !(n.hub == r.hub && n.gen == r.gen) && n.rev < r.rev)
  {
  }

  // ---- Lookups

  /** r is the longest of the prefixes that contain a; there is none only if none does. */
  ghost predicate IsLongest(prefixes: seq<Prefix>, a: Addr, r: Option<Prefix>) {
    match r
    case None => forall p :: p in prefixes ==> !p.Contains(a)
    case Some(best) =>
      && best in prefixes && best.Contains(a)
      && forall p :: p in prefixes && p.Contains(a) ==> p.bits <= best.bits
  }

  /** Among masked prefixes there is only one longest: a lookup has one answer, however
      the table is ordered and whatever it repeats. */
  lemma LongestIsUnique(ps: seq<Prefix>, qs: seq<Prefix>, a: Addr, r: Option<Prefix>, t: Option<Prefix>)
    requires forall p :: p in ps ==> p.IsMasked() && p.bits <= p.addr.Width()
    requires forall p :: p in ps <==> p in qs
    requires IsLongest(ps, a, r) && IsLongest(qs, a, t)
    ensures r == t
  {
    if r.Some? && t.Some? {
      assert r.value in qs && t.value in ps;
      SharedAddressNests(r.value, t.value, a);
    }
  }

  /** A table sorted longest first answers with its first match. */
  lemma FirstMatchIsLongest(routes: seq<Prefix>, a: Addr, i: nat)
    requires forall j, k :: 0 <= j < k < |routes| ==> routes[j].bits >= routes[k].bits
    requires i < |routes| && routes[i].Contains(a)
    requires forall j :: 0 <= j < i ==> !routes[j].Contains(a)
    ensures IsLongest(routes, a, Some(routes[i]))
  {
  }

  lemma RouteListIsSorted(claims: seq<NetviewClaim>, rank: Prefix -> nat)
    ensures var l := RouteList(claims, rank);
      && (forall p :: p in l <==> p in ParsedPrefixes(claims))
      && (forall j, k :: 0 <= j < k < |l| ==> l[j].bits >= l[k].bits)
  {
    var less := (a: Prefix, b: Prefix) => LongerFirst(rank, a, b);
    var l := RouteList(claims, rank);
    assert WeakOrder(less);
    SameElems(ParsedPrefixes(claims), l);
    forall j, k | 0 <= j < k < |l|
      ensures l[j].bits >= l[k].bits
    {
      assert !less(l[k], l[j]);
    }
  }

  /** A lookup destination: an address, a prefix standing for its address, or neither. */
  datatype Dst = DstAddr(a: Addr) | DstPrefix(p: Prefix) | DstOther

  function DstOf(dst: Dst): Option<Addr> {
    match dst
    case DstAddr(a) => Some(Unmap(a))
    case DstPrefix(p) => Some(Unmap(p.addr))
    case DstOther => None
  }

  class Router {
    const rank: Prefix -> nat
    var hub: Key
    var gen: string
    var rev: nat
    var gateway: IpText
    var routes: seq<Prefix>
    var members: seq<Member>
    var claims: seq<NetviewClaim>

    function St(): RouterState
      reads this
    {
      RouterState(hub, gen, rev, gateway, routes, members, claims)
    }

    ghost predicate Valid()
      reads this
    {
      routes == RouteList(claims, rank)
    }

    constructor (rank: Prefix -> nat)
      ensures Valid() && St() == EMPTY_ROUTER && this.rank == rank
    {
      this.rank := rank;
      hub, gen, rev, gateway := "", "", 0, NO_GATEWAY;
      routes, members, claims := [], [], [];
    }

    method Apply(n: Netview) returns (accepted: bool)
      requires Valid()
      modifies this
      ensures Valid()
      ensures accepted == Accepts(old(St()), n)
      ensures St() == Deliver(old(St()), n, rank)
    {
      if n.hub == "" {
        return false;
      }
      if n.hub == hub && n.gen == gen && n.rev <= rev {
        return false;
      }
      Replace(n);
      return true;
    }

    /** The whole table becomes the netview's. */
    method Replace(n: Netview)
      modifies this
      ensures Valid() && St() == Install(n, rank)
    {
      var sorted := ParseClaims(n.claims, rank);
      var via := FindGateway(n.members, n.hub);
      hub, gen, rev := n.hub, n.gen, n.rev;
      gateway, routes := via, sorted;
      members, claims := n.members, n.claims;
    }

    /** The claims that parse, longest first; one that does not is skipped. */
    static method ParseClaims(claims: seq<NetviewClaim>, rank: Prefix -> nat) returns (sorted: seq<Prefix>)
      ensures sorted == RouteList(claims, rank)
    {
      var parsed: seq<Prefix> := [];
      for i := 0 to |claims|
        invariant parsed == ParsedPrefixes(claims[..i])
      {
        assert claims[..i + 1][..i] == claims[..i];
        match claims[i].prefix
        case NotCidr(_) =>
        case Cidr(p) => parsed := parsed + [p.Masked()];
      }
      assert claims[..|claims|] == claims;
      sorted := Sort((a: Prefix, b: Prefix) => LongerFirst(rank, a, b), parsed);
    }

    static method FindGateway(members: seq<Member>, hub: Key) returns (gateway: IpText)
      ensures gateway == Gateway(members, hub)
    {
      gateway := NO_GATEWAY;
      for i := 0 to |members|
        invariant Gateway(members, hub) == Gateway(members[i..], hub)
      {
        if members[i].key == hub {
          return members[i].ip;
        }
        assert members[i..][1..] == members[i + 1..];
      }
    }

    /** The longest claim of the installed netview that covers dst, and the next hop. */
    method GetRoute(dst: Dst) returns (r: Option<Prefix>, via: IpText)
      requires Valid()
      ensures DstOf(dst).None? ==> r == None
      ensures DstOf(dst).Some? ==> IsLongest(ParsedPrefixes(claims), DstOf(dst).value, r)
      ensures via == if r.Some? then gateway else NO_GATEWAY
    {
      var a := DstOf(dst);
      if a.None? {
        return None, NO_GATEWAY;
      }
      RouteListIsSorted(claims, rank);
      for i := 0 to |routes|
        invariant forall j :: 0 <= j < i ==> !routes[j].Contains(a.value)
      {
        if routes[i].Contains(a.value) {
          FirstMatchIsLongest(routes, a.value, i);
          return Some(routes[i]), gateway;
        }
      }
      return None, NO_GATEWAY;
    }

    /** deliverNetview: what the kernel sync is called with, or None when it is not. */
    method DeliverNetview(n: Netview) returns (sync: Option<seq<Prefix>>)
      requires Valid() && Injective(rank)
      modifies this
      ensures Valid() && St() == Deliver(old(St()), n, rank)
      ensures sync.Some? <==> Accepts(old(St()), n)
      ensures sync.Some? ==> Sorted((a: Prefix, b: Prefix) => rank(a) < rank(b), sync.value)
      ensures sync.Some? ==> multiset(sync.value) == multiset(ParsedPrefixes(n.claims))
    {
      var accepted := Apply(n);
      if !accepted {
        return None;
      }
      var order := rank;
      var byText := (a: Prefix, b: Prefix) => order(a) < order(b);
      assert WeakOrder(byText);
      return Some(Sort(byText, routes));
    }
  }
}
