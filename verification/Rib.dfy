/** The hub's routing information base (tunnel/rib.go): which LAN prefixes exist, who
    claimed each, and the revision every change to what a spoke may see advances.

    `State` and the functions on it say what each locked section does; the class
    `RibTable` does it in place, one loop at a time, and is proved equal to them. */
module Rib {
  import opened Common
  import opened Net
  import opened Sorting

  type Key = string

  /** The origin of a route the hub's own configuration injected: no peer key. */
  const STATIC_ORIGIN: Key := "static"

  datatype Claim = Claim(origin: Key, isStatic: bool, allow: seq<Key>, via: Key, seen: int)

  /** A member row's address text, as far as parsing it goes. */
  datatype IpText = Parsed(addr: Addr) | Unparsed(text: string)

  datatype Member = Member(ip: IpText, key: Key, name: string, direct: bool, disabled: bool)

  type Claims = map<Prefix, Claim>
  type Policy = map<Key, seq<Prefix>>

  datatype State = State(rev: nat, claims: Claims, allow: Policy, members: seq<Member>)

  // ---- Masking

  function MaskAll(prefixes: seq<Prefix>): (r: seq<Prefix>)
    ensures |r| == |prefixes|
    ensures forall i :: 0 <= i < |r| ==> r[i] == prefixes[i].Masked()
  {
    seq(|prefixes|, i requires 0 <= i < |prefixes| => prefixes[i].Masked())
  }

  function MaskRows(rows: map<Key, seq<Prefix>>): Policy {
    map k | k in rows :: MaskAll(rows[k])
  }

  // ---- The gates a claim passes

  /** Inside one supernet of the origin's row, by address and by length. */
  predicate Approved(allow: Policy, origin: Key, p: Prefix) {
    origin in allow && exists s :: s in allow[origin] && s.Contains(p.addr) && s.bits <= p.bits
  }

  predicate CoversMember(members: seq<Member>, p: Prefix) {
    exists i :: 0 <= i < |members| && members[i].ip.Parsed? && p.Contains(Unmap(members[i].ip.addr))
  }

  /** The key of the first member whose address is addr. */
  function MemberKey(members: seq<Member>, addr: Addr): Option<Key> {
    if members == [] then None
    else if members[0].ip.Parsed? && Unmap(members[0].ip.addr) == addr then Some(members[0].key)
    else MemberKey(members[1..], addr)
  }

  // ---- What each locked section does

  function NewState(allow: map<Key, seq<Prefix>>): State {
    State(1, map[], MaskRows(allow), [])
  }

  function SetMembers(s: State, members: seq<Member>): State {
    if s.members == members then s else s.(members := members, rev := s.rev + 1)
  }

  /** The dynamic claims a policy no longer approves. */
  function Disapproved(claims: Claims, allow: Policy): set<Prefix> {
    set p | p in claims && !claims[p].isStatic && !Approved(allow, claims[p].origin, p)
  }

  function SetAllow(s: State, allow: map<Key, seq<Prefix>>): State {
    var rows := MaskRows(allow);
    s.(allow := rows, claims := s.claims - Disapproved(s.claims, rows), rev := s.rev + 1)
  }

  /** The dynamic claims of origin that a whole-intent message leaves out. */
  function LeftOut(claims: Claims, origin: Key, add: seq<Prefix>): set<Prefix> {
    set p | p in claims && !claims[p].isStatic && claims[p].origin == origin && p !in add
  }

  /** |gone|, kept folded so that loops counting deletions need not reason about
      cardinalities. */
  ghost function Count(gone: set<Prefix>): nat
  {
    if gone == {} then 0
    else
      var p :| p in gone;
      1 + Count(gone - {p})
  }

  lemma {:induction false} CountIsSize(gone: set<Prefix>)
    ensures Count(gone) == |gone|
  {
    if gone != {} {
      var p :| p in gone && Count(gone) == 1 + Count(gone - {p});
      CountIsSize(gone - {p});
    }
  }

  lemma CountOneMore(gone: set<Prefix>, p: Prefix)
    requires p !in gone
    ensures Count(gone + {p}) == Count(gone) + 1
  {
    CountIsSize(gone);
    CountIsSize(gone + {p});
  }

  /** Deleting routes advances the revision once for each one deleted. */
  ghost function Remove(s: State, gone: set<Prefix>): State {
    s.(claims := s.claims - gone, rev := s.rev + Count(gone))
  }

  ghost function DropOne(s: State, origin: Key, p: Prefix): State {
    if p in s.claims && s.claims[p].origin == origin && !s.claims[p].isStatic then
      s.(claims := s.claims - {p}, rev := s.rev + 1)
    else s
  }

  ghost function DropAll(s: State, origin: Key, drop: seq<Prefix>): State {
    if drop == [] then s else DropOne(DropAll(s, origin, drop[..|drop| - 1]), origin, drop[|drop| - 1])
  }

  predicate Refused(s: State, origin: Key, p: Prefix) {
    !Approved(s.allow, origin, p) || CoversMember(s.members, p) || p in s.claims
  }

  ghost function AddOne(s: State, origin: Key, p: Prefix, now: int): (State, bool) {
    if p in s.claims && s.claims[p].origin == origin then
      (s.(claims := s.claims[p := s.claims[p].(seen := now)]), true)
    else if Refused(s, origin, p) then (s, false)
    else (s.(claims := s.claims[p := Claim(origin, false, [], "", now)], rev := s.rev + 1), true)
  }

  ghost function AddAll(s: State, origin: Key, add: seq<Prefix>, now: int): (State, seq<Prefix>) {
    if add == [] then (s, [])
    else
      var n := |add| - 1;
      var (s1, accepted) := AddAll(s, origin, add[..n], now);
      var (s2, ok) := AddOne(s1, origin, add[n], now);
      (s2, if ok then accepted + [add[n]] else accepted)
  }

  ghost function ApplyClaim(s: State, origin: Key, add: seq<Prefix>, drop: seq<Prefix>, replace: bool, now: int)
    : (State, seq<Prefix>)
  {
    var masked := MaskAll(add);
    var s1 := if replace then Remove(s, LeftOut(s.claims, origin, masked)) else s;
    AddAll(DropAll(s1, origin, MaskAll(drop)), origin, masked, now)
  }

  function Expired(claims: Claims, now: int, ttl: int): set<Prefix> {
    set p | p in claims && !claims[p].isStatic && now - claims[p].seen > ttl
  }

  ghost function Withdraw(s: State, now: int, ttl: int): State {
    Remove(s, Expired(s.claims, now, ttl))
  }

  /** sameRoute: everything but when the route was last announced. */
  predicate SameRoute(a: Claim, b: Claim) {
    a.(seen := 0) == b.(seen := 0)
  }

  /** None is the refusal of a "via" that names no member. */
  function AddStatic(s: State, p: Prefix, via: Option<Addr>, allow: seq<Key>, now: int): Option<State> {
    var key := if via.Some? then MemberKey(s.members, Unmap(via.value)) else Some("");
    if key.None? then None
    else
      var c := Claim(STATIC_ORIGIN, true, allow, key.value, now);
      var m := p.Masked();
      if m in s.claims && SameRoute(s.claims[m], c) then Some(s)
      else Some(s.(claims := s.claims[m := c], rev := s.rev + 1))
  }

  // ---- What leaves the table

  /** One approved route as a netview carries it. */
  datatype Entry = Entry(prefix: Prefix, origin: Key, allow: seq<Key>)

  datatype Route = Route(peer: Key, allow: seq<Key>)

  function EntryOf(p: Prefix, c: Claim): Entry {
    Entry(p, c.origin, c.allow)
  }

  /** The member that carries a route: the claimer, or the "via" of a static one. */
  function RouteOf(c: Claim): Route {
    Route(if c.isStatic then c.via else c.origin, c.allow)
  }

  function Routes(claims: Claims): map<Prefix, Route> {
    map p | p in claims :: RouteOf(claims[p])
  }

  /** Longest first, static before dynamic, then by the printed form: `rank` is a
      prefix's position among all prefixes in the order of their printed forms. */
  predicate Before(claims: Claims, rank: Prefix -> nat, a: Prefix, b: Prefix) {
    if a.bits != b.bits then a.bits > b.bits
    else if IsStatic(claims, a) != IsStatic(claims, b) then IsStatic(claims, a)
    else rank(a) < rank(b)
  }

  predicate IsStatic(claims: Claims, p: Prefix) {
    p in claims && claims[p].isStatic
  }

  ghost predicate Injective(rank: Prefix -> nat) {
    forall a: Prefix, b: Prefix :: rank(a) == rank(b) ==> a == b
  }

  lemma BeforeIsTotal(claims: Claims, rank: Prefix -> nat)
    requires Injective(rank)
    ensures StrictTotal((a: Prefix, b: Prefix) => Before(claims, rank, a, b))
  {
    var less := (a: Prefix, b: Prefix) => Before(claims, rank, a, b);
    forall a: Prefix, b: Prefix
      ensures a == b || less(a, b) || less(b, a)
    {
      if rank(a) == rank(b) { assert a == b; }
    }
  }

  function Prefixes(es: seq<Entry>): (r: seq<Prefix>)
    ensures |r| == |es| && forall i :: 0 <= i < |es| ==> r[i] == es[i].prefix
  {
    seq(|es|, i requires 0 <= i < |es| => es[i].prefix)
  }

  /** es lists exactly the table's routes, once each, in publication order. */
  ghost predicate IsSnapshot(es: seq<Entry>, claims: Claims, rank: Prefix -> nat) {
    && StrictlySorted((a: Prefix, b: Prefix) => Before(claims, rank, a, b), Prefixes(es))
    && (forall p :: p in claims <==> p in Prefixes(es))
    && (forall i :: 0 <= i < |es| ==> es[i].prefix in claims && es[i] == EntryOf(es[i].prefix, claims[es[i].prefix]))
  }

  /** Two tables that differ at most in when their routes were last announced. */
  ghost predicate SameContent(a: Claims, b: Claims) {
    a.Keys == b.Keys && forall p :: p in a ==> SameRoute(a[p], b[p])
  }

  /** A table has one snapshot, and tables of the same content have the same one and
      the same routes, whatever order their maps are iterated in. */
  lemma SnapshotIsUnique(es: seq<Entry>, fs: seq<Entry>, a: Claims, b: Claims, rank: Prefix -> nat)
    requires Injective(rank) && SameContent(a, b)
    requires IsSnapshot(es, a, rank) && IsSnapshot(fs, b, rank)
    ensures es == fs && Routes(a) == Routes(b)
  {
    SamePrefixes(es, fs, a, b, rank);
    forall i | 0 <= i < |es|
      ensures es[i] == fs[i]
    {
      var p := Prefixes(es)[i];
      assert p == es[i].prefix == fs[i].prefix;
      assert SameRoute(a[p], b[p]);
    }
    forall p | p in a
      ensures RouteOf(a[p]) == RouteOf(b[p])
    {
      assert SameRoute(a[p], b[p]);
    }
  }

  lemma SamePrefixes(es: seq<Entry>, fs: seq<Entry>, a: Claims, b: Claims, rank: Prefix -> nat)
    requires Injective(rank) && SameContent(a, b)
    requires IsSnapshot(es, a, rank) && IsSnapshot(fs, b, rank)
    ensures Prefixes(es) == Prefixes(fs)
  {
    var lessA := (p: Prefix, q: Prefix) => Before(a, rank, p, q);
    var lessB := (p: Prefix, q: Prefix) => Before(b, rank, p, q);
    var qs := Prefixes(fs);
    forall i, j | 0 <= i < j < |qs|
      ensures lessA(qs[i], qs[j])
    {
      assert lessB(qs[i], qs[j]);
      SameOrder(a, b, rank, qs[i], qs[j]);
    }
    BeforeIsTotal(a, rank);
    SortedIsUnique(lessA, Prefixes(es), qs);
  }

  lemma SameOrder(a: Claims, b: Claims, rank: Prefix -> nat, p: Prefix, q: Prefix)
    requires SameContent(a, b)
    ensures Before(a, rank, p, q) == Before(b, rank, p, q)
  {
    assert p in a ==> SameRoute(a[p], b[p]);
    assert q in a ==> SameRoute(a[q], b[q]);
  }
}
