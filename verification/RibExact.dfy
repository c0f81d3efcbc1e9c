/** What one operation leaves in the table, and what it answers, route by route: stated on
    the addresses, the policy and the members, not on the operation's own steps. */
module RibExact {
  import opened Common
  import opened Net
  import opened Sorting
  import opened Rib
  import opened RibRuns

  // ---- Which prefixes a claim may enter with

  /** Some supernet the policy gives the origin has every address of p. */
  ghost predicate MayClaim(allow: Policy, origin: Key, p: Prefix) {
    origin in allow && exists super :: super in allow[origin] && Within(p, super)
  }

  ghost predicate MemberInside(members: seq<Member>, p: Prefix) {
    exists m :: m in members && m.ip.Parsed? && p.Contains(Unmap(m.ip.addr))
  }

  /** What decides about an added prefix: its origin holds it, or may enter with it. */
  ghost predicate Admitted(s: State, origin: Key, p: Prefix) {
    || Holds(s, origin, p)
    || (MayClaim(s.allow, origin, p) && !MemberInside(s.members, p) && p !in s.claims)
  }

  lemma ApprovedIsWithin(allow: Policy, origin: Key, p: Prefix)
    requires SizedRows(allow) && Sized(p)
    ensures Approved(allow, origin, p) <==> MayClaim(allow, origin, p)
  {
    if origin in allow {
      forall super | super in allow[origin]
        ensures super.Contains(p.addr) && super.bits <= p.bits <==> Within(p, super)
      {
        assert Sized(super);
        SupernetTestIsSubset(super, p);
      }
      assert forall super :: super in allow[origin] ==> Sized(super);
    }
  }

  lemma CoversIsInside(members: seq<Member>, p: Prefix)
    ensures CoversMember(members, p) <==> MemberInside(members, p)
  {
    if CoversMember(members, p) {
      var i :| 0 <= i < |members| && members[i].ip.Parsed? && p.Contains(Unmap(members[i].ip.addr));
      assert members[i] in members;
    }
    if MemberInside(members, p) {
      var m :| m in members && m.ip.Parsed? && p.Contains(Unmap(m.ip.addr));
      var i :| 0 <= i < |members| && members[i] == m;
    }
  }

  // ---- The adds of a message

  /** Those of the list that are admitted, in its order. */
  ghost function AdmittedOf(s: State, origin: Key, add: seq<Prefix>): seq<Prefix> {
    if add == [] then []
    else
      var n := |add| - 1;
      AdmittedOf(s, origin, add[..n]) + if Admitted(s, origin, add[n]) then [add[n]] else []
  }

  ghost predicate Clean(s: State, origin: Key, add: seq<Prefix>) {
    SizedRows(s.allow) && forall p :: p in add ==> Sized(p)
  }

  /** What an accepted prefix is in the table: seen again, or new. */
  function Entered(claims: Claims, origin: Key, p: Prefix, now: int): Claim {
    if p in claims then claims[p].(seen := now) else Claim(origin, false, [], "", now)
  }

  /** The table with the accepted prefixes in it. */
  function With(claims: Claims, origin: Key, accepted: seq<Prefix>, now: int): Claims {
    map p | p in claims.Keys + Elems(accepted) :: if p in accepted then Entered(claims, origin, p, now) else claims[p]
  }

  function Elems(ps: seq<Prefix>): set<Prefix> {
    set p | p in ps
  }

  /** The state after these prefixes were accepted: the revision counts those that are new. */
  function After(s: State, origin: Key, accepted: seq<Prefix>, now: int): State {
    s.(claims := With(s.claims, origin, accepted, now), rev := s.rev + |Elems(accepted) - s.claims.Keys|)
  }

  lemma {:induction false} AddsAreExact(s: State, origin: Key, add: seq<Prefix>, now: int)
    requires Clean(s, origin, add)
    ensures AddAll(s, origin, add, now) == (After(s, origin, AdmittedOf(s, origin, add), now), AdmittedOf(s, origin, add))
  {
    if add == [] {
      NothingAdded(s, origin, now);
    } else {
      var n := |add| - 1;
      AddsAreExact(s, origin, add[..n], now);
      AdmittedAreHeld(s, origin, add[..n]);
      assert add[n] in add;
      var accepted := AdmittedOf(s, origin, add[..n]);
      AdmittedAreFree(s, origin, accepted);
      OneAdd(s, origin, accepted, add[n], now);
      assert accepted + [] == accepted;
    }
  }

  lemma NothingAdded(s: State, origin: Key, now: int)
    ensures After(s, origin, [], now) == s
  {
    assert With(s.claims, origin, [], now) == s.claims;
    assert Elems([]) - s.claims.Keys == {};
  }

  lemma {:induction false} AdmittedAreHeld(s: State, origin: Key, add: seq<Prefix>)
    ensures forall p :: p in AdmittedOf(s, origin, add) <==> p in add && Admitted(s, origin, p)
  {
    if add != [] {
      var n := |add| - 1;
      AdmittedAreHeld(s, origin, add[..n]);
      assert forall p :: p in add <==> p in add[..n] || p == add[n];
    }
  }

  /** None of them is another's route. */
  predicate NoneTaken(s: State, origin: Key, accepted: seq<Prefix>) {
    forall q :: q in accepted && q in s.claims ==> s.claims[q].origin == origin
  }

  lemma AdmittedAreFree(s: State, origin: Key, accepted: seq<Prefix>)
    requires forall q :: q in accepted ==> Admitted(s, origin, q)
    ensures NoneTaken(s, origin, accepted)
  {
  }

  /** One more add, after some that were admitted from s. */
  lemma OneAdd(s: State, origin: Key, accepted: seq<Prefix>, p: Prefix, now: int)
    requires SizedRows(s.allow) && Sized(p)
    requires NoneTaken(s, origin, accepted) && (p in accepted ==> Admitted(s, origin, p))
    ensures AddOne(After(s, origin, accepted, now), origin, p, now)
      == if Admitted(s, origin, p) then (After(s, origin, accepted + [p], now), true) else (After(s, origin, accepted, now), false)
  {
    HeldAfter(s, origin, accepted, p, now);
    Decided(s, After(s, origin, accepted, now), origin, p);
    AddOneGives(After(s, origin, accepted, now), origin, p, now);
    OneMoreIn(s, origin, accepted, p, now);
  }

  /** The state with p in it, seen now. */
  function Put(t: State, origin: Key, p: Prefix, now: int): State {
    t.(claims := t.claims[p := Entered(t.claims, origin, p, now)], rev := t.rev + if p in t.claims then 0 else 1)
  }

  lemma AddOneGives(t: State, origin: Key, p: Prefix, now: int)
    ensures AddOne(t, origin, p, now)
      == if Holds(t, origin, p) || !Refused(t, origin, p) then (Put(t, origin, p, now), true) else (t, false)
  {
  }

  lemma OneMoreIn(s: State, origin: Key, accepted: seq<Prefix>, p: Prefix, now: int)
    ensures Put(After(s, origin, accepted, now), origin, p, now) == After(s, origin, accepted + [p], now)
  {
    OneMore(s.claims, origin, accepted, p, now);
    OneMoreCame(s.claims.Keys, accepted, p);
    assert p in Elems(accepted) <==> p in accepted;
  }

  /** Whether p may be added does not change as others are. */
  lemma Decided(s: State, t: State, origin: Key, p: Prefix)
    requires SizedRows(s.allow) && Sized(p) && t.allow == s.allow && t.members == s.members
    requires !Holds(t, origin, p) ==> (p in t.claims <==> p in s.claims) && !Holds(s, origin, p)
    requires Holds(t, origin, p) ==> Admitted(s, origin, p)
    ensures Admitted(s, origin, p) <==> Holds(t, origin, p) || !Refused(t, origin, p)
  {
    ApprovedIsWithin(s.allow, origin, p);
    CoversIsInside(s.members, p);
  }

  lemma HeldAfter(s: State, origin: Key, accepted: seq<Prefix>, p: Prefix, now: int)
    requires NoneTaken(s, origin, accepted)
    ensures var t := After(s, origin, accepted, now);
      && (p in t.claims <==> p in s.claims || p in accepted)
      && (Holds(t, origin, p) <==> p in accepted || Holds(s, origin, p))
  {
    assert p in Elems(accepted) <==> p in accepted;
  }

  lemma OneMore(claims: Claims, origin: Key, accepted: seq<Prefix>, p: Prefix, now: int)
    ensures var before := With(claims, origin, accepted, now);
      With(claims, origin, accepted + [p], now)
      == before[p := if p in before then before[p].(seen := now) else Claim(origin, false, [], "", now)]
  {
    var before, after := With(claims, origin, accepted, now), With(claims, origin, accepted + [p], now);
    var one := before[p := if p in before then before[p].(seen := now) else Claim(origin, false, [], "", now)];
    assert forall q :: q in accepted + [p] <==> q in accepted || q == p;
    assert after.Keys == one.Keys;
    forall q | q in one
      ensures after[q] == one[q]
    {
    }
  }

  lemma OneMoreCame(held: set<Prefix>, accepted: seq<Prefix>, p: Prefix)
    ensures |Elems(accepted + [p]) - held| == |Elems(accepted) - held| + if p in held || p in accepted then 0 else 1
  {
    assert Elems(accepted + [p]) == Elems(accepted) + {p};
    if p in held || p in accepted {
      assert Elems(accepted + [p]) - held == Elems(accepted) - held;
    } else {
      assert Elems(accepted + [p]) - held == (Elems(accepted) - held) + {p};
    }
  }

  // ---- The drops of a message

  /** Of the routes of s, those the origin claimed and the list names. */
  function Named(s: State, origin: Key, drop: seq<Prefix>): set<Prefix> {
    set p | p in s.claims && !s.claims[p].isStatic && s.claims[p].origin == origin && p in drop
  }

  lemma {:induction false} DropsAreExact(s: State, origin: Key, drop: seq<Prefix>)
    ensures DropAll(s, origin, drop)
      == s.(claims := s.claims - Named(s, origin, drop), rev := s.rev + |Named(s, origin, drop)|)
  {
    if drop == [] {
      assert Named(s, origin, drop) == {} && s.claims - {} == s.claims;
    } else {
      var n := |drop| - 1;
      DropsAreExact(s, origin, drop[..n]);
      OneDrop(s, origin, drop[..n], drop[n]);
      assert drop == drop[..n] + [drop[n]];
    }
  }

  lemma OneDrop(s: State, origin: Key, before: seq<Prefix>, p: Prefix)
    ensures var gone, more := Named(s, origin, before), Named(s, origin, before + [p]);
      DropOne(s.(claims := s.claims - gone, rev := s.rev + |gone|), origin, p)
      == s.(claims := s.claims - more, rev := s.rev + |more|)
  {
    var gone, more := Named(s, origin, before), Named(s, origin, before + [p]);
    if p in s.claims && p !in gone && s.claims[p].origin == origin && !s.claims[p].isStatic {
      assert more == gone + {p};
      assert (s.claims - gone) - {p} == s.claims - more;
    } else {
      assert more == gone;
    }
  }

  // ---- A whole message

  /** What a message takes away from its origin: what it drops, and, when it is the whole
      intent, what it does not add. */
  function Gone(s: State, origin: Key, add: seq<Prefix>, drop: seq<Prefix>, replace: bool): set<Prefix> {
    set p | p in s.claims && s.claims[p].origin == origin && !s.claims[p].isStatic
      && (p in MaskAll(drop) || (replace && p !in MaskAll(add)))
  }

  /** The table before the adds of a message. */
  function Rest(s: State, origin: Key, add: seq<Prefix>, drop: seq<Prefix>, replace: bool): State {
    var gone := Gone(s, origin, add, drop, replace);
    s.(claims := s.claims - gone, rev := s.rev + |gone|)
  }

  lemma RestIsReached(s: State, origin: Key, add: seq<Prefix>, drop: seq<Prefix>, replace: bool)
    ensures var s1 := if replace then Remove(s, LeftOut(s.claims, origin, MaskAll(add))) else s;
      DropAll(s1, origin, MaskAll(drop)) == Rest(s, origin, add, drop, replace)
  {
    var left := if replace then LeftOut(s.claims, origin, MaskAll(add)) else {};
    var s1 := if replace then Remove(s, left) else s;
    LeftIsRemoved(s, left, replace);
    DropsAreExact(s1, origin, MaskAll(drop));
    GoneInTwo(s, origin, add, drop, replace, left);
    TwoSteps(s.claims, left, Named(s1, origin, MaskAll(drop)), Gone(s, origin, add, drop, replace));
  }

  lemma LeftIsRemoved(s: State, left: set<Prefix>, replace: bool)
    requires !replace ==> left == {}
    ensures (if replace then Remove(s, left) else s) == s.(claims := s.claims - left, rev := s.rev + |left|)
  {
    CountIsSize(left);
    if !replace {
      assert s.claims - left == s.claims;
    }
  }

  lemma GoneInTwo(s: State, origin: Key, add: seq<Prefix>, drop: seq<Prefix>, replace: bool, left: set<Prefix>)
    requires left == if replace then LeftOut(s.claims, origin, MaskAll(add)) else {}
    ensures var s1 := s.(claims := s.claims - left, rev := s.rev + |left|);
      var dropped := Named(s1, origin, MaskAll(drop));
      left !! dropped && Gone(s, origin, add, drop, replace) == left + dropped
  {
  }

  lemma TwoSteps(claims: Claims, a: set<Prefix>, b: set<Prefix>, both: set<Prefix>)
    requires a !! b && both == a + b
    ensures (claims - a) - b == claims - both && |a| + |b| == |both|
  {
  }

  /** Every claim message, whole or incremental: the answer is those of its adds that their
      origin still holds, or that the policy, the members and the rest of the table admit,
      in their order; the table after it is the rest and the answer; and the revision has
      advanced once for each route that went and each that came. */
  lemma ClaimIsExact(s: State, origin: Key, add: seq<Prefix>, drop: seq<Prefix>, replace: bool, now: int)
    requires SizedRows(s.allow) && forall p :: p in add ==> Sized(p)
    ensures var rest := Rest(s, origin, add, drop, replace);
      var accepted := AdmittedOf(rest, origin, MaskAll(add));
      ApplyClaim(s, origin, add, drop, replace, now) == (After(rest, origin, accepted, now), accepted)
  {
    RestIsReached(s, origin, add, drop, replace);
    MaskAllSized(add);
    AddsAreExact(Rest(s, origin, add, drop, replace), origin, MaskAll(add), now);
  }

  /** The origin holds p after a message if it was granted, or was held and not dropped; and
      if it was held and dropped the revision has advanced. */
  predicate IsKept(s: State, t: State, origin: Key, accepted: seq<Prefix>, dropped: seq<Prefix>, p: Prefix) {
    && (Holds(t, origin, p) <==> p in accepted || (Holds(s, origin, p) && p !in dropped))
    && (Holds(s, origin, p) && p in dropped ==> s.rev < t.rev)
  }

  /** After an incremental message the origin holds what it was granted, and what it held
      and did not drop; and a route that was dropped has advanced the revision. */
  lemma IncrementIsExact(s: State, origin: Key, add: seq<Prefix>, drop: seq<Prefix>, now: int)
    requires Inv(s) && origin != STATIC_ORIGIN && forall p :: p in add ==> Sized(p)
    ensures var (t, accepted) := ApplyClaim(s, origin, add, drop, false, now);
      forall p :: IsKept(s, t, origin, accepted, MaskAll(drop), p)
  {
    ClaimIsExact(s, origin, add, drop, false, now);
    var rest := Rest(s, origin, add, drop, false);
    var accepted := AdmittedOf(rest, origin, MaskAll(add));
    AdmittedAreHeld(rest, origin, MaskAll(add));
    AdmittedAreFree(rest, origin, accepted);
    forall p
      ensures IsKept(s, After(rest, origin, accepted, now), origin, accepted, MaskAll(drop), p)
    {
      IncrementAt(s, origin, add, drop, accepted, p, now);
    }
  }

  lemma IncrementAt(s: State, origin: Key, add: seq<Prefix>, drop: seq<Prefix>, accepted: seq<Prefix>, p: Prefix, now: int)
    requires Inv(s) && origin != STATIC_ORIGIN
    requires NoneTaken(Rest(s, origin, add, drop, false), origin, accepted)
    ensures IsKept(s, After(Rest(s, origin, add, drop, false), origin, accepted, now), origin, accepted, MaskAll(drop), p)
  {
    HeldAfter(Rest(s, origin, add, drop, false), origin, accepted, p, now);
    DropIsSeen(s, origin, add, drop, p);
  }

  lemma DropIsSeen(s: State, origin: Key, add: seq<Prefix>, drop: seq<Prefix>, p: Prefix)
    requires Inv(s) && origin != STATIC_ORIGIN
    ensures Holds(Rest(s, origin, add, drop, false), origin, p) <==> Holds(s, origin, p) && p !in MaskAll(drop)
    ensures Holds(s, origin, p) && p in MaskAll(drop) ==> |Gone(s, origin, add, drop, false)| > 0
  {
    if Holds(s, origin, p) {
      assert GoodClaim(s.allow, p, s.claims[p]);
      assert p in Gone(s, origin, add, drop, false) <==> p in MaskAll(drop);
    }
  }

  // ---- A change of policy

  /** A new policy takes away exactly the spokes' routes that no supernet of their origin
      contains any more; all others stay as they were, and the revision advances once. */
  lemma PolicyIsExact(s: State, rows: map<Key, seq<Prefix>>)
    requires Inv(s) && SizedRows(rows)
    ensures var t := SetAllow(s, rows);
      && t.rev == s.rev + 1 && t.members == s.members && t.allow.Keys == rows.Keys
      && (forall k, i :: k in rows && 0 <= i < |rows[k]| ==> |t.allow[k]| == |rows[k]| && t.allow[k][i] == rows[k][i].Masked())
      && (forall p :: p in t.claims <==> p in s.claims && (s.claims[p].isStatic || MayClaim(MaskRows(rows), s.claims[p].origin, p)))
      && (forall p :: p in t.claims ==> t.claims[p] == s.claims[p])
  {
    NewKeepsInv(rows);
    forall p | p in s.claims
      ensures Approved(MaskRows(rows), s.claims[p].origin, p) <==> MayClaim(MaskRows(rows), s.claims[p].origin, p)
    {
      assert GoodClaim(s.allow, p, s.claims[p]);
      ApprovedIsWithin(MaskRows(rows), s.claims[p].origin, p);
    }
  }

  // ---- Members, sweeps and operator's routes

  lemma MembersAreSet(s: State, members: seq<Member>)
    ensures var t := SetMembers(s, members);
      && t.members == members && t.claims == s.claims && t.allow == s.allow
      && t.rev == s.rev + if s.members == members then 0 else 1
  {
  }

  /** A sweep takes away the spokes' routes whose last naming is longer ago than the limit,
      and nothing else. */
  lemma SweepIsExact(s: State, now: int, ttl: int)
    ensures var t := Withdraw(s, now, ttl);
      && (forall p :: p in t.claims <==> p in s.claims && (s.claims[p].isStatic || s.claims[p].seen >= now - ttl))
      && (forall p :: p in t.claims ==> t.claims[p] == s.claims[p])
      && t.members == s.members && t.allow == s.allow
      && t.rev == s.rev + |s.claims.Keys - t.claims.Keys|
  {
    CountIsSize(Expired(s.claims, now, ttl));
    assert s.claims.Keys - Withdraw(s, now, ttl).claims.Keys == Expired(s.claims, now, ttl);
  }

  /** i is the first member whose address, unmapped, is a. */
  predicate FirstWith(members: seq<Member>, a: Addr, i: nat) {
    && i < |members| && members[i].ip.Parsed? && Unmap(members[i].ip.addr) == a
    && forall j :: 0 <= j < i && members[j].ip.Parsed? ==> Unmap(members[j].ip.addr) != a
  }

  lemma {:induction false} MemberKeyIsFirst(members: seq<Member>, a: Addr)
    ensures match MemberKey(members, a)
      case Some(k) => exists i: nat :: FirstWith(members, a, i) && members[i].key == k
      case None => forall i: nat :: !FirstWith(members, a, i)
  {
    if members != [] {
      MemberKeyIsFirst(members[1..], a);
      if members[0].ip.Parsed? && Unmap(members[0].ip.addr) == a {
        assert FirstWith(members, a, 0);
      } else {
        forall i: nat | FirstWith(members, a, i)
          ensures i > 0 && FirstWith(members[1..], a, i - 1)
        {
          assert forall j :: 0 <= j < |members| - 1 ==> members[1..][j] == members[j + 1];
        }
        if MemberKey(members, a).Some? {
          var i: nat :| FirstWith(members[1..], a, i) && members[1..][i].key == MemberKey(members, a).value;
          OneFurther(members, a, i);
        }
      }
    }
  }

  lemma OneFurther(members: seq<Member>, a: Addr, i: nat)
    requires members != [] && FirstWith(members[1..], a, i)
    requires !(members[0].ip.Parsed? && Unmap(members[0].ip.addr) == a)
    ensures FirstWith(members, a, i + 1) && members[i + 1] == members[1..][i]
  {
    forall j | 0 <= j < i + 1 && members[j].ip.Parsed?
      ensures Unmap(members[j].ip.addr) != a
    {
      assert j > 0 ==> members[j] == members[1..][j - 1];
    }
  }

  /** An operator's route is refused exactly when it goes by an address that no member has.
      Otherwise its prefix is his, whoever held it: with the given readers, and by the key
      of the first member with that address, or by nobody; no other route is touched, and
      the revision advances exactly if the route is not there as it is. */
  lemma StaticIsExact(s: State, p: Prefix, via: Option<Addr>, allow: seq<Key>, now: int)
    ensures AddStatic(s, p, via, allow, now).None? <==>
      via.Some? && forall i: nat :: !FirstWith(s.members, Unmap(via.value), i)
    ensures AddStatic(s, p, via, allow, now).Some? ==>
      var t, m := AddStatic(s, p, via, allow, now).value, p.Masked();
      && m in t.claims
      && (var c := t.claims[m];
          && c.isStatic && c.origin == STATIC_ORIGIN && c.allow == allow
          && (via.None? ==> c.via == "")
          && (via.Some? ==> exists i: nat :: FirstWith(s.members, Unmap(via.value), i) && c.via == s.members[i].key)
          && t.rev == s.rev + (if m in s.claims && s.claims[m].(seen := 0) == c.(seen := 0) then 0 else 1))
      && t.claims.Keys == s.claims.Keys + {m}
      && (forall q :: q in s.claims && q != m ==> t.claims[q] == s.claims[q])
      && t.members == s.members && t.allow == s.allow
  {
    if via.Some? {
      MemberKeyIsFirst(s.members, Unmap(via.value));
    }
  }

  // ---- What is published

  /** A snapshot goes from longer to shorter prefixes; among equals an operator's comes
      first, and then the order is that of their printed forms. */
  lemma SnapshotOrder(es: seq<Entry>, claims: Claims, rank: Prefix -> nat, i: nat, j: nat)
    requires IsSnapshot(es, claims, rank) && i < j < |es|
    ensures var p, q := es[i].prefix, es[j].prefix;
      && p in claims && q in claims
      && (p.bits > q.bits
          || (p.bits == q.bits && claims[p].isStatic && !claims[q].isStatic)
          || (p.bits == q.bits && claims[p].isStatic == claims[q].isStatic && rank(p) < rank(q)))
  {
    var less := (a: Prefix, b: Prefix) => Before(claims, rank, a, b);
    assert less(Prefixes(es)[i], Prefixes(es)[j]);
  }
}
