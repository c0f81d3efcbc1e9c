/** What the RIB keeps over every run of its locked sections: policy, first-wins,
    operator routes, expiry, and the revision as a faithful name for the table. */
module RibRuns {
  import opened Common
  import opened Net
  import opened Rib

  datatype Op =
    | Members(members: seq<Member>)
    | Allow(rows: map<Key, seq<Prefix>>)
    | Claimed(origin: Key, add: seq<Prefix>, drop: seq<Prefix>, replace: bool, now: int)
    | Sweep(now: int, ttl: int)
    | Static(prefix: Prefix, via: Option<Addr>, open: seq<Key>, now: int)

  ghost function Step(s: State, op: Op): State {
    match op
    case Members(members) => SetMembers(s, members)
    case Allow(rows) => SetAllow(s, rows)
    case Claimed(origin, add, drop, replace, now) => ApplyClaim(s, origin, add, drop, replace, now).0
    case Sweep(now, ttl) => Withdraw(s, now, ttl)
    case Static(prefix, via, open, now) =>
      var r := AddStatic(s, prefix, via, open, now);
      if r.Some? then r.value else s
  }

  ghost function Run(s: State, ops: seq<Op>): State {
    if ops == [] then s else Step(Run(s, ops[..|ops| - 1]), ops[|ops| - 1])
  }

  predicate Sized(p: Prefix) { p.bits <= p.addr.Width() }

  predicate SizedRows(rows: map<Key, seq<Prefix>>) {
    forall k, p :: k in rows && p in rows[k] ==> Sized(p)
  }

  /** What parsing and the transport guarantee of an operation: prefixes no longer than
      their addresses, and a claiming peer whose key is not the static origin. */
  predicate Sound(op: Op) {
    match op
    case Members(_) => true
    case Allow(rows) => SizedRows(rows)
    case Claimed(origin, add, drop, _, _) => origin != STATIC_ORIGIN && forall p :: p in add ==> Sized(p)
    case Sweep(_, _) => true
    case Static(p, _, _, _) => Sized(p)
  }

  predicate AllSound(ops: seq<Op>) {
    forall i :: 0 <= i < |ops| ==> Sound(ops[i])
  }

  /** The invariant of every reachable table. */
  ghost predicate Inv(s: State) {
    && SizedRows(s.allow)
    && (forall p :: p in s.claims ==> GoodClaim(s.allow, p, s.claims[p]))
  }

  predicate GoodClaim(allow: Policy, p: Prefix, c: Claim) {
    && p.IsMasked() && Sized(p)
    && (c.isStatic <==> c.origin == STATIC_ORIGIN)
    && (!c.isStatic ==> Approved(allow, c.origin, p))
  }

  // ---- One claim message

  /** What a claim message of `origin` may do to a table, and to the revision. */
  ghost predicate SpeaksForItself(origin: Key, s: State, t: State) {
    && t.allow == s.allow && t.members == s.members
    && (forall p :: p in s.claims && s.claims[p].origin != origin ==> p in t.claims && t.claims[p] == s.claims[p])
    && (forall p :: p in t.claims && t.claims[p].origin != origin ==> p in s.claims && t.claims[p] == s.claims[p])
  }

  /** A revision never goes back, and one that stood still names one table. */
  ghost predicate RevNames(s: State, t: State) {
    && s.rev <= t.rev
    && (s.rev == t.rev ==> SameContent(s.claims, t.claims) && s.members == t.members)
  }

  lemma RemoveNames(s: State, gone: set<Prefix>)
    ensures RevNames(s, Remove(s, gone))
  {
    if Count(gone) == 0 {
      CountIsSize(gone);
      assert s.claims - gone == s.claims;
    }
  }

  lemma {:induction false} DropAllSpeaks(s: State, origin: Key, drop: seq<Prefix>)
    ensures SpeaksForItself(origin, s, DropAll(s, origin, drop))
    ensures RevNames(s, DropAll(s, origin, drop))
    ensures Inv(s) ==> Inv(DropAll(s, origin, drop))
    ensures forall p :: p in DropAll(s, origin, drop).claims ==> p in s.claims
  {
    if drop != [] {
      DropAllSpeaks(s, origin, drop[..|drop| - 1]);
    }
  }

  lemma {:induction false} AddAllSpeaks(s: State, origin: Key, add: seq<Prefix>, now: int)
    ensures SpeaksForItself(origin, s, AddAll(s, origin, add, now).0)
    ensures RevNames(s, AddAll(s, origin, add, now).0)
    ensures Inv(s) && origin != STATIC_ORIGIN && (forall p :: p in add ==> Sized(p) && p.IsMasked()) ==>
      Inv(AddAll(s, origin, add, now).0)
  {
    if add != [] {
      AddAllSpeaks(s, origin, add[..|add| - 1], now);
    }
  }

  /** What an add list leaves its origin holding: what it held, and what was accepted;
      a prefix it held already is accepted again. */
  lemma {:induction false} AddAllHolds(s: State, origin: Key, add: seq<Prefix>, now: int)
    ensures var (t, accepted) := AddAll(s, origin, add, now);
      && (forall p :: Holds(t, origin, p) <==> Holds(s, origin, p) || p in accepted)
      && (forall p :: p in accepted ==> p in add && t.claims[p].seen == now)
      && (forall p :: p in add && Holds(s, origin, p) ==> p in accepted)
  {
    if add != [] {
      var n := |add| - 1;
      AddAllHolds(s, origin, add[..n], now);
      var (s1, accepted) := AddAll(s, origin, add[..n], now);
      AddOneHolds(s1, origin, add[n], now);
      assert forall p :: p in accepted + [add[n]] <==> p in accepted || p == add[n];
      assert forall p :: p in add <==> p in add[..n] || p == add[n];
    }
  }

  lemma AddOneHolds(s: State, origin: Key, p: Prefix, now: int)
    ensures var (t, ok) := AddOne(s, origin, p, now);
      && (forall q :: Holds(t, origin, q) <==> Holds(s, origin, q) || (ok && q == p))
      && (forall q :: q in s.claims && q != p ==> q in t.claims && t.claims[q] == s.claims[q])
      && (ok ==> t.claims[p].seen == now)
      && (Holds(s, origin, p) ==> ok)
  {
  }

  predicate Holds(s: State, origin: Key, p: Prefix) {
    p in s.claims && s.claims[p].origin == origin
  }

  lemma MaskAllSized(add: seq<Prefix>)
    requires forall p :: p in add ==> Sized(p)
    ensures forall p :: p in MaskAll(add) ==> Sized(p) && p.IsMasked()
  {
  }

  /** No claim message of one spoke adds, moves, refreshes or removes a route of
      anyone else's, the operator's included. */
  lemma ClaimSpeaksForItself(s: State, op: Op)
    requires op.Claimed?
    ensures SpeaksForItself(op.origin, s, Step(s, op))
    ensures RevNames(s, Step(s, op))
    ensures Inv(s) && Sound(op) ==> Inv(Step(s, op))
  {
    var add := MaskAll(op.add);
    var gone := LeftOut(s.claims, op.origin, add);
    var s1 := if op.replace then Remove(s, gone) else s;
    RemoveNames(s, gone);
    var s2 := DropAll(s1, op.origin, MaskAll(op.drop));
    DropAllSpeaks(s1, op.origin, MaskAll(op.drop));
    AddAllSpeaks(s2, op.origin, add, op.now);
    if Sound(op) {
      MaskAllSized(op.add);
    }
  }

  /** A whole-intent claim leaves its origin holding exactly what it returns. */
  lemma ReplaceIsExact(s: State, origin: Key, add: seq<Prefix>, drop: seq<Prefix>, now: int)
    requires Inv(s) && origin != STATIC_ORIGIN
    ensures var (t, accepted) := ApplyClaim(s, origin, add, drop, true, now);
      forall p :: Holds(t, origin, p) <==> p in accepted
  {
    var masked := MaskAll(add);
    var s1 := Remove(s, LeftOut(s.claims, origin, masked));
    forall p | Holds(s1, origin, p)
      ensures p in masked
    {
      assert GoodClaim(s.allow, p, s.claims[p]);
    }
    DropAllSpeaks(s1, origin, MaskAll(drop));
    var s2 := DropAll(s1, origin, MaskAll(drop));
    DropAllKeeps(s1, origin, MaskAll(drop));
    AddAllHolds(s2, origin, masked, now);
    var (t, accepted) := AddAll(s2, origin, masked, now);
    assert ApplyClaim(s, origin, add, drop, true, now) == (t, accepted);
    forall p | Holds(t, origin, p)
      ensures p in accepted
    {
      if Holds(s2, origin, p) {
        assert Holds(s1, origin, p);
      }
    }
  }

  /** A route that enters the table by a claim covers no member's address. */
  lemma {:induction false} NewClaimsCoverNoMember(s: State, origin: Key, add: seq<Prefix>, now: int)
    ensures var t := AddAll(s, origin, add, now).0;
      forall p :: p in t.claims && p !in s.claims ==> !CoversMember(s.members, p)
  {
    if add != [] {
      NewClaimsCoverNoMember(s, origin, add[..|add| - 1], now);
      AddAllSpeaks(s, origin, add[..|add| - 1], now);
    }
  }

  // ---- Every run

  lemma StepKeepsInv(s: State, op: Op)
    requires Inv(s) && Sound(op)
    ensures Inv(Step(s, op))
  {
    match op
    case Claimed(_, _, _, _, _) => ClaimSpeaksForItself(s, op);
    case _ =>
  }

  lemma NewKeepsInv(rows: map<Key, seq<Prefix>>)
    requires SizedRows(rows)
    ensures Inv(NewState(rows))
  {
    forall k, p | k in MaskRows(rows) && p in MaskRows(rows)[k]
      ensures Sized(p)
    {
      assert forall q :: q in rows[k] ==> Sized(q);
    }
  }

  lemma {:induction false} RunKeepsInv(s: State, ops: seq<Op>)
    requires Inv(s) && AllSound(ops)
    ensures Inv(Run(s, ops))
  {
    if ops != [] {
      var n := |ops| - 1;
      RunKeepsInv(s, ops[..n]);
      assert Sound(ops[n]);
      StepKeepsInv(Run(s, ops[..n]), ops[n]);
    }
  }

  /** In every reachable table, every address a spoke's route covers is an address of a
      supernet the policy now in force allows that spoke. */
  lemma ClaimsStayInsidePolicy(rows: map<Key, seq<Prefix>>, ops: seq<Op>, p: Prefix)
    requires SizedRows(rows) && AllSound(ops)
    requires var s := Run(NewState(rows), ops); p in s.claims && !s.claims[p].isStatic
    ensures var s := Run(NewState(rows), ops);
      && s.claims[p].origin in s.allow
      && exists super :: super in s.allow[s.claims[p].origin] && Within(p, super)
  {
    NewKeepsInv(rows);
    RunKeepsInv(NewState(rows), ops);
    var s := Run(NewState(rows), ops);
    var c := s.claims[p];
    assert GoodClaim(s.allow, p, c);
    var super :| super in s.allow[c.origin] && super.Contains(p.addr) && super.bits <= p.bits;
    SupernetTestIsSubset(super, p);
  }

  lemma StepNames(s: State, op: Op)
    ensures RevNames(s, Step(s, op))
  {
    match op
    case Claimed(_, _, _, _, _) => ClaimSpeaksForItself(s, op);
    case Sweep(now, ttl) => RemoveNames(s, Expired(s.claims, now, ttl));
    case _ =>
  }

  /** Along a run the revision never goes back, and two moments with one revision have
      one table: the same members, the same snapshot and the same routes. */
  lemma {:induction false} RevisionNamesTable(s: State, ops: seq<Op>, i: nat, j: nat)
    requires i <= j <= |ops|
    ensures RevNames(Run(s, ops[..i]), Run(s, ops[..j]))
    decreases j
  {
    if i < j {
      RevisionNamesTable(s, ops, i, j - 1);
      assert ops[..j][..j - 1] == ops[..j - 1];
      StepNames(Run(s, ops[..j - 1]), ops[j - 1]);
      NamesThen(Run(s, ops[..i]), Run(s, ops[..j - 1]), Run(s, ops[..j]));
    }
  }

  lemma NamesThen(s: State, t: State, u: State)
    requires RevNames(s, t) && RevNames(t, u)
    ensures RevNames(s, u)
  {
  }

  lemma StepKeepsStatic(s: State, op: Op, p: Prefix)
    requires Inv(s) && Sound(op)
    requires IsStatic(s.claims, p)
    ensures IsStatic(Step(s, op).claims, p)
    ensures Step(s, op).claims[p] != s.claims[p] ==> Injects(op, p)
  {
    match op
    case Claimed(origin, _, _, _, _) =>
      ClaimSpeaksForItself(s, op);
      assert GoodClaim(s.allow, p, s.claims[p]);
    case _ =>
  }

  predicate Injects(op: Op, p: Prefix) {
    op.Static? && op.prefix.Masked() == p
  }

  /** Once the operator's route is in, every later table has an operator's route on
      that prefix, and only another injected route replaces it. */
  lemma {:induction false} StaticRoutesStay(s: State, ops: seq<Op>, p: Prefix)
    requires Inv(s) && AllSound(ops) && IsStatic(s.claims, p)
    ensures IsStatic(Run(s, ops).claims, p)
    ensures (forall op :: op in ops ==> !Injects(op, p)) ==> Run(s, ops).claims[p] == s.claims[p]
  {
    if ops != [] {
      var n := |ops| - 1;
      StaticRoutesStay(s, ops[..n], p);
      RunKeepsInv(s, ops[..n]);
      assert Sound(ops[n]);
      StepKeepsStatic(Run(s, ops[..n]), ops[n], p);
    }
  }

  // ---- Routes over members

  predicate IsDynamic(claims: Claims, p: Prefix) {
    p in claims && !claims[p].isStatic
  }

  /** No spoke's route covers a member's address. */
  ghost predicate CoversNone(s: State) {
    forall p :: IsDynamic(s.claims, p) ==> !CoversMember(s.members, p)
  }

  /** The operation sets a member list that names an address under a spoke's route
      already held. */
  ghost predicate JoinsUnderRoute(s: State, op: Op) {
    op.Members? && exists p :: IsDynamic(s.claims, p) && CoversMember(op.members, p)
  }

  /** A claim message brings in no route that covers a member. */
  lemma ClaimCoversNoMember(s: State, op: Op, p: Prefix)
    requires op.Claimed?
    requires IsDynamic(Step(s, op).claims, p) && CoversMember(s.members, p)
    ensures IsDynamic(s.claims, p)
  {
    var add := MaskAll(op.add);
    var s1 := if op.replace then Remove(s, LeftOut(s.claims, op.origin, add)) else s;
    var s2 := DropAll(s1, op.origin, MaskAll(op.drop));
    DropAllKeeps(s1, op.origin, MaskAll(op.drop));
    DropAllSpeaks(s1, op.origin, MaskAll(op.drop));
    NewClaimsCoverNoMember(s2, op.origin, add, op.now);
    AddAllKeepsKind(s2, op.origin, add, op.now);
  }

  lemma {:induction false} AddAllKeepsKind(s: State, origin: Key, add: seq<Prefix>, now: int)
    ensures var t := AddAll(s, origin, add, now).0;
      forall p :: p in s.claims ==> p in t.claims && t.claims[p].isStatic == s.claims[p].isStatic
  {
    if add != [] {
      AddAllKeepsKind(s, origin, add[..|add| - 1], now);
    }
  }

  /** A route that covers a member after an operation was held before it; and unless the
      operation set the members, it covered that member then. */
  lemma CoveringWasHeld(s: State, op: Op, p: Prefix)
    requires IsDynamic(Step(s, op).claims, p) && CoversMember(Step(s, op).members, p)
    ensures IsDynamic(s.claims, p)
    ensures Step(s, op).members == if op.Members? then op.members else s.members
  {
    if op.Claimed? {
      ClaimSpeaksForItself(s, op);
      ClaimCoversNoMember(s, op, p);
    }
  }

  /** Where no spoke's route covers a member, one operation brings one about exactly
      when it sets a member list that names an address under a route already held. */
  lemma CoversNoneIff(s: State, op: Op)
    requires CoversNone(s)
    ensures CoversNone(Step(s, op)) <==> !JoinsUnderRoute(s, op)
  {
    if JoinsUnderRoute(s, op) {
      var p :| IsDynamic(s.claims, p) && CoversMember(op.members, p);
      assert IsDynamic(Step(s, op).claims, p) && CoversMember(Step(s, op).members, p);
    } else {
      forall p | IsDynamic(Step(s, op).claims, p)
        ensures !CoversMember(Step(s, op).members, p)
      {
        if CoversMember(Step(s, op).members, p) {
          CoveringWasHeld(s, op, p);
        }
      }
    }
  }

  ghost predicate CoversNoneAt(s: State, ops: seq<Op>, k: nat)
    requires k <= |ops|
  {
    CoversNone(Run(s, ops[..k]))
  }

  ghost predicate JoinsAt(s: State, ops: seq<Op>, i: nat)
    requires i < |ops|
  {
    JoinsUnderRoute(Run(s, ops[..i]), ops[i])
  }

  /** Through a whole run no spoke's route ever covers a member exactly when no operation
      of it sets a member list that names an address under a route held at the time. */
  lemma {:induction false} NeverCoversIff(s: State, ops: seq<Op>)
    requires CoversNone(s)
    ensures (forall k: nat :: k <= |ops| ==> CoversNoneAt(s, ops, k)) <==> forall i: nat :: i < |ops| ==> !JoinsAt(s, ops, i)
  {
    if ops == [] {
      assert forall k: nat :: k <= |ops| ==> ops[..k] == [];
      assert Run(s, []) == s;
      assert CoversNoneAt(s, ops, 0);
    } else {
      var n := |ops| - 1;
      NeverCoversIff(s, ops[..n]);
      SameMoments(s, ops);
      assert ops[..n + 1] == ops;
      assert CoversNoneAt(s, ops, n + 1) <==> CoversNone(Step(Run(s, ops[..n]), ops[n]));
      if CoversNoneAt(s, ops, n) {
        CoversNoneIff(Run(s, ops[..n]), ops[n]);
        assert CoversNoneAt(s, ops, n + 1) <==> !JoinsAt(s, ops, n);
      }
    }
  }

  lemma SameMoments(s: State, ops: seq<Op>)
    requires ops != []
    ensures var n := |ops| - 1;
      && (forall k: nat :: k <= n ==> (CoversNoneAt(s, ops[..n], k) <==> CoversNoneAt(s, ops, k)))
      && (forall i: nat :: i < n ==> (JoinsAt(s, ops[..n], i) <==> JoinsAt(s, ops, i)))
  {
    var n := |ops| - 1;
    forall k: nat | k <= n
      ensures ops[..n][..k] == ops[..k]
    {
    }
  }

  /** p is a spoke's route after the first k operations. */
  ghost predicate DynamicAt(s: State, ops: seq<Op>, k: nat, p: Prefix)
    requires k <= |ops|
  {
    IsDynamic(Run(s, ops[..k]).claims, p)
  }

  /** Operation i is the last to set the members, and p has been a spoke's route since
      before it. */
  ghost predicate HeldSinceJoin(s: State, ops: seq<Op>, i: nat, p: Prefix) {
    && i < |ops| && ops[i].Members? && (forall j :: i < j < |ops| ==> !ops[j].Members?)
    && forall k: nat :: i <= k <= |ops| ==> DynamicAt(s, ops, k, p)
  }

  /** A spoke's route that covers a member at the end of a run was held already when that
      member joined, and has been ever since. */
  lemma {:induction false} CoveredSinceJoin(s: State, ops: seq<Op>, p: Prefix) returns (i: nat)
    requires s.members == []
    requires IsDynamic(Run(s, ops).claims, p) && CoversMember(Run(s, ops).members, p)
    ensures HeldSinceJoin(s, ops, i, p) && Run(s, ops).members == ops[i].members
  {
    assert ops != [];
    var n := |ops| - 1;
    CoveringWasHeldLast(s, ops, p);
    if ops[n].Members? {
      i := n;
      JustJoined(s, ops, p);
    } else {
      i := CoveredSinceJoin(s, ops[..n], p);
      StillDynamic(s, ops, i, p);
    }
  }

  lemma JustJoined(s: State, ops: seq<Op>, p: Prefix)
    requires ops != [] && ops[|ops| - 1].Members?
    requires DynamicAt(s, ops, |ops| - 1, p) && DynamicAt(s, ops, |ops|, p)
    ensures HeldSinceJoin(s, ops, |ops| - 1, p)
  {
  }

  lemma CoveringWasHeldLast(s: State, ops: seq<Op>, p: Prefix)
    requires ops != [] && IsDynamic(Run(s, ops).claims, p) && CoversMember(Run(s, ops).members, p)
    ensures var n := |ops| - 1;
      && DynamicAt(s, ops, n, p) && DynamicAt(s, ops, n + 1, p)
      && Run(s, ops).members == if ops[n].Members? then ops[n].members else Run(s, ops[..n]).members
  {
    var n := |ops| - 1;
    CoveringWasHeld(Run(s, ops[..n]), ops[n], p);
    assert ops[..n + 1] == ops;
  }

  lemma StillDynamic(s: State, ops: seq<Op>, i: nat, p: Prefix)
    requires ops != [] && HeldSinceJoin(s, ops[..|ops| - 1], i, p) && !ops[|ops| - 1].Members?
    requires DynamicAt(s, ops, |ops|, p)
    ensures HeldSinceJoin(s, ops, i, p)
  {
    var n := |ops| - 1;
    forall k: nat | i <= k <= n
      ensures DynamicAt(s, ops, k, p)
    {
      assert DynamicAt(s, ops[..n], k, p) && ops[..n][..k] == ops[..k];
    }
    assert ops[..n][i] == ops[i];
    forall j | i < j < |ops|
      ensures !ops[j].Members?
    {
      assert j < n ==> ops[..n][j] == ops[j];
    }
  }

  /** It does happen: the check is made on the way in only. */
  lemma LaterMemberIsCovered()
    ensures var p := Prefix(V4(7), 32);
      var m := Member(Parsed(V4(7)), "b", "", false, false);
      var ops := [Claimed("a", [p], [], true, 0), Members([m])];
      AllSound(ops) && CoversMember(Run(NewState(map["a" := [p]]), ops).members, p)
      && p in Run(NewState(map["a" := [p]]), ops).claims
  {
    var p := Prefix(V4(7), 32);
    var s := NewState(map["a" := [p]]);
    var m := Member(Parsed(V4(7)), "b", "", false, false);
    var claim, join := Claimed("a", [p], [], true, 0), Members([m]);
    ClaimEnters(p, s);
    var t := Step(s, claim);
    assert [claim, join][..1] == [claim] && [claim][..0] == [];
    assert Run(s, [claim]) == t;
    assert Run(s, [claim, join]) == Step(t, join);
    assert Unmap(V4(7)) == V4(7);
    assert [m][0].ip.Parsed? && p.Contains(Unmap([m][0].ip.addr));
    assert CoversMember([m], p);
  }

  lemma ClaimEnters(p: Prefix, s: State)
    requires p == Prefix(V4(7), 32) && s == NewState(map["a" := [p]])
    ensures Step(s, Claimed("a", [p], [], true, 0)) == s.(claims := map[p := Claim("a", false, [], "", 0)], rev := 2)
  {
    assert p.Masked() == p;
    assert MaskAll([p]) == [p];
    assert LeftOut(s.claims, "a", [p]) == {};
    assert Remove(s, {}) == s;
    assert [p][..0] == [];
    assert DropAll(s, "a", MaskAll([])) == s;
    assert AddAll(s, "a", [], 0) == (s, []);
    assert Approved(s.allow, "a", p) by {
      assert p in s.allow["a"] && p.Contains(p.addr);
    }
    assert !CoversMember(s.members, p);
    assert AddAll(s, "a", [p], 0).0 == AddOne(s, "a", p, 0).0;
  }

  // ---- Expiry

  /** Operation i of a run is a claim message in which `origin` named p, and p has been
      in the table as origin's ever since. */
  ghost predicate HeldSince(s: State, ops: seq<Op>, i: nat, origin: Key, p: Prefix) {
    && i < |ops| && ops[i].Claimed? && ops[i].origin == origin
    && p in MaskAll(ops[i].add)
    && forall j :: i < j <= |ops| ==> Holds(Run(s, ops[..j]), origin, p)
  }

  /** A dynamic route's timestamp is the time of a message in which its origin named it,
      since when it has not left the table. */
  lemma {:induction false} SeenWasAsserted(s0: State, ops: seq<Op>, p: Prefix) returns (i: nat)
    requires AllSound(ops) && Inv(s0) && s0.claims == map[]
    requires p in Run(s0, ops).claims && !Run(s0, ops).claims[p].isStatic
    ensures HeldSince(s0, ops, i, Run(s0, ops).claims[p].origin, p)
    ensures ops[i].now == Run(s0, ops).claims[p].seen
  {
    var n := |ops| - 1;
    var s, t := Run(s0, ops[..n]), Run(s0, ops);
    assert ops[..|ops|] == ops;
    RunKeepsInv(s0, ops[..n]);
    assert Sound(ops[n]);
    if p in s.claims && s.claims[p] == t.claims[p] {
      i := SeenWasAsserted(s0, ops[..n], p);
      StillHeld(s0, ops, i, t.claims[p].origin, p);
    } else {
      StepKeepsInv(s, ops[n]);
      assert GoodClaim(t.allow, p, t.claims[p]);
      assert ops[n].Claimed?;
      ClaimSpeaksForItself(s, ops[n]);
      ChangedMeansAccepted(s, ops[n], p);
      i := n;
    }
  }

  lemma StillHeld(s0: State, ops: seq<Op>, i: nat, origin: Key, p: Prefix)
    requires ops != [] && HeldSince(s0, ops[..|ops| - 1], i, origin, p)
    requires Holds(Run(s0, ops), origin, p)
    ensures HeldSince(s0, ops, i, origin, p)
  {
    forall j | i < j <= |ops|
      ensures Holds(Run(s0, ops[..j]), origin, p)
    {
      if j == |ops| {
        assert ops[..j] == ops;
      } else {
        assert ops[..|ops| - 1][..j] == ops[..j];
      }
    }
  }

  lemma ChangedMeansAccepted(s: State, op: Op, p: Prefix)
    requires op.Claimed? && Holds(Step(s, op), op.origin, p)
    requires !(p in s.claims && s.claims[p] == Step(s, op).claims[p])
    ensures p in MaskAll(op.add) && Step(s, op).claims[p].seen == op.now
  {
    var add := MaskAll(op.add);
    var s1 := if op.replace then Remove(s, LeftOut(s.claims, op.origin, add)) else s;
    var s2 := DropAll(s1, op.origin, MaskAll(op.drop));
    DropAllKeeps(s1, op.origin, MaskAll(op.drop));
    AddAllHolds(s2, op.origin, add, op.now);
    AddAllTouches(s2, op.origin, add, op.now);
  }

  lemma {:induction false} DropAllKeeps(s: State, origin: Key, drop: seq<Prefix>)
    ensures var t := DropAll(s, origin, drop); forall p :: p in t.claims ==> p in s.claims && t.claims[p] == s.claims[p]
  {
    if drop != [] {
      DropAllKeeps(s, origin, drop[..|drop| - 1]);
    }
  }

  lemma {:induction false} AddAllTouches(s: State, origin: Key, add: seq<Prefix>, now: int)
    ensures var (t, accepted) := AddAll(s, origin, add, now);
      forall p :: p in t.claims && p !in accepted ==> p in s.claims && t.claims[p] == s.claims[p]
  {
    if add != [] {
      AddAllTouches(s, origin, add[..|add| - 1], now);
    }
  }

  /** The clock never goes back from one claim message to a later one. */
  predicate ClockAdvances(ops: seq<Op>) {
    forall i, j :: 0 <= i < j < |ops| && ops[i].Claimed? && ops[j].Claimed? ==> ops[i].now <= ops[j].now
  }

  lemma {:induction false} SeenIsLatest(s0: State, ops: seq<Op>, k: nat, origin: Key, p: Prefix)
    requires ClockAdvances(ops) && HeldSince(s0, ops, k, origin, p)
    requires Inv(s0) && origin != STATIC_ORIGIN
    ensures Holds(Run(s0, ops), origin, p) && Run(s0, ops).claims[p].seen >= ops[k].now
  {
    var n := |ops| - 1;
    var op := ops[n];
    assert ops[..|ops|] == ops;
    var s := Run(s0, ops[..n]);
    if k < n {
      forall j | k < j <= n
        ensures Holds(Run(s0, ops[..n][..j]), origin, p)
      {
        assert ops[..n][..j] == ops[..j];
      }
      SeenIsLatest(s0, ops[..n], k, origin, p);
    }
    if op.Claimed? {
      ClaimSpeaksForItself(s, op);
      if op.origin == origin && !(p in s.claims && s.claims[p] == Step(s, op).claims[p]) {
        ChangedMeansAccepted(s, op, p);
      } else if k == n {
        NamedMeansSeen(s, op, p);
      }
    }
  }

  lemma NamedMeansSeen(s: State, op: Op, p: Prefix)
    requires op.Claimed? && Holds(Step(s, op), op.origin, p) && p in MaskAll(op.add)
    ensures Step(s, op).claims[p].seen == op.now
  {
    var add := MaskAll(op.add);
    var s1 := if op.replace then Remove(s, LeftOut(s.claims, op.origin, add)) else s;
    var s2 := DropAll(s1, op.origin, MaskAll(op.drop));
    AddAllHolds(s2, op.origin, add, op.now);
  }

  /** With a clock that does not go back: a spoke's route is in force after a sweep
      exactly when it was in force before and its spoke named it within the TTL. */
  lemma SweepLeavesTheLiving(rows: map<Key, seq<Prefix>>, ops: seq<Op>, now: int, ttl: int, p: Prefix)
    requires SizedRows(rows) && AllSound(ops) && ClockAdvances(ops)
    requires var s := Run(NewState(rows), ops); p in s.claims && !s.claims[p].isStatic
    ensures var s := Run(NewState(rows), ops);
      var origin := s.claims[p].origin;
      p in Run(NewState(rows), ops + [Sweep(now, ttl)]).claims <==>
      exists i: nat :: HeldSince(NewState(rows), ops, i, origin, p) && now - ops[i].now <= ttl
  {
    var s0 := NewState(rows);
    var s := Run(s0, ops);
    var swept := ops + [Sweep(now, ttl)];
    assert swept[..|ops|] == ops;
    assert Run(s0, swept) == Withdraw(s, now, ttl);
    NewKeepsInv(rows);
    var i := SeenWasAsserted(s0, ops, p);
    RunKeepsInv(s0, ops);
    assert GoodClaim(s.allow, p, s.claims[p]);
    forall k: nat | HeldSince(s0, ops, k, s.claims[p].origin, p)
      ensures s.claims[p].seen >= ops[k].now
    {
      SeenIsLatest(s0, ops, k, s.claims[p].origin, p);
    }
  }
}
