/** The two gates an address assignment passes, written independently of each other: the
    API's door that checks and fills rows (AllocatePeerIPs, tunnel/tunip.go) and the
    hub's filter that drops what it cannot honour (honorablePeerIPs, tunnel/tun.go). */
module Assignment {
  import opened Common
  import opened Net
  import opened Sorting
  import opened TunIP

  function UnmapAll(list: seq<Addr>): (r: seq<Addr>)
    ensures |r| == |list| && forall i :: 0 <= i < |list| ==> r[i] == Unmap(list[i])
  {
    seq(|list|, i requires 0 <= i < |list| => Unmap(list[i]))
  }

  /** The addresses a row names, unmapped, in order. */
  function Named(row: Row): seq<Addr> {
    if row.Addrs? then UnmapAll(row.list) else []
  }

  /** Every slot of the given peers' rows, peer after peer. */
  function Slots(peers: seq<Key>, rows: Rows): seq<Addr> {
    if peers == [] then []
    else Slots(peers[..|peers| - 1], rows) + Named(RowOf(rows, peers[|peers| - 1]))
  }

  /** A row the hub can route: it parses, and where the hub has subnets they hand out
      every address it names. */
  predicate Routable(row: Row, nets: Nets)
    requires nets.Valid()
  {
    && !row.Malformed?
    && (nets.prefixes == [] || forall a :: a in Named(row) ==> Assignable(a, nets))
  }

  /** No address is named twice, within a row or across two. */
  ghost predicate Apart(peers: seq<Key>, rows: Rows) {
    && (forall k :: k in peers ==> Distinct(Named(RowOf(rows, k))))
    && (forall k :: k in peers ==> SharesNothing(peers, rows, k))
  }

  // ---- Counting slots

  /** How often a occurs in s. */
  function Occurs(s: seq<Addr>, a: Addr): nat {
    if s == [] then 0 else Occurs(s[..|s| - 1], a) + if s[|s| - 1] == a then 1 else 0
  }

  lemma {:induction false} OccursIn(s: seq<Addr>, a: Addr)
    ensures Occurs(s, a) >= 1 <==> a in s
  {
    if s != [] {
      OccursIn(s[..|s| - 1], a);
      assert a in s <==> a in s[..|s| - 1] || a == s[|s| - 1];
    }
  }

  lemma {:induction false} OccursConcat(s: seq<Addr>, t: seq<Addr>, a: Addr)
    ensures Occurs(s + t, a) == Occurs(s, a) + Occurs(t, a)
  {
    if t == [] {
      assert s + t == s;
    } else {
      OccursConcat(s, t[..|t| - 1], a);
      assert (s + t)[..|s + t| - 1] == s + t[..|t| - 1];
    }
  }

  /** No repeats is no element occurring twice. */
  lemma {:induction false} DistinctIsOnce(s: seq<Addr>)
    ensures Distinct(s) <==> forall a :: Occurs(s, a) <= 1
  {
    if s != [] {
      var n := |s| - 1;
      DistinctIsOnce(s[..n]);
      OccursIn(s[..n], s[n]);
      if Distinct(s) {
        assert Distinct(s[..n]) && s[n] !in s[..n];
        forall a
          ensures Occurs(s, a) <= 1
        {
          assert Occurs(s[..n], a) <= 1;
        }
      } else {
        if Distinct(s[..n]) {
          assert s[n] in s[..n];
          assert Occurs(s, s[n]) >= 2;
        } else {
          var a :| Occurs(s[..n], a) > 1;
          assert Occurs(s, a) > 1;
        }
      }
    }
  }

  lemma {:induction false} SlotsOf(peers: seq<Key>, rows: Rows, a: Addr)
    ensures a in Slots(peers, rows) <==> exists k :: k in peers && a in Named(RowOf(rows, k))
  {
    if peers != [] {
      var n := |peers| - 1;
      SlotsOf(peers[..n], rows, a);
      assert forall k :: k in peers <==> k in peers[..n] || k == peers[n];
    }
  }

  /** Some peer other than k names a. */
  ghost predicate NamedBeside(peers: seq<Key>, rows: Rows, k: Key, a: Addr) {
    exists j :: j in peers && j != k && a in Named(RowOf(rows, j))
  }

  lemma NamedBesideLast(peers: seq<Key>, rows: Rows, k: Key, a: Addr)
    requires peers != []
    ensures var n := |peers| - 1;
      NamedBeside(peers, rows, k, a) <==>
      NamedBeside(peers[..n], rows, k, a) || (peers[n] != k && a in Named(RowOf(rows, peers[n])))
  {
    var n := |peers| - 1;
    assert forall j :: j in peers <==> j in peers[..n] || j == peers[n];
  }

  /** How often k's row and the others' name a. */
  lemma {:induction false} SlotCount(peers: seq<Key>, rows: Rows, k: Key, a: Addr)
    requires Distinct(peers) && k in peers
    ensures Occurs(Slots(peers, rows), a) >= Occurs(Named(RowOf(rows, k)), a)
    ensures Occurs(Slots(peers, rows), a) == Occurs(Named(RowOf(rows, k)), a) <==> !NamedBeside(peers, rows, k, a)
  {
    var n := |peers| - 1;
    var last := Named(RowOf(rows, peers[n]));
    OccursConcat(Slots(peers[..n], rows), last, a);
    NamedBesideLast(peers, rows, k, a);
    if k == peers[n] {
      assert k !in peers[..n];
      SlotsOf(peers[..n], rows, a);
      OccursIn(Slots(peers[..n], rows), a);
      assert NamedBeside(peers[..n], rows, k, a) <==> a in Slots(peers[..n], rows);
    } else {
      SlotCount(peers[..n], rows, k, a);
      OccursIn(last, a);
    }
  }

  ghost predicate SharesNothing(peers: seq<Key>, rows: Rows, k: Key) {
    forall a :: a in Named(RowOf(rows, k)) ==> !NamedBeside(peers, rows, k, a)
  }

  ghost predicate OnceEach(row: seq<Addr>, slots: seq<Addr>) {
    forall a :: a in row ==> Occurs(slots, a) <= 1
  }

  /** An address of k's row occurs once in all the slots exactly when the row has it once
      and no other has it. */
  lemma OnceAt(peers: seq<Key>, rows: Rows, k: Key, a: Addr)
    requires Distinct(peers) && k in peers && a in Named(RowOf(rows, k))
    ensures Occurs(Slots(peers, rows), a) <= 1 <==> Occurs(Named(RowOf(rows, k)), a) <= 1 && !NamedBeside(peers, rows, k, a)
  {
    OccursIn(Named(RowOf(rows, k)), a);
    SlotCount(peers, rows, k, a);
  }

  lemma DistinctIsOnceWithin(row: seq<Addr>)
    ensures Distinct(row) <==> OnceEach(row, row)
  {
    DistinctIsOnce(row);
    if OnceEach(row, row) {
      forall a
        ensures Occurs(row, a) <= 1
      {
        OccursIn(row, a);
      }
    }
    if Distinct(row) {
      assert forall a :: Occurs(row, a) <= 1;
      assert OnceEach(row, row);
    }
  }

  /** Each address of k's row occurs once in all the slots exactly when the row repeats
      nothing and shares nothing. */
  lemma OccursOnce(peers: seq<Key>, rows: Rows, k: Key)
    requires Distinct(peers) && k in peers
    ensures OnceEach(Named(RowOf(rows, k)), Slots(peers, rows)) <==>
      Distinct(Named(RowOf(rows, k))) && SharesNothing(peers, rows, k)
  {
    DistinctIsOnceWithin(Named(RowOf(rows, k)));
    forall a | a in Named(RowOf(rows, k))
      ensures Occurs(Slots(peers, rows), a) <= 1 <==> Occurs(Named(RowOf(rows, k)), a) <= 1 && !NamedBeside(peers, rows, k, a)
    {
      OnceAt(peers, rows, k, a);
    }
  }

  ghost predicate EachRowOnce(peers: seq<Key>, rows: Rows, slots: seq<Addr>) {
    forall k :: k in peers ==> OnceEach(Named(RowOf(rows, k)), slots)
  }

  /** The slots repeat nothing exactly when each row's addresses occur once in them. */
  lemma DistinctIsOnceEach(peers: seq<Key>, rows: Rows)
    ensures Distinct(Slots(peers, rows)) <==> EachRowOnce(peers, rows, Slots(peers, rows))
  {
    var slots := Slots(peers, rows);
    DistinctIsOnce(slots);
    forall a
      ensures Occurs(slots, a) >= 1 ==> exists k :: k in peers && a in Named(RowOf(rows, k))
    {
      OccursIn(slots, a);
      SlotsOf(peers, rows, a);
    }
    if Distinct(slots) {
      forall k | k in peers
        ensures OnceEach(Named(RowOf(rows, k)), slots)
      {
      }
    } else {
      var a :| Occurs(slots, a) > 1;
      var k :| k in peers && a in Named(RowOf(rows, k));
      assert !OnceEach(Named(RowOf(rows, k)), slots);
    }
  }

  lemma DistinctSlotsAreApart(peers: seq<Key>, rows: Rows)
    requires Distinct(peers)
    ensures Distinct(Slots(peers, rows)) <==> Apart(peers, rows)
  {
    DistinctIsOnceEach(peers, rows);
    forall k | k in peers
      ensures OnceEach(Named(RowOf(rows, k)), Slots(peers, rows)) <==>
        Distinct(Named(RowOf(rows, k))) && SharesNothing(peers, rows, k)
    {
      OccursOnce(peers, rows, k);
    }
  }

  // ---- The API's door

  ghost predicate Admissible(peers: seq<Key>, rows: Rows, nets: Nets)
    requires nets.Valid()
  {
    && (forall k :: k in peers ==> Routable(RowOf(rows, k), nets))
    && Distinct(Slots(peers, rows))
  }

  ghost function Allocate(peers: seq<Key>, rows: Rows, nets: Nets): Option<Rows>
    requires nets.Valid()
  {
    if Admissible(peers, rows, nets) then AssignAll(peers, rows, Taken(rows, nets.self), nets.prefixes) else None
  }

  /** claims counts, for each address, the slots that name it. */
  ghost predicate Counts(claims: map<Addr, seq<Key>>, slots: seq<Addr>) {
    forall a :: |if a in claims then claims[a] else []| == Occurs(slots, a)
  }

  lemma CountsOneMore(claims: map<Addr, seq<Key>>, slots: seq<Addr>, a: Addr, peer: Key)
    requires Counts(claims, slots)
    ensures Counts(claims[a := (if a in claims then claims[a] else []) + [peer]], slots + [a])
  {
    assert (slots + [a])[..|slots|] == slots;
  }

  method AllocatePeerIPs(peers: seq<Key>, rows: Rows, nets: Nets) returns (r: Option<Rows>)
    requires nets.Valid()
    ensures r == Allocate(peers, rows, nets)
  {
    var parsed, claims := GatherClaims(peers, rows);
    if !parsed {
      return None;
    }
    if |nets.prefixes| > 0 {
      for i := 0 to |peers|
        invariant forall j :: 0 <= j < i ==> Routable(RowOf(rows, peers[j]), nets)
      {
        var ok := ValidateRow(RowOf(rows, peers[i]), nets);
        if !ok {
          return None;
        }
      }
    }
    var unique := EachOnce(peers, rows, claims);
    if !unique {
      return None;
    }
    var merged, ok := AssignPeerIPs(peers, rows, nets);
    return if ok then Some(merged) else None;
  }

  method GatherClaims(peers: seq<Key>, rows: Rows) returns (ok: bool, claims: map<Addr, seq<Key>>)
    ensures ok <==> forall k :: k in peers ==> !RowOf(rows, k).Malformed?
    ensures ok ==> Counts(claims, Slots(peers, rows))
  {
    claims := map[];
    for i := 0 to |peers|
      invariant forall j :: 0 <= j < i ==> !RowOf(rows, peers[j]).Malformed?
      invariant Counts(claims, Slots(peers[..i], rows))
    {
      if Parse(RowOf(rows, peers[i])).None? {
        return false, claims;
      }
      claims := AddPeer(claims, peers, rows, i);
    }
    assert peers[..|peers|] == peers;
    return true, claims;
  }

  method AddPeer(claims: map<Addr, seq<Key>>, peers: seq<Key>, rows: Rows, i: nat) returns (r: map<Addr, seq<Key>>)
    requires i < |peers| && !RowOf(rows, peers[i]).Malformed? && Counts(claims, Slots(peers[..i], rows))
    ensures Counts(r, Slots(peers[..i + 1], rows))
  {
    assert peers[..i + 1][..i] == peers[..i];
    r := AddSlots(claims, peers[i], Parse(RowOf(rows, peers[i])).value, Slots(peers[..i], rows));
  }

  method AddSlots(claims: map<Addr, seq<Key>>, peer: Key, addrs: seq<Addr>, ghost slots: seq<Addr>)
    returns (r: map<Addr, seq<Key>>)
    requires Counts(claims, slots)
    ensures Counts(r, slots + UnmapAll(addrs))
  {
    r := claims;
    assert slots + UnmapAll(addrs[..0]) == slots;
    for i := 0 to |addrs|
      invariant Counts(r, slots + UnmapAll(addrs[..i]))
    {
      var canonical := Unmap(addrs[i]);
      ghost var before := slots + UnmapAll(addrs[..i]);
      assert slots + UnmapAll(addrs[..i + 1]) == before + [canonical];
      CountsOneMore(r, before, canonical, peer);
      r := r[canonical := (if canonical in r then r[canonical] else []) + [peer]];
    }
    assert addrs[..|addrs|] == addrs;
  }

  method ValidateRow(row: Row, nets: Nets) returns (ok: bool)
    requires nets.Valid() && nets.prefixes != [] && !row.Malformed?
    ensures ok == Routable(row, nets)
  {
    var addrs := Parse(row).value;
    for i := 0 to |addrs|
      invariant forall j :: 0 <= j < i ==> Assignable(addrs[j], nets)
    {
      ok := ValidatePeerIP(addrs[i], nets);
      if !ok {
        assert Unmap(addrs[i]) == Named(row)[i] && Named(row)[i] in Named(row);
        return;
      }
    }
    return true;
  }

  /** No address of the row is named by more than one slot. */
  method NamedOnce(addrs: seq<Addr>, claims: map<Addr, seq<Key>>, ghost slots: seq<Addr>) returns (ok: bool)
    requires Counts(claims, slots)
    ensures ok <==> OnceEach(UnmapAll(addrs), slots)
  {
    for i := 0 to |addrs|
      invariant forall j :: 0 <= j < i ==> Occurs(slots, Unmap(addrs[j])) <= 1
    {
      var canonical := Unmap(addrs[i]);
      assert canonical == UnmapAll(addrs)[i] && UnmapAll(addrs)[i] in UnmapAll(addrs);
      if canonical in claims && |claims[canonical]| >= 2 {
        return false;
      }
    }
    return true;
  }

  lemma OneMoreRow(peers: seq<Key>, rows: Rows, slots: seq<Addr>, i: nat)
    requires i < |peers| && EachRowOnce(peers[..i], rows, slots) && !RowOf(rows, peers[i]).Malformed?
    ensures UnmapAll(Parse(RowOf(rows, peers[i])).value) == Named(RowOf(rows, peers[i]))
    ensures OnceEach(Named(RowOf(rows, peers[i])), slots) <==> EachRowOnce(peers[..i + 1], rows, slots)
    ensures EachRowOnce(peers, rows, slots) ==> EachRowOnce(peers[..i + 1], rows, slots)
  {
    assert peers[..i + 1] == peers[..i] + [peers[i]];
    assert peers[i] in peers[..i + 1];
  }

  method EachOnce(peers: seq<Key>, rows: Rows, claims: map<Addr, seq<Key>>) returns (ok: bool)
    requires Counts(claims, Slots(peers, rows))
    requires forall k :: k in peers ==> !RowOf(rows, k).Malformed?
    ensures ok == Distinct(Slots(peers, rows))
  {
    ghost var slots := Slots(peers, rows);
    DistinctIsOnceEach(peers, rows);
    for i := 0 to |peers|
      invariant EachRowOnce(peers[..i], rows, slots)
    {
      ok := NamedOnce(Parse(RowOf(rows, peers[i])).value, claims, slots);
      OneMoreRow(peers, rows, slots, i);
      if !ok {
        return;
      }
    }
    assert peers[..|peers|] == peers;
    return true;
  }

  // ---- The hub's filter

  /** A row in force: routable, and no other routable row names any of its addresses. */
  ghost predicate InForce(rows: Rows, nets: Nets, k: Key)
    requires nets.Valid()
  {
    && k in rows && Routable(rows[k], nets)
    && Distinct(Named(rows[k]))
    && forall a :: a in Named(rows[k]) ==> !ClaimedBeside(rows, nets, k, a)
  }

  /** Some other routable row names a. */
  ghost predicate ClaimedBeside(rows: Rows, nets: Nets, k: Key, a: Addr)
    requires nets.Valid()
  {
    exists j :: j in rows && j != k && Routable(rows[j], nets) && a in Named(rows[j])
  }

  ghost function Honored(rows: Rows, nets: Nets): Rows
    requires nets.Valid()
  {
    map k | k in rows && InForce(rows, nets, k) :: rows[k]
  }

  /** Whatever order the map is walked in. */
  method HonorablePeerIPs(peerIPs: Rows, nets: Nets) returns (kept: Rows)
    requires nets.Valid()
    ensures kept == Honored(peerIPs, nets)
  {
    var order := RoutableRows(peerIPs, nets);
    var _, claims := GatherClaims(order, peerIPs);
    kept := map[];
    assert kept == HonoredAmong(order[..0], peerIPs, nets);
    for i := 0 to |order|
      invariant kept == HonoredAmong(order[..i], peerIPs, nets)
    {
      kept := KeepOne(order, i, peerIPs, nets, claims, kept);
    }
    assert order[..|order|] == order;
    assert forall k :: k in peerIPs && InForce(peerIPs, nets, k) ==> k in order;
  }

  ghost function HonoredAmong(ks: seq<Key>, rows: Rows, nets: Nets): Rows
    requires nets.Valid()
  {
    map k | k in ks && InForce(rows, nets, k) :: rows[k]
  }

  method KeepOne(order: seq<Key>, i: nat, peerIPs: Rows, nets: Nets, claims: map<Addr, seq<Key>>, kept: Rows)
    returns (r: Rows)
    requires nets.Valid() && Distinct(order) && i < |order|
    requires forall j :: j in order <==> j in peerIPs && Routable(peerIPs[j], nets)
    requires Counts(claims, Slots(order, peerIPs))
    requires kept == HonoredAmong(order[..i], peerIPs, nets)
    ensures r == HonoredAmong(order[..i + 1], peerIPs, nets)
  {
    var k := order[i];
    assert order[..i + 1] == order[..i] + [k];
    var unique := NamedByNoOther(order, peerIPs, nets, k, claims);
    r := if unique then kept[k := peerIPs[k]] else kept;
  }

  method NamedByNoOther(order: seq<Key>, peerIPs: Rows, nets: Nets, k: Key, claims: map<Addr, seq<Key>>)
    returns (unique: bool)
    requires nets.Valid() && Distinct(order) && k in order
    requires forall j :: j in order <==> j in peerIPs && Routable(peerIPs[j], nets)
    requires Counts(claims, Slots(order, peerIPs))
    ensures unique <==> InForce(peerIPs, nets, k)
  {
    InForceIsOnce(order, peerIPs, nets, k);
    unique := NamedOnce(Parse(peerIPs[k]).value, claims, Slots(order, peerIPs));
  }

  lemma InForceIsOnce(order: seq<Key>, rows: Rows, nets: Nets, k: Key)
    requires nets.Valid() && Distinct(order) && k in order
    requires forall j :: j in order <==> j in rows && Routable(rows[j], nets)
    ensures InForce(rows, nets, k) <==> OnceEach(Named(rows[k]), Slots(order, rows))
  {
    OccursOnce(order, rows, k);
    forall a
      ensures NamedBeside(order, rows, k, a) <==> ClaimedBeside(rows, nets, k, a)
    {
      if NamedBeside(order, rows, k, a) {
        var j :| j in order && j != k && a in Named(RowOf(rows, j));
        assert j in rows && Routable(rows[j], nets) && a in Named(rows[j]);
      }
      if ClaimedBeside(rows, nets, k, a) {
        var j :| j in rows && j != k && Routable(rows[j], nets) && a in Named(rows[j]);
        assert j in order && a in Named(RowOf(rows, j));
      }
    }
  }

  method RoutableRows(rows: Rows, nets: Nets) returns (order: seq<Key>)
    requires nets.Valid()
    ensures Distinct(order)
    ensures forall k :: k in order <==> k in rows && Routable(rows[k], nets)
  {
    order := [];
    var todo := rows.Keys;
    while todo != {}
      invariant todo <= rows.Keys && Distinct(order)
      invariant forall k :: k in order <==> k in rows && k !in todo && Routable(rows[k], nets)
      decreases todo
    {
      var peer :| peer in todo;
      todo := todo - {peer};
      if Parse(rows[peer]).None? {
        continue;
      }
      if |nets.prefixes| > 0 {
        var ok := ValidateRow(rows[peer], nets);
        if !ok {
          continue;
        }
      }
      order := order + [peer];
    }
  }
}
