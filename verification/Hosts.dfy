/** What the allocator hands out, in numbers, and to whom: the hosts of a subnet as an
    interval, the order of the peers, and when the API's door lets rows pass. */
module Hosts {
  import opened Common
  import opened Net
  import opened Sorting
  import opened TunIP
  import opened Assignment
  import opened DoorAndFilter

  /** An IPv4 subnet hands out all its addresses but the first, below a /31, and the last,
      below a /30. */
  lemma V4Hosts(p: Prefix, a: Addr)
    requires p.Valid() && p.IsMasked() && p.addr.V4?
    ensures var lo := p.addr.v + if p.bits < 31 then 1 else 0;
      var hi := p.addr.v + Pow2(32 - p.bits) - if p.bits < 30 then 1 else 0;
      HandsOut(p, a) <==> a.V4? && lo <= a.v < hi
  {
    ContainsIsInterval(p, a);
  }

  /** An IPv6 subnet hands out all its addresses but the first, below a /31. */
  lemma V6Hosts(p: Prefix, a: Addr)
    requires p.Valid() && p.IsMasked() && p.addr.V6?
    ensures var lo := p.addr.v + if p.bits < 31 then 1 else 0;
      HandsOut(p, a) <==> a.V6? && lo <= a.v < p.addr.v + Pow2(128 - p.bits)
  {
    ContainsIsInterval(p, a);
  }

  /** A typed address is admitted exactly when, unmapped, it is a host of some subnet by
      these numbers and is not the hub's. */
  predicate IsHost(p: Prefix, a: Addr) {
    && a.V4? == p.addr.V4? && p.bits <= p.addr.Width()
    && p.addr.v + (if p.bits < 31 then 1 else 0) <= a.v
    && a.v < p.addr.v + Pow2(p.addr.Width() - p.bits) - if p.addr.V4? && p.bits < 30 then 1 else 0
  }

  lemma AdmittedAreHosts(a: Addr, nets: Nets)
    requires nets.Valid()
    ensures Assignable(a, nets) <==>
      Unmap(a) !in nets.self && exists p :: p in nets.prefixes && IsHost(p, Unmap(a))
  {
    forall p | p in nets.prefixes
      ensures HandsOut(p, Unmap(a)) <==> IsHost(p, Unmap(a))
    {
      HostsAreNumbers(p, Unmap(a));
    }
  }

  lemma HostsAreNumbers(p: Prefix, a: Addr)
    requires p.Valid() && p.IsMasked()
    ensures HandsOut(p, a) <==> IsHost(p, a)
  {
    if p.addr.V4? {
      V4Hosts(p, a);
    } else {
      V6Hosts(p, a);
    }
  }

  // ---- The order of the peers

  /** Of two blank rows, the one whose peer is listed first is given the address that the
      search comes to first. */
  lemma {:induction false} FilledInOrder(order: seq<Key>, rows: Rows, taken: set<Addr>, prefixes: seq<Prefix>, i: nat, j: nat)
    requires forall p :: p in prefixes ==> p.IsMasked()
    requires Distinct(order) && i < j < |order|
    requires RowOf(rows, order[i]) == Blank && RowOf(rows, order[j]) == Blank
    requires AssignAll(order, rows, taken, prefixes).Some?
    ensures var out := AssignAll(order, rows, taken, prefixes).value;
      && OneEach(out, order[i], order[j])
      && SearchedBefore(prefixes, out[order[i]].list[0], out[order[j]].list[0])
  {
    if RowOf(rows, order[0]) != Blank {
      FilledInOrder(order[1..], rows, taken, prefixes, i - 1, j - 1);
    } else {
      var a := NextFree(prefixes, taken).value;
      var filled := rows[order[0] := Addrs([a])];
      if i > 0 {
        FilledInOrder(order[1..], filled, taken + {a}, prefixes, i - 1, j - 1);
      } else {
        FirstIsFirst(order, rows, taken, prefixes, j);
      }
    }
  }

  predicate OneEach(out: Rows, j: Key, k: Key) {
    j in out && k in out && out[j].Addrs? && |out[j].list| == 1 && out[k].Addrs? && |out[k].list| == 1
  }

  lemma FirstIsFirst(order: seq<Key>, rows: Rows, taken: set<Addr>, prefixes: seq<Prefix>, j: nat)
    requires forall p :: p in prefixes ==> p.IsMasked()
    requires Distinct(order) && 0 < j < |order|
    requires RowOf(rows, order[0]) == Blank && RowOf(rows, order[j]) == Blank
    requires AssignAll(order, rows, taken, prefixes).Some?
    ensures var out := AssignAll(order, rows, taken, prefixes).value;
      && OneEach(out, order[0], order[j])
      && SearchedBefore(prefixes, out[order[0]].list[0], out[order[j]].list[0])
  {
    var a := NextFree(prefixes, taken).value;
    var filled, used := rows[order[0] := Addrs([a])], taken + {a};
    FillGives(order[1..], filled, used, prefixes);
    FillKeepsTyped(order[1..], filled, used, prefixes);
    GivenIsFree(order[1..], filled, used, prefixes);
    NextFreeIsFirst(prefixes, taken);
    assert order[j] == order[1..][j - 1] && order[j] in BlankPeers(order[1..], filled);
    var out := AssignAll(order, rows, taken, prefixes).value;
    assert NamesOneOf(out[order[j]], Given(order[1..], filled, used, prefixes));
  }

  // ---- The door

  /** The door takes rows exactly when each parses and, on a hub with subnets, names hosts
      of theirs only; no address is named twice, however spelled; and there is a free address
      for every blank row. */
  lemma DoorIsExact(peers: seq<Key>, rows: Rows, nets: Nets)
    requires nets.Valid() && Distinct(peers)
    ensures Allocate(peers, rows, nets).Some? <==>
      && (forall k :: k in peers ==> !RowOf(rows, k).Malformed?)
      && (nets.prefixes == [] || forall k, a :: k in peers && a in Named(RowOf(rows, k)) ==> Assignable(a, nets))
      && (forall k :: k in peers ==> Distinct(Named(RowOf(rows, k))))
      && (forall j, k, a :: j in peers && k in peers && j != k && a in Named(RowOf(rows, j)) ==> a !in Named(RowOf(rows, k)))
      && |BlankPeers(peers, rows)| <= |FreeSet(nets.prefixes, Taken(rows, nets.self))|
  {
    DistinctSlotsAreApart(peers, rows);
    AssignsIffEnough(peers, rows, Taken(rows, nets.self), nets.prefixes);
    ApartIsPairwise(peers, rows);
  }

  lemma ApartIsPairwise(peers: seq<Key>, rows: Rows)
    ensures Apart(peers, rows) <==>
      && (forall k :: k in peers ==> Distinct(Named(RowOf(rows, k))))
      && (forall j, k, a :: j in peers && k in peers && j != k && a in Named(RowOf(rows, j)) ==> a !in Named(RowOf(rows, k)))
  {
    if Apart(peers, rows) {
      forall j, k, a | j in peers && k in peers && j != k && a in Named(RowOf(rows, j))
        ensures a !in Named(RowOf(rows, k))
      {
        assert SharesNothing(peers, rows, j) && !NamedBeside(peers, rows, j, a);
      }
    }
  }

  /** A row that parses and, on a hub with subnets, names hosts of theirs only. */
  predicate IsUsable(row: Row, nets: Nets)
    requires nets.Valid()
  {
    !row.Malformed? && (nets.prefixes == [] || forall a :: a in Named(row) ==> Assignable(a, nets))
  }

  /** The filter keeps a row exactly when it is usable, and of its addresses none is named a
      second time, however spelled, by it or by another usable row; an unusable row takes no
      address from anybody. What it keeps it keeps as it is. */
  lemma FilterIsExact(rows: Rows, nets: Nets, k: Key)
    requires nets.Valid()
    ensures k in Honored(rows, nets) <==>
      && k in rows && IsUsable(rows[k], nets)
      && Distinct(Named(rows[k]))
      && forall j, a :: j in rows && j != k && IsUsable(rows[j], nets) && a in Named(rows[j]) ==> a !in Named(rows[k])
    ensures k in Honored(rows, nets) ==> Honored(rows, nets)[k] == rows[k]
  {
  }

  /** A row names what it lists, unmapped; a blank or malformed one names nothing. */
  lemma NamedIsUnmapped(row: Row, i: nat)
    ensures |Named(row)| == if row.Addrs? then |row.list| else 0
    ensures i < |Named(row)| ==> Named(row)[i] == Unmap(row.list[i])
  {
  }
}
