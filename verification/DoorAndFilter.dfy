/** The API's door and the hub's filter agree: what the door saves, the filter keeps,
    with the one exception a row written in the ::ffff: form makes possible. */
module DoorAndFilter {
  import opened Common
  import opened Net
  import opened Sorting
  import opened TunIP
  import opened Assignment

  /** The addresses the door hands to the blank rows of `order`, in order. */
  function Given(order: seq<Key>, rows: Rows, taken: set<Addr>, prefixes: seq<Prefix>): seq<Addr>
    requires forall p :: p in prefixes ==> p.IsMasked()
  {
    if order == [] then []
    else if RowOf(rows, order[0]) != Blank then Given(order[1..], rows, taken, prefixes)
    else
      var a := NextFree(prefixes, taken);
      if a.None? then []
      else [a.value] + Given(order[1..], rows[order[0] := Addrs([a.value])], taken + {a.value}, prefixes)
  }

  predicate WrittenUnmapped(rows: Rows) {
    forall k, a :: k in rows && rows[k].Addrs? && a in rows[k].list ==> !Mapped(a)
  }

  /** Where the hub's list first has a subnet that hands a out. */
  function FirstSubnet(prefixes: seq<Prefix>, a: Addr): nat
    requires forall p :: p in prefixes ==> p.IsMasked()
  {
    if prefixes == [] || HandsOut(prefixes[0], a) then 0 else 1 + FirstSubnet(prefixes[1..], a)
  }

  /** The order of the search: subnet after subnet, and upwards within one. */
  predicate SearchedBefore(prefixes: seq<Prefix>, a: Addr, b: Addr)
    requires forall p :: p in prefixes ==> p.IsMasked()
  {
    var i, j := FirstSubnet(prefixes, a), FirstSubnet(prefixes, b);
    i < j || (i == j && a.v < b.v)
  }

  ghost function FreeBefore(prefixes: seq<Prefix>, taken: set<Addr>, u: Addr): set<Addr>
    requires forall p :: p in prefixes ==> p.IsMasked()
  {
    set a | a in FreeSet(prefixes, taken) && SearchedBefore(prefixes, a, u)
  }

  /** The address is free and the search comes to it: fewer free addresses lie before it
      than there are blank rows. */
  ghost predicate InReach(peers: seq<Key>, rows: Rows, nets: Nets, h: Addr)
    requires nets.Valid()
  {
    var taken := Taken(rows, nets.self);
    && h in FreeSet(nets.prefixes, taken)
    && |FreeBefore(nets.prefixes, taken, h)| < |BlankPeers(peers, rows)|
  }

  /** h, unmapped, is no typed row's, is one the hub can route, and no other address in
      reach spells it. */
  ghost predicate Fits(peers: seq<Key>, rows: Rows, nets: Nets, h: Addr)
    requires nets.Valid()
  {
    && Assignable(h, nets)
    && (forall k :: k in rows ==> Unmap(h) !in Named(rows[k]))
    && (forall g :: InReach(peers, rows, nets, g) && Unmap(g) == Unmap(h) ==> g == h)
  }

  /** Every free address the search comes to fits. */
  ghost predicate Clear(peers: seq<Key>, rows: Rows, nets: Nets)
    requires nets.Valid()
  {
    forall h :: InReach(peers, rows, nets, h) ==> Fits(peers, rows, nets, h)
  }

  // ---- What the door hands out

  lemma {:induction false} FirstSubnetIs(prefixes: seq<Prefix>, a: Addr)
    requires forall p :: p in prefixes ==> p.IsMasked()
    ensures var i := FirstSubnet(prefixes, a);
      && i <= |prefixes| && (i < |prefixes| ==> HandsOut(prefixes[i], a))
      && forall j :: 0 <= j < i ==> !HandsOut(prefixes[j], a)
  {
    if prefixes != [] && !HandsOut(prefixes[0], a) {
      FirstSubnetIs(prefixes[1..], a);
      forall j | 0 < j < FirstSubnet(prefixes, a)
        ensures !HandsOut(prefixes[j], a)
      {
        assert prefixes[j] == prefixes[1..][j - 1];
      }
    }
  }

  /** No free address is searched before the one the search returns, and every other is
      searched after it. */
  lemma NextFreeIsFirst(prefixes: seq<Prefix>, taken: set<Addr>)
    requires forall p :: p in prefixes ==> p.IsMasked()
    requires NextFree(prefixes, taken).Some?
    ensures var a := NextFree(prefixes, taken).value;
      forall b :: b in FreeSet(prefixes, taken) ==> b == a || (SearchedBefore(prefixes, a, b) && !SearchedBefore(prefixes, b, a))
  {
    NextFreeIsExact(prefixes, taken);
    var a := NextFree(prefixes, taken).value;
    var i :| FirstWithFree(prefixes, taken, i) && LeastFree(prefixes[i], taken, a);
    forall b | b in FreeSet(prefixes, taken) && b != a
      ensures SearchedBefore(prefixes, a, b) && !SearchedBefore(prefixes, b, a)
    {
      LeastIsBefore(prefixes, taken, i, a, b);
    }
  }

  lemma LeastIsBefore(prefixes: seq<Prefix>, taken: set<Addr>, i: nat, a: Addr, b: Addr)
    requires forall p :: p in prefixes ==> p.IsMasked()
    requires FirstWithFree(prefixes, taken, i) && LeastFree(prefixes[i], taken, a)
    requires b != a && b !in taken && exists p :: p in prefixes && HandsOut(p, b)
    ensures SearchedBefore(prefixes, a, b) && !SearchedBefore(prefixes, b, a)
  {
    FirstSubnetIs(prefixes, a);
    FirstSubnetIs(prefixes, b);
    assert FirstSubnet(prefixes, a) == i;
    assert FirstSubnet(prefixes, b) >= i;
  }

  /** A free address is handed out exactly when fewer free ones lie before it than there
      are blank rows. */
  lemma {:induction false} GivenIffReached(order: seq<Key>, rows: Rows, taken: set<Addr>, prefixes: seq<Prefix>, u: Addr)
    requires forall p :: p in prefixes ==> p.IsMasked()
    requires u in FreeSet(prefixes, taken)
    ensures u in Given(order, rows, taken, prefixes) <==> |FreeBefore(prefixes, taken, u)| < |BlankPeers(order, rows)|
  {
    if order == [] {
      assert BlankPeers(order, rows) == {};
    } else if RowOf(rows, order[0]) != Blank {
      GivenIffReached(order[1..], rows, taken, prefixes, u);
      assert BlankPeers(order, rows) == BlankPeers(order[1..], rows);
    } else {
      NextFreeIsFree(prefixes, taken);
      var a := NextFree(prefixes, taken).value;
      if u != a {
        GivenIffReached(order[1..], rows[order[0] := Addrs([a])], taken + {a}, prefixes, u);
      }
      FirstGiven(order, rows, taken, prefixes, u);
    }
  }

  /** The first blank row is given what the search returns, and every other address counts
      one fewer before it. */
  lemma FirstGiven(order: seq<Key>, rows: Rows, taken: set<Addr>, prefixes: seq<Prefix>, u: Addr)
    requires forall p :: p in prefixes ==> p.IsMasked()
    requires order != [] && RowOf(rows, order[0]) == Blank && u in FreeSet(prefixes, taken)
    requires NextFree(prefixes, taken).Some?
    requires var a := NextFree(prefixes, taken).value;
      var filled := rows[order[0] := Addrs([a])];
      u != a ==> (u in Given(order[1..], filled, taken + {a}, prefixes) <==>
                  |FreeBefore(prefixes, taken + {a}, u)| < |BlankPeers(order[1..], filled)|)
    ensures u in Given(order, rows, taken, prefixes) <==> |FreeBefore(prefixes, taken, u)| < |BlankPeers(order, rows)|
  {
    BlankFilled(order, rows, NextFree(prefixes, taken).value);
    FewerBefore(prefixes, taken, u);
  }

  /** Nothing free is before what the search returns; taking that leaves one fewer before
      any other. */
  lemma FewerBefore(prefixes: seq<Prefix>, taken: set<Addr>, u: Addr)
    requires forall p :: p in prefixes ==> p.IsMasked()
    requires u in FreeSet(prefixes, taken)
    ensures NextFree(prefixes, taken).Some?
    ensures var a := NextFree(prefixes, taken).value;
      |FreeBefore(prefixes, taken, u)| == if u == a then 0 else |FreeBefore(prefixes, taken + {a}, u)| + 1
  {
    NextFreeIsFree(prefixes, taken);
    NextFreeIsFirst(prefixes, taken);
    var a := NextFree(prefixes, taken).value;
    if u == a {
      assert FreeBefore(prefixes, taken, u) == {};
    } else {
      OneFewerBefore(prefixes, taken, a, u);
    }
  }

  lemma OneFewerBefore(prefixes: seq<Prefix>, taken: set<Addr>, a: Addr, u: Addr)
    requires forall p :: p in prefixes ==> p.IsMasked()
    requires a in FreeSet(prefixes, taken) && SearchedBefore(prefixes, a, u)
    ensures |FreeBefore(prefixes, taken, u)| == |FreeBefore(prefixes, taken + {a}, u)| + 1
  {
    assert FreeBefore(prefixes, taken + {a}, u) == FreeBefore(prefixes, taken, u) - {a};
    assert a in FreeBefore(prefixes, taken, u);
  }

  // ---- What filling does to each row

  lemma {:induction false} FillKeepsTyped(order: seq<Key>, rows: Rows, taken: set<Addr>, prefixes: seq<Prefix>)
    requires forall p :: p in prefixes ==> p.IsMasked()
    requires AssignAll(order, rows, taken, prefixes).Some?
    ensures var out := AssignAll(order, rows, taken, prefixes).value;
      && out.Keys == rows.Keys + BlankPeers(order, rows)
      && forall k :: k in rows && k !in BlankPeers(order, rows) ==> out[k] == rows[k]
  {
    if order != [] {
      if RowOf(rows, order[0]) != Blank {
        FillKeepsTyped(order[1..], rows, taken, prefixes);
        assert BlankPeers(order, rows) == BlankPeers(order[1..], rows);
      } else {
        var a := NextFree(prefixes, taken).value;
        var filled := rows[order[0] := Addrs([a])];
        FillKeepsTyped(order[1..], filled, taken + {a}, prefixes);
        assert order[0] in BlankPeers(order, rows);
        assert BlankPeers(order, rows) == BlankPeers(order[1..], filled) + {order[0]};
      }
    }
  }

  lemma {:induction false} GivenIsFree(order: seq<Key>, rows: Rows, taken: set<Addr>, prefixes: seq<Prefix>)
    requires forall p :: p in prefixes ==> p.IsMasked()
    ensures forall h :: h in Given(order, rows, taken, prefixes) ==> h in FreeSet(prefixes, taken)
  {
    if order != [] {
      if RowOf(rows, order[0]) != Blank {
        GivenIsFree(order[1..], rows, taken, prefixes);
      } else {
        NextFreeIsFree(prefixes, taken);
        var a := NextFree(prefixes, taken);
        if a.Some? {
          GivenIsFree(order[1..], rows[order[0] := Addrs([a.value])], taken + {a.value}, prefixes);
        }
      }
    }
  }

  /** row names exactly one address, and it is among hs. */
  predicate NamesOneOf(row: Row, hs: seq<Addr>) {
    row.Addrs? && |row.list| == 1 && row.list[0] in hs
  }

  /** Some peer of `blank` was given h, and h alone. */
  ghost predicate Received(blank: set<Key>, out: Rows, h: Addr) {
    exists k :: k in blank && k in out && out[k] == Addrs([h])
  }

  ghost predicate EachItsOwn(blank: set<Key>, out: Rows, hs: seq<Addr>) {
    && (forall k :: k in blank ==> k in out && NamesOneOf(out[k], hs))
    && (forall j, k :: j in blank && k in blank && j != k ==> out[j] != out[k])
    && (forall h :: h in hs ==> Received(blank, out, h))
  }

  lemma {:induction false} FillGives(order: seq<Key>, rows: Rows, taken: set<Addr>, prefixes: seq<Prefix>)
    requires forall p :: p in prefixes ==> p.IsMasked()
    requires AssignAll(order, rows, taken, prefixes).Some?
    ensures EachItsOwn(BlankPeers(order, rows), AssignAll(order, rows, taken, prefixes).value, Given(order, rows, taken, prefixes))
    decreases |order|, 1
  {
    if order != [] {
      if RowOf(rows, order[0]) != Blank {
        FillGives(order[1..], rows, taken, prefixes);
        assert BlankPeers(order, rows) == BlankPeers(order[1..], rows);
      } else {
        FirstFilled(order, rows, taken, prefixes);
      }
    }
  }

  lemma {:induction false} FirstFilled(order: seq<Key>, rows: Rows, taken: set<Addr>, prefixes: seq<Prefix>)
    requires forall p :: p in prefixes ==> p.IsMasked()
    requires order != [] && RowOf(rows, order[0]) == Blank
    requires AssignAll(order, rows, taken, prefixes).Some?
    ensures EachItsOwn(BlankPeers(order, rows), AssignAll(order, rows, taken, prefixes).value, Given(order, rows, taken, prefixes))
    decreases |order|, 0
  {
    var a, peer := NextFree(prefixes, taken).value, order[0];
    var filled, used := rows[peer := Addrs([a])], taken + {a};
    FillGives(order[1..], filled, used, prefixes);
    FillKeepsTyped(order[1..], filled, used, prefixes);
    GivenIsFree(order[1..], filled, used, prefixes);
    var out := AssignAll(order, rows, taken, prefixes).value;
    var rest := Given(order[1..], filled, used, prefixes);
    var others := BlankPeers(order[1..], filled);
    assert peer in BlankPeers(order, rows);
    assert BlankPeers(order, rows) == others + {peer};
    OneMoreOfItsOwn(others, out, rest, peer, a);
  }

  /** One more peer with an address of its own. */
  lemma OneMoreOfItsOwn(others: set<Key>, out: Rows, rest: seq<Addr>, peer: Key, a: Addr)
    requires EachItsOwn(others, out, rest) && a !in rest && peer in out && out[peer] == Addrs([a])
    ensures EachItsOwn(others + {peer}, out, [a] + rest)
  {
    forall k | k in others
      ensures NamesOneOf(out[k], [a] + rest) && out[k] != out[peer]
    {
      assert NamesOneOf(out[k], rest);
    }
    forall h | h in [a] + rest
      ensures Received(others + {peer}, out, h)
    {
      if h != a {
        assert Received(others, out, h);
      }
    }
  }

  // ---- The two gates together

  lemma GivenIsInReach(peers: seq<Key>, rows: Rows, nets: Nets, h: Addr)
    requires nets.Valid()
    ensures h in Given(peers, rows, Taken(rows, nets.self), nets.prefixes) <==> InReach(peers, rows, nets, h)
  {
    var taken := Taken(rows, nets.self);
    GivenIsFree(peers, rows, taken, nets.prefixes);
    if h in FreeSet(nets.prefixes, taken) {
      GivenIffReached(peers, rows, taken, nets.prefixes, h);
    }
  }

  lemma {:induction false} NothingToFill(order: seq<Key>, rows: Rows, taken: set<Addr>, prefixes: seq<Prefix>)
    requires forall p :: p in prefixes ==> p.IsMasked()
    requires forall k :: k in order ==> RowOf(rows, k) != Blank
    ensures AssignAll(order, rows, taken, prefixes) == Some(rows)
  {
    if order != [] {
      NothingToFill(order[1..], rows, taken, prefixes);
    }
  }

  lemma TwoNameIt(peers: seq<Key>, out: Rows, j: Key, k: Key, a: Addr)
    requires j in peers && k in peers && j != k
    requires a in Named(RowOf(out, j)) && a in Named(RowOf(out, k))
    ensures !Apart(peers, out)
  {
    assert NamedBeside(peers, out, j, a);
    assert !SharesNothing(peers, out, j);
  }

  /** What filling makes of the rows, as far as the filter is concerned. */
  ghost predicate Filled(peers: seq<Key>, rows: Rows, nets: Nets, out: Rows)
    requires nets.Valid()
  {
    && (forall k :: k in out <==> k in peers)
    && (forall k :: k in peers && k !in BlankPeers(peers, rows) ==> k in rows && out[k] == rows[k])
    && (forall k :: k in BlankPeers(peers, rows) ==> k in out && GivenOne(peers, rows, nets, out[k]))
    && (forall h :: InReach(peers, rows, nets, h) ==> Received(BlankPeers(peers, rows), out, h))
    && (forall j, k :: j in BlankPeers(peers, rows) && k in BlankPeers(peers, rows) && j != k ==> out[j] != out[k])
  }

  lemma OneOfGiven(peers: seq<Key>, rows: Rows, nets: Nets, row: Row)
    requires nets.Valid() && NamesOneOf(row, Given(peers, rows, Taken(rows, nets.self), nets.prefixes))
    ensures GivenOne(peers, rows, nets, row)
  {
    GivenIsInReach(peers, rows, nets, row.list[0]);
    assert row == Addrs([row.list[0]]);
  }

  lemma AllocateFills(peers: seq<Key>, rows: Rows, nets: Nets)
    requires nets.Valid() && forall k :: k in rows ==> k in peers
    requires Allocate(peers, rows, nets).Some?
    ensures Filled(peers, rows, nets, Allocate(peers, rows, nets).value)
  {
    var taken := Taken(rows, nets.self);
    var out := Allocate(peers, rows, nets).value;
    FillKeepsTyped(peers, rows, taken, nets.prefixes);
    FillGives(peers, rows, taken, nets.prefixes);
    var hs := Given(peers, rows, taken, nets.prefixes);
    forall k | k in BlankPeers(peers, rows)
      ensures GivenOne(peers, rows, nets, out[k])
    {
      OneOfGiven(peers, rows, nets, out[k]);
    }
    forall h | InReach(peers, rows, nets, h)
      ensures Received(BlankPeers(peers, rows), out, h)
    {
      GivenIsInReach(peers, rows, nets, h);
    }
  }

  /** What the door saves: the typed rows as they were; every peer's row, and none of
      them blank; and for each blank one a single address of its own, which the search came
      to and no row names. Filling what was filled changes nothing. */
  lemma DoorPromises(peers: seq<Key>, rows: Rows, nets: Nets)
    requires nets.Valid()
    requires forall k :: k in rows ==> k in peers
    requires Allocate(peers, rows, nets).Some?
    ensures var out := Allocate(peers, rows, nets).value;
      && (forall k :: k in rows && rows[k] != Blank ==> k in out && out[k] == rows[k])
      && (forall k :: k in out <==> k in peers)
      && (forall k :: k in out ==> out[k].Addrs?)
      && (forall k :: k in BlankPeers(peers, rows) ==> GivenOne(peers, rows, nets, out[k]))
      && (forall j, k :: j in BlankPeers(peers, rows) && k in BlankPeers(peers, rows) && j != k ==> out[j] != out[k])
      && AssignAll(peers, out, Taken(out, nets.self), nets.prefixes) == Some(out)
  {
    var out := Allocate(peers, rows, nets).value;
    AllocateFills(peers, rows, nets);
    forall k | k in out
      ensures out[k].Addrs?
    {
      assert k !in BlankPeers(peers, rows) ==> RowOf(rows, k) == out[k];
    }
    NothingToFill(peers, out, Taken(out, nets.self), nets.prefixes);
  }

  /** The row is one address, free until now, that the search comes to. */
  ghost predicate GivenOne(peers: seq<Key>, rows: Rows, nets: Nets, row: Row)
    requires nets.Valid()
  {
    exists h :: InReach(peers, rows, nets, h) && IsNew(rows, nets, h) && row == Addrs([h])
  }

  /** Neither the hub's nor written in any row. */
  predicate IsNew(rows: Rows, nets: Nets, h: Addr) {
    h !in nets.self && forall k :: k in rows && rows[k].Addrs? ==> h !in rows[k].list
  }

  lemma Receiver(peers: seq<Key>, rows: Rows, nets: Nets, out: Rows, h: Addr) returns (k: Key)
    requires nets.Valid() && Filled(peers, rows, nets, out) && InReach(peers, rows, nets, h)
    ensures k in BlankPeers(peers, rows) && k in peers && k in out && out[k] == Addrs([h]) && Named(RowOf(out, k)) == [Unmap(h)]
  {
    assert Received(BlankPeers(peers, rows), out, h);
    k :| k in BlankPeers(peers, rows) && k in out && out[k] == Addrs([h]);
  }

  lemma GivenTo(peers: seq<Key>, rows: Rows, nets: Nets, out: Rows, k: Key) returns (h: Addr)
    requires nets.Valid() && Filled(peers, rows, nets, out) && k in BlankPeers(peers, rows)
    ensures InReach(peers, rows, nets, h) && k in out && out[k] == Addrs([h]) && Named(RowOf(out, k)) == [Unmap(h)]
  {
    assert GivenOne(peers, rows, nets, out[k]);
    h :| InReach(peers, rows, nets, h) && out[k] == Addrs([h]);
  }

  lemma Unroutable(row: Row, nets: Nets, h: Addr)
    requires nets.Valid() && nets.prefixes != [] && Named(row) == [Unmap(h)]
    ensures !Assignable(h, nets) ==> !Routable(row, nets)
    ensures Assignable(h, nets) && row.Addrs? ==> Routable(row, nets)
  {
    assert Unmap(h) in Named(row) && Unmap(Unmap(h)) == Unmap(h);
  }

  /** A given address that does not fit: its row cannot be routed, or shares it. */
  lemma MisfitShows(peers: seq<Key>, rows: Rows, nets: Nets, out: Rows, h: Addr)
    requires nets.Valid() && Filled(peers, rows, nets, out) && forall k :: k in rows ==> k in peers
    requires InReach(peers, rows, nets, h) && !Fits(peers, rows, nets, h)
    ensures (exists k :: k in out && !Routable(out[k], nets)) || !Apart(peers, out)
  {
    var j := Receiver(peers, rows, nets, out, h);
    if !Assignable(h, nets) {
      Unroutable(out[j], nets, h);
    } else if k :| k in rows && Unmap(h) in Named(rows[k]) {
      assert RowOf(rows, k) == rows[k] && k !in BlankPeers(peers, rows);
      TwoNameIt(peers, out, j, k, Unmap(h));
    } else {
      var g :| InReach(peers, rows, nets, g) && Unmap(g) == Unmap(h) && g != h;
      var k := Receiver(peers, rows, nets, out, g);
      assert out[j].list[0] != out[k].list[0];
      TwoNameIt(peers, out, j, k, Unmap(h));
    }
  }

  /** Where every given address fits, the rows are as far apart as the typed ones were. */
  lemma FittingIsApart(peers: seq<Key>, rows: Rows, nets: Nets, out: Rows)
    requires nets.Valid() && Filled(peers, rows, nets, out) && Clear(peers, rows, nets) && Apart(peers, rows)
    ensures Apart(peers, out)
  {
    var blank := BlankPeers(peers, rows);
    forall k | k in peers
      ensures Distinct(Named(RowOf(out, k))) && SharesNothing(peers, out, k)
    {
      if k !in blank {
        assert RowOf(out, k) == RowOf(rows, k);
      }
      forall a, j | a in Named(RowOf(out, k)) && j in peers && j != k
        ensures a !in Named(RowOf(out, j))
      {
        NotBoth(peers, rows, nets, out, j, k, a);
      }
    }
  }

  lemma NotBoth(peers: seq<Key>, rows: Rows, nets: Nets, out: Rows, j: Key, k: Key, a: Addr)
    requires nets.Valid() && Filled(peers, rows, nets, out) && Clear(peers, rows, nets) && Apart(peers, rows)
    requires j in peers && k in peers && j != k
    ensures a !in Named(RowOf(out, j)) || a !in Named(RowOf(out, k))
  {
    var blank := BlankPeers(peers, rows);
    if j in blank && k in blank {
      var g := GivenTo(peers, rows, nets, out, j);
      var h := GivenTo(peers, rows, nets, out, k);
      assert Fits(peers, rows, nets, g);
    } else if j in blank {
      GivenNotTyped(peers, rows, nets, out, j, k);
    } else if k in blank {
      GivenNotTyped(peers, rows, nets, out, k, j);
    } else if a in Named(RowOf(out, j)) && a in Named(RowOf(out, k)) {
      TwoNameIt(peers, rows, j, k, a);
    }
  }

  lemma GivenNotTyped(peers: seq<Key>, rows: Rows, nets: Nets, out: Rows, j: Key, k: Key)
    requires nets.Valid() && Filled(peers, rows, nets, out) && Clear(peers, rows, nets)
    requires j in BlankPeers(peers, rows) && k in peers && k !in BlankPeers(peers, rows)
    ensures forall a :: a in Named(RowOf(out, j)) ==> a !in Named(RowOf(out, k))
  {
    var h := GivenTo(peers, rows, nets, out, j);
    assert Fits(peers, rows, nets, h);
  }

  lemma ClearIsSound(peers: seq<Key>, rows: Rows, nets: Nets)
    requires nets.Valid() && Distinct(peers)
    requires forall k :: k in rows ==> k in peers
    requires Allocate(peers, rows, nets).Some?
    ensures var out := Allocate(peers, rows, nets).value;
      Clear(peers, rows, nets) <==> (forall k :: k in out ==> Routable(out[k], nets)) && Apart(peers, out)
  {
    var out := Allocate(peers, rows, nets).value;
    AllocateFills(peers, rows, nets);
    if Clear(peers, rows, nets) {
      DistinctSlotsAreApart(peers, rows);
      FittingIsApart(peers, rows, nets, out);
      forall k | k in out
        ensures Routable(out[k], nets)
      {
        GivenIsRoutable(peers, rows, nets, out, k);
      }
    } else {
      var h :| InReach(peers, rows, nets, h) && !Fits(peers, rows, nets, h);
      MisfitShows(peers, rows, nets, out, h);
    }
  }

  lemma GivenIsRoutable(peers: seq<Key>, rows: Rows, nets: Nets, out: Rows, k: Key)
    requires nets.Valid() && Filled(peers, rows, nets, out) && Clear(peers, rows, nets)
    requires k in peers && Routable(RowOf(rows, k), nets)
    ensures Routable(out[k], nets)
  {
    if k in BlankPeers(peers, rows) {
      var h := GivenTo(peers, rows, nets, out, k);
      assert Fits(peers, rows, nets, h);
      Unroutable(out[k], nets, h);
    }
  }

  /** For distinct peers with no rows but theirs, on any hub: the filter drops nothing of
      what the door saved, and the door takes it again as it is, exactly when every free
      address the search comes to fits beside the typed rows. */
  lemma DoorAndFilterAgree(peers: seq<Key>, rows: Rows, nets: Nets)
    requires nets.Valid() && Distinct(peers)
    requires forall k :: k in rows ==> k in peers
    requires Allocate(peers, rows, nets).Some?
    ensures var out := Allocate(peers, rows, nets).value;
      && (Honored(out, nets) == out <==> Clear(peers, rows, nets))
      && (Allocate(peers, out, nets) == Some(out) <==> Clear(peers, rows, nets))
  {
    var out := Allocate(peers, rows, nets).value;
    DoorPromises(peers, rows, nets);
    ClearIsSound(peers, rows, nets);
    DistinctSlotsAreApart(peers, out);
    FilterKeepsApart(peers, out, nets);
    assert forall k :: k in peers ==> RowOf(out, k) == out[k];
  }

  lemma FilterKeepsApart(peers: seq<Key>, out: Rows, nets: Nets)
    requires nets.Valid() && forall k :: k in out <==> k in peers
    ensures Honored(out, nets) == out <==> (forall k :: k in out ==> Routable(out[k], nets)) && Apart(peers, out)
  {
    if Honored(out, nets) == out {
      forall k | k in out
        ensures InForce(out, nets, k)
      {
        assert k in Honored(out, nets);
      }
    }
    if forall k :: k in out ==> Routable(out[k], nets) {
      InForceIsApart(peers, out, nets);
    }
  }

  lemma InForceIsApart(peers: seq<Key>, out: Rows, nets: Nets)
    requires nets.Valid() && forall k :: k in out <==> k in peers
    requires forall k :: k in out ==> Routable(out[k], nets)
    ensures Honored(out, nets) == out <==> Apart(peers, out)
  {
    forall k, a | k in out
      ensures NamedBeside(peers, out, k, a) <==> ClaimedBeside(out, nets, k, a)
    {
      if NamedBeside(peers, out, k, a) {
        var j :| j in peers && j != k && a in Named(RowOf(out, j));
        assert j in out && Routable(out[j], nets) && a in Named(out[j]);
      }
      if ClaimedBeside(out, nets, k, a) {
        var j :| j in out && j != k && Routable(out[j], nets) && a in Named(out[j]);
        assert j in peers && a in Named(RowOf(out, j));
      }
    }
    if Honored(out, nets) == out {
      forall k | k in peers
        ensures Distinct(Named(RowOf(out, k))) && SharesNothing(peers, out, k)
      {
        assert k in Honored(out, nets);
        assert InForce(out, nets, k);
      }
    }
    if Apart(peers, out) {
      forall k | k in out
        ensures InForce(out, nets, k)
      {
        assert SharesNothing(peers, out, k);
      }
      assert Honored(out, nets) == out;
    }
  }

  ghost predicate NothingMappedInReach(peers: seq<Key>, rows: Rows, nets: Nets)
    requires nets.Valid()
  {
    forall h :: InReach(peers, rows, nets, h) ==> !Mapped(h)
  }

  /** Where the search comes to no mapped address, the two agree exactly when it comes to
      none that a typed row spells in another way. */
  lemma ClearIffNotNamed(peers: seq<Key>, rows: Rows, nets: Nets)
    requires nets.Valid() && NothingMappedInReach(peers, rows, nets)
    ensures Clear(peers, rows, nets) <==> forall k, u :: k in rows && u in Named(rows[k]) ==> !InReach(peers, rows, nets, u)
  {
    forall h | InReach(peers, rows, nets, h)
      ensures Unmap(h) == h && Assignable(h, nets)
    {
      assert h !in nets.self;
    }
    forall k, u | k in rows && u in Named(rows[k]) && InReach(peers, rows, nets, u)
      ensures !Clear(peers, rows, nets)
    {
      assert !Fits(peers, rows, nets, u);
    }
  }

  lemma UnmappedIsClear(peers: seq<Key>, rows: Rows, nets: Nets)
    requires nets.Valid() && WrittenUnmapped(rows) && NothingMappedInReach(peers, rows, nets)
    ensures Clear(peers, rows, nets)
  {
    forall k, u | k in rows && u in Named(rows[k])
      ensures u in Taken(rows, nets.self)
    {
      var i :| 0 <= i < |Named(rows[k])| && Named(rows[k])[i] == u;
      assert rows[k].list[i] in rows[k].list;
    }
    ClearIffNotNamed(peers, rows, nets);
  }

  /** The exception is real: beside a row typed ::ffff:a, the door hands a to a blank
      row, and the filter then drops both. */
  lemma MappedRowCollides()
    ensures var nets := Nets([Prefix(V4(8), 29)], [V4(9)]);
      var rows := map["a" := Addrs([V6(MAPPED_BASE + 10)])];
      && nets.Valid()
      && Allocate(["a", "b"], rows, nets) == Some(rows["b" := Addrs([V4(10)])])
      && Honored(rows["b" := Addrs([V4(10)])], nets) == map[]
  {
    var p := Prefix(V4(8), 29);
    var nets := Nets([p], [V4(9)]);
    var mapped := V6(MAPPED_BASE + 10);
    var rows := map["a" := Addrs([mapped])];
    var out := rows["b" := Addrs([V4(10)])];
    SmallSubnet(p, mapped);
    assert nets.Valid();
    assert p in nets.prefixes;
    assert Assignable(mapped, nets) && Assignable(V4(10), nets);
    assert Named(rows["a"]) == [V4(10)] && Named(out["a"]) == [V4(10)] && Named(out["b"]) == [V4(10)];
    TenIsGiven(p, nets, rows);
    BothDropped(out, nets);
  }

  lemma TenIsGiven(p: Prefix, nets: Nets, rows: Rows)
    requires nets.Valid() && nets == Nets([p], [V4(9)]) && p == Prefix(V4(8), 29) && p.Block() == 8
    requires HandsOut(p, V4(10)) && !HandsOut(p, V4(8))
    requires rows == map["a" := Addrs([V6(MAPPED_BASE + 10)])] && Named(rows["a"]) == [V4(10)]
    requires Assignable(V4(10), nets)
    ensures Allocate(["a", "b"], rows, nets) == Some(rows["b" := Addrs([V4(10)])])
  {
    var out := rows["b" := Addrs([V4(10)])];
    OneRowAdmitted(["a", "b"], rows, nets, V4(10));
    var taken := Taken(rows, nets.self);
    assert V4(9) in nets.self && V4(9) in taken && V4(10) !in taken;
    TenIsNext(p, taken);
    var peers := ["a", "b"];
    assert peers[1..] == ["b"] && peers[1..][1..] == [];
    assert AssignAll(peers[1..], rows, taken, nets.prefixes) == Some(out);
  }

  lemma TenIsNext(p: Prefix, taken: set<Addr>)
    requires p.IsMasked() && p.addr == V4(8) && p.Block() == 8
    requires HandsOut(p, V4(10)) && !HandsOut(p, V4(8))
    requires V4(9) in taken && V4(10) !in taken
    ensures NextFree([p], taken) == Some(V4(10))
  {
    assert FreeFrom(p, taken, 10) == Some(V4(10));
    assert FreeFrom(p, taken, 9) == Some(V4(10));
  }

  lemma BothDropped(out: Rows, nets: Nets)
    requires nets.Valid() && out.Keys == {"a", "b"}
    requires forall k :: k in out ==> Named(out[k]) == [V4(10)] && Routable(out[k], nets)
    ensures Honored(out, nets) == map[]
  {
    forall k | k in out
      ensures !InForce(out, nets, k)
    {
      var j := if k == "a" then "b" else "a";
      assert j in out && j != k && V4(10) in Named(out[j]) && V4(10) in Named(out[k]);
      assert ClaimedBeside(out, nets, k, V4(10));
    }
  }

  lemma SmallSubnet(p: Prefix, mapped: Addr)
    requires p == Prefix(V4(8), 29) && mapped == V6(MAPPED_BASE + 10)
    ensures p.Valid() && p.IsMasked() && p.Block() == 8 && Unmap(mapped) == V4(10)
    ensures HandsOut(p, V4(10)) && HandsOut(p, V4(9)) && !HandsOut(p, V4(8))
  {
    assert Pow2(1) == 2 && Pow2(2) == 4 && p.Block() == 8;
    Pow2Monotone(4, 32);
    assert Pow2(4) == 16;
  }

  lemma OneRowAdmitted(peers: seq<Key>, rows: Rows, nets: Nets, a: Addr)
    requires nets.Valid() && |peers| == 2
    requires RowOf(rows, peers[0]).Addrs? && Named(RowOf(rows, peers[0])) == [a] && RowOf(rows, peers[1]) == Blank
    requires Assignable(a, nets)
    ensures Admissible(peers, rows, nets)
  {
    SlotsOfPair(peers, rows);
    assert Slots(peers, rows) == [a];
    OneRowRoutable(RowOf(rows, peers[0]), nets, a);
    assert Routable(Blank, nets);
    assert forall k :: k in peers ==> k == peers[0] || k == peers[1];
  }

  lemma OneRowRoutable(row: Row, nets: Nets, a: Addr)
    requires nets.Valid() && row.Addrs? && Named(row) == [a] && Assignable(a, nets)
    ensures Routable(row, nets)
  {
  }

  lemma SlotsOfPair(peers: seq<Key>, rows: Rows)
    requires |peers| == 2
    ensures Slots(peers, rows) == Named(RowOf(rows, peers[0])) + Named(RowOf(rows, peers[1]))
  {
    assert peers[..1][..0] == [] && peers[..1][0] == peers[0];
    assert Slots(peers[..1], rows) == [] + Named(RowOf(rows, peers[0]));
  }
}
