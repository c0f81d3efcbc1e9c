/** The hub's address allocator (tunnel/tunip.go): which addresses a subnet hands out,
    the search for the next free one, and filling the rows that name none. */
module TunIP {
  import opened Common
  import opened Net
  import opened LastAddr

  type Key = string

  /** An allowlist row: no address, a list of them, or text that is neither. */
  datatype Row = Blank | Addrs(list: seq<Addr>) | Malformed(text: string)

  type Rows = map<Key, Row>

  /** parsePeerIPs: a blank row names nothing, a malformed one does not parse. */
  function Parse(row: Row): Option<seq<Addr>> {
    match row
    case Blank => Some([])
    case Addrs(list) => Some(list)
    case Malformed(_) => None
  }

  /** A missing row reads as a blank one. */
  function RowOf(rows: Rows, peer: Key): Row {
    if peer in rows then rows[peer] else Blank
  }

  /** The hub's subnets, and the address it holds itself in each. */
  datatype Nets = Nets(prefixes: seq<Prefix>, self: seq<Addr>) {
    predicate Valid() {
      && |prefixes| == |self|
      && (forall p :: p in prefixes ==> p.Valid() && p.IsMasked())
      && (forall a :: a in self ==> !Mapped(a))
    }
  }

  // ---- What a subnet hands out

  predicate HasNetworkAddr(p: Prefix) { p.bits < 31 }

  predicate HasBroadcastAddr(p: Prefix) { p.addr.V4? && p.bits < 30 }

  predicate Reserved(p: Prefix, a: Addr)
    requires p.IsMasked()
  {
    p.Contains(a) && ((HasNetworkAddr(p) && a == p.addr) || (HasBroadcastAddr(p) && a == p.Last()))
  }

  predicate HandsOut(p: Prefix, a: Addr)
    requires p.IsMasked()
  {
    p.Contains(a) && !Reserved(p, a)
  }

  function At(p: Prefix, v: nat): Addr {
    if p.addr.V4? then V4(v) else V6(v)
  }

  // ---- The least free address

  /** The least address of p from number v up that p hands out and nothing has taken. */
  function FreeFrom(p: Prefix, taken: set<Addr>, v: nat): Option<Addr>
    requires p.IsMasked() && p.addr.v <= v <= p.addr.v + p.Block()
    decreases p.addr.v + p.Block() - v
  {
    if v == p.addr.v + p.Block() then None
    else if HandsOut(p, At(p, v)) && At(p, v) !in taken then Some(At(p, v))
    else FreeFrom(p, taken, v + 1)
  }

  function FreeIn(p: Prefix, taken: set<Addr>): Option<Addr>
    requires p.IsMasked()
  {
    FreeFrom(p, taken, p.addr.v)
  }

  /** From the first subnet that has one. */
  function NextFree(prefixes: seq<Prefix>, taken: set<Addr>): Option<Addr>
    requires forall p :: p in prefixes ==> p.IsMasked()
  {
    if prefixes == [] then None
    else if FreeIn(prefixes[0], taken).Some? then FreeIn(prefixes[0], taken)
    else NextFree(prefixes[1..], taken)
  }

  lemma {:induction false} FreeFromIsLeast(p: Prefix, taken: set<Addr>, v: nat)
    requires p.IsMasked() && p.addr.v <= v <= p.addr.v + p.Block()
    ensures match FreeFrom(p, taken, v)
      case Some(a) => HandsOut(p, a) && a !in taken && forall b :: HandsOut(p, b) && v <= b.v < a.v ==> b in taken
      case None => forall b :: HandsOut(p, b) && v <= b.v ==> b in taken
    decreases p.addr.v + p.Block() - v
  {
    forall b: Addr | p.Contains(b)
      ensures b.v < p.addr.v + p.Block()
    {
      ContainsIsInterval(p, b);
    }
    if v == p.addr.v + p.Block() {
    } else if !(HandsOut(p, At(p, v)) && At(p, v) !in taken) {
      FreeFromIsLeast(p, taken, v + 1);
      forall b | HandsOut(p, b) && b.v == v
        ensures b == At(p, v)
      {
      }
    }
  }

  /** a is the least address p hands out that is free. */
  ghost predicate LeastFree(p: Prefix, taken: set<Addr>, a: Addr)
    requires p.IsMasked()
  {
    HandsOut(p, a) && a !in taken && forall b :: HandsOut(p, b) && b.v < a.v ==> b in taken
  }

  ghost predicate Exhausted(p: Prefix, taken: set<Addr>)
    requires p.IsMasked()
  {
    forall b :: HandsOut(p, b) ==> b in taken
  }

  /** Prefix i is not exhausted, if the prefixes before it are. */
  ghost predicate FirstWithFree(prefixes: seq<Prefix>, taken: set<Addr>, i: int)
    requires forall p :: p in prefixes ==> p.IsMasked()
  {
    0 <= i < |prefixes| && forall j :: 0 <= j < i ==> Exhausted(prefixes[j], taken)
  }

  /** The search returns the least free address of the first subnet that has one, and
      none exactly when every address every subnet hands out is taken. */
  lemma {:induction false} NextFreeIsExact(prefixes: seq<Prefix>, taken: set<Addr>)
    requires forall p :: p in prefixes ==> p.IsMasked()
    ensures match NextFree(prefixes, taken)
      case Some(a) => exists i :: FirstWithFree(prefixes, taken, i) && LeastFree(prefixes[i], taken, a)
      case None => forall p :: p in prefixes ==> Exhausted(p, taken)
  {
    if prefixes != [] {
      var p := prefixes[0];
      FreeFromIsLeast(p, taken, p.addr.v);
      forall b | HandsOut(p, b)
        ensures b.v >= p.addr.v
      {
        ContainsIsInterval(p, b);
      }
      if FreeIn(p, taken).Some? {
        assert FirstWithFree(prefixes, taken, 0) && LeastFree(prefixes[0], taken, FreeIn(p, taken).value);
      } else {
        assert Exhausted(p, taken);
        NextFreeIsExact(prefixes[1..], taken);
        if NextFree(prefixes, taken).Some? {
          var a := NextFree(prefixes, taken).value;
          var i :| FirstWithFree(prefixes[1..], taken, i) && LeastFree(prefixes[1..][i], taken, a);
          assert LeastFree(prefixes[i + 1], taken, a);
          forall j | 0 <= j < i + 1
            ensures Exhausted(prefixes[j], taken)
          {
            assert j > 0 ==> prefixes[j] == prefixes[1..][j - 1];
          }
          assert FirstWithFree(prefixes, taken, i + 1);
        }
      }
    }
  }

  // ---- The search as it is written

  /** netip's Next: the address after a, if the family has one. */
  function NextAddr(a: Addr): Option<Addr> {
    if a.v + 1 < Pow2(a.Width()) then Some(if a.V4? then V4(a.v + 1) else V6(a.v + 1)) else None
  }

  /** Where the walk of p stands at number v: past the family's end there is none. */
  function WalkAt(p: Prefix, v: nat): Option<Addr> {
    if v < Pow2(p.addr.Width()) then Some(At(p, v)) else None
  }

  /** One turn of the walk: an address the subnet keeps or something has taken is passed
      over, any other is the answer. */
  lemma WalkStep(p: Prefix, taken: set<Addr>, v: nat, a: Addr)
    requires p.Valid() && p.IsMasked() && WalkAt(p, v) == Some(a) && p.Contains(a)
    requires p.addr.v <= v && (HasNetworkAddr(p) ==> p.addr.v < v)
    ensures v < p.addr.v + p.Block() && NextAddr(a) == WalkAt(p, v + 1)
    ensures FreeFrom(p, taken, v) ==
      if (a == p.Last() && HasBroadcastAddr(p)) || a in taken then FreeFrom(p, taken, v + 1) else Some(a)
  {
    ContainsIsInterval(p, a);
  }

  lemma WalkStarts(p: Prefix, taken: set<Addr>)
    requires p.Valid() && p.IsMasked()
    ensures WalkAt(p, p.addr.v) == Some(p.addr) && p.addr.v + p.Block() <= Pow2(p.addr.Width())
    ensures HasNetworkAddr(p) ==> NextAddr(p.addr) == WalkAt(p, p.addr.v + 1)
    ensures HasNetworkAddr(p) ==> FreeIn(p, taken) == FreeFrom(p, taken, p.addr.v + 1)
  {
    BlockFits(p);
    ContainsIsInterval(p, p.addr);
  }

  lemma WalkEnds(p: Prefix, taken: set<Addr>, v: nat)
    requires p.Valid() && p.IsMasked() && p.addr.v <= v <= p.addr.v + p.Block()
    requires WalkAt(p, v).None? || !p.Contains(At(p, v))
    ensures FreeFrom(p, taken, v) == None
  {
    BlockFits(p);
    ContainsIsInterval(p, At(p, v));
  }

  method FreeAddrIn(p: Prefix, taken: set<Addr>) returns (r: Option<Addr>)
    requires p.Valid() && p.IsMasked()
    ensures r == FreeIn(p, taken)
  {
    var last := LastAddrIn(p);
    WalkStarts(p, taken);
    var addr := Some(p.addr);
    ghost var v := p.addr.v;
    if HasNetworkAddr(p) {
      addr := NextAddr(p.addr);
      v := v + 1;
    }
    while addr.Some? && p.Contains(addr.value)
      invariant p.addr.v <= v <= p.addr.v + p.Block()
      invariant FreeIn(p, taken) == FreeFrom(p, taken, v)
      invariant HasNetworkAddr(p) ==> v > p.addr.v
      invariant addr == WalkAt(p, v)
      decreases p.addr.v + p.Block() - v
    {
      WalkStep(p, taken, v, addr.value);
      if addr.value == last && HasBroadcastAddr(p) {
        addr := NextAddr(addr.value);
        v := v + 1;
        continue;
      }
      if addr.value in taken {
        addr := NextAddr(addr.value);
        v := v + 1;
        continue;
      }
      return addr;
    }
    WalkEnds(p, taken, v);
    return None;
  }

  method NextFreeAddr(prefixes: seq<Prefix>, taken: set<Addr>) returns (r: Option<Addr>)
    requires forall p :: p in prefixes ==> p.Valid() && p.IsMasked()
    ensures r == NextFree(prefixes, taken)
  {
    for i := 0 to |prefixes|
      invariant NextFree(prefixes, taken) == NextFree(prefixes[i..], taken)
    {
      r := FreeAddrIn(prefixes[i], taken);
      if r.Some? {
        return;
      }
      assert prefixes[i..][1..] == prefixes[i + 1..];
    }
    return None;
  }

  // ---- Validating a typed address

  /** The address, unmapped, is not the hub's own and some subnet hands it out. */
  predicate Assignable(a: Addr, nets: Nets)
    requires nets.Valid()
  {
    Unmap(a) !in nets.self && exists p :: p in nets.prefixes && HandsOut(p, Unmap(a))
  }

  method ValidatePeerIP(host: Addr, nets: Nets) returns (ok: bool)
    requires nets.Valid()
    ensures ok == Assignable(host, nets)
  {
    var addr := Unmap(host);
    for i := 0 to |nets.self|
      invariant addr !in nets.self[..i]
    {
      if nets.self[i] == addr {
        return false;
      }
      assert nets.self[..i + 1] == nets.self[..i] + [nets.self[i]];
    }
    assert nets.self[..|nets.self|] == nets.self;
    for i := 0 to |nets.prefixes|
      invariant forall j :: 0 <= j < i ==> !HandsOut(nets.prefixes[j], addr)
    {
      var prefix := nets.prefixes[i];
      assert prefix in nets.prefixes;
      if !prefix.Contains(addr) {
        continue;
      }
      if !Reserved(prefix, addr) {
        return true;
      }
    }
    return false;
  }

  // ---- Filling the rows

  /** Rows after the blank ones of `order` are filled in turn; None when one cannot be. */
  function AssignAll(order: seq<Key>, rows: Rows, taken: set<Addr>, prefixes: seq<Prefix>): Option<Rows>
    requires forall p :: p in prefixes ==> p.IsMasked()
  {
    if order == [] then Some(rows)
    else if RowOf(rows, order[0]) != Blank then AssignAll(order[1..], rows, taken, prefixes)
    else
      var a := NextFree(prefixes, taken);
      if a.None? then None
      else AssignAll(order[1..], rows[order[0] := Addrs([a.value])], taken + {a.value}, prefixes)
  }

  /** Every address a row names, as the row writes it, and the hub's own. */
  function Taken(rows: Rows, self: seq<Addr>): set<Addr> {
    (set k, a | k in rows && rows[k].Addrs? && a in rows[k].list :: a) + (set a | a in self)
  }

  method AssignPeerIPs(order: seq<Key>, typed: Rows, nets: Nets) returns (merged: Rows, ok: bool)
    requires nets.Valid()
    ensures (if ok then Some(merged) else None) == AssignAll(order, typed, Taken(typed, nets.self), nets.prefixes)
  {
    merged := typed;
    var taken := CollectTaken(typed, nets.self);
    for i := 0 to |order|
      invariant AssignAll(order, typed, Taken(typed, nets.self), nets.prefixes) == AssignAll(order[i..], merged, taken, nets.prefixes)
    {
      assert order[i..][1..] == order[i + 1..];
      if RowOf(merged, order[i]) != Blank {
        continue;
      }
      if |nets.prefixes| == 0 {
        return merged, false;
      }
      var addr := NextFreeAddr(nets.prefixes, taken);
      if addr.None? {
        return merged, false;
      }
      merged := merged[order[i] := Addrs([addr.value])];
      taken := taken + {addr.value};
    }
    return merged, true;
  }

  method CollectTaken(rows: Rows, self: seq<Addr>) returns (taken: set<Addr>)
    ensures taken == Taken(rows, self)
  {
    taken := {};
    var todo := rows.Keys;
    while todo != {}
      invariant todo <= rows.Keys
      invariant taken == set k, a | k in rows && k !in todo && rows[k].Addrs? && a in rows[k].list :: a
      decreases todo
    {
      var peer :| peer in todo;
      todo := todo - {peer};
      var addrs := Parse(rows[peer]);
      if addrs.Some? {
        taken := taken + set a | a in addrs.value;
      }
    }
    taken := taken + set a | a in self;
  }

  // ---- When filling succeeds

  /** The peers of order whose rows are blank. */
  ghost function BlankPeers(order: seq<Key>, rows: Rows): set<Key> {
    set k | k in order && RowOf(rows, k) == Blank
  }

  ghost function HostsOf(p: Prefix): (s: set<Addr>)
    requires p.IsMasked()
    ensures forall a :: a in s <==> HandsOut(p, a)
  {
    forall a: Addr
      ensures p.Contains(a) ==> p.addr.v <= a.v < p.addr.v + p.Block() && a == At(p, a.v)
    {
      ContainsIsInterval(p, a);
    }
    set v: nat | p.addr.v <= v < p.addr.v + p.Block() && HandsOut(p, At(p, v)) :: At(p, v)
  }

  /** The addresses of the union of the subnets that are handed out and not taken. */
  ghost function FreeSet(prefixes: seq<Prefix>, taken: set<Addr>): (s: set<Addr>)
    requires forall p :: p in prefixes ==> p.IsMasked()
    ensures forall a :: a in s <==> a !in taken && exists p :: p in prefixes && HandsOut(p, a)
  {
    if prefixes == [] then {}
    else HostsOf(prefixes[0]) - taken + FreeSet(prefixes[1..], taken)
  }

  lemma NextFreeIsFree(prefixes: seq<Prefix>, taken: set<Addr>)
    requires forall p :: p in prefixes ==> p.IsMasked()
    ensures NextFree(prefixes, taken).Some? ==> NextFree(prefixes, taken).value in FreeSet(prefixes, taken)
    ensures NextFree(prefixes, taken).None? <==> FreeSet(prefixes, taken) == {}
  {
    NextFreeIsExact(prefixes, taken);
    if NextFree(prefixes, taken).None? {
      assert forall a :: a !in FreeSet(prefixes, taken);
    } else {
      var a := NextFree(prefixes, taken).value;
      var i :| FirstWithFree(prefixes, taken, i) && LeastFree(prefixes[i], taken, a);
      assert prefixes[i] in prefixes;
    }
  }

  /** Filling succeeds exactly when the blank rows are at most as many as the free
      addresses of the union of the subnets. */
  lemma {:induction false} AssignsIffEnough(order: seq<Key>, rows: Rows, taken: set<Addr>, prefixes: seq<Prefix>)
    requires forall p :: p in prefixes ==> p.IsMasked()
    ensures AssignAll(order, rows, taken, prefixes).Some? <==> |BlankPeers(order, rows)| <= |FreeSet(prefixes, taken)|
  {
    if order == [] {
      assert BlankPeers(order, rows) == {};
    } else if RowOf(rows, order[0]) != Blank {
      AssignsIffEnough(order[1..], rows, taken, prefixes);
      assert BlankPeers(order, rows) == BlankPeers(order[1..], rows);
    } else {
      NextFreeIsFree(prefixes, taken);
      var a := NextFree(prefixes, taken);
      if a.Some? {
        AssignsIffEnough(order[1..], rows[order[0] := Addrs([a.value])], taken + {a.value}, prefixes);
        BlankFilled(order, rows, a.value);
        FreeTaken(prefixes, taken, a.value);
      } else {
        assert order[0] in BlankPeers(order, rows);
      }
    }
  }

  lemma BlankFilled(order: seq<Key>, rows: Rows, a: Addr)
    requires order != [] && RowOf(rows, order[0]) == Blank
    ensures |BlankPeers(order, rows)| == |BlankPeers(order[1..], rows[order[0] := Addrs([a])])| + 1
  {
    assert order[0] in BlankPeers(order, rows);
    assert BlankPeers(order[1..], rows[order[0] := Addrs([a])]) == BlankPeers(order, rows) - {order[0]};
  }

  lemma FreeTaken(prefixes: seq<Prefix>, taken: set<Addr>, a: Addr)
    requires forall p :: p in prefixes ==> p.IsMasked()
    requires a in FreeSet(prefixes, taken)
    ensures |FreeSet(prefixes, taken)| == |FreeSet(prefixes, taken + {a})| + 1
  {
    assert FreeSet(prefixes, taken + {a}) == FreeSet(prefixes, taken) - {a};
  }

  predicate HasOwn(self: seq<Addr>, taken: set<Addr>) {
    forall own :: own in self ==> own in taken
  }

  /** With some set of taken addresses, the hub's own among them, the search returns a. */
  ghost predicate Allocatable(a: Addr, nets: Nets)
    requires nets.Valid()
  {
    exists taken: set<Addr> :: HasOwn(nets.self, taken) && NextFree(nets.prefixes, taken) == Some(a)
  }

  /** The typed-address check admits exactly the addresses the search can come to hand
      out on that hub. */
  lemma AssignableIsAllocatable(a: Addr, nets: Nets)
    requires nets.Valid()
    ensures Assignable(a, nets) <==> Allocatable(Unmap(a), nets)
  {
    if Assignable(a, nets) {
      var _ := OnlyFree(Unmap(a), nets.prefixes, nets.self);
    }
    if Allocatable(Unmap(a), nets) {
      var taken: set<Addr> :| HasOwn(nets.self, taken) && NextFree(nets.prefixes, taken) == Some(Unmap(a));
      NextFreeIsFree(nets.prefixes, taken);
    }
  }

  /** Once every other address is taken, the search returns the one left. */
  lemma OnlyFree(a: Addr, prefixes: seq<Prefix>, self: seq<Addr>) returns (taken: set<Addr>)
    requires forall p :: p in prefixes ==> p.IsMasked()
    requires a !in self && exists p :: p in prefixes && HandsOut(p, a)
    ensures HasOwn(self, taken) && NextFree(prefixes, taken) == Some(a)
  {
    taken := FreeSet(prefixes, {}) - {a} + (set own | own in self);
    FreeWithin(prefixes, taken);
    assert a in FreeSet(prefixes, {});
    NextFreeIsFree(prefixes, taken);
  }

  lemma FreeWithin(prefixes: seq<Prefix>, taken: set<Addr>)
    requires forall p :: p in prefixes ==> p.IsMasked()
    ensures FreeSet(prefixes, taken) == FreeSet(prefixes, {}) - taken
  {
  }

  // ---- The network address of an IPv6 subnet

  /** An IPv6 subnet hands out all its addresses but the base, and the base, to the first
      spoke, exactly when it is a /31 or longer. */
  lemma BaseIffLong(p: Prefix, taken: set<Addr>)
    requires p.Valid() && p.IsMasked() && p.addr.V6?
    ensures forall a :: p.Contains(a) ==> (HandsOut(p, a) <==> a != p.addr || p.bits >= 31)
    ensures p.addr !in taken ==> (FreeIn(p, taken) == Some(p.addr) <==> p.bits >= 31)
  {
    FreeFromIsLeast(p, taken, p.addr.v);
    assert At(p, p.addr.v) == p.addr;
  }

  /** A /16 keeps its base. */
  lemma ShortSubnetKeepsBase()
    ensures var p := Prefix(V6(0), 16); p.Valid() && p.IsMasked() && p.Contains(p.addr) && !HandsOut(p, p.addr)
  {
  }
}
