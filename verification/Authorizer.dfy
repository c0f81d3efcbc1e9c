/** The per-registration check (tunnel/tun_authorizer.go): a spoke may hold exactly the
    addresses its own row assigns. */
module Authorizer {
  import opened Common
  import opened Net
  import opened Sorting
  import opened Strings
  import opened TunIP
  import opened Assignment

  type Table = map<Key, seq<Addr>>

  /** The assignment the authorizer holds: a row that does not parse is left out. */
  function Loaded(rows: Rows): Table {
    map k | k in rows && !rows[k].Malformed? :: Named(rows[k])
  }

  /** A claimed address off the wire; None is one that is not 4 or 16 bytes long. */
  type Claimed = Option<Addr>

  function Canonical(ips: seq<Claimed>): seq<Addr>
    requires forall i :: 0 <= i < |ips| ==> ips[i].Some?
  {
    seq(|ips|, i requires 0 <= i < |ips| => Unmap(ips[i].value))
  }

  /** The claim is the row's addresses in some order, and the row repeats none. */
  ghost predicate MayHold(table: Table, peer: Key, ips: seq<Claimed>) {
    && peer in table
    && (forall i :: 0 <= i < |ips| ==> ips[i].Some?)
    && multiset(Canonical(ips)) == multiset(table[peer])
    && Distinct(table[peer])
  }

  ghost function Elements(s: seq<Addr>): set<Addr> {
    set a | a in s
  }

  lemma {:induction false} ElementsSize(s: seq<Addr>)
    ensures |Elements(s)| <= |s|
    ensures |Elements(s)| == |s| <==> Distinct(s)
  {
    if s != [] {
      var n := |s| - 1;
      ElementsSize(s[..n]);
      OneMoreElement(s[..n], s[n]);
      assert s == s[..n] + [s[n]];
    }
  }

  lemma OneMoreElement(s: seq<Addr>, a: Addr)
    ensures Elements(s + [a]) == Elements(s) + {a}
    ensures |Elements(s + [a])| == |Elements(s)| + if a in s then 0 else 1
    ensures Distinct(s + [a]) <==> Distinct(s) && a !in s
  {
    var t := s + [a];
    assert Elements(t) == Elements(s) + {a};
    if a in s {
      assert Elements(t) == Elements(s);
      var i :| 0 <= i < |s| && s[i] == a;
      assert t[i] == t[|s|];
    } else {
      assert forall i :: 0 <= i < |s| ==> t[i] == s[i];
    }
  }

  /** Same length, no repeats in the claim, and every claimed address wanted: then the
      claim is a rearrangement of what is wanted, and that repeats nothing either. */
  lemma SweepIsPermutation(want: seq<Addr>, claim: seq<Addr>)
    requires |want| == |claim| && Distinct(claim)
    requires forall a :: a in claim ==> a in want
    ensures multiset(claim) == multiset(want) && Distinct(want)
  {
    ElementsSize(claim);
    ElementsSize(want);
    SubsetSize(Elements(claim), Elements(want));
    assert Elements(claim) == Elements(want);
    forall a
      ensures multiset(claim)[a] == multiset(want)[a]
    {
      OnceCounts(claim, a);
      OnceCounts(want, a);
      assert a in Elements(claim) <==> a in multiset(claim);
      assert a in Elements(want) <==> a in multiset(want);
    }
  }

  lemma SubsetSize(a: set<Addr>, b: set<Addr>)
    requires a <= b
    ensures |a| <= |b| && (|a| == |b| ==> a == b)
  {
    assert b == a + (b - a);
    assert |b| == |a| + |b - a|;
  }

  // ---- The member list

  /** One address of a member, as it is written. */
  datatype MemberEntry = MemberEntry(ip: string, key: Key)

  predicate EntryBefore(a: MemberEntry, b: MemberEntry) {
    if a.key != b.key then Before(a.key, b.key) else Before(a.ip, b.ip)
  }

  lemma EntryBeforeIsTotal()
    ensures StrictTotal(EntryBefore)
  {
    forall a: MemberEntry, b: MemberEntry, c: MemberEntry
      ensures !EntryBefore(a, a) && (a == b || EntryBefore(a, b) || EntryBefore(b, a))
      ensures EntryBefore(a, b) && EntryBefore(b, c) ==> EntryBefore(a, c)
      ensures EntryBefore(a, c) ==> EntryBefore(a, b) || EntryBefore(b, c)
    {
      BeforeTransitive(a.key, b.key, c.key);
      BeforeTransitive(b.key, a.key, c.key);
      BeforeTransitive(a.ip, b.ip, c.ip);
    }
  }

  function RowEntries(key: Key, ips: seq<Addr>, show: Addr -> string): (es: seq<MemberEntry>)
    ensures |es| == |ips| && forall i :: 0 <= i < |es| ==> es[i] == MemberEntry(show(ips[i]), key)
  {
    seq(|ips|, i requires 0 <= i < |ips| => MemberEntry(show(ips[i]), key))
  }

  ghost function HowOften(e: MemberEntry, table: Table, peers: set<Key>, show: Addr -> string): nat {
    if e.key in peers && e.key in table then multiset(RowEntries(e.key, table[e.key], show))[e] else 0
  }

  /** The entries of the given peers' rows, each as often as the row has it. */
  ghost predicate Lists(es: seq<MemberEntry>, table: Table, peers: set<Key>, show: Addr -> string) {
    forall e :: multiset(es)[e] == HowOften(e, table, peers, show)
  }

  lemma OneMorePeer(es: seq<MemberEntry>, table: Table, peers: set<Key>, show: Addr -> string, k: Key)
    requires Lists(es, table, peers, show) && k in table && k !in peers
    ensures Lists(es + RowEntries(k, table[k], show), table, peers + {k}, show)
  {
    var row := RowEntries(k, table[k], show);
    forall e
      ensures multiset(es + row)[e] == HowOften(e, table, peers + {k}, show)
    {
      if e.key != k {
        assert e !in row;
        assert e !in multiset(row);
      }
    }
  }

  /** The list a registration publishes depends on the assignment alone, not on the order
      in which its map was walked: an unchanged assignment is an unchanged list. */
  lemma MembersAreCanonical(es: seq<MemberEntry>, fs: seq<MemberEntry>, table: Table, show: Addr -> string)
    requires Lists(es, table, table.Keys, show) && Sorted(EntryBefore, es)
    requires Lists(fs, table, table.Keys, show) && Sorted(EntryBefore, fs)
    ensures es == fs
  {
    EntryBeforeIsTotal();
    assert multiset(es) == multiset(fs) by {
      forall e ensures multiset(es)[e] == multiset(fs)[e] {
      }
    }
    SortedRearrangementIsUnique(EntryBefore, es, fs);
  }

  class SpokeAuthorizer {
    var table: Option<Table>

    constructor ()
      ensures table == None
    {
      table := None;
    }

    method Set(rows: Rows)
      modifies this
      ensures table == Some(Loaded(rows))
    {
      var parsed: Table := map[];
      var todo := rows.Keys;
      while todo != {}
        invariant todo <= rows.Keys
        invariant forall k :: k in parsed <==> k in rows && k !in todo && !rows[k].Malformed?
        invariant forall k :: k in parsed ==> parsed[k] == Named(rows[k])
        decreases todo
      {
        var peer :| peer in todo;
        todo := todo - {peer};
        var addrs := Parse(rows[peer]);
        if addrs.None? {
          continue;
        }
        assert UnmapAll(addrs.value) == Named(rows[peer]);
        parsed := parsed[peer := UnmapAll(addrs.value)];
      }
      assert parsed == Loaded(rows);
      table := Some(parsed);
    }

    /** Gathered in whatever order the map gives, and sorted. */
    method Members(show: Addr -> string) returns (out: seq<MemberEntry>)
      ensures table.None? ==> out == []
      ensures table.Some? ==> Lists(out, table.value, table.value.Keys, show) && Sorted(EntryBefore, out)
    {
      if table.None? {
        return [];
      }
      var gathered := [];
      var todo := table.value.Keys;
      ghost var done: set<Key> := {};
      while todo != {}
        invariant todo + done == table.value.Keys && todo !! done
        invariant Lists(gathered, table.value, done, show)
        decreases todo
      {
        var peer :| peer in todo;
        OneMorePeer(gathered, table.value, done, show, peer);
        gathered := gathered + RowEntries(peer, table.value[peer], show);
        todo, done := todo - {peer}, done + {peer};
      }
      assert done == table.value.Keys;
      EntryBeforeIsTotal();
      out := Sort(EntryBefore, gathered);
    }

    /** The length first, then a sweep in which each claimed address uses one up. */
    method Authorize(live: bool, peer: Key, ips: seq<Claimed>) returns (ok: bool)
      ensures ok <==> live && table.Some? && MayHold(table.value, peer, ips)
    {
      if !live || table == None || peer !in table.value {
        return false;
      }
      var want := table.value[peer];
      var claim := [];
      for i := 0 to |ips|
        invariant forall j :: 0 <= j < i ==> ips[j].Some?
        invariant claim == Canonical(ips[..i])
      {
        if ips[i].None? {
          return false;
        }
        claim := claim + [Unmap(ips[i].value)];
      }
      assert ips[..|ips|] == ips;
      ok := SameAddresses(want, claim);
    }
  }

  method SameAddresses(want: seq<Addr>, claim: seq<Addr>) returns (ok: bool)
    ensures ok <==> multiset(claim) == multiset(want) && Distinct(want)
  {
    if |want| != |claim| {
      assert |multiset(want)| != |multiset(claim)|;
      return false;
    }
    var left := {};
    for i := 0 to |want|
      invariant left == Elements(want[..i])
    {
      assert want[..i + 1] == want[..i] + [want[i]];
      left := left + {want[i]};
    }
    assert want[..|want|] == want;
    for i := 0 to |claim|
      invariant Distinct(claim[..i])
      invariant forall a :: a in claim[..i] ==> a in want
      invariant left == Elements(want) - Elements(claim[..i])
    {
      assert claim[..i + 1] == claim[..i] + [claim[i]];
      if claim[i] !in left {
        MissedMeansNot(want, claim, i);
        return false;
      }
      left := left - {claim[i]};
    }
    assert claim[..|claim|] == claim;
    SweepIsPermutation(want, claim);
    return true;
  }

  lemma MissedMeansNot(want: seq<Addr>, claim: seq<Addr>, i: nat)
    requires i < |claim| && claim[i] !in Elements(want) - Elements(claim[..i])
    ensures !(multiset(claim) == multiset(want) && Distinct(want))
  {
    assert claim[i] in claim;
    if claim[i] in claim[..i] {
      assert exists j :: 0 <= j < i && claim[j] == claim[i];
      assert !Distinct(claim);
    } else {
      assert claim[i] !in want;
    }
    if multiset(claim) == multiset(want) {
      SameElems(want, claim);
    }
  }

  /** For any rows at all, once the hub has filtered and loaded them: two different
      peers are never both authorized for one address. */
  lemma OneHolderPerAddress(rows: Rows, nets: Nets, p: Key, q: Key, ps: seq<Claimed>, qs: seq<Claimed>, a: Addr)
    requires nets.Valid() && p != q
    requires MayHold(Loaded(Honored(rows, nets)), p, ps) && MayHold(Loaded(Honored(rows, nets)), q, qs)
    ensures !(a in Canonical(ps) && a in Canonical(qs))
  {
    SameElems(Canonical(ps), Named(rows[p]));
    SameElems(Canonical(qs), Named(rows[q]));
    assert InForce(rows, nets, p) && InForce(rows, nets, q);
    if a in Canonical(qs) {
      assert ClaimedBeside(rows, nets, p, a);
    }
  }

  /** Filtering an assignment changes no answer the authorizer gives to a peer whose
      row was kept, and refuses every claim of the others. */
  lemma FilterOnlyRefuses(rows: Rows, nets: Nets, p: Key, ps: seq<Claimed>)
    requires nets.Valid()
    ensures MayHold(Loaded(Honored(rows, nets)), p, ps) <==> InForce(rows, nets, p) && MayHold(Loaded(rows), p, ps)
  {
  }

  // ---- In terms of the rows

  /** The assignment is the rows that parse: a blank one is there with no address, and every
      address is unmapped. */
  lemma LoadedIsUnmapped(rows: Rows, k: Key)
    ensures k in Loaded(rows) <==> k in rows && !rows[k].Malformed?
    ensures k in Loaded(rows) && rows[k].Blank? ==> Loaded(rows)[k] == []
    ensures k in Loaded(rows) && rows[k].Addrs? ==> |Loaded(rows)[k]| == |rows[k].list|
    ensures k in Loaded(rows) && rows[k].Addrs? ==> forall i :: 0 <= i < |rows[k].list| ==> Loaded(rows)[k][i] == Unmap(rows[k].list[i])
  {
  }

  predicate SameAddress(a: Addr, b: Addr) {
    Unmap(a) == Unmap(b)
  }

  /** The address is one of the row's, in one spelling or another. */
  predicate InRow(row: Row, a: Addr) {
    row.Addrs? && exists b :: b in row.list && SameAddress(a, b)
  }

  /** A claim holds exactly if the peer has a row that parses; the claim has as many
      addresses, each one readable and, in one spelling or another, one of the row's; and it
      has none twice. */
  lemma HeldIsExact(rows: Rows, peer: Key, ips: seq<Claimed>)
    ensures MayHold(Loaded(rows), peer, ips) <==>
      && peer in rows && !rows[peer].Malformed?
      && |ips| == (if rows[peer].Addrs? then |rows[peer].list| else 0)
      && (forall i :: 0 <= i < |ips| ==> ips[i].Some?)
      && (forall i :: 0 <= i < |ips| ==> InRow(rows[peer], ips[i].value))
      && (forall i, j :: 0 <= i < j < |ips| ==> !SameAddress(ips[i].value, ips[j].value))
  {
    if peer in rows && !rows[peer].Malformed? && forall i :: 0 <= i < |ips| ==> ips[i].Some? {
      LoadedIsUnmapped(rows, peer);
      ClaimAndRow(Loaded(rows)[peer], Canonical(ips));
      forall i | 0 <= i < |ips|
        ensures Canonical(ips)[i] in Loaded(rows)[peer] <==> InRow(rows[peer], ips[i].value)
      {
        RowsAddress(rows[peer], Loaded(rows)[peer], ips[i].value);
      }
    }
  }

  lemma ClaimAndRow(want: seq<Addr>, claim: seq<Addr>)
    ensures multiset(claim) == multiset(want) && Distinct(want) <==>
      && |claim| == |want|
      && (forall i :: 0 <= i < |claim| ==> claim[i] in want)
      && (forall i, j :: 0 <= i < j < |claim| ==> claim[i] != claim[j])
  {
    if multiset(claim) == multiset(want) && Distinct(want) {
      SameElems(want, claim);
      assert |multiset(claim)| == |claim| && |multiset(want)| == |want|;
      forall a | a in want
        ensures a in claim
      {
        assert a in multiset(claim);
      }
      SweepIsPermutation(claim, want);
    } else if |claim| == |want| && Distinct(claim) && forall a :: a in claim ==> a in want {
      SweepIsPermutation(want, claim);
    }
  }

  lemma RowsAddress(row: Row, want: seq<Addr>, a: Addr)
    requires |want| == (if row.Addrs? then |row.list| else 0)
    requires row.Addrs? ==> forall i :: 0 <= i < |row.list| ==> want[i] == Unmap(row.list[i])
    ensures Unmap(a) in want <==> InRow(row, a)
  {
    if Unmap(a) in want {
      var j :| 0 <= j < |want| && want[j] == Unmap(a);
      assert row.list[j] in row.list;
    }
    if InRow(row, a) {
      var b :| b in row.list && SameAddress(a, b);
      var j :| 0 <= j < |row.list| && row.list[j] == b;
      assert want[j] == Unmap(a);
    }
  }

  /** The listing goes by key, and for one key by the address's text. */
  lemma MembersAreInOrder(es: seq<MemberEntry>, i: nat, j: nat)
    requires Sorted(EntryBefore, es) && i < j < |es|
    ensures es[i].key == es[j].key || Before(es[i].key, es[j].key)
    ensures es[i].key == es[j].key ==> es[i].ip == es[j].ip || Before(es[i].ip, es[j].ip)
  {
    assert !EntryBefore(es[j], es[i]);
    BeforeIsTotal();
  }
}
