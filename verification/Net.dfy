/** IP addresses and CIDR prefixes, as the arithmetic netip does on them.
    An address is a family and a number; a prefix is an address and a length, and
    containing is having the same family and the same leading bits. */
module Net {
  import opened Common

  datatype Addr = V4(v: nat) | V6(v: nat) {
    /** Bits in an address of this family. */
    function Width(): nat { if V4? then 32 else 128 }

    predicate Valid() { v < Pow2(Width()) }
  }

  /** The first of the 2^32 IPv6 addresses that spell an IPv4 one (::ffff:0.0.0.0). */
  const MAPPED_BASE: nat := 0xffff * Pow2(32)

  predicate Mapped(a: Addr) {
    a.V6? && MAPPED_BASE <= a.v < MAPPED_BASE + Pow2(32)
  }

  function Unmap(a: Addr): (r: Addr)
    ensures !Mapped(r)
    ensures Mapped(a) <==> r != a
    ensures a.Valid() ==> r.Valid()
  {
    if Mapped(a) then V4(a.v - MAPPED_BASE) else a
  }

  /** The mapped addresses are those whose bits above the low 32 are 16 ones. */
  lemma MappedForm(a: Addr)
    ensures Mapped(a) <==> a.V6? && a.v / 0x1_0000_0000 == 0xffff
    ensures Mapped(a) ==> Unmap(a) == V4(a.v % 0x1_0000_0000)
  {
    assert Pow2(8) == 256;
    Pow2Add(8, 8);
    Pow2Add(16, 16);
    assert Pow2(32) == 0x1_0000_0000;
    DivMod(a.v, 0x1_0000_0000);
  }

  datatype Prefix = Prefix(addr: Addr, bits: nat) {
    predicate Valid() { bits <= addr.Width() && addr.Valid() }

    /** How many addresses the prefix spans. */
    function Block(): (d: nat)
      ensures d >= 1
    {
      if bits <= addr.Width() then Pow2(addr.Width() - bits) else 1
    }

    predicate Contains(a: Addr) {
      a.V4? == addr.V4? && a.v / Block() == addr.v / Block()
    }

    /** The host bits are zero. */
    predicate IsMasked() {
      addr.v % Block() == 0
    }

    function Masked(): (r: Prefix)
      ensures r.bits == bits && r.addr.V4? == addr.V4? && r.Block() == Block()
      ensures r.IsMasked() && r.addr.v <= addr.v < r.addr.v + Block()
      ensures r.addr.v / Block() == addr.v / Block()
      ensures Valid() ==> r.Valid()
    {
      DivMod(addr.v, Block());
      var base := addr.v - addr.v % Block();
      Prefix(if addr.V4? then V4(base) else V6(base), bits)
    }

    /** The highest address of a masked prefix. */
    function Last(): Addr
      requires IsMasked()
    {
      if addr.V4? then V4(addr.v + Block() - 1) else V6(addr.v + Block() - 1)
    }
  }

  /** A masked prefix is the aligned interval that starts at its address. */
  lemma ContainsIsInterval(p: Prefix, a: Addr)
    requires p.IsMasked()
    ensures p.Contains(a) <==> a.V4? == p.addr.V4? && p.addr.v <= a.v < p.addr.v + p.Block()
  {
    DivMod(p.addr.v, p.Block());
    DivInterval(a.v, p.Block(), p.addr.v / p.Block());
  }

  /** Masking changes how a prefix is written and not what it contains. */
  lemma MaskedContains(p: Prefix, a: Addr)
    ensures p.Masked().Contains(a) == p.Contains(a)
    ensures p.IsMasked() ==> p.Masked() == p
  {
  }

  /** The interval never runs past the family's last address. */
  lemma BlockFits(p: Prefix)
    requires p.Valid() && p.IsMasked()
    ensures p.addr.v + p.Block() <= Pow2(p.addr.Width())
  {
    Pow2Add(p.addr.Width() - p.bits, p.bits);
    DivMod(p.addr.v, p.Block());
    AlignedBelow(p.Block(), p.addr.v / p.Block(), Pow2(p.bits));
  }

  lemma AlignedBelow(d: nat, q: nat, m: nat)
    requires d * q < d * m
    ensures d * q + d <= d * m
  {
    if q >= m {
      MulMono(d, m, q);
    } else {
      MulMono(d, q + 1, m);
      assert d * (q + 1) == d * q + d;
    }
  }

  ghost predicate Within(p: Prefix, super: Prefix) {
    forall a: Addr :: p.Contains(a) ==> super.Contains(a)
  }

  /** The two-part test "the supernet contains my address and is no longer than I
      am" is exactly "every address of mine is an address of the supernet's". */
  lemma SupernetTestIsSubset(super: Prefix, p: Prefix)
    requires super.bits <= super.addr.Width() && p.bits <= p.addr.Width()
    ensures super.Contains(p.addr) && super.bits <= p.bits <==> Within(p, super)
  {
    if super.Contains(p.addr) && super.bits <= p.bits {
      forall a: Addr | p.Contains(a)
        ensures super.Contains(a)
      {
        ContainedBelow(super, p, a);
      }
    }
    if Within(p, super) {
      assert p.Contains(p.addr);
      if super.bits > p.bits {
        LongerIsSmaller(super, p);
      }
    }
  }

  lemma LongerIsSmaller(super: Prefix, p: Prefix)
    requires p.bits < super.bits <= super.addr.Width()
    requires super.addr.V4? == p.addr.V4?
    ensures !Within(p, super)
  {
    var m, s := p.Masked(), super.Masked();
    Pow2Monotone(p.addr.Width() - super.bits, p.addr.Width() - p.bits);
    assert s.Block() < m.Block();
    ContainsIsInterval(m, m.addr);
    ContainsIsInterval(m, m.Last());
    assert p.Contains(m.addr) && p.Contains(m.Last());
    ContainsIsInterval(s, m.addr);
    ContainsIsInterval(s, m.Last());
    assert !(super.Contains(m.addr) && super.Contains(m.Last()));
  }

  lemma ContainedBelow(super: Prefix, p: Prefix, a: Addr)
    requires super.addr.V4? == p.addr.V4? && super.bits <= p.bits <= p.addr.Width()
    requires p.Contains(a)
    ensures super.Contains(a) <==> super.Contains(p.addr)
  {
    var d, k := p.Block(), Pow2(p.bits - super.bits);
    Pow2Add(p.addr.Width() - p.bits, p.bits - super.bits);
    assert super.Block() == d * k;
    DivDiv(a.v, d, k);
    DivDiv(p.addr.v, d, k);
  }

  /** Two prefixes with an address in common are nested: the longer lies within
      the shorter, and two masked ones of one length are one prefix. */
  lemma SharedAddressNests(p: Prefix, q: Prefix, a: Addr)
    requires p.bits <= q.bits <= q.addr.Width()
    requires p.Contains(a) && q.Contains(a)
    ensures Within(q, p)
    ensures p.bits == q.bits && p.IsMasked() && q.IsMasked() ==> p == q
  {
    ContainedBelow(p, q, a);
    SupernetTestIsSubset(p, q);
    if p.bits == q.bits && p.IsMasked() && q.IsMasked() {
      DivMod(p.addr.v, p.Block());
      DivMod(q.addr.v, q.Block());
    }
  }
}
