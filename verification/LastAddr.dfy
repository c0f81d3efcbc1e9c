/** lastAddrIn (tunnel/tunip.go): the byte loop that sets every host bit of a masked
    address, and the number it arrives at. */
module LastAddr {
  import opened Common
  import opened Net

  predicate Bytes(s: seq<nat>) {
    forall i :: 0 <= i < |s| ==> s[i] < 256
  }

  /** Big-endian bytes as a number. */
  function FromBytes(s: seq<nat>): nat {
    if s == [] then 0 else FromBytes(s[..|s| - 1]) * 256 + s[|s| - 1]
  }

  /** v as n big-endian bytes: what AsSlice returns. */
  function ToBytes(v: nat, n: nat): (s: seq<nat>)
    ensures |s| == n && Bytes(s)
  {
    if n == 0 then [] else ToBytes(v / 256, n - 1) + [v % 256]
  }

  lemma {:induction false} FromToBytes(v: nat, n: nat)
    requires v < Pow2(8 * n)
    ensures FromBytes(ToBytes(v, n)) == v
  {
    if n > 0 {
      Pow2Step(8 * n);
      FromToBytes(v / 256, n - 1);
      assert ToBytes(v, n)[..n - 1] == ToBytes(v / 256, n - 1);
    }
  }

  lemma Pow2Step(h: nat)
    requires h >= 8
    ensures Pow2(h) == 256 * Pow2(h - 8)
  {
    assert Pow2(8) == 256;
    Pow2Add(8, h - 8);
  }

  /** b | (2^h - 1): the byte with its low h bits set. */
  function SetLow(b: nat, h: nat): nat {
    b - b % Pow2(h) + (Pow2(h) - 1)
  }

  /** The bytes with their last h bits set. */
  function Filled(s: seq<nat>, h: nat): (r: seq<nat>)
    requires h <= 8 * |s|
    ensures |r| == |s|
  {
    if h == 0 then s
    else if h < 8 then s[..|s| - 1] + [SetLow(s[|s| - 1], h)]
    else Filled(s[..|s| - 1], h - 8) + [255]
  }

  /** Byte by byte: those before the prefix's end are kept, the one it ends inside has
      its host bits set, and the rest are all ones. */
  function FilledByte(s: seq<nat>, bits: nat, i: nat): nat
    requires i < |s|
  {
    if i < bits / 8 then s[i]
    else if i == bits / 8 && bits % 8 != 0 then SetLow(s[i], 8 - bits % 8)
    else 255
  }

  lemma {:induction false} FilledAt(s: seq<nat>, bits: nat, i: nat)
    requires bits <= 8 * |s| && i < |s|
    ensures Filled(s, 8 * |s| - bits)[i] == FilledByte(s, bits, i)
  {
    var h := 8 * |s| - bits;
    if h >= 8 && i < |s| - 1 {
      FilledAt(s[..|s| - 1], bits, i);
      assert FilledByte(s[..|s| - 1], bits, i) == FilledByte(s, bits, i);
    }
  }

  /** Setting the h host bits of a multiple of 2^h adds 2^h - 1 to it. */
  lemma {:induction false} FilledIsLast(s: seq<nat>, h: nat)
    requires Bytes(s) && h <= 8 * |s|
    requires FromBytes(s) % Pow2(h) == 0
    ensures FromBytes(Filled(s, h)) == FromBytes(s) + Pow2(h) - 1
  {
    if h > 0 {
      var n := |s| - 1;
      var u, b := FromBytes(s[..n]), s[n];
      if h < 8 {
        Pow2Add(h, 8 - h);
        assert Pow2(8) == 256;
        ModOfSum(u, Pow2(8 - h), b, Pow2(h));
        assert Filled(s, h)[..n] == s[..n];
      } else {
        Pow2Step(h);
        ModOfSum(0, 1, u * 256 + b, Pow2(h));
        SplitMultiple(u, b, Pow2(h - 8));
        FilledIsLast(s[..n], h - 8);
        assert Filled(s, h)[..n] == Filled(s[..n], h - 8);
      }
    }
  }

  lemma ModOfSum(u: nat, k: nat, b: nat, d: nat)
    requires d > 0
    ensures (u * (d * k) + b) % d == b % d
  {
    DivMod(b, d);
    assert u * (d * k) == d * (u * k);
    assert u * (d * k) + b == d * (u * k + b / d) + b % d;
    DivUnique(u * (d * k) + b, d, u * k + b / d, b % d);
  }

  lemma SplitMultiple(u: nat, b: nat, d: nat)
    requires b < 256 && d > 0 && (u * 256 + b) % (256 * d) == 0
    ensures b == 0 && u % d == 0
  {
    var q := (u * 256 + b) / (256 * d);
    DivMod(u * 256 + b, 256 * d);
    assert u * 256 + b == 256 * (d * q);
    assert b == 256 * (d * q - u);
    assert u == d * q;
    DivUnique(u, d, q, 0);
  }

  method FillHostBits(raw: array<nat>, bits: nat)
    requires bits <= 8 * raw.Length
    modifies raw
    ensures raw[..] == Filled(old(raw[..]), 8 * raw.Length - bits)
  {
    ghost var s := raw[..];
    var i := bits / 8;
    while i < raw.Length
      invariant bits / 8 <= i <= raw.Length
      invariant forall j :: 0 <= j < i ==> raw[j] == FilledByte(s, bits, j)
      invariant forall j :: i <= j < raw.Length ==> raw[j] == s[j]
    {
      if i == bits / 8 && bits % 8 != 0 {
        raw[i] := SetLow(raw[i], 8 - bits % 8);
      } else {
        raw[i] := 255;
      }
      i := i + 1;
    }
    forall j | 0 <= j < raw.Length
      ensures raw[..][j] == Filled(s, 8 * raw.Length - bits)[j]
    {
      FilledAt(s, bits, j);
    }
  }

  /** How many bytes an address of the family has. */
  function ByteWidth(a: Addr): (n: nat)
    ensures 8 * n == a.Width()
  {
    if a.V4? then 4 else 16
  }

  lemma LastOfBytes(p: Prefix, n: nat, w: nat)
    requires p.Valid() && p.IsMasked() && w == p.addr.Width() && w == 8 * n
    ensures FromBytes(Filled(ToBytes(p.addr.v, n), w - p.bits)) == p.Last().v && p.Last().Valid()
  {
    LastIsValid(p);
    FilledBytes(p.addr.v, n, w, w - p.bits);
  }

  lemma LastIsValid(p: Prefix)
    requires p.Valid() && p.IsMasked()
    ensures p.Last().Valid()
  {
    BlockFits(p);
  }

  lemma FilledBytes(v: nat, n: nat, w: nat, h: nat)
    requires w == 8 * n && v < Pow2(w) && h <= w && v % Pow2(h) == 0
    ensures FromBytes(Filled(ToBytes(v, n), h)) == v + Pow2(h) - 1
  {
    FromToBytes(v, n);
    FilledIsLast(ToBytes(v, n), h);
  }

  /** The last address of a masked prefix is its own plus its size, less one. */
  method LastAddrIn(p: Prefix) returns (last: Addr)
    requires p.Valid() && p.IsMasked()
    ensures last == p.Last() && last.Valid()
  {
    var n := ByteWidth(p.addr);
    var bytes := ToBytes(p.addr.v, n);
    var raw := new nat[n](i requires 0 <= i < n => bytes[i]);
    assert raw[..] == bytes;
    FillHostBits(raw, p.bits);
    LastOfBytes(p, n, p.addr.Width());
    var v := FromBytes(raw[..]);
    last := if p.addr.V4? then V4(v) else V6(v);
  }
}
