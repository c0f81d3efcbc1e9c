/** The path of the data through a QR code (ISO/IEC 18004:2015 section 7.7.3), step by step,
    and the order of the bits that are put on it. */
module QrZigzag {
  import opened Common
  import opened QrPlacement

  /** The path begins in the lower right corner, or beside the timing column if that is there. */
  lemma PathBegins(n: nat)
    requires Side(n)
    ensures CellAt(n, 0) == (n - 1, if n == 7 then 5 else n - 1)
  {
    StartIs(n, 0);
    CellAtParts(n, 0, 0, 0);
  }

  lemma {:induction false} StartIs(n: nat, p: nat)
    ensures Start(n, p) == 2 * n * p
  {
    if p > 0 {
      StartIs(n, p - 1);
    }
  }

  /** From the right module of a row the path goes to the left one. */
  lemma PathGoesLeft(n: nat, p: nat, t: nat)
    requires Side(n) && t < n
    ensures var (r, c) := CellAt(n, 2 * n * p + 2 * t);
      CellAt(n, 2 * n * p + 2 * t + 1) == (r, c - 1)
  {
    StartIs(n, p);
    CellAtParts(n, p, t, 0);
    CellAtParts(n, p, t, 1);
  }

  /** From the left one it goes one row on, up in the first pair of columns, down in the
      next, and so in turn. */
  lemma PathGoesOn(n: nat, p: nat, t: nat)
    requires Side(n) && t + 1 < n
    ensures var (r, c) := CellAt(n, 2 * n * p + 2 * t);
      CellAt(n, 2 * n * p + 2 * (t + 1)) == (if p % 2 == 0 then r - 1 else r + 1, c)
  {
    StartIs(n, p);
    CellAtParts(n, p, t, 0);
    CellAtParts(n, p, t + 1, 0);
  }

  /** At the edge it goes on in the next pair to the left, over the timing column. */
  lemma PathTurns(n: nat, p: nat)
    requires Side(n) && p + 1 < n / 2
    ensures var (r, c) := CellAt(n, 2 * n * p + 2 * (n - 1));
      && r == (if p % 2 == 0 then 0 else n - 1)
      && CellAt(n, 2 * n * (p + 1)) == (r, if c - 2 == 6 then 5 else c - 2)
  {
    StartIs(n, p);
    StartIs(n, p + 1);
    CellAtParts(n, p, n - 1, 0);
    CellAtParts(n, p + 1, 0, 0);
    assert ColumnOf(n, p + 1) == if ColumnOf(n, p) - 2 == 6 then 5 else ColumnOf(n, p) - 2;
  }

  function Weight(bit: bool, w: bv8): bv8 {
    if bit then w else 0
  }

  /** A byte's bits go out from the most significant to the least, and after the data come
      zeros. */
  lemma BitsOfAByte(data: seq<bv8>, k: nat)
    ensures k < |data| ==>
      data[k] == OfBits(Bit(data, 8 * k), Bit(data, 8 * k + 1), Bit(data, 8 * k + 2), Bit(data, 8 * k + 3),
                        Bit(data, 8 * k + 4), Bit(data, 8 * k + 5), Bit(data, 8 * k + 6), Bit(data, 8 * k + 7))
    ensures forall i :: i >= 8 * |data| ==> !Bit(data, i)
  {
    if k < |data| {
      EachBit(data, k);
      ByteIsItsBits(data[k]);
    }
    forall i | i >= 8 * |data|
      ensures !Bit(data, i)
    {
      assert i / 8 >= |data|;
    }
  }

  function OfBits(b7: bool, b6: bool, b5: bool, b4: bool, b3: bool, b2: bool, b1: bool, b0: bool): bv8 {
    Weight(b7, 128) | Weight(b6, 64) | Weight(b5, 32) | Weight(b4, 16)
    | Weight(b3, 8) | Weight(b2, 4) | Weight(b1, 2) | Weight(b0, 1)
  }

  function Shifted(x: bv8, j: nat): bool
    requires j < 8
  {
    (x >> (7 - j)) & 1 == 1
  }

  lemma EachBit(data: seq<bv8>, k: nat)
    requires k < |data|
    ensures forall j :: 0 <= j < 8 ==> Bit(data, 8 * k + j) == Shifted(data[k], j)
  {
    forall j | 0 <= j < 8
      ensures Bit(data, 8 * k + j) == Shifted(data[k], j)
    {
      BitIs(data, k, j);
    }
  }

  lemma BitIs(data: seq<bv8>, k: nat, j: nat)
    requires k < |data| && j < 8
    ensures Bit(data, 8 * k + j) == Shifted(data[k], j)
  {
    DivUnique(8 * k + j, 8, k, j);
    assert (8 * k + j) / 8 == k && (8 * k + j) % 8 == j;
  }

  lemma ByteIsItsBits(x: bv8)
    ensures x == OfBits(Shifted(x, 0), Shifted(x, 1), Shifted(x, 2), Shifted(x, 3),
                        Shifted(x, 4), Shifted(x, 5), Shifted(x, 6), Shifted(x, 7))
  {
  }

  /** What a free module on the path is given is the next bit, turned where the mask says so;
      a module that was set stays, and the timing column stays. */
  lemma ModuleAfterAll(g: Grid, n: nat, data: seq<bv8>, mask: (nat, nat) -> bool, k: nat)
    requires Side(n) && Square(g, n) && k < Visits(n)
    ensures var (r, c) := CellAt(n, k);
      && 0 <= r < n && 0 <= c < n
      && Placed(g, n, data, mask, Visits(n), r, c)
         == (if g[r][c].Some? then g[r][c]
             else Some(if mask(r, c) then !Bit(data, Count(g, n, k)) else Bit(data, Count(g, n, k))))
  {
    VisitIsInPlace(n, k);
  }
}
