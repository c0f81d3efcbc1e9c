/** Placing the data of a QR code (mapData of extension/lib/qrcode.js; ISO/IEC 18004:2015
    section 7.7): two columns at a time from the right, upwards and downwards in turn,
    around the timing column, wherever a module is still free. */
module QrPlacement {
  import opened Common

  type Grid = seq<seq<Option<bool>>>

  const TIMING := 6

  /** The sides a grid may have here. */
  predicate Side(n: nat) {
    n >= 7 && n % 2 == 1
  }

  // ---- The order in which modules are visited

  /** The right column of the p-th pair. */
  function ColumnOf(n: nat, p: nat): int {
    if n - 1 - 2 * p > TIMING then n - 1 - 2 * p else n - 2 - 2 * p
  }

  /** The row that is visited at time t in the p-th pair: the first goes up. */
  function RowOf(n: nat, p: nat, t: nat): int {
    if p % 2 == 0 then n - 1 - t else t
  }

  /** The k-th module visited from the p-th pair on, as row and column. */
  function CellFrom(n: nat, p: nat, k: nat): (int, int)
    requires n > 0
    decreases k
  {
    if k < 2 * n then (RowOf(n, p, k / 2), ColumnOf(n, p) - k % 2) else CellFrom(n, p + 1, k - 2 * n)
  }

  function CellAt(n: nat, k: nat): (int, int)
    requires n > 0
  {
    CellFrom(n, 0, k)
  }

  /** How many visits come before the p-th pair. */
  function Start(n: nat, p: nat): nat {
    if p == 0 then 0 else Start(n, p - 1) + 2 * n
  }

  lemma {:induction false} StartGrows(n: nat, p: nat, q: nat)
    requires p < q
    ensures Start(n, p) + 2 * n <= Start(n, q)
  {
    if p + 1 < q {
      StartGrows(n, p, q - 1);
    }
  }

  /** The pair a column belongs to. */
  function PairOf(n: nat, c: nat): int {
    if c > TIMING then (n - 1 - c) / 2 else (n - 2 - c) / 2
  }

  /** When a module outside the timing column is visited. */
  function Time(n: nat, r: nat, c: nat): int {
    var p := PairOf(n, c);
    if p < 0 then -1
    else Start(n, p) + 2 * (if p % 2 == 0 then n - 1 - r else r) + (if c > TIMING then (n - 1 - c) % 2 else (n - 2 - c) % 2)
  }

  /** How many visits there are. */
  function Visits(n: nat): nat {
    Start(n, n / 2)
  }

  lemma {:induction false} CellFromStart(n: nat, p: nat, q: nat, j: nat)
    requires n > 0 && p <= q && j < 2 * n
    ensures Start(n, q) >= Start(n, p)
    ensures CellFrom(n, p, Start(n, q) - Start(n, p) + j) == (RowOf(n, q, j / 2), ColumnOf(n, q) - j % 2)
    decreases q - p
  {
    if p < q {
      StartGrows(n, p, q);
      CellFromStart(n, p + 1, q, j);
    }
  }

  lemma CellAtParts(n: nat, p: nat, t: nat, w: nat)
    requires n > 0 && t < n && w < 2
    ensures CellAt(n, Start(n, p) + 2 * t + w) == (RowOf(n, p, t), ColumnOf(n, p) - w)
  {
    CellFromStart(n, 0, p, 2 * t + w);
  }

  /** Every module outside the timing column is visited at its time, and that is one of
      the visits. */
  lemma VisitedAtItsTime(n: nat, r: nat, c: nat)
    requires Side(n) && r < n && c < n && c != TIMING
    ensures 0 <= Time(n, r, c) < Visits(n)
    ensures CellAt(n, Time(n, r, c)) == (r, c)
  {
    var p := PairOf(n, c);
    var t := if p % 2 == 0 then n - 1 - r else r;
    var w := if c > TIMING then (n - 1 - c) % 2 else (n - 2 - c) % 2;
    ColumnOfPair(n, c);
    CellAtParts(n, p, t, w);
    StartGrows(n, p, n / 2);
  }

  lemma ColumnOfPair(n: nat, c: nat)
    requires Side(n) && c < n && c != TIMING
    ensures 0 <= PairOf(n, c) < n / 2
    ensures ColumnOf(n, PairOf(n, c)) - (if c > TIMING then (n - 1 - c) % 2 else (n - 2 - c) % 2) == c
  {
  }

  lemma PairOfColumn(n: nat, p: nat, w: nat)
    requires Side(n) && p < n / 2 && w < 2
    ensures var c := ColumnOf(n, p) - w;
      && 0 <= c < n && c != TIMING && PairOf(n, c) == p
      && (if c > TIMING then (n - 1 - c) % 2 else (n - 2 - c) % 2) == w
  {
  }

  /** Every visit is to a module outside the timing column, at its time. */
  lemma TimeOfVisit(n: nat, p: nat, t: nat, w: nat)
    requires Side(n) && p < n / 2 && t < n && w < 2
    ensures var (r, c) := (RowOf(n, p, t), ColumnOf(n, p) - w);
      && 0 <= r < n && 0 <= c < n && c != TIMING
      && Time(n, r, c) == Start(n, p) + 2 * t + w
      && CellAt(n, Start(n, p) + 2 * t + w) == (r, c)
  {
    CellAtParts(n, p, t, w);
    PairOfColumn(n, p, w);
  }

  // ---- What is placed

  /** The bits of the data, most significant first, and zeros after them. */
  function Bit(data: seq<bv8>, i: nat): bool {
    i / 8 < |data| && (data[i / 8] >> (7 - i % 8)) & 1 == 1
  }

  predicate Square(g: Grid, n: nat) {
    |g| == n && forall r :: 0 <= r < n ==> |g[r]| == n
  }

  predicate Free(g: Grid, n: nat, k: nat)
    requires n > 0 && Square(g, n)
  {
    var (r, c) := CellAt(n, k);
    0 <= r < n && 0 <= c < n && g[r][c].None?
  }

  /** How many free modules there are among the first k visits. */
  function Count(g: Grid, n: nat, k: nat): (m: nat)
    requires n > 0 && Square(g, n)
    ensures m <= k
  {
    if k == 0 then 0 else Count(g, n, k - 1) + if Free(g, n, k - 1) then 1 else 0
  }

  /** A module after the first k visits, when the grid was g before them. */
  function Placed(g: Grid, n: nat, data: seq<bv8>, mask: (nat, nat) -> bool, k: nat, r: nat, c: nat): Option<bool>
    requires n > 0 && Square(g, n) && r < n && c < n
  {
    if g[r][c].Some? then g[r][c]
    else if c == TIMING then None
    else
      var k' := Time(n, r, c);
      if 0 <= k' < k then Some(Bit(data, Count(g, n, k')) != mask(r, c)) else None
  }

  ghost function Snapshot(modules: array2<Option<bool>>): (g: Grid)
    reads modules
    ensures |g| == modules.Length0 && forall r :: 0 <= r < |g| ==> |g[r]| == modules.Length1
    ensures forall r, c :: 0 <= r < modules.Length0 && 0 <= c < modules.Length1 ==> g[r][c] == modules[r, c]
  {
    seq(modules.Length0, r requires 0 <= r < modules.Length0 reads modules =>
      seq(modules.Length1, c requires 0 <= c < modules.Length1 reads modules => modules[r, c]))
  }

  /** The grid after the first k visits. */
  ghost predicate After(modules: array2<Option<bool>>, g: Grid, n: nat, data: seq<bv8>, mask: (nat, nat) -> bool, k: nat)
    reads modules
  {
    && n > 0 && Square(g, n) && modules.Length0 == n && modules.Length1 == n
    && forall r, c :: 0 <= r < n && 0 <= c < n ==> modules[r, c] == Placed(g, n, data, mask, k, r, c)
  }

  /** The counters say how many bits were used. */
  predicate At(byteIndex: nat, bitIndex: int, count: nat) {
    0 <= bitIndex <= 7 && 8 * byteIndex + 7 - bitIndex == count
  }

  /** The visit to one module. */
  method Visit(modules: array2<Option<bool>>, r: nat, c: nat, data: seq<bv8>, mask: (nat, nat) -> bool,
      byteIndex0: nat, bitIndex0: int, ghost g: Grid, ghost n: nat, ghost k: nat)
    returns (byteIndex: nat, bitIndex: int)
    requires After(modules, g, n, data, mask, k)
    requires Side(n) && r < n && c < n && c != TIMING && Time(n, r, c) == k && CellAt(n, k) == (r, c)
    requires At(byteIndex0, bitIndex0, Count(g, n, k))
    modifies modules
    ensures After(modules, g, n, data, mask, k + 1)
    ensures At(byteIndex, bitIndex, Count(g, n, k + 1))
  {
    byteIndex, bitIndex := byteIndex0, bitIndex0;
    OnlyThisVisit(g, n, data, mask, k, r, c);
    if modules[r, c].None? {
      var dark := false;
      if byteIndex < |data| {
        dark := (data[byteIndex] >> bitIndex) & 1 == 1;
      }
      BitAt(data, byteIndex, bitIndex, Count(g, n, k));
      if mask(r, c) {
        dark := !dark;
      }
      modules[r, c] := Some(dark);
      bitIndex := bitIndex - 1;
      if bitIndex == -1 {
        byteIndex := byteIndex + 1;
        bitIndex := 7;
      }
    }
  }

  lemma BitAt(data: seq<bv8>, byteIndex: nat, bitIndex: int, count: nat)
    requires At(byteIndex, bitIndex, count)
    ensures Bit(data, count) == (byteIndex < |data| && (data[byteIndex] >> bitIndex) & 1 == 1)
  {
    DivUnique(count, 8, byteIndex, 7 - bitIndex);
  }

  /** The k-th visit changes what is expected of one module, and of no other. */
  lemma OnlyThisVisit(g: Grid, n: nat, data: seq<bv8>, mask: (nat, nat) -> bool, k: nat, r: nat, c: nat)
    requires Side(n) && Square(g, n) && r < n && c < n && c != TIMING && Time(n, r, c) == k && CellAt(n, k) == (r, c)
    ensures Placed(g, n, data, mask, k, r, c) == g[r][c]
    ensures Placed(g, n, data, mask, k + 1, r, c)
         == if g[r][c].Some? then g[r][c] else Some(Bit(data, Count(g, n, k)) != mask(r, c))
    ensures forall r', c' :: 0 <= r' < n && 0 <= c' < n && (r', c') != (r, c) ==>
      Placed(g, n, data, mask, k + 1, r', c') == Placed(g, n, data, mask, k, r', c')
    ensures Count(g, n, k + 1) == Count(g, n, k) + if g[r][c].None? then 1 else 0
  {
    forall r', c' | 0 <= r' < n && 0 <= c' < n && (r', c') != (r, c)
      ensures Placed(g, n, data, mask, k + 1, r', c') == Placed(g, n, data, mask, k, r', c')
    {
      if c' != TIMING {
        VisitedAtItsTime(n, r', c');
        assert Time(n, r', c') != k;
      }
    }
  }

  /** The two modules of one row. */
  method MapRow(modules: array2<Option<bool>>, row: nat, col: int, data: seq<bv8>, mask: (nat, nat) -> bool,
      byteIndex0: nat, bitIndex0: int, ghost g: Grid, ghost n: nat, ghost p: nat, ghost t: nat, ghost k: nat)
    returns (byteIndex: nat, bitIndex: int)
    requires Side(n) && p < n / 2 && t < n && row == RowOf(n, p, t) && col == ColumnOf(n, p)
    requires k == Start(n, p) + 2 * t
    requires After(modules, g, n, data, mask, k) && At(byteIndex0, bitIndex0, Count(g, n, k))
    modifies modules
    ensures After(modules, g, n, data, mask, k + 2) && At(byteIndex, bitIndex, Count(g, n, k + 2))
  {
    byteIndex, bitIndex := byteIndex0, bitIndex0;
    var c := 0;
    while c < 2
      invariant 0 <= c <= 2
      invariant After(modules, g, n, data, mask, k + c) && At(byteIndex, bitIndex, Count(g, n, k + c))
    {
      byteIndex, bitIndex := MapModule(modules, row, col, c, data, mask, byteIndex, bitIndex, g, n, p, t, k + c);
      c := c + 1;
    }
  }

  method MapModule(modules: array2<Option<bool>>, row: nat, col: int, c: nat, data: seq<bv8>, mask: (nat, nat) -> bool,
      byteIndex0: nat, bitIndex0: int, ghost g: Grid, ghost n: nat, ghost p: nat, ghost t: nat, ghost k: nat)
    returns (byteIndex: nat, bitIndex: int)
    requires Side(n) && p < n / 2 && t < n && c < 2 && row == RowOf(n, p, t) && col == ColumnOf(n, p)
    requires k == Start(n, p) + 2 * t + c
    requires After(modules, g, n, data, mask, k) && At(byteIndex0, bitIndex0, Count(g, n, k))
    modifies modules
    ensures After(modules, g, n, data, mask, k + 1) && At(byteIndex, bitIndex, Count(g, n, k + 1))
  {
    TimeOfVisit(n, p, t, c);
    byteIndex, bitIndex := Visit(modules, row, col - c, data, mask, byteIndex0, bitIndex0, g, n, k);
  }

  /** One row on, until the grid ends; the next pair of columns starts where this one did
      end. */
  lemma RowMoves(n: nat, p: nat, t: nat)
    requires Side(n) && p < n / 2 && t < n
    ensures var next := RowOf(n, p, t) + if p % 2 == 0 then -1 else 1;
      if t + 1 < n then 0 <= next < n && next == RowOf(n, p, t + 1)
      else (next < 0 || n <= next) && RowOf(n, p, t) == RowOf(n, p + 1, 0)
  {
  }

  /** A pair of columns, from one end to the other. */
  method MapColumns(modules: array2<Option<bool>>, col: int, row0: int, inc0: int,
      data: seq<bv8>, mask: (nat, nat) -> bool, byteIndex0: nat, bitIndex0: int, ghost g: Grid, ghost n: nat, ghost p: nat)
    returns (row: int, inc: int, byteIndex: nat, bitIndex: int)
    requires Side(n) && p < n / 2 && n == modules.Length0
    requires col == ColumnOf(n, p) && row0 == RowOf(n, p, 0) && inc0 == if p % 2 == 0 then -1 else 1
    requires After(modules, g, n, data, mask, Start(n, p)) && At(byteIndex0, bitIndex0, Count(g, n, Start(n, p)))
    modifies modules
    ensures row == RowOf(n, p + 1, 0) && inc == -inc0
    ensures After(modules, g, n, data, mask, Start(n, p + 1)) && At(byteIndex, bitIndex, Count(g, n, Start(n, p + 1)))
  {
    row, inc, byteIndex, bitIndex := row0, inc0, byteIndex0, bitIndex0;
    ghost var t := 0;
    ghost var k := Start(n, p);
    assert Start(n, p + 1) == k + 2 * n;
    while true
      invariant 0 <= t < n && row == RowOf(n, p, t) && inc == inc0
      invariant After(modules, g, n, data, mask, k + 2 * t) && At(byteIndex, bitIndex, Count(g, n, k + 2 * t))
      decreases n - t
    {
      byteIndex, bitIndex := MapRow(modules, row, col, data, mask, byteIndex, bitIndex, g, n, p, t, k + 2 * t);
      RowMoves(n, p, t);
      row := row + inc;
      if row < 0 || modules.Length0 <= row {
        row := row - inc;
        inc := -inc;
        return;
      }
      t := t + 1;
    }
  }

  /** Where the next pair of columns is, before the timing column is stepped over. */
  function NextColumn(n: nat, p: nat): int {
    if n - 1 - 2 * p >= TIMING then n - 1 - 2 * p else n - 2 - 2 * p
  }

  lemma ColumnsMove(n: nat, p: nat)
    requires Side(n) && p <= n / 2
    ensures NextColumn(n, p) > 0 ==> p < n / 2
    ensures ColumnOf(n, p) == if NextColumn(n, p) == TIMING then TIMING - 1 else NextColumn(n, p)
    ensures NextColumn(n, p + 1) == ColumnOf(n, p) - 2
    ensures NextColumn(n, p) <= 0 ==> p == n / 2
  {
  }

  /** Every free module is written, once: with the bit whose turn it is, masked. No other
      module is. */
  method MapData(modules: array2<Option<bool>>, data: seq<bv8>, mask: (nat, nat) -> bool)
    requires modules.Length0 == modules.Length1 && Side(modules.Length0)
    requires forall r :: 0 <= r < modules.Length0 ==> modules[r, TIMING].Some?
    modifies modules
    ensures var n, g := modules.Length0, old(Snapshot(modules));
      After(modules, g, n, data, mask, Visits(n))
    ensures forall r, c :: 0 <= r < modules.Length0 && 0 <= c < modules.Length0 ==> modules[r, c].Some?
  {
    var n := modules.Length0;
    ghost var g := Snapshot(modules);
    NothingPlacedYet(modules, g, n, data, mask);
    var inc := -1;
    var row := n - 1;
    var bitIndex := 7;
    var byteIndex := 0;
    var col := n - 1;
    ghost var p := 0;
    while col > 0
      invariant 0 <= p <= n / 2
      invariant col == NextColumn(n, p)
      invariant row == RowOf(n, p, 0) && inc == if p % 2 == 0 then -1 else 1
      invariant After(modules, g, n, data, mask, Start(n, p)) && At(byteIndex, bitIndex, Count(g, n, Start(n, p)))
    {
      if col == TIMING {
        col := col - 1;
      }
      ColumnsMove(n, p);
      row, inc, byteIndex, bitIndex := MapColumns(modules, col, row, inc, data, mask, byteIndex, bitIndex, g, n, p);
      col := col - 2;
      p := p + 1;
    }
    ColumnsMove(n, p);
    EveryModuleIsPlaced(g, n, data, mask);
  }

  lemma NothingPlacedYet(modules: array2<Option<bool>>, g: Grid, n: nat, data: seq<bv8>, mask: (nat, nat) -> bool)
    requires n > 0 && modules.Length0 == n && modules.Length1 == n && g == Snapshot(modules)
    ensures After(modules, g, n, data, mask, 0)
  {
  }

  lemma EveryModuleIsPlaced(g: Grid, n: nat, data: seq<bv8>, mask: (nat, nat) -> bool)
    requires Side(n) && Square(g, n) && forall r :: 0 <= r < n ==> g[r][TIMING].Some?
    ensures forall r, c :: 0 <= r < n && 0 <= c < n ==> Placed(g, n, data, mask, Visits(n), r, c).Some?
  {
    forall r, c | 0 <= r < n && 0 <= c < n ensures Placed(g, n, data, mask, Visits(n), r, c).Some? {
      if c != TIMING {
        VisitedAtItsTime(n, r, c);
      }
    }
  }

  // ---- Reading it back

  /** The bits of the modules that were free, in the order of the visits, unmasked. */
  function Unmasked(g: Grid, n: nat, filled: Grid, mask: (nat, nat) -> bool, k: nat): (bits: seq<bool>)
    requires n > 0 && Square(g, n) && Square(filled, n)
    ensures |bits| == Count(g, n, k)
  {
    if k == 0 then []
    else
      var (r, c) := CellAt(n, k - 1);
      Unmasked(g, n, filled, mask, k - 1)
      + if Free(g, n, k - 1) then [(filled[r][c] == Some(true)) != mask(r, c)] else []
  }

  /** The data's bits from the first on, and zeros after its end. */
  predicate AreBits(bits: seq<bool>, data: seq<bv8>) {
    forall i :: 0 <= i < |bits| ==> bits[i] == Bit(data, i)
  }

  lemma AppendBit(bits: seq<bool>, b: bool, data: seq<bv8>)
    requires AreBits(bits, data) && b == Bit(data, |bits|)
    ensures AreBits(bits + [b], data)
  {
  }

  /** The grid after every visit. */
  ghost predicate IsFilled(g: Grid, n: nat, filled: Grid, data: seq<bv8>, mask: (nat, nat) -> bool)
    requires Side(n) && Square(g, n) && Square(filled, n)
  {
    forall r, c :: 0 <= r < n && 0 <= c < n ==> filled[r][c] == Placed(g, n, data, mask, Visits(n), r, c)
  }

  /** Unmasking the modules in the order they were visited gives back the data's bits, and
      then zeros. */
  lemma {:induction false} DataComesBack(g: Grid, n: nat, filled: Grid, data: seq<bv8>, mask: (nat, nat) -> bool, k: nat)
    requires Side(n) && Square(g, n) && Square(filled, n) && k <= Visits(n)
    requires IsFilled(g, n, filled, data, mask)
    ensures AreBits(Unmasked(g, n, filled, mask, k), data)
  {
    if k > 0 {
      DataComesBack(g, n, filled, data, mask, k - 1);
      OneMoreComesBack(g, n, filled, data, mask, k);
    }
  }

  lemma OneMoreComesBack(g: Grid, n: nat, filled: Grid, data: seq<bv8>, mask: (nat, nat) -> bool, k: nat)
    requires Side(n) && Square(g, n) && Square(filled, n) && 0 < k <= Visits(n)
    requires IsFilled(g, n, filled, data, mask) && AreBits(Unmasked(g, n, filled, mask, k - 1), data)
    ensures AreBits(Unmasked(g, n, filled, mask, k), data)
  {
    var before := Unmasked(g, n, filled, mask, k - 1);
    if Free(g, n, k - 1) {
      ComesBackAt(g, n, filled, data, mask, k - 1);
      var (r, c) := CellAt(n, k - 1);
      AppendBit(before, (filled[r][c] == Some(true)) != mask(r, c), data);
    } else {
      assert before + [] == before;
    }
  }

  lemma ComesBackAt(g: Grid, n: nat, filled: Grid, data: seq<bv8>, mask: (nat, nat) -> bool, k: nat)
    requires Side(n) && Square(g, n) && Square(filled, n) && k < Visits(n) && Free(g, n, k)
    requires IsFilled(g, n, filled, data, mask)
    ensures var (r, c) := CellAt(n, k);
      ((filled[r][c] == Some(true)) != mask(r, c)) == Bit(data, Count(g, n, k))
  {
    VisitIsInPlace(n, k);
  }

  lemma VisitIsInPlace(n: nat, k: nat)
    requires Side(n) && k < Visits(n)
    ensures var (r, c) := CellAt(n, k);
      0 <= r < n && 0 <= c < n && c != TIMING && Time(n, r, c) == k
  {
    var p := 0;
    while Start(n, p) + 2 * n <= k
      invariant 0 <= p < n / 2 && Start(n, p) <= k
    {
      if p + 1 == n / 2 {
        assert false;
      }
      p := p + 1;
    }
    var j := k - Start(n, p);
    TimeOfVisit(n, p, j / 2, j % 2);
  }
}
