/** The logarithm tables of extension/lib/qrcode.js (QRMath): what is looked up in them is
    the arithmetic of the field. */
module QrMath {
  import opened Common
  import opened Galois

  // ---- The powers 0 to 254 are all different

  /** Equal powers, so many steps apart, make one power equal to 1. */
  lemma {:induction false} EqualPowers(i: nat, d: nat)
    requires Power(i) == Power(i + d)
    ensures Power(d) == 1
  {
    if i > 0 {
      XTimeIsInjective(Power(i - 1), Power(i + d - 1));
      EqualPowers(i - 1, d);
    }
  }

  lemma MulByOne(a: nat, b: nat)
    requires Power(a) == 1
    ensures Power(a + b) == Power(b)
  {
    PowersMultiply(a, b);
    MulOne(Power(b));
  }

  lemma {:induction false} Multiples(d: nat, k: nat)
    requires Power(d) == 1
    ensures Power(d * k) == 1
  {
    if k > 0 {
      Multiples(d, k - 1);
      MulByOne(d, d * (k - 1));
      assert d + d * (k - 1) == d * k;
    }
  }

  /** A common divisor of two exponents of 1 is another one. */
  lemma CommonDivisor(a: nat, b: nat) returns (g: nat, x: nat, y: nat)
    requires a > 0 && b > 0 && Power(a) == 1 && Power(b) == 1
    ensures g > 0 && Power(g) == 1 && a == g * x && b == g * y
    decreases a + b
  {
    if a == b {
      g, x, y := a, 1, 1;
    } else if a < b {
      MulByOne(a, b - a);
      g, x, y := CommonDivisor(a, b - a);
      y := x + y;
    } else {
      MulByOne(b, a - b);
      g, x, y := CommonDivisor(a - b, b);
      x := x + y;
    }
  }

  lemma DivisorsOf255(g: nat, y: nat)
    requires g * y == 255 && g < 255
    ensures g in {1, 3, 5, 15, 17, 51, 85}
  {
    if g >= 16 && y >= 16 {
      MulMono(g, 16, y);
      assert false;
    }
    if g >= 16 {
      assert y in {0, 1, 2, 3, 4, 5, 6, 7, 8, 9, 10, 11, 12, 13, 14, 15};
    }
  }

  lemma DividesOne(g: nat)
    requires g in {1, 3, 5, 15, 17, 51, 85} && Power(g) == 1
    ensures Power(15) == 1 || Power(51) == 1 || Power(85) == 1
  {
    if g in {1, 3, 5, 15} {
      Multiples(g, 15 / g);
    } else if g == 51 {
      Multiples(g, 1);
    } else {
      Multiples(g, 85 / g);
    }
  }

  /** No power before the 255th is 1 again. */
  lemma OrderIs255(d: nat)
    requires 0 < d < 255
    ensures Power(d) != 1
  {
    SomePowers();
    if Power(d) == 1 {
      var g, x, y := CommonDivisor(d, 255);
      assert g < 255 by {
        assert x > 0;
        MulMono(g, 1, x);
      }
      DivisorsOf255(g, y);
      DividesOne(g);
    }
  }

  lemma PowersDiffer(i: nat, j: nat)
    requires i < j < 255
    ensures Power(i) != Power(j)
  {
    OrderIs255(j - i);
    if Power(i) == Power(j) {
      EqualPowers(i, j - i);
    }
  }

  // ---- Every other byte than 0 is a power

  function Number(b: bv8): (n: nat)
    ensures n < 256 && (n == 0 ==> b == 0)
  {
    b as nat
  }

  lemma SameNumber(a: bv8, b: bv8)
    requires Number(a) == Number(b)
    ensures a == b
  {
  }

  ghost function Values(n: nat): set<nat> {
    if n == 0 then {} else Values(n - 1) + {Number(Power(n - 1))}
  }

  lemma {:induction false} ValuesArePowers(n: nat, v: nat)
    requires v in Values(n)
    ensures exists i: nat :: i < n && Number(Power(i)) == v
  {
    if v == Number(Power(n - 1)) {
      assert n - 1 < n;
    } else {
      ValuesArePowers(n - 1, v);
      var i: nat :| i < n - 1 && Number(Power(i)) == v;
    }
  }

  lemma {:induction false} ValuesAreMany(n: nat)
    requires n <= 255
    ensures |Values(n)| == n
  {
    if n > 0 {
      ValuesAreMany(n - 1);
      var v := Number(Power(n - 1));
      if v in Values(n - 1) {
        ValuesArePowers(n - 1, v);
        var i: nat :| i < n - 1 && Number(Power(i)) == v;
        SameNumber(Power(i), Power(n - 1));
        PowersDiffer(i, n - 1);
      }
    }
  }

  lemma {:induction false} ValuesAreInRange(n: nat)
    ensures forall v :: v in Values(n) ==> 1 <= v <= 255
  {
    if n > 0 {
      ValuesAreInRange(n - 1);
      PowerNonzero(n - 1);
    }
  }

  lemma {:induction false} RangeSize(s: set<nat>, n: nat)
    requires forall v :: v in s ==> 1 <= v <= n
    ensures |s| <= n
  {
    if n > 0 {
      RangeSize(s - {n}, n - 1);
    } else {
      assert s == {};
    }
  }

  lemma EveryNumberIsAValue(v: nat)
    requires 1 <= v <= 255
    ensures v in Values(255)
  {
    ValuesAreMany(255);
    ValuesAreInRange(255);
    if v !in Values(255) {
      assert |Values(255) + {v}| == 256;
      RangeSize(Values(255) + {v}, 255);
    }
  }

  lemma EveryByteIsAPower(v: bv8)
    requires v != 0
    ensures exists i: nat :: i < 255 && Power(i) == v
  {
    EveryNumberIsAValue(Number(v));
    ValuesArePowers(255, Number(v));
    var i: nat :| i < 255 && Number(Power(i)) == Number(v);
    SameNumber(Power(i), v);
  }

  /** The exponent of a byte. */
  ghost function Log(v: bv8): (i: nat)
    requires v != 0
    ensures i < 255 && Power(i) == v
  {
    EveryByteIsAPower(v);
    var i: nat :| i < 255 && Power(i) == v;
    i
  }

  // ---- Arithmetic on exponents

  /** x to a power that may be negative. */
  function Exp(n: int): bv8 {
    Power(n % 255)
  }

  lemma WholeTurns(turn: nat, q: nat, r: nat)
    requires Power(turn) == 1
    ensures Power(turn * q + r) == Power(r)
  {
    Multiples(turn, q);
    MulByOne(turn * q, r);
  }

  lemma ATurn() returns (turn: nat)
    ensures turn == 255 && Power(turn) == 1
  {
    SomePowers();
    turn := 255;
  }

  lemma PowerIsPeriodic(n: nat)
    ensures Power(n) == Exp(n)
  {
    var turn := ATurn();
    DivMod(n, turn);
    WholeTurns(turn, n / turn, n % turn);
    assert turn * (n / turn) + n % turn == n;
  }

  /** What the tables are for: products are found by adding exponents. */
  lemma ExpOfSum(a: bv8, n: int)
    requires a != 0
    ensures Exp(Log(a) + n) == Mul(a, Exp(n))
  {
    var m := n % 255;
    PowersMultiply(Log(a), m);
    PowerIsPeriodic(Log(a) + m);
    assert (Log(a) + m) % 255 == (Log(a) + n) % 255 by {
      SameRemainder(Log(a), n);
    }
  }

  lemma SameRemainder(k: nat, n: int)
    ensures (k + n % 255) % 255 == (k + n) % 255
  {
    var q := n / 255;
    assert k + n == (k + n % 255) + 255 * q;
    var r := (k + n % 255) % 255;
    DivUnique(k + n, 255, (k + n % 255) / 255 + q, r);
  }

  lemma MulIsProductOfLogs(a: bv8, b: bv8)
    requires a != 0 && b != 0
    ensures Mul(a, b) == Exp(Log(a) + Log(b))
  {
    PowersMultiply(Log(a), Log(b));
    PowerIsPeriodic(Log(a) + Log(b));
  }

  /** The quotient of two bytes, as the division step computes it. */
  ghost function Div(a: bv8, b: bv8): (c: bv8)
    requires a != 0 && b != 0
    ensures c != 0
  {
    PowerNonzero((Log(a) - Log(b)) % 255);
    Exp(Log(a) - Log(b))
  }

  lemma MulDiv(a: bv8, b: bv8)
    requires a != 0 && b != 0
    ensures Mul(b, Div(a, b)) == a
  {
    LogsCancel(b, Log(a));
    ExpOfLog(a);
  }

  lemma LogsCancel(b: bv8, n: nat)
    requires b != 0
    ensures Mul(b, Exp(n - Log(b))) == Exp(n)
  {
    ExpOfSum(b, n - Log(b));
  }

  lemma ExpOfLog(a: bv8)
    requires a != 0
    ensures Exp(Log(a)) == a
  {
    PowerIsPeriodic(Log(a));
  }

  // ---- The tables

  /** x to the eighth, on powers. */
  lemma {:induction false} PowerReduction(n: nat)
    ensures Power(n + 8) == ((Power(n + 4) ^ Power(n + 3)) ^ Power(n + 2)) ^ Power(n)
  {
    var p0 := Power(n);
    var p1 := XTime(p0);
    var p2 := XTime(p1);
    var p3 := XTime(p2);
    var p4 := XTime(p3);
    assert Power(n + 1) == p1;
    assert Power(n + 2) == p2;
    assert Power(n + 3) == p3;
    assert Power(n + 4) == p4;
    var p5 := XTime(p4);
    var p6 := XTime(p5);
    var p7 := XTime(p6);
    assert Power(n + 5) == p5;
    assert Power(n + 6) == p6;
    assert Power(n + 7) == p7;
    assert Power(n + 8) == XTime(p7);
    Reduction(p0);
  }

  /** The field is that of x^8 + x^4 + x^3 + x^2 + 1, and x generates it: its first eight
      powers are the single bits. */
  lemma FieldInNumbers(i: nat)
    ensures i < 8 ==> Power(i) == 1 << i
    ensures Power(8) == 0x1d
    ensures Add(Power(3), Power(3)) == 0 && Add(0xf0, 0x0f) == 0xff
  {
    assert Power(0) == 1 && Power(1) == 2 && Power(2) == 4 && Power(3) == 8;
    assert Power(4) == 16 && Power(5) == 32 && Power(6) == 64 && Power(7) == 128;
  }

  /** The bits h that a shift moved out, brought back in by the polynomial. */
  function Folded(h: bv8): bv8 {
    ((h ^ (h << 2)) ^ (h << 3)) ^ (h << 4)
  }

  /** x squared, cubed and to the fourth, as single shifts. */
  lemma Shifts(x: bv8)
    ensures XTime(XTime(x)) == (x << 2) ^ Folded(x >> 6)
    ensures XTime(XTime(XTime(x))) == (x << 3) ^ Folded(x >> 5)
    ensures XTime(XTime(XTime(XTime(x)))) == (x << 4) ^ Folded(x >> 4)
  {
  }

  lemma FoldTwice(x: bv8, y: bv8)
    requires y == (x << 4) ^ Folded(x >> 4)
    ensures (y << 4) ^ Folded(y >> 4) == ((y ^ ((x << 3) ^ Folded(x >> 5))) ^ ((x << 2) ^ Folded(x >> 6))) ^ x
  {
  }

  lemma Reduction(x: bv8)
    ensures XTime(XTime(XTime(XTime(XTime(XTime(XTime(XTime(x))))))))
         == ((XTime(XTime(XTime(XTime(x)))) ^ XTime(XTime(XTime(x)))) ^ XTime(XTime(x))) ^ x
  {
    var y := XTime(XTime(XTime(XTime(x))));
    Shifts(x);
    Shifts(y);
    FoldTwice(x, y);
  }

  lemma ShiftsArePowers(i: nat)
    requires i < 8
    ensures (1 as bv8) << i == Power(i)
  {
    assert Power(1) == 2 && Power(2) == 4 && Power(3) == 8 && Power(4) == 16;
    assert Power(5) == 32 && Power(6) == 64 && Power(7) == 128;
    assert i == 0 || i == 1 || i == 2 || i == 3 || i == 4 || i == 5 || i == 6 || i == 7;
  }

  class QRMath {
    const expTable: seq<bv8>
    const logTable: seq<nat>

    ghost predicate Valid() {
      && |expTable| == 256 && |logTable| == 256
      && (forall i :: 0 <= i < 256 ==> expTable[i] == Power(i))
      && (forall v: bv8 :: v != 0 ==> logTable[Number(v)] == Log(v))
    }

    constructor ()
      ensures Valid()
    {
      var exps := new bv8[256](i => 0);
      var logs := new nat[256](i => 0);
      FirstPowers(exps);
      OtherPowers(exps);
      Logarithms(exps[..], logs);
      expTable, logTable := exps[..], logs[..];
      new;
      forall v: bv8 | v != 0 ensures logTable[Number(v)] == Log(v) {
        assert expTable[Log(v)] == Power(Log(v)) == v;
      }
    }

    static method FirstPowers(exps: array<bv8>)
      requires exps.Length == 256
      modifies exps
      ensures forall k :: 0 <= k < 8 ==> exps[k] == Power(k)
    {
      var i := 0;
      while i < 8
        invariant 0 <= i <= 8
        invariant forall k :: 0 <= k < i ==> exps[k] == Power(k)
      {
        ShiftsArePowers(i);
        exps[i] := (1 as bv8) << i;
        i := i + 1;
      }
    }

    static method OtherPowers(exps: array<bv8>)
      requires exps.Length == 256
      requires forall k :: 0 <= k < 8 ==> exps[k] == Power(k)
      modifies exps
      ensures forall k :: 0 <= k < 256 ==> exps[k] == Power(k)
    {
      var i := 8;
      while i < 256
        invariant 8 <= i <= 256
        invariant forall k :: 0 <= k < i ==> exps[k] == Power(k)
      {
        PowerReduction(i - 8);
        exps[i] := exps[i - 4] ^ exps[i - 5] ^ exps[i - 6] ^ exps[i - 8];
        i := i + 1;
      }
    }

    static method Logarithms(exps: seq<bv8>, logs: array<nat>)
      requires |exps| == 256 && logs.Length == 256
      requires forall k :: 0 <= k < 256 ==> exps[k] == Power(k)
      modifies logs
      ensures forall k: nat :: k < 255 ==> logs[Number(exps[k])] == k
    {
      var i := 0;
      while i < 255
        invariant 0 <= i <= 255
        invariant forall k: nat :: k < i ==> logs[Number(exps[k])] == k
      {
        PowerIsNew(i);
        assert forall k: nat :: k < i ==> Number(exps[k]) != Number(exps[i]);
        logs[Number(exps[i])] := i;
        i := i + 1;
      }
    }

    /** None when it throws. */
    method Glog(n: bv8) returns (i: Option<nat>)
      requires Valid()
      ensures i == if n == 0 then None else Some(Log(n))
    {
      if n < 1 {
        return None;
      }
      i := Some(logTable[Number(n)]);
    }

    method Gexp(n0: int) returns (r: bv8)
      requires Valid()
      ensures r == Exp(n0)
    {
      var n := n0;
      while n < 0
        invariant n % 255 == n0 % 255
        decreases -n
      {
        n := n + 255;
      }
      while n >= 256
        invariant n >= 0 && n % 255 == n0 % 255
      {
        n := n - 255;
      }
      PowerIsPeriodic(n);
      r := expTable[n];
    }
  }

  lemma PowerIsNew(i: nat)
    requires i < 255
    ensures forall k: nat :: k < i ==> Number(Power(k)) != Number(Power(i))
  {
    forall k: nat | k < i ensures Number(Power(k)) != Number(Power(i)) {
      PowersDiffer(k, i);
      if Number(Power(k)) == Number(Power(i)) {
        SameNumber(Power(k), Power(i));
      }
    }
  }
}
