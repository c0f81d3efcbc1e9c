/** The field of 256 elements in which QR codes compute their error correction
    (ISO/IEC 18004:2015 section 7.5): bytes as polynomials over two elements, modulo
    x^8 + x^4 + x^3 + x^2 + 1. Addition is exclusive or. */
module Galois {
  import opened Common

  function Add(a: bv8, b: bv8): bv8 {
    a ^ b
  }

  /** Times x. */
  function XTime(a: bv8): bv8 {
    (a << 1) ^ (if a & 0x80 != 0 then 0x1d else 0)
  }

  /** The coefficients of the polynomial, x^0 first. */
  function BitsOf(b: bv8): (r: seq<bool>)
    ensures |r| == 8
  {
    [b & 1 != 0, b & 2 != 0, b & 4 != 0, b & 8 != 0, b & 16 != 0, b & 32 != 0, b & 64 != 0, b & 128 != 0]
  }

  /** The sum of f's iterates of a, as many times as the bits say. */
  function SumBits<T>(add: (T, T) -> T, zero: T, f: T -> T, a: T, bits: seq<bool>): T {
    if bits == [] then zero
    else add(if bits[0] then a else zero, SumBits(add, zero, f, f(a), bits[1..]))
  }

  /** The product: a times x^i for every bit i of b. */
  function Mul(a: bv8, b: bv8): bv8 {
    SumBits(Add, 0, XTime, a, BitsOf(b))
  }

  /** The powers of x. */
  function Power(n: nat): bv8 {
    if n == 0 then 1 else XTime(Power(n - 1))
  }

  // ---- Sums over any commutative group

  ghost predicate Group<T(!new)>(add: (T, T) -> T, zero: T) {
    && (forall a, b, c, d :: add(add(a, b), add(c, d)) == add(add(a, c), add(b, d)))
    && add(zero, zero) == zero
  }

  ghost predicate Linear<T(!new)>(add: (T, T) -> T, zero: T, f: T -> T) {
    f(zero) == zero && forall a, b :: f(add(a, b)) == add(f(a), f(b))
  }

  lemma {:induction false} SumBitsAdds<T(!new)>(add: (T, T) -> T, zero: T, f: T -> T, a: T, a': T, bits: seq<bool>)
    requires Group(add, zero) && Linear(add, zero, f)
    ensures SumBits(add, zero, f, add(a, a'), bits) == add(SumBits(add, zero, f, a, bits), SumBits(add, zero, f, a', bits))
    decreases |bits|
  {
    if bits != [] {
      SumBitsAdds(add, zero, f, f(a), f(a'), bits[1..]);
      assert f(add(a, a')) == add(f(a), f(a'));
    }
  }

  lemma {:induction false} SumBitsMaps<T(!new)>(add: (T, T) -> T, zero: T, f: T -> T, a: T, bits: seq<bool>)
    requires Linear(add, zero, f)
    ensures SumBits(add, zero, f, f(a), bits) == f(SumBits(add, zero, f, a, bits))
    decreases |bits|
  {
    if bits != [] {
      SumBitsMaps(add, zero, f, f(a), bits[1..]);
    }
  }

  lemma {:induction false} SumBitsZero<T(!new)>(add: (T, T) -> T, zero: T, f: T -> T, bits: seq<bool>)
    requires Group(add, zero) && Linear(add, zero, f)
    ensures SumBits(add, zero, f, zero, bits) == zero
    decreases |bits|
  {
    if bits != [] {
      SumBitsZero(add, zero, f, bits[1..]);
    }
  }

  // ---- Bytes

  lemma XorSwap(a: bv8, b: bv8, c: bv8, d: bv8)
    ensures (a ^ b) ^ (c ^ d) == (a ^ c) ^ (b ^ d)
  {
  }

  lemma AddIsXor(a: bv8, b: bv8)
    ensures Add(a, b) == a ^ b
  {
  }

  lemma XorsSwap(a: bv8, b: bv8, c: bv8, d: bv8, ab: bv8, cd: bv8, ac: bv8, bd: bv8)
    requires ab == a ^ b && cd == c ^ d && ac == a ^ c && bd == b ^ d
    ensures ab ^ cd == ac ^ bd
  {
  }

  lemma AddSwap(a: bv8, b: bv8, c: bv8, d: bv8)
    ensures Add(Add(a, b), Add(c, d)) == Add(Add(a, c), Add(b, d))
  {
    AddIsXor(a, b);
    AddIsXor(c, d);
    AddIsXor(a, c);
    AddIsXor(b, d);
    AddIsXor(Add(a, b), Add(c, d));
    AddIsXor(Add(a, c), Add(b, d));
    XorsSwap(a, b, c, d, Add(a, b), Add(c, d), Add(a, c), Add(b, d));
  }

  lemma TopBits(a: bv8, b: bv8)
    ensures (a ^ b) & 0x80 != 0 <==> (a & 0x80 != 0) != (b & 0x80 != 0)
  {
  }

  lemma ShiftAdds(a: bv8, b: bv8)
    ensures (a ^ b) << 1 == (a << 1) ^ (b << 1)
  {
  }

  lemma XTimeAdds(a: bv8, b: bv8)
    ensures XTime(a ^ b) == XTime(a) ^ XTime(b)
  {
    TopBits(a, b);
    ShiftAdds(a, b);
    XorSwap(a << 1, if a & 0x80 != 0 then 0x1d else 0, b << 1, if b & 0x80 != 0 then 0x1d else 0);
  }

  lemma XTimeIsInjective(a: bv8, b: bv8)
    requires XTime(a) == XTime(b)
    ensures a == b
  {
  }

  lemma AddIsAGroup()
    ensures Group(Add, 0)
  {
    forall a: bv8, b: bv8, c: bv8, d: bv8 ensures Add(Add(a, b), Add(c, d)) == Add(Add(a, c), Add(b, d)) {
      AddSwap(a, b, c, d);
    }
  }

  lemma XTimeIsLinear()
    ensures Linear(Add, 0, XTime)
  {
    forall a: bv8, b: bv8 ensures XTime(Add(a, b)) == Add(XTime(a), XTime(b)) {
      XTimeAdds(a, b);
    }
  }

  /** Multiplication distributes over addition. */
  lemma MulAdds(a: bv8, a': bv8, b: bv8)
    ensures Mul(Add(a, a'), b) == Add(Mul(a, b), Mul(a', b))
  {
    AddIsAGroup();
    XTimeIsLinear();
    SumBitsAdds(Add, 0, XTime, a, a', BitsOf(b));
  }

  lemma MulXTime(a: bv8, b: bv8)
    ensures Mul(XTime(a), b) == XTime(Mul(a, b))
  {
    XTimeIsLinear();
    SumBitsMaps(Add, 0, XTime, a, BitsOf(b));
  }

  function Pick(c: bool, a: bv8): bv8 {
    if c then a else 0
  }

  lemma MulOne(b: bv8)
    ensures Mul(1, b) == b
  {
    MulOneHigh(BitsOf(b));
    MulOneLow(BitsOf(b), SumBits(Add, 0, XTime, 16, BitsOf(b)[4..]));
    Recompose(b);
  }

  lemma MulOneLow(s: seq<bool>, p4: bv8)
    requires |s| == 8 && SumBits(Add, 0, XTime, 16, s[4..]) == p4
    ensures SumBits(Add, 0, XTime, 1, s) == Add(Pick(s[0], 1), Add(Pick(s[1], 2), Add(Pick(s[2], 4), Add(Pick(s[3], 8), p4))))
  {
    assert s[3..][1..] == s[4..];
    SumFrom(8, s[3..], p4);
    var p3 := Add(Pick(s[3], 8), p4);
    assert s[2..][1..] == s[3..];
    SumFrom(4, s[2..], p3);
    var p2 := Add(Pick(s[2], 4), p3);
    assert s[1..][1..] == s[2..];
    SumFrom(2, s[1..], p2);
    var p1 := Add(Pick(s[1], 2), p2);
    assert s[0..][1..] == s[1..];
    SumFrom(1, s[0..], p1);
    assert s[0..] == s;
  }

  lemma MulOneHigh(s: seq<bool>)
    requires |s| == 8
    ensures SumBits(Add, 0, XTime, 16, s[4..]) == Add(Pick(s[4], 16), Add(Pick(s[5], 32), Add(Pick(s[6], 64), Add(Pick(s[7], 128), 0))))
  {
    var p8: bv8 := 0;
    assert s[7..][1..] == s[8..];
    SumFrom(128, s[7..], p8);
    var p7 := Add(Pick(s[7], 128), p8);
    assert s[6..][1..] == s[7..];
    SumFrom(64, s[6..], p7);
    var p6 := Add(Pick(s[6], 64), p7);
    assert s[5..][1..] == s[6..];
    SumFrom(32, s[5..], p6);
    var p5 := Add(Pick(s[5], 32), p6);
    assert s[4..][1..] == s[5..];
    SumFrom(16, s[4..], p5);
  }

  lemma SumFrom(a: bv8, bits: seq<bool>, rest: bv8)
    requires bits != [] && SumBits(Add, 0, XTime, XTime(a), bits[1..]) == rest
    ensures SumBits(Add, 0, XTime, a, bits) == Add(Pick(bits[0], a), rest)
  {
  }

  lemma Recompose(b: bv8)
    ensures var s := BitsOf(b);
      var p4 := Add(Pick(s[4], 16), Add(Pick(s[5], 32), Add(Pick(s[6], 64), Add(Pick(s[7], 128), 0))));
      Add(Pick(s[0], 1), Add(Pick(s[1], 2), Add(Pick(s[2], 4), Add(Pick(s[3], 8), p4)))) == b
  {
  }

  // ---- The powers of x run through the field

  /** The exponents of powers add up. */
  lemma {:induction false} PowersMultiply(m: nat, n: nat)
    ensures Mul(Power(m), Power(n)) == Power(m + n)
  {
    if m == 0 {
      MulOne(Power(n));
    } else {
      PowersMultiply(m - 1, n);
      MulXTime(Power(m - 1), Power(n));
    }
  }

  lemma {:induction false} PowerNonzero(n: nat)
    ensures Power(n) != 0
  {
    if n > 0 {
      PowerNonzero(n - 1);
      assert XTime(0) == 0;
      if Power(n) == 0 {
        XTimeIsInjective(Power(n - 1), 0);
      }
    }
  }

  /** Some powers; the last of them is the first again. */
  lemma SomePowers()
    ensures Power(15) != 1 && Power(51) != 1 && Power(85) != 1 && Power(255) == 1
  {
    assert Power(15) == 38;
    assert Power(16) == 76;
    assert Power(24) == 143;
    assert Power(32) == 157;
    assert Power(40) == 106;
    assert Power(48) == 70;
    assert Power(51) == 10;
    assert Power(56) == 93;
    assert Power(64) == 95;
    assert Power(72) == 101;
    assert Power(80) == 253;
    assert Power(85) == 214;
    assert Power(88) == 254;
    assert Power(96) == 217;
    assert Power(104) == 13;
    assert Power(112) == 129;
    assert Power(120) == 59;
    assert Power(128) == 133;
    assert Power(136) == 79;
    assert Power(144) == 168;
    assert Power(152) == 73;
    assert Power(160) == 230;
    assert Power(168) == 252;
    assert Power(176) == 227;
    assert Power(184) == 149;
    assert Power(192) == 130;
    assert Power(200) == 28;
    assert Power(208) == 81;
    assert Power(216) == 195;
    assert Power(224) == 18;
    assert Power(232) == 247;
    assert Power(240) == 44;
    assert Power(248) == 27;
    assert Power(255) == 1;
  }
}
