/** Reed-Solomon error correction as extension/lib/qrcode.js computes it: qrPolynomial with
    its leading zeros stripped and its shift left as holes in the array, the recursive
    mod, and a block's error correction codewords
    (ISO/IEC 18004:2015 section 7.5). */
module QrPolynomial {
  import opened Common
  import opened Galois
  import opened QrMath
  import opened Polynomials

  const FIELD: Field<bv8> := Field(0, 1, Add, Mul)

  ghost function DivOrZero(a: bv8, b: bv8): bv8 {
    if a == 0 || b == 0 then 0 else Div(a, b)
  }

  // ---- The bytes are a field

  lemma XorLaws(a: bv8, b: bv8, c: bv8)
    ensures a ^ b == b ^ a && (a ^ b) ^ c == a ^ (b ^ c) && 0 ^ a == a && a ^ a == 0
  {
  }

  lemma AddLawsAt(a: bv8, b: bv8, c: bv8)
    ensures AddAt(FIELD, a, b, c)
  {
    XorLaws(a, b, c);
    AddIsXor(a, b);
    AddIsXor(b, a);
    AddIsXor(b, c);
    AddIsXor(0, a);
    AddIsXor(a, a);
    AddIsXor(Add(a, b), c);
    AddIsXor(a, Add(b, c));
  }

  lemma MulZero(a: bv8)
    ensures Mul(0, a) == 0 && Mul(a, 0) == 0
  {
    AddIsAGroup();
    XTimeIsLinear();
    SumBitsZero(Add, 0, XTime, BitsOf(a));
    NoBitsSet();
    SumNoBits(Add, 0 as bv8, XTime, a, BitsOf(0));
  }

  lemma NoBitsSet()
    ensures forall i :: 0 <= i < 8 ==> !BitsOf(0)[i]
  {
  }

  lemma {:induction false} SumNoBits<T>(add: (T, T) -> T, zero: T, f: T -> T, a: T, bits: seq<bool>)
    requires add(zero, zero) == zero && forall i :: 0 <= i < |bits| ==> !bits[i]
    ensures SumBits(add, zero, f, a, bits) == zero
    decreases |bits|
  {
    if bits != [] {
      SumNoBits(add, zero, f, f(a), bits[1..]);
    }
  }

  lemma MulIsCommutative(a: bv8, b: bv8)
    ensures Mul(a, b) == Mul(b, a)
  {
    if a == 0 || b == 0 {
      MulZero(a);
      MulZero(b);
    } else {
      MulIsProductOfLogs(a, b);
      MulIsProductOfLogs(b, a);
    }
  }

  lemma MulIsAssociative(a: bv8, b: bv8, c: bv8)
    ensures Mul(Mul(a, b), c) == Mul(a, Mul(b, c))
  {
    if a == 0 || b == 0 || c == 0 {
      MulZero(a);
      MulZero(b);
      MulZero(c);
      MulZero(Mul(a, b));
      MulZero(Mul(b, c));
    } else {
      var i, j, k := Log(a), Log(b), Log(c);
      PowersMultiply(i, j);
      PowersMultiply(j, k);
      PowersMultiply(i + j, k);
      PowersMultiply(i, j + k);
    }
  }

  lemma MulLawsAt(a: bv8, b: bv8, c: bv8)
    ensures MulAt(FIELD, a, b, c)
  {
    MulIsCommutative(a, b);
    MulIsAssociative(a, b, c);
    MulAdds(a, b, c);
    MulZero(a);
    MulOne(a);
  }

  lemma BytesAreAField()
    ensures AddLaws(FIELD) && MulLaws(FIELD) && Divides(FIELD, DivOrZero)
  {
    forall a, b, c ensures AddAt(FIELD, a, b, c) {
      AddLawsAt(a, b, c);
    }
    forall a, b, c ensures MulAt(FIELD, a, b, c) {
      MulLawsAt(a, b, c);
    }
    forall a: bv8, b: bv8 | a != 0 && b != 0 ensures Mul(b, DivOrZero(a, b)) == a {
      MulDiv(a, b);
    }
  }

  // ---- Polynomials in the program

  /** The array behind a polynomial; None is a hole. */
  type Coefs = seq<Option<bv8>>

  /** What a hole is in a sum. */
  function Val(c: Option<bv8>): bv8 {
    if c.Some? then c.value else 0
  }

  function Vals(num: Coefs): (r: seq<bv8>)
    ensures |r| == |num|
  {
    seq(|num|, i requires 0 <= i < |num| => Val(num[i]))
  }

  /** Leading zeros go; a hole is not a zero. */
  function Strip(num: Coefs): (r: Coefs)
    ensures |r| <= |num| && Stripped(r)
    ensures num != [] && num[0] == Some(0) ==> |r| < |num|
  {
    if num != [] && num[0] == Some(0) then Strip(num[1..]) else num
  }

  predicate Stripped(num: Coefs) {
    num == [] || num[0] != Some(0)
  }

  function Holes(n: nat): (r: Coefs)
    ensures |r| == n
  {
    seq(n, i => None)
  }

  /** qrPolynomial(num, shift). */
  function Make(num: Coefs, shift: nat): Coefs {
    Strip(num) + Holes(shift)
  }

  predicate NoZero(e: seq<bv8>) {
    forall i :: 0 <= i < |e| ==> e[i] != 0
  }

  /** What mod takes from a coefficient; with a hole in front the ratio is not a number,
      and nothing is taken. */
  ghost function Taken(first: Option<bv8>, e: seq<bv8>, i: nat): bv8
    requires i < |e| && e[0] != 0 && e[i] != 0 && first != Some(0)
  {
    if first.None? then 0 else Exp(Log(e[i]) + (Log(first.value) - Log(e[0])))
  }

  ghost function ModStep(a: Coefs, e: seq<bv8>): (r: Coefs)
    requires 0 < |e| <= |a| && NoZero(e) && Stripped(a)
    ensures |r| == |a|
  {
    seq(|a|, i requires 0 <= i < |a| => if i < |e| then Some(Add(Val(a[i]), Taken(a[0], e, i))) else a[i])
  }

  /** The first coefficient is cancelled. */
  lemma ModStepCancels(a: Coefs, e: seq<bv8>)
    requires 0 < |e| <= |a| && NoZero(e) && Stripped(a)
    ensures ModStep(a, e)[0] == Some(0)
  {
    if a[0].Some? {
      var v := a[0].value;
      LogsCancel(Log(e[0]), Log(v));
      AddLawsAt(v, v, v);
    } else {
      AddLawsAt(0, 0, 0);
    }
  }

  lemma LogsCancel(i: nat, j: nat)
    ensures Exp(i + (j - i)) == Power(j)
  {
    PowerIsPeriodic(j);
  }

  ghost function Mod(a: Coefs, e: seq<bv8>): (r: Coefs)
    requires e != [] && NoZero(e) && Stripped(a)
    ensures |r| < |e|
    decreases |a|
  {
    if |a| < |e| then a
    else
      ModStepCancels(a, e);
      Mod(Strip(ModStep(a, e)), e)
  }

  // ---- mod is division

  /** The step of the program is the step of the division. */
  lemma ModStepReduces(a: Coefs, e: seq<bv8>)
    requires 0 < |e| <= |a| && NoZero(e) && Stripped(a)
    ensures Vals(ModStep(a, e))[1..] == Reduce(FIELD, Vals(a), e, Coefficient(FIELD, DivOrZero, Vals(a), e))
  {
    var v := Vals(a);
    var c := Coefficient(FIELD, DivOrZero, v, e);
    var s := Scale(FIELD, e, c) + Zeros(FIELD, |v| - |e|);
    forall i | 0 <= i < |v| ensures Vals(ModStep(a, e))[i] == Add(v[i], s[i]) {
      if i < |e| {
        TakenIsScaled(a[0], e, i);
      } else {
        AddLawsAt(0, v[i], 0);
        AddLawsAt(v[i], 0, 0);
      }
    }
    assert Vals(ModStep(a, e)) == Plus(FIELD, v, s);
  }

  lemma TakenIsScaled(first: Option<bv8>, e: seq<bv8>, i: nat)
    requires i < |e| && NoZero(e) && first != Some(0)
    ensures Taken(first, e, i) == Mul(e[i], if Val(first) == 0 then 0 else DivOrZero(Val(first), e[0]))
  {
    if first.None? {
      MulZero(e[i]);
    } else {
      ExpOfSum(e[i], Log(first.value) - Log(e[0]));
    }
  }

  lemma {:induction false} StripLeavesValues(num: Coefs)
    ensures Vals(num) == Zeros(FIELD, |num| - |Strip(num)|) + Vals(Strip(num))
  {
    if num != [] && num[0] == Some(0) {
      StripLeavesValues(num[1..]);
      assert Vals(num) == [0] + Vals(num[1..]);
      ZerosCons(FIELD, |num| - 1 - |Strip(num)|, Vals(Strip(num)));
    } else {
      assert Zeros(FIELD, 0) + Vals(num) == Vals(num);
    }
  }

  /** The recursive mod ends, with fewer coefficients than the divisor has, and they are the
      remainder of the division, holes counting as zero: however many zeros the dividend
      has lost in front. */
  lemma {:induction false} ModIsRemainder(a: Coefs, e: seq<bv8>, k: nat)
    requires e != [] && NoZero(e) && Stripped(a) && k + |a| >= |e| - 1
    ensures |Mod(a, e)| < |e|
    ensures Padded(FIELD, Vals(Mod(a, e)), |e| - 1) == Remainder(FIELD, DivOrZero, Zeros(FIELD, k) + Vals(a), e)
    decreases |a|
  {
    BytesAreAField();
    if |a| < |e| {
      RemainderOfFew(FIELD, DivOrZero, Vals(a), e, k, Zeros(FIELD, k) + Vals(a));
    } else {
      RemainderOfZeros(FIELD, DivOrZero, k, Vals(a), e);
      ModStepReduces(a, e);
      ModStepCancels(a, e);
      var b := ModStep(a, e);
      StrippedTail(b);
      ModIsRemainder(Strip(b), e, |b| - |Strip(b)| - 1);
    }
  }

  lemma StrippedTail(num: Coefs)
    requires num != [] && num[0] == Some(0)
    ensures Vals(num)[1..] == Zeros(FIELD, |num| - |Strip(num)| - 1) + Vals(Strip(num))
  {
    StripLeavesValues(num);
    var z := |num| - |Strip(num)|;
    assert (Zeros(FIELD, z) + Vals(Strip(num)))[1..] == Zeros(FIELD, z - 1) + Vals(Strip(num));
  }

  // ---- Error correction codewords

  function Somes(data: seq<bv8>): (r: Coefs)
    ensures |r| == |data|
  {
    seq(|data|, i requires 0 <= i < |data| => Some(data[i]))
  }

  /** The remainder as it is copied into ecdata: to the right, zeros in front. */
  ghost function Codewords(data: seq<bv8>, e: seq<bv8>): (ec: Coefs)
    requires e != [] && NoZero(e)
    ensures |ec| == |e| - 1
  {
    var n := |e| - 1;
    MakeIsStripped(Somes(data), n);
    AlignedRight(Mod(Make(Somes(data), n), e), n)
  }

  function AlignedRight(r: Coefs, n: nat): (ec: Coefs)
    requires |r| <= n
    ensures |ec| == n
  {
    seq(n, i requires 0 <= i < n => if i + |r| - n >= 0 then r[i + |r| - n] else Some(0))
  }

  lemma AlignedIsPadded(r: Coefs, n: nat)
    requires |r| <= n
    ensures Vals(AlignedRight(r, n)) == Padded(FIELD, Vals(r), n)
  {
  }

  lemma MakeIsStripped(num: Coefs, shift: nat)
    ensures Stripped(Make(num, shift))
  {
    if Strip(num) == [] && shift > 0 {
      assert Make(num, shift)[0] == None;
    }
  }

  lemma CodewordsAreTheRemainder(data: seq<bv8>, e: seq<bv8>)
    requires e != [] && NoZero(e)
    ensures Vals(Codewords(data, e)) == Remainder(FIELD, DivOrZero, data + Zeros(FIELD, |e| - 1), e)
  {
    var n := |e| - 1;
    var raw := Make(Somes(data), n);
    var k := |data| - |Strip(Somes(data))|;
    MakeIsStripped(Somes(data), n);
    RawValues(data, n);
    ModIsRemainder(raw, e, k);
    CodewordsArePadded(data, e);
  }

  lemma CodewordsArePadded(data: seq<bv8>, e: seq<bv8>)
    requires e != [] && NoZero(e)
    ensures Stripped(Make(Somes(data), |e| - 1))
    ensures Vals(Codewords(data, e)) == Padded(FIELD, Vals(Mod(Make(Somes(data), |e| - 1), e)), |e| - 1)
  {
    MakeIsStripped(Somes(data), |e| - 1);
    AlignedIsPadded(Mod(Make(Somes(data), |e| - 1), e), |e| - 1);
  }

  lemma RawValues(data: seq<bv8>, n: nat)
    ensures Zeros(FIELD, |data| - |Strip(Somes(data))|) + Vals(Make(Somes(data), n)) == data + Zeros(FIELD, n)
  {
    var stripped := Vals(Strip(Somes(data)));
    var zeros := Zeros(FIELD, |data| - |stripped|);
    StripLeavesValues(Somes(data));
    assert Vals(Somes(data)) == data;
    assert Vals(Make(Somes(data), n)) == stripped + Zeros(FIELD, n);
    assert zeros + (stripped + Zeros(FIELD, n)) == (zeros + stripped) + Zeros(FIELD, n);
  }

  /** For every block of data and every divisor without a zero coefficient: data followed
      by its error correction codewords is a sum of shifted, scaled copies of the
      divisor. */
  lemma BlockIsMultiple(data: seq<bv8>, e: seq<bv8>) returns (q: seq<bv8>)
    requires e != [] && NoZero(e)
    ensures |q| == |data|
    ensures data + Vals(Codewords(data, e)) == Times(FIELD, q, e)
  {
    BytesAreAField();
    CodewordsAreTheRemainder(data, e);
    CodewordIsMultiple(FIELD, DivOrZero, data, e);
    q := Quotient(FIELD, DivOrZero, data + Zeros(FIELD, |e| - 1), e);
  }
}
