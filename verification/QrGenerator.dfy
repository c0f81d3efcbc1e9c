/** The generator polynomial of extension/lib/qrcode.js, and what having it as the divisor
    makes of a block: all its syndromes are zero. */
module QrGenerator {
  import opened Common
  import opened Galois
  import opened QrMath
  import opened Polynomials
  import opened PowerProducts
  import opened QrPolynomial
  import opened QrErrorCorrection

  /** The product of x - a^i for every i below n, where a is the field's x. */
  function Generator(n: nat): (g: seq<bv8>)
    ensures |g| == n + 1
  {
    PowerProduct(FIELD, Power, n)
  }

  lemma GeneratorVanishes(n: nat, i: nat)
    requires i < n
    ensures Eval(FIELD, Generator(n), Power(i)) == 0
  {
    BytesAreAField();
    Vanishes(FIELD, Power, n, i);
  }

  /** The powers obey the laws the coefficients of a product of factors rest on. */
  lemma PowersAreLawful()
    ensures Laws(FIELD, Power) && NoneIsOne(FIELD, Power, 255)
  {
    BytesAreAField();
    forall m, n ensures PowerAt(FIELD, Power, m, n) {
      PowersMultiply(m, n);
    }
    forall a: bv8, b: bv8 | Mul(a, b) == 0 ensures a == 0 || b == 0 {
      NoZeroDivisors(a, b);
    }
    forall k: nat ensures Power(k) != 0 {
      PowerNonzero(k);
    }
    forall k: nat | 0 < k < 255 ensures Power(k) != 1 {
      OrderIs255(k);
    }
  }

  /** Its degree is n and its first coefficient 1, so it is the product of the n factors and
      no multiple of it. */
  lemma GeneratorLeadsWithOne(n: nat)
    ensures |Generator(n)| == n + 1 && Generator(n)[0] == 1
  {
    PowersAreLawful();
    LeadsWithOne(FIELD, Power, n);
  }

  lemma NoZeroDivisors(a: bv8, b: bv8)
    requires Mul(a, b) == 0
    ensures a == 0 || b == 0
  {
    if a != 0 && b != 0 {
      MulIsProductOfLogs(a, b);
      PowerNonzero((Log(a) + Log(b)) % 255);
    }
  }

  /** The generator of fewer than 255 codewords has no zero coefficient. */
  lemma GeneratorIsFull(n: nat)
    requires n < 255
    ensures NoZero(Generator(n))
  {
    PowersAreLawful();
    forall k | 0 <= k <= n ensures Generator(n)[k] != 0 {
      EveryCoefIsNotZero(FIELD, Power, n, k, 255);
    }
  }

  /** A block with its n error correction codewords vanishes at the first n powers: what
      a reader checks to find no errors in it. */
  lemma SyndromesVanish(data: seq<bv8>, n: nat, i: nat)
    requires i < n < 255
    ensures NoZero(Generator(n))
    ensures Eval(FIELD, data + Vals(Codewords(data, Generator(n))), Power(i)) == 0
  {
    GeneratorIsFull(n);
    var q := BlockIsMultiple(data, Generator(n));
    BytesAreAField();
    EvalTimes(FIELD, q, Generator(n), Power(i));
    GeneratorVanishes(n, i);
    MulZero(Eval(FIELD, q, Power(i)));
  }

  // ---- The program

  /** No generator on the way has a zero coefficient. */
  predicate GeneratorsAreFull(n: nat) {
    forall k :: 0 <= k < n ==> NoZero(Generator(k))
  }

  /** So the loop does not throw for any number of codewords a block can have. */
  lemma GeneratorsNeverThrow(n: nat)
    requires n <= 255
    ensures GeneratorsAreFull(n)
  {
    forall k | 0 <= k < n ensures NoZero(Generator(k)) {
      GeneratorIsFull(k);
    }
  }

  lemma {:induction false} GeneratorLeads(n: nat)
    ensures Generator(n)[0] == 1
  {
    if n > 0 {
      var g, e := Generator(n - 1), [1, Power(n - 1)];
      GeneratorLeads(n - 1);
      MulOne(1);
      AddLawsAt(1, 0, 0);
      assert (Scale(FIELD, e, g[0]) + Zeros(FIELD, |g| - 1))[0] == Mul(1, 1);
      assert ([0] + Times(FIELD, g[1..], e))[0] == 0;
      AddLawsAt(0, 1, 0);
    }
  }

  /** A generator has nothing to strip. */
  lemma GeneratorIsKept(n: nat)
    ensures Vals(Strip(Somes(Generator(n)))) == Generator(n)
  {
    GeneratorLeads(n);
    assert Strip(Somes(Generator(n))) == Somes(Generator(n));
  }

  method GetErrorCorrectPolynomial(m: QRMath, n: nat) returns (r: Option<seq<bv8>>)
    requires m.Valid()
    ensures r == if GeneratorsAreFull(n) then Some(Generator(n)) else None
  {
    r := Some([1]);
    var i := 0;
    while i < n
      invariant 0 <= i <= n && r == Some(Generator(i)) && GeneratorsAreFull(i)
    {
      r := NextGenerator(m, i, r.value);
      if r.None? {
        return None;
      }
      i := i + 1;
    }
  }

  method NextGenerator(m: QRMath, i: nat, a: seq<bv8>) returns (r: Option<seq<bv8>>)
    requires m.Valid() && a == Generator(i)
    ensures r == if NoZero(a) then Some(Generator(i + 1)) else None
  {
    var g := m.Gexp(i);
    PowerIsPeriodic(i);
    PowerNonzero(i);
    var p := Multiply(m, a, [1, g]);
    if p.None? {
      return None;
    }
    GeneratorIsKept(i + 1);
    return Some(Vals(p.value));
  }
}
