/** The product of x + p(i) for i below n, where p runs through the powers of one element:
    none of its coefficients is zero before the powers come round. These are the
    generator polynomials of Reed-Solomon codes, and their coefficients are, but for a
    power, the Gaussian binomials; the proof is the ratio of two neighbours. */
module PowerProducts {
  import opened Polynomials

  function PowerProduct<T>(f: Field<T>, p: nat -> T, n: nat): (g: seq<T>)
    ensures |g| == n + 1
  {
    if n == 0 then [f.one] else Times(f, PowerProduct(f, p, n - 1), [f.one, p(n - 1)])
  }

  /** Exponents add up. */
  predicate PowerAt<T(==)>(f: Field<T>, p: nat -> T, m: nat, n: nat) {
    f.mul(p(m), p(n)) == p(m + n)
  }

  ghost predicate Powers<T(!new)>(f: Field<T>, p: nat -> T) {
    p(0) == f.one && forall m, n :: PowerAt(f, p, m, n)
  }

  ghost predicate Laws<T(!new)>(f: Field<T>, p: nat -> T) {
    AddLaws(f) && MulLaws(f) && Powers(f, p)
  }

  /** The k-th coefficient, from the highest. */
  function Coef<T>(f: Field<T>, p: nat -> T, n: nat, k: int): T {
    At(f, PowerProduct(f, p, n), k)
  }

  lemma NextCoef<T(!new)>(f: Field<T>, p: nat -> T, n: nat, k: int)
    requires Laws(f, p) && k <= n + 1
    ensures Coef(f, p, n + 1, k) == f.add(Coef(f, p, n, k), f.mul(p(n), Coef(f, p, n, k - 1)))
  {
    if k >= 0 {
      TimesPair(f, PowerProduct(f, p, n), p(n), k);
    } else {
      MulZeroOne(f, p(n));
      AddZero(f, f.zero);
    }
  }

  lemma {:induction false} LeadsWithOne<T(!new)>(f: Field<T>, p: nat -> T, n: nat)
    requires Laws(f, p)
    ensures Coef(f, p, n, 0) == f.one
  {
    if n > 0 {
      LeadsWithOne(f, p, n - 1);
      NextCoef(f, p, n - 1, 0);
      MulZeroOne(f, p(n - 1));
      AddZero(f, f.one);
    }
  }

  // ---- Arithmetic

  /** 1 + p(k), which is zero exactly when p(k) is 1. */
  function OnePlus<T>(f: Field<T>, p: nat -> T, k: nat): T {
    f.add(f.one, p(k))
  }

  lemma LeftDistributes<T(!new)>(f: Field<T>, c: T, a: T, b: T)
    requires MulLaws(f)
    ensures f.mul(c, f.add(a, b)) == f.add(f.mul(c, a), f.mul(c, b))
  {
    assert MulAt(f, a, b, c) && MulAt(f, c, f.add(a, b), c) && MulAt(f, c, a, c) && MulAt(f, c, b, c);
  }

  lemma PowerTimesOnePlus<T(!new)>(f: Field<T>, p: nat -> T, a: nat, b: nat)
    requires Laws(f, p)
    ensures f.mul(p(a), OnePlus(f, p, b)) == f.add(p(a), p(a + b))
  {
    LeftDistributes(f, p(a), f.one, p(b));
    MulZeroOne(f, p(a));
    assert PowerAt(f, p, a, b);
  }

  lemma MiddleCancels<T(!new)>(f: Field<T>, a: T, b: T, c: T)
    requires AddLaws(f)
    ensures f.add(f.add(a, b), f.add(b, c)) == f.add(a, c)
  {
    assert AddAt(f, a, b, f.add(b, c)) && AddAt(f, b, b, c);
    AddZero(f, c);
  }

  /** The factor both sides of the ratio come to. */
  lemma SameFactor<T(!new)>(f: Field<T>, p: nat -> T, n: nat, k: nat)
    requires Laws(f, p) && 1 <= k <= n + 1
    ensures f.add(f.mul(p(k - 1), OnePlus(f, p, n + 1 - k)), f.mul(OnePlus(f, p, k), p(n)))
         == f.mul(p(k - 1), OnePlus(f, p, n + 1))
    ensures f.add(f.mul(p(k - 1), OnePlus(f, p, n + 2 - k)), f.mul(p(n + 1), OnePlus(f, p, k - 1)))
         == f.mul(p(k - 1), OnePlus(f, p, n + 1))
  {
    PowerTimesOnePlus(f, p, k - 1, n + 1 - k);
    PowerTimesOnePlus(f, p, k - 1, n + 2 - k);
    PowerTimesOnePlus(f, p, n, k);
    PowerTimesOnePlus(f, p, n + 1, k - 1);
    PowerTimesOnePlus(f, p, k - 1, n + 1);
    assert MulAt(f, OnePlus(f, p, k), p(n), f.one);
    MiddleCancels(f, p(k - 1), p(n), p(n + k));
    MiddleCancels(f, p(k - 1), p(n + 1), p(n + k));
  }

  // ---- The ratio of neighbours

  /** (1 + p(k)) g(k) = p(k - 1) (1 + p(n + 1 - k)) g(k - 1). */
  predicate Ratio<T(==)>(f: Field<T>, p: nat -> T, n: nat, k: nat)
    requires 1 <= k <= n + 1
  {
    f.mul(OnePlus(f, p, k), Coef(f, p, n, k)) == f.mul(f.mul(p(k - 1), OnePlus(f, p, n + 1 - k)), Coef(f, p, n, k - 1))
  }

  lemma LeftSide<T(!new)>(f: Field<T>, p: nat -> T, n: nat, k: nat)
    requires Laws(f, p) && 1 <= k <= n + 1 && Ratio(f, p, n, k)
    ensures f.mul(OnePlus(f, p, k), Coef(f, p, n + 1, k))
         == f.mul(f.mul(p(k - 1), OnePlus(f, p, n + 1)), Coef(f, p, n, k - 1))
  {
    var s, h := OnePlus(f, p, k), Coef(f, p, n, k - 1);
    var u, v := f.mul(p(k - 1), OnePlus(f, p, n + 1 - k)), f.mul(s, p(n));
    NextCoef(f, p, n, k);
    LeftDistributes(f, s, Coef(f, p, n, k), f.mul(p(n), h));
    assert MulAt(f, s, p(n), h) && MulAt(f, u, v, h);
    SameFactor(f, p, n, k);
  }

  lemma RightSide<T(!new)>(f: Field<T>, p: nat -> T, n: nat, k: nat)
    requires Laws(f, p) && 1 <= k <= n + 1 && (k >= 2 ==> Ratio(f, p, n, k - 1))
    ensures f.mul(f.mul(p(k - 1), OnePlus(f, p, n + 2 - k)), Coef(f, p, n + 1, k - 1))
         == f.mul(f.mul(p(k - 1), OnePlus(f, p, n + 1)), Coef(f, p, n, k - 1))
  {
    var h, g := Coef(f, p, n, k - 1), Coef(f, p, n, k - 2);
    var u := f.mul(p(k - 1), OnePlus(f, p, n + 2 - k));
    NextCoef(f, p, n, k - 1);
    LeftDistributes(f, u, h, f.mul(p(n), g));
    Carried(f, p, n, k);
    var v := f.mul(p(n + 1), OnePlus(f, p, k - 1));
    assert MulAt(f, u, v, h);
    SameFactor(f, p, n, k);
  }

  /** What the coefficient before contributes. */
  lemma Carried<T(!new)>(f: Field<T>, p: nat -> T, n: nat, k: nat)
    requires Laws(f, p) && 1 <= k <= n + 1 && (k >= 2 ==> Ratio(f, p, n, k - 1))
    ensures f.mul(f.mul(p(k - 1), OnePlus(f, p, n + 2 - k)), f.mul(p(n), Coef(f, p, n, k - 2)))
         == f.mul(f.mul(p(n + 1), OnePlus(f, p, k - 1)), Coef(f, p, n, k - 1))
  {
    var g, h := Coef(f, p, n, k - 2), Coef(f, p, n, k - 1);
    var w := OnePlus(f, p, n + 2 - k);
    if k == 1 {
      MulZeroOne(f, p(n));
      MulZeroOne(f, f.mul(p(0), w));
      assert AddAt(f, f.one, f.one, f.one);
      MulZeroOne(f, p(n + 1));
      MulZeroOne(f, h);
    } else {
      var a, b, c, d := p(k - 1), p(n), p(n + 1), p(k - 2);
      assert PowerAt(f, p, k - 1, n) && PowerAt(f, p, n + 1, k - 2);
      assert f.mul(a, b) == f.mul(c, d);
      Exchange(f, a, b, c, d, w, g);
      assert MulAt(f, c, OnePlus(f, p, k - 1), h);
    }
  }

  lemma Exchange<T(!new)>(f: Field<T>, a: T, b: T, c: T, d: T, w: T, g: T)
    requires MulLaws(f) && f.mul(a, b) == f.mul(c, d)
    ensures f.mul(f.mul(a, w), f.mul(b, g)) == f.mul(c, f.mul(f.mul(d, w), g))
  {
    assert MulAt(f, a, w, f.mul(b, g)) && MulAt(f, w, b, g) && MulAt(f, b, w, g);
    assert MulAt(f, a, b, f.mul(w, g)) && MulAt(f, c, d, f.mul(w, g)) && MulAt(f, d, w, g);
  }

  lemma RatioAtTheEnd<T(!new)>(f: Field<T>, p: nat -> T, n: nat)
    requires Laws(f, p)
    ensures Ratio(f, p, n, n + 1)
  {
    assert AddAt(f, f.one, f.one, f.one);
    assert OnePlus(f, p, 0) == f.zero;
    MulZeroOne(f, p(n));
    MulZeroOne(f, Coef(f, p, n, n));
    MulZeroOne(f, OnePlus(f, p, n + 1));
  }

  lemma {:induction false} RatioHolds<T(!new)>(f: Field<T>, p: nat -> T, n: nat, k: nat)
    requires Laws(f, p) && 1 <= k <= n + 1
    ensures Ratio(f, p, n, k)
    decreases n
  {
    if k == n + 1 {
      RatioAtTheEnd(f, p, n);
    } else {
      RatioHolds(f, p, n - 1, k);
      if k >= 2 {
        RatioHolds(f, p, n - 1, k - 1);
      }
      RatioStep(f, p, n - 1, k);
    }
  }

  lemma RatioStep<T(!new)>(f: Field<T>, p: nat -> T, n: nat, k: nat)
    requires Laws(f, p) && 1 <= k <= n + 1 && Ratio(f, p, n, k) && (k >= 2 ==> Ratio(f, p, n, k - 1))
    ensures Ratio(f, p, n + 1, k)
  {
    LeftSide(f, p, n, k);
    RightSide(f, p, n, k);
  }

  // ---- Its zeros

  lemma FactorVanishes<T(!new)>(f: Field<T>, c: T)
    requires AddLaws(f) && MulLaws(f)
    ensures Eval(f, [f.one, c], c) == f.zero
  {
    var none: seq<T> := [];
    assert [f.one, c][..1] == [f.one] && [f.one][..0] == none;
    assert Eval(f, none, c) == f.zero;
    MulZeroOne(f, c);
    AddZero(f, f.one);
    assert Eval(f, [f.one], c) == f.one;
    assert AddAt(f, c, c, c);
  }

  /** Each factor's element is a zero of the product. */
  lemma {:induction false} Vanishes<T(!new)>(f: Field<T>, p: nat -> T, n: nat, i: nat)
    requires AddLaws(f) && MulLaws(f) && i < n
    ensures Eval(f, PowerProduct(f, p, n), p(i)) == f.zero
  {
    EvalTimes(f, PowerProduct(f, p, n - 1), [f.one, p(n - 1)], p(i));
    if i == n - 1 {
      FactorVanishes(f, p(i));
      MulZeroOne(f, Eval(f, PowerProduct(f, p, n - 1), p(i)));
    } else {
      Vanishes(f, p, n - 1, i);
      MulZeroOne(f, Eval(f, [f.one, p(n - 1)], p(i)));
    }
  }

  // ---- No coefficient is zero

  /** There are no divisors of zero, and no power before the given one is 1 again. */
  ghost predicate NoneIsOne<T(!new)>(f: Field<T>, p: nat -> T, bound: nat) {
    && f.one != f.zero
    && (forall a, b :: f.mul(a, b) == f.zero ==> a == f.zero || b == f.zero)
    && (forall k :: p(k) != f.zero)
    && (forall k :: 0 < k < bound ==> p(k) != f.one)
  }

  lemma OnePlusIsNotZero<T(!new)>(f: Field<T>, p: nat -> T, k: nat, bound: nat)
    requires Laws(f, p) && NoneIsOne(f, p, bound) && 0 < k < bound
    ensures OnePlus(f, p, k) != f.zero
  {
    if OnePlus(f, p, k) == f.zero {
      assert AddAt(f, f.one, f.one, p(k));
      AddZero(f, p(k));
      AddZero(f, f.one);
    }
  }

  /** A product of fewer factors than there are different powers has no zero
      coefficient. */
  lemma {:induction false} EveryCoefIsNotZero<T(!new)>(f: Field<T>, p: nat -> T, n: nat, k: nat, bound: nat)
    requires Laws(f, p) && NoneIsOne(f, p, bound) && k <= n < bound
    ensures Coef(f, p, n, k) != f.zero
  {
    if k == 0 {
      LeadIsOne(f, p, n);
    } else {
      EveryCoefIsNotZero(f, p, n, k - 1, bound);
      RatioHolds(f, p, n, k);
      OnePlusIsNotZero(f, p, n + 1 - k, bound);
      MulZeroOne(f, OnePlus(f, p, k));
      assert f.mul(p(k - 1), OnePlus(f, p, n + 1 - k)) != f.zero;
    }
  }

  lemma {:induction false} LeadIsOne<T(!new)>(f: Field<T>, p: nat -> T, n: nat)
    requires Laws(f, p)
    ensures Coef(f, p, n, 0) == f.one
  {
    if n > 0 {
      LeadIsOne(f, p, n - 1);
      NextCoef(f, p, n - 1, 0);
      MulZeroOne(f, p(n - 1));
      AddZero(f, f.one);
    }
  }
}
