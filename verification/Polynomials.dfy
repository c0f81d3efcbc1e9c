/** Polynomials over a field in which every element is its own negative, as lists of
    coefficients with the highest first: sums, products, evaluation, and division as one
    learns it, one quotient coefficient at a time. */
module Polynomials {

  /** Addition, multiplication, and quotients by elements other than zero. */
  datatype Field<!T> = Field(zero: T, one: T, add: (T, T) -> T, mul: (T, T) -> T)

  /** The laws of a field, at given elements. */
  predicate AddAt<T(==)>(f: Field<T>, a: T, b: T, c: T) {
    && f.add(a, b) == f.add(b, a)
    && f.add(f.add(a, b), c) == f.add(a, f.add(b, c))
    && f.add(f.zero, a) == a && f.add(a, a) == f.zero
  }

  predicate MulAt<T(==)>(f: Field<T>, a: T, b: T, c: T) {
    && f.mul(a, b) == f.mul(b, a)
    && f.mul(f.mul(a, b), c) == f.mul(a, f.mul(b, c))
    && f.mul(f.add(a, b), c) == f.add(f.mul(a, c), f.mul(b, c))
    && f.mul(f.zero, a) == f.zero && f.mul(f.one, a) == a
  }

  ghost predicate AddLaws<T(!new)>(f: Field<T>) {
    forall a, b, c :: AddAt(f, a, b, c)
  }

  ghost predicate MulLaws<T(!new)>(f: Field<T>) {
    forall a, b, c :: MulAt(f, a, b, c)
  }

  function Zeros<T>(f: Field<T>, n: nat): (r: seq<T>)
    ensures |r| == n
  {
    seq(n, i => f.zero)
  }

  function Plus<T>(f: Field<T>, a: seq<T>, b: seq<T>): (r: seq<T>)
    requires |a| == |b|
    ensures |r| == |a|
  {
    seq(|a|, i requires 0 <= i < |a| => f.add(a[i], b[i]))
  }

  function Scale<T>(f: Field<T>, e: seq<T>, c: T): (r: seq<T>)
    ensures |r| == |e|
  {
    seq(|e|, i requires 0 <= i < |e| => f.mul(e[i], c))
  }

  /** The sum of copies of e, each scaled by a coefficient of q and shifted to its place. */
  function Times<T>(f: Field<T>, q: seq<T>, e: seq<T>): (r: seq<T>)
    requires e != []
    ensures |r| == |q| + |e| - 1
  {
    if q == [] then Zeros(f, |e| - 1)
    else Plus(f, Scale(f, e, q[0]) + Zeros(f, |q| - 1), [f.zero] + Times(f, q[1..], e))
  }

  // ---- Division

  /** One step: the copy of e that cancels the first coefficient is taken away. */
  function Reduce<T>(f: Field<T>, v: seq<T>, e: seq<T>, c: T): (r: seq<T>)
    requires 0 < |e| <= |v|
    ensures |r| == |v| - 1
  {
    Plus(f, v, Scale(f, e, c) + Zeros(f, |v| - |e|))[1..]
  }

  /** What each step takes: nothing when the first coefficient is zero. */
  ghost function Coefficient<T>(f: Field<T>, div: (T, T) -> T, v: seq<T>, e: seq<T>): T
    requires v != [] && e != []
  {
    if v[0] == f.zero then f.zero else div(v[0], e[0])
  }

  ghost function Remainder<T>(f: Field<T>, div: (T, T) -> T, v: seq<T>, e: seq<T>): (r: seq<T>)
    requires e != []
    ensures |r| < |e| && (|v| >= |e| - 1 ==> |r| == |e| - 1)
    decreases |v|
  {
    if |v| < |e| then v else Remainder(f, div, Reduce(f, v, e, Coefficient(f, div, v, e)), e)
  }

  ghost function Quotient<T>(f: Field<T>, div: (T, T) -> T, v: seq<T>, e: seq<T>): (q: seq<T>)
    requires e != []
    ensures |v| >= |e| - 1 ==> |q| == |v| - |e| + 1
    decreases |v|
  {
    if |v| < |e| then []
    else
      var c := Coefficient(f, div, v, e);
      [c] + Quotient(f, div, Reduce(f, v, e, c), e)
  }

  ghost predicate Divides<T(!new)>(f: Field<T>, div: (T, T) -> T) {
    forall a, b :: a != f.zero && b != f.zero ==> f.mul(b, div(a, b)) == a
  }

  lemma PlusIsCommutative<T(!new)>(f: Field<T>, a: seq<T>, b: seq<T>)
    requires AddLaws(f) && |a| == |b|
    ensures Plus(f, a, b) == Plus(f, b, a)
  {
    forall i | 0 <= i < |a| ensures f.add(a[i], b[i]) == f.add(b[i], a[i]) {
      assert AddAt(f, a[i], b[i], f.zero);
    }
  }

  lemma PlusIsAssociative<T(!new)>(f: Field<T>, a: seq<T>, b: seq<T>, c: seq<T>)
    requires AddLaws(f) && |a| == |b| == |c|
    ensures Plus(f, Plus(f, a, b), c) == Plus(f, a, Plus(f, b, c))
  {
    forall i | 0 <= i < |a| ensures f.add(f.add(a[i], b[i]), c[i]) == f.add(a[i], f.add(b[i], c[i])) {
      assert AddAt(f, a[i], b[i], c[i]);
    }
  }

  lemma PlusCancels<T(!new)>(f: Field<T>, a: seq<T>, b: seq<T>)
    requires AddLaws(f) && |a| == |b|
    ensures Plus(f, a, Zeros(f, |a|)) == a && Plus(f, Zeros(f, |a|), a) == a
    ensures Plus(f, b, Plus(f, b, a)) == a && Plus(f, Plus(f, a, b), b) == a
  {
    forall i | 0 <= i < |a|
      ensures f.add(a[i], f.zero) == a[i] && f.add(f.zero, a[i]) == a[i]
      ensures f.add(b[i], f.add(b[i], a[i])) == a[i] && f.add(f.add(a[i], b[i]), b[i]) == a[i]
    {
      assert AddAt(f, a[i], f.zero, f.zero) && AddAt(f, b[i], b[i], a[i]) && AddAt(f, a[i], b[i], b[i]);
    }
  }

  lemma PlusOfShifted<T(!new)>(f: Field<T>, a: seq<T>, b: seq<T>)
    requires AddLaws(f) && |a| == |b|
    ensures Plus(f, [f.zero] + a, [f.zero] + b) == [f.zero] + Plus(f, a, b)
  {
    assert AddAt(f, f.zero, f.zero, f.zero);
  }

  /** The step takes the first coefficient away, and nothing else than a copy of e. */
  lemma ReduceCancels<T(!new)>(f: Field<T>, v: seq<T>, e: seq<T>, c: T)
    requires AddLaws(f) && 0 < |e| <= |v|
    requires f.mul(e[0], c) == v[0]
    ensures v == Plus(f, Scale(f, e, c) + Zeros(f, |v| - |e|), [f.zero] + Reduce(f, v, e, c))
  {
    var s := Scale(f, e, c) + Zeros(f, |v| - |e|);
    PlusCancels(f, v, s);
    PlusIsCommutative(f, v, s);
    assert AddAt(f, v[0], v[0], v[0]);
    assert Plus(f, v, s)[0] == f.zero;
    assert [f.zero] + Plus(f, v, s)[1..] == Plus(f, v, s);
  }

  lemma CoefficientCancels<T(!new)>(f: Field<T>, div: (T, T) -> T, v: seq<T>, e: seq<T>)
    requires MulLaws(f) && Divides(f, div) && v != [] && e != [] && e[0] != f.zero
    ensures f.mul(e[0], Coefficient(f, div, v, e)) == v[0]
  {
    if v[0] == f.zero {
      assert MulAt(f, e[0], f.zero, f.zero);
    } else {
      assert f.mul(e[0], div(v[0], e[0])) == v[0];
    }
  }

  /** Dividend = quotient times divisor + remainder. */
  lemma {:induction false} DivisionLaw<T(!new)>(f: Field<T>, div: (T, T) -> T, v: seq<T>, e: seq<T>)
    requires AddLaws(f) && MulLaws(f) && Divides(f, div)
    requires e != [] && e[0] != f.zero && |v| >= |e| - 1
    ensures v == Plus(f, Times(f, Quotient(f, div, v, e), e), Zeros(f, |v| - |e| + 1) + Remainder(f, div, v, e))
    decreases |v|
  {
    if |v| < |e| {
      assert Zeros(f, 0) + v == v;
      PlusCancels(f, v, v);
    } else {
      var c := Coefficient(f, div, v, e);
      var w := Reduce(f, v, e, c);
      CoefficientCancels(f, div, v, e);
      ReduceCancels(f, v, e, c);
      DivisionLaw(f, div, w, e);
      DivisionStep(f, v, w, c, Quotient(f, div, w, e), Remainder(f, div, w, e), e);
    }
  }

  lemma DivisionStep<T(!new)>(f: Field<T>, v: seq<T>, w: seq<T>, c: T, q: seq<T>, r: seq<T>, e: seq<T>)
    requires AddLaws(f) && 0 < |e| <= |v| && |w| == |v| - 1 && |q| == |w| - |e| + 1 && |r| == |e| - 1
    requires v == Plus(f, Scale(f, e, c) + Zeros(f, |v| - |e|), [f.zero] + w)
    requires w == Plus(f, Times(f, q, e), Zeros(f, |w| - |e| + 1) + r)
    ensures v == Plus(f, Times(f, [c] + q, e), Zeros(f, |v| - |e| + 1) + r)
  {
    Unshift(f, Scale(f, e, c) + Zeros(f, |v| - |e|), Times(f, q, e), Zeros(f, |w| - |e| + 1) + r);
    TimesCons(f, c, q, e);
    ZerosCons(f, |w| - |e| + 1, r);
  }

  lemma TimesCons<T>(f: Field<T>, c: T, q: seq<T>, e: seq<T>)
    requires e != []
    ensures Times(f, [c] + q, e) == Plus(f, Scale(f, e, c) + Zeros(f, |q|), [f.zero] + Times(f, q, e))
  {
    assert ([c] + q)[1..] == q;
  }

  lemma ZerosCons<T>(f: Field<T>, k: nat, r: seq<T>)
    ensures [f.zero] + (Zeros(f, k) + r) == Zeros(f, k + 1) + r
  {
  }

  lemma Unshift<T(!new)>(f: Field<T>, s: seq<T>, t: seq<T>, r: seq<T>)
    requires AddLaws(f) && |t| == |r| && |s| == |t| + 1
    ensures Plus(f, s, [f.zero] + Plus(f, t, r)) == Plus(f, Plus(f, s, [f.zero] + t), [f.zero] + r)
  {
    PlusOfShifted(f, t, r);
    PlusIsAssociative(f, s, [f.zero] + t, [f.zero] + r);
  }

  /** Leading zeros change nothing. */
  lemma RemainderOfZero<T(!new)>(f: Field<T>, div: (T, T) -> T, v: seq<T>, e: seq<T>)
    requires AddLaws(f) && MulLaws(f) && e != []
    requires |v| >= |e| && v[0] == f.zero
    ensures Remainder(f, div, v, e) == Remainder(f, div, v[1..], e)
  {
    ReduceByZero(f, v, e);
  }

  lemma ReduceByZero<T(!new)>(f: Field<T>, v: seq<T>, e: seq<T>)
    requires AddLaws(f) && MulLaws(f) && 0 < |e| <= |v|
    ensures Reduce(f, v, e, f.zero) == v[1..]
  {
    ScaleByZero(f, e, |v| - |e|);
    PlusCancels(f, v, v);
  }

  lemma ScaleByZero<T(!new)>(f: Field<T>, e: seq<T>, k: nat)
    requires MulLaws(f)
    ensures Scale(f, e, f.zero) + Zeros(f, k) == Zeros(f, |e| + k)
  {
    forall i | 0 <= i < |e| ensures f.mul(e[i], f.zero) == f.zero {
      assert MulAt(f, f.zero, e[i], f.zero) && MulAt(f, e[i], f.zero, f.zero);
    }
  }

  lemma {:induction false} RemainderOfZeros<T(!new)>(f: Field<T>, div: (T, T) -> T, k: nat, v: seq<T>, e: seq<T>)
    requires AddLaws(f) && MulLaws(f) && e != []
    requires |v| >= |e| - 1
    ensures Remainder(f, div, Zeros(f, k) + v, e) == Remainder(f, div, v, e)
  {
    if k == 0 {
      assert Zeros(f, 0) + v == v;
    } else {
      var z := Zeros(f, k) + v;
      assert z[0] == f.zero && z[1..] == Zeros(f, k - 1) + v;
      RemainderOfZero(f, div, z, e);
      RemainderOfZeros(f, div, k - 1, v, e);
    }
  }

  /** The list, in the places it has among so many. */
  function Padded<T>(f: Field<T>, r: seq<T>, n: nat): seq<T>
    requires |r| <= n
  {
    Zeros(f, n - |r|) + r
  }

  lemma ZerosAdd<T>(f: Field<T>, i: nat, j: nat, v: seq<T>)
    ensures Zeros(f, i) + (Zeros(f, j) + v) == Zeros(f, i + j) + v
  {
  }

  lemma ShortRemainder<T(!new)>(f: Field<T>, div: (T, T) -> T, k: nat, v: seq<T>, e: seq<T>)
    requires AddLaws(f) && MulLaws(f) && e != [] && |v| == |e| - 1
    ensures Remainder(f, div, Zeros(f, k) + v, e) == v
  {
    RemainderOfZeros(f, div, k, v, e);
  }

  /** With any number of zeros in front, what is shorter than the divisor is the
      remainder. */
  lemma RemainderOfFew<T(!new)>(f: Field<T>, div: (T, T) -> T, v: seq<T>, e: seq<T>, k: nat, w: seq<T>)
    requires AddLaws(f) && MulLaws(f) && |v| < |e| && k + |v| >= |e| - 1
    requires w == Zeros(f, k) + v
    ensures Remainder(f, div, w, e) == Padded(f, v, |e| - 1)
  {
    var spare := |e| - 1 - |v|;
    ZerosAdd(f, k - spare, spare, v);
    ShortRemainder(f, div, k - spare, Padded(f, v, |e| - 1), e);
  }

  lemma PlusOfParts<T>(f: Field<T>, a: seq<T>, b: seq<T>, c: seq<T>, d: seq<T>)
    requires |a| == |c| && |b| == |d|
    ensures Plus(f, a + b, c + d) == Plus(f, a, c) + Plus(f, b, d)
  {
  }

  /** Data followed by the remainder of the shifted data is a multiple of the divisor. */
  lemma CodewordIsMultiple<T(!new)>(f: Field<T>, div: (T, T) -> T, data: seq<T>, e: seq<T>)
    requires AddLaws(f) && MulLaws(f) && Divides(f, div)
    requires e != [] && e[0] != f.zero
    ensures var v := data + Zeros(f, |e| - 1);
      data + Remainder(f, div, v, e) == Times(f, Quotient(f, div, v, e), e)
  {
    var v := data + Zeros(f, |e| - 1);
    var r := Zeros(f, |data|) + Remainder(f, div, v, e);
    var t := Times(f, Quotient(f, div, v, e), e);
    DivisionLaw(f, div, v, e);
    PlusCancels(f, t, r);
    PlusOfParts(f, data, Zeros(f, |e| - 1), Zeros(f, |data|), Remainder(f, div, v, e));
    PlusCancels(f, data, data);
    PlusCancels(f, Remainder(f, div, v, e), Zeros(f, |e| - 1));
  }

  // ---- Evaluation

  /** The value at x. */
  function Eval<T>(f: Field<T>, v: seq<T>, x: T): T {
    if v == [] then f.zero else f.add(f.mul(Eval(f, v[..|v| - 1], x), x), v[|v| - 1])
  }

  function Pow<T>(f: Field<T>, x: T, k: nat): T {
    if k == 0 then f.one else f.mul(Pow(f, x, k - 1), x)
  }

  lemma Distribute<T(!new)>(f: Field<T>, a: T, b: T, x: T, c: T, d: T)
    requires AddLaws(f) && MulLaws(f)
    ensures f.add(f.mul(f.add(a, b), x), f.add(c, d)) == f.add(f.add(f.mul(a, x), c), f.add(f.mul(b, x), d))
  {
    var p, q := f.mul(a, x), f.mul(b, x);
    assert MulAt(f, a, b, x);
    assert AddAt(f, p, q, f.add(c, d)) && AddAt(f, q, c, d) && AddAt(f, c, q, d) && AddAt(f, p, c, f.add(q, d));
  }

  lemma {:induction false} EvalPlus<T(!new)>(f: Field<T>, a: seq<T>, b: seq<T>, x: T)
    requires AddLaws(f) && MulLaws(f) && |a| == |b|
    ensures Eval(f, Plus(f, a, b), x) == f.add(Eval(f, a, x), Eval(f, b, x))
  {
    if a == [] {
      assert AddAt(f, f.zero, f.zero, f.zero);
    } else {
      var n := |a| - 1;
      assert Plus(f, a, b)[..n] == Plus(f, a[..n], b[..n]);
      EvalPlus(f, a[..n], b[..n], x);
      Distribute(f, Eval(f, a[..n], x), Eval(f, b[..n], x), x, a[n], b[n]);
    }
  }

  lemma {:induction false} EvalShift<T(!new)>(f: Field<T>, a: seq<T>, k: nat, x: T)
    requires AddLaws(f) && MulLaws(f)
    ensures Eval(f, a + Zeros(f, k), x) == f.mul(Eval(f, a, x), Pow(f, x, k))
  {
    var v := Eval(f, a, x);
    if k == 0 {
      assert a + Zeros(f, 0) == a;
      assert MulAt(f, v, f.one, f.one);
    } else {
      EvalShift(f, a, k - 1, x);
      assert (a + Zeros(f, k))[..|a| + k - 1] == a + Zeros(f, k - 1);
      assert MulAt(f, v, Pow(f, x, k - 1), x);
      var w := f.mul(v, Pow(f, x, k));
      assert AddAt(f, w, f.zero, f.zero);
    }
  }

  lemma {:induction false} EvalLeadingZero<T(!new)>(f: Field<T>, v: seq<T>, x: T)
    requires AddLaws(f) && MulLaws(f)
    ensures Eval(f, [f.zero] + v, x) == Eval(f, v, x)
  {
    if v == [] {
      assert ([f.zero] + v)[..0] == [];
      assert MulAt(f, x, f.zero, f.zero) && AddAt(f, f.zero, f.zero, f.zero);
    } else {
      EvalLeadingZero(f, v[..|v| - 1], x);
      assert ([f.zero] + v)[..|v|] == [f.zero] + v[..|v| - 1];
    }
  }

  lemma {:induction false} EvalScale<T(!new)>(f: Field<T>, e: seq<T>, c: T, x: T)
    requires AddLaws(f) && MulLaws(f)
    ensures Eval(f, Scale(f, e, c), x) == f.mul(Eval(f, e, x), c)
  {
    if e == [] {
      assert MulAt(f, c, f.zero, f.zero);
    } else {
      var n := |e| - 1;
      var v := Eval(f, e[..n], x);
      assert Scale(f, e, c)[..n] == Scale(f, e[..n], c);
      EvalScale(f, e[..n], c, x);
      assert MulAt(f, v, c, x) && MulAt(f, v, x, c) && MulAt(f, c, x, x) && MulAt(f, f.mul(v, x), e[n], c);
    }
  }

  lemma {:induction false} EvalHead<T(!new)>(f: Field<T>, c: T, q: seq<T>, x: T)
    requires AddLaws(f) && MulLaws(f)
    ensures Eval(f, [c] + q, x) == f.add(f.mul(c, Pow(f, x, |q|)), Eval(f, q, x))
  {
    var head, tail := [c] + Zeros(f, |q|), [f.zero] + q;
    EvalPlus(f, head, tail, x);
    EvalLeadingZero(f, q, x);
    EvalShift(f, [c], |q|, x);
    assert [c][..0] == [];
    assert MulAt(f, x, f.zero, f.zero) && AddAt(f, c, f.zero, f.zero);
    assert Eval(f, [c], x) == c;
    assert Plus(f, head, tail) == [c] + q by {
      forall i | 0 <= i < |q| ensures f.add(f.zero, q[i]) == q[i] {
        assert AddAt(f, q[i], q[i], q[i]);
      }
    }
  }

  /** The value of a product is the product of the values. */
  lemma {:induction false} EvalTimes<T(!new)>(f: Field<T>, q: seq<T>, e: seq<T>, x: T)
    requires AddLaws(f) && MulLaws(f) && e != []
    ensures Eval(f, Times(f, q, e), x) == f.mul(Eval(f, q, x), Eval(f, e, x))
  {
    if q == [] {
      EvalZeros(f, |e| - 1, x);
      assert MulAt(f, Eval(f, e, x), f.zero, f.zero);
    } else {
      var c, t := q[0], q[1..];
      EvalTimes(f, t, e, x);
      EvalPlus(f, Scale(f, e, c) + Zeros(f, |t|), [f.zero] + Times(f, t, e), x);
      EvalShift(f, Scale(f, e, c), |t|, x);
      EvalScale(f, e, c, x);
      EvalLeadingZero(f, Times(f, t, e), x);
      EvalHead(f, c, t, x);
      assert [c] + t == q;
      Combine(f, Eval(f, e, x), c, Pow(f, x, |t|), Eval(f, t, x));
    }
  }

  lemma EvalZeros<T(!new)>(f: Field<T>, k: nat, x: T)
    requires AddLaws(f) && MulLaws(f)
    ensures Eval(f, Zeros(f, k), x) == f.zero
  {
    EvalShift(f, [], k, x);
    assert [] + Zeros(f, k) == Zeros(f, k);
    assert MulAt(f, Pow(f, x, k), f.zero, f.zero);
  }

  lemma Combine<T(!new)>(f: Field<T>, e: T, c: T, p: T, t: T)
    requires MulLaws(f)
    ensures f.add(f.mul(f.mul(e, c), p), f.mul(t, e)) == f.mul(f.add(f.mul(c, p), t), e)
  {
    assert MulAt(f, e, c, p) && MulAt(f, e, f.mul(c, p), p) && MulAt(f, f.mul(c, p), t, e);
  }

  // ---- Products, the last coefficient first

  /** One more coefficient at the end adds one more copy of e, shifted all the way. */
  lemma {:induction false} TimesSnoc<T(!new)>(f: Field<T>, q: seq<T>, c: T, e: seq<T>)
    requires AddLaws(f) && e != []
    ensures Times(f, q + [c], e) == Plus(f, Times(f, q, e) + [f.zero], Zeros(f, |q|) + Scale(f, e, c))
  {
    if q == [] {
      assert q + [c] == [c] + q;
      TimesCons(f, c, q, e);
      var s := Scale(f, e, c);
      assert s + Zeros(f, 0) == s && Zeros(f, 0) + s == s;
      assert [f.zero] + Zeros(f, |e| - 1) == Zeros(f, |e|) == Zeros(f, |e| - 1) + [f.zero];
      PlusCancels(f, s, s);
    } else {
      var h, t := q[0], q[1..];
      assert q == [h] + t && q + [c] == [h] + (t + [c]);
      TimesCons(f, h, t + [c], e);
      TimesCons(f, h, t, e);
      TimesSnoc(f, t, c, e);
      SnocStep(f, Scale(f, e, h), Times(f, t, e), Zeros(f, |t|) + Scale(f, e, c), |t|);
      ZerosCons(f, |t|, Scale(f, e, c));
    }
  }

  lemma SnocStep<T(!new)>(f: Field<T>, s: seq<T>, t: seq<T>, r: seq<T>, k: nat)
    requires AddLaws(f) && |t| == |s| + k - 1 && |r| == |t| + 1
    ensures Plus(f, s + Zeros(f, k + 1), [f.zero] + Plus(f, t + [f.zero], r))
         == Plus(f, Plus(f, s + Zeros(f, k), [f.zero] + t) + [f.zero], [f.zero] + r)
  {
    var a, b := s + Zeros(f, k), [f.zero] + t;
    assert s + Zeros(f, k + 1) == a + [f.zero] && [f.zero] + (t + [f.zero]) == b + [f.zero];
    Unshift(f, a + [f.zero], t + [f.zero], r);
    PlusOfParts(f, a, [f.zero], b, [f.zero]);
    assert AddAt(f, f.zero, f.zero, f.zero);
    assert Plus(f, [f.zero], [f.zero]) == [f.zero];
  }

  // ---- Products by a factor of two terms

  /** A coefficient; zero beyond either end. */
  function At<T>(f: Field<T>, q: seq<T>, i: int): T {
    if 0 <= i < |q| then q[i] else f.zero
  }

  lemma AddZero<T(!new)>(f: Field<T>, a: T)
    requires AddLaws(f)
    ensures f.add(a, f.zero) == a && f.add(f.zero, a) == a
  {
    assert AddAt(f, a, f.zero, f.zero);
  }

  lemma MulZeroOne<T(!new)>(f: Field<T>, a: T)
    requires MulLaws(f)
    ensures f.mul(a, f.zero) == f.zero && f.mul(f.zero, a) == f.zero
    ensures f.mul(a, f.one) == a && f.mul(f.one, a) == a
  {
    assert MulAt(f, a, f.zero, f.zero) && MulAt(f, a, f.one, f.one);
  }

  /** Each coefficient of q(x + c) is q's there and c times q's before. */
  lemma {:induction false} TimesPair<T(!new)>(f: Field<T>, q: seq<T>, c: T, k: nat)
    requires AddLaws(f) && MulLaws(f) && k <= |q|
    ensures Times(f, q, [f.one, c])[k] == f.add(At(f, q, k), f.mul(c, At(f, q, k - 1)))
    decreases |q|
  {
    if q == [] {
      MulZeroOne(f, c);
      AddZero(f, f.zero);
    } else {
      var t := q[1..];
      var row := Scale(f, [f.one, c], q[0]) + Zeros(f, |t|);
      var rest := [f.zero] + Times(f, t, [f.one, c]);
      assert Times(f, q, [f.one, c])[k] == f.add(row[k], rest[k]);
      MulZeroOne(f, q[0]);
      MulZeroOne(f, c);
      AddZero(f, q[0]);
      if k > 0 {
        TimesPair(f, t, c, k - 1);
        assert At(f, t, k - 1) == At(f, q, k);
        if k == 1 {
          AddZero(f, At(f, q, 1));
          assert AddAt(f, f.mul(c, q[0]), At(f, q, 1), f.zero);
        } else {
          assert At(f, t, k - 2) == At(f, q, k - 1);
          AddZero(f, rest[k]);
        }
      }
    }
  }
}
