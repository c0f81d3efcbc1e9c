/** The loops of extension/lib/qrcode.js that build, multiply and divide polynomials and
    compute a block's error correction codewords. A result of None is an exception. */
module QrErrorCorrection {
  import opened Common
  import opened Galois
  import opened QrMath
  import opened Polynomials
  import opened QrPolynomial

  method MakePolynomial(num: Coefs, shift: nat) returns (p: Coefs)
    ensures p == Make(num, shift)
  {
    var offset := 0;
    while offset < |num| && num[offset] == Some(0)
      invariant 0 <= offset <= |num| && Strip(num) == Strip(num[offset..])
    {
      offset := offset + 1;
    }
    assert Strip(num) == num[offset..];
    var n := |num| - offset;
    var a := new Option<bv8>[n + shift](i => None);
    var i := 0;
    while i < n
      invariant 0 <= i <= n
      invariant a[..i] == num[offset..offset + i] && a[i..] == Holes(n + shift - i)
    {
      a[i] := num[i + offset];
      i := i + 1;
    }
    assert a[..] == a[..n] + a[n..];
    p := a[..];
  }

  /** The ratio of two coefficients, as a difference of exponents; a hole has none. */
  method PolynomialMod(m: QRMath, a: Coefs, e: seq<bv8>) returns (r: Option<Coefs>)
    requires m.Valid() && Stripped(a) && e != []
    ensures r == if |a| < |e| then Some(a) else if NoZero(e) then Some(Mod(a, e)) else None
    decreases |a|
  {
    if |a| - |e| < 0 {
      return Some(a);
    }
    var num := Cancelled(m, a, e);
    if num.None? {
      return None;
    }
    ModStepCancels(a, e);
    var p := MakePolynomial(num.value, 0);
    assert p == Strip(num.value);
    r := PolynomialMod(m, p, e);
  }

  /** The copy of the divisor that cancels the first coefficient is added in place. */
  method Cancelled(m: QRMath, a: Coefs, e: seq<bv8>) returns (r: Option<Coefs>)
    requires m.Valid() && Stripped(a) && 0 < |e| <= |a|
    ensures r == if NoZero(e) then Some(ModStep(a, e)) else None
  {
    var ratio, ok := Ratio(m, a[0], e[0]);
    if !ok {
      return None;
    }
    var num := new Option<bv8>[|a|](i requires 0 <= i < |a| => a[i]);
    var i := 0;
    while i < |e|
      invariant 0 <= i <= |e| && NoZero(e[..i])
      invariant forall k :: i <= k < |a| ==> num[k] == a[k]
      invariant forall k :: 0 <= k < i ==> e[k] != 0 && num[k] == Some(Add(Val(a[k]), Taken(a[0], e, k)))
    {
      var t := Factor(m, ratio, e[i]);
      if t.None? {
        return None;
      }
      num[i] := Some(Add(Val(num[i]), t.value));
      i := i + 1;
    }
    assert e[..i] == e;
    r := Some(num[..]);
    assert num[..] == ModStep(a, e);
  }

  method Ratio(m: QRMath, first: Option<bv8>, lead: bv8) returns (ratio: Option<int>, ok: bool)
    requires m.Valid() && first != Some(0)
    ensures ok <==> lead != 0
    ensures ok ==> ratio == if first.None? then None else Some(Log(first.value) - Log(lead))
  {
    ratio, ok := None, false;
    var l := m.Glog(lead);
    if l.Some? {
      ok := true;
      if first.Some? {
        var k := m.Glog(first.value);
        ratio := Some(k.value - l.value);
      }
    }
  }

  method Factor(m: QRMath, ratio: Option<int>, c: bv8) returns (t: Option<bv8>)
    requires m.Valid()
    ensures t == if c == 0 then None else Some(if ratio.None? then 0 else Exp(Log(c) + ratio.value))
  {
    var l := m.Glog(c);
    if l.None? {
      return None;
    }
    if ratio.None? {
      return Some(0);
    }
    var p := m.Gexp(l.value + ratio.value);
    t := Some(p);
  }

  // ---- Products

  /** Row i of a product: every coefficient of e times c goes to its place. */
  method AddRow(m: QRMath, num: array<Option<bv8>>, e: seq<bv8>, c: bv8, at: nat) returns (ok: bool)
    requires m.Valid() && at + |e| <= num.Length && e != []
    modifies num
    ensures ok <==> c != 0 && NoZero(e)
    ensures ok ==> forall k :: 0 <= k < num.Length ==>
      num[k] == if at <= k < at + |e| then Some(Add(Val(old(num[k])), Mul(e[k - at], c))) else old(num[k])
  {
    var j := 0;
    while j < |e|
      invariant 0 <= j <= |e| && NoZero(e[..j]) && (j > 0 ==> c != 0)
      invariant forall k :: 0 <= k < num.Length ==>
        num[k] == if at <= k < at + j then Some(Add(Val(old(num[k])), Mul(e[k - at], c))) else old(num[k])
    {
      var p := Product(m, c, e[j]);
      if p.None? {
        return false;
      }
      num[at + j] := Some(Add(Val(num[at + j]), p.value));
      j := j + 1;
    }
    assert e[..j] == e;
    return true;
  }

  method Product(m: QRMath, c: bv8, b: bv8) returns (p: Option<bv8>)
    requires m.Valid()
    ensures p == if c == 0 || b == 0 then None else Some(Mul(b, c))
  {
    var k := m.Glog(c);
    var l := m.Glog(b);
    if k.None? || l.None? {
      return None;
    }
    MulIsProductOfLogs(b, c);
    var x := m.Gexp(k.value + l.value);
    p := Some(x);
  }

  /** The product's coefficients after so many rows, and the places still to be filled. */
  ghost function Rows(a: seq<bv8>, e: seq<bv8>, i: nat): seq<bv8>
    requires e != [] && i <= |a|
  {
    Times(FIELD, a[..i], e) + Zeros(FIELD, |a| - i)
  }

  lemma RowAdds(a: seq<bv8>, e: seq<bv8>, i: nat, k: nat)
    requires e != [] && i < |a| && k < |a| + |e| - 1
    ensures Rows(a, e, i + 1)[k] == if i <= k < i + |e| then Add(Rows(a, e, i)[k], Mul(e[k - i], a[i])) else Rows(a, e, i)[k]
  {
    BytesAreAField();
    TimesSnoc(FIELD, a[..i], a[i], e);
    assert a[..i + 1] == a[..i] + [a[i]];
    if k < i + |e| {
      var t := Times(FIELD, a[..i], e) + [0];
      var row := Zeros(FIELD, i) + Scale(FIELD, e, a[i]);
      assert t[k] == Rows(a, e, i)[k];
      assert Rows(a, e, i + 1)[k] == Add(t[k], row[k]);
      AddLawsAt(0, t[k], 0);
    }
  }

  method Multiply(m: QRMath, a: seq<bv8>, e: seq<bv8>) returns (r: Option<Coefs>)
    requires m.Valid() && a != [] && e != []
    ensures r == if NoZero(a) && NoZero(e) then Some(Strip(Somes(Times(FIELD, a, e)))) else None
  {
    var num := new Option<bv8>[|a| + |e| - 1](i => None);
    var i := 0;
    while i < |a|
      invariant 0 <= i <= |a| && NoZero(a[..i]) && (i > 0 ==> NoZero(e))
      invariant forall k :: 0 <= k < num.Length ==> Val(num[k]) == Rows(a, e, i)[k]
      invariant forall k :: 0 <= k < num.Length && i > 0 && k < i + |e| - 1 ==> num[k].Some?
    {
      var ok := AddRow(m, num, e, a[i], i);
      if !ok {
        return None;
      }
      forall k | 0 <= k < num.Length ensures Val(num[k]) == Rows(a, e, i + 1)[k] {
        RowAdds(a, e, i, k);
      }
      i := i + 1;
    }
    assert a[..i] == a;
    assert num[..] == Somes(Times(FIELD, a, e));
    var p := MakePolynomial(num[..], 0);
    assert p == Strip(num[..]);
    r := Some(p);
  }

  // ---- Codewords

  /** The part of createBytes that computes a block's error correction codewords. */
  method BlockCodewords(m: QRMath, data: seq<bv8>, e: seq<bv8>) returns (ec: Option<Coefs>)
    requires m.Valid() && e != []
    ensures NoZero(e) ==> ec == Some(Codewords(data, e))
  {
    MakeIsStripped(Somes(data), |e| - 1);
    var raw := MakePolynomial(Somes(data), |e| - 1);
    var p := PolynomialMod(m, raw, e);
    if p.None? {
      return None;
    }
    var right := AlignRight(p.value, |e| - 1);
    ec := Some(right);
  }

  /** The remainder is copied to the right end, zeros in front; what does not fit on the
      left is left out. */
  method AlignRight(r: Coefs, n: nat) returns (ec: Coefs)
    ensures |r| <= n ==> ec == AlignedRight(r, n)
  {
    var a := new Option<bv8>[n](i => None);
    var i := 0;
    while i < n
      invariant 0 <= i <= n
      invariant forall k :: 0 <= k < i && |r| <= n ==> a[k] == AlignedRight(r, n)[k]
    {
      var modIndex := i + |r| - n;
      a[i] := if modIndex >= 0 then r[modIndex] else Some(0);
      i := i + 1;
    }
    ec := a[..];
  }
}
