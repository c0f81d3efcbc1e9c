/** Small vocabulary shared by the other modules: optional values, powers of two,
    and the arithmetic facts about them that prefix lengths and wire widths need. */
module Common {

  datatype Option<+T> = None | Some(value: T)

  type byte = n: nat | n < 256

  /** The chunks end to end. */
  function Concat(chunks: seq<seq<byte>>): seq<byte> {
    if chunks == [] then [] else Concat(chunks[..|chunks| - 1]) + chunks[|chunks| - 1]
  }

  lemma {:induction false} ConcatAdd(a: seq<seq<byte>>, b: seq<seq<byte>>)
    ensures Concat(a + b) == Concat(a) + Concat(b)
  {
    if b == [] {
      assert a + b == a;
    } else {
      ConcatAdd(a, b[..|b| - 1]);
      assert (a + b)[..|a + b| - 1] == a + b[..|b| - 1];
    }
  }

  lemma ConcatOne(chunk: seq<byte>)
    ensures Concat([chunk]) == chunk
  {
    var none: seq<seq<byte>> := [];
    assert [chunk][..0] == none;
    assert Concat([chunk]) == Concat(none) + chunk;
  }

  lemma ConcatHead(a: seq<seq<byte>>)
    requires a != []
    ensures Concat(a) == a[0] + Concat(a[1..])
  {
    assert a == [a[0]] + a[1..];
    ConcatAdd([a[0]], a[1..]);
    ConcatOne(a[0]);
  }

  /** Writes the bytes into the buffer from the given place on (Uint8Array.set). */
  method SetBytes(buf: array<byte>, data: seq<byte>, at: nat)
    requires at + |data| <= buf.Length
    modifies buf
    ensures buf[..] == old(buf[..at]) + data + old(buf[at + |data|..])
    ensures buf[..at + |data|] == old(buf[..at]) + data
  {
    var i := 0;
    while i < |data|
      invariant 0 <= i <= |data|
      invariant buf[..at] == old(buf[..at]) && buf[at..at + i] == data[..i]
      invariant buf[at + i..] == old(buf[at + i..])
    {
      buf[at + i] := data[i];
      i := i + 1;
    }
    assert buf[..] == buf[..at] + buf[at..at + i] + buf[at + i..];
  }

  /** f, so many times over. */
  function Iterate<T>(f: T -> T, x: T, n: nat): T {
    if n == 0 then x else f(Iterate(f, x, n - 1))
  }

  lemma {:induction false} IterateAdd<T>(f: T -> T, x: T, a: nat, b: nat)
    ensures Iterate(f, x, a + b) == Iterate(f, Iterate(f, x, a), b)
  {
    if b > 0 {
      IterateAdd(f, x, a, b - 1);
    }
  }

  function Pow2(n: nat): (r: nat)
    ensures r >= 1
  {
    if n == 0 then 1 else 2 * Pow2(n - 1)
  }

  lemma {:induction false} Pow2Add(a: nat, b: nat)
    ensures Pow2(a + b) == Pow2(a) * Pow2(b)
  {
    if a > 0 {
      Pow2Add(a - 1, b);
      assert Pow2(a + b) == 2 * Pow2(a - 1 + b);
      assert 2 * (Pow2(a - 1) * Pow2(b)) == (2 * Pow2(a - 1)) * Pow2(b);
    }
  }

  lemma {:induction false} Pow2Monotone(a: nat, b: nat)
    requires a <= b
    ensures Pow2(a) <= Pow2(b)
    ensures a < b ==> 2 * Pow2(a) <= Pow2(b)
  {
    Pow2Add(a, b - a);
    assert Pow2(b) == Pow2(a) * Pow2(b - a);
    if a < b {
      assert Pow2(b - a) == 2 * Pow2(b - a - 1);
      assert Pow2(b - a) >= 2;
      MulMono(Pow2(a), 2, Pow2(b - a));
    }
    MulMono(Pow2(a), 1, Pow2(b - a));
  }

  lemma MulMono(k: nat, x: int, y: int)
    requires x <= y
    ensures k * x <= k * y
  {
  }

  /** Dividing by a product is dividing twice. */
  lemma DivDiv(x: nat, a: nat, b: nat)
    requires a > 0 && b > 0
    ensures a * b > 0
    ensures x / (a * b) == (x / a) / b
  {
    var q := (x / a) / b;
    var r1 := x % a;
    var r2 := (x / a) % b;
    assert x == a * (x / a) + r1;
    assert x / a == b * q + r2;
    assert x == a * (b * q + r2) + r1;
    assert a * (b * q + r2) == (a * b) * q + a * r2;
    assert a * r2 + r1 < a * b by {
      MulMono(a, r2, b - 1);
      assert a * (b - 1) == a * b - a;
    }
    DivUnique(x, a * b, q, a * r2 + r1);
  }

  lemma DivUnique(x: int, d: int, q: int, r: int)
    requires d > 0 && 0 <= r < d
    requires x == d * q + r
    ensures x / d == q && x % d == r
  {
    var q', r' := x / d, x % d;
    assert x == d * q' + r';
    assert d * (q - q') == r' - r;
    if q > q' {
      MulMono(d, 1, q - q');
    } else if q < q' {
      MulMono(d, q - q', -1);
    }
  }

  lemma DivMod(x: nat, d: nat)
    requires d > 0
    ensures x == d * (x / d) + x % d
    ensures 0 <= x % d < d && x % d <= x
    ensures (x - x % d) / d == x / d && (x - x % d) % d == 0
  {
    assert x == d * (x / d) + x % d;
    MulMono(d, 0, x / d);
    DivUnique(x - x % d, d, x / d, 0);
  }

  /** Having quotient q is lying in the q-th interval of length d. */
  lemma DivInterval(x: nat, d: nat, q: nat)
    requires d > 0
    ensures x / d == q <==> d * q <= x < d * q + d
  {
    DivMod(x, d);
    if d * q <= x < d * q + d {
      DivUnique(x, d, q, x - d * q);
    }
  }
}
