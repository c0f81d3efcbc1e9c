/** Exclusive or on natural numbers, bit by bit. */
module Bits {
  import opened Common

  function Xor(a: nat, b: nat): nat
    decreases a + b
  {
    if a == 0 && b == 0 then 0 else (a % 2 + b % 2) % 2 + 2 * Xor(a / 2, b / 2)
  }

  lemma XorBits(a: nat, b: nat)
    ensures Xor(a, b) % 2 == (a % 2 + b % 2) % 2 && Xor(a, b) / 2 == Xor(a / 2, b / 2)
  {
  }

  lemma {:induction false} XorComm(a: nat, b: nat)
    ensures Xor(a, b) == Xor(b, a)
    decreases a + b
  {
    if a > 0 || b > 0 {
      XorComm(a / 2, b / 2);
    }
  }

  lemma {:induction false} XorZero(a: nat)
    ensures Xor(a, 0) == a && Xor(0, a) == a
  {
    if a > 0 {
      XorZero(a / 2);
    }
  }

  lemma {:induction false} XorSelf(a: nat)
    ensures Xor(a, a) == 0
  {
    if a > 0 {
      XorSelf(a / 2);
    }
  }

  lemma {:induction false} XorAssoc(a: nat, b: nat, c: nat)
    ensures Xor(Xor(a, b), c) == Xor(a, Xor(b, c))
    decreases a + b + c
  {
    if a > 0 || b > 0 || c > 0 {
      XorAssoc(a / 2, b / 2, c / 2);
      Parities(a, b, c);
      XorHalves(a, b, c);
      SameHalves(Xor(Xor(a, b), c), Xor(a, Xor(b, c)));
    }
  }

  function Two(x: nat, y: nat): nat {
    if x == y then 0 else 1
  }

  lemma Parities(a: nat, b: nat, c: nat)
    ensures Xor(Xor(a, b), c) % 2 == Two(Two(a % 2, b % 2), c % 2)
    ensures Xor(a, Xor(b, c)) % 2 == Two(a % 2, Two(b % 2, c % 2))
  {
    ParityOfXor(a, b, a % 2, b % 2);
    ParityOfXor(b, c, b % 2, c % 2);
    ParityOfXor(Xor(a, b), c, Two(a % 2, b % 2), c % 2);
    ParityOfXor(a, Xor(b, c), a % 2, Two(b % 2, c % 2));
  }

  lemma ParityOfXor(x: nat, y: nat, p: nat, q: nat)
    requires x % 2 == p && y % 2 == q
    ensures Xor(x, y) % 2 == Two(p, q)
  {
    XorBits(x, y);
  }

  lemma XorHalves(a: nat, b: nat, c: nat)
    ensures Xor(Xor(a, b), c) / 2 == Xor(Xor(a / 2, b / 2), c / 2)
    ensures Xor(a, Xor(b, c)) / 2 == Xor(a / 2, Xor(b / 2, c / 2))
  {
    HalfOfXor(Xor(a, b), c, Xor(a / 2, b / 2), c / 2) by { XorBits(a, b); }
    HalfOfXor(a, Xor(b, c), a / 2, Xor(b / 2, c / 2)) by { XorBits(b, c); }
  }

  lemma HalfOfXor(x: nat, y: nat, x': nat, y': nat)
    requires x / 2 == x' && y / 2 == y'
    ensures Xor(x, y) / 2 == Xor(x', y')
  {
    XorBits(x, y);
  }

  lemma SameHalves(x: nat, y: nat)
    requires x % 2 == y % 2 && x / 2 == y / 2
    ensures x == y
  {
  }

  /** Applying the same mask twice gives back what was masked. */
  lemma XorUndo(a: nat, k: nat)
    ensures Xor(Xor(a, k), k) == a
  {
    XorAssoc(a, k, k);
    XorSelf(k);
    XorZero(a);
  }

  lemma {:induction false} XorBound(a: nat, b: nat, n: nat)
    requires a < Pow2(n) && b < Pow2(n)
    ensures Xor(a, b) < Pow2(n)
  {
    if n > 0 {
      XorBound(a / 2, b / 2, n - 1);
    }
  }

  function XorByte(a: byte, b: byte): (r: byte) {
    XorBound(a, b, 8);
    Xor(a, b)
  }
}
