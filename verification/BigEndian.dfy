/** Numbers of two and four bytes, most significant byte first. */
module BigEndian {
  import opened Common

  const TWO16 := 0x1_0000
  const TWO32 := 0x1_0000_0000

  function Put16(n: nat): (b: seq<byte>)
    ensures |b| == 2
  {
    [n / 256 % 256, n % 256]
  }

  function Put32(n: nat): (b: seq<byte>)
    ensures |b| == 4
  {
    Put16(n / TWO16) + Put16(n)
  }

  function Get16(b: seq<byte>, at: nat): (n: nat)
    requires at + 2 <= |b|
    ensures n < TWO16
  {
    256 * (b[at] as int) + b[at + 1] as int
  }

  function Get32(b: seq<byte>, at: nat): (n: nat)
    requires at + 4 <= |b|
    ensures n < TWO32
  {
    TWO16 * Get16(b, at) + Get16(b, at + 2)
  }

  lemma RoundTrip16(n: nat, b: seq<byte>, at: nat)
    requires n < TWO16 && at + 2 <= |b| && b[at..at + 2] == Put16(n)
    ensures Get16(b, at) == n
  {
    assert b[at] == b[at..at + 2][0] && b[at + 1] == b[at..at + 2][1];
    DivMod(n, 256);
    DivUnique(n / 256, 256, 0, n / 256);
  }

  lemma RoundTrip32(n: nat, b: seq<byte>, at: nat)
    requires n < TWO32 && at + 4 <= |b| && b[at..at + 4] == Put32(n)
    ensures Get32(b, at) == n
  {
    assert b[at..at + 2] == b[at..at + 4][..2] == Put16(n / TWO16);
    assert b[at + 2..at + 4] == b[at..at + 4][2..] == Put16(n);
    DivMod(n, TWO16);
    LowHalf(n);
    RoundTrip16(n / TWO16, b, at);
    RoundTrip16(n % TWO16, b, at + 2);
  }

  lemma LowHalf(n: nat)
    ensures Put16(n) == Put16(n % TWO16)
  {
    DivMod(n, TWO16);
    var m := n % TWO16;
    DivMod(m, 256);
    DivMod(m / 256, 256);
    DivUnique(n, 256, 256 * (n / TWO16) + m / 256, m % 256);
    DivUnique(n / 256, 256, n / TWO16 + m / 256 / 256, m / 256 % 256);
  }
}
