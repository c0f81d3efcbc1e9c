/** The size line of an HTTP chunk (RFC 9112 section 7.1), digit by digit, and a chunk byte
    by byte. */
module ChunkSizes {
  import opened Common
  import opened Chunked

  /** A hexadecimal digit: its value and, above nine, the case it is written in. */
  datatype Digit = Digit(value: nat, upper: bool)

  predicate IsDigit(d: Digit) { d.value < 16 }

  /** '0' to '9', 'a' to 'f' or 'A' to 'F'. */
  function Written(d: Digit): byte
    requires IsDigit(d)
  {
    if d.value < 10 then 48 + d.value else if d.upper then 65 + (d.value - 10) else 97 + (d.value - 10)
  }

  predicate AllDigits(ds: seq<Digit>) {
    forall i :: 0 <= i < |ds| ==> IsDigit(ds[i])
  }

  function Text(ds: seq<Digit>): (s: seq<byte>)
    requires AllDigits(ds)
    ensures |s| == |ds|
  {
    seq(|ds|, i requires 0 <= i < |ds| => Written(ds[i]))
  }

  /** The number the digits are, the most significant first. */
  function Value(ds: seq<Digit>): nat {
    if ds == [] then 0 else 16 * Value(ds[..|ds| - 1]) + ds[|ds| - 1].value
  }

  /** What may follow the digits: nothing, or anything that does not begin with another. */
  predicate EndsDigits(rest: seq<byte>) {
    rest == [] || !(48 <= rest[0] <= 57 || 65 <= rest[0] <= 70 || 97 <= rest[0] <= 102)
  }

  lemma {:induction false} DigitsAreRead(ds: seq<Digit>, rest: seq<byte>, sofar: nat)
    requires AllDigits(ds) && EndsDigits(rest)
    ensures LeadingDigits(Text(ds) + rest, sofar) == (sofar * Pow16(|ds|) + Value(ds), |ds|)
  {
    if ds == [] {
      assert Text(ds) + rest == rest;
    } else {
      var s := Text(ds) + rest;
      assert s[1..] == Text(ds[1..]) + rest && s[0] == Written(ds[0]);
      DigitsAreRead(ds[1..], rest, 16 * sofar + ds[0].value);
      FirstDigit(ds);
      Shifted(sofar, ds[0].value, Pow16(|ds| - 1));
    }
  }

  function Pow16(n: nat): nat {
    if n == 0 then 1 else 16 * Pow16(n - 1)
  }

  lemma Shifted(sofar: nat, d: nat, p: nat)
    ensures (16 * sofar + d) * p == sofar * (16 * p) + d * p
  {
  }

  /** The first digit counts for sixteen to the power of how many follow it. */
  lemma {:induction false} FirstDigit(ds: seq<Digit>)
    requires ds != []
    ensures Value(ds) == ds[0].value * Pow16(|ds| - 1) + Value(ds[1..])
  {
    var n := |ds| - 1;
    if n == 0 {
      assert ds[..0] == [] && ds[1..] == [];
    } else {
      FirstDigit(ds[..n]);
      assert ds[..n][1..] == ds[1..][..n - 1] && ds[1..][n - 1] == ds[n];
      Sixteenfold(ds[0].value, Pow16(n - 1), Value(ds[..n][1..]));
    }
  }

  lemma Sixteenfold(d: nat, p: nat, v: nat)
    ensures 16 * (d * p + v) == d * (16 * p) + 16 * v
  {
  }

  /** A sign or none, "0x" in either case or not, and the digits. */
  function NumberText(sign: Option<byte>, x: Option<byte>, ds: seq<Digit>): seq<byte>
    requires AllDigits(ds)
  {
    (if sign.Some? then [sign.value] else []) + (if x.Some? then [48, x.value] else []) + Text(ds)
  }

  /** A size line of hexadecimal digits, in either case, with spaces before them, a sign or
      none, "0x" or not, and an extension after a semicolon or none, says the number its
      digits are. */
  lemma SizeIsItsDigits(spaces: seq<byte>, sign: Option<byte>, x: Option<byte>, ds: seq<Digit>, extension: seq<byte>)
    requires forall i :: 0 <= i < |spaces| ==> spaces[i] == 32 || 9 <= spaces[i] <= 13
    requires sign.Some? ==> sign.value == 43 || sign.value == 45
    requires x.Some? ==> x.value == 120 || x.value == 88
    requires ds != [] && AllDigits(ds)
    requires extension == [] || extension[0] == 59
    ensures ParseSize(spaces + NumberText(sign, x, ds) + extension)
      == Some(if sign == Some(45) then -(Value(ds) as int) else Value(ds))
  {
    var number := NumberText(sign, x, ds);
    DigitsAreNot(ds, 59);
    UpToSemicolon(spaces + number, extension);
    SpacesAreTrimmed(spaces, number);
    NumberIsRead(sign, x, ds);
  }

  lemma DigitsAreNot(ds: seq<Digit>, c: byte)
    requires AllDigits(ds) && (c == 59 || c == 120 || c == 88)
    ensures c !in Text(ds)
  {
  }

  lemma {:induction false} UpToSemicolon(s: seq<byte>, extension: seq<byte>)
    requires SEMICOLON !in s && (extension == [] || extension[0] == 59)
    ensures UpTo(s + extension, SEMICOLON) == s
  {
    if s == [] {
      assert s + extension == extension;
    } else {
      UpToSemicolon(s[1..], extension);
      assert (s + extension)[1..] == s[1..] + extension;
      assert s == [s[0]] + s[1..];
    }
  }

  lemma {:induction false} SpacesAreTrimmed(spaces: seq<byte>, s: seq<byte>)
    requires forall i :: 0 <= i < |spaces| ==> spaces[i] == 32 || 9 <= spaces[i] <= 13
    requires s != [] && s[0] > 32
    ensures TrimLeft(spaces + s) == s
  {
    if spaces == [] {
      assert spaces + s == s;
    } else {
      SpacesAreTrimmed(spaces[1..], s);
      assert (spaces + s)[1..] == spaces[1..] + s;
    }
  }

  lemma NumberIsRead(sign: Option<byte>, x: Option<byte>, ds: seq<Digit>)
    requires sign.Some? ==> sign.value == 43 || sign.value == 45
    requires x.Some? ==> x.value == 120 || x.value == 88
    requires ds != [] && AllDigits(ds)
    ensures ParseInt16(NumberText(sign, x, ds)) == Some(if sign == Some(45) then -(Value(ds) as int) else Value(ds))
  {
    SignIsCut(sign, x, ds);
    PrefixIsCut(x, ds);
    AllIsRead(ds);
    ParsedInParts(NumberText(sign, x, ds), NumberText(None, x, ds), Text(ds), Value(ds), |ds|);
  }

  lemma AllIsRead(ds: seq<Digit>)
    requires AllDigits(ds)
    ensures LeadingDigits(Text(ds), 0) == (Value(ds), |ds|)
  {
    DigitsAreRead(ds, [], 0);
    assert Text(ds) + [] == Text(ds);
  }

  lemma ParsedInParts(s: seq<byte>, t: seq<byte>, u: seq<byte>, v: nat, n: nat)
    requires s != [] && t == if s[0] == 43 || s[0] == 45 then s[1..] else s
    requires u == if |t| >= 2 && t[0] == 48 && (t[1] == 120 || t[1] == 88) then t[2..] else t
    requires LeadingDigits(u, 0) == (v, n) && n > 0
    ensures ParseInt16(s) == Some(if s[0] == 45 then -(v as int) else v)
  {
  }

  lemma SignIsCut(sign: Option<byte>, x: Option<byte>, ds: seq<Digit>)
    requires sign.Some? ==> sign.value == 43 || sign.value == 45
    requires ds != [] && AllDigits(ds)
    ensures var s, t := NumberText(sign, x, ds), NumberText(None, x, ds);
      && s != [] && (sign.Some? ==> s[0] == sign.value && s[1..] == t)
      && (sign.None? ==> s == t && s[0] != 43 && s[0] != 45)
  {
    if sign.Some? {
      assert NumberText(sign, x, ds) == [sign.value] + NumberText(None, x, ds);
    }
  }

  lemma PrefixIsCut(x: Option<byte>, ds: seq<Digit>)
    requires x.Some? ==> x.value == 120 || x.value == 88
    requires ds != [] && AllDigits(ds)
    ensures var t := NumberText(None, x, ds);
      var cut := |t| >= 2 && t[0] == 48 && (t[1] == 120 || t[1] == 88);
      && (cut <==> x.Some?) && (if cut then t[2..] else t) == Text(ds)
  {
    var t := NumberText(None, x, ds);
    if x.Some? {
      assert t == [48, x.value] + Text(ds);
    } else {
      assert t == Text(ds);
      assert |t| >= 2 ==> t[1] == Written(ds[1]);
    }
  }

  /** "2", CR LF, the data, CR LF; and the last chunk: "0", CR LF, CR LF. */
  lemma AChunkInBytes()
    ensures Wrap([104, 105]) == [50, 13, 10, 104, 105, 13, 10]
    ensures TERMINATOR == [48, 13, 10, 13, 10]
  {
    assert Hex(2) == [50];
  }
}
