/** Trimming and order of strings, said of the characters. */
module Words {
  import opened Strings

  ghost predicate AllSpaces(s: string) {
    forall i :: 0 <= i < |s| ==> IsSpace(s[i])
  }

  /** The first and the last character, if there are any, are no spaces. */
  predicate IsBare(s: string) {
    s == "" || (!IsSpace(s[0]) && !IsSpace(s[|s| - 1]))
  }

  /** Trimming takes spaces off both ends, and all of them, and nothing else. */
  lemma TrimTakesSpaces(s: string) returns (before: string, after: string)
    ensures s == before + TrimSpace(s) + after && AllSpaces(before) && AllSpaces(after) && IsBare(TrimSpace(s))
  {
    before := LeftSpaces(s);
    var t := TrimLeft(s);
    after := RightSpaces(t);
    assert t == TrimRight(t) + after;
    if TrimRight(t) != "" {
      assert TrimRight(t)[0] == t[0];
    }
  }

  lemma {:induction false} LeftSpaces(s: string) returns (before: string)
    ensures s == before + TrimLeft(s) && AllSpaces(before)
    ensures TrimLeft(s) == "" || !IsSpace(TrimLeft(s)[0])
  {
    if s != [] && IsSpace(s[0]) {
      var rest := LeftSpaces(s[1..]);
      before := [s[0]] + rest;
      assert s == [s[0]] + s[1..];
    } else {
      before := [];
    }
  }

  lemma {:induction false} RightSpaces(s: string) returns (after: string)
    ensures s == TrimRight(s) + after && AllSpaces(after)
    ensures TrimRight(s) == "" || !IsSpace(TrimRight(s)[|TrimRight(s)| - 1])
  {
    if s != [] && IsSpace(s[|s| - 1]) {
      var n := |s| - 1;
      var rest := RightSpaces(s[..n]);
      after := rest + [s[n]];
      assert s == s[..n] + [s[n]];
    } else {
      after := [];
    }
  }

  /** Spaces are those of Unicode: tab to carriage return, the space, next line, no-break
      space, and the spaces and separators beyond Latin. */
  lemma SpacesInNumbers(c: char)
    ensures IsSpace(c) <==>
      c as int in {0x9, 0xa, 0xb, 0xc, 0xd, 0x20, 0x85, 0xa0, 0x1680, 0x2000, 0x2001, 0x2002, 0x2003, 0x2004, 0x2005,
                   0x2006, 0x2007, 0x2008, 0x2009, 0x200a, 0x2028, 0x2029, 0x202f, 0x205f, 0x3000}
  {
  }

  /** At i the strings differ for the first time. */
  predicate DifferAt(a: string, b: string, i: nat) {
    i < |a| && i < |b| && a[i] != b[i] && a[..i] == b[..i]
  }

  /** a comes before b if it has the smaller character where they first differ, or is a
      proper beginning of it. */
  lemma {:induction false} BeforeIsDictionary(a: string, b: string)
    ensures Before(a, b) <==> (|a| < |b| && a == b[..|a|]) || exists i: nat :: DifferAt(a, b, i) && a[i] < b[i]
  {
    if a != [] && b != [] && a[0] == b[0] {
      BeforeIsDictionary(a[1..], b[1..]);
      SameFirst(a, b);
    } else if a != [] && b != [] {
      assert DifferAt(a, b, 0);
    }
  }

  lemma SameFirst(a: string, b: string)
    requires a != [] && b != [] && a[0] == b[0]
    ensures (|a| < |b| && a == b[..|a|]) <==> (|a[1..]| < |b[1..]| && a[1..] == b[1..][..|a| - 1])
    ensures (exists i: nat :: DifferAt(a, b, i) && a[i] < b[i]) <==>
      exists i: nat :: DifferAt(a[1..], b[1..], i) && a[1..][i] < b[1..][i]
  {
    assert a == [a[0]] + a[1..] && b == [b[0]] + b[1..];
    if |a| < |b| {
      assert b[..|a|] == [b[0]] + b[1..][..|a| - 1];
    }
    forall i: nat
      ensures DifferAt(a, b, i + 1) <==> DifferAt(a[1..], b[1..], i)
    {
      if i + 1 < |a| && i + 1 < |b| {
        assert a[..i + 1] == [a[0]] + a[1..][..i] && b[..i + 1] == [b[0]] + b[1..][..i];
        assert a[1..][..i] == a[..i + 1][1..] && b[1..][..i] == b[..i + 1][1..];
      }
    }
    if i: nat :| DifferAt(a, b, i) && a[i] < b[i] {
      assert DifferAt(a[1..], b[1..], i - 1) && a[1..][i - 1] < b[1..][i - 1];
    }
    if i: nat :| DifferAt(a[1..], b[1..], i) && a[1..][i] < b[1..][i] {
      assert DifferAt(a, b, i + 1) && a[i + 1] < b[i + 1];
    }
  }
}
