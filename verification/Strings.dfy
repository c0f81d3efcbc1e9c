/** White space and order of strings, as Go's unicode, strings and sort packages have
    them. */
module Strings {
  import opened Sorting

  /** unicode.IsSpace. */
  predicate IsSpace(c: char) {
    || '\U{9}' <= c <= '\U{d}' || c == ' ' || c == '\U{85}' || c == '\U{a0}'
    || c == '\U{1680}' || '\U{2000}' <= c <= '\U{200a}' || c == '\U{2028}' || c == '\U{2029}'
    || c == '\U{202f}' || c == '\U{205f}' || c == '\U{3000}'
  }

  function TrimLeft(s: string): string {
    if s != [] && IsSpace(s[0]) then TrimLeft(s[1..]) else s
  }

  function TrimRight(s: string): string {
    if s != [] && IsSpace(s[|s| - 1]) then TrimRight(s[..|s| - 1]) else s
  }

  function TrimSpace(s: string): string {
    TrimRight(TrimLeft(s))
  }

  /** The order sort.Strings uses. */
  predicate Before(a: string, b: string) {
    if b == [] then false
    else if a == [] then true
    else if a[0] != b[0] then a[0] < b[0]
    else Before(a[1..], b[1..])
  }

  lemma {:induction false} BeforeTransitive(a: string, b: string, c: string)
    ensures !Before(a, a)
    ensures Before(a, b) && Before(b, c) ==> Before(a, c)
    ensures Before(a, c) ==> Before(a, b) || Before(b, c)
    ensures a == b || Before(a, b) || Before(b, a)
    decreases |a| + |b| + |c|
  {
    if a != [] && b != [] && c != [] {
      BeforeTransitive(a[1..], b[1..], c[1..]);
      assert a[0] == b[0] && a[1..] == b[1..] ==> a == [a[0]] + a[1..] == [b[0]] + b[1..] == b;
    } else if a != [] && b != [] {
      BeforeTransitive(a[1..], b[1..], c);
      assert a[0] == b[0] && a[1..] == b[1..] ==> a == [a[0]] + a[1..] == [b[0]] + b[1..] == b;
    } else if a != [] {
      BeforeTransitive(a[1..], b, c);
    }
  }

  lemma BeforeIsTotal()
    ensures StrictTotal(Before)
  {
    forall a: string, b: string, c: string
      ensures !Before(a, a) && (a == b || Before(a, b) || Before(b, a))
      ensures Before(a, b) && Before(b, c) ==> Before(a, c)
      ensures Before(a, c) ==> Before(a, b) || Before(b, c)
    {
      BeforeTransitive(a, b, c);
    }
  }
}
