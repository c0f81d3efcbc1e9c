/** Sorting by a comparison, as slices.SortFunc and sort.Slice are used here: the
    result is a rearrangement of the input in which nothing comes before a smaller
    element. Where the comparison is a strict total order the result is unique, which
    is what makes a list built from a map's random iteration order reproducible. */
module Sorting {

  /** A comparison that is irreflexive and transitive, and for which being
      unordered is transitive too (prefix lengths alone compare like this). */
  ghost predicate WeakOrder<T(!new)>(less: (T, T) -> bool) {
    && (forall a: T :: !less(a, a))
    && (forall a: T, b: T, c: T :: less(a, b) && less(b, c) ==> less(a, c))
    && (forall a: T, b: T, c: T :: less(a, c) ==> less(a, b) || less(b, c))
  }

  /** A weak order that leaves no two elements unordered. */
  ghost predicate StrictTotal<T(!new)>(less: (T, T) -> bool) {
    WeakOrder(less) && forall a: T, b: T :: a == b || less(a, b) || less(b, a)
  }

  ghost predicate Sorted<T(!new)>(less: (T, T) -> bool, s: seq<T>) {
    forall i, j :: 0 <= i < j < |s| ==> !less(s[j], s[i])
  }

  ghost predicate StrictlySorted<T(!new)>(less: (T, T) -> bool, s: seq<T>) {
    forall i, j :: 0 <= i < j < |s| ==> less(s[i], s[j])
  }

  ghost predicate Distinct<T>(s: seq<T>) {
    forall i, j :: 0 <= i < j < |s| ==> s[i] != s[j]
  }

  /** x put before the first element that is not smaller. */
  function Insert<T(!new)>(less: (T, T) -> bool, x: T, s: seq<T>): (r: seq<T>)
    ensures multiset(r) == multiset(s) + multiset{x}
    ensures WeakOrder(less) && Sorted(less, s) ==> Sorted(less, r)
  {
    if s == [] || !less(s[0], x) then [x] + s
    else
      var rest := Insert(less, x, s[1..]);
      assert s == [s[0]] + s[1..];
      InsertKeepsSorted(less, x, s, rest);
      [s[0]] + rest
  }

  lemma InsertKeepsSorted<T(!new)>(less: (T, T) -> bool, x: T, s: seq<T>, rest: seq<T>)
    requires s != [] && less(s[0], x)
    requires multiset(rest) == multiset(s[1..]) + multiset{x}
    requires WeakOrder(less) && Sorted(less, s) ==> Sorted(less, rest)
    ensures WeakOrder(less) && Sorted(less, s) ==> Sorted(less, [s[0]] + rest)
  {
    if WeakOrder(less) && Sorted(less, s) {
      forall y | y in rest
        ensures !less(y, s[0])
      {
        assert y in multiset(rest);
        assert y == x || y in s[1..];
      }
    }
  }

  /** The sorted rearrangement of s. */
  function Sort<T(!new)>(less: (T, T) -> bool, s: seq<T>): (r: seq<T>)
    ensures multiset(r) == multiset(s)
    ensures WeakOrder(less) ==> Sorted(less, r)
  {
    if s == [] then []
    else
      assert s == [s[0]] + s[1..];
      Insert(less, s[0], Sort(less, s[1..]))
  }

  /** Rearranging changes neither which elements there are nor how many. */
  lemma SameElems<T>(s: seq<T>, t: seq<T>)
    requires multiset(s) == multiset(t)
    ensures |s| == |t|
    ensures forall x :: x in s <==> x in t
    ensures Distinct(s) ==> Distinct(t)
  {
    assert |s| == |multiset(s)| == |multiset(t)| == |t|;
    forall x
      ensures x in s <==> x in t
    {
      assert x in s <==> x in multiset(s);
      assert x in t <==> x in multiset(t);
    }
    if Distinct(s) {
      forall i, j | 0 <= i < j < |t|
        ensures t[i] != t[j]
      {
        if t[i] == t[j] {
          TwiceCounts(t, i, j);
          OnceCounts(s, t[i]);
          assert false;
        }
      }
    }
  }

  lemma {:induction false} OnceCounts<T>(s: seq<T>, x: T)
    requires Distinct(s)
    ensures multiset(s)[x] <= 1
  {
    if s != [] {
      var n := |s| - 1;
      OnceCounts(s[..n], x);
      assert s == s[..n] + [s[n]];
      assert s[n] !in s[..n];
      assert s[n] !in multiset(s[..n]);
    }
  }

  lemma TwiceCounts<T>(t: seq<T>, i: nat, j: nat)
    requires i < j < |t| && t[i] == t[j]
    ensures multiset(t)[t[i]] >= 2
  {
    assert t == t[..j] + t[j..];
    assert t[i] == t[..j][i] && t[j] == t[j..][0];
    assert t[i] in multiset(t[..j]) && t[i] in multiset(t[j..]);
  }

  /** A strict total order sorts a set in one way only. */
  lemma {:induction false} SortedIsUnique<T(!new)>(less: (T, T) -> bool, s: seq<T>, t: seq<T>)
    requires StrictTotal(less)
    requires StrictlySorted(less, s) && StrictlySorted(less, t)
    requires forall x :: x in s <==> x in t
    ensures s == t
  {
    assert s != [] ==> s[0] in s;
    assert t != [] ==> t[0] in t;
    if s != [] && t != [] {
      assert s[0] in t && t[0] in s;
      assert s[0] == t[0];
      var s', t' := s[1..], t[1..];
      forall x
        ensures x in s' <==> x in t'
      {
        assert x in s <==> x == s[0] || x in s';
        assert x in t <==> x == t[0] || x in t';
        assert s[0] !in s' && t[0] !in t';
      }
      SortedIsUnique(less, s', t');
    }
  }

  lemma RestOf<T>(s: seq<T>)
    requires s != []
    ensures multiset(s[1..]) == multiset(s) - multiset{s[0]}
  {
    assert s == [s[0]] + s[1..];
  }

  /** And a list, with what it repeats, too. */
  lemma {:induction false} SortedRearrangementIsUnique<T(!new)>(less: (T, T) -> bool, s: seq<T>, t: seq<T>)
    requires StrictTotal(less) && Sorted(less, s) && Sorted(less, t)
    requires multiset(s) == multiset(t)
    ensures s == t
  {
    SameElems(s, t);
    if s != [] {
      assert s[0] in t && t[0] in s;
      assert s[0] == t[0];
      RestOf(s);
      RestOf(t);
      SortedRearrangementIsUnique(less, s[1..], t[1..]);
    }
  }

  lemma DistinctSortedIsStrict<T(!new)>(less: (T, T) -> bool, s: seq<T>)
    requires StrictTotal(less) && Sorted(less, s) && Distinct(s)
    ensures StrictlySorted(less, s)
  {
    forall i, j | 0 <= i < j < |s|
      ensures less(s[i], s[j])
    {
      assert !less(s[j], s[i]) && s[i] != s[j];
    }
  }
}
