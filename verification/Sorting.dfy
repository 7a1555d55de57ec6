/**
 Stable insertion sort over any order: what it gives is sorted, holds the same members as often, and leaves members
 that may stand either way in the order they had. Without ties there is only one sorted arrangement, so that sorting
 two arrangements of the same members gives the same. The models sort rows, results, values and test cases by it.
 */
module Sorting {

  /** Put `x` behind all members that may stand before it, counted from the end. */
  function Insert<T>(xs: seq<T>, x: T, le: (T, T) -> bool): (r: seq<T>)
    ensures |r| == |xs| + 1
  {
    if xs == [] || le(xs[|xs| - 1], x) then xs + [x]
    else Insert(xs[..|xs| - 1], x, le) + [xs[|xs| - 1]]
  }

  function Sort<T>(xs: seq<T>, le: (T, T) -> bool): (r: seq<T>)
    ensures |r| == |xs|
  {
    if xs == [] then [] else Insert(Sort(xs[..|xs| - 1], le), xs[|xs| - 1], le)
  }

  predicate Sorted<T>(xs: seq<T>, le: (T, T) -> bool) { forall i, j :: 0 <= i < j < |xs| ==> le(xs[i], xs[j]) }

  predicate Chains<T>(le: (T, T) -> bool, a: T, b: T, c: T) {
    (le(a, b) || le(b, a)) && (le(a, b) && le(b, c) ==> le(a, c))
  }

  /** Any two values compare, and comparing is transitive. */
  ghost predicate Preorder<T(!new)>(le: (T, T) -> bool) { forall a, b, c :: Chains(le, a, b, c) }

  lemma {:induction false} InsertMembers<T>(xs: seq<T>, x: T, le: (T, T) -> bool)
    ensures multiset(Insert(xs, x, le)) == multiset(xs) + multiset{x}
    decreases |xs|
  {
    if xs != [] && !le(xs[|xs| - 1], x) {
      InsertMembers(xs[..|xs| - 1], x, le);
      assert xs == xs[..|xs| - 1] + [xs[|xs| - 1]];
    }
  }

  /** Sorting keeps every member as often as it was there. */
  lemma {:induction false} SortMembers<T>(xs: seq<T>, le: (T, T) -> bool)
    ensures multiset(Sort(xs, le)) == multiset(xs)
    decreases |xs|
  {
    if xs != [] {
      SortMembers(xs[..|xs| - 1], le);
      InsertMembers(Sort(xs[..|xs| - 1], le), xs[|xs| - 1], le);
      assert xs == xs[..|xs| - 1] + [xs[|xs| - 1]];
    }
  }

  lemma {:induction false} InsertMember<T>(xs: seq<T>, x: T, le: (T, T) -> bool, i: nat)
    requires i <= |xs|
    ensures Insert(xs, x, le)[i] == x || Insert(xs, x, le)[i] in xs
  {
    var r := Insert(xs, x, le);
    InsertMembers(xs, x, le);
    assert r[i] in multiset(r);
  }

  lemma {:induction false} InsertSorted<T(!new)>(xs: seq<T>, x: T, le: (T, T) -> bool)
    requires Preorder(le) && Sorted(xs, le)
    ensures Sorted(Insert(xs, x, le), le)
    decreases |xs|
  {
    if xs != [] {
      var front, last := xs[..|xs| - 1], xs[|xs| - 1];
      assert Chains(le, x, last, last);
      if le(last, x) {
        forall i | 0 <= i < |xs| ensures le(xs[i], x) {
          assert Chains(le, xs[i], last, x);
        }
      } else {
        InsertSorted(front, x, le);
        forall i | 0 <= i < |Insert(front, x, le)| ensures le(Insert(front, x, le)[i], last) {
          InsertMember(front, x, le, i);
        }
      }
    }
  }

  /** The result is in order. */
  lemma {:induction false} SortSorts<T(!new)>(xs: seq<T>, le: (T, T) -> bool)
    requires Preorder(le)
    ensures Sorted(Sort(xs, le), le)
    decreases |xs|
  {
    if xs != [] {
      SortSorts(xs[..|xs| - 1], le);
      InsertSorted(Sort(xs[..|xs| - 1], le), xs[|xs| - 1], le);
    }
  }

  /** Sorting what is in order changes nothing. */
  lemma {:induction false} SortOfSorted<T>(xs: seq<T>, le: (T, T) -> bool)
    requires Sorted(xs, le)
    ensures Sort(xs, le) == xs
    decreases |xs|
  {
    if xs != [] {
      SortOfSorted(xs[..|xs| - 1], le);
    }
  }

  /** No two different members tie. */
  ghost predicate NoTies<T>(xs: seq<T>, le: (T, T) -> bool) {
    forall i, j :: 0 <= i < |xs| && 0 <= j < |xs| && le(xs[i], xs[j]) && le(xs[j], xs[i]) ==> xs[i] == xs[j]
  }

  lemma {:induction false} WithoutLast<T>(xs: seq<T>)
    requires xs != []
    ensures multiset(xs) == multiset(xs[..|xs| - 1]) + multiset{xs[|xs| - 1]}
  {
    assert xs == xs[..|xs| - 1] + [xs[|xs| - 1]];
  }

  lemma {:induction false} Cancel<T>(a: multiset<T>, b: multiset<T>, x: T)
    ensures a + multiset{x} == b + multiset{x} ==> a == b
    ensures a + multiset{x} <= b + multiset{x} ==> a <= b
  {
    assert a == (a + multiset{x}) - multiset{x} && b == (b + multiset{x}) - multiset{x};
    if a + multiset{x} <= b + multiset{x} {
      forall y ensures a[y] <= b[y] {
        assert (a + multiset{x})[y] <= (b + multiset{x})[y];
      }
    }
  }

  /** Exchanging two members keeps every member as often as it was there. */
  lemma {:induction false} SwapMembers<T>(s: seq<T>, i: nat, j: nat)
    requires i < j < |s|
    ensures multiset(s[i := s[j]][j := s[i]]) == multiset(s)
  {
    var t := s[i := s[j]];
    assert multiset(t) == multiset(s) - multiset{s[i]} + multiset{s[j]};
    assert multiset(t[j := s[i]]) == multiset(t) - multiset{s[j]} + multiset{s[i]};
    assert s[i] in multiset(s);
  }

  lemma {:induction false} SameLast<T>(a: seq<T>, b: seq<T>, le: (T, T) -> bool)
    requires Sorted(a, le) && Sorted(b, le) && NoTies(a, le) && multiset(a) == multiset(b) && a != []
    ensures b != [] && a[|a| - 1] == b[|b| - 1]
  {
    var x, n := a[|a| - 1], |a|;
    assert x in multiset(b);
    var i :| 0 <= i < |b| && b[i] == x;
    var y := b[|b| - 1];
    assert y in multiset(a);
    var j :| 0 <= j < n && a[j] == y;
    assert j == n - 1 || le(a[j], a[n - 1]);
    assert i == |b| - 1 || le(b[i], b[|b| - 1]);
  }

  /** Without ties there is one way to put members in order. */
  lemma {:induction false} SortedUnique<T>(a: seq<T>, b: seq<T>, le: (T, T) -> bool)
    requires Sorted(a, le) && Sorted(b, le) && NoTies(a, le) && multiset(a) == multiset(b)
    ensures a == b
    decreases |a|
  {
    assert |a| == |multiset(a)| && |b| == |multiset(b)|;
    if a != [] {
      SameLast(a, b, le);
      var front, rear, last := a[..|a| - 1], b[..|b| - 1], a[|a| - 1];
      WithoutLast(a);
      WithoutLast(b);
      Cancel(multiset(front), multiset(rear), last);
      SortedUnique(front, rear, le);
      assert a == front + [last] && b == rear + [last];
    }
  }

  /** Sorting two arrangements of the same members gives the same, if there are no ties. */
  lemma {:induction false} SortOfSame<T(!new)>(a: seq<T>, b: seq<T>, le: (T, T) -> bool)
    requires Preorder(le) && multiset(a) == multiset(b) && NoTies(Sort(a, le), le)
    ensures Sort(a, le) == Sort(b, le)
  {
    SortSorts(a, le);
    SortSorts(b, le);
    SortMembers(a, le);
    SortMembers(b, le);
    SortedUnique(Sort(a, le), Sort(b, le), le);
  }
}
