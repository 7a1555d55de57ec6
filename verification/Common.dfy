/**
 Vocabulary shared by the models: options, slices, ascending lists of numbers, gathering by position, flattening and
 columns of a table. The lemmas are about sequences and multisets; nothing here is about the system itself. What
 several models need is here, what only one of them needs is with that model.
 */
module Common {

  datatype Option<+T> = None | Some(value: T)

  /** A slice of a slice is a slice of the whole. */
  lemma {:induction false} SliceOfSlice<T>(s: seq<T>, from: nat, end: nat, i: nat, j: nat)
    requires from <= end <= |s| && i <= j <= end - from
    ensures s[from..end][i..j] == s[from + i..from + j]
  {
    var a, b := s[from..end][i..j], s[from + i..from + j];
    assert forall k :: 0 <= k < |a| ==> a[k] == s[from..end][i + k] == s[from + (i + k)] == b[k];
  }

  /** Cutting the middle out of a concatenation. */
  lemma {:induction false} Middle<T>(a: seq<T>, b: seq<T>, c: seq<T>)
    ensures (a + (b + c))[|a|..|a| + |b|] == b
    ensures (a + (b + c))[|a|..] == b + c
    ensures (b + c)[|b|..] == c
  {
  }

  lemma {:induction false} SplitSlice<T>(s: seq<T>, i: nat, j: nat, k: nat)
    requires i <= j <= k <= |s|
    ensures s[i..k] == s[i..j] + s[j..k]
  {
  }

  /** The members of `s` in `[lo, hi)`, ascending. */
  function Ordered(s: set<int>, lo: int, hi: int): seq<int>
    requires lo <= hi
    decreases hi - lo
  {
    if lo == hi then [] else Ordered(s, lo, hi - 1) + (if hi - 1 in s then [hi - 1] else [])
  }

  ghost predicate StrictlyIncreasing(r: seq<int>) { forall i, j :: 0 <= i < j < |r| ==> r[i] < r[j] }

  lemma {:induction false} OrderedMembers(s: set<int>, lo: int, hi: int)
    requires lo <= hi
    ensures StrictlyIncreasing(Ordered(s, lo, hi))
    ensures forall p :: p in Ordered(s, lo, hi) <==> p in s && lo <= p < hi
    decreases hi - lo
  {
    if lo < hi {
      OrderedMembers(s, lo, hi - 1);
      var front := Ordered(s, lo, hi - 1);
      assert forall i :: 0 <= i < |front| ==> front[i] in front;
    }
  }

  lemma {:induction false} OrderedSize(s: set<int>, lo: int, hi: int)
    requires lo <= hi && forall p <- s :: lo <= p < hi
    ensures |Ordered(s, lo, hi)| == |s|
    decreases hi - lo
  {
    if lo == hi {
      assert s == {};
    } else {
      var front := s - {hi - 1};
      OrderedSize(front, lo, hi - 1);
      OrderedIgnores(s, front, lo, hi - 1);
      assert hi - 1 in s ==> s == front + {hi - 1};
      assert hi - 1 !in s ==> s == front;
    }
  }

  lemma {:induction false} OrderedIgnores(s: set<int>, t: set<int>, lo: int, hi: int)
    requires lo <= hi && forall p :: lo <= p < hi ==> (p in s <==> p in t)
    ensures Ordered(s, lo, hi) == Ordered(t, lo, hi)
    decreases hi - lo
  {
    if lo < hi {
      OrderedIgnores(s, t, lo, hi - 1);
    }
  }

  /** Put a number into an ascending list, unless it is there already. */
  function InsertAscending(xs: seq<int>, x: int): (r: seq<int>)
    requires StrictlyIncreasing(xs)
    ensures StrictlyIncreasing(r) && forall y :: y in r <==> y == x || y in xs
  {
    if xs == [] then [x]
    else if x < xs[0] then [x] + xs
    else if x == xs[0] then xs
    else
      var rest := InsertAscending(xs[1..], x);
      assert forall i :: 0 <= i < |rest| ==> rest[i] in rest;
      [xs[0]] + rest
  }

  // ---------------------------------------------------------------- sequences

  predicate Distinct<T(==)>(xs: seq<T>) { forall i, j :: 0 <= i < j < |xs| ==> xs[i] != xs[j] }

  /** The members at the given positions. */
  function Gather<T>(xs: seq<T>, take: seq<int>): seq<T>
    requires forall k :: 0 <= k < |take| ==> 0 <= take[k] < |xs|
  {
    seq(|take|, k requires 0 <= k < |take| => xs[take[k]])
  }

  function Without<T>(s: seq<T>, j: nat): seq<T>
    requires j < |s|
  {
    s[..j] + s[j + 1..]
  }

  lemma {:induction false} WithoutMembers<T>(s: seq<T>, j: nat)
    requires j < |s|
    ensures multiset(s) == multiset(Without(s, j)) + multiset{s[j]}
  {
    assert s == s[..j] + [s[j]] + s[j + 1..];
  }

  function Flatten<T>(xss: seq<seq<T>>): seq<T> {
    if xss == [] then [] else Flatten(xss[..|xss| - 1]) + xss[|xss| - 1]
  }

  lemma {:induction false} FlattenOne<T>(xss: seq<seq<T>>, k: nat)
    requires k < |xss|
    ensures Flatten(xss[..k + 1]) == Flatten(xss[..k]) + xss[k]
  {
    assert xss[..k + 1][..k] == xss[..k];
  }

  lemma {:induction false} FlattenAppend<T>(xss: seq<seq<T>>, last: seq<T>)
    ensures Flatten(xss + [last]) == Flatten(xss) + last
  {
    assert (xss + [last])[..|xss|] == xss;
  }

  lemma {:induction false} FlattenPrefix<T>(xss: seq<seq<T>>, k: nat, i: nat)
    requires k <= i <= |xss|
    ensures Flatten(xss[..k]) <= Flatten(xss[..i])
    decreases i
  {
    if k < i {
      FlattenPrefix(xss, k, i - 1);
      FlattenOne(xss, i - 1);
    }
  }

  lemma {:induction false} FlattenConcat<T>(a: seq<seq<T>>, b: seq<seq<T>>)
    ensures Flatten(a + b) == Flatten(a) + Flatten(b)
    decreases |b|
  {
    if b == [] {
      assert a + b == a;
    } else {
      var front, last := b[..|b| - 1], b[|b| - 1];
      assert (a + b)[..|a + b| - 1] == a + front;
      FlattenConcat(a, front);
      assert Flatten(a) + Flatten(front) + last == Flatten(a) + (Flatten(front) + last);
    }
  }

  lemma {:induction false} FlattenSplit<T>(xss: seq<seq<T>>, j: nat)
    requires j < |xss|
    ensures Flatten(xss) == Flatten(xss[..j]) + xss[j] + Flatten(xss[j + 1..])
  {
    FlattenOne(xss, j);
    FlattenConcat(xss[..j + 1], xss[j + 1..]);
    assert xss == xss[..j + 1] + xss[j + 1..];
  }

  function Column<A, B>(xs: seq<A>, read: A -> B): seq<B> {
    seq(|xs|, i requires 0 <= i < |xs| => read(xs[i]))
  }

  lemma {:induction false} ColumnWithout<A, B>(xs: seq<A>, read: A -> B, j: nat)
    requires j < |xs|
    ensures multiset(Column(xs, read)) == multiset(Column(Without(xs, j), read)) + multiset{read(xs[j])}
  {
    WithoutMembers(Column(xs, read), j);
    assert Without(Column(xs, read), j) == Column(Without(xs, j), read);
  }

  /** Reading a rearrangement gives a rearrangement. */
  lemma {:induction false} ColumnOfSame<A, B>(a: seq<A>, b: seq<A>, read: A -> B)
    requires multiset(a) == multiset(b)
    ensures multiset(Column(a, read)) == multiset(Column(b, read))
    decreases |a|
  {
    assert |a| == |multiset(a)| && |b| == |multiset(b)|;
    if a != [] {
      var n: nat := |a| - 1;
      assert a[n] in multiset(b);
      var j :| 0 <= j < |b| && b[j] == a[n];
      WithoutMembers(a, n);
      WithoutMembers(b, j);
      assert multiset(Without(a, n)) == multiset(a) - multiset{a[n]};
      ColumnOfSame(Without(a, n), Without(b, j), read);
      ColumnWithout(a, read, n);
      ColumnWithout(b, read, j);
    }
  }

  /** What one list contributes to all members taken together. */
  lemma {:induction false} FlattenWithout<T>(xss: seq<seq<T>>, j: nat)
    requires j < |xss|
    ensures multiset(Flatten(xss)) == multiset(Flatten(Without(xss, j))) + multiset(xss[j])
  {
    FlattenSplit(xss, j);
    FlattenConcat(xss[..j], xss[j + 1..]);
  }

  /** Lists in any order have the same members taken together. */
  lemma {:induction false} FlattenOfSame<T>(a: seq<seq<T>>, b: seq<seq<T>>)
    requires multiset(a) == multiset(b)
    ensures multiset(Flatten(a)) == multiset(Flatten(b))
    decreases |a|
  {
    assert |a| == |multiset(a)| && |b| == |multiset(b)|;
    if a != [] {
      var front, last := a[..|a| - 1], a[|a| - 1];
      assert last in multiset(b);
      var j :| 0 <= j < |b| && b[j] == last;
      WithoutMembers(b, j);
      assert a == front + [last];
      assert multiset(front) == multiset(a) - multiset{last};
      FlattenOfSame(front, Without(b, j));
      FlattenWithout(b, j);
    }
  }
}
