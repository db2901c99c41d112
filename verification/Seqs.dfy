/** Sequences: sorting, and what a sorting algorithm cannot choose. */
module Seqs {

  ghost predicate Sorted<T>(s: seq<T>, leq: (T, T) -> bool) {
    forall i, j :: 0 <= i < j < |s| ==> leq(s[i], s[j])
  }

  ghost predicate TotalOrder<T(!new)>(leq: (T, T) -> bool) {
    && (forall a, b :: leq(a, b) || leq(b, a))
    && (forall a, b, c :: leq(a, b) && leq(b, c) ==> leq(a, c))
  }

  function Insert<T>(x: T, s: seq<T>, leq: (T, T) -> bool): (r: seq<T>)
    ensures multiset(r) == multiset(s) + multiset{x}
  {
    if s == [] then [x]
    else if leq(x, s[0]) then
      [x] + s
    else
      assert s == [s[0]] + s[1..];
      [s[0]] + Insert(x, s[1..], leq)
  }

  /** Any library sort: by `SortUnique` the result does not depend on the algorithm when the order tells all elements
      that occur apart. */
  function Sort<T>(s: seq<T>, leq: (T, T) -> bool): (r: seq<T>)
    ensures multiset(r) == multiset(s)
  {
    if s == [] then []
    else
      assert s == [s[0]] + s[1..];
      Insert(s[0], Sort(s[1..], leq), leq)
  }

  lemma {:induction false} InsertSorted<T(!new)>(x: T, s: seq<T>, leq: (T, T) -> bool)
    requires TotalOrder(leq) && Sorted(s, leq)
    ensures Sorted(Insert(x, s, leq), leq)
  {
    if s != [] && !leq(x, s[0]) {
      var t := Insert(x, s[1..], leq);
      InsertSorted(x, s[1..], leq);
      forall j | 0 <= j < |t| ensures leq(s[0], t[j]) {
        assert t[j] in multiset(t);
        if t[j] != x {
          assert t[j] in s[1..];
        }
      }
    }
  }

  lemma {:induction false} SortSorted<T(!new)>(s: seq<T>, leq: (T, T) -> bool)
    requires TotalOrder(leq)
    ensures Sorted(Sort(s, leq), leq)
  {
    if s != [] {
      SortSorted(s[1..], leq);
      InsertSorted(s[0], Sort(s[1..], leq), leq);
    }
  }

  lemma SortedHead<T>(a: seq<T>, x: T, leq: (T, T) -> bool)
    requires Sorted(a, leq) && x in a
    ensures x == a[0] || leq(a[0], x)
  {
  }

  lemma SameElements<T>(a: seq<T>, b: seq<T>)
    requires multiset(a) == multiset(b)
    ensures |a| == |b| && forall x :: x in a <==> x in b
  {
    assert |multiset(a)| == |a| && |multiset(b)| == |b|;
    assert forall x :: x in a <==> x in multiset(a);
    assert forall x :: x in b <==> x in multiset(b);
  }

  lemma SameTail<T>(a: seq<T>, b: seq<T>)
    requires multiset(a) == multiset(b) && a != [] && b != [] && a[0] == b[0]
    ensures multiset(a[1..]) == multiset(b[1..])
  {
    assert a == [a[0]] + a[1..] && b == [b[0]] + b[1..];
    assert multiset(a[1..]) == multiset(a) - multiset{a[0]};
    assert multiset(b[1..]) == multiset(b) - multiset{b[0]};
  }

  /** Two sorted arrangements of the same elements are equal, if no two different elements among them are tied. */
  lemma {:induction false} SortUnique<T>(a: seq<T>, b: seq<T>, leq: (T, T) -> bool)
    requires Sorted(a, leq) && Sorted(b, leq) && multiset(a) == multiset(b)
    requires forall x, y :: x in a && y in a && leq(x, y) && leq(y, x) ==> x == y
    ensures a == b
  {
    SameElements(a, b);
    if a != [] {
      SortedHead(a, b[0], leq);
      SortedHead(b, a[0], leq);
      SameTail(a, b);
      SortUnique(a[1..], b[1..], leq);
      assert a == [a[0]] + a[1..] && b == [b[0]] + b[1..];
    }
  }

  ghost predicate NoDuplicates<T>(s: seq<T>) {
    forall i, j :: 0 <= i < j < |s| ==> s[i] != s[j]
  }

  /** Pigeonhole: a sequence without duplicates is no longer than a set that holds it. */
  lemma NoDuplicatesFits<T>(s: seq<T>, from: set<T>)
    requires NoDuplicates(s) && forall x :: x in s ==> x in from
    ensures |s| <= |from|
  {
    if s != [] {
      var last := s[|s| - 1];
      NoDuplicatesFits(s[..|s| - 1], from - {last});
    }
  }

  lemma SortKeeps<T>(s: seq<T>, leq: (T, T) -> bool)
    ensures forall x :: x in Sort(s, leq) <==> x in s
  {
    assert forall x :: x in Sort(s, leq) <==> x in multiset(Sort(s, leq));
    assert forall x :: x in s <==> x in multiset(s);
  }

  lemma CountedOnce<T>(s: seq<T>)
    requires NoDuplicates(s)
    ensures forall x :: x in s ==> multiset(s)[x] == 1
  {
    if s != [] {
      var t, last := s[..|s| - 1], s[|s| - 1];
      CountedOnce(t);
      assert s == t + [last];
      assert last !in multiset(t);
      forall x | x in s ensures multiset(s)[x] == 1 {
        assert x in t || x == last;
      }
    }
  }

  lemma CountedTwice<T>(s: seq<T>, i: nat, j: nat)
    requires i < j < |s| && s[i] == s[j]
    ensures multiset(s)[s[i]] > 1
  {
    assert s == s[..j] + [s[j]] + s[j + 1..];
    assert s[i] in s[..j];
    assert s[i] in multiset(s[..j]);
  }

  lemma NoDuplicatesCounts<T>(s: seq<T>)
    ensures NoDuplicates(s) <==> forall x :: x in s ==> multiset(s)[x] == 1
  {
    if NoDuplicates(s) {
      CountedOnce(s);
    } else {
      var i, j :| 0 <= i < j < |s| && s[i] == s[j];
      CountedTwice(s, i, j);
    }
  }

  lemma SortNoDuplicates<T>(s: seq<T>, leq: (T, T) -> bool)
    requires NoDuplicates(s)
    ensures NoDuplicates(Sort(s, leq))
  {
    NoDuplicatesCounts(s);
    NoDuplicatesCounts(Sort(s, leq));
    SortKeeps(s, leq);
  }

  /** The last `n` elements, or all there are. */
  function LastN<T>(s: seq<T>, n: nat): seq<T> {
    if |s| <= n then s else s[|s| - n..]
  }

  lemma LastNStep<T>(s: seq<T>, x: T, n: nat)
    requires n > 0
    ensures LastN(LastN(s, n) + [x], n) == LastN(s + [x], n)
  {
  }

  function Map<T, U>(f: T -> U, s: seq<T>): (r: seq<U>)
    ensures |r| == |s| && forall i :: 0 <= i < |s| ==> r[i] == f(s[i])
  {
    if s == [] then [] else [f(s[0])] + Map(f, s[1..])
  }

  lemma MapConcat<T, U>(f: T -> U, a: seq<T>, b: seq<T>)
    ensures Map(f, a + b) == Map(f, a) + Map(f, b)
  {
  }

  ghost predicate Ascends(at: seq<nat>) {
    forall i, j :: 0 <= i < j < |at| ==> at[i] < at[j]
  }

  lemma AscendsOne(at: seq<nat>, n: nat)
    requires Ascends(at) && forall i :: i in at ==> i < n
    ensures Ascends(at + [n]) && forall i :: i in at + [n] <==> i in at || i == n
  {
    forall i, j | 0 <= i < j < |at + [n]| ensures (at + [n])[i] < (at + [n])[j] {
      assert (at + [n])[i] == at[i] && at[i] in at;
    }
  }

  function Without<T>(s: seq<T>, i: nat): (r: seq<T>)
    requires i < |s|
    ensures |r| == |s| - 1 && forall k :: 0 <= k < |r| ==> r[k] == if k < i then s[k] else s[k + 1]
  {
    s[..i] + s[i + 1..]
  }

  lemma RemoveAt<T>(s: seq<T>, i: nat)
    requires i < |s|
    ensures multiset(s) == multiset(Without(s, i)) + multiset{s[i]}
  {
    assert s == s[..i] + [s[i]] + s[i + 1..];
  }

  lemma MapWithout<T, U>(f: T -> U, s: seq<T>, i: nat)
    requires i < |s|
    ensures Map(f, Without(s, i)) == Without(Map(f, s), i)
  {
    hide Map;
    var t, m := Without(s, i), Map(f, s);
    var a, b := Map(f, t), Without(m, i);
    forall k | 0 <= k < |t| ensures a[k] == b[k] {
      assert a[k] == f(t[k]);
      if k < i {
        assert t[k] == s[k] && b[k] == m[k];
      } else {
        assert t[k] == s[k + 1] && b[k] == m[k + 1];
      }
    }
  }

  lemma MapRemoveAt<T, U>(f: T -> U, s: seq<T>, i: nat)
    requires i < |s|
    ensures multiset(Map(f, s)) == multiset(Map(f, Without(s, i))) + multiset{f(s[i])}
  {
    hide Map, Without;
    MapWithout(f, s, i);
    RemoveAt(Map(f, s), i);
  }

  lemma Indexed<T>(s: seq<T>, x: T) returns (i: nat)
    requires x in s
    ensures i < |s| && s[i] == x
  {
    i :| i < |s| && s[i] == x;
  }

  lemma Cancel<T>(m: multiset<T>, n: multiset<T>, x: T)
    requires m + multiset{x} == n + multiset{x}
    ensures m == n
  {
    assert m == (m + multiset{x}) - multiset{x};
    assert n == (n + multiset{x}) - multiset{x};
  }

  /** Mapping does not mind the order. */
  lemma {:induction false} MapPermuted<T, U>(f: T -> U, a: seq<T>, b: seq<T>)
    requires multiset(a) == multiset(b)
    ensures multiset(Map(f, a)) == multiset(Map(f, b))
    decreases |a|
  {
    hide Map, Without;
    SameElements(a, b);
    if a == [] {
      assert a == b;
    } else {
      var i := Indexed(b, a[0]);
      RemoveAt(a, 0);
      RemoveAt(b, i);
      Cancel(multiset(Without(a, 0)), multiset(Without(b, i)), a[0]);
      MapPermuted(f, Without(a, 0), Without(b, i));
      MapRemoveAt(f, a, 0);
      MapRemoveAt(f, b, i);
    }
  }
}
