/** Sequences as multisets. */
module Bags {
  import opened TailQueue

  lemma {:induction false} Once<T>(a: seq<T>, x: T)
    requires NoDuplicates(a)
    ensures multiset(a)[x] == if x in a then 1 else 0
  {
    if a != [] {
      assert a == [a[0]] + a[1..];
      Once(a[1..], x);
    }
  }

  lemma {:induction false} SameElements<T>(a: seq<T>, b: seq<T>)
    requires NoDuplicates(a) && NoDuplicates(b) && forall x :: x in a <==> x in b
    ensures multiset(a) == multiset(b)
  {
    forall x
      ensures multiset(a)[x] == multiset(b)[x]
    {
      Once(a, x);
      Once(b, x);
    }
  }

  lemma Take<T>(b: seq<T>, j: nat)
    requires j < |b|
    ensures multiset(b) == multiset(b[..j] + b[j + 1..]) + multiset{b[j]}
  {
    assert b == b[..j] + [b[j]] + b[j + 1..];
  }

  lemma CancelLast<T>(a: multiset<T>, b: multiset<T>, x: T)
    requires a + multiset{x} == b + multiset{x}
    ensures a == b
  {
    assert a == (a + multiset{x}) - multiset{x};
    assert b == (b + multiset{x}) - multiset{x};
  }

  lemma Twice<T>(a: seq<T>, i: nat, j: nat)
    requires i < j < |a| && a[i] == a[j]
    ensures multiset(a)[a[i]] >= 2
  {
    Take(a, j);
    var b := a[..j] + a[j + 1..];
    assert b[i] == a[i] && b[i] in multiset(b);
  }

  /** A sequence without duplicates is as long as its set of elements is large. */
  lemma {:induction false} Size<T>(q: seq<T>, all: set<T>)
    requires NoDuplicates(q) && forall x :: x in q <==> x in all
    ensures |q| == |all|
    decreases |q|
  {
    if q == [] {
      assert all == {};
    } else {
      assert q == [q[0]] + q[1..];
      Size(q[1..], all - {q[0]});
    }
  }
}
