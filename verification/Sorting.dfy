/** The sorts of the C library and of Python, as far as their callers rely on them. */
module Sorting {

  ghost predicate SortedBy<T>(s: seq<T>, key: T -> int) {
    forall i, j :: 0 <= i < j < |s| ==> key(s[i]) <= key(s[j])
  }

  lemma Inserted<T>(r: seq<T>, x: T, i: nat)
    requires i <= |r|
    ensures multiset(r[..i] + [x] + r[i..]) == multiset(r) + multiset{x}
  {
    assert r == r[..i] + r[i..];
  }

  lemma StaysSorted<T>(r: seq<T>, x: T, i: nat, key: T -> int)
    requires SortedBy(r, key) && i <= |r|
    requires i > 0 ==> key(r[i - 1]) <= key(x)
    requires i < |r| ==> key(x) <= key(r[i])
    ensures SortedBy(r[..i] + [x] + r[i..], key)
  {
    forall j | 0 <= j < |r|
      ensures j < i ==> key(r[j]) <= key(x)
      ensures j >= i ==> key(x) <= key(r[j])
    {
      assert j < i - 1 ==> key(r[j]) <= key(r[i - 1]);
      assert j > i ==> key(r[i]) <= key(r[j]);
    }
  }

  /** Places `x` behind the elements whose keys are not larger. */
  method Place<T>(r0: seq<T>, x: T, key: T -> int) returns (r: seq<T>)
    requires SortedBy(r0, key)
    ensures SortedBy(r, key) && multiset(r) == multiset(r0) + multiset{x}
  {
    var i := |r0|;
    while i > 0 && key(x) < key(r0[i - 1])
      invariant 0 <= i <= |r0| && (i < |r0| ==> key(x) <= key(r0[i]))
    {
      i := i - 1;
    }
    Inserted(r0, x, i);
    StaysSorted(r0, x, i, key);
    r := r0[..i] + [x] + r0[i..];
  }

  /** An ascending rearrangement of `s`. */
  method SortBy<T>(s: seq<T>, key: T -> int) returns (r: seq<T>)
    ensures SortedBy(r, key) && multiset(r) == multiset(s)
  {
    r := [];
    for n := 0 to |s|
      invariant SortedBy(r, key) && multiset(r) == multiset(s[..n])
    {
      assert s[..n + 1] == s[..n] + [s[n]];
      r := Place(r, s[n], key);
    }
    assert s[..|s|] == s;
  }
}
