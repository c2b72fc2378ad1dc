/** What the links of a well-formed log say about leaked memory. */
module Leaks {
  import opened History
  import opened Totals

  /** The last record, before step `n`, of the chain that starts at `i` (a release is not counted in). */
  ghost function Tip(log: seq<Op>, n: nat, i: nat): (t: nat)
    requires i < n <= |log|
    ensures i <= t < n
  {
    if n == i + 1 then i
    else
      var t := Tip(log, n - 1, i);
      if log[n - 1].kind.Realloc? && Link(log, t, n - 1) then n - 1 else t
  }

  /** The buffer allocated by step `i` exists before step `n`, perhaps elsewhere and with another size. */
  ghost predicate Held(log: seq<Op>, n: nat, i: nat) {
    i < n <= |log| && log[i].kind.Alloc? && Alive(log, n, Tip(log, n, i))
  }

  /** Step `i` allocated a buffer that is never released. */
  ghost predicate Leaked(log: seq<Op>, i: nat) {
    Held(log, |log|, i)
  }

  ghost function HeldSize(log: seq<Op>, n: nat, i: nat): int
    requires i < n <= |log|
  {
    if Held(log, n, i) then SizeAt(log, Tip(log, n, i)) else 0
  }

  ghost function HeldTotal(log: seq<Op>, n: nat, m: nat): int
    requires m <= n <= |log|
  {
    if m == 0 then 0 else HeldTotal(log, n, m - 1) + HeldSize(log, n, m - 1)
  }

  /** Two allocations never lead to the same record. */
  lemma {:induction false} TipUnique(log: seq<Op>, n: nat, i: nat, i': nat)
    requires WellFormed(log) && i < n <= |log| && i' < n
    requires log[i].kind.Alloc? && log[i'].kind.Alloc? && Tip(log, n, i) == Tip(log, n, i')
    ensures i == i'
  {
    if n > i + 1 && n > i' + 1 {
      var t, t' := Tip(log, n - 1, i), Tip(log, n - 1, i');
      if Link(log, t, n - 1) && Link(log, t', n - 1) {
        LinkUnique(log, t, n - 1, t', n - 1);
      }
      TipUnique(log, n - 1, i, i');
    }
  }

  /** Every live buffer goes back to an allocation. */
  lemma {:induction false} TipExists(log: seq<Op>, n: nat, p: nat) returns (i: nat)
    requires WellFormed(log) && Alive(log, n, p)
    ensures i < n && log[i].kind.Alloc? && Tip(log, n, i) == p
    decreases n
  {
    if p == n - 1 && log[p].kind.Alloc? {
      i := p;
    } else if p == n - 1 {
      assert StepOk(log, p);
      var q: nat :| Link(log, q, p);
      i := TipExists(log, p, q);
    } else {
      i := TipExists(log, n - 1, p);
    }
  }

  /** A record that no step follows up remains the last one of its chain. */
  lemma {:induction false} TipStays(log: seq<Op>, i: nat, t: nat, n: nat)
    requires i <= t < n <= |log| && Tip(log, t + 1, i) == t
    requires forall j: nat :: j < n ==> !Link(log, t, j)
    ensures Tip(log, n, i) == t
  {
    if n > t + 1 {
      TipStays(log, i, t, n - 1);
    }
  }

  /** What is never released is live. */
  lemma {:induction false} AliveUnlessLinked(log: seq<Op>, i: nat, n: nat)
    requires i < n <= |log| && IsOpener(log[i]) && forall j: nat :: j < n ==> !Link(log, i, j)
    ensures Alive(log, n, i)
  {
    if n > i + 1 {
      AliveUnlessLinked(log, i, n - 1);
      AliveStep(log, n - 1, i);
    }
  }

  // ---------------------------------------------------------------------------------
  // The leaks add up to the running total

  /** Step `n` concerns the buffer that step `i` allocated. */
  ghost predicate Continues(log: seq<Op>, n: nat, i: nat)
    requires i < n < |log|
  {
    log[i].kind.Alloc? && Link(log, Tip(log, n, i), n)
  }

  /** Step `n` changes the size of the buffer that it concerns by its delta, and of no other buffer. */
  lemma HeldStep(log: seq<Op>, n: nat, i: nat)
    requires WellFormed(log) && Balanced(log) && i < n < |log|
    ensures HeldSize(log, n + 1, i) ==
            HeldSize(log, n, i) + if Continues(log, n, i) then log[n].delta else 0
  {
    var t := Tip(log, n, i);
    AliveStep(log, n, t);
    if Link(log, t, n) && log[n].kind.Realloc? {
      SizeOfRealloc(log, t, n);
      AliveStep(log, n, n);
    }
  }

  lemma {:induction false} SameTotal(log: seq<Op>, n: nat, m: nat)
    requires WellFormed(log) && Balanced(log) && m <= n < |log| && forall i: nat :: i < m ==> !Continues(log, n, i)
    ensures HeldTotal(log, n + 1, m) == HeldTotal(log, n, m)
  {
    if m > 0 {
      HeldStep(log, n, m - 1);
      SameTotal(log, n, m - 1);
    }
  }

  lemma {:induction false} TotalStep(log: seq<Op>, n: nat, h: nat, m: nat)
    requires WellFormed(log) && Balanced(log) && h < m <= n < |log| && Continues(log, n, h)
    ensures HeldTotal(log, n + 1, m) == HeldTotal(log, n, m) + log[n].delta
  {
    HeldStep(log, n, m - 1);
    if m - 1 == h {
      forall i: nat | i < h
        ensures !Continues(log, n, i)
      {
        NoOther(log, n, h, i);
      }
      SameTotal(log, n, h);
    } else {
      NoOther(log, n, h, m - 1);
      TotalStep(log, n, h, m - 1);
    }
  }

  lemma NoOther(log: seq<Op>, n: nat, h: nat, i: nat)
    requires WellFormed(log) && h < n < |log| && i < n && Continues(log, n, h) && i != h
    ensures !Continues(log, n, i)
  {
    if Continues(log, n, i) {
      LinkUnique(log, Tip(log, n, h), n, Tip(log, n, i), n);
      TipUnique(log, n, h, i);
    }
  }

  /** At every moment the sizes of the buffers in use add up to the running total. */
  lemma {:induction false} Conservation(log: seq<Op>, n: nat)
    requires WellFormed(log) && Balanced(log) && n <= |log|
    ensures HeldTotal(log, n, n) == Total(log, n)
  {
    if n > 0 {
      Conservation(log, n - 1);
      var k := n - 1;
      if IsCloser(log[k]) {
        assert StepOk(log, k);
        var p: nat :| Link(log, p, k);
        var h := TipExists(log, k, p);
        TotalStep(log, k, h, k);
        assert HeldSize(log, n, k) == 0;
      } else {
        SameTotal(log, k, k);
        assert Held(log, n, k) <==> IsOpener(log[k]);
      }
    }
  }

  // ---------------------------------------------------------------------------------
  // Walking along a chain

  /** How far a walk along the links from the allocation `i` has come. */
  ghost predicate WalkAt(log: seq<Op>, i: nat, t: nat) {
    && i <= t < |log|
    && if log[t].kind.Free? then exists p: nat :: i <= p && Link(log, p, t) && Tip(log, p + 1, i) == p
       else Tip(log, t + 1, i) == t
  }

  ghost predicate IsLast(log: seq<Op>, t: nat) {
    forall j: nat :: !Link(log, t, j)
  }

  ghost predicate IsFirst(log: seq<Op>, t: nat) {
    forall i: nat :: !Link(log, i, t)
  }

  lemma OnlyLink(log: seq<Op>, t: nat, j: nat)
    requires WellFormed(log) && Link(log, t, j)
    ensures forall k: nat :: k != j ==> !Link(log, t, k)
  {
    forall k: nat | Link(log, t, k)
      ensures k == j
    {
      LinkUnique(log, t, j, t, k);
    }
  }

  lemma WalkStep(log: seq<Op>, i: nat, t: nat, j: nat)
    requires WellFormed(log) && WalkAt(log, i, t) && Link(log, t, j)
    ensures WalkAt(log, i, j) && Tip(log, j, i) == t
  {
    OnlyLink(log, t, j);
    TipStays(log, i, t, j);
  }

  /** Where a walk ends tells whether the buffer is leaked, and its last size. */
  lemma WalkEnd(log: seq<Op>, i: nat, t: nat)
    requires WellFormed(log) && WalkAt(log, i, t) && IsLast(log, t)
    ensures log[t].kind.Free? ==> !Alive(log, |log|, Tip(log, |log|, i))
    ensures !log[t].kind.Free? ==> Tip(log, |log|, i) == t && Alive(log, |log|, t)
  {
    if log[t].kind.Free? {
      var p: nat :| i <= p && Link(log, p, t) && Tip(log, p + 1, i) == p;
      OnlyLink(log, p, t);
      TipStays(log, i, p, t);
      TipPastFree(log, i, p, t, |log|);
    } else {
      TipStays(log, i, t, |log|);
      AliveUnlessLinked(log, t, |log|);
    }
  }

  lemma {:induction false} TipPastFree(log: seq<Op>, i: nat, p: nat, t: nat, n: nat)
    requires WellFormed(log) && i <= p < t < n <= |log| && Link(log, p, t) && log[t].kind.Free? && Tip(log, t, i) == p
    ensures Tip(log, n, i) == p && !Alive(log, n, p)
  {
    if n > t + 1 {
      TipPastFree(log, i, p, t, n - 1);
      OnlyLink(log, p, t);
    }
  }

  /** `c` are records that follow one another by links. */
  ghost predicate IsPath(log: seq<Op>, c: seq<nat>) {
    && c != [] && (forall k :: 0 <= k < |c| ==> c[k] < |log|)
    && (forall k, l :: 0 <= k < |c| && 0 <= l < |c| && l == k + 1 ==> Link(log, c[k], c[l]))
  }

  /** The same, up to a record that nothing follows up. */
  ghost predicate IsChain(log: seq<Op>, c: seq<nat>) {
    IsPath(log, c) && IsLast(log, c[|c| - 1])
  }

  /** Inside a chain there are only reallocs, each of the address that the record before left behind. */
  lemma ChainShape(log: seq<Op>, c: seq<nat>, k: nat)
    requires IsChain(log, c) && 0 < k < |c|
    ensures c[k - 1] < c[k] && Target(log[c[k]]) == log[c[k - 1]].mem
    ensures if k < |c| - 1 then log[c[k]].kind.Realloc? else !log[c[k]].kind.Alloc?
  {
    assert Link(log, c[k - 1], c[k]);
    assert k + 1 < |c| ==> Link(log, c[k], c[k + 1]);
  }

  /** Every record but a release of NULL belongs to a chain: following the links back ends at an allocation. */
  lemma {:induction false} ChainBack(log: seq<Op>, t: nat) returns (i: nat)
    requires WellFormed(log) && t < |log| && (log[t].kind.Free? ==> log[t].mem != 0)
    ensures i <= t && log[i].kind.Alloc? && WalkAt(log, i, t)
  {
    if log[t].kind.Alloc? {
      i := t;
    } else {
      assert StepOk(log, t);
      var q: nat :| Link(log, q, t);
      i := ChainBack(log, q);
      WalkStep(log, i, q, t);
    }
  }

  /** The walk along a path from an allocation. */
  lemma {:induction false} PathWalk(log: seq<Op>, c: seq<nat>, k: nat)
    requires WellFormed(log) && IsPath(log, c) && log[c[0]].kind.Alloc? && k < |c|
    ensures WalkAt(log, c[0], c[k])
  {
    if k > 0 {
      PathWalk(log, c, k - 1);
      assert Link(log, c[k - 1], c[k]);
      WalkStep(log, c[0], c[k - 1], c[k]);
    }
  }

  /** A buffer is leaked exactly if its chain does not end with a release. */
  lemma ChainEnd(log: seq<Op>, c: seq<nat>)
    requires WellFormed(log) && IsChain(log, c) && log[c[0]].kind.Alloc?
    ensures Leaked(log, c[0]) <==> !log[c[|c| - 1]].kind.Free?
  {
    PathWalk(log, c, |c| - 1);
    WalkEnd(log, c[0], c[|c| - 1]);
  }

  ghost function DeltaSum(log: seq<Op>, c: seq<nat>): int
    requires forall k :: 0 <= k < |c| ==> c[k] < |log|
  {
    if c == [] then 0 else DeltaSum(log, c[..|c| - 1]) + log[c[|c| - 1]].delta
  }

  lemma {:induction false} PathSum(log: seq<Op>, c: seq<nat>)
    requires WellFormed(log) && Balanced(log) && IsPath(log, c) && log[c[0]].kind.Alloc?
    ensures DeltaSum(log, c) == if log[c[|c| - 1]].kind.Free? then 0 else SizeAt(log, c[|c| - 1])
    decreases |c|
  {
    var n := |c| - 1;
    if n == 0 {
      assert c[..n] == [];
    } else {
      PathSum(log, c[..n]);
      assert Link(log, c[n - 1], c[n]);
      if log[c[n]].kind.Realloc? {
        SizeOfRealloc(log, c[n - 1], c[n]);
      }
    }
  }

  /** The deltas along a chain add up to the final size of a leaked buffer, and to nothing for a released one. */
  lemma ChainSum(log: seq<Op>, c: seq<nat>)
    requires WellFormed(log) && Balanced(log) && IsChain(log, c) && log[c[0]].kind.Alloc?
    ensures DeltaSum(log, c) == HeldSize(log, |log|, c[0])
  {
    PathSum(log, c);
    PathWalk(log, c, |c| - 1);
    WalkEnd(log, c[0], c[|c| - 1]);
  }
}
