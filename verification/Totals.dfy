/** Sums over a log. */
module Totals {
  import opened History

  /** The memory in use after the first `n` steps. */
  ghost function Total(log: seq<Op>, n: nat): int
    requires n <= |log|
  {
    if n == 0 then 0 else Total(log, n - 1) + log[n - 1].delta
  }

  /** The memory allocated by the first `n` steps. */
  ghost function Gained(log: seq<Op>, n: nat): nat
    requires n <= |log|
  {
    if n == 0 then 0 else Gained(log, n - 1) + if log[n - 1].delta < 0 then 0 else log[n - 1].delta
  }

  /** The memory released by the first `n` steps. */
  ghost function Lost(log: seq<Op>, n: nat): nat
    requires n <= |log|
  {
    if n == 0 then 0 else Lost(log, n - 1) + if log[n - 1].delta < 0 then -log[n - 1].delta else 0
  }

  lemma {:induction false} Accounts(log: seq<Op>, n: nat)
    requires n <= |log|
    ensures Total(log, n) == Gained(log, n) - Lost(log, n)
  {
    if n > 0 {
      Accounts(log, n - 1);
    }
  }

  /** The memory in use after step `j`. */
  ghost function InUse(log: seq<Op>, j: nat): int
    requires j < |log|
  {
    Total(log, j + 1)
  }

  /** Among the steps from `a` up to `b`, step `k` is the first one after which most memory is in use. */
  ghost predicate IsPeak(log: seq<Op>, a: nat, b: nat, k: nat) {
    && a <= k < b <= |log|
    && (forall j :: a <= j < b ==> InUse(log, j) <= InUse(log, k))
    && (forall j :: a <= j < k ==> InUse(log, j) < InUse(log, k))
  }

  /** A part that contains the overall peak has the same peak. */
  lemma SamePeak(log: seq<Op>, p: nat, a: nat, b: nat, k: nat)
    requires IsPeak(log, 0, |log|, p) && IsPeak(log, a, b, k) && a <= p < b
    ensures k == p
  {
    assert InUse(log, p) <= InUse(log, k) <= InUse(log, p);
  }
}
