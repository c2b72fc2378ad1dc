/** The analysis of a saved log, mprofile/scripts/mprofile.py. */
module Analysis {
  import opened History
  import opened Leaks
  import opened Totals
  import Records
  import Sampling
  import TailQueue

  /** A record as the script loads it; `memCurrent` is added by the script. */
  class MemRecord {
    const op: Op
    const stackId: nat
    const prevId: nat
    const nextId: nat
    var memCurrent: int

    constructor (op: Op, stackId: nat, prevId: nat, nextId: nat)
      ensures this.op == op && this.stackId == stackId && this.prevId == prevId && this.nextId == nextId
    {
      this.op, this.stackId, this.prevId, this.nextId, memCurrent := op, stackId, prevId, nextId, 0;
    }
  }

  /** The records carry this log, with the links of its chains. */
  ghost predicate Carries(mrs: seq<MemRecord>, log: seq<Op>) {
    && |mrs| == |log| && WellFormed(log)
    && (forall i :: 0 <= i < |log| ==> mrs[i].op == log[i] && log[i].id == i + 1)
    && (forall i: nat, j: nat :: Link(log, i, j) ==> mrs[i].nextId == j + 1 && mrs[j].prevId == i + 1)
    && (forall i: nat {:trigger IsLast(log, i)} :: i < |log| && IsLast(log, i) ==> mrs[i].nextId == 0)
    && (forall j: nat {:trigger IsFirst(log, j)} :: j < |log| && IsFirst(log, j) ==> mrs[j].prevId == 0)
  }

  class MProfile {
    const memRecords: seq<MemRecord>
    var samples: Samples
    ghost const log: seq<Op>

    ghost predicate Valid() {
      Carries(memRecords, log) && TailQueue.NoDuplicates(memRecords)
    }

    /** __init__ (mprofile.py:172-185), without the stacks. */
    constructor (memRecords: seq<MemRecord>, ghost log: seq<Op>)
      requires Carries(memRecords, log) && TailQueue.NoDuplicates(memRecords)
      modifies memRecords
      ensures Valid() && this.memRecords == memRecords && this.log == log && samples == Unsampled
      ensures Summed()
    {
      this.memRecords, this.log, samples := memRecords, log, Unsampled;
      new;
      CalcCurrent();
    }

    /** Every record shows the memory in use after it. */
    ghost predicate Summed()
      reads memRecords
    {
      |memRecords| == |log| && forall i :: 0 <= i < |log| ==> memRecords[i].memCurrent == InUse(log, i)
    }

    /** __calc_current. */
    method CalcCurrent()
      requires Valid()
      modifies memRecords
      ensures Summed()
    {
      var memCurrent := 0;
      for k := 0 to |memRecords|
        invariant memCurrent == Total(log, k)
        invariant forall i :: 0 <= i < k ==> memRecords[i].memCurrent == InUse(log, i)
      {
        var mr := memRecords[k];
        memCurrent := memCurrent + mr.op.delta;
        mr.memCurrent := memCurrent;
      }
    }

    /** get_mr. */
    function GetMr(opId: int): MemRecord? {
      if opId < 1 || opId > |memRecords| then null else memRecords[opId - 1]
    }

    /** get_next. */
    function GetNext(mr: MemRecord): MemRecord? {
      if mr.nextId != 0 then GetMr(mr.nextId) else null
    }

    /** get_prev. */
    function GetPrev(mr: MemRecord): MemRecord? {
      if mr.prevId != 0 then GetMr(mr.prevId) else null
    }

    /** Ids lead to records: the links of the script are those of the log, in both directions. */
    lemma Linked(t: nat, j: nat)
      requires Valid() && t < |log| && j < |log|
      ensures GetNext(memRecords[t]) == memRecords[j] <==> Link(log, t, j)
      ensures GetPrev(memRecords[j]) == memRecords[t] <==> Link(log, t, j)
      ensures GetMr(log[t].id) == memRecords[t]
    {
      if !IsLast(log, t) {
        var k: nat :| Link(log, t, k);
      }
      if !IsFirst(log, j) {
        var k: nat :| Link(log, k, j);
      }
    }

    lemma NextAt(t: nat)
      requires Valid() && t < |log|
      ensures GetMr(memRecords[t].nextId) == GetNext(memRecords[t])
      ensures GetNext(memRecords[t]) == null <==> IsLast(log, t)
      ensures GetNext(memRecords[t]) != null ==> Link(log, t, memRecords[t].nextId - 1)
    {
      if !IsLast(log, t) {
        var k: nat :| Link(log, t, k);
      }
    }

    lemma Begin(i: nat)
      requires i < |log|
      ensures IsPath(log, [i]) && DeltaSum(log, [i]) == log[i].delta
    {
      assert [i][..0] == [];
    }

    /** What the links lead to from the end of a path. */
    ghost function Ahead(c: seq<nat>): MemRecord?
      requires Valid() && IsPath(log, c)
    {
      GetNext(memRecords[c[|c| - 1]])
    }

    /** A step along the links. */
    lemma Extend(c: seq<nat>) returns (c': seq<nat>)
      requires Valid() && IsPath(log, c) && Ahead(c) != null
      ensures IsPath(log, c') && |c'| == |c| + 1 && c' == c + [c'[|c|]] && c[|c| - 1] < c'[|c|]
      ensures DeltaSum(log, c') == DeltaSum(log, c) + log[c'[|c|]].delta
      ensures memRecords[c'[|c|]] == Ahead(c)
    {
      NextAt(c[|c| - 1]);
      var j: nat := memRecords[c[|c| - 1]].nextId - 1;
      c' := c + [j];
      assert c'[..|c|] == c;
    }

    lemma Finish(c: seq<nat>)
      requires Valid() && IsPath(log, c)
      ensures Ahead(c) == null <==> IsChain(log, c)
      ensures GetMr(memRecords[c[|c| - 1]].nextId) == Ahead(c)
      ensures Ahead(c) == null <==> memRecords[c[|c| - 1]].nextId == 0
    {
      NextAt(c[|c| - 1]);
    }

    /** The records at these positions of the log. */
    ghost predicate AreAt(mrs: seq<MemRecord>, at: seq<nat>) {
      |mrs| == |at| && forall k :: 0 <= k < |at| ==> at[k] < |memRecords| && mrs[k] == memRecords[at[k]]
    }

    /** get_chain: the records that follow one another by links, to the end. */
    method GetChain(ar0: MemRecord, ghost i: nat) returns (chain: seq<MemRecord>)
      requires Valid() && i < |log| && ar0 == memRecords[i]
      ensures exists c: seq<nat> :: IsChain(log, c) && c[0] == i && AreAt(chain, c)
    {
      var ar := ar0;
      chain := [ar];
      ghost var c: seq<nat> := [i];
      Begin(i);
      Finish(c);
      while ar.nextId != 0
        invariant IsPath(log, c) && c[0] == i && AreAt(chain, c)
        invariant ar == chain[|c| - 1]
        decreases |log| - c[|c| - 1]
      {
        Finish(c);
        c := Extend(c);
        ar := GetMr(ar.nextId);
        chain := chain + [ar];
      }
      Finish(c);
    }

    /** is_leak: the allocations of buffers that are never released. */
    method IsLeak(mr0: MemRecord, ghost i: nat) returns (r: bool)
      requires Valid() && i < |log| && mr0 == memRecords[i]
      ensures r <==> Leaked(log, i)
    {
      if !mr0.op.kind.Alloc? {
        return false;
      }
      var mr := mr0;
      var nextMr := GetMr(mr.nextId);
      ghost var c: seq<nat> := [i];
      Begin(i);
      Finish(c);
      while nextMr != null
        invariant IsPath(log, c) && c[0] == i && mr == memRecords[c[|c| - 1]] && nextMr == Ahead(c)
        decreases |log| - c[|c| - 1]
      {
        c := Extend(c);
        Finish(c);
        mr := nextMr;
        nextMr := GetMr(mr.nextId);
      }
      Finish(c);
      ChainEnd(log, c);
      r := !mr.op.kind.Free?;
    }

    /** The allocations among the first `n` records that leak, in order. */
    ghost function LeakedBefore(n: nat): seq<nat> {
      if n == 0 then [] else LeakedBefore(n - 1) + if Leaked(log, n - 1) then [n - 1] else []
    }

    lemma {:induction false} LeakedInOrder(n: nat)
      ensures forall i: nat :: i in LeakedBefore(n) <==> i < n && Leaked(log, i)
      ensures forall k, l :: 0 <= k < l < |LeakedBefore(n)| ==> LeakedBefore(n)[k] < LeakedBefore(n)[l]
    {
      if n > 0 {
        LeakedInOrder(n - 1);
        var at := LeakedBefore(n - 1);
        assert forall k :: 0 <= k < |at| ==> at[k] in at;
      }
    }

    /** leaks (without the cache). */
    method Leaks() returns (leaks: seq<MemRecord>)
      requires Valid()
      ensures AreAt(leaks, LeakedBefore(|log|))
    {
      hide WellFormed, TailQueue.NoDuplicates, Link, IsLast, IsFirst, Leaked;
      leaks := [];
      for n := 0 to |memRecords|
        invariant AreAt(leaks, LeakedBefore(n))
      {
        var leak := IsLeak(memRecords[n], n);
        if leak {
          leaks := leaks + [memRecords[n]];
        }
      }
    }

    /** get_leak_sz: what the buffer measures in the end. */
    method GetLeakSz(leakMr0: MemRecord, ghost i: nat) returns (leakSz: int)
      requires Valid() && i < |log| && leakMr0 == memRecords[i] && log[i].kind.Alloc?
      ensures Balanced(log) ==> leakSz == HeldSize(log, |log|, i)
    {
      var leakMr := leakMr0;
      leakSz := leakMr.op.delta;
      var nextMr := GetNext(leakMr);
      ghost var c: seq<nat> := [i];
      Begin(i);
      while nextMr != null
        invariant IsPath(log, c) && c[0] == i && leakMr == memRecords[c[|c| - 1]] && nextMr == Ahead(c)
        invariant leakSz == DeltaSum(log, c)
        decreases |log| - c[|c| - 1]
      {
        c := Extend(c);
        leakMr := nextMr;
        leakSz := leakSz + leakMr.op.delta;
        nextMr := GetNext(leakMr);
      }
      Finish(c);
      if Balanced(log) {
        ChainSum(log, c);
      }
    }

    ghost function SizesOf(at: seq<nat>): int
      requires forall k :: 0 <= k < |at| ==> at[k] < |log|
    {
      if at == [] then 0 else SizesOf(at[..|at| - 1]) + HeldSize(log, |log|, at[|at| - 1])
    }

    lemma SizesOfMore(at: seq<nat>, i: nat)
      requires (forall k :: 0 <= k < |at| ==> at[k] < |log|) && i < |log|
      ensures SizesOf(at + [i]) == SizesOf(at) + HeldSize(log, |log|, i)
    {
      assert (at + [i])[..|at|] == at;
    }

    lemma {:induction false} SizesOfLeaks(n: nat)
      requires n <= |log|
      ensures forall k :: 0 <= k < |LeakedBefore(n)| ==> LeakedBefore(n)[k] < |log|
      ensures SizesOf(LeakedBefore(n)) == HeldTotal(log, |log|, n)
    {
      if n > 0 {
        SizesOfLeaks(n - 1);
        if Leaked(log, n - 1) {
          SizesOfMore(LeakedBefore(n - 1), n - 1);
        } else {
          assert LeakedBefore(n) == LeakedBefore(n - 1);
        }
      }
    }

    /** report_leaks (mprofile.py:403-410): the bytes lost in all leaks are the final running total. */
    method ReportLeaks() returns (lost: int, count: nat)
      requires Valid() && Balanced(log)
      ensures lost == Total(log, |log|)
      ensures count == |LeakedBefore(|log|)|
    {
      var leaks := Leaks();
      ghost var at := LeakedBefore(|log|);
      SizesOfLeaks(|log|);
      lost, count := 0, |leaks|;
      for k := 0 to |leaks|
        invariant lost == SizesOf(at[..k])
      {
        LeakedInOrder(|log|);
        assert at[k] in at;
        var sz := GetLeakSz(leaks[k], at[k]);
        lost := lost + sz;
        assert at[..k + 1][..k] == at[..k];
      }
      assert at[..|leaks|] == at;
      Conservation(log, |log|);
    }

    // -------------------------------------------------------------------------------
    // Totals, peak and samples

    /** get_total_mem. */
    function GetTotalMem(): (allocSz: int)
      requires Valid()
      ensures allocSz == Gained(log, |log|)
    {
      AllocatedBy(|memRecords|)
    }

    function AllocatedBy(n: nat): (allocSz: int)
      requires Valid() && n <= |memRecords|
      ensures allocSz == Gained(log, n)
    {
      if n == 0 then 0
      else
        var delta := memRecords[n - 1].op.delta;
        AllocatedBy(n - 1) + if delta < 0 then 0 else delta
    }

    /** The built-in max with mem_current as key, over the records from `a` up to `b`: the first largest one. */
    method Highest(a: nat, b: nat) returns (r: MemRecord, ghost k: nat)
      requires Valid() && Summed() && a < b <= |log|
      ensures IsPeak(log, a, b, k) && r == memRecords[k]
    {
      r, k := memRecords[a], a;
      for j := a + 1 to b
        invariant IsPeak(log, a, j, k) && r == memRecords[k]
      {
        if memRecords[j].memCurrent > r.memCurrent {
          r, k := memRecords[j], j;
        }
      }
    }

    /** get_mem_peak; on an empty log the script fails. */
    method GetMemPeak() returns (r: MemRecord?, ghost k: nat)
      requires Valid() && Summed()
      ensures r == null <==> |memRecords| == 0
      ensures r != null ==> IsPeak(log, 0, |log|, k) && r == memRecords[k]
    {
      r, k := null, 0;
      if |memRecords| > 0 {
        r, k := Highest(0, |memRecords|);
      }
    }

    /** The samples are the peaks of consecutive slices of `size` records, the last slice perhaps shorter. */
    ghost predicate PeaksOfSlices(at: seq<nat>, size: nat, n: nat)
      requires size > 0
    {
      forall i :: 0 <= i < |at| ==> IsPeak(log, i * size, Sampling.EndOf(i, size, n), at[i])
    }

    /** samples (mprofile.py:358-367). */
    method TakeSamples(samplesCount: nat) returns (ghost at: seq<nat>)
      requires Valid() && Summed() && samplesCount > 0
      modifies this`samples
      ensures samplesCount > |log| ==> samples == Unsampled
      ensures samplesCount <= |log| ==>
                && samples.Sampled? && |at| == |samples.records| == Sampling.CeilDiv(|log|, |log| / samplesCount)
                && PeaksOfSlices(at, |log| / samplesCount, |log|)
                && forall i :: 0 <= i < |at| ==> at[i] < |log| && samples.records[i] == memRecords[at[i]]
    {
      hide WellFormed, TailQueue.NoDuplicates, Link, IsLast, IsFirst, IsPeak, Total;
      var n := |memRecords|;
      var sliceSize := n / samplesCount;
      at := [];
      Sampling.Quotient(n, samplesCount);
      if sliceSize == 0 {
        samples := Unsampled;
        return;
      }
      var taken: seq<MemRecord>, start := [], 0;
      while start < n
        invariant |taken| == |at| && start == |at| * sliceSize && |at| <= Sampling.CeilDiv(n, sliceSize)
        invariant PeaksOfSlices(at, sliceSize, n)
        invariant forall i :: 0 <= i < |at| ==> at[i] < |log| && taken[i] == memRecords[at[i]]
        decreases n - start
      {
        Sampling.NextSlice(|at|, sliceSize, n);
        var r;
        ghost var k;
        r, k := Highest(start, if start + sliceSize <= n then start + sliceSize else n);
        taken, at, start := taken + [r], at + [k], start + sliceSize;
      }
      Sampling.AllSlices(|at|, sliceSize, n);
      samples := Sampled(taken);
    }

    /** The samples keep the order of time and the overall peak. */
    lemma SamplesKeepPeak(at: seq<nat>, c: nat, p: nat)
      requires Valid() && 0 < c <= |log| && |at| == Sampling.CeilDiv(|log|, |log| / c) && |log| / c > 0
      requires PeaksOfSlices(at, |log| / c, |log|) && IsPeak(log, 0, |log|, p)
      ensures p in at
      ensures forall i, j :: 0 <= i < j < |at| ==> at[i] < at[j]
    {
      var n, size := |log|, |log| / c;
      var i := Sampling.SliceOf(p, size, n);
      SamePeak(log, p, i * size, Sampling.EndOf(i, size, n), at[i]);
      forall i, j | 0 <= i < j < |at|
        ensures at[i] < at[j]
      {
        Sampling.Apart(i, j, size, n);
      }
    }
  }

  datatype Samples = Unsampled | Sampled(records: seq<MemRecord>)

  /** What build_chains leaves in the records is what the script relies on. */
  lemma Loads(recs: seq<Records.Record>, mrs: seq<MemRecord>)
    requires WellFormed(Records.Ops(recs)) && Records.Chained(recs, |recs|)
    requires forall i :: 0 <= i < |recs| ==> recs[i].op.id == i + 1
    requires |mrs| == |recs|
    requires forall i :: 0 <= i < |recs| ==>
               mrs[i].op == recs[i].op && mrs[i].prevId == recs[i].prevId && mrs[i].nextId == recs[i].nextId
    ensures Carries(mrs, Records.Ops(recs))
  {
    var log, n := Records.Ops(recs), |recs|;
    assert forall i: nat :: IsLast(log, i) ==> NoNext(log, n, i);
    assert forall j: nat :: IsFirst(log, j) ==> NoPrev(log, n, j);
  }
}
