/** From the threads of the program to the report of the script. */
module EndToEnd {
  import opened History
  import opened Leaks
  import opened Totals
  import opened Interleaving
  import Records
  import Merge
  import Analysis
  import Saving
  import Schedules
  import TailQueue
  import opened Courses
  import Draining
  import StackSets
  import StackMerge
  import opened Traces

  /** No call is in progress. */
  ghost predicate AllIdle(s: State) {
    forall t :: 0 <= t < |s.threads| ==> s.threads[t].Idle?
  }

  /** Once all threads have finished, and if every step of the run was clear, the records that mprofile_save leaves
      behind and the script loads carry the history of the run: everything that the script relies on holds. */
  lemma Reported(run: seq<State>, steps: seq<Step>, n: nat, ts: Merge.Threads, t: Merge.Batch,
                 mrs: seq<Analysis.MemRecord>)
    requires IsRun(run, steps) && n < |run| && ClearUpTo(run, steps, n) && AllIdle(run[n])
    requires Merge.Recorded(ts, run[n].queues)
    requires Merge.AscendingRecords(t) && multiset(t.recs) == multiset(ts.s.recs) && Records.Chained(t.recs, |t.recs|)
    requires Saving.Loaded(mrs, t.recs)
    ensures Analysis.Carries(mrs, run[n].stamps) && Balanced(run[n].stamps)
  {
    hide Records.Chained, Saving.Loaded, Balanced, WellFormed;
    Merge.RunIsSaved(run, steps, n, ts, t);
    ClearRuns(run, steps, n);
    InvBalanced(run[n]);
    Saving.LoadedCarries(t.recs, mrs);
  }

  lemma InvBalanced(s: State)
    requires Inv(s)
    ensures WellFormed(s.stamps) && Balanced(s.stamps)
  {
  }

  /** The leaks of the report are the buffers that the program still owns, each with the size in its header. */
  lemma LeaksAreOwned(run: seq<State>, steps: seq<Step>, n: nat, a: nat)
    requires IsRun(run, steps) && n < |run| && ClearUpTo(run, steps, n) && AllIdle(run[n])
    ensures var s := run[n];
            a in s.owned <==> exists i: nat :: Leaked(s.stamps, i) && s.stamps[Tip(s.stamps, |s.stamps|, i)].mem == a
  {
    ClearRuns(run, steps, n);
    var s := run[n];
    var log := s.stamps;
    assert LiveAt(log, a) <==> Published(s, a) || BeingMoved(s, a);
    if a in s.owned {
      var p: nat :| Alive(log, |log|, p) && log[p].mem == a;
      var i := TipExists(log, |log|, p);
      assert Leaked(log, i);
    }
    if i: nat :| Leaked(log, i) && log[Tip(log, |log|, i)].mem == a {
      assert Alive(log, |log|, Tip(log, |log|, i));
    }
  }

  lemma LeakSizes(run: seq<State>, steps: seq<Step>, n: nat, i: nat)
    requires IsRun(run, steps) && n < |run| && ClearUpTo(run, steps, n) && AllIdle(run[n]) && Leaked(run[n].stamps, i)
    ensures var s := run[n]; var a := s.stamps[Tip(s.stamps, |s.stamps|, i)].mem;
            a in s.heap && s.heap[a] == HeldSize(s.stamps, |s.stamps|, i) == Schedules.SizeTold(steps, n, a)
    ensures forall j: nat :: Leaked(run[n].stamps, j) && j != i ==>
              run[n].stamps[Tip(run[n].stamps, |run[n].stamps|, j)].mem !=
              run[n].stamps[Tip(run[n].stamps, |run[n].stamps|, i)].mem
  {
    ClearRuns(run, steps, n);
    var s := run[n];
    var log := s.stamps;
    var p := Tip(log, |log|, i);
    assert HasSize(s, log[p].mem, SizeAt(log, p));
    assert LiveAt(log, log[p].mem);
    assert Published(s, log[p].mem);
    Schedules.SizesTold(run, steps, n, log[p].mem);
    forall j: nat | Leaked(log, j) && j != i
      ensures log[Tip(log, |log|, j)].mem != log[p].mem
    {
      if log[Tip(log, |log|, j)].mem == log[p].mem {
        AliveUnique(log, |log|, Tip(log, |log|, j), p);
        TipUnique(log, |log|, i, j);
      }
    }
  }

  // ---------------------------------------------------------------------------------
  // The report of a run

  /** The script's report on a log that was loaded: its leaks in order, and the size of each. */
  method AnalyseLog(mrs: seq<Analysis.MemRecord>, ghost log: seq<Op>)
    returns (p: Analysis.MProfile, leaks: seq<Analysis.MemRecord>, sizes: seq<int>)
    requires Analysis.Carries(mrs, log) && TailQueue.NoDuplicates(mrs) && Balanced(log)
    modifies mrs
    ensures p.Valid() && p.memRecords == mrs && p.log == log
    ensures var at := p.LeakedBefore(|log|);
      && |at| == |leaks| == |sizes|
      && forall k :: 0 <= k < |at| ==>
         at[k] < |mrs| && leaks[k] == mrs[at[k]] && sizes[k] == HeldSize(log, |log|, at[k])
  {
    hide WellFormed, Balanced, TailQueue.NoDuplicates, Link, HeldSize;
    p := new Analysis.MProfile(mrs, log);
    leaks := p.Leaks();
    ghost var at := p.LeakedBefore(|log|);
    p.LeakedInOrder(|log|);
    sizes := [];
    for k := 0 to |leaks|
      invariant |sizes| == k && forall j :: 0 <= j < k ==> sizes[j] == HeldSize(log, |log|, at[j])
    {
      assert at[k] in at;
      var sz := p.GetLeakSz(leaks[k], at[k]);
      sizes := sizes + [sz];
    }
    assert forall k :: 0 <= k < |at| ==> at[k] in at;
  }

  /** The address of the buffer that a leaked allocation has become. */
  ghost function LeakAddress(log: seq<Op>, i: nat): nat
    requires WellFormed(log) && Leaked(log, i)
  {
    log[Tip(log, |log|, i)].mem
  }

  /** These are the leaks of the log: one for each block in the heap, with the size that was asked for it. */
  ghost predicate TellsBlocks(s: State, steps: seq<Step>, n: nat, at: seq<nat>, sizes: seq<int>)
    requires n <= |steps|
  {
    && WellFormed(s.stamps) && |at| == |sizes|
    && (forall k :: 0 <= k < |at| ==> TellsBlock(s, steps, n, at[k], sizes[k]))
    && (forall a <- s.heap :: HasLeak(s, at, a))
    && (forall k, l :: 0 <= k < l < |at| ==>
        at[k] < at[l] && LeakAddress(s.stamps, at[k]) != LeakAddress(s.stamps, at[l]))
  }

  ghost predicate TellsBlock(s: State, steps: seq<Step>, n: nat, i: nat, size: int)
    requires n <= |steps| && WellFormed(s.stamps)
  {
    Leaked(s.stamps, i) &&
    var a := LeakAddress(s.stamps, i);
    a in s.heap && size == s.heap[a] == Schedules.SizeTold(steps, n, a)
  }

  ghost predicate HasLeak(s: State, at: seq<nat>, a: nat)
    requires WellFormed(s.stamps)
  {
    exists k :: 0 <= k < |at| && Leaked(s.stamps, at[k]) && LeakAddress(s.stamps, at[k]) == a
  }

  lemma LeakTold(run: seq<State>, steps: seq<Step>, n: nat, i: nat)
    requires IsRun(run, steps) && n < |run| && ClearUpTo(run, steps, n) && AllIdle(run[n]) && Leaked(run[n].stamps, i)
    ensures WellFormed(run[n].stamps)
    ensures TellsBlock(run[n], steps, n, i, HeldSize(run[n].stamps, |run[n].stamps|, i))
    ensures forall j: nat :: Leaked(run[n].stamps, j) && j != i ==>
              LeakAddress(run[n].stamps, j) != LeakAddress(run[n].stamps, i)
  {
    hide WellFormed, Leaked;
    ClearRuns(run, steps, n);
    InvBalanced(run[n]);
    LeakSizes(run, steps, n, i);
  }

  /** The leaks of a finished clear run, in order, tell its blocks. */
  lemma LeaksTold(run: seq<State>, steps: seq<Step>, n: nat, at: seq<nat>, sizes: seq<int>)
    requires IsRun(run, steps) && n < |run| && ClearUpTo(run, steps, n) && AllIdle(run[n])
    requires WellFormed(run[n].stamps) && |at| == |sizes|
    requires forall i: nat :: i in at <==> i < |run[n].stamps| && Leaked(run[n].stamps, i)
    requires forall k, l :: 0 <= k < l < |at| ==> at[k] < at[l]
    requires forall k :: 0 <= k < |at| ==>
               at[k] < |run[n].stamps| && sizes[k] == HeldSize(run[n].stamps, |run[n].stamps|, at[k])
    ensures TellsBlocks(run[n], steps, n, at, sizes)
  {
    hide WellFormed, Leaked, TellsBlock, ClearUpTo, AllIdle;
    var s := run[n];
    forall k | 0 <= k < |at|
      ensures WellFormed(s.stamps) && TellsBlock(s, steps, n, at[k], sizes[k])
      ensures forall l :: k < l < |at| ==> LeakAddress(s.stamps, at[k]) != LeakAddress(s.stamps, at[l])
    {
      assert at[k] in at;
      LeakTold(run, steps, n, at[k]);
    }
    forall a <- s.heap
      ensures HasLeak(s, at, a)
    {
      Owned(run, steps, n, a);
      LeaksAreOwned(run, steps, n, a);
      var i: nat :| Leaked(s.stamps, i) && LeakAddress(s.stamps, i) == a;
      LeakedInLog(s.stamps, i);
      assert i in at;
    }
  }

  lemma LeakedInLog(log: seq<Op>, i: nat)
    requires Leaked(log, i)
    ensures i < |log|
  {
  }

  lemma Owned(run: seq<State>, steps: seq<Step>, n: nat, a: nat)
    requires IsRun(run, steps) && n < |run| && ClearUpTo(run, steps, n) && AllIdle(run[n]) && a in run[n].heap
    ensures a in run[n].owned
  {
    Schedules.BlocksAreOwned(run, steps, n);
  }

  ghost function Queues(ts: Merge.Threads): set<TailQueue.Head<Records.Record>> {
    set i | 0 <= i < |ts.profs| :: ts.profs[i].queue
  }

  /** From the threads of the program, once all have finished, to the report of the script. If every step of the run
      was clear, saving with chains fails only where the merge of the stacks does, and the script then lists each
      block that the program has not released, once, with the size that the program had last asked for. If the stacks
      get the ids 1 .. m, each leak comes with the trace that its allocation was recorded with. */
  method ReportRun(profiles: seq<Merge.Profile>, sets: seq<StackSets.StackSet>, recs: seq<seq<Records.Record>>,
                   ghost ts: Merge.Threads, ghost threads: seq<Draining.Thread>, ghost want: map<Records.Record, Found>,
                   ghost run: seq<State>, ghost steps: seq<Step>, ghost n: nat)
    returns (ok: bool, leaks: seq<Analysis.MemRecord>, sizes: seq<int>, stacks: seq<Printed>, ghost at: seq<nat>,
             ghost saved: seq<Records.Record>)
    requires IsRun(run, steps) && n < |run| && ClearUpTo(run, steps, n) && AllIdle(run[n])
    requires Merge.Recorded(ts, run[n].queues)
    requires Saving.Divides(ts, recs) && Merge.Embedded(ts.s) && profiles == ts.profs
    requires forall i :: 0 <= i < |ts.profs| ==> Merge.Holds(ts, i)
    requires forall i :: 0 <= i < |ts.s.recs| ==> ts.s.recs[i].prevId == 0 && ts.s.recs[i].nextId == 0
    requires 0 < |sets| == |recs| == |threads| && FromThreads(threads) && Saving.Wants(want, recs, threads)
    requires forall t :: 0 <= t < |sets| ==>
               StackMerge.Ready(sets[t], recs[t], threads[t]) && sets[t].repr !! Saving.Touched(ts)
    requires forall t, u :: 0 <= t < u < |sets| ==> sets[t].repr !! sets[u].repr
    modifies set t, o | 0 <= t < |sets| && o in sets[t].repr :: o
    modifies Queues(ts), ts.s.tqes, ts.s.nodes, ts.s.recs
    ensures ok <==> Foreseen(threads).At?
    ensures ok ==>
            && run[n].stamps == Schedules.AllTold(steps, n)
            && |at| == |leaks| && TellsBlocks(run[n], steps, n, at, sizes)
            && multiset(saved) == multiset(ts.s.recs) && Records.Ops(saved) == run[n].stamps
            && forall k :: 0 <= k < |leaks| ==> at[k] < |saved| && leaks[k].op == saved[at[k]].op
    ensures ok ==> CountsAppear(threads, stacks)
    ensures ok && Numbers(Foreseen(threads).ids, |Foreseen(threads).ids|) ==>
            forall k :: 0 <= k < |leaks| ==>
              saved[at[k]] in want && GetStack(stacks, leaks[k].stackId) == want[saved[at[k]]]
  {
    hide StackMerge.Ready, FromThreads, Foreseen, Numbers, CountsAppear, Saving.Wants, Saving.Divides, Merge.Embedded,
      Merge.Holds, Merge.AscendingRecords, Merge.Recorded, Records.Chained, WellFormed, Saving.Loaded, Saving.Touched,
      Balanced, IsRun, ClearUpTo, AllIdle, TellsBlocks, Leaked;
    leaks, sizes, at, saved := [], [], [], [];
    var mrs;
    ghost var t;
    ok, mrs, stacks, t := Saving.SaveProfile(profiles, sets, recs, true, ts, threads, want);
    if !ok {
      if Foreseen(threads).At? {
        Finished(run, steps, n, ts, t);
      }
      return;
    }
    Reported(run, steps, n, ts, t, mrs);
    Finished(run, steps, n, ts, t);
    saved := t.recs;
    ghost var log := run[n].stamps;
    Schedules.RecordsTold(run, steps, n);
    var p;
    p, leaks, sizes := AnalyseLog(mrs, log);
    at := p.LeakedBefore(|log|);
    p.LeakedInOrder(|log|);
    assert WellFormed(log);
    LeaksTold(run, steps, n, at, sizes);
  }

  lemma Finished(run: seq<State>, steps: seq<Step>, n: nat, ts: Merge.Threads, t: Merge.Batch)
    requires IsRun(run, steps) && n < |run| && ClearUpTo(run, steps, n) && AllIdle(run[n])
    requires Merge.Recorded(ts, run[n].queues)
    requires Merge.AscendingRecords(t) && multiset(t.recs) == multiset(ts.s.recs)
    ensures Records.Ops(t.recs) == run[n].stamps && WellFormed(run[n].stamps)
  {
    hide IsRun, ClearUpTo, WellFormed, Merge.AscendingRecords, Merge.Recorded;
    Merge.RunIsSaved(run, steps, n, ts, t);
  }
}
