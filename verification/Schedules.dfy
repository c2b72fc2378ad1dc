/** What the steps of the threads mean for blocks and records, told from the schedule alone. */
module Schedules {
  import opened History
  import opened Interleaving

  // ---------------------------------------------------------------------------------
  // No block is forgotten

  /** Every block in the heap belongs to the program or to the thread that is working on it. */
  ghost predicate Accounted(s: State) {
    0 !in s.heap && forall a <- s.heap :: a in s.owned || HeldBySome(s.threads, a)
  }

  ghost predicate HeldBySome(threads: seq<Pc>, a: nat) {
    exists t :: 0 <= t < |threads| && a in Held(threads[t])
  }

  lemma HeldByOther(threads: seq<Pc>, t: nat, pc: Pc, a: nat)
    requires t < |threads| && HeldBySome(threads, a) && a !in Held(threads[t])
    ensures HeldBySome(threads[t := pc], a)
  {
    var u :| 0 <= u < |threads| && a in Held(threads[u]);
    assert threads[t := pc][u] == threads[u];
  }

  lemma HeldByIt(threads: seq<Pc>, t: nat, pc: Pc, a: nat)
    requires t < |threads| && a in Held(pc)
    ensures HeldBySome(threads[t := pc], a)
  {
    assert threads[t := pc][t] == pc;
  }

  /** What a step does with one block, seen from the thread that takes it. */
  lemma StepHolds(s: State, t: nat, a: Action, b: nat)
    requires Enabled(s, t, a) && 0 !in s.heap && b in Apply(s, t, a).heap
    ensures var s' := Apply(s, t, a);
      && 0 !in s'.heap && |s'.threads| == |s.threads| && s'.threads == s.threads[t := s'.threads[t]]
      && (b in s'.owned || b in Held(s'.threads[t]) ||
          (b in s.heap && b !in Held(s.threads[t]) && (b in s.owned ==> b in s'.owned)))
  {
  }

  lemma KeepAccounted(s: State, t: nat, a: Action)
    requires Accounted(s) && Enabled(s, t, a)
    ensures Accounted(Apply(s, t, a))
  {
    hide Apply, Enabled, Held, HeldBySome;
    var s' := Apply(s, t, a);
    AnyBlock(s, t, a);
    forall b <- s'.heap
      ensures b in s'.owned || HeldBySome(s'.threads, b)
    {
      StepHolds(s, t, a, b);
      if b in Held(s'.threads[t]) {
        HeldByIt(s.threads, t, s'.threads[t], b);
      } else if b !in s'.owned {
        HeldByOther(s.threads, t, s'.threads[t], b);
      }
    }
  }

  lemma AnyBlock(s: State, t: nat, a: Action)
    requires Enabled(s, t, a) && 0 !in s.heap
    ensures 0 !in Apply(s, t, a).heap && t < |s.threads|
  {
  }

  /** Whenever no call is in progress, the blocks in the heap are among those that the program owns, and if all steps
      were clear they are exactly those: what was released has been given back. */
  lemma {:induction false} BlocksAreOwned(run: seq<State>, steps: seq<Step>, n: nat)
    requires IsRun(run, steps) && n < |run|
    ensures Accounted(run[n])
    ensures (forall t :: 0 <= t < |run[n].threads| ==> run[n].threads[t].Idle?) ==>
              run[n].heap.Keys <= run[n].owned && (ClearUpTo(run, steps, n) ==> run[n].heap.Keys == run[n].owned)
  {
    if n > 0 {
      BlocksAreOwned(run, steps, n - 1);
      KeepAccounted(run[n - 1], steps[n - 1].thread, steps[n - 1].action);
    }
    if forall t :: 0 <= t < |run[n].threads| ==> run[n].threads[t].Idle? {
      assert forall a :: !HeldBySome(run[n].threads, a);
    }
    if ClearUpTo(run, steps, n) {
      ClearRuns(run, steps, n);
    }
  }

  // ---------------------------------------------------------------------------------
  // Sizes

  /** The size asked for by the last of the first `n` steps that put a block at `a`. */
  ghost function SizeTold(steps: seq<Step>, n: nat, a: nat): nat
    requires n <= |steps|
  {
    if n == 0 then 0
    else
      var act := steps[n - 1].action;
      if (act.HeapAlloc? && act.mem == a) || (act.MoveHeap? && act.newMem == a) then act.size
      else SizeTold(steps, n - 1, a)
  }

  lemma BlockTold(s: State, t: nat, a: Action, b: nat)
    requires Enabled(s, t, a) && b in Apply(s, t, a).heap
    ensures var size := Apply(s, t, a).heap[b];
            if (a.HeapAlloc? && a.mem == b) || (a.MoveHeap? && a.newMem == b) then size == a.size
            else b in s.heap && size == s.heap[b]
  {
  }

  /** Every block has the size that was asked for. */
  lemma {:induction false} SizesTold(run: seq<State>, steps: seq<Step>, n: nat, a: nat)
    requires IsRun(run, steps) && n < |run| && a in run[n].heap
    ensures run[n].heap[a] == SizeTold(steps, n, a)
  {
    hide Apply, Enabled;
    if n > 0 {
      BlockTold(run[n - 1], steps[n - 1].thread, steps[n - 1].action, a);
      if a in run[n - 1].heap {
        SizesTold(run, steps, n - 1, a);
      }
    }
  }

  // ---------------------------------------------------------------------------------
  // Records

  /** The last of the first `n` steps that thread `t` has taken; `n` if there is none. */
  ghost function LastStep(steps: seq<Step>, n: nat, t: nat): (j: nat)
    requires n <= |steps|
    ensures j <= n && (j < n ==> steps[j].thread == t)
  {
    if n == 0 then 0
    else if steps[n - 1].thread == t then n - 1
    else
      var j := LastStep(steps, n - 1, t);
      if j == n - 1 then n else j
  }

  /** Between its heap call and its id, a thread stands where the heap call has put it. */
  ghost predicate PcTold(steps: seq<Step>, n: nat, t: nat, pc: Pc)
    requires n <= |steps|
  {
    var j := LastStep(steps, n, t);
    && (pc.Allocated? ==> j < n && steps[j].action == HeapAlloc(pc.mem, pc.size))
    && (pc.Moved? ==> j < n && steps[j].action == MoveHeap(pc.mem, pc.newMem, pc.size) &&
                      pc.oldSize == SizeTold(steps, j, pc.mem))
  }

  lemma PcAfter(s: State, t: nat, a: Action)
    requires Enabled(s, t, a)
    ensures var s' := Apply(s, t, a);
      && |s'.threads| == |s.threads| && (forall u :: 0 <= u < |s.threads| && u != t ==> s'.threads[u] == s.threads[u])
      && (s'.threads[t].Allocated? ==> a == HeapAlloc(s'.threads[t].mem, s'.threads[t].size))
      && (s'.threads[t].Moved? ==> a == MoveHeap(s'.threads[t].mem, s'.threads[t].newMem, s'.threads[t].size) &&
                                   a.mem in s.heap && s'.threads[t].oldSize == s.heap[a.mem])
  {
  }

  lemma {:induction false} PcsTold(run: seq<State>, steps: seq<Step>, n: nat, t: nat)
    requires IsRun(run, steps) && n < |run| && t < |run[n].threads|
    ensures PcTold(steps, n, t, run[n].threads[t])
  {
    hide Apply, Enabled;
    if n > 0 {
      var s, u, a := run[n - 1], steps[n - 1].thread, steps[n - 1].action;
      PcAfter(s, u, a);
      if t == u {
        if run[n].threads[t].Moved? {
          SizesTold(run, steps, n - 1, a.mem);
        }
      } else {
        PcsTold(run, steps, n - 1, t);
      }
    }
  }

  /** The record that step `i`, which takes an id, should make. */
  ghost function RecordTold(steps: seq<Step>, i: nat, id: nat): Op
    requires i < |steps| && Stamping(steps[i].action)
  {
    var j, a := LastStep(steps, i, steps[i].thread), steps[i].action;
    if a.StampFree? then Op(id, Free, a.mem, 0, if a.mem == 0 then 0 else -(SizeTold(steps, i, a.mem) as int))
    else if a.StampAlloc? then
      if j < i && steps[j].action.HeapAlloc? then Op(id, Alloc, steps[j].action.mem, 0, steps[j].action.size)
      else Op(id, Alloc, 0, 0, 0)
    else if j < i && steps[j].action.MoveHeap? then
      var move := steps[j].action;
      Op(id, Realloc, move.newMem, move.mem, move.size - SizeTold(steps, j, move.mem))
    else Op(id, Realloc, 0, 0, 0)
  }

  ghost function AllTold(steps: seq<Step>, n: nat): seq<Op>
    requires n <= |steps|
  {
    if n == 0 then []
    else if Stamping(steps[n - 1].action) then
      AllTold(steps, n - 1) + [RecordTold(steps, n - 1, |AllTold(steps, n - 1)| + 1)]
    else AllTold(steps, n - 1)
  }

  lemma StampsAfter(s: State, t: nat, a: Action)
    requires Enabled(s, t, a)
    ensures var s' := Apply(s, t, a);
            if Stamping(a) then s'.stamps == s.stamps + [StampOp(s, t, a)] && s'.counter == s.counter + 1
            else s'.stamps == s.stamps && s'.counter == s.counter
  {
  }

  lemma StampTold(run: seq<State>, steps: seq<Step>, i: nat)
    requires IsRun(run, steps) && i < |steps| && Stamping(steps[i].action)
    ensures Enabled(run[i], steps[i].thread, steps[i].action)
    ensures StampOp(run[i], steps[i].thread, steps[i].action) == RecordTold(steps, i, run[i].counter + 1)
  {
    var s, t, a := run[i], steps[i].thread, steps[i].action;
    PcsTold(run, steps, i, t);
    if a.StampFree? && a.mem != 0 {
      SizesTold(run, steps, i, a.mem);
    }
  }

  /** The records of a run, in the order of their ids, are what the steps of the schedule say: which addresses each
      call was about, and by how many bytes it changed the memory in use. */
  lemma {:induction false} RecordsTold(run: seq<State>, steps: seq<Step>, n: nat)
    requires IsRun(run, steps) && n < |run|
    ensures run[n].stamps == AllTold(steps, n) && run[n].counter == |run[n].stamps|
  {
    hide Apply, RecordTold;
    if n > 0 {
      RecordsTold(run, steps, n - 1);
      StampsAfter(run[n - 1], steps[n - 1].thread, steps[n - 1].action);
      if Stamping(steps[n - 1].action) {
        StampTold(run, steps, n - 1);
      }
    }
  }

  /** The records of thread `t` among the first `n` steps. */
  ghost function OwnTold(steps: seq<Step>, n: nat, t: nat): seq<Op>
    requires n <= |steps|
  {
    if n == 0 then []
    else if steps[n - 1].thread == t && Stamping(steps[n - 1].action) then
      OwnTold(steps, n - 1, t) + [RecordTold(steps, n - 1, |AllTold(steps, n - 1)| + 1)]
    else OwnTold(steps, n - 1, t)
  }

  /** What a thread has queued, and the record on its way to its queue. */
  ghost function Own(s: State, t: nat): seq<Op>
    requires t < |s.threads| == |s.queues|
  {
    s.queues[t] + if s.threads[t].Stamped? then [s.threads[t].op] else []
  }

  lemma OwnAfter(s: State, t: nat, a: Action, u: nat)
    requires Enabled(s, t, a) && u < |s.threads|
    ensures var s' := Apply(s, t, a);
      && |s'.threads| == |s'.queues| == |s.threads|
      && Own(s', u) == Own(s, u) + if u == t && Stamping(a) then [StampOp(s, t, a)] else []
  {
  }

  /** Every thread queues its own records, all of them but the one on its way, in the order of their ids. */
  lemma {:induction false} QueuesTold(run: seq<State>, steps: seq<Step>, n: nat, t: nat)
    requires IsRun(run, steps) && n < |run| && t < |run[0].threads|
    ensures |run[n].threads| == |run[n].queues| == |run[0].threads| && Own(run[n], t) == OwnTold(steps, n, t)
  {
    hide Apply, Own, RecordTold;
    if n == 0 {
      NothingOwn(run[0], t);
    } else {
      QueuesTold(run, steps, n - 1, t);
      OwnAfter(run[n - 1], steps[n - 1].thread, steps[n - 1].action, t);
      if Stamping(steps[n - 1].action) {
        RecordsTold(run, steps, n - 1);
        StampTold(run, steps, n - 1);
      }
    }
  }

  lemma NothingOwn(s: State, t: nat)
    requires Init(s) && t < |s.threads|
    ensures |s.threads| == |s.queues| && Own(s, t) == []
  {
  }

  // ---------------------------------------------------------------------------------
  // An address that is given out again

  /** One thread gets 16, records it, and releases it; then another thread gets 16. */
  const REUSE: seq<Step> := [
    Step(0, HeapAlloc(16, 8)), Step(0, StampAlloc), Step(0, Enqueue), Step(0, StampFree(16)), Step(0, Enqueue),
    Step(0, HeapFree), Step(1, HeapAlloc(16, 7)), Step(1, StampAlloc), Step(1, Enqueue)]

  const RELEASE: Op := Op(2, Free, 16, 0, -8)
  const AGAIN: Op := Op(3, Alloc, 16, 0, 7)
  const R4: State := S3.(threads := [Stamped(RELEASE), Idle], owned := {}, counter := 2, stamps := [A, RELEASE])
  const R5: State := R4.(threads := [Releasing(16), Idle], queues := [[A, RELEASE], []])
  const R6: State := R5.(threads := [Idle, Idle], heap := map[])
  const R7: State := R6.(threads := [Idle, Allocated(16, 7)], heap := map[16 := 7])
  const R8: State := R7.(threads := [Idle, Stamped(AGAIN)], counter := 3, stamps := [A, RELEASE, AGAIN])
  const R9: State := R8.(threads := [Idle, Idle], queues := [[A, RELEASE], [AGAIN]], owned := {16})

  lemma ReuseSteps()
    ensures Leads(S3, REUSE[3], R4) && Leads(R4, REUSE[4], R5) && Leads(R5, REUSE[5], R6)
    ensures Leads(R6, REUSE[6], R7) && Leads(R7, REUSE[7], R8) && Leads(R8, REUSE[8], R9)
  {
    assert S3.owned - {16} == R4.owned;
    SecondInQueue();
    assert R5.heap - {16} == R6.heap;
    FirstInSecond();
    assert R9.owned == R8.owned + {16};
  }

  lemma SecondInQueue()
    ensures [[A], []][0 := [A] + [RELEASE]] == [[A, RELEASE], []]
  {
    var empty: seq<Op> := [];
    assert [A] + [RELEASE] == [A, RELEASE];
    var q := [[A], empty][0 := [A, RELEASE]];
    assert q[0] == [A, RELEASE] && q[1] == empty && q == [[A, RELEASE], empty];
  }

  lemma FirstInSecond()
    ensures [[A, RELEASE], []][1 := [] + [AGAIN]] == [[A, RELEASE], [AGAIN]]
  {
    var empty: seq<Op> := [];
    assert empty + [AGAIN] == [AGAIN];
    var q := [[A, RELEASE], empty][1 := [AGAIN]];
    assert q[0] == [A, RELEASE] && q[1] == [AGAIN] && q == [[A, RELEASE], [AGAIN]];
  }

  /** Every step of this run is clear: a freed address can be allocated again, and the log is a history. */
  lemma ReusedAddress()
    ensures exists run: seq<State> ::
              && IsRun(run, REUSE) && ClearUpTo(run, REUSE, |REUSE|) && WellFormed(run[|REUSE|].stamps)
              && run[|REUSE|].stamps == [A, RELEASE, AGAIN] && run[|REUSE|].heap == map[16 := 7]
  {
    hide Apply;
    var run := [S0, S1, S2, S3, R4, R5, R6, R7, R8, R9];
    FirstSteps();
    ReuseSteps();
    assert IsRun(run, REUSE);
    assert ClearUpTo(run, REUSE, |REUSE|);
    WellFormedExactly(run, REUSE, |REUSE|);
  }
}
