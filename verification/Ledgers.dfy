/** What the counters of the statistics mode come to, told from the calls of the program alone. */
module Ledgers {
  import opened Counters

  /** The totals and counts of struct memstats. */
  datatype Counter = TotalAllocated | TotalReleased | Allocs | Frees | Reallocs

  // ---------------------------------------------------------------------------------
  // What the calls say

  /** The size asked for by the last of the first `n` events that put a block at `mh`. */
  ghost function SizeTold(events: seq<Event>, n: nat, mh: nat): nat
    requires n <= |events|
  {
    if n == 0 then 0
    else
      var a := events[n - 1].action;
      if (a.Malloc? && a.mh == mh) || (a.Realloc? && a.newMh == mh) then a.size else SizeTold(events, n - 1, mh)
  }

  /** What a call should add to a counter; `old'` is the size of the block it is about. */
  function Due(c: Counter, a: Action, old': nat): nat {
    match c
    case TotalAllocated => if a.Malloc? then a.size else if a.Realloc? && a.size > old' then a.size - old' else 0
    case TotalReleased => if a.Free? then old' else if a.Realloc? && a.size < old' then old' - a.size else 0
    case Allocs => if a.Malloc? then 1 else 0
    case Frees => if a.Free? then 1 else 0
    case Reallocs => if a.Realloc? then 1 else 0
  }

  /** What the first `n` events should add to it. */
  ghost function AllDue(c: Counter, events: seq<Event>, n: nat): nat
    requires n <= |events|
  {
    if n == 0 then 0
    else
      var a := events[n - 1].action;
      AllDue(c, events, n - 1) + Due(c, a, if a.Continue? then 0 else SizeTold(events, n - 1, a.mh))
  }

  // ---------------------------------------------------------------------------------
  // What the counters show, and what the threads still have to enter

  function Shown(c: Counter, s: State): nat {
    match c
    case TotalAllocated => s.totalAllocated
    case TotalReleased => s.totalReleased
    case Allocs => s.allocs
    case Frees => s.frees
    case Reallocs => s.reallocs
  }

  function Entering(c: Counter, m: Micro): nat {
    match m
    case IncAllocs => if c.Allocs? then 1 else 0
    case IncFrees => if c.Frees? then 1 else 0
    case IncReallocs => if c.Reallocs? then 1 else 0
    case AddAllocated(n) => if c.TotalAllocated? then n else 0
    case AddReleased(n) => if c.TotalReleased? then n else 0
    case _ => 0
  }

  function StillToEnter(c: Counter, todo: Todo): nat {
    if todo.Done? then 0 else Entering(c, todo.first) + StillToEnter(c, todo.rest)
  }

  function OfThread(c: Counter, th: Thread): nat {
    if th.Busy? then StillToEnter(c, th.todo) else 0
  }

  function OfThreads(c: Counter, threads: seq<Thread>): nat {
    if threads == [] then 0 else OfThread(c, threads[0]) + OfThreads(c, threads[1..])
  }

  lemma {:induction false} OneThread(c: Counter, threads: seq<Thread>, t: nat, th: Thread)
    requires t < |threads|
    ensures OfThreads(c, threads[t := th]) + OfThread(c, threads[t]) == OfThreads(c, threads) + OfThread(c, th)
  {
    var ts := threads[t := th];
    if t == 0 {
      assert ts[1..] == threads[1..];
    } else {
      assert ts[1..] == threads[1..][t - 1 := th];
      OneThread(c, threads[1..], t - 1, th);
    }
  }

  lemma {:induction false} AllIdleThreads(c: Counter, threads: seq<Thread>)
    requires forall t :: 0 <= t < |threads| ==> threads[t].Idle?
    ensures OfThreads(c, threads) == 0
  {
    if threads != [] {
      AllIdleThreads(c, threads[1..]);
    }
  }

  lemma TodosEnter(c: Counter, old': nat, size: nat, mh: nat)
    ensures StillToEnter(c, MallocTodo(size)) == Due(c, Malloc(mh, size), 0)
    ensures StillToEnter(c, FreeTodo(old')) == Due(c, Free(mh), old')
    ensures StillToEnter(c, ReallocTodo(old', size)) == Due(c, Realloc(mh, mh, size), old')
  {
    FourEnter(c, MallocTodo(size));
    FourEnter(c, FreeTodo(old'));
    FourEnter(c, ReallocTodo(old', size));
  }

  lemma FourEnter(c: Counter, todo: Todo)
    requires todo.Then? && todo.rest.Then? && todo.rest.rest.Then? && todo.rest.rest.rest.Then?
    requires todo.rest.rest.rest.rest.Done?
    ensures StillToEnter(c, todo) ==
            Entering(c, todo.first) + Entering(c, todo.rest.first) + Entering(c, todo.rest.rest.first) +
            Entering(c, todo.rest.rest.rest.first)
  {
    assert StillToEnter(c, todo.rest.rest.rest) == Entering(c, todo.rest.rest.rest.first);
    assert StillToEnter(c, todo.rest.rest) == Entering(c, todo.rest.rest.first) + StillToEnter(c, todo.rest.rest.rest);
  }

  /** A call has just as much to enter as it should. */
  lemma BeginEnters(c: Counter, s: State, t: nat, a: Action)
    requires Enabled(s, t, a) && !a.Continue? && !Begin(s, t, a).aborted
    ensures var s' := Begin(s, t, a);
      && |s'.threads| == |s.threads| && s'.threads == s.threads[t := s'.threads[t]] && Shown(c, s') == Shown(c, s)
      && OfThread(c, s.threads[t]) == 0
      && OfThread(c, s'.threads[t]) == Due(c, a, if a.Malloc? then 0 else s.heap[a.mh].size)
      && s'.threads[t].Busy? && EndsWell(s'.threads[t].todo)
  {
    hide MallocTodo, FreeTodo, ReallocTodo, StillToEnter, EndsWell, Intact;
    var old' := if a.Malloc? then 0 else s.heap[a.mh].size;
    TodosEnter(c, old', if a.Free? then 0 else a.size, a.mh);
    TodosEnd(old', if a.Free? then 0 else a.size);
  }

  /** The call returns after its last operation and not before. */
  predicate EndsWell(todo: Todo) {
    todo.Then? && if todo.first.HeapFree? || todo.first.Return? then todo.rest.Done? else EndsWell(todo.rest)
  }

  lemma TodosEnd(old': nat, size: nat)
    ensures EndsWell(MallocTodo(size)) && EndsWell(FreeTodo(old')) && EndsWell(ReallocTodo(old', size))
  {
    assert EndsWell(Then(Return, Done)) && EndsWell(Then(HeapFree, Done));
    assert EndsWell(MallocTodo(size).rest.rest) && EndsWell(FreeTodo(old').rest.rest);
    assert EndsWell(ReallocTodo(old', size).rest.rest);
  }

  lemma ProceedShape(c: Counter, s: State, t: nat)
    requires Enabled(s, t, Continue) && EndsWell(s.threads[t].todo)
    ensures var s' := Proceed(s, t);
      && |s'.threads| == |s.threads| && s'.threads == s.threads[t := s'.threads[t]]
      && (s'.threads[t].Busy? ==> EndsWell(s'.threads[t].todo))
  {
    hide EndsWell;
    assert s.threads[t].todo == Then(s.threads[t].todo.first, s.threads[t].todo.rest);
    OneMore(c, s.threads[t].todo.rest);
  }

  /** An atomic operation enters what it stands for. */
  lemma ProceedShows(c: Counter, s: State, t: nat)
    requires Enabled(s, t, Continue)
    ensures Shown(c, Proceed(s, t)) == Shown(c, s) + Entering(c, s.threads[t].todo.first)
  {
    hide Entered;
  }

  lemma ProceedLeaves(c: Counter, s: State, t: nat)
    requires Enabled(s, t, Continue) && EndsWell(s.threads[t].todo)
    ensures |Proceed(s, t).threads| == |s.threads|
    ensures OfThread(c, Proceed(s, t).threads[t]) == StillToEnter(c, s.threads[t].todo.rest)
  {
    hide StillToEnter, EndsWell, Entered;
    assert s.threads[t].todo == Then(s.threads[t].todo.first, s.threads[t].todo.rest);
    OneMore(c, s.threads[t].todo.rest);
  }

  lemma ProceedEnters(c: Counter, s: State, t: nat)
    requires Enabled(s, t, Continue) && EndsWell(s.threads[t].todo)
    ensures |Proceed(s, t).threads| == |s.threads|
    ensures Shown(c, Proceed(s, t)) + OfThread(c, Proceed(s, t).threads[t]) == Shown(c, s) + OfThread(c, s.threads[t])
  {
    hide Proceed, EndsWell, Shown;
    ProceedShows(c, s, t);
    ProceedLeaves(c, s, t);
  }

  lemma OneMore(c: Counter, rest: Todo)
    ensures forall m: Micro :: StillToEnter(c, Then(m, rest)) == Entering(c, m) + StillToEnter(c, rest)
    ensures forall m: Micro :: EndsWell(Then(m, rest)) <==>
            if m.HeapFree? || m.Return? then rest.Done? else EndsWell(rest)
    ensures rest.Done? ==> StillToEnter(c, rest) == 0
  {
  }

  // ---------------------------------------------------------------------------------
  // Whole runs

  /** The header of a block shows the size that was asked for. */
  lemma {:induction false} SizesTold(run: seq<State>, events: seq<Event>, n: nat, mh: nat)
    requires IsRun(run, events) && n < |run| && mh in run[n].heap
    ensures run[n].heap[mh].size == SizeTold(events, n, mh)
  {
    hide Begin, Proceed, Apply, Enabled, Intact;
    if n > 0 {
      NeverAborts(run, events, n);
      HeaderTold(run[n - 1], events[n - 1].thread, events[n - 1].action, mh);
      if mh in run[n - 1].heap {
        SizesTold(run, events, n - 1, mh);
      }
    }
  }

  /** A header is written when a call puts a block there, and does not change otherwise. */
  lemma HeaderTold(s: State, t: nat, a: Action, mh: nat)
    requires Enabled(s, t, a) && !Apply(s, t, a).aborted && mh in Apply(s, t, a).heap
    ensures var size := Apply(s, t, a).heap[mh].size;
            if (a.Malloc? && a.mh == mh) || (a.Realloc? && a.newMh == mh) then size == a.size
            else mh in s.heap && size == s.heap[mh].size
  {
  }

  ghost predicate AllEnd(s: State) {
    forall t :: 0 <= t < |s.threads| && s.threads[t].Busy? ==> EndsWell(s.threads[t].todo)
  }

  /** At any time a counter and what the threads have still to enter are together what the calls should add. */
  lemma {:induction false} CountersTold(c: Counter, run: seq<State>, events: seq<Event>, n: nat)
    requires IsRun(run, events) && n < |run|
    ensures Shown(c, run[n]) + OfThreads(c, run[n].threads) == AllDue(c, events, n) && AllEnd(run[n])
  {
    hide Begin, Proceed, Due, OfThread, OfThreads, EndsWell, SizeTold;
    if n == 0 {
      AllIdleThreads(c, run[0].threads);
    } else {
      CountersTold(c, run, events, n - 1);
      var s, s', t, a := run[n - 1], run[n], events[n - 1].thread, events[n - 1].action;
      NeverAborts(run, events, n);
      if a.Continue? {
        ProceedShape(c, s, t);
        ProceedEnters(c, s, t);
        NothingDue(c);
      } else {
        BeginEnters(c, s, t, a);
        if a.Malloc? {
          MallocDue(c, a, SizeTold(events, n - 1, a.mh));
        } else {
          SizesTold(run, events, n - 1, a.mh);
        }
      }
      OneThread(c, s.threads, t, s'.threads[t]);
    }
  }

  lemma NothingDue(c: Counter)
    ensures Due(c, Continue, 0) == 0
  {
  }

  lemma MallocDue(c: Counter, a: Action, old': nat)
    requires a.Malloc?
    ensures Due(c, a, old') == Due(c, a, 0)
  {
  }

  /** Whenever no call is in progress, every total and every count is exactly what the calls of the program say. */
  lemma CountersExactly(c: Counter, run: seq<State>, events: seq<Event>, n: nat)
    requires IsRun(run, events) && n < |run| && forall t :: 0 <= t < |run[n].threads| ==> run[n].threads[t].Idle?
    ensures Shown(c, run[n]) == AllDue(c, events, n)
  {
    CountersTold(c, run, events, n);
    AllIdleThreads(c, run[n].threads);
  }
}
