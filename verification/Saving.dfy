/** Saving a profile, records and stacks together, and loading it again: mprofile_save and the script's constructor. */
module Saving {
  import opened History
  import opened RbShape
  import opened RbTree
  import opened Records
  import opened Catalogues
  import opened Draining
  import opened Courses
  import opened StackSets
  import opened StackMerge
  import opened Traces
  import Analysis
  import Merge
  import TailQueue

  /** The saved records as the script loads them. */
  ghost predicate Loaded(mrs: seq<Analysis.MemRecord>, recs: seq<Record>)
    reads recs
  {
    |mrs| == |recs| && forall i :: 0 <= i < |mrs| ==> LoadedAs(mrs[i], recs[i])
  }

  ghost predicate LoadedAs(mr: Analysis.MemRecord, mpr: Record)
    reads mpr
  {
    mr.op == mpr.op && mr.stackId == mpr.stackId && mr.prevId == mpr.prevId && mr.nextId == mpr.nextId
  }

  /** The ids are 1, 2, .. in this order. */
  ghost predicate InSequence(recs: seq<Record>) {
    forall i :: 0 <= i < |recs| ==> recs[i].op.id == i + 1
  }

  /** What is loaded carries the log with the links of its chains: everything that the script relies on. */
  lemma LoadedCarries(recs: seq<Record>, mrs: seq<Analysis.MemRecord>)
    requires WellFormed(Ops(recs)) && Chained(recs, |recs|) && Loaded(mrs, recs)
    requires InSequence(recs)
    ensures Analysis.Carries(mrs, Ops(recs))
  {
    hide WellFormed, Chained;
    assert forall i :: 0 <= i < |mrs| ==> LoadedAs(mrs[i], recs[i]);
    Analysis.Loads(recs, mrs);
  }

  lemma AtEntry(mp: TailQueue.Head<Record>, recs: seq<Record>, e: TailQueue.Entry?<Record>, k: nat)
    requires Queued(mp, recs) && k <= |recs| && e == TailQueue.Nth(mp.entries, k)
    ensures e == null <==> k == |recs|
    ensures e != null ==> e.elem == recs[k] && e.next == TailQueue.Nth(mp.entries, k + 1)
  {
  }

  /** The loop of profile_save over the records (record.c:273-281), and reading them back. */
  method PrintRecords(mp: TailQueue.Head<Record>, ghost recs: seq<Record>) returns (mrs: seq<Analysis.MemRecord>)
    requires Queued(mp, recs)
    ensures Loaded(mrs, recs) && fresh(mrs) && TailQueue.NoDuplicates(mrs)
  {
    hide TailQueue.Head.Valid;
    mrs := [];
    var e := mp.first;
    AtFirst(mp);
    ghost var k := 0;
    while e != null
      invariant k <= |recs| && Queued(mp, recs) && e == TailQueue.Nth(mp.entries, k)
      invariant |mrs| == k && (forall i :: 0 <= i < k ==> LoadedAs(mrs[i], recs[i]))
      invariant fresh(mrs) && TailQueue.NoDuplicates(mrs)
      decreases |recs| - k
    {
      AtEntry(mp, recs, e, k);
      var mpr := e.elem;
      var mr := new Analysis.MemRecord(mpr.op, mpr.stackId, mpr.prevId, mpr.nextId);
      mrs := mrs + [mr];
      e := e.next;
      k := k + 1;
    }
    AtEntry(mp, recs, e, k);
  }

  lemma AtFirst(mp: TailQueue.Head<Record>)
    requires mp.Valid()
    ensures mp.first == TailQueue.Nth(mp.entries, 0)
  {
  }

  // ---------------------------------------------------------------------------------
  // Records and stacks

  /** What merging the records touches. */
  ghost function Touched(ts: Merge.Threads): set<object> {
    (set i | 0 <= i < |ts.profs| :: ts.profs[i].queue as object) + (set e | e in ts.s.tqes :: e as object) +
    (set n | n in ts.s.nodes :: n as object) + RecordsIn(ts)
  }

  ghost function RecordsIn(ts: Merge.Threads): set<Record> {
    set mpr | mpr in ts.s.recs
  }

  /** `recs` are the records of each thread. */
  ghost predicate Divides(ts: Merge.Threads, recs: seq<seq<Record>>) {
    && Merge.Divided(ts) && |recs| == |ts.profs|
    && forall t :: 0 <= t < |recs| ==> recs[t] == ts.s.recs[ts.cut[t]..ts.cut[t + 1]]
  }

  /** Every record belongs to a thread. */
  lemma {:induction false} InPart(cut: seq<nat>, m: nat, k: nat) returns (t: nat)
    requires |cut| > m && cut[0] == 0 && k < cut[m]
    ensures t < m && cut[t] <= k < cut[t + 1]
  {
    if m > 0 && k < cut[m - 1] {
      t := InPart(cut, m - 1, k);
    } else {
      t := m - 1;
    }
  }

  lemma PartAt(ts: Merge.Threads, recs: seq<seq<Record>>, t: nat)
    requires Divides(ts, recs) && t < |recs|
    ensures ts.cut[t] <= ts.cut[t + 1] <= |ts.s.recs| && |recs[t]| == ts.cut[t + 1] - ts.cut[t]
    ensures forall a :: 0 <= a < |recs[t]| ==> recs[t][a] == ts.s.recs[ts.cut[t] + a]
    ensures forall mpr <- recs[t] :: mpr in ts.s.recs
  {
  }

  lemma PartsShareNothing(ts: Merge.Threads, recs: seq<seq<Record>>, t: nat, u: nat)
    requires Divides(ts, recs) && t < u < |recs| && TailQueue.NoDuplicates(ts.s.recs)
    ensures NoneShared(recs[t], recs[u]) && NoneShared(recs[u], recs[t])
  {
    PartAt(ts, recs, t);
    PartAt(ts, recs, u);
    assert ts.cut[t + 1] <= ts.cut[u];
    forall i, j | 0 <= i < |recs[t]| && 0 <= j < |recs[u]|
      ensures recs[t][i] != recs[u][j]
    {
      assert recs[t][i] == ts.s.recs[ts.cut[t] + i] && recs[u][j] == ts.s.recs[ts.cut[u] + j];
    }
  }

  lemma Apart(ts: Merge.Threads, recs: seq<seq<Record>>)
    requires Divides(ts, recs)
    ensures Disjoint(recs, RecordsIn(ts))
  {
    hide NoneShared;
    Merge.IdsDistinct(ts.s);
    forall t | 0 <= t < |recs|
      ensures TailQueue.NoDuplicates(recs[t]) && forall mpr <- recs[t] :: mpr in RecordsIn(ts)
    {
      PartAt(ts, recs, t);
    }
    forall t, u | 0 <= t < |recs| && 0 <= u < |recs| && t != u
      ensures NoneShared(recs[t], recs[u])
    {
      PartsShareNothing(ts, recs, if t < u then t else u, if t < u then u else t);
    }
  }

  /** The trace that each record was recorded with. */
  ghost predicate Wants(want: map<Record, Found>, recs: seq<seq<Record>>, threads: seq<Thread>)
    requires |recs| == |threads|
  {
    forall t :: 0 <= t < |recs| ==> WantsThread(want, recs[t], threads[t])
  }

  ghost predicate WantsThread(want: map<Record, Found>, recs: seq<Record>, thread: Thread) {
    |recs| == |thread.ids| && forall j :: 0 <= j < |recs| ==>
      recs[j] in want && want[recs[j]] == TraceOf(thread, thread.ids[j])
  }

  /** get_stack finds the trace that the record was recorded with. */
  ghost predicate Restored(stacks: seq<Printed>, mpr: Record, want: map<Record, Found>)
    reads mpr`stackId
  {
    mpr in want && GetStack(stacks, mpr.stackId) == want[mpr]
  }

  lemma ThreadRestored(recs: seq<Record>, thread: Thread, newIds: seq<nat>, stacks: seq<Printed>,
                       want: map<Record, Found>)
    requires WantsThread(want, recs, thread) && Carry(recs, newIds)
    ensures ThreadFound(thread, newIds, stacks) <==> forall mpr <- recs :: Restored(stacks, mpr, want)
  {
    if forall mpr <- recs :: Restored(stacks, mpr, want) {
      forall j | 0 <= j < |newIds|
        ensures GetStack(stacks, newIds[j]) == TraceOf(thread, thread.ids[j])
      {
        assert recs[j] in recs && Restored(stacks, recs[j], want);
      }
    }
  }

  lemma AllRestored(ts: Merge.Threads, recs: seq<seq<Record>>, threads: seq<Thread>, newIds: seq<seq<nat>>,
                    stacks: seq<Printed>, want: map<Record, Found>)
    requires Divides(ts, recs) && |recs| == |threads| == |newIds| && Wants(want, recs, threads)
    requires forall t :: 0 <= t < |recs| ==> Carry(recs[t], newIds[t])
    ensures RecordsFound(threads, newIds, stacks) <==> forall mpr <- ts.s.recs :: Restored(stacks, mpr, want)
  {
    hide Carry, WantsThread, ThreadFound, Restored;
    forall t | 0 <= t < |recs|
      ensures ThreadFound(threads[t], newIds[t], stacks) <==> forall mpr <- recs[t] :: Restored(stacks, mpr, want)
      ensures forall mpr <- recs[t] :: mpr in ts.s.recs
    {
      PartAt(ts, recs, t);
      ThreadRestored(recs[t], threads[t], newIds[t], stacks, want);
    }
    if RecordsFound(threads, newIds, stacks) {
      forall mpr <- ts.s.recs
        ensures Restored(stacks, mpr, want)
      {
        var k :| 0 <= k < |ts.s.recs| && ts.s.recs[k] == mpr;
        var t := InPart(ts.cut, |recs|, k);
        PartAt(ts, recs, t);
        assert mpr == recs[t][k - ts.cut[t]] && mpr in recs[t];
      }
    }
  }

  lemma AllTouched(ts: Merge.Threads)
    requires Merge.Divided(ts) && forall i :: 0 <= i < |ts.profs| ==> Merge.Holds(ts, i)
    ensures forall mpr <- ts.s.recs :: mpr in Touched(ts) && mpr in RecordsIn(ts)
    ensures forall i :: 0 <= i < |ts.profs| ==> QueueTouched(ts, i)
  {
    forall i | 0 <= i < |ts.profs|
      ensures QueueTouched(ts, i)
    {
      assert Merge.Holds(ts, i);
      var entries := ts.profs[i].queue.entries;
      forall e <- entries
        ensures e in Touched(ts)
      {
        var k :| 0 <= k < |entries| && entries[k] == e;
        assert ts.s.tqes[ts.cut[i] + k] == e && e in ts.s.tqes;
      }
    }
  }

  ghost predicate QueueTouched(ts: Merge.Threads, i: nat)
    requires i < |ts.profs|
    reads ts.profs[i].queue
  {
    ts.profs[i].queue in Touched(ts) && forall e <- ts.profs[i].queue.entries :: e in Touched(ts)
  }

  /** The record half: the logs are merged and linked, and loaded again. */
  method SaveRecords(profiles: seq<Merge.Profile>, linkChains: bool, ghost ts: Merge.Threads)
    returns (ok: bool, mrs: seq<Analysis.MemRecord>, ghost t: Merge.Batch)
    requires Merge.Divided(ts) && Merge.Embedded(ts.s) && profiles == ts.profs && |profiles| > 0
    requires forall i :: 0 <= i < |ts.profs| ==> Merge.Holds(ts, i)
    requires forall i :: 0 <= i < |ts.s.recs| ==> ts.s.recs[i].prevId == 0 && ts.s.recs[i].nextId == 0
    modifies (set i | 0 <= i < |ts.profs| :: ts.profs[i].queue), ts.s.tqes, ts.s.nodes, ts.s.recs`nextId,
             ts.s.recs`prevId
    ensures Merge.AscendingRecords(t) && multiset(t.recs) == multiset(ts.s.recs)
    ensures ok <==> (linkChains ==> WellFormed(Ops(t.recs)))
    ensures ok ==> Loaded(mrs, t.recs) && (linkChains ==> Chained(t.recs, |t.recs|))
    ensures fresh(mrs) && TailQueue.NoDuplicates(mrs)
  {
    hide Merge.Divided, Merge.Embedded, Merge.Holds, Merge.AscendingRecords, Chained, WellFormed, Queued;
    mrs := [];
    var master;
    ok, master, t := Merge.Save(profiles, linkChains, ts);
    if ok {
      label saved:
      mrs := PrintRecords(master.queue, t.recs);
      assert Chained(t.recs, |t.recs|) == old@saved(Chained(t.recs, |t.recs|));
    }
  }

  lemma LoadedRestored(ts: Merge.Threads, t: Merge.Batch, mrs: seq<Analysis.MemRecord>, stacks: seq<Printed>,
                       want: map<Record, Found>)
    requires multiset(t.recs) == multiset(ts.s.recs) && Loaded(mrs, t.recs)
    ensures (forall i :: 0 <= i < |mrs| ==> t.recs[i] in want && GetStack(stacks, mrs[i].stackId) == want[t.recs[i]])
            <==> forall mpr <- ts.s.recs :: Restored(stacks, mpr, want)
  {
    forall mpr: Record
      ensures mpr in t.recs <==> mpr in ts.s.recs
    {
      assert mpr in multiset(t.recs) <==> mpr in multiset(ts.s.recs);
    }
    if forall mpr <- ts.s.recs :: Restored(stacks, mpr, want) {
      forall i | 0 <= i < |mrs|
        ensures t.recs[i] in want && GetStack(stacks, mrs[i].stackId) == want[t.recs[i]]
      {
        assert t.recs[i] in t.recs && Restored(stacks, t.recs[i], want) && LoadedAs(mrs[i], t.recs[i]);
      }
    }
    if forall i :: 0 <= i < |mrs| ==> t.recs[i] in want && GetStack(stacks, mrs[i].stackId) == want[t.recs[i]] {
      forall mpr <- ts.s.recs
        ensures Restored(stacks, mpr, want)
      {
        var i :| 0 <= i < |t.recs| && t.recs[i] == mpr;
        assert LoadedAs(mrs[i], t.recs[i]);
      }
    }
  }

  /** mprofile_save (record.c:538-587) and what the script then has: it fails exactly if a merge of stacks aborts or
      the log is no history. The script finds for every saved record the trace that it was recorded with exactly if
      the stacks get the ids 1 .. m, as can be told before; so can the counts. */
  method SaveProfile(profiles: seq<Merge.Profile>, sets: seq<StackSet>, recs: seq<seq<Record>>, linkChains: bool,
                     ghost ts: Merge.Threads, ghost threads: seq<Thread>, ghost want: map<Record, Found>)
    returns (ok: bool, mrs: seq<Analysis.MemRecord>, stacks: seq<Printed>, ghost t: Merge.Batch)
    requires Divides(ts, recs) && Merge.Embedded(ts.s) && profiles == ts.profs
    requires forall i :: 0 <= i < |ts.profs| ==> Merge.Holds(ts, i)
    requires forall i :: 0 <= i < |ts.s.recs| ==> ts.s.recs[i].prevId == 0 && ts.s.recs[i].nextId == 0
    requires 0 < |sets| == |recs| == |threads| && FromThreads(threads) && Wants(want, recs, threads)
    requires forall t :: 0 <= t < |sets| ==> Ready(sets[t], recs[t], threads[t]) && sets[t].repr !! Touched(ts)
    requires forall t, u :: 0 <= t < u < |sets| ==> sets[t].repr !! sets[u].repr
    modifies set t, o | 0 <= t < |sets| && o in sets[t].repr :: o
    modifies (set i | 0 <= i < |ts.profs| :: ts.profs[i].queue), ts.s.tqes, ts.s.nodes, ts.s.recs
    ensures ok ==> Merge.AscendingRecords(t) && multiset(t.recs) == multiset(ts.s.recs) && Loaded(mrs, t.recs)
    ensures fresh(mrs) && TailQueue.NoDuplicates(mrs)
    ensures ok ==> Foreseen(threads).At? && (linkChains ==> WellFormed(Ops(t.recs)) && Chained(t.recs, |t.recs|))
    ensures ok && linkChains && InSequence(t.recs) ==> Analysis.Carries(mrs, Ops(t.recs))
    ensures !ok && Foreseen(threads).At? ==>
            linkChains && Merge.AscendingRecords(t) && multiset(t.recs) == multiset(ts.s.recs) &&
              !WellFormed(Ops(t.recs))
    ensures ok ==>
            ((forall i :: 0 <= i < |mrs| ==> t.recs[i] in want && GetStack(stacks, mrs[i].stackId) == want[t.recs[i]])
             <==> Numbers(Foreseen(threads).ids, |Foreseen(threads).ids|))
    ensures ok ==> CountsAppear(threads, stacks)
  {
    hide CountsAppear, StackSet.Valid, Ready, FromThreads, Foreseen, Numbers, RecordsFound, Carry, Wants, InSequence,
      Merge.Embedded, Merge.Holds, Merge.AscendingRecords, Chained, WellFormed, Disjoint, Restored, Loaded, Touched,
      IdsOf;
    mrs, stacks, t := [], [], ts.s;
    Apart(ts, recs);
    AllTouched(ts);
    ghost var newIds;
    label before:
    ok, stacks, newIds := ReportThreads(sets, recs, threads, RecordsIn(ts));
    if !ok {
      return;
    }
    AllRestored(ts, recs, threads, newIds, stacks, want);
    label merged:
    forall i | 0 <= i < |ts.profs|
      ensures Merge.Holds(ts, i)
    {
      assert QueueTouched(ts, i) == old@before(QueueTouched(ts, i));
      assert Merge.Holds(ts, i) == old@before(Merge.Holds(ts, i));
    }
    ok, mrs, t := SaveRecords(profiles, linkChains, ts);
    if ok {
      LoadedRestored(ts, t, mrs, stacks, want);
      if linkChains && InSequence(t.recs) {
        LoadedCarries(t.recs, mrs);
      }
    }
  }

  // ---------------------------------------------------------------------------------
  // From recording to saving

  /** What a thread has recorded so far, in its queue and in its set. */
  ghost predicate Logging(mp: Merge.Profile, stset: StackSet, recs: seq<Record>, added: seq<Key>)
    reads mp, mp.queue, mp.queue.entries, stset, stset.repr, recs
  {
    && Queued(mp.queue, recs) && Recording(stset, recs, added) && mp.queue !in stset.repr
    && forall i :: 0 <= i < |recs| ==> NewOutside(recs[i], stset)
  }

  /** The record is not linked yet, and its entries are not in the set. */
  ghost predicate NewOutside(mpr: Record, stset: StackSet)
    reads mpr, stset
  {
    Unlinked(mpr) && mpr.tqe !in stset.repr && mpr.rbe !in stset.repr
  }

  ghost predicate Unlinked(mpr: Record)
    reads mpr
  {
    mpr.prevId == 0 && mpr.nextId == 0
  }

  lemma NotInSet(mp: Merge.Profile, stset: StackSet, recs: seq<Record>, added: seq<Key>)
    requires Logging(mp, stset, recs, added)
    ensures stset.Valid() && stset in stset.repr && |added| == |recs| && TailQueue.NoDuplicates(recs)
    ensures forall i :: 0 <= i < |recs| ==> recs[i] !in stset.repr
    ensures forall e <- mp.queue.entries :: e !in stset.repr
  {
    hide StackSet.Valid, TailQueue.Head.Valid;
    stset.Own();
    RecordIdsLength(added);
    forall i | 0 <= i < |recs|
      ensures recs[i] !in stset.repr
    {
      assert recs[i] in recs;
    }
  }

  lemma {:induction false} RecordIdsLength(added: seq<Key>)
    ensures |RecordIds(added)| == |added|
  {
    if added != [] {
      RecordIdsLength(added[..|added| - 1]);
    }
  }

  lemma NewRecord(mp: Merge.Profile, recs: seq<Record>, mpr: Record)
    requires Queued(mp.queue, recs + [mpr])
    ensures mpr !in recs && mpr.tqe != null && mpr.rbe != null
    ensures forall e <- mp.queue.entries :: e == mpr.tqe || exists i :: 0 <= i < |recs| && e == recs[i].tqe
  {
    var all := recs + [mpr];
    QueuedDiffer(mp.queue, all);
    assert all[|recs|] == mpr;
    forall e <- mp.queue.entries
      ensures e == mpr.tqe || exists i :: 0 <= i < |recs| && e == recs[i].tqe
    {
      var k :| 0 <= k < |mp.queue.entries| && mp.queue.entries[k] == e;
      assert e == all[k].tqe;
    }
    forall i | 0 <= i < |recs|
      ensures recs[i] != mpr
    {
      assert all[i] != all[|recs|];
    }
  }

  /** mprofile_record_alloc, _free and _realloc with their stacks (record.c:315-397). */
  method Log(mp: Merge.Profile, counter: Merge.Counter, kind: Kind, mem: nat, realloc: nat, delta: int, key: Key,
             stset: StackSet, ghost recs: seq<Record>, ghost added: seq<Key>)
    returns (mpr: Record)
    requires Logging(mp, stset, recs, added) && counter !in stset.repr
    requires KeyOf(key.frames, key.front) == key && (key.frames == [] ==> key !in Recorded(added).known)
    modifies counter, mp.queue, mp.queue.entries, stset.repr
    ensures Logging(mp, stset, recs + [mpr], added + [key]) && fresh(mpr)
    ensures mpr.op == Op(old(counter.mprId) + 1, kind, mem, realloc, delta) && counter.mprId == old(counter.mprId) + 1
    ensures forall o <- stset.repr :: o in old(stset.repr) || fresh(o)
  {
    hide StackSet.Valid, Recording, TailQueue.Head.Valid, Recorded;
    NotInSet(mp, stset, recs, added);
    label before:
    mpr := Merge.Log(mp, counter, kind, mem, realloc, delta, recs);
    assert Recording(stset, recs, added) == old@before(Recording(stset, recs, added));
    NewRecord(mp, recs, mpr);
    LogStack(mp, mpr, key, stset, recs, added);
  }

  /** The part of the recording functions about the stack, which leaves the queue alone. */
  method LogStack(mp: Merge.Profile, mpr: Record, key: Key, stset: StackSet, ghost recs: seq<Record>,
                  ghost added: seq<Key>)
    requires Queued(mp.queue, recs + [mpr]) && Recording(stset, recs, added) && mpr !in recs && mpr !in stset.repr
    requires mp.queue !in stset.repr && forall i :: 0 <= i <= |recs| ==> NewOutside((recs + [mpr])[i], stset)
    requires forall e <- mp.queue.entries :: e !in stset.repr
    requires forall i :: 0 <= i < |recs| ==> recs[i] !in stset.repr
    requires KeyOf(key.frames, key.front) == key && (key.frames == [] ==> key !in Recorded(added).known)
    modifies stset.repr, mpr`stackId
    ensures Logging(mp, stset, recs + [mpr], added + [key])
    ensures forall o <- stset.repr :: o in old(stset.repr) || fresh(o)
  {
    hide StackSet.Valid, Recording, TailQueue.Head.Valid, Recorded;
    label logged:
    RecordOne(mpr, key, stset, recs, added);
    assert Queued(mp.queue, recs + [mpr]) == old@logged(Queued(mp.queue, recs + [mpr]));
  }

  /** A single thread is already merged, with dense ids. */
  lemma OneForeseen(added: seq<Key>)
    requires Canonical(added) && EmptiesOnce(added)
    ensures var threads := [Thread(Recorded(added), RecordIds(added))];
      && FromThreads(threads) && Foreseen(threads).At? && Numbers(Foreseen(threads).ids, |Foreseen(threads).ids|)
  {
    hide Owed, Dense, Plain, Numbers;
    var c := Recorded(added);
    RecordedIsOwed(added);
    RecordedPlain(added);
    DenseNumbers(c);
    NumbersSize(IdsOf(c), c.next - 1);
    var threads := [Thread(c, RecordIds(added))];
    assert threads[1..] == [];
  }

  lemma OneWants(recs: seq<Record>, added: seq<Key>, want: map<Record, Found>)
    requires Canonical(added) && |recs| == |added|
    requires forall j :: 0 <= j < |recs| ==> recs[j] in want && want[recs[j]] == Trace(added[j].frames)
    ensures WantsThread(want, recs, Thread(Recorded(added), RecordIds(added)))
  {
    RecordIdsLength(added);
    forall j | 0 <= j < |recs|
      ensures want[recs[j]] == TraceOf(Thread(Recorded(added), RecordIds(added)), RecordIds(added)[j])
    {
      RecordedTraces(added, j);
    }
  }

  lemma OneDivides(ts: Merge.Threads, recs: seq<Record>)
    requires ts.s.recs == recs && ts.cut == [0, |recs|] && |ts.profs| == 1 && Merge.IdsDiffer(ts.s)
    ensures Divides(ts, [recs])
  {
    assert recs[0..|recs|] == recs;
  }

  lemma OneHolds(ts: Merge.Threads)
    requires Merge.Divided(ts) && ts.cut == [0, |ts.s.recs|] && |ts.profs| == 1
    requires ts.profs[0].queue.Valid() && ts.profs[0].queue.entries == ts.s.tqes
    ensures Merge.Holds(ts, 0)
  {
    assert ts.s.tqes[0..|ts.s.tqes|] == ts.s.tqes;
  }

  lemma OneTouched(ts: Merge.Threads, all: set<object>)
    requires |ts.profs| == 1 && ts.profs[0].queue !in all && |ts.s.recs| == |ts.s.tqes| == |ts.s.nodes|
    requires forall i :: 0 <= i < |ts.s.recs| ==> ts.s.recs[i] !in all && ts.s.tqes[i] !in all && ts.s.nodes[i] !in all
    ensures all !! Touched(ts)
  {
  }

  ghost function WantAll(recs: seq<Record>, added: seq<Key>): (want: map<Record, Found>)
    requires |recs| == |added| && TailQueue.NoDuplicates(recs)
    ensures forall j :: 0 <= j < |recs| ==> recs[j] in want && want[recs[j]] == Trace(added[j].frames)
    decreases |recs|
  {
    if recs == [] then map[]
    else
      var n := |recs| - 1;
      WantAll(recs[..n], added[..n])[recs[n] := Trace(added[n].frames)]
  }

  /** A program with a single thread, from its records to the script: saving fails only on logs that are no history,
      and every record gets the frames that it was recorded with. */
  method SaveOneThread(mp: Merge.Profile, stset: StackSet, recs: seq<Record>, linkChains: bool,
                       ghost added: seq<Key>, ghost nodes: seq<Node<Op, Record>>)
    returns (ok: bool, mrs: seq<Analysis.MemRecord>, stacks: seq<Printed>, ghost t: Merge.Batch)
    requires |recs| == |added| && EmptiesOnce(added) && Placed(recs, nodes)
    requires forall i, j :: 0 <= i < j < |recs| ==> recs[i].op.id != recs[j].op.id
    requires Logging(mp, stset, recs, added)
    modifies mp.queue, mp.queue.entries, stset.repr, recs, nodes
    ensures ok ==> Merge.AscendingRecords(t) && multiset(t.recs) == multiset(recs) && Loaded(mrs, t.recs)
    ensures ok ==> (linkChains ==> WellFormed(Ops(t.recs)) && Chained(t.recs, |t.recs|))
    ensures ok && linkChains && InSequence(t.recs) ==> Analysis.Carries(mrs, Ops(t.recs))
    ensures !ok ==>
            linkChains && Merge.AscendingRecords(t) && multiset(t.recs) == multiset(recs) &&
            !WellFormed(Ops(t.recs))
    ensures ok ==> forall i, j :: 0 <= i < |mrs| && 0 <= j < |recs| && t.recs[i] == recs[j] ==>
                     GetStack(stacks, mrs[i].stackId) == Trace(added[j].frames)
  {
    hide StackSet.Valid, TailQueue.Head.Valid, Numbers, FromThreads, Foreseen, Recorded, Canonical, WellFormed, Chained,
      Touched, WantsThread, Loaded, Ready, Merge.AscendingRecords, InSequence;
    NotInSet(mp, stset, recs, added);
    ghost var ts := Merge.Threads([mp], Merge.Batch(recs, mp.queue.entries, nodes), [0, |recs|]);
    OneDivides(ts, recs);
    OneHolds(ts);
    OneTouched(ts, stset.repr);
    OneForeseen(added);
    ghost var want := WantAll(recs, added);
    OneWants(recs, added, want);
    RecordedReady(stset, recs, added);
    ghost var threads := [Thread(Recorded(added), RecordIds(added))];
    ok, mrs, stacks, t := SaveProfile([mp], [stset], [recs], linkChains, ts, threads, want);
  }
}
