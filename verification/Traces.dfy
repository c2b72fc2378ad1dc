/** Stack traces in the saved profile. */
module Traces {
  import opened RbShape
  import opened RbTree
  import opened Catalogues
  import opened Draining
  import opened Courses
  import opened Stacks
  import opened StackSets
  import opened StackMerge
  import opened History
  import opened Records
  import Bags
  import Sorting
  import TailQueue

  /** A stack as it is printed (record.c:237-251). */
  datatype Printed = Printed(id: nat, count: nat, frames: Frames)

  // ---------------------------------------------------------------------------------
  // Printing a set

  /** The entry for this stack of the set. */
  function PrintedOf(c: Catalogue, key: Key): Printed
    requires key in c.known
  {
    Printed(c.known[key].id, c.known[key].count, key.frames)
  }

  /** Each stack of the set is printed once, `keys[i]` at place `i`, in ascending order. */
  ghost predicate Prints(c: Catalogue, d: seq<Printed>, keys: seq<Key>) {
    && |d| == |keys| && (forall i :: 0 <= i < |d| ==> keys[i] in c.known && d[i] == PrintedOf(c, keys[i]))
    && (forall key <- c.known :: key in keys)
    && (forall i, j :: 0 <= i < j < |keys| ==> KeyOrder(keys[i], keys[j]) < 0)
  }

  ghost predicate PrintsAll(c: Catalogue, d: seq<Printed>) {
    exists keys :: Prints(c, d, keys)
  }

  /** The walk through the tree of frames (mprofile_get_next_stack) prints every stack of the set. */
  method PrintStacks(stset: StackSet) returns (d: seq<Printed>)
    requires stset.Valid()
    ensures PrintsAll(stset.cat, d)
  {
    hide RbHead.Valid, StackSet.Valid, KeyOrder, KeyVisited, PrintedOf;
    Walked(stset);
    var visited := stset.byFrames.Walk();
    d := [];
    for k := 0 to |visited|
      invariant |d| == k && forall i :: 0 <= i < k ==> d[i] == PrintedNode(visited[i])
    {
      d := d + [PrintedNode(visited[k])];
    }
    ghost var keys := AllPrinted(stset, visited, d);
  }

  function PrintedNode(n: Node<Key, Stack>): Printed
    reads n.elem
  {
    Printed(n.elem.id, n.elem.count, n.elem.frames)
  }

  lemma AllPrinted(stset: StackSet, visited: seq<Node<Key, Stack>>, d: seq<Printed>) returns (keys: seq<Key>)
    requires stset.Valid() && visited == stset.byFrames.Contents()
    requires |d| == |visited| && forall i :: 0 <= i < |d| ==> d[i] == PrintedNode(visited[i])
    ensures Prints(stset.cat, d, keys)
  {
    hide RbHead.Valid, StackSet.Valid, KeyOrder, PrintedNode;
    Walked(stset);
    keys := seq(|visited|, i requires 0 <= i < |visited| => visited[i].key);
    assert forall i :: 0 <= i < |visited| ==> visited[i] in visited;
    forall key <- stset.cat.known
      ensures key in keys
    {
      assert KeyVisited(visited, key);
      var i :| 0 <= i < |visited| && visited[i].key == key;
      assert keys[i] == key;
    }
  }

  lemma Walked(stset: StackSet)
    requires stset.Valid()
    ensures stset.byFrames.Valid()
    ensures var visited := stset.byFrames.Contents(); var c := stset.cat;
      && (forall n <- visited :: n.key in c.known && PrintedOf(c, n.key) == PrintedNode(n))
      && (forall key <- c.known :: KeyVisited(visited, key))
      && (forall i, j :: 0 <= i < j < |visited| ==> KeyOrder(visited[i].key, visited[j].key) < 0)
  {
    hide RbHead.Valid, StackSet.Accurate, StackSet.IdsHold;
    var visited := stset.byFrames.Contents();
    stset.Holds(Key([], 0));
    EntryOf(stset, stset.entries.Keys, visited);
    forall key <- stset.cat.known
      ensures KeyVisited(visited, key)
    {
      stset.Holds(key);
      var s :| s in stset.entries && s.TraceKey() == key;
      assert s.rbe in visited;
    }
  }

  ghost predicate KeyVisited(visited: seq<Node<Key, Stack>>, key: Key) {
    exists i :: 0 <= i < |visited| && visited[i].key == key
  }

  // ---------------------------------------------------------------------------------
  // Looking traces up

  ghost predicate Uses(d: seq<Printed>, id: nat) {
    exists i :: 0 <= i < |d| && d[i].id == id
  }

  /** The ids are 1 .. m, each used once. */
  ghost predicate Numbered(d: seq<Printed>, m: nat) {
    && (forall i, j :: 0 <= i < j < |d| ==> d[i].id != d[j].id)
    && (forall i :: 0 <= i < |d| ==> 1 <= d[i].id <= m)
    && (forall id :: 1 <= id <= m ==> Uses(d, id))
  }

  ghost predicate Sorted(r: seq<Printed>) {
    forall i, j :: 0 <= i < j < |r| ==> r[i].id <= r[j].id
  }

  /** What get_stack gives (mprofile.py:283-286); a list index out of range is an error. */
  datatype Found = NoTrace | Trace(frames: Frames) | IndexError

  function GetStack(stacks: seq<Printed>, stackId: nat): Found {
    if stackId == 0 then NoTrace
    else if stackId > |stacks| then IndexError
    else Trace(stacks[stackId - 1].frames)
  }

  lemma {:induction false} RightPlace(r: seq<Printed>, m: nat, k: nat)
    requires Numbered(r, m) && Sorted(r) && k < |r|
    ensures r[k].id == k + 1
  {
    forall j | 0 <= j < k
      ensures r[j].id == j + 1
    {
      RightPlace(r, m, j);
    }
    if k > 0 {
      assert r[k - 1].id == k && r[k - 1].id != r[k].id && r[k - 1].id <= r[k].id;
    }
    assert k + 1 <= r[k].id <= m;
    assert Uses(r, k + 1);
    var i :| 0 <= i < |r| && r[i].id == k + 1;
  }

  lemma SameMembers(d: seq<Printed>, r: seq<Printed>)
    requires multiset(r) == multiset(d)
    ensures |r| == |d| && forall p :: p in r <==> p in d
  {
    assert |multiset(r)| == |r| && |multiset(d)| == |d|;
    assert forall p :: p in multiset(r) <==> p in multiset(d);
    assert forall p :: p in r <==> p in multiset(r);
    assert forall p :: p in d <==> p in multiset(d);
  }

  lemma SameNumbers(d: seq<Printed>, r: seq<Printed>, m: nat)
    requires Numbered(d, m) && multiset(r) == multiset(d)
    ensures Numbered(r, m)
  {
    SameMembers(d, r);
    assert TailQueue.NoDuplicates(d);
    forall i, j | 0 <= i < j < |r|
      ensures r[i].id != r[j].id
    {
      assert r[i] in r && r[j] in r;
      if r[i] == r[j] {
        Bags.Twice(r, i, j);
        Bags.Once(d, r[i]);
      }
    }
    forall i | 0 <= i < |r|
      ensures 1 <= r[i].id <= m
    {
      assert r[i] in r;
    }
    forall id | 1 <= id <= m
      ensures Uses(r, id)
    {
      assert Uses(d, id);
      var i :| 0 <= i < |d| && d[i].id == id;
      assert d[i] in r;
    }
  }

  /** Every stack is found under its id. */
  ghost predicate AllFound(d: seq<Printed>, r: seq<Printed>) {
    forall p <- d :: GetStack(r, p.id) == Trace(p.frames)
  }

  /** Once sorted by id (mprofile.py:182), every stack stands where get_stack looks for it if the ids are 1 .. m. */
  lemma FindsNumbered(d: seq<Printed>, r: seq<Printed>, m: nat)
    requires Numbered(d, m) && Sorted(r) && multiset(r) == multiset(d)
    ensures AllFound(d, r)
  {
    SameMembers(d, r);
    SameNumbers(d, r, m);
    forall p <- d
      ensures GetStack(r, p.id) == Trace(p.frames)
    {
      assert p in r;
      var k :| 0 <= k < |r| && r[k] == p;
      RightPlace(r, m, k);
    }
  }

  /** No two stacks have the same id and the same frames. */
  ghost predicate NoClash(d: seq<Printed>) {
    forall i, j :: 0 <= i < j < |d| ==> d[i].id != d[j].id || d[i].frames != d[j].frames
  }

  /** If all stacks are found, no two have one id. */
  lemma FoundApart(d: seq<Printed>, r: seq<Printed>, i: nat, j: nat)
    requires NoClash(d) && AllFound(d, r) && multiset(r) == multiset(d) && i < j < |r|
    ensures r[i].id != r[j].id
  {
    SameMembers(d, r);
    assert r[i] in r && r[j] in r;
    assert TailQueue.NoDuplicates(d);
    if r[i] == r[j] {
      Bags.Twice(r, i, j);
      Bags.Once(d, r[i]);
    } else {
      var a :| 0 <= a < |d| && d[a] == r[i];
      var b :| 0 <= b < |d| && d[b] == r[j];
      assert a < b || b < a;
    }
  }

  lemma {:induction false} Climbs(r: seq<Printed>, i: nat, j: nat)
    requires i <= j < |r| && forall a, b :: 0 <= a < b < |r| ==> r[a].id < r[b].id
    ensures r[j].id - r[i].id >= j - i
    decreases j - i
  {
    if i < j {
      Climbs(r, i, j - 1);
    }
  }

  lemma FoundInPlace(d: seq<Printed>, r: seq<Printed>, k: nat)
    requires NoClash(d) && AllFound(d, r) && Sorted(r) && multiset(r) == multiset(d) && forall p <- d :: p.id > 0
    requires k < |r|
    ensures r[k].id == k + 1
  {
    SameMembers(d, r);
    forall a, b | 0 <= a < b < |r|
      ensures r[a].id < r[b].id
    {
      FoundApart(d, r, a, b);
    }
    assert r[0] in r && r[|r| - 1] in r;
    Climbs(r, 0, k);
    Climbs(r, k, |r| - 1);
  }

  /** get_stack finds all stacks exactly if the ids are 1 .. m, unless two stacks have the same id and frames. */
  lemma FindsExactly(d: seq<Printed>, r: seq<Printed>)
    requires Sorted(r) && multiset(r) == multiset(d) && NoClash(d) && forall p <- d :: p.id > 0
    ensures AllFound(d, r) <==> Numbered(d, |d|)
  {
    if Numbered(d, |d|) {
      FindsNumbered(d, r, |d|);
    }
    if AllFound(d, r) {
      forall k | 0 <= k < |r|
        ensures r[k].id == k + 1
      {
        FoundInPlace(d, r, k);
      }
      forall id | 1 <= id <= |r|
        ensures Uses(r, id)
      {
        assert r[id - 1].id == id;
      }
      SameMembers(d, r);
      SameNumbers(r, d, |d|);
    }
  }

  // ---------------------------------------------------------------------------------
  // From the sets to the report

  lemma DistinctKeys(c: Catalogue, d: seq<Printed>, keys: seq<Key>)
    requires Prints(c, d, keys)
    ensures TailQueue.NoDuplicates(keys)
  {
    KeyOrdering();
    hide KeyOrder;
    forall i, j | 0 <= i < j < |keys|
      ensures keys[i] != keys[j]
    {
      assert KeyOrder(keys[i], keys[j]) < 0;
    }
  }

  lemma PlaceOf(c: Catalogue, d: seq<Printed>, keys: seq<Key>, key: Key) returns (i: nat)
    requires Prints(c, d, keys) && key in c.known
    ensures i < |d| == |keys| && keys[i] == key && d[i].id == c.known[key].id
  {
    hide KeyOrder;
    i :| 0 <= i < |keys| && keys[i] == key;
  }

  lemma KeyAt(c: Catalogue, d: seq<Printed>, keys: seq<Key>, i: nat)
    requires Prints(c, d, keys) && i < |d|
    ensures i < |keys| && keys[i] in c.known && d[i].id == c.known[keys[i]].id
  {
  }

  lemma NumbersPrinted(c: Catalogue, d: seq<Printed>, keys: seq<Key>, m: nat)
    requires Prints(c, d, keys) && Numbers(IdsOf(c), m)
    ensures Numbered(d, m)
  {
    hide Prints, IdsOf;
    DistinctKeys(c, d, keys);
    IdsOfKnown(c);
    forall i | 0 <= i < |d|
      ensures i < |keys| && keys[i] in c.known && d[i].id == IdsOf(c)[keys[i]]
    {
      KeyAt(c, d, keys, i);
    }
    forall id | 1 <= id <= m
      ensures Uses(d, id)
    {
      assert HasId(IdsOf(c), id);
      var key :| key in c.known && IdsOf(c)[key] == id;
      var i := PlaceOf(c, d, keys, key);
    }
  }

  lemma PrintedNumbers(c: Catalogue, d: seq<Printed>, keys: seq<Key>, m: nat)
    requires Prints(c, d, keys) && Numbered(d, m)
    ensures Numbers(IdsOf(c), m)
  {
    hide Prints, IdsOf;
    IdsOfKnown(c);
    forall key <- c.known
      ensures 1 <= IdsOf(c)[key] <= m
    {
      var i := PlaceOf(c, d, keys, key);
    }
    forall key <- c.known, k <- c.known | IdsOf(c)[key] == IdsOf(c)[k]
      ensures key == k
    {
      var i := PlaceOf(c, d, keys, key);
      var j := PlaceOf(c, d, keys, k);
    }
    forall id: nat | 1 <= id <= m
      ensures HasId(IdsOf(c), id)
    {
      assert Uses(d, id);
      var i :| 0 <= i < |d| && d[i].id == id;
      KeyAt(c, d, keys, i);
      assert IdsOf(c)[keys[i]] == id;
    }
  }

  lemma PrintedOnce(c: Catalogue, d: seq<Printed>, keys: seq<Key>)
    requires Prints(c, d, keys)
    ensures |d| == |c.known|
  {
    hide KeyOrder;
    DistinctKeys(c, d, keys);
    Bags.Size(keys, c.known.Keys);
    assert |c.known| == |c.known.Keys|;
  }

  /** get_stack finds the frames of every stack. */
  ghost predicate Traceable(c: Catalogue, stacks: seq<Printed>) {
    forall key <- c.known :: GetStack(stacks, c.known[key].id) == Trace(key.frames)
  }

  lemma AllTraceable(c: Catalogue, d: seq<Printed>, keys: seq<Key>, stacks: seq<Printed>)
    requires Prints(c, d, keys)
    ensures Traceable(c, stacks) <==> AllFound(d, stacks)
  {
    if AllFound(d, stacks) {
      forall key <- c.known
        ensures GetStack(stacks, c.known[key].id) == Trace(key.frames)
      {
        var i :| 0 <= i < |keys| && keys[i] == key;
        assert d[i] in d;
      }
    }
  }

  /** Stacks are told apart by their ids or their frames. */
  ghost predicate Separable(c: Catalogue) {
    Sound(c) && forall a <- c.known, b <- c.known :: a != b && a.frames == b.frames ==> c.known[a].id != c.known[b].id
  }

  lemma PrintedApart(c: Catalogue, d: seq<Printed>, keys: seq<Key>)
    requires Prints(c, d, keys) && Separable(c)
    ensures NoClash(d) && forall p <- d :: p.id > 0
  {
    hide KeyOrder;
    DistinctKeys(c, d, keys);
  }

  /** There is one entry for each stack of the set. */
  ghost predicate Entered(c: Catalogue, stacks: seq<Printed>) {
    |stacks| == |c.known| && forall key <- c.known :: PrintedOf(c, key) in stacks
  }

  lemma AllEntered(c: Catalogue, d: seq<Printed>, keys: seq<Key>, stacks: seq<Printed>)
    requires Prints(c, d, keys) && multiset(stacks) == multiset(d)
    ensures Entered(c, stacks)
  {
    hide KeyOrder, PrintedOf;
    SameMembers(d, stacks);
    PrintedOnce(c, d, keys);
    forall key <- c.known
      ensures PrintedOf(c, key) in stacks
    {
      var i :| 0 <= i < |keys| && keys[i] == key;
      assert d[i] in d;
    }
  }

  /** From the set to the report: the id of every stack leads to its own frames if the ids are 1 .. m, and only then
      unless two stacks have the same id and frames. */
  method ReportStacks(stset: StackSet) returns (stacks: seq<Printed>)
    requires stset.Valid()
    ensures Entered(stset.cat, stacks)
    ensures forall m :: Numbers(IdsOf(stset.cat), m) ==> Traceable(stset.cat, stacks)
    ensures Separable(stset.cat) ==> (Traceable(stset.cat, stacks) <==> Numbers(IdsOf(stset.cat), |stset.cat.known|))
  {
    hide RbHead.Valid, StackSet.Valid, Prints, Numbers, Traceable, AllFound, Separable, IdsOf, Entered;
    ghost var c := stset.cat;
    var d := PrintStacks(stset);
    ghost var keys :| Prints(c, d, keys);
    stacks := Sorting.SortBy(d, (p: Printed) => p.id);
    assert Sorted(stacks);
    AllEntered(c, d, keys, stacks);
    AllTraceable(c, d, keys, stacks);
    forall m | Numbers(IdsOf(c), m)
      ensures Traceable(c, stacks)
    {
      NumbersPrinted(c, d, keys, m);
      FindsNumbered(d, stacks, m);
    }
    if Separable(c) {
      PrintedApart(c, d, keys);
      PrintedOnce(c, d, keys);
      FindsExactly(d, stacks);
      if Numbered(d, |d|) {
        PrintedNumbers(c, d, keys, |d|);
      }
      if Numbers(IdsOf(c), |d|) {
        NumbersPrinted(c, d, keys, |d|);
      }
    }
  }

  // ---------------------------------------------------------------------------------
  // All threads

  /** The trace of a record, given its id in the set of its thread. */
  ghost function TraceOf(thread: Thread, id: nat): Found {
    if id in thread.set'.listed then Trace(thread.set'.listed[id].frames) else NoTrace
  }

  /** The new ids of all records of all threads lead to the frames that they were recorded with. */
  ghost predicate RecordsFound(threads: seq<Thread>, newIds: seq<seq<nat>>, stacks: seq<Printed>) {
    |newIds| == |threads| && forall t :: 0 <= t < |threads| ==> ThreadFound(threads[t], newIds[t], stacks)
  }

  ghost predicate ThreadFound(thread: Thread, newIds: seq<nat>, stacks: seq<Printed>) {
    && |newIds| == |thread.ids|
    && forall j :: 0 <= j < |newIds| ==> GetStack(stacks, newIds[j]) == TraceOf(thread, thread.ids[j])
  }

  lemma RenamedFound(c: Catalogue, thread: Thread, newIds: seq<nat>, stacks: seq<Printed>)
    requires AllRenamed(c, thread.set', thread.ids, newIds) && Sound(thread.set') && Traceable(c, stacks)
    ensures ThreadFound(thread, newIds, stacks)
  {
    forall j | 0 <= j < |newIds|
      ensures GetStack(stacks, newIds[j]) == TraceOf(thread, thread.ids[j])
    {
      assert Renamed(c, thread.set', thread.ids[j], newIds[j]);
    }
  }

  /** The ids of the master's own records do not change. */
  lemma MasterRenamed(c: Catalogue, master: Thread)
    requires Owed(master.set', master.ids) && KeepsIds(master.set', c)
    ensures AllRenamed(c, master.set', master.ids, master.ids)
  {
    forall j | 0 <= j < |master.ids|
      ensures Renamed(c, master.set', master.ids[j], master.ids[j])
    {
      assert master.ids[j] in master.ids;
    }
  }

  lemma RecordFound(threads: seq<Thread>, saved: Saved, stacks: seq<Printed>, t: nat, key: Key)
    requires t < |threads| && RecordsFound(threads, saved.newIds, stacks) && Owed(threads[t].set', threads[t].ids)
    requires AllRenamed(saved.dst, threads[t].set', threads[t].ids, saved.newIds[t]) && key in threads[t].set'.known
    ensures key in saved.dst.known && GetStack(stacks, saved.dst.known[key].id) == Trace(key.frames)
  {
    var j := RecordOf(threads[t], key);
    assert ThreadFound(threads[t], saved.newIds[t], stacks);
    assert Renamed(saved.dst, threads[t].set', threads[t].ids[j], saved.newIds[t][j]);
  }

  lemma AllSavedRenamed(threads: seq<Thread>, saved: Saved)
    requires threads != [] && AllOwed(threads)
    requires DrainAll(threads[0].set', threads[1..], [threads[0].ids]) == Some(saved)
    ensures |saved.newIds| == |threads|
    ensures forall t :: 0 <= t < |threads| ==> AllRenamed(saved.dst, threads[t].set', threads[t].ids, saved.newIds[t])
  {
    hide Owed, DrainAll, AllRenamed, KeepsIds;
    var rest := threads[1..];
    assert threads[0] in threads && forall t <- rest :: t in threads;
    var tail := AllDrainedIds(threads[0].set', rest, [threads[0].ids]);
    MasterRenamed(saved.dst, threads[0]);
    forall t | 0 <= t < |threads|
      ensures AllRenamed(saved.dst, threads[t].set', threads[t].ids, saved.newIds[t])
    {
      assert t > 0 ==> rest[t - 1] == threads[t] && saved.newIds[t] == tail[t - 1];
    }
  }

  /** The report finds the traces of all records exactly if it finds those of all stacks. */
  lemma SavedFound(threads: seq<Thread>, saved: Saved, stacks: seq<Printed>)
    requires threads != [] && AllOwed(threads)
    requires DrainAll(threads[0].set', threads[1..], [threads[0].ids]) == Some(saved)
    ensures RecordsFound(threads, saved.newIds, stacks) <==> Traceable(saved.dst, stacks)
  {
    hide Owed, DrainAll, AllRenamed, ThreadFound, RecordsFound, Knows;
    AllSavedRenamed(threads, saved);
    assert forall t :: 0 <= t < |threads| ==> threads[t] in threads;
    assert forall t <- threads[1..] :: t in threads;
    if Traceable(saved.dst, stacks) {
      forall t | 0 <= t < |threads|
        ensures ThreadFound(threads[t], saved.newIds[t], stacks)
      {
        OwedFull(threads[t].set', threads[t].ids);
        RenamedFound(saved.dst, threads[t], saved.newIds[t], stacks);
      }
      AllThreadsFound(threads, saved.newIds, stacks);
    }
    if RecordsFound(threads, saved.newIds, stacks) {
      forall key <- saved.dst.known
        ensures GetStack(stacks, saved.dst.known[key].id) == Trace(key.frames)
      {
        AllDrainedKnown(threads[0].set', threads[1..], [threads[0].ids], key);
        KnowsFirst(threads, key);
        var t := KnownTo(threads, key);
        RecordFound(threads, saved, stacks, t, key);
      }
    }
  }

  lemma KnownTo(threads: seq<Thread>, key: Key) returns (t: nat)
    requires Knows(threads, key)
    ensures t < |threads| && key in threads[t].set'.known
  {
    t :| 0 <= t < |threads| && key in threads[t].set'.known;
  }

  lemma AllThreadsFound(threads: seq<Thread>, newIds: seq<seq<nat>>, stacks: seq<Printed>)
    requires |newIds| == |threads| && forall t :: 0 <= t < |threads| ==> ThreadFound(threads[t], newIds[t], stacks)
    ensures RecordsFound(threads, newIds, stacks)
  {
  }

  /** What a thread has recorded is what the report should find. */
  lemma RecordedTraces(added: seq<Key>, j: nat)
    requires Canonical(added) && j < |added|
    ensures j < |RecordIds(added)| &&
            TraceOf(Thread(Recorded(added), RecordIds(added)), RecordIds(added)[j]) == Trace(added[j].frames)
  {
    RecordedIsOwed(added);
  }

  /** The sets that the threads leave behind: each counts its records, and that of the master has dense ids. */
  ghost predicate FromThreads(threads: seq<Thread>) {
    threads != [] && Dense(threads[0].set') && AllOwed(threads) && AllPlain(threads)
  }

  /** In the end stacks are told apart by their ids or their frames. */
  lemma SavedSeparable(threads: seq<Thread>, newIds: seq<seq<nat>>)
    requires FromThreads(threads) && DrainAll(threads[0].set', threads[1..], newIds).Some?
    ensures Separable(DrainAll(threads[0].set', threads[1..], newIds).value.dst)
  {
    assert forall t <- threads[1..] :: t in threads;
    AllDrainedEmpties(threads[0].set', threads[1..], newIds);
    AllDrainedSound(threads[0].set', threads[1..], newIds);
    var c := DrainAll(threads[0].set', threads[1..], newIds).value.dst;
    forall a <- c.known, b <- c.known | a != b && a.frames == b.frames
      ensures c.known[a].id != c.known[b].id
    {
      EmptiesApart(c, a, b);
    }
  }

  /** Where the merge of all threads leads, told before it. */
  ghost function Foreseen(threads: seq<Thread>): Course
    requires threads != []
  {
    CourseAll(Seen(threads[0].set'), threads[1..])
  }

  /** What the report of a merge finds, told before the merge. */
  lemma FoundExactly(threads: seq<Thread>, saved: Saved, stacks: seq<Printed>)
    requires FromThreads(threads) && DrainAll(threads[0].set', threads[1..], [threads[0].ids]) == Some(saved)
    requires Traceable(saved.dst, stacks) <==> Numbers(IdsOf(saved.dst), |saved.dst.known|)
    ensures Foreseen(threads).At? && Foreseen(threads).ids == IdsOf(saved.dst)
    ensures RecordsFound(threads, saved.newIds, stacks) <==> Numbers(Foreseen(threads).ids, |Foreseen(threads).ids|)
  {
    hide DrainAll, RecordsFound, Traceable, Numbers, Owed, Dense, Plain;
    SavedFound(threads, saved, stacks);
    assert forall t <- threads[1..] :: t in threads;
    AllCourseExactly(threads[0].set', threads[1..], [threads[0].ids]);
    IdsOfKnown(saved.dst);
  }

  /** The entry that a stack gets: its id, the number of records that have it, and the excess of the first thread that
      brings it to the master. */
  ghost function EntryFor(threads: seq<Thread>, key: Key): Printed
    requires threads != [] && Foreseen(threads).At? && key in Foreseen(threads).ids
  {
    Printed(Foreseen(threads).ids[key], RecordsWith(threads, key) + Excess(threads[0].set', threads[1..], key),
            key.frames)
  }

  /** The report has one entry for each stack that a thread has recorded, and no more. */
  ghost predicate CountsAppear(threads: seq<Thread>, stacks: seq<Printed>)
    requires threads != []
  {
    && Foreseen(threads).At? && |stacks| == |Foreseen(threads).ids|
    && (forall key :: key in Foreseen(threads).ids <==> Knows(threads, key))
    && (forall key <- Foreseen(threads).ids :: EntryFor(threads, key) in stacks)
  }

  lemma CountsForetold(threads: seq<Thread>, saved: Saved, stacks: seq<Printed>)
    requires FromThreads(threads) && DrainAll(threads[0].set', threads[1..], [threads[0].ids]) == Some(saved)
    requires Foreseen(threads).At? && Foreseen(threads).ids == IdsOf(saved.dst) && Entered(saved.dst, stacks)
    ensures CountsAppear(threads, stacks)
  {
    hide DrainAll, Foreseen, Excess, Dense, Plain, Knows, RecordsWith, AllOwed, IdsOf;
    IdsOfKnown(saved.dst);
    forall key
      ensures key in saved.dst.known <==> Knows(threads, key)
      ensures CountOf(saved.dst, key) == RecordsWith(threads, key) + Excess(threads[0].set', threads[1..], key)
    {
      RestOwed(threads);
      AllDrainedKnown(threads[0].set', threads[1..], [threads[0].ids], key);
      KnowsFirst(threads, key);
      AllCountsExactly(threads, [threads[0].ids], key);
    }
    forall key <- Foreseen(threads).ids
      ensures EntryFor(threads, key) in stacks
    {
      assert PrintedOf(saved.dst, key) == EntryFor(threads, key);
    }
  }

  lemma RestOwed(threads: seq<Thread>)
    requires threads != [] && AllOwed(threads)
    ensures AllOwed(threads[1..])
  {
    assert forall t <- threads[1..] :: t in threads;
  }

  /** The stacks of all threads from the first loop of mprofile_save to get_stack. The merge succeeds, and the trace
      of every record of every thread is the one it was recorded with, exactly if the course of the merge does not
      stop and gives the stacks the ids 1 .. m. The counts in the report are told from the records of the threads. */
  method ReportThreads(sets: seq<StackSet>, recs: seq<seq<Record>>, ghost threads: seq<Thread>, ghost all: set<Record>)
    returns (ok: bool, stacks: seq<Printed>, ghost newIds: seq<seq<nat>>)
    requires |sets| == |recs| == |threads| && Disjoint(recs, all) && FromThreads(threads)
    requires forall t :: 0 <= t < |sets| ==> Ready(sets[t], recs[t], threads[t]) && sets[t].repr !! all
    requires forall t, u :: 0 <= t < u < |sets| ==> sets[t].repr !! sets[u].repr
    modifies set t, o | 0 <= t < |sets| && o in sets[t].repr :: o
    modifies all`stackId
    ensures ok <==> Foreseen(threads).At?
    ensures ok ==> |newIds| == |recs| && forall t :: 0 <= t < |recs| ==> Carry(recs[t], newIds[t])
    ensures ok ==>
            (RecordsFound(threads, newIds, stacks) <==> Numbers(Foreseen(threads).ids, |Foreseen(threads).ids|))
    ensures ok ==> CountsAppear(threads, stacks)
    ensures PlanAll(threads[0].set'.next, threads[0].set'.known.Keys, threads[1..]).Going? ==>
            ok && RecordsFound(threads, newIds, stacks)
  {
    hide StackSet.Valid, Ready, Dense, Owed, Plain, Numbers, Traceable, DrainAll, PlanAll, RecordsFound, Carry,
      Separable, Entered, CountsAppear, IdsOf;
    ghost var first := threads[0].set';
    assert forall t <- threads[1..] :: t in threads;
    AllDenseExactly(first, threads[1..], [threads[0].ids]);
    AllCourseExactly(first, threads[1..], [threads[0].ids]);
    stacks := [];
    ok, newIds := MergeAll(sets, recs, threads, all);
    if !ok {
      return;
    }
    ghost var saved := Saved(sets[0].cat, newIds);
    SavedSeparable(threads, [threads[0].ids]);
    stacks := ReportStacks(sets[0]);
    FoundExactly(threads, saved, stacks);
    CountsForetold(threads, saved, stacks);
    if Dense(saved.dst) {
      DenseNumbers(saved.dst);
      SavedFound(threads, saved, stacks);
    }
  }

  /** After the last of the failing runs, no report finds the traces of all records. */
  lemma LostTrace(stacks: seq<Printed>)
    ensures var a, b, c := KeyOf([1], 0), KeyOf([2], 0), KeyOf([3], 0);
            var threads := [Thread(Recorded([a]), [1]), Thread(Recorded([a, b]), [1, 2]),
                            Thread(Recorded([c, c]), [1, 1])];
            var saved := DrainAll(threads[0].set', threads[1..], [[1]]);
            saved.Some? && !RecordsFound(threads, saved.value.newIds, stacks)
  {
    FailingRuns();
    var a, b, c := KeyOf([1], 0), KeyOf([2], 0), KeyOf([3], 0);
    var second, third := Thread(Recorded([a, b]), [1, 2]), Thread(Recorded([c, c]), [1, 1]);
    var threads := [Thread(Recorded([a]), [1]), second, third];
    assert threads[1..] == [second, third];
    RecordedTraces([a, b], 1);
    RecordedTraces([c, c], 0);
    RecordIdsTwo(a, b);
    RecordIdsTwo(c, c);
    hide DrainAll, Recorded, RecordIds;
    var newIds := [[1], [1, 2], [2, 2]];
    if RecordsFound(threads, newIds, stacks) {
      FoundAt(threads, newIds, stacks, 1, 1);
      FoundAt(threads, newIds, stacks, 2, 0);
    }
  }

  lemma FoundAt(threads: seq<Thread>, newIds: seq<seq<nat>>, stacks: seq<Printed>, t: nat, j: nat)
    requires RecordsFound(threads, newIds, stacks) && t < |threads| && j < |threads[t].ids|
    ensures j < |newIds[t]| && GetStack(stacks, newIds[t][j]) == TraceOf(threads[t], threads[t].ids[j])
  {
    assert ThreadFound(threads[t], newIds[t], stacks);
  }

  lemma RecordIdsTwo(a: Key, b: Key)
    ensures RecordIds([a, b]) == [1, if a == b then 1 else 2]
  {
    NothingYet();
    RecordedMore([], a);
    RecordedMore([a], b);
    assert [] + [a] == [a] && [a] + [b] == [a, b];
  }

  /** The run with the kept id: the master has recorded [1], another thread [1] and [2]. The id 2 is in use although
      it has not been given out, and the traces are found nevertheless. */
  method SparseIds() returns (dst: StackSet, recs: seq<Record>, stacks: seq<Printed>)
    ensures dst.Valid() && Carry(recs, [1, 2]) && dst.stsetId == 2 && !Dense(dst.cat)
    ensures GetStack(stacks, 1) == Trace([1]) && GetStack(stacks, 2) == Trace([2])
  {
    hide RbHead.Valid, StackSet.Valid, Recorded, RecordIds, Drain, Traceable, Numbers, Dense, Owed, Full, Carry;
    ghost var a, b := KeyOf([1], 0), KeyOf([2], 0);
    var own, src;
    dst, own := RecordThread([Op(1, Alloc, 16, 0, 8)], [Key([1], 0)]);
    label first:
    src, recs := RecordThread([Op(2, Alloc, 32, 0, 8), Op(3, Alloc, 48, 0, 8)], [Key([1], 0), Key([2], 0)]);
    assert dst.Valid() == old@first(dst.Valid());
    RecordIdsTwo(a, b);
    KeptId();
    var ok;
    ghost var newIds;
    ok, newIds := MergeRecords(dst, src, recs, [1, 2]);
    SparseNumbers(dst.cat);
    dst.Holds(a);
    stacks := ReportStacks(dst);
    FoundBoth(dst.cat, stacks);
  }

  lemma SparseNumbers(c: Catalogue)
    requires var a, b := KeyOf([1], 0), KeyOf([2], 0);
             c == Catalogue(2, map[a := Entry(1, 2), b := Entry(2, 1)], map[1 := a, 2 := b])
    ensures Numbers(IdsOf(c), 2) && !Dense(c)
  {
    var a, b := KeyOf([1], 0), KeyOf([2], 0);
    assert a in c.known && b in c.known;
    assert IdsOf(c)[a] == 1 && IdsOf(c)[b] == 2;
    assert HasId(IdsOf(c), 1) && HasId(IdsOf(c), 2);
    assert 2 in c.listed;
  }

  lemma FoundBoth(c: Catalogue, stacks: seq<Printed>)
    requires var a, b := KeyOf([1], 0), KeyOf([2], 0); c.known == map[a := Entry(1, 2), b := Entry(2, 1)]
    requires Traceable(c, stacks)
    ensures GetStack(stacks, 1) == Trace([1]) && GetStack(stacks, 2) == Trace([2])
  {
    assert KeyOf([1], 0) in c.known && KeyOf([2], 0) in c.known;
  }
}
