/** Making records and merging the logs of all threads, mprofile/record.c. */
module Merge {
  import opened History
  import opened RbShape
  import opened RbTree
  import opened Records
  import opened TailQueue
  import opened Bags
  import Interleaving

  /** struct mprofile, the log of one thread. */
  class Profile {
    const queue: Head<Record>

    constructor ()
      ensures queue.Valid() && queue.entries == [] && fresh(queue)
    {
      queue := new Head();
    }
  }

  // ---------------------------------------------------------------------------------
  // Recording

  /** The counter of ids that all threads share. */
  class Counter {
    var mprId: nat

    constructor ()
      ensures mprId == 0
    {
      mprId := 0;
    }
  }

  const MAX_SSIZE: nat := 0x7fff_ffff_ffff_ffff

  /** The common part of mprofile_record_alloc, _free and _realloc: an id is taken and the record queued. */
  method Log(mp: Profile, counter: Counter, kind: Kind, mem: nat, realloc: nat, delta: int, ghost recs: seq<Record>)
    returns (mpr: Record)
    requires Queued(mp.queue, recs)
    modifies counter, mp.queue, mp.queue.entries
    ensures fresh(mpr) && fresh(mpr.tqe) && fresh(mpr.rbe) && mpr.stackId == mpr.prevId == mpr.nextId == 0
    ensures mpr.op == Op(counter.mprId, kind, mem, realloc, delta) && counter.mprId == old(counter.mprId) + 1
    ensures Queued(mp.queue, recs + [mpr])
  {
    counter.mprId := counter.mprId + 1;
    mpr := new Record(Op(counter.mprId, kind, mem, realloc, delta));
    assert forall i :: 0 <= i < |recs| ==> recs[i].Intact() && recs[i].tqe == mp.queue.entries[i];
    mp.queue.InsertTail(mpr.tqe);
  }

  /** mprofile_record_alloc (record.c:316-341). */
  method RecordAlloc(mp: Profile, counter: Counter, buf: nat, bufSz: nat, ghost recs: seq<Record>) returns (mpr: Record)
    requires Queued(mp.queue, recs) && bufSz <= MAX_SSIZE
    modifies counter, mp.queue, mp.queue.entries
    ensures mpr.op == Op(old(counter.mprId) + 1, Alloc, buf, 0, bufSz) && counter.mprId == old(counter.mprId) + 1
    ensures Queued(mp.queue, recs + [mpr])
    ensures fresh(mpr) && fresh(mpr.tqe) && fresh(mpr.rbe) && mpr.stackId == mpr.prevId == mpr.nextId == 0
  {
    mpr := Log(mp, counter, Alloc, buf, 0, bufSz, recs);
  }

  /** mprofile_record_free (record.c:344-368). */
  method RecordFree(mp: Profile, counter: Counter, buf: nat, sz: nat, ghost recs: seq<Record>) returns (mpr: Record)
    requires Queued(mp.queue, recs) && sz <= MAX_SSIZE
    modifies counter, mp.queue, mp.queue.entries
    ensures mpr.op == Op(old(counter.mprId) + 1, Free, buf, 0, -(sz as int)) && counter.mprId == old(counter.mprId) + 1
    ensures Queued(mp.queue, recs + [mpr])
    ensures fresh(mpr) && fresh(mpr.tqe) && fresh(mpr.rbe) && mpr.stackId == mpr.prevId == mpr.nextId == 0
  {
    mpr := Log(mp, counter, Free, buf, 0, -(sz as int), recs);
  }

  /** mprofile_record_realloc (record.c:371-397). */
  method RecordRealloc(mp: Profile, counter: Counter, buf: nat, bufSz: nat, origSz: nat, oldBuf: nat,
                       ghost recs: seq<Record>)
    returns (mpr: Record)
    requires Queued(mp.queue, recs) && bufSz <= MAX_SSIZE && origSz <= MAX_SSIZE
    modifies counter, mp.queue, mp.queue.entries
    ensures mpr.op == Op(old(counter.mprId) + 1, Realloc, buf, oldBuf, bufSz - origSz)
    ensures counter.mprId == old(counter.mprId) + 1
    ensures Queued(mp.queue, recs + [mpr])
    ensures fresh(mpr) && fresh(mpr.tqe) && fresh(mpr.rbe) && mpr.stackId == mpr.prevId == mpr.nextId == 0
  {
    mpr := Log(mp, counter, Realloc, buf, oldBuf, bufSz - origSz, recs);
  }

  /** The loop of mprofile_destroy (record.c:305-308): TAILQ_FOREACH_SAFE with removal empties the queue. */
  method Destroy(mp: Profile)
    requires mp.queue.Valid()
    modifies mp.queue, mp.queue.entries
    ensures mp.queue.Valid() && mp.queue.entries == []
  {
    var mpr := mp.queue.first;
    ghost var n, q := 0, mp.queue.entries;
    while mpr != null
      invariant n <= |q| && mp.queue.entries == q[n..]
      invariant mp.queue.Valid() && mpr == Nth(mp.queue.entries, 0)
      decreases |q| - n
    {
      var walk := mpr.next;
      mp.queue.Remove(mpr, 0);
      mpr, n := walk, n + 1;
    }
  }

  // ---------------------------------------------------------------------------------
  // Draining the threads' queues into the sorter

  /** Records with their queue entries and tree entries. */
  datatype Batch = Batch(recs: seq<Record>, tqes: seq<Entry<Record>>, nodes: seq<Node<Op, Record>>)

  ghost predicate Matched(s: Batch) {
    && |s.recs| == |s.tqes| && Entries(s.recs, s.nodes)
    && (forall i :: 0 <= i < |s.recs| ==> s.tqes[i].elem == s.recs[i])
  }

  ghost predicate Embedded(s: Batch)
    requires Matched(s)
    reads s.recs`tqe, s.recs`rbe
  {
    forall i :: 0 <= i < |s.recs| ==> s.recs[i].tqe == s.tqes[i] && s.recs[i].rbe == s.nodes[i]
  }

  /** All records have different ids. */
  ghost predicate IdsDiffer(s: Batch) {
    Matched(s) && forall i, j :: 0 <= i < j < |s.recs| ==> s.nodes[i].key.id != s.nodes[j].key.id
  }

  /** The sorter holds the first `m` records. */
  ghost predicate Sorting(sorter: RbHead<Op, Record>, s: Batch, m: nat)
    requires m <= |s.nodes|
    reads sorter, sorter.nodes
  {
    sorter.Valid() && sorter.compare == IdCompare && sorter.nodes == Elems(s.nodes[..m])
  }

  lemma NewId(sorter: RbHead<Op, Record>, s: Batch, m: nat)
    requires m < |s.nodes| && IdsDiffer(s) && Sorting(sorter, s, m)
    ensures !sorter.HasKey(s.nodes[m].key) && s.nodes[m] !in sorter.nodes
    ensures Elems(s.nodes[..m + 1]) == Elems(s.nodes[..m]) + {s.nodes[m]}
  {
    forall n | n in sorter.nodes
      ensures IdCompare(s.nodes[m].key, n.key) != 0
    {
      assert n in s.nodes[..m];
      var i :| 0 <= i < m && s.nodes[i] == n;
    }
  }

  /** The queue holds records `a` up to `b`. */
  ghost predicate HoldsPart(mp: Head<Record>, s: Batch, a: nat, b: nat)
    reads mp, mp.entries
  {
    a <= b <= |s.tqes| && mp.Valid() && mp.entries == s.tqes[a..b]
  }

  lemma Tail<T>(q: seq<T>, a: nat, b: nat)
    requires a < b <= |q|
    ensures q[a..b][1..] == q[a + 1..b] && q[a..b][0] == q[a]
    ensures forall x :: x in q[a + 1..b] ==> x in q[a..b]
  {
    assert q[a..b] == [q[a]] + q[a + 1..b];
  }

  lemma Remaining(mp: Head<Record>, s: Batch, m: nat, b: nat)
    requires HoldsPart(mp, s, m, b) && Matched(s)
    ensures m <= b <= |s.nodes| && mp.Valid() && (mp.first == null <==> m == b) && (m == b ==> mp.entries == [])
  {
  }

  /** The inner loop of mprofile_save (record.c:553-570): one thread's records move to the sorter. */
  method Drain(mp: Head<Record>, sorter: RbHead<Op, Record>, ghost s: Batch, ghost a: nat, ghost b: nat)
    requires HoldsPart(mp, s, a, b) && IdsDiffer(s) && Embedded(s) && Sorting(sorter, s, a)
    modifies mp, mp.entries, sorter, sorter.nodes, s.nodes
    ensures mp.Valid() && mp.entries == [] && Sorting(sorter, s, b)
  {
    hide RbHead.Valid, Head.Valid, Embedded, Sorting;
    ghost var m := a;
    Remaining(mp, s, m, b);
    while mp.first != null
      invariant a <= m <= b <= |s.nodes| && HoldsPart(mp, s, m, b) && Sorting(sorter, s, m)
      invariant forall e :: e in mp.entries ==> e in old(mp.entries)
      invariant mp.first == null <==> m == b
      decreases b - m
    {
      SorterNodes(sorter, s, m);
      DrainOne(mp, sorter, s, m, b);
      m := m + 1;
      Remaining(mp, s, m, b);
    }
    Remaining(mp, s, m, b);
  }

  lemma SorterNodes(sorter: RbHead<Op, Record>, s: Batch, m: nat)
    requires m <= |s.nodes| && Sorting(sorter, s, m)
    ensures forall n <- sorter.nodes :: n in s.nodes
  {
    assert forall n <- s.nodes[..m] :: n in s.nodes;
  }

  /** One turn of that loop. */
  method DrainOne(mp: Head<Record>, sorter: RbHead<Op, Record>, ghost s: Batch, ghost m: nat, ghost b: nat)
    requires HoldsPart(mp, s, m, b) && mp.first != null && IdsDiffer(s) && Embedded(s) && Sorting(sorter, s, m)
    modifies mp, mp.entries, sorter, sorter.nodes, s.nodes
    ensures HoldsPart(mp, s, m + 1, b) && Sorting(sorter, s, m + 1)
    ensures forall e :: e in mp.entries ==> e in old(mp.entries)
  {
    hide RbHead.Valid, Head.Valid;
    InBatch(mp, s, m, b);
    label before:
    var mpr := Pop(mp, s, m, b);
    label popped:
    assert Sorting(sorter, s, m) == old@before(Sorting(sorter, s, m));
    SortIn(sorter, mpr.rbe, s, m);
    assert HoldsPart(mp, s, m + 1, b) == old@popped(HoldsPart(mp, s, m + 1, b));
  }

  lemma InBatch(mp: Head<Record>, s: Batch, m: nat, b: nat)
    requires HoldsPart(mp, s, m, b) && mp.first != null && Matched(s)
    ensures m < |s.nodes| && m < b
  {
  }

  /** TAILQ_REMOVE of the first record. */
  method Pop(mp: Head<Record>, ghost s: Batch, ghost m: nat, ghost b: nat) returns (mpr: Record)
    requires HoldsPart(mp, s, m, b) && mp.first != null && Matched(s)
    modifies mp, mp.entries
    ensures HoldsPart(mp, s, m + 1, b) && mpr == s.recs[m]
    ensures forall e :: e in mp.entries ==> e in old(mp.entries)
  {
    Tail(s.tqes, m, b);
    mpr := mp.first.elem;
    mp.Remove(mp.first, 0);
  }

  /** RB_INSERT of the next record; the assertion is that of record.c:558. */
  method SortIn(sorter: RbHead<Op, Record>, rbe: Node<Op, Record>, ghost s: Batch, ghost m: nat)
    requires IdsDiffer(s) && m < |s.nodes| && rbe == s.nodes[m] && Sorting(sorter, s, m)
    modifies sorter, sorter.nodes, s.nodes
    ensures Sorting(sorter, s, m + 1)
  {
    NewId(sorter, s, m);
    var r, _, _ := sorter.Insert(rbe);
    assert r == null;
  }

  // ---------------------------------------------------------------------------------
  // From the sorter to the master's queue

  /** The records still in the sorter, and those that have already come out of it. */
  ghost predicate Emptying(sorter: RbHead<Op, Record>, master: Head<Record>, s: Batch, n: nat)
    requires Matched(s)
    reads sorter, sorter.nodes, master, master.entries
  {
    && n <= |s.nodes| && sorter.Valid() && sorter.Contents() == s.nodes[n..]
    && master.Valid() && master.entries == s.tqes[..n]
  }

  lemma InSorter(sorter: RbHead<Op, Record>)
    requires sorter.Valid()
    ensures Elems(sorter.Contents()) == sorter.nodes
  {
    sorter.Elements();
  }

  lemma FirstLeft(sorter: RbHead<Op, Record>, master: Head<Record>, s: Batch, n: nat)
    requires Matched(s) && Emptying(sorter, master, s, n) && n < |s.nodes| && NoDuplicates(s.recs)
    ensures s.nodes[n..] == [] + [s.nodes[n]] + s.nodes[n + 1..] && s.nodes[n] in sorter.nodes
    ensures s.tqes[n] !in master.entries && s.tqes[..n] + [s.tqes[n]] == s.tqes[..n + 1]
  {
    hide RbHead.Valid, Head.Valid;
    InSorter(sorter);
    assert s.nodes[n] == s.nodes[n..][0];
    forall i | 0 <= i < n
      ensures s.tqes[i] != s.tqes[n]
    {
      assert s.recs[i] != s.recs[n];
    }
  }

  /** One turn of the second loop (record.c:581-583). */
  method TakeMin(sorter: RbHead<Op, Record>, master: Head<Record>, ghost s: Batch, ghost n: nat)
    requires Matched(s) && Embedded(s) && Emptying(sorter, master, s, n) && n < |s.nodes| && NoDuplicates(s.recs)
    modifies sorter, sorter.nodes, master, master.entries, s.tqes
    ensures Emptying(sorter, master, s, n + 1)
    ensures sorter.nodes <= old(sorter.nodes)
  {
    FirstLeft(sorter, master, s, n);
    var mpr := PopMin(sorter, s.nodes[n], s.nodes[n + 1..]);
    master.InsertTail(mpr.elem.tqe);
  }

  /** RB_MIN and RB_REMOVE of it. */
  method PopMin(sorter: RbHead<Op, Record>, ghost x: Node<Op, Record>, ghost rest: seq<Node<Op, Record>>)
    returns (mpr: Node<Op, Record>)
    requires sorter.Valid() && sorter.Contents() == [] + [x] + rest && x in sorter.nodes
    modifies sorter, sorter.nodes
    ensures sorter.Valid() && mpr == x && sorter.Contents() == rest && sorter.nodes <= old(sorter.nodes)
  {
    ghost var all := sorter.Contents();
    mpr := sorter.Min();
    ghost var before, after := sorter.Remove(mpr);
    sorter.SameSplit(all, x, [], rest, before, after);
    assert [] + rest == rest;
  }

  ghost predicate AscendingRecords(s: Batch) {
    Matched(s) && forall i, j :: 0 <= i < j < |s.nodes| ==> s.nodes[i].key.id < s.nodes[j].key.id
  }

  lemma IdsDistinct(s: Batch)
    requires IdsDiffer(s)
    ensures NoDuplicates(s.recs) && NoDuplicates(s.nodes) && NoDuplicates(s.tqes)
  {
    assert forall i :: 0 <= i < |s.recs| ==> s.nodes[i].elem == s.recs[i] && s.nodes[i].key == s.recs[i].op;
  }

  ghost function Find<T>(q: seq<T>, x: T): (i: nat)
    requires x in q
    ensures i < |q| && q[i] == x
  {
    if q[0] == x then 0 else 1 + Find(q[1..], x)
  }

  ghost function Pick<T>(q: seq<T>, at: seq<nat>): (r: seq<T>)
    requires forall i :: 0 <= i < |at| ==> at[i] < |q|
    ensures |r| == |at| && forall i :: 0 <= i < |at| ==> r[i] == q[at[i]]
  {
    seq(|at|, i requires 0 <= i < |at| => q[at[i]])
  }

  /** Where the elements of a rearrangement come from. */
  lemma Places<T>(q: seq<T>, r: seq<T>) returns (at: seq<nat>)
    requires NoDuplicates(q) && NoDuplicates(r) && forall x :: x in r <==> x in q
    ensures |at| == |r| && (forall i :: 0 <= i < |at| ==> at[i] < |q|) && r == Pick(q, at)
    ensures NoDuplicates(at) && forall j: nat :: j < |q| ==> j in at
  {
    at := seq(|r|, i requires 0 <= i < |r| => Find(q, r[i]));
    forall j: nat | j < |q|
      ensures j in at
    {
      assert q[j] in r;
      var i :| 0 <= i < |r| && r[i] == q[j];
      assert at[i] == j;
    }
  }

  lemma PickAll<T>(q: seq<T>, at: seq<nat>)
    requires NoDuplicates(q) && (forall i :: 0 <= i < |at| ==> at[i] < |q|)
    requires NoDuplicates(at) && forall j: nat :: j < |q| ==> j in at
    ensures multiset(Pick(q, at)) == multiset(q)
  {
    var r := Pick(q, at);
    forall x | x in q
      ensures x in r
    {
      var j: nat :| j < |q| && q[j] == x;
      assert j in at;
      var i :| 0 <= i < |at| && at[i] == j;
      assert r[i] == x;
    }
    SameElements(r, q);
  }

  /** The order in which the records leave the sorter. */
  lemma SorterOrder(sorter: RbHead<Op, Record>, s: Batch)
    requires IdsDiffer(s) && Sorting(sorter, s, |s.nodes|)
    ensures forall n :: n in sorter.Contents() <==> n in s.nodes
    ensures forall i, j :: 0 <= i < j < |sorter.Contents()| ==>
            sorter.Contents()[i].key.id < sorter.Contents()[j].key.id
  {
    sorter.Elements();
    assert s.nodes[..|s.nodes|] == s.nodes;
    forall n
      ensures n in sorter.Contents() <==> n in s.nodes
    {
      assert n in Elems(sorter.Contents()) <==> n in Elems(s.nodes);
    }
  }

  ghost function PickBatch(s: Batch, at: seq<nat>): (t: Batch)
    requires Matched(s) && forall i :: 0 <= i < |at| ==> at[i] < |s.recs|
    ensures Matched(t)
  {
    Batch(Pick(s.recs, at), Pick(s.tqes, at), Pick(s.nodes, at))
  }

  /** The batch in the order of the sorter. */
  lemma Resort(sorter: RbHead<Op, Record>, s: Batch) returns (at: seq<nat>)
    requires IdsDiffer(s) && Sorting(sorter, s, |s.nodes|)
    ensures forall i :: 0 <= i < |at| ==> at[i] < |s.recs|
    ensures AscendingRecords(PickBatch(s, at)) && PickBatch(s, at).nodes == sorter.Contents()
    ensures multiset(PickBatch(s, at).recs) == multiset(s.recs)
  {
    SorterOrder(sorter, s);
    IdsDistinct(s);
    at := Places(s.nodes, sorter.Contents());
    PickAll(s.recs, at);
  }

  lemma InQueue(master: Head<Record>, t: Batch)
    requires Matched(t) && Embedded(t) && master.Valid() && master.entries == t.tqes
    ensures Queued(master, t.recs) && Placed(t.recs, t.nodes)
  {
    assert forall i :: 0 <= i < |t.recs| ==> t.tqes[i].elem == t.recs[i] && t.nodes[i].key == t.recs[i].op;
  }

  /** The second loop of mprofile_save (record.c:580-584). */
  method Collect(sorter: RbHead<Op, Record>, master: Head<Record>, ghost s: Batch)
    requires IdsDiffer(s) && Embedded(s) && Emptying(sorter, master, s, 0)
    modifies sorter, sorter.nodes, master, s.tqes
    ensures Queued(master, s.recs) && Placed(s.recs, s.nodes) && Embedded(s) && sorter.nodes == {}
  {
    hide RbHead.Valid, Head.Valid, NoDuplicates, Embedded;
    IdsDistinct(s);
    ghost var n := 0;
    while sorter.root != null
      invariant Emptying(sorter, master, s, n)
      invariant sorter.nodes <= old(sorter.nodes)
      decreases |s.nodes| - n
    {
      Emptied(sorter, master, s, n);
      TakeMin(sorter, master, s, n);
      n := n + 1;
    }
    Emptied(sorter, master, s, n);
    InQueue(master, s);
  }

  lemma Emptied(sorter: RbHead<Op, Record>, master: Head<Record>, s: Batch, n: nat)
    requires Matched(s) && Emptying(sorter, master, s, n)
    ensures sorter.root == null <==> n == |s.nodes|
    ensures sorter.root == null ==> sorter.nodes == {} && master.entries == s.tqes
    ensures forall e :: e in master.entries ==> e in s.tqes
  {
    sorter.Elements();
  }

  // ---------------------------------------------------------------------------------
  // mprofile_save

  /** The profiles of the threads; profile `i` holds records `cut[i]` up to `cut[i + 1]` of the batch. */
  datatype Threads = Threads(profs: seq<Profile>, s: Batch, cut: seq<nat>)

  ghost predicate Divided(ts: Threads) {
    && IdsDiffer(ts.s) && |ts.cut| == |ts.profs| + 1
    && ts.cut[0] == 0 && ts.cut[|ts.profs|] == |ts.s.recs|
    && (forall i, j :: 0 <= i < j <= |ts.profs| ==> ts.cut[i] <= ts.cut[j])
    && (forall i, j :: 0 <= i < j < |ts.profs| ==> ts.profs[i].queue != ts.profs[j].queue)
  }

  /** The queue of profile `i` holds its records. */
  ghost predicate Holds(ts: Threads, i: nat)
    requires Divided(ts) && i < |ts.profs|
    reads ts.profs[i].queue, ts.profs[i].queue.entries
  {
    HoldsPart(ts.profs[i].queue, ts.s, ts.cut[i], ts.cut[i + 1])
  }

  /** The records of another thread are not among those of thread `k`. */
  lemma PartsDiffer(ts: Threads, k: nat, i: nat, e: Entry<Record>)
    requires Divided(ts) && k < i < |ts.profs| && e in ts.s.tqes[ts.cut[i]..ts.cut[i + 1]]
    ensures e !in ts.s.tqes[ts.cut[k]..ts.cut[k + 1]] && e in ts.s.tqes
  {
    IdsDistinct(ts.s);
    var q := ts.s.tqes;
    var x :| ts.cut[i] <= x < ts.cut[i + 1] && q[x] == e;
    forall y | ts.cut[k] <= y < ts.cut[k + 1]
      ensures q[y] != e
    {
      assert ts.cut[k + 1] <= ts.cut[i];
    }
  }

  /** Draining one thread leaves the queues of the others alone. */
  twostate lemma OthersHold(args: (Threads, nat))
    requires Divided(args.0) && args.1 < |args.0.profs| && old(Holds(args.0, args.1))
    requires forall i :: args.1 < i < |args.0.profs| ==> old(Holds(args.0, i)) && unchanged(args.0.profs[i].queue)
    requires forall e <- args.0.s.tqes :: !old(e in args.0.profs[args.1].queue.entries) ==> unchanged(e)
    ensures forall i :: args.1 < i < |args.0.profs| ==> Holds(args.0, i)
  {
    var ts, k := args.0, args.1;
    forall i | k < i < |ts.profs|
      ensures Holds(ts, i)
    {
      assert old(Holds(ts, i));
      var q := ts.profs[i].queue.entries;
      forall x | 0 <= x < |q|
        ensures unchanged(q[x])
      {
        PartsDiffer(ts, k, i, q[x]);
      }
      assert unchanged(q);
      assert Holds(ts, i) == old(Holds(ts, i));
    }
  }

  /** Drains a thread's profile; all but the master are destroyed then. */
  method Retire(mp: Profile, master: Profile, sorter: RbHead<Op, Record>, ghost s: Batch, ghost a: nat, ghost b: nat)
    requires HoldsPart(mp.queue, s, a, b) && IdsDiffer(s) && Embedded(s) && Sorting(sorter, s, a)
    modifies mp.queue, mp.queue.entries, sorter, sorter.nodes, s.nodes
    ensures mp.queue.Valid() && mp.queue.entries == [] && Sorting(sorter, s, b)
  {
    Drain(mp.queue, sorter, s, a, b);
    if master != mp {
      label drained:
      Destroy(mp);
      assert Sorting(sorter, s, b) == old@drained(Sorting(sorter, s, b));
    }
  }

  /** The body of the first loop of mprofile_save (record.c:550-576). */
  method SaveOne(mp: Profile, master0: Profile?, sorter: RbHead<Op, Record>, ghost ts: Threads, ghost k: nat)
    returns (master: Profile)
    requires Divided(ts) && Embedded(ts.s) && k < |ts.profs| && mp == ts.profs[k] && Sorting(sorter, ts.s, ts.cut[k])
    requires forall i :: k <= i < |ts.profs| ==> Holds(ts, i)
    requires master0 == if k == 0 then null else ts.profs[0]
    modifies ts.profs[k].queue, ts.profs[k].queue.entries, sorter, sorter.nodes, ts.s.nodes
    ensures master == ts.profs[0] && Sorting(sorter, ts.s, ts.cut[k + 1])
    ensures forall i :: k < i < |ts.profs| ==> Holds(ts, i)
    ensures mp.queue.Valid() && mp.queue.entries == []
  {
    hide RbHead.Valid, Embedded, IdsDiffer, Sorting;
    assert Holds(ts, k);
    master := if master0 == null then mp else master0;
    Retire(mp, master, sorter, ts.s, ts.cut[k], ts.cut[k + 1]);
    OthersHold((ts, k));
  }

  /** The first loop of mprofile_save (record.c:548-578). */
  method DrainAll(profiles: seq<Profile>, sorter: RbHead<Op, Record>, ghost ts: Threads) returns (master: Profile?)
    requires Divided(ts) && Embedded(ts.s) && profiles == ts.profs && Sorting(sorter, ts.s, 0)
    requires forall i :: 0 <= i < |ts.profs| ==> Holds(ts, i)
    modifies (set i | 0 <= i < |ts.profs| :: ts.profs[i].queue), ts.s.tqes, sorter, sorter.nodes, ts.s.nodes
    ensures master == if |ts.profs| == 0 then null else ts.profs[0]
    ensures Sorting(sorter, ts.s, |ts.s.nodes|) && Embedded(ts.s)
    ensures master != null ==> master.queue.Valid() && master.queue.entries == []
  {
    hide RbHead.Valid, Head.Valid, Embedded, Sorting;
    master := null;
    for k := 0 to |profiles|
      invariant Sorting(sorter, ts.s, ts.cut[k])
      invariant forall i :: k <= i < |ts.profs| ==> Holds(ts, i)
      invariant master == if k == 0 then null else ts.profs[0]
      invariant master != null ==> master.queue.Valid() && master.queue.entries == []
    {
      assert Holds(ts, k);
      SorterNodes(sorter, ts.s, ts.cut[k]);
      label before:
      master := SaveOne(profiles[k], master, sorter, ts, k);
      assert k > 0 ==> master.queue.Valid() == old@before(ts.profs[0].queue.Valid());
    }
  }

  lemma EmbeddedPick(s: Batch, at: seq<nat>)
    requires Matched(s) && Embedded(s) && forall i :: 0 <= i < |at| ==> at[i] < |s.recs|
    ensures Embedded(PickBatch(s, at))
  {
  }

  /** The merge loops of mprofile_save (record.c:546-584): the master's queue ends up with every record of every
      thread, in the order of ids, and the sorter is empty again. */
  method MergeAll(profiles: seq<Profile>, ghost ts: Threads) returns (master: Profile?, ghost t: Batch)
    requires Divided(ts) && Embedded(ts.s) && profiles == ts.profs
    requires forall i :: 0 <= i < |ts.profs| ==> Holds(ts, i)
    modifies (set i | 0 <= i < |ts.profs| :: ts.profs[i].queue), ts.s.tqes, ts.s.nodes
    ensures master == if |ts.profs| == 0 then null else ts.profs[0]
    ensures AscendingRecords(t) && Embedded(t) && multiset(t.recs) == multiset(ts.s.recs)
    ensures master != null ==> Queued(master.queue, t.recs) && Placed(t.recs, t.nodes)
    ensures forall n :: n in t.nodes ==> n in ts.s.nodes
  {
    hide RbHead.Valid, Head.Valid;
    MemOrdering();
    var sorter := new RbHead<Op, Record>(IdCompare);
    assert Elems(ts.s.nodes[..0]) == {};
    master := DrainAll(profiles, sorter, ts);
    ghost var at := Resort(sorter, ts.s);
    t := PickBatch(ts.s, at);
    EmbeddedPick(ts.s, at);
    if master != null {
      StartCollecting(sorter, master.queue, t);
      Collect(sorter, master.queue, t);
    }
  }

  lemma StartCollecting(sorter: RbHead<Op, Record>, master: Head<Record>, t: Batch)
    requires AscendingRecords(t) && sorter.Valid() && sorter.Contents() == t.nodes && master.Valid() &&
             master.entries == []
    ensures IdsDiffer(t) && Emptying(sorter, master, t, 0)
  {
    assert t.nodes[0..] == t.nodes && t.tqes[..0] == [];
  }

  /** mprofile_save up to the printing (record.c:538-587). It reports failure exactly where the program aborts. */
  method Save(profiles: seq<Profile>, linkChains: bool, ghost ts: Threads)
    returns (ok: bool, master: Profile?, ghost t: Batch)
    requires Divided(ts) && Embedded(ts.s) && profiles == ts.profs && |profiles| > 0
    requires forall i :: 0 <= i < |ts.profs| ==> Holds(ts, i)
    requires forall i :: 0 <= i < |ts.s.recs| ==> ts.s.recs[i].prevId == 0 && ts.s.recs[i].nextId == 0
    modifies (set i | 0 <= i < |ts.profs| :: ts.profs[i].queue), ts.s.tqes, ts.s.nodes, ts.s.recs`nextId,
             ts.s.recs`prevId
    ensures AscendingRecords(t) && multiset(t.recs) == multiset(ts.s.recs) && master == ts.profs[0]
    ensures ok <==> (linkChains ==> WellFormed(Ops(t.recs)))
    ensures ok ==> Queued(master.queue, t.recs)
    ensures ok && linkChains ==> Chained(t.recs, |t.recs|)
  {
    hide RbHead.Valid, Head.Valid, WellFormed, Chained, Holds;
    master, t := MergeAll(profiles, ts);
    ok := true;
    if linkChains {
      SameRecords(t, ts.s);
      ghost var left;
      ok, left := BuildChains(master.queue, t.recs, t.nodes);
    }
  }

  lemma SameRecords(t: Batch, s: Batch)
    requires multiset(t.recs) == multiset(s.recs)
    ensures forall i :: 0 <= i < |t.recs| ==> t.recs[i] in s.recs
  {
    assert forall x :: x in multiset(t.recs) <==> x in multiset(s.recs);
    assert forall i :: 0 <= i < |t.recs| ==> t.recs[i] in multiset(t.recs);
  }

  // ---------------------------------------------------------------------------------
  // What the threads have recorded is what is saved

  ghost function Without<T>(b: seq<T>, j: nat): seq<T>
    requires j < |b|
  {
    b[..j] + b[j + 1..]
  }

  lemma TakeOp(b: seq<Record>, j: nat)
    requires j < |b|
    ensures multiset(b) == multiset(Without(b, j)) + multiset{b[j]}
    ensures multiset(Ops(b)) == multiset(Ops(Without(b, j))) + multiset{b[j].op}
  {
    Take(b, j);
    Take(Ops(b), j);
    assert Ops(b)[..j] + Ops(b)[j + 1..] == Ops(Without(b, j));
  }

  /** Rearranged records have rearranged operations. */
  lemma {:induction false} SameOps(a: seq<Record>, b: seq<Record>)
    requires multiset(a) == multiset(b)
    ensures multiset(Ops(a)) == multiset(Ops(b))
    decreases |a|
  {
    if a == [] {
      assert |multiset(b)| == 0;
    } else {
      assert a[0] in multiset(b);
      var j: nat :| j < |b| && b[j] == a[0];
      TakeOp(a, 0);
      TakeOp(b, j);
      CancelLast(multiset(Without(a, 0)), multiset(Without(b, j)), a[0]);
      SameOps(Without(a, 0), Without(b, j));
    }
  }

  /** The profiles hold what the threads of an interleaving have queued. */
  ghost predicate Recorded(ts: Threads, queues: seq<seq<Op>>) {
    && Divided(ts) && |queues| == |ts.profs|
    && forall i {:trigger queues[i]} :: 0 <= i < |queues| ==> Ops(ts.s.recs[ts.cut[i]..ts.cut[i + 1]]) == queues[i]
  }

  lemma OpsSplit(recs: seq<Record>, a: nat, b: nat)
    requires a <= b <= |recs|
    ensures multiset(Ops(recs[a..])) == multiset(Ops(recs[a..b])) + multiset(Ops(recs[b..]))
  {
    assert Ops(recs[a..]) == Ops(recs[a..b]) + Ops(recs[b..]);
  }

  lemma QueuedFrom(queues: seq<seq<Op>>, k: nat)
    requires k <= |queues|
    ensures Interleaving.Queued(queues[k..]) ==
            if k < |queues| then multiset(queues[k]) + Interleaving.Queued(queues[k + 1..]) else multiset{}
  {
    if k < |queues| {
      assert queues[k..][0] == queues[k] && queues[k..][1..] == queues[k + 1..];
    }
  }

  lemma {:induction false} RecordedFrom(recs: seq<Record>, cut: seq<nat>, queues: seq<seq<Op>>, k: nat)
    requires |cut| == |queues| + 1 && cut[|queues|] == |recs| && k <= |queues|
    requires forall i, j :: 0 <= i < j <= |queues| ==> cut[i] <= cut[j]
    requires forall i {:trigger queues[i]} :: 0 <= i < |queues| ==> Ops(recs[cut[i]..cut[i + 1]]) == queues[i]
    ensures cut[k] <= |recs| && multiset(Ops(recs[cut[k]..])) == Interleaving.Queued(queues[k..])
    decreases |queues| - k
  {
    hide Ops, Interleaving.Queued;
    QueuedFrom(queues, k);
    if k < |queues| {
      RecordedFrom(recs, cut, queues, k + 1);
      OpsSplit(recs, cut[k], cut[k + 1]);
    } else {
      NoOps(recs[cut[k]..]);
    }
  }

  lemma NoOps(recs: seq<Record>)
    requires |recs| == 0
    ensures multiset(Ops(recs)) == multiset{}
  {
  }

  /** The saved log of a run in which every record has reached its queue is the history of the run: record i has
      id i + 1, and the chains can be built exactly if every step of the run was clear. */
  lemma RunIsSaved(run: seq<Interleaving.State>, steps: seq<Interleaving.Step>, n: nat, ts: Threads, t: Batch)
    requires Interleaving.IsRun(run, steps) && n < |run| && Recorded(ts, run[n].queues)
    requires forall u :: 0 <= u < |run[n].threads| ==> !run[n].threads[u].Stamped?
    requires AscendingRecords(t) && multiset(t.recs) == multiset(ts.s.recs)
    ensures Ops(t.recs) == run[n].stamps && forall i :: 0 <= i < |t.recs| ==> t.recs[i].op.id == i + 1
    ensures WellFormed(Ops(t.recs)) <==> Interleaving.ClearUpTo(run, steps, n)
  {
    var log, queues := Ops(t.recs), run[n].queues;
    SameOps(t.recs, ts.s.recs);
    RecordedFrom(ts.s.recs, ts.cut, queues, 0);
    assert ts.s.recs[ts.cut[0]..] == ts.s.recs && queues[0..] == queues;
    assert forall i :: 0 <= i < |t.recs| ==> t.nodes[i].key == t.recs[i].op;
    Interleaving.QuiescentIsComplete(run, steps, n, log);
  }

  /** No two queued records of a run have the same id. */
  lemma RunIdsDiffer(run: seq<Interleaving.State>, steps: seq<Interleaving.Step>, n: nat, log: seq<Op>)
    requires Interleaving.IsRun(run, steps) && n < |run| && multiset(log) == Interleaving.Queued(run[n].queues)
    ensures forall i, j :: 0 <= i < j < |log| ==> log[i].id != log[j].id
  {
    Interleaving.RunsTally(run, steps, n);
    var s := run[n];
    forall i, j | 0 <= i < j < |log|
      ensures log[i].id != log[j].id
    {
      assert log[i] in multiset(log) && log[j] in multiset(log);
      Interleaving.StampOf(s, log[i]);
      Interleaving.StampOf(s, log[j]);
      if log[i].id == log[j].id {
        Twice(log, i, j);
        assert NoDuplicates(s.stamps);
        Once(s.stamps, log[i]);
      }
    }
  }
}
