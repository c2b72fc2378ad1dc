/** Merging and destroying sets of stacks, mprofile/stack.c and the stack half of mprofile_save. */
module StackMerge {
  import opened RbShape
  import opened RbTree
  import opened Catalogues
  import opened Stacks
  import opened StackSets
  import opened Draining
  import opened Records
  import opened History
  import TailQueue

  /** One set, or two that share nothing. */
  ghost predicate Compatible(dst: StackSet, src: StackSet)
    reads dst, src
  {
    dst == src || dst.repr !! src.repr
  }

  /** The parts of the sets come from these sets or are new. */
  twostate predicate Footprint(dst: StackSet, src: StackSet)
    reads dst, src
  {
    && (forall o <- dst.repr :: o in old(dst.repr) || o in old(src.repr) || fresh(o))
    && (dst != src ==> src.repr <= old(src.repr))
    && old(dst.entries.Keys) <= dst.entries.Keys
  }

  lemma TakenPlain(c: Catalogue, id: nat)
    requires Plain(c) && Sound(c) && id in c.listed
    ensures Leads(c, id) && Plain(Taken(c, id))
  {
  }

  /** One occurrence less (stack.c:348). */
  function Uncounted(c: Catalogue, key: Key): Catalogue
    requires key in c.known && c.known[key].count > 0
  {
    c.(known := c.known[key := Recount(c.known[key], c.known[key].count - 1)])
  }

  /** What one set is after one of its own stacks was merged into it: the same. */
  lemma BackAgain(c: Catalogue, id: nat)
    requires Full(c) && id in c.listed
    ensures Leads(c, id) && c.listed[id] in c.known
    ensures c.known[c.listed[id]].count == 1 ==> Accepted(Taken(c, id), c.listed[id], id) == Some(c)
    ensures var key := c.listed[id]; c.known[key].count > 1 ==>
              forall n :: Added(c, key, n).known[key].count == c.known[key].count + 1 &&
                Uncounted(Added(c, key, n), key) == c
  {
    var key := c.listed[id];
    if c.known[key].count == 1 {
      var d := Accepted(Taken(c, id), key, id).value;
      assert d.known == c.known && d.listed == c.listed;
    } else {
      forall n
        ensures Uncounted(Added(c, key, n), key) == c
      {
        assert Added(c, key, n).known[key := c.known[key]] == c.known;
      }
    }
  }

  /** Merging a stack that occurs once (stack.c:303-330). */
  method Move(dst: StackSet, src: StackSet, mps: Stack) returns (ok: bool, to: Stack)
    requires dst.Valid() && src.Valid() && Compatible(dst, src) && mps in src.listed && mps.count == 1
    requires dst == src ==> Full(src.cat)
    modifies dst.repr, src.repr
    ensures ok <==> (dst != src ==> Accepted(old(dst.cat), mps.TraceKey(), old(mps.id)).Some?)
    ensures ok ==> dst.Valid() && src.Valid() && Compatible(dst, src) && Footprint(dst, src)
    ensures ok ==> to in dst.entries && to.TraceKey() == mps.TraceKey()
    ensures ok && dst != src ==> dst.cat == Accepted(old(dst.cat), mps.TraceKey(), old(mps.id)).value
    ensures ok && dst != src ==> src.cat == Taken(old(src.cat), old(mps.id))
    ensures ok && dst == src ==> dst.cat == old(dst.cat)
  {
    hide RbHead.Valid, StackSet.Valid, Accepted, Taken;
    Facts(src, mps);
    TakenExactly(src.cat, mps.id);
    dst.Own();
    src.Own();
    if dst == src {
      BackAgain(src.cat, mps.id);
    }
    label before:
    var _, _ := src.Leave(mps);
    assert dst != src ==> dst.Valid() == old@before(dst.Valid());
    label left:
    ok, to := dst.Accept(mps);
    assert ok && dst != src ==> src.Valid() == old@left(src.Valid());
  }

  /** What a listed stack says about the catalogue. */
  lemma Facts(src: StackSet, mps: Stack)
    requires src.Valid() && mps in src.listed
    ensures mps in src.entries && Leads(src.cat, mps.id) && src.cat.listed[mps.id] == mps.TraceKey()
    ensures src.cat.known[mps.TraceKey()] == Entry(mps.id, mps.count) && mps.id > 0
  {
    hide RbHead.Valid, StackSet.FramesHold, StackSet.IdsHold;
  }

  lemma TakenExactly(c: Catalogue, id: nat)
    requires Leads(c, id)
    ensures var key := c.listed[id];
            Taken(c, id) == if c.known[key].count > 1 then Uncounted(c, key)
                            else c.(known := c.known - {key}, listed := c.listed - {id})
  {
  }

  lemma CountHere(src: StackSet, mps: Stack)
    requires src.Valid() && mps in src.entries
    ensures mps.TraceKey() in src.cat.known && src.cat.known[mps.TraceKey()].count == mps.count > 0
  {
    hide RbHead.Valid, StackSet.FramesHold, StackSet.IdsHold;
  }

  /** Merging a stack that occurs more often (stack.c:333-348). */
  method Split(dst: StackSet, src: StackSet, mps: Stack) returns (to: Stack)
    requires dst.Valid() && src.Valid() && Compatible(dst, src) && mps in src.listed && mps.count > 1 &&
             mps.frames != []
    requires dst == src ==> Full(src.cat)
    modifies dst.repr, src.repr
    ensures dst.Valid() && src.Valid() && Compatible(dst, src) && Footprint(dst, src)
    ensures to in dst.entries && to.TraceKey() == mps.TraceKey()
    ensures dst != src ==> dst.cat == Added(old(dst.cat), mps.TraceKey(), old(mps.count))
    ensures dst != src ==> src.cat == Taken(old(src.cat), old(mps.id))
    ensures dst == src ==> dst.cat == old(dst.cat)
  {
    hide RbHead.Valid, StackSet.Valid, Added, Taken;
    Facts(src, mps);
    TakenExactly(src.cat, mps.id);
    dst.Own();
    src.Own();
    if dst == src {
      BackAgain(src.cat, mps.id);
    }
    label before:
    to := dst.Share(mps);
    assert dst != src ==> src.Valid() == old@before(src.Valid());
    CountHere(src, mps);
    label shared:
    src.SetCount(mps, mps.count - 1);
    assert dst != src ==> dst.Valid() == old@shared(dst.Valid());
  }

  /** mprofile_merge_stack (stack.c:288-352). It aborts, not `ok`, at the assertions of stack.c:297 and stack.c:319. */
  method MergeStack(dst: StackSet, src: StackSet, stackId: nat) returns (ok: bool, newMps: Stack?)
    requires dst.Valid() && src.Valid() && Compatible(dst, src) && Plain(src.cat) && (dst == src ==> Full(src.cat))
    modifies dst.repr, src.repr
    ensures ok <==> Leads(old(src.cat), stackId) && (dst != src ==> Received(old(dst.cat), old(src.cat), stackId).Some?)
    ensures ok ==> dst.Valid() && src.Valid() && Compatible(dst, src) && Plain(src.cat) && Footprint(dst, src)
    ensures ok ==> newMps != null && newMps in dst.entries && newMps.TraceKey() == old(src.cat).listed[stackId]
    ensures ok && dst != src ==> dst.cat == Received(old(dst.cat), old(src.cat), stackId).value
    ensures ok && dst != src ==> src.cat == Taken(old(src.cat), stackId)
    ensures ok && dst == src ==> dst.cat == old(dst.cat)
  {
    hide RbHead.Valid, StackSet.Valid, Plain, Accepted, Added, Full;
    var oldMps := src.Lookup(stackId);
    if oldMps == null {
      return false, null;
    }
    Facts(src, oldMps);
    SoundCat(src);
    TakenPlain(src.cat, stackId);
    if oldMps.count == 1 {
      ok, newMps := Move(dst, src, oldMps);
    } else {
      PlainHere(src.cat, oldMps.TraceKey());
      newMps := Split(dst, src, oldMps);
      ok := true;
    }
  }

  lemma SoundCat(src: StackSet)
    requires src.Valid()
    ensures Sound(src.cat)
  {
    hide RbHead.Valid, StackSet.FramesHold, StackSet.IdsHold;
  }

  lemma PlainHere(c: Catalogue, key: Key)
    requires Plain(c) && key in c.known && c.known[key].count != 1
    ensures key.frames != []
  {
  }

  // ---------------------------------------------------------------------------------
  // The records of one thread

  /** Both sets are in order, and what was asked for at the start of a drain is still asked for. */
  ghost predicate Mergeable(dst: StackSet, src: StackSet)
    reads dst, src, dst.repr, src.repr
  {
    dst.Valid() && src.Valid() && Compatible(dst, src) && Plain(src.cat) && (dst == src ==> Full(src.cat))
  }

  /** The ids of a thread lead to stacks of its set. */
  ghost predicate AllLead(c: Catalogue, ids: seq<nat>) {
    forall id <- ids :: id != 0 ==> Leads(c, id)
  }

  /** One record (record.c:563-568): its id in the destination. */
  method MergeOne(dst: StackSet, src: StackSet, id: nat) returns (ok: bool, newId: nat)
    requires Mergeable(dst, src)
    modifies dst.repr, src.repr
    ensures ok <==>
            id == 0 ||
            (Leads(old(src.cat), id) && (dst != src ==> Received(old(dst.cat), old(src.cat), id).Some?))
    ensures ok ==> Mergeable(dst, src) && Footprint(dst, src)
    ensures ok && (id == 0 || dst == src) ==> newId == id && dst.cat == old(dst.cat) && src.cat == old(src.cat)
    ensures ok && id != 0 && dst != src ==>
              && dst.cat == Received(old(dst.cat), old(src.cat), id).value && src.cat == Taken(old(src.cat), id)
              && newId == NewId(dst.cat, old(src.cat), id)
  {
    hide RbHead.Valid, StackSet.Valid, Plain, Accepted, Added, Received, Taken;
    if id == 0 {
      return true, 0;
    }
    newId := 0;
    var newMps;
    ok, newMps := MergeStack(dst, src, id);
    if ok {
      dst.Holds(newMps.TraceKey());
      newId := newMps.id;
    }
  }

  /** The records carry these stack ids. */
  ghost predicate Carry(recs: seq<Record>, ids: seq<nat>)
    reads recs`stackId
  {
    |recs| == |ids| && forall k :: 0 <= k < |recs| ==> recs[k].stackId == ids[k]
  }

  /** The set has nothing to do with these records. */
  ghost predicate Foreign(recs: seq<Record>, stset: StackSet)
    reads stset
  {
    forall mpr <- recs :: mpr !in stset.repr
  }

  /** The stack half of the loop over one thread's records (record.c:553-570): each record gets the id of its stack in
      the destination. Between different sets this is a drain; merging a set into itself changes nothing. */
  method MergeRecords(dst: StackSet, src: StackSet, recs: seq<Record>, ghost ids: seq<nat>)
    returns (ok: bool, ghost newIds: seq<nat>)
    requires Mergeable(dst, src) && Carry(recs, ids)
    requires TailQueue.NoDuplicates(recs) && Foreign(recs, dst) && Foreign(recs, src)
    modifies dst.repr, src.repr, recs`stackId
    ensures dst != src ==> (ok <==> Drain(old(dst.cat), old(src.cat), ids, []).Some?)
    ensures ok && dst != src ==> Drain(old(dst.cat), old(src.cat), ids, []) == Some(Outcome(dst.cat, src.cat, newIds))
    ensures dst == src ==> (ok <==> AllLead(old(src.cat), ids))
    ensures ok && dst == src ==> newIds == ids && dst.cat == old(dst.cat)
    ensures ok ==> Mergeable(dst, src) && Footprint(dst, src) && Carry(recs, newIds)
  {
    hide Mergeable, Received, Taken, Leads, NewId;
    newIds := [];
    for k := 0 to |recs|
      invariant Mergeable(dst, src) && Footprint(dst, src) && Foreign(recs, dst) && Foreign(recs, src)
      invariant |newIds| == k && forall i :: 0 <= i < k ==> recs[i].stackId == newIds[i]
      invariant forall i :: k <= i < |recs| ==> recs[i].stackId == ids[i]
      invariant dst != src ==> Drain(old(dst.cat), old(src.cat), ids, []) == Drain(dst.cat, src.cat, ids[k..], newIds)
      invariant dst == src ==> AllLead(dst.cat, ids[..k]) && newIds == ids[..k] && dst.cat == old(dst.cat)
    {
      assert ids[k..][0] == ids[k] && ids[k..][1..] == ids[k + 1..] && ids[..k + 1] == ids[..k] + [ids[k]];
      assert recs[k] in recs;
      var mpr := recs[k];
      var newId;
      ok, newId := MergeOne(dst, src, mpr.stackId);
      if !ok {
        return;
      }
      label merged:
      mpr.stackId := newId;
      assert Mergeable(dst, src) == old@merged(Mergeable(dst, src));
      newIds := newIds + [newId];
    }
    assert ids[..|ids|] == ids;
    ok := true;
  }

  // ---------------------------------------------------------------------------------
  // Destroying a set

  /** The elements still in the tree of frames, all of them in the tree of ids as well. */
  ghost predicate Tearing(stset: StackSet, rest: seq<Node<Key, Stack>>)
    reads stset, stset.repr
  {
    stset.Valid() && stset.listed == stset.entries.Keys && stset.byFrames.Contents() == rest
  }

  lemma InTree(tree: RbHead<Key, Stack>, s: seq<Node<Key, Stack>>)
    requires tree.Valid() && tree.Contents() == s
    ensures (forall n <- s :: n in tree.nodes) && (forall n <- tree.nodes :: n in s)
    ensures Ordering(tree.compare) && tree.Ascending(s)
  {
    tree.Elements();
    assert forall n <- s :: n in Elems(s);
  }

  function FirstElem(rest: seq<Node<Key, Stack>>): Stack? {
    if rest == [] then null else rest[0].elem
  }

  lemma FirstEntry(stset: StackSet, rest: seq<Node<Key, Stack>>)
    requires Tearing(stset, rest) && rest != []
    ensures rest[0].elem in stset.listed && rest[0].elem.rbe == rest[0]
    ensures rest == [] + [rest[0]] + rest[1..]
    ensures Ordering(stset.byFrames.compare) && stset.byFrames.Ascending(rest)
  {
    hide RbHead.Valid, StackSet.Valid, StackSet.FramesHold;
    stset.Holds(Key([], 0));
    EntryOf(stset, stset.entries.Keys, rest);
  }

  lemma EntryOf(stset: StackSet, all: set<Stack>, rest: seq<Node<Key, Stack>>)
    requires stset.FramesHold(all) && stset.byFrames.Contents() == rest
    ensures forall n <- rest :: n.elem in all && n.elem.rbe == n && n.key == n.elem.TraceKey()
    ensures forall s <- all :: s.rbe != null && s.rbe in rest
    ensures Ordering(stset.byFrames.compare) && stset.byFrames.Ascending(rest)
  {
    hide RbHead.Valid;
    InTree(stset.byFrames, rest);
  }

  /** The body of the loop of mprofile_destroy_stset (stack.c:231-233). */
  method TearOne(stset: StackSet, mps: Stack, ghost rest: seq<Node<Key, Stack>>)
    requires Tearing(stset, rest) && rest != [] && mps == rest[0].elem
    modifies stset.repr
    ensures Tearing(stset, rest[1..]) && stset.entries.Keys == old(stset.entries.Keys) - {mps}
    ensures stset.repr <= old(stset.repr)
  {
    hide RbHead.Valid, StackSet.Valid;
    FirstEntry(stset, rest);
    ghost var before, after := stset.Leave(mps);
    stset.byFrames.SameSplit(rest, rest[0], [], rest[1..], before, after);
    assert [] + rest[1..] == rest[1..];
  }

  ghost function AsSet(s: seq<Stack>): set<Stack> {
    set x | x in s
  }

  lemma AsSetMore(s: seq<Stack>, x: Stack)
    ensures AsSet(s + [x]) == AsSet(s) + {x}
    ensures forall i :: 0 <= i < |s| ==> s[i] in AsSet(s)
  {
  }

  /** mprofile_destroy_stset (stack.c:223-237): a walk through the tree of frames that removes and destroys every
      stack it visits, having looked up the next one before. */
  method DestroySet(stset: StackSet) returns (destroyed: seq<Stack>)
    requires stset.Valid() && stset.listed == stset.entries.Keys
    modifies stset.repr
    ensures stset.Valid() && stset.entries == map[] && stset.repr <= old(stset.repr)
    ensures AsSet(destroyed) == old(stset.entries.Keys) && forall i, j :: 0 <= i < j < |destroyed| ==>
            destroyed[i] != destroyed[j]
  {
    hide RbHead.Valid, StackSet.Valid;
    destroyed := [];
    ghost var rest := stset.byFrames.Contents();
    ghost var all := stset.entries.Keys;
    var n := MinStack(stset, rest);
    while n != null
      invariant Tearing(stset, rest) && n == FirstElem(rest)
      invariant AsSet(destroyed) == all - stset.entries.Keys && stset.entries.Keys <= all
      invariant forall i, j :: 0 <= i < j < |destroyed| ==> destroyed[i] != destroyed[j]
      invariant stset.repr <= old(stset.repr)
      decreases |rest|
    {
      var walk := NextStack(stset, n, rest);
      FirstEntry(stset, rest);
      TearOne(stset, n, rest);
      AsSetMore(destroyed, n);
      destroyed := destroyed + [n];
      n, rest := walk, rest[1..];
    }
    NothingLeft(stset);
  }

  /** RB_MIN, as in mprofile_get_next_stack (stack.c:246). */
  method MinStack(stset: StackSet, ghost rest: seq<Node<Key, Stack>>) returns (mps: Stack?)
    requires Tearing(stset, rest)
    ensures mps == FirstElem(rest)
  {
    hide RbHead.Valid;
    var n := stset.byFrames.Min();
    mps := if n == null then null else n.elem;
  }

  /** RB_NEXT, as in mprofile_get_next_stack (stack.c:248). */
  method NextStack(stset: StackSet, mps: Stack, ghost rest: seq<Node<Key, Stack>>) returns (walk: Stack?)
    requires rest != [] && mps == rest[0].elem && Tearing(stset, rest)
    ensures walk == FirstElem(rest[1..])
  {
    hide RbHead.Valid;
    FirstEntry(stset, rest);
    var n := stset.byFrames.Next(mps.rbe, [], rest[1..]);
    walk := if n == null then null else n.elem;
  }

  lemma NothingLeft(stset: StackSet)
    requires Tearing(stset, [])
    ensures stset.entries == map[]
  {
    hide RbHead.Valid;
    InTree(stset.byFrames, []);
    assert stset.entries.Keys == {};
  }

  // ---------------------------------------------------------------------------------
  // All threads

  /** The set of a thread whose records have not been merged yet. */
  ghost predicate Idle(stset: StackSet, thread: Thread)
    reads stset, stset.repr
  {
    stset.Valid() && stset.cat == thread.set' && Plain(thread.set') && Owed(thread.set', thread.ids)
  }

  /** The stack half of the loop body of mprofile_save (record.c:548-578): the records of one thread are merged, and
      its set is destroyed unless it is the master's. The sets of other threads stay as they are. */
  method MergeThread(dst: StackSet, src: StackSet, recs: seq<Record>, ghost ids: seq<nat>,
                     ghost rest: seq<StackSet>, ghost threads: seq<Thread>)
    returns (ok: bool, ghost newIds: seq<nat>)
    requires dst.Valid() && Idle(src, Thread(src.cat, ids)) && Compatible(dst, src)
    requires Carry(recs, ids) && TailQueue.NoDuplicates(recs) && Foreign(recs, dst) && Foreign(recs, src)
    requires |rest| == |threads| && forall t :: 0 <= t < |rest| ==> Idle(rest[t], threads[t])
    requires forall s <- rest :: s.repr !! dst.repr && s.repr !! src.repr && Foreign(recs, s)
    modifies dst.repr, src.repr, recs`stackId
    ensures dst != src ==> (ok <==> Drain(old(dst.cat), old(src.cat), ids, []).Some?)
    ensures ok && dst != src ==>
            var o := Drain(old(dst.cat), old(src.cat), ids, []).value; o.dst == dst.cat && o.newIds == newIds
    ensures dst == src ==> ok && newIds == ids && dst.cat == old(dst.cat)
    ensures ok ==> Carry(recs, newIds)
    ensures ok ==> dst.Valid() && forall o <- dst.repr :: o in old(dst.repr) || o in old(src.repr) || fresh(o)
    ensures forall t :: 0 <= t < |rest| ==> Idle(rest[t], threads[t])
    ensures forall s <- rest :: s.repr == old(s.repr)
  {
    hide RbHead.Valid, StackSet.Valid, Plain, Drain, Owed;
    dst.Own();
    src.Own();
    forall s <- rest
      ensures s in s.repr
    {
      var t :| 0 <= t < |rest| && rest[t] == s;
      assert Idle(rest[t], threads[t]);
      s.Own();
    }
    OwedLeads(src.cat, ids);
    label before:
    ok, newIds := MergeRecords(dst, src, recs, ids);
    if ok && dst != src {
      ghost var tail := DrainedIds(old(dst.cat), old(src.cat), ids, []);
      NoStack(src);
      dst.Own();
      label merged:
      var _ := DestroySet(src);
      assert dst.Valid() == old@merged(dst.Valid());
    }
    forall t | 0 <= t < |rest|
      ensures Idle(rest[t], threads[t])
    {
      assert rest[t] in rest;
      assert Idle(rest[t], threads[t]) == old@before(Idle(rest[t], threads[t]));
    }
  }

  lemma IdleHere(stset: StackSet, thread: Thread)
    requires Idle(stset, thread)
    ensures stset.Valid() && stset in stset.repr && stset.cat == thread.set'
  {
    hide RbHead.Valid;
  }

  lemma OwedLeads(c: Catalogue, ids: seq<nat>)
    requires Owed(c, ids)
    ensures AllLead(c, ids) && Full(c)
  {
  }

  lemma NoStack(src: StackSet)
    requires src.Valid() && src.cat.known == map[]
    ensures src.listed == src.entries.Keys
  {
    hide RbHead.Valid, StackSet.FramesHold, StackSet.IdsHold;
  }

  /** The records of all threads: none is in two of the lists, or twice in one. */
  ghost predicate Disjoint(recs: seq<seq<Record>>, all: set<Record>) {
    && (forall t :: 0 <= t < |recs| ==> TailQueue.NoDuplicates(recs[t]) && forall mpr <- recs[t] :: mpr in all)
    && (forall t, u :: 0 <= t < |recs| && 0 <= u < |recs| && t != u ==> NoneShared(recs[t], recs[u]))
  }

  ghost predicate NoneShared(a: seq<Record>, b: seq<Record>) {
    forall mpr <- a :: mpr !in b
  }

  /** The records of thread `t` carry the stack ids of that thread, and its set is the one that counts them. */
  ghost predicate Ready(stset: StackSet, recs: seq<Record>, thread: Thread)
    reads stset, stset.repr, recs`stackId
  {
    Idle(stset, thread) && Carry(recs, thread.ids)
  }

  lemma AmongAll(recs: seq<seq<Record>>, all: set<Record>, t: nat, stset: StackSet)
    requires Disjoint(recs, all) && t < |recs| && stset.repr !! all
    ensures TailQueue.NoDuplicates(recs[t]) && Foreign(recs[t], stset)
  {
  }

  /** All threads are ready to be merged, and their sets are apart from each other and from the records. */
  ghost predicate AllReady(sets: seq<StackSet>, recs: seq<seq<Record>>, threads: seq<Thread>, all: set<Record>)
    requires |sets| == |recs| == |threads|
    reads sets, set t, o | 0 <= t < |sets| && o in sets[t].repr :: o
    reads set t, k | 0 <= t < |recs| && 0 <= k < |recs[t]| :: recs[t][k]
  {
    && (forall t :: 0 <= t < |sets| ==> Ready(sets[t], recs[t], threads[t]) && sets[t].repr !! all)
    && (forall t, u :: 0 <= t < u < |sets| ==> sets[t].repr !! sets[u].repr)
  }

  /** The records of all threads carry these stack ids. */
  ghost predicate AllCarry(recs: seq<seq<Record>>, ids: seq<seq<nat>>)
    reads set t, k | 0 <= t < |recs| && 0 <= k < |recs[t]| :: recs[t][k]
  {
    |ids| == |recs| && forall t :: 0 <= t < |recs| ==> Carry(recs[t], ids[t])
  }

  /** The first `t` threads have their new ids, the others their own ones. */
  ghost predicate Given(given: seq<seq<nat>>, newIds: seq<seq<nat>>, threads: seq<Thread>, t: nat) {
    && |given| == |threads| && |newIds| == t <= |threads|
    && forall u :: 0 <= u < |threads| ==> given[u] == if u < t then newIds[u] else threads[u].ids
  }

  lemma GivenNext(given: seq<seq<nat>>, newIds: seq<seq<nat>>, threads: seq<Thread>, t: nat, ids: seq<nat>)
    requires Given(given, newIds, threads, t) && t < |threads|
    ensures |given| == |threads| && |newIds| == t && given[t] == threads[t].ids
    ensures Given(given[t := ids], newIds + [ids], threads, t + 1)
  {
  }

  lemma GivenLast(given: seq<seq<nat>>, newIds: seq<seq<nat>>, threads: seq<Thread>)
    requires Given(given, newIds, threads, |threads|)
    ensures given == newIds
  {
  }

  /** After `t` turns, the merge of all threads is that of the threads that are left. */
  ghost predicate Reached(threads: seq<Thread>, t: nat, c: Catalogue, newIds: seq<seq<nat>>)
    requires threads != []
  {
    t <= |threads| && DrainAll(threads[0].set', threads[1..], [threads[0].ids]) ==
                      DrainAll(c, threads[if t == 0 then 1 else t..], if t == 0 then [threads[0].ids] else newIds)
  }

  lemma ReachedFirst(threads: seq<Thread>)
    requires threads != []
    ensures Reached(threads, 0, threads[0].set', []) && Reached(threads, 1, threads[0].set', [] + [threads[0].ids])
  {
    assert [] + [threads[0].ids] == [threads[0].ids];
  }

  lemma ReachedNext(threads: seq<Thread>, t: nat, c: Catalogue, newIds: seq<seq<nat>>)
    requires 0 < t < |threads| && Reached(threads, t, c, newIds)
    ensures match Drain(c, threads[t].set', threads[t].ids, [])
            case None => DrainAll(threads[0].set', threads[1..], [threads[0].ids]).None?
            case Some(o) => Reached(threads, t + 1, o.dst, newIds + [o.newIds])
  {
    assert threads[t..][0] == threads[t] && threads[t..][1..] == threads[t + 1..];
  }

  lemma ReachedLast(threads: seq<Thread>, c: Catalogue, newIds: seq<seq<nat>>)
    requires threads != [] && Reached(threads, |threads|, c, newIds)
    ensures DrainAll(threads[0].set', threads[1..], [threads[0].ids]) == Some(Saved(c, newIds))
  {
  }

  /** From thread `t` on, the sets are still as the threads have left them, apart from each other, from the master's
      set and from all records. */
  ghost predicate Pending(sets: seq<StackSet>, threads: seq<Thread>, all: set<Record>, t: nat)
    requires 0 < |sets| == |threads|
    reads sets, set u, o | 0 <= u < |sets| && o in sets[u].repr :: o
  {
    && sets[0].Valid() && sets[0].repr !! all
    && (forall u :: t <= u < |sets| ==> Idle(sets[u], threads[u]) && sets[u].repr !! all)
    && (forall u :: t <= u < |sets| && u > 0 ==> sets[u].repr !! sets[0].repr)
    && (forall u, v :: t <= u < v < |sets| ==> sets[u].repr !! sets[v].repr)
  }

  /** One turn of the loop over all threads. The records of the other threads keep the stack ids that they have. */
  method MergeTurn(master: StackSet, sets: seq<StackSet>, recs: seq<seq<Record>>, t: nat,
                   ghost threads: seq<Thread>, ghost all: set<Record>, ghost given: seq<seq<nat>>)
    returns (ok: bool, ghost newIds: seq<nat>)
    requires t < |sets| == |recs| == |threads| == |given| && Disjoint(recs, all) && master == sets[0]
    requires Pending(sets, threads, all, t) && given[t] == threads[t].ids && AllCarry(recs, given)
    modifies master.repr, sets[t].repr, recs[t]`stackId
    ensures t > 0 ==> (ok <==> Drain(old(master.cat), threads[t].set', threads[t].ids, []).Some?)
    ensures ok && t > 0 ==>
            var o := Drain(old(master.cat), threads[t].set', threads[t].ids, []).value;
            o.dst == master.cat && o.newIds == newIds
    ensures t == 0 ==> ok && newIds == threads[0].ids && master.cat == threads[0].set'
    ensures ok ==> Pending(sets, threads, all, t + 1) && AllCarry(recs, given[t := newIds])
    ensures ok ==> forall o <- master.repr :: o in old(master.repr) || o in old(sets[t].repr) || fresh(o)
    ensures forall u :: t < u < |sets| ==> Idle(sets[u], threads[u]) && sets[u].repr == old(sets[u].repr)
  {
    hide RbHead.Valid, StackSet.Valid, Drain, Owed, Idle, Plain, Foreign, NoneShared, Disjoint;
    IdleHere(sets[t], threads[t]);
    master.Own();
    ghost var rest, more := sets[t + 1..], threads[t + 1..];
    AmongAll(recs, all, t, master);
    forall s | s == sets[t] || s in rest
      ensures Foreign(recs[t], s)
    {
      AmongAll(recs, all, t, s);
    }
    ghost var mine := master.repr + sets[t].repr;
    assert mine !! all;
    ok, newIds := MergeThread(master, sets[t], recs[t], threads[t].ids, rest, more);
    if ok {
      forall u | 0 <= u < |recs|
        ensures Carry(recs[u], given[t := newIds][u])
      {
        if u != t {
          Elsewhere(recs, all, t, u);
          assert forall mpr <- recs[u] :: mpr !in mine && mpr !in recs[t];
          forall k | 0 <= k < |recs[u]|
            ensures recs[u][k].stackId == given[u][k]
          {
            assert recs[u][k] in recs[u];
          }
        }
      }
    }
    forall u | t < u < |sets|
      ensures Idle(sets[u], threads[u]) && sets[u].repr == old(sets[u].repr)
    {
      assert sets[u] == rest[u - t - 1] && threads[u] == more[u - t - 1] && rest[u - t - 1] in rest;
    }
  }

  /** The stack half of the first loop of mprofile_save over all threads. The first one becomes the master, in whose
      set all stacks end up. */
  method MergeAll(sets: seq<StackSet>, recs: seq<seq<Record>>, ghost threads: seq<Thread>, ghost all: set<Record>)
    returns (ok: bool, ghost newIds: seq<seq<nat>>)
    requires 0 < |sets| == |recs| == |threads| && Disjoint(recs, all) && AllReady(sets, recs, threads, all)
    modifies set t, o | 0 <= t < |sets| && o in sets[t].repr :: o
    modifies all`stackId
    ensures ok <==> DrainAll(threads[0].set', threads[1..], [threads[0].ids]).Some?
    ensures ok ==>
            sets[0].Valid() &&
            DrainAll(threads[0].set', threads[1..], [threads[0].ids]) == Some(Saved(sets[0].cat, newIds))
    ensures ok ==> |newIds| == |recs| && forall t :: 0 <= t < |recs| ==> Carry(recs[t], newIds[t])
    ensures ok ==> forall o <- sets[0].repr :: fresh(o) || exists u :: 0 <= u < |sets| && o in old(sets[u].repr)
  {
    hide StackSet.Valid, Drain, DrainAll, Carry, AllReady, Disjoint, Reached, Given, Pending;
    var master := sets[0];
    newIds := [];
    ghost var given := seq(|threads|, t requires 0 <= t < |threads| => threads[t].ids);
    ghost var begin: set<object> := set t, o | 0 <= t < |sets| && o in sets[t].repr :: o;
    AllGiven(sets, recs, threads, given, all);
    ReachedFirst(threads);
    for t := 0 to |sets|
      invariant Pending(sets, threads, all, t) && forall o <- master.repr :: fresh(o) || o in begin
      invariant forall u :: t <= u < |sets| ==> sets[u].repr == old(sets[u].repr)
      invariant Given(given, newIds, threads, t) && AllCarry(recs, given)
      invariant Reached(threads, t, master.cat, newIds)
    {
      AllAmong(recs, all, t);
      if t > 0 {
        ReachedNext(threads, t, master.cat, newIds);
      }
      GivenNext(given, newIds, threads, t, []);
      ghost var ids;
      ok, ids := MergeTurn(master, sets, recs, t, threads, all, given);
      if !ok {
        return;
      }
      GivenNext(given, newIds, threads, t, ids);
      newIds := newIds + [ids];
      given := given[t := ids];
    }
    ReachedLast(threads, master.cat, newIds);
    PendingLast(sets, threads, all);
    GivenLast(given, newIds, threads);
    ok := true;
  }

  lemma AllGiven(sets: seq<StackSet>, recs: seq<seq<Record>>, threads: seq<Thread>, given: seq<seq<nat>>,
                 all: set<Record>)
    requires 0 < |sets| == |recs| == |threads| == |given|
    requires AllReady(sets, recs, threads, all)
    requires forall t :: 0 <= t < |sets| ==> given[t] == threads[t].ids
    ensures Pending(sets, threads, all, 0) && sets[0].cat == threads[0].set'
    ensures AllCarry(recs, given) && Given(given, [], threads, 0)
  {
    hide StackSet.Valid;
    IdleHere(sets[0], threads[0]);
  }

  lemma PendingLast(sets: seq<StackSet>, threads: seq<Thread>, all: set<Record>)
    requires 0 < |sets| == |threads| && Pending(sets, threads, all, |sets|)
    ensures sets[0].Valid()
  {
  }

  lemma AllAmong(recs: seq<seq<Record>>, all: set<Record>, t: nat)
    requires Disjoint(recs, all) && t < |recs|
    ensures forall mpr <- recs[t] :: mpr in all
  {
  }

  lemma Elsewhere(recs: seq<seq<Record>>, all: set<Record>, t: nat, u: nat)
    requires Disjoint(recs, all) && t < |recs| && u < |recs| && t != u
    ensures forall mpr <- recs[u] :: mpr in all && mpr !in recs[t]
  {
    assert NoneShared(recs[u], recs[t]);
  }

  // ---------------------------------------------------------------------------------
  // A thread that records

  /** The frames are pushed into a buffer that is large enough. */
  method Collect(frames: Frames, front: nat) returns (buf: Buffer)
    ensures fresh(buf) && fresh(buf.stack) && buf.Valid() && buf.Collected() == frames && buf.front == front
  {
    buf := new Buffer(|frames|, front);
    for i := 0 to |frames|
      invariant buf.Valid() && buf.depth == i && buf.Collected() == frames[..i]
    {
      buf.PushFrame(frames[i]);
    }
  }

  /** What a thread has recorded so far: its set, and its records with their stack ids. */
  ghost predicate Recording(stset: StackSet, recs: seq<Record>, added: seq<Key>)
    reads stset, stset.repr, recs`stackId
  {
    && stset.Valid() && stset.cat == Recorded(added) && Canonical(added) && Carry(recs, RecordIds(added))
    && TailQueue.NoDuplicates(recs) && Foreign(recs, stset)
  }

  /** A new record gets the id of its stack (record.c:333-340). */
  method RecordOne(mpr: Record, key: Key, stset: StackSet, ghost recs: seq<Record>, ghost added: seq<Key>)
    requires Recording(stset, recs, added) && KeyOf(key.frames, key.front) == key
    requires key.frames == [] ==> key !in Recorded(added).known
    requires mpr !in recs && mpr !in stset.repr
    modifies stset.repr, mpr`stackId
    ensures Recording(stset, recs + [mpr], added + [key])
    ensures forall o <- stset.repr :: o in old(stset.repr) || fresh(o)
  {
    hide RbHead.Valid, StackSet.Valid, Recorded, RecordIds, Canonical;
    stset.Own();
    label before:
    var buf := Collect(key.frames, key.front);
    assert stset.Valid() == old@before(stset.Valid());
    label made:
    var id := stset.RecordStack(buf, key.front, added);
    assert Carry(recs, RecordIds(added)) == old@made(Carry(recs, RecordIds(added)));
    label recorded:
    mpr.stackId := id;
    assert stset.Valid() == old@recorded(stset.Valid());
    assert Carry(recs, RecordIds(added)) == old@recorded(Carry(recs, RecordIds(added)));
  }

  /** A thread makes these records with these stacks, one after the other, in a new set. */
  method RecordThread(ops: seq<Op>, added: seq<Key>) returns (stset: StackSet, recs: seq<Record>)
    requires |ops| == |added| && Canonical(added) && EmptiesOnce(added)
    ensures fresh(stset.repr) && stset in stset.repr && Foreign(recs, stset) && fresh(recs) &&
            TailQueue.NoDuplicates(recs)
    ensures Ready(stset, recs, Thread(Recorded(added), RecordIds(added)))
    ensures |recs| == |ops| && forall i :: 0 <= i < |recs| ==> recs[i].op == ops[i]
  {
    hide RbHead.Valid, StackSet.Valid, Recorded, RecordIds, Canonical;
    stset := new StackSet();
    recs := [];
    NothingYet();
    for i := 0 to |added|
      invariant Recording(stset, recs, added[..i]) && fresh(stset.repr) && fresh(recs)
      invariant |recs| == i && forall k :: 0 <= k < i ==> recs[k].op == ops[k]
    {
      Prefix(added, i);
      label before:
      var mpr := new Record(ops[i]);
      assert Recording(stset, recs, added[..i]) == old@before(Recording(stset, recs, added[..i]));
      RecordOne(mpr, added[i], stset, recs, added[..i]);
      recs := recs + [mpr];
    }
    assert added[..|added|] == added;
    stset.Own();
    RecordedReady(stset, recs, added);
  }

  lemma RecordedReady(stset: StackSet, recs: seq<Record>, added: seq<Key>)
    requires Recording(stset, recs, added) && EmptiesOnce(added)
    ensures Ready(stset, recs, Thread(Recorded(added), RecordIds(added)))
  {
    hide RbHead.Valid, StackSet.Valid;
    RecordedIsOwed(added);
    RecordedPlain(added);
  }

  lemma NothingYet()
    ensures Recorded([]) == EMPTY && RecordIds([]) == [] && Canonical([])
  {
  }

  lemma Prefix(added: seq<Key>, i: nat)
    requires Canonical(added) && EmptiesOnce(added) && i < |added|
    ensures added[..i + 1] == added[..i] + [added[i]] && KeyOf(added[i].frames, added[i].front) == added[i]
    ensures added[i].frames == [] ==> added[i] !in Recorded(added[..i]).known
  {
    assert added[i] in added;
    assert Canonical(added[..i]) by {
      assert forall key <- added[..i] :: key in added;
    }
    RecordedTallies(added[..i]);
  }
}
