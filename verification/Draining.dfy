/** Merging whole stack sets: what becomes of ids and counts when the records of a thread are drained into the
    set of the master, one after the other. */
module Draining {
  import opened Catalogues

  /** The outcome of a drain: both sets, and the new ids of the records. */
  datatype Outcome = Outcome(dst: Catalogue, src: Catalogue, newIds: seq<nat>)

  /** The id in the source leads to a stack there. */
  ghost predicate Leads(src: Catalogue, id: nat) {
    id in src.listed && src.listed[id] in src.known && src.known[src.listed[id]].count > 0
  }

  /** The loop over the stack ids of one thread's records (record.c:553-570); 0 stands for a record without stack.
      `newIds` are the ids found so far. None where the program aborts. */
  ghost function Drain(dst: Catalogue, src: Catalogue, ids: seq<nat>, newIds: seq<nat>): Option<Outcome>
    decreases |ids|
  {
    if ids == [] then Some(Outcome(dst, src, newIds))
    else if ids[0] == 0 then Drain(dst, src, ids[1..], newIds + [0])
    else if !Leads(src, ids[0]) then None
    else
      var d := Received(dst, src, ids[0]);
      if d.None? then None
      else Drain(d.value, Taken(src, ids[0]), ids[1..], newIds + [NewId(d.value, src, ids[0])])
  }

  ghost function NewId(d: Catalogue, src: Catalogue, id: nat): nat
    requires id in src.listed
  {
    if src.listed[id] in d.known then d.known[src.listed[id]].id else 0
  }

  ghost function Occurrences(ids: seq<nat>, id: nat): nat {
    multiset(ids)[id]
  }

  /** The source counts exactly the records that are still to be merged. */
  ghost predicate Owed(src: Catalogue, ids: seq<nat>) {
    && Full(src)
    && (forall key <- src.known :: src.known[key].count == Occurrences(ids, src.known[key].id))
    && (forall id <- ids :: id != 0 ==> id in src.listed)
  }

  lemma FirstOf(ids: seq<nat>, x: nat)
    requires ids != []
    ensures Occurrences(ids, x) == Occurrences(ids[1..], x) + if ids[0] == x then 1 else 0
  {
    assert ids == [ids[0]] + ids[1..];
  }

  lemma FullTake(src: Catalogue, id: nat)
    requires Full(src) && id in src.listed
    ensures Full(Taken(src, id))
    ensures forall i <- Taken(src, id).listed :: i in src.listed && Taken(src, id).listed[i] == src.listed[i]
  {
  }

  /** Merging the first record leaves a source that counts the others. */
  lemma OwedRest(src: Catalogue, ids: seq<nat>)
    requires ids != [] && Owed(src, ids)
    ensures ids[0] == 0 ==> Owed(src, ids[1..])
    ensures ids[0] != 0 ==> Leads(src, ids[0]) && Owed(Taken(src, ids[0]), ids[1..])
  {
    var rest := ids[1..];
    assert forall id <- rest :: id in ids;
    forall key <- src.known
      ensures Occurrences(ids, src.known[key].id) ==
              Occurrences(rest, src.known[key].id) + if ids[0] == src.known[key].id then 1 else 0
    {
      FirstOf(ids, src.known[key].id);
    }
    if ids[0] != 0 {
      FullTake(src, ids[0]);
      var s := Taken(src, ids[0]);
      forall id <- rest | id != 0
        ensures id in s.listed
      {
        assert id in multiset(rest);
      }
    }
  }

  /** When all records are merged, nothing is left in the source. */
  lemma NothingOwed(src: Catalogue)
    requires Owed(src, [])
    ensures src.known == map[] && src.listed == map[]
  {
    assert forall key :: key !in src.known;
  }

  // ---------------------------------------------------------------------------------
  // From recording to merging

  /** A stack without frames is recorded once. */
  ghost predicate EmptiesOnce(added: seq<Key>) {
    forall i, j :: 0 <= i < j < |added| && added[i].frames == [] ==> added[i] != added[j]
  }

  /** Stacks without frames occur once. */
  ghost predicate Plain(c: Catalogue) {
    forall key <- c.known :: key.frames == [] ==> c.known[key].count == 1
  }

  /** The ids of the records lead to the stacks they were recorded with. */
  ghost predicate LeadBack(c: Catalogue, added: seq<Key>, ids: seq<nat>) {
    |ids| == |added| && forall i :: 0 <= i < |added| ==>
      ids[i] != 0 && ids[i] in c.listed && c.listed[ids[i]] == added[i]
  }

  lemma OneMoreId(ids: seq<nat>, id: nat, x: nat)
    ensures Occurrences(ids + [id], x) == Occurrences(ids, x) + if x == id then 1 else 0
  {
  }

  lemma AddedKeepsListed(c: Catalogue, key: Key)
    requires Dense(c) && (key.frames != [] ==> key.front == 0)
    ensures var d := Added(c, key, 1);
            && Dense(d) && key in d.known && d.known[key].id in d.listed && d.listed[d.known[key].id] == key
            && forall i <- c.listed :: i in d.listed && d.listed[i] == c.listed[i]
  {
    DenseAdd(c, key, 1);
  }

  lemma AddedEntry(c: Catalogue, key: Key)
    requires Dense(c)
    ensures var d := Added(c, key, 1);
      && d.known.Keys == c.known.Keys + {key} && (forall k <- c.known :: k != key ==> d.known[k] == c.known[k])
      && (key in c.known ==> d.known[key] == Entry(c.known[key].id, c.known[key].count + 1))
      && (key !in c.known ==> d.known[key] == Entry(c.next, 1) && c.next > 0 && c.next !in c.listed)
  {
  }

  lemma OwedMore(c: Catalogue, key: Key, ids: seq<nat>)
    requires Dense(c) && Owed(c, ids) && (key.frames != [] ==> key.front == 0)
    ensures key in Added(c, key, 1).known && Owed(Added(c, key, 1), ids + [Added(c, key, 1).known[key].id])
  {
    AddedKeepsListed(c, key);
    AddedEntry(c, key);
    hide Added;
    var d := Added(c, key, 1);
    var id := d.known[key].id;
    assert key !in c.known ==> id !in ids && id !in multiset(ids);
    forall k <- d.known
      ensures d.known[k].count == Occurrences(ids + [id], d.known[k].id)
    {
      OneMoreId(ids, id, d.known[k].id);
    }
  }

  lemma LeadBackMore(c: Catalogue, key: Key, front: seq<Key>, ids: seq<nat>)
    requires Dense(c) && (key.frames != [] ==> key.front == 0) && LeadBack(c, front, ids)
    ensures key in Added(c, key, 1).known &&
            LeadBack(Added(c, key, 1), front + [key], ids + [Added(c, key, 1).known[key].id])
  {
    hide Added;
    AddedKeepsListed(c, key);
  }

  lemma CanonicalFront(front: seq<Key>, key: Key)
    requires Canonical(front + [key])
    ensures Canonical(front) && (key.frames != [] ==> key.front == 0)
  {
    var added := front + [key];
    assert forall k <- front :: k in added;
    assert key in added;
  }

  /** After a thread has recorded stacks, its set counts exactly its records, and their ids lead back to them. */
  lemma {:induction false} RecordedIsOwed(added: seq<Key>)
    requires Canonical(added)
    ensures var c := Recorded(added); Dense(c) && Owed(c, RecordIds(added)) && LeadBack(c, added, RecordIds(added))
  {
    hide Dense, Owed, Added, LeadBack, Canonical;
    if added == [] {
      NothingRecorded();
    } else {
      var front, key := added[..|added| - 1], added[|added| - 1];
      assert added == front + [key];
      CanonicalFront(front, key);
      RecordedIsOwed(front);
      RecordedMore(front, key);
      AddedKeepsListed(Recorded(front), key);
      OwedMore(Recorded(front), key, RecordIds(front));
      LeadBackMore(Recorded(front), key, front, RecordIds(front));
    }
  }

  lemma NothingRecorded()
    ensures Dense(EMPTY) && Owed(EMPTY, []) && LeadBack(EMPTY, [], [])
  {
  }

  lemma RecordedPlain(added: seq<Key>)
    requires Canonical(added) && EmptiesOnce(added)
    ensures Plain(Recorded(added))
  {
    RecordedTallies(added);
    forall key <- Recorded(added).known | key.frames == []
      ensures Recorded(added).known[key].count == 1
    {
      OnlyOnce(added, key);
    }
  }

  lemma OnlyOnce(added: seq<Key>, key: Key)
    requires EmptiesOnce(added) && key in added && key.frames == []
    ensures multiset(added)[key] == 1
  {
    var i :| 0 <= i < |added| && added[i] == key;
    assert added == added[..i] + [key] + added[i + 1..];
    assert key !in added[..i] && key !in added[i + 1..];
  }

  // ---------------------------------------------------------------------------------
  // What a step does to the destination

  /** No stack that the destination knows gets another id. */
  ghost predicate KeepsIds(dst: Catalogue, d: Catalogue) {
    && dst.next <= d.next
    && forall key <- dst.known :: key in d.known && d.known[key].id == dst.known[key].id
  }

  lemma ReceiveKeeps(dst: Catalogue, src: Catalogue, id: nat)
    requires Leads(src, id) && Received(dst, src, id).Some?
    ensures KeepsIds(dst, Received(dst, src, id).value) && src.listed[id] in Received(dst, src, id).value.known
  {
  }

  /** The new id of a record is the id of its stack in the destination. */
  ghost predicate Renamed(dst: Catalogue, src: Catalogue, id: nat, newId: nat) {
    if id == 0 then newId == 0
    else id in src.listed && src.listed[id] in dst.known && newId == dst.known[src.listed[id]].id
  }

  ghost predicate AllRenamed(dst: Catalogue, src: Catalogue, ids: seq<nat>, newIds: seq<nat>) {
    |newIds| == |ids| && forall j :: 0 <= j < |ids| ==> Renamed(dst, src, ids[j], newIds[j])
  }

  lemma RenamedOneMore(d: Catalogue, o: Catalogue, src: Catalogue, src': Catalogue, ids: seq<nat>, tail: seq<nat>,
                       newId: nat)
    requires ids != [] && AllRenamed(o, src', ids[1..], tail) && Renamed(d, src, ids[0], newId) && KeepsIds(d, o)
    requires forall i <- src'.listed :: i in src.listed && src'.listed[i] == src.listed[i]
    ensures AllRenamed(o, src, ids, [newId] + tail)
  {
    var newIds := [newId] + tail;
    forall j | 0 <= j < |ids|
      ensures Renamed(o, src, ids[j], newIds[j])
    {
      if j > 0 {
        assert ids[1..][j - 1] == ids[j] && newIds[j] == tail[j - 1];
        assert Renamed(o, src', ids[1..][j - 1], tail[j - 1]);
      }
    }
  }

  /** Every new id is the id that the stack of the record has in the end, and the source ends up empty. */
  lemma {:induction false} DrainedIds(dst: Catalogue, src: Catalogue, ids: seq<nat>, newIds: seq<nat>)
    returns (tail: seq<nat>)
    requires Owed(src, ids) && Drain(dst, src, ids, newIds).Some?
    ensures var o := Drain(dst, src, ids, newIds).value;
      && o.src.known == map[] && o.src.listed == map[] && KeepsIds(dst, o.dst)
      && o.newIds == newIds + tail && AllRenamed(o.dst, src, ids, tail)
    decreases |ids|
  {
    hide Received, Taken, Owed, Full;
    var o := Drain(dst, src, ids, newIds).value;
    if ids == [] {
      NothingOwed(src);
      tail := [];
    } else {
      OwedRest(src, ids);
      var d, s, newId := dst, src, 0;
      if ids[0] != 0 {
        d, s := Received(dst, src, ids[0]).value, Taken(src, ids[0]);
        newId := NewId(d, src, ids[0]);
        ReceiveKeeps(dst, src, ids[0]);
        OwedFull(src, ids);
        FullTake(src, ids[0]);
      }
      tail := DrainedIds(d, s, ids[1..], newIds + [newId]);
      RenamedOneMore(d, o.dst, src, s, ids, tail, newId);
      tail := [newId] + tail;
    }
  }

  lemma OwedFull(src: Catalogue, ids: seq<nat>)
    requires Owed(src, ids)
    ensures Full(src)
  {
  }

  // ---------------------------------------------------------------------------------
  // Counts

  ghost function CountOf(c: Catalogue, key: Key): nat {
    if key in c.known then c.known[key].count else 0
  }

  /** The count in the destination after `n` records of a stack have been merged. */
  ghost function MergedCount(dst: Catalogue, key: Key, n: nat): nat {
    if n == 0 || key in dst.known || n == 1 then CountOf(dst, key) + n else 2 * n - 1
  }

  lemma CountStep(dst: Catalogue, src: Catalogue, id: nat, key: Key)
    requires Full(src) && id in src.listed && Received(dst, src, id).Some?
    ensures MergedCount(Received(dst, src, id).value, key, CountOf(Taken(src, id), key)) ==
            MergedCount(dst, key, CountOf(src, key))
  {
  }

  lemma {:induction false} DrainedCounts(dst: Catalogue, src: Catalogue, ids: seq<nat>, newIds: seq<nat>, key: Key)
    requires Owed(src, ids) && Drain(dst, src, ids, newIds).Some?
    ensures CountOf(Drain(dst, src, ids, newIds).value.dst, key) == MergedCount(dst, key, CountOf(src, key))
    decreases |ids|
  {
    if ids == [] {
      NothingOwed(src);
    } else {
      OwedRest(src, ids);
      if ids[0] == 0 {
        DrainedCounts(dst, src, ids[1..], newIds + [0], key);
      } else {
        CountStep(dst, src, ids[0], key);
        DrainedCounts(Received(dst, src, ids[0]).value, Taken(src, ids[0]), ids[1..],
                      newIds + [NewId(Received(dst, src, ids[0]).value, src, ids[0])], key);
      }
    }
  }

  /** The count of a stack that `n` records of the thread have, `n > 0`, grows by `n` exactly if the destination
      knew the stack before or `n` is 1; otherwise it ends up as 2n - 1. */
  lemma CountsExactly(dst: Catalogue, src: Catalogue, ids: seq<nat>, key: Key)
    requires Owed(src, ids) && Drain(dst, src, ids, []).Some? && key in src.known
    ensures var n := Occurrences(ids, src.known[key].id); var count := CountOf(Drain(dst, src, ids, []).value.dst, key);
      && n > 0
      && (count == CountOf(dst, key) + n <==> key in dst.known || n == 1)
      && (key !in dst.known ==> count == 2 * n - 1)
  {
    DrainedCounts(dst, src, ids, [], key);
  }

  /** The master has recorded the stack [2], a thread the stack [1] twice: in the end [1] counts three times. */
  lemma CountedThrice()
    ensures var key, own := KeyOf([1], 0), KeyOf([2], 0);
            var o := Drain(Recorded([own]), Recorded([key, key]), [1, 1], []);
            o.Some? && o.value.newIds == [2, 2] && o.value.dst.known == map[own := Entry(1, 1), key := Entry(2, 3)]
  {
    var key, own := KeyOf([1], 0), KeyOf([2], 0);
    var src := Recorded([key, key]);
    assert [key, key][..1] == [key] && [key][..0] == [] && [own][..0] == [];
    assert Recorded([own]) == Catalogue(2, map[own := Entry(1, 1)], map[1 := own]);
    assert Recorded([key]) == Catalogue(2, map[key := Entry(1, 1)], map[1 := key]);
    assert src == Catalogue(2, map[key := Entry(1, 2)], map[1 := key]);
    var d := Received(Recorded([own]), src, 1).value;
    assert d == Catalogue(3, map[own := Entry(1, 1), key := Entry(2, 2)], map[1 := own, 2 := key]);
    var s := Taken(src, 1);
    assert s == Catalogue(2, map[key := Entry(1, 1)], map[1 := key]);
    var d' := Received(d, s, 1).value;
    assert d'.known == map[own := Entry(1, 1), key := Entry(2, 3)];
    assert [1, 1][1..] == [1] && [1][1..] == [] && [] + [2] == [2] && [2] + [2] == [2, 2];
    assert Drain(d', Taken(s, 1), [], [2, 2]) == Some(Outcome(d', Taken(s, 1), [2, 2]));
    assert Drain(d, s, [1], [2]) == Drain(d', Taken(s, 1), [], [2, 2]);
  }

  // ---------------------------------------------------------------------------------
  // Ids

  /** Where a drain leads that keeps the ids dense; Stuck if one of its records spoils them. */
  datatype Plan = Stuck | Going(next: nat, known: set<Key>)

  /** Told from the ids, the counts in the source, and what the destination knows before: the ids stay dense if
      every stack that occurs once and is not known yet has an id below the next id of the destination. */
  ghost function PlanOf(next: nat, known: set<Key>, src: Catalogue, ids: seq<nat>): Plan
    decreases |ids|
  {
    if ids == [] then Going(next, known)
    else if ids[0] == 0 then PlanOf(next, known, src, ids[1..])
    else if !Leads(src, ids[0]) then Stuck
    else
      var key, count := src.listed[ids[0]], src.known[src.listed[ids[0]]].count;
      if key in known then PlanOf(next, known, Taken(src, ids[0]), ids[1..])
      else if count == 1 && ids[0] >= next then Stuck
      else PlanOf(next + 1, known + {key}, Taken(src, ids[0]), ids[1..])
  }

  /** An id that was not given out yet is in use, or one id is used twice. */
  ghost predicate Broken(c: Catalogue) {
    || (exists key <- c.known :: c.known[key].id >= c.next)
    || (exists key <- c.known, k <- c.known :: key != k && c.known[key].id == c.known[k].id)
  }

  lemma BrokenIsNotDense(c: Catalogue)
    requires Broken(c)
    ensures !Dense(c)
  {
  }

  lemma BrokenAdd(c: Catalogue, key: Key, n: nat)
    requires Broken(c)
    ensures Broken(Added(c, key, n))
  {
    var d := Added(c, key, n);
    assert forall k <- c.known :: k in d.known && d.known[k].id == c.known[k].id;
    if key !in c.known {
      assert d.known[key].id == c.next;
    }
  }

  lemma BrokenStays(dst: Catalogue, src: Catalogue, id: nat)
    requires Broken(dst) && Leads(src, id) && Received(dst, src, id).Some?
    ensures Broken(Received(dst, src, id).value)
  {
    var key, d := src.listed[id], Received(dst, src, id).value;
    BrokenAdd(dst, key, src.known[key].count);
    BrokenAdd(dst, key, 1);
    assert forall k <- dst.known :: k in d.known && d.known[k].id == dst.known[k].id;
  }

  lemma {:induction false} BrokenDrain(dst: Catalogue, src: Catalogue, ids: seq<nat>, newIds: seq<nat>)
    requires Broken(dst) && Drain(dst, src, ids, newIds).Some?
    ensures Broken(Drain(dst, src, ids, newIds).value.dst)
    decreases |ids|
  {
    hide Broken, Received, Taken;
    if ids != [] {
      if ids[0] == 0 {
        BrokenDrain(dst, src, ids[1..], newIds + [0]);
      } else {
        BrokenStays(dst, src, ids[0]);
        var d := Received(dst, src, ids[0]).value;
        BrokenDrain(d, Taken(src, ids[0]), ids[1..], newIds + [NewId(d, src, ids[0])]);
      }
    }
  }

  lemma ReceiveCases(dst: Catalogue, src: Catalogue, id: nat)
    requires Dense(dst) && Full(src) && id in src.listed
    ensures var key := src.listed[id]; var d := Received(dst, src, id);
      && d.Some?
      && (key in dst.known ==> Dense(d.value) && d.value.next == dst.next && d.value.known.Keys == dst.known.Keys)
      && (key !in dst.known ==> d.value.known.Keys == dst.known.Keys + {key})
      && (key !in dst.known && (src.known[key].count > 1 || id < dst.next) ==>
          Dense(d.value) && d.value.next == dst.next + 1)
      && (key !in dst.known && src.known[key].count == 1 && id >= dst.next ==> Broken(d.value))
  {
    var key := src.listed[id];
    DenseAdd(dst, key, src.known[key].count);
    DenseAdd(dst, key, 1);
    var d := Received(dst, src, id).value;
    assert key in d.known;
  }

  /** One record spoils the ids exactly if its stack is new, occurs once and has an id not below the next one. */
  lemma DenseReceive(dst: Catalogue, src: Catalogue, id: nat)
    requires Dense(dst) && Full(src) && id in src.listed
    ensures var key := src.listed[id]; var d := Received(dst, src, id);
      && d.Some?
      && (key in dst.known ==> Dense(d.value) && d.value.next == dst.next && d.value.known.Keys == dst.known.Keys)
      && (key !in dst.known ==> d.value.known.Keys == dst.known.Keys + {key})
      && (key !in dst.known && (src.known[key].count > 1 || id < dst.next) ==>
          Dense(d.value) && d.value.next == dst.next + 1)
      && (key !in dst.known && src.known[key].count == 1 && id >= dst.next ==> Broken(d.value) && !Dense(d.value))
  {
    hide Dense, Broken, Received;
    ReceiveCases(dst, src, id);
    var d := Received(dst, src, id).value;
    if Broken(d) {
      BrokenIsNotDense(d);
    }
  }

  /** A drain succeeds and leaves dense ids exactly if its plan does not get stuck. */
  lemma {:induction false} DenseExactly(dst: Catalogue, src: Catalogue, ids: seq<nat>, newIds: seq<nat>)
    requires Dense(dst) && Owed(src, ids)
    ensures var o := Drain(dst, src, ids, newIds); var plan := PlanOf(dst.next, dst.known.Keys, src, ids);
      && (o.Some? && Dense(o.value.dst) <==> plan.Going?)
      && (plan.Going? ==> plan == Going(o.value.dst.next, o.value.dst.known.Keys))
    decreases |ids|
  {
    hide Received, Taken, Owed, Full, Dense, Broken;
    if ids != [] {
      OwedRest(src, ids);
      if ids[0] == 0 {
        DenseExactly(dst, src, ids[1..], newIds + [0]);
      } else {
        OwedFull(src, ids);
        DenseReceive(dst, src, ids[0]);
        var d := Received(dst, src, ids[0]).value;
        var s, more := Taken(src, ids[0]), newIds + [NewId(d, src, ids[0])];
        if Dense(d) {
          DenseExactly(d, s, ids[1..], more);
        } else if Drain(d, s, ids[1..], more).Some? {
          BrokenDrain(d, s, ids[1..], more);
          BrokenIsNotDense(Drain(d, s, ids[1..], more).value.dst);
        }
        if Broken(d) {
          BrokenIsNotDense(d);
        }
      }
    }
  }

  // ---------------------------------------------------------------------------------
  // All threads

  /** The set of a thread and the stack ids of its records. */
  datatype Thread = Thread(set': Catalogue, ids: seq<nat>)

  datatype Saved = Saved(dst: Catalogue, newIds: seq<seq<nat>>)

  /** The first loop of mprofile_save over the threads but the first one, whose set is the destination. */
  ghost function DrainAll(dst: Catalogue, threads: seq<Thread>, newIds: seq<seq<nat>>): Option<Saved>
    decreases |threads|
  {
    if threads == [] then Some(Saved(dst, newIds))
    else
      var o := Drain(dst, threads[0].set', threads[0].ids, []);
      if o.None? then None else DrainAll(o.value.dst, threads[1..], newIds + [o.value.newIds])
  }

  ghost function PlanAll(next: nat, known: set<Key>, threads: seq<Thread>): Plan
    decreases |threads|
  {
    if threads == [] then Going(next, known)
    else
      var plan := PlanOf(next, known, threads[0].set', threads[0].ids);
      if plan.Stuck? then Stuck else PlanAll(plan.next, plan.known, threads[1..])
  }

  ghost predicate AllOwed(threads: seq<Thread>) {
    forall t <- threads :: Owed(t.set', t.ids)
  }

  lemma KeepsIdsOn(a: Catalogue, b: Catalogue, c: Catalogue)
    requires KeepsIds(a, b) && KeepsIds(b, c)
    ensures KeepsIds(a, c)
  {
  }

  lemma StillRenamed(a: Catalogue, b: Catalogue, src: Catalogue, ids: seq<nat>, newIds: seq<nat>)
    requires AllRenamed(a, src, ids, newIds) && KeepsIds(a, b)
    ensures AllRenamed(b, src, ids, newIds)
  {
    forall j | 0 <= j < |ids|
      ensures Renamed(b, src, ids[j], newIds[j])
    {
      assert Renamed(a, src, ids[j], newIds[j]);
    }
  }

  ghost predicate ThreadsRenamed(dst: Catalogue, threads: seq<Thread>, newIds: seq<seq<nat>>) {
    |newIds| == |threads| && forall t :: 0 <= t < |threads| ==>
      AllRenamed(dst, threads[t].set', threads[t].ids, newIds[t])
  }

  /** In the end the id of every record of every thread is the id of its stack in the set of the master. */
  lemma {:induction false} AllDrainedIds(dst: Catalogue, threads: seq<Thread>, newIds: seq<seq<nat>>)
    returns (tail: seq<seq<nat>>)
    requires AllOwed(threads) && DrainAll(dst, threads, newIds).Some?
    ensures var s := DrainAll(dst, threads, newIds).value;
            KeepsIds(dst, s.dst) && s.newIds == newIds + tail && ThreadsRenamed(s.dst, threads, tail)
    decreases |threads|
  {
    hide Drain, AllRenamed, Owed, ThreadsRenamed, KeepsIds;
    if threads == [] {
      NoThread(dst);
      tail := [];
    } else {
      var first := DrainedIds(dst, threads[0].set', threads[0].ids, []);
      var o := Drain(dst, threads[0].set', threads[0].ids, []).value;
      assert [] + first == first && forall t <- threads[1..] :: t in threads;
      tail := AllDrainedIds(o.dst, threads[1..], newIds + [o.newIds]);
      var s := DrainAll(dst, threads, newIds).value;
      KeepsIdsOn(dst, o.dst, s.dst);
      StillRenamed(o.dst, s.dst, threads[0].set', threads[0].ids, first);
      ThreadRenamedMore(s.dst, threads, first, tail);
      tail := [first] + tail;
    }
  }

  lemma NoThread(dst: Catalogue)
    ensures KeepsIds(dst, dst) && ThreadsRenamed(dst, [], [])
  {
  }

  lemma ThreadRenamedMore(dst: Catalogue, threads: seq<Thread>, first: seq<nat>, tail: seq<seq<nat>>)
    requires threads != [] && AllRenamed(dst, threads[0].set', threads[0].ids, first) &&
             ThreadsRenamed(dst, threads[1..], tail)
    ensures ThreadsRenamed(dst, threads, [first] + tail)
  {
    hide AllRenamed;
    forall t | 0 <= t < |threads|
      ensures AllRenamed(dst, threads[t].set', threads[t].ids, ([first] + tail)[t])
    {
      assert t > 0 ==> threads[1..][t - 1] == threads[t];
    }
  }

  lemma {:induction false} BrokenDrainAll(dst: Catalogue, threads: seq<Thread>, newIds: seq<seq<nat>>)
    requires Broken(dst) && DrainAll(dst, threads, newIds).Some?
    ensures Broken(DrainAll(dst, threads, newIds).value.dst)
    decreases |threads|
  {
    if threads != [] {
      BrokenDrain(dst, threads[0].set', threads[0].ids, []);
      var o := Drain(dst, threads[0].set', threads[0].ids, []).value;
      BrokenDrainAll(o.dst, threads[1..], newIds + [o.newIds]);
    }
  }

  /** A drain from dense ids that does not keep them dense aborts or leaves them broken for good. */
  lemma {:induction false} DenseOrBroken(dst: Catalogue, src: Catalogue, ids: seq<nat>, newIds: seq<nat>)
    requires Dense(dst) && Owed(src, ids) && Drain(dst, src, ids, newIds).Some?
    ensures var d := Drain(dst, src, ids, newIds).value.dst; Dense(d) || Broken(d)
    decreases |ids|
  {
    hide Received, Taken, Owed, Full, Dense, Broken;
    if ids != [] {
      OwedRest(src, ids);
      if ids[0] == 0 {
        DenseOrBroken(dst, src, ids[1..], newIds + [0]);
      } else {
        OwedFull(src, ids);
        DenseReceive(dst, src, ids[0]);
        var d := Received(dst, src, ids[0]).value;
        var s, more := Taken(src, ids[0]), newIds + [NewId(d, src, ids[0])];
        if Dense(d) {
          DenseOrBroken(d, s, ids[1..], more);
        } else {
          BrokenDrain(d, s, ids[1..], more);
        }
      }
    }
  }

  /** All threads are merged without abort and with dense ids exactly if the plan gets stuck for none of them. */
  lemma {:induction false} AllDenseExactly(dst: Catalogue, threads: seq<Thread>, newIds: seq<seq<nat>>)
    requires Dense(dst) && AllOwed(threads)
    ensures var s := DrainAll(dst, threads, newIds);
            s.Some? && Dense(s.value.dst) <==> PlanAll(dst.next, dst.known.Keys, threads).Going?
    decreases |threads|
  {
    hide Drain, PlanOf, Owed, Dense, Broken;
    if threads != [] {
      var t := threads[0];
      assert t in threads && forall u <- threads[1..] :: u in threads;
      DenseExactly(dst, t.set', t.ids, []);
      var o := Drain(dst, t.set', t.ids, []);
      if o.Some? {
        DenseOrBroken(dst, t.set', t.ids, []);
        if Dense(o.value.dst) {
          AllDenseExactly(o.value.dst, threads[1..], newIds + [o.value.newIds]);
        } else if DrainAll(dst, threads, newIds).Some? {
          BrokenDrainAll(o.value.dst, threads[1..], newIds + [o.value.newIds]);
          BrokenIsNotDense(DrainAll(dst, threads, newIds).value.dst);
        }
      }
    }
  }

  // ---------------------------------------------------------------------------------
  // Runs that go wrong

  /** The master has recorded the stack [1], thread B [1] and [2]. Merging the records of B keeps the id 2, which
      the master has not given out: the next id is still 2. */
  lemma KeptId()
    ensures var a, b := KeyOf([1], 0), KeyOf([2], 0);
            Drain(Recorded([a]), Recorded([a, b]), [1, 2], []) ==
            Some(Outcome(Catalogue(2, map[a := Entry(1, 2), b := Entry(2, 1)], map[1 := a, 2 := b]),
                         Catalogue(3, map[], map[]), [1, 2]))
  {
    var a, b := KeyOf([1], 0), KeyOf([2], 0);
    assert [a, b][..1] == [a] && [a][..0] == [];
    var src := Recorded([a, b]);
    assert Recorded([a]) == Catalogue(2, map[a := Entry(1, 1)], map[1 := a]);
    assert src == Catalogue(3, map[a := Entry(1, 1), b := Entry(2, 1)], map[1 := a, 2 := b]);
    var d := Received(Recorded([a]), src, 1).value;
    assert d == Catalogue(2, map[a := Entry(1, 2)], map[1 := a]);
    var s := Taken(src, 1);
    assert s == Catalogue(3, map[b := Entry(2, 1)], map[2 := b]);
    var d' := Received(d, s, 2).value;
    assert d' == Catalogue(2, map[a := Entry(1, 2), b := Entry(2, 1)], map[1 := a, 2 := b]);
    assert Taken(s, 2) == Catalogue(3, map[], map[]);
    assert [1, 2][1..] == [2] && [2][1..] == [] && [] + [1] == [1] && [1] + [2] == [1, 2];
    assert Drain(d', Taken(s, 2), [], [1, 2]) == Some(Outcome(d', Taken(s, 2), [1, 2]));
    assert Drain(d, s, [2], [1]) == Drain(d', Taken(s, 2), [], [1, 2]);
  }

  /** A third thread that has recorded [3] then makes the program abort; one that has recorded [3] twice makes it
      use the id 2 for [2] and for [3]. */
  lemma AfterKeptId()
    ensures var a, b, c := KeyOf([1], 0), KeyOf([2], 0), KeyOf([3], 0);
            var m := Catalogue(2, map[a := Entry(1, 2), b := Entry(2, 1)], map[1 := a, 2 := b]);
            && Drain(m, Recorded([c]), [1], []) == None
            && Drain(m, Recorded([c, c]), [1, 1], []).Some?
            && Drain(m, Recorded([c, c]), [1, 1], []).value.newIds == [2, 2]
            && Drain(m, Recorded([c, c]), [1, 1], []).value.dst.known ==
               map[a := Entry(1, 2), b := Entry(2, 1), c := Entry(2, 3)]
  {
    var a, b, c := KeyOf([1], 0), KeyOf([2], 0), KeyOf([3], 0);
    var m := Catalogue(2, map[a := Entry(1, 2), b := Entry(2, 1)], map[1 := a, 2 := b]);
    assert [c, c][..1] == [c] && [c][..0] == [];
    assert Recorded([c]) == Catalogue(2, map[c := Entry(1, 1)], map[1 := c]);
    assert Received(m, Recorded([c]), 1) == None;
    var src := Recorded([c, c]);
    assert src == Catalogue(2, map[c := Entry(1, 2)], map[1 := c]);
    var d := Received(m, src, 1).value;
    assert d == Catalogue(3, map[a := Entry(1, 2), b := Entry(2, 1), c := Entry(2, 2)], map[1 := a, 2 := b]);
    var s := Taken(src, 1);
    assert s == Catalogue(2, map[c := Entry(1, 1)], map[1 := c]);
    var d' := Received(d, s, 1).value;
    assert d'.known == map[a := Entry(1, 2), b := Entry(2, 1), c := Entry(2, 3)];
    assert [1, 1][1..] == [1] && [1][1..] == [] && [] + [2] == [2] && [2] + [2] == [2, 2];
    assert Drain(d', Taken(s, 1), [], [2, 2]) == Some(Outcome(d', Taken(s, 1), [2, 2]));
    assert Drain(d, s, [1], [2]) == Drain(d', Taken(s, 1), [], [2, 2]);
  }

  /** The whole run aborts in the assertion of stack.c:319 if the third thread has recorded [3] once; if it has
      recorded [3] twice, its records get the id 2 that already stands for [2]. */
  lemma FailingRuns()
    ensures var a, b, c := KeyOf([1], 0), KeyOf([2], 0), KeyOf([3], 0);
            var second := Thread(Recorded([a, b]), [1, 2]);
            && DrainAll(Recorded([a]), [second, Thread(Recorded([c]), [1])], [[1]]) == None
            && DrainAll(Recorded([a]), [second, Thread(Recorded([c, c]), [1, 1])], [[1]]).Some?
            && DrainAll(Recorded([a]), [second, Thread(Recorded([c, c]), [1, 1])], [[1]]).value.newIds ==
               [[1], [1, 2], [2, 2]]
            && DrainAll(Recorded([a]), [second, Thread(Recorded([c, c]), [1, 1])], [[1]]).value.dst.known ==
               map[a := Entry(1, 2), b := Entry(2, 1), c := Entry(2, 3)]
  {
    hide Drain;
    KeptId();
    AfterKeptId();
    var a, b, c := KeyOf([1], 0), KeyOf([2], 0), KeyOf([3], 0);
    var second := Thread(Recorded([a, b]), [1, 2]);
    var m := Catalogue(2, map[a := Entry(1, 2), b := Entry(2, 1)], map[1 := a, 2 := b]);
    forall third: Thread
      ensures DrainAll(Recorded([a]), [second, third], [[1]]) == DrainAll(m, [third], [[1], [1, 2]])
    {
      assert [second, third][1..] == [third] && [[1]] + [[1, 2]] == [[1], [1, 2]];
    }
    var third := Thread(Recorded([c, c]), [1, 1]);
    assert DrainAll(m, [third], [[1], [1, 2]]) ==
           DrainAll(Drain(m, third.set', third.ids, []).value.dst, [], [[1], [1, 2], [2, 2]]) by {
      assert [third][1..] == [] && [[1], [1, 2]] + [[2, 2]] == [[1], [1, 2], [2, 2]];
    }
  }
}
