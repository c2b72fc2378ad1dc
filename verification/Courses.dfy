/** What merging all threads comes to, told before it: the id that every stack gets, and what every count will be. */
module Courses {
  import opened Catalogues
  import opened Draining

  /** The ids of the stacks of a set. */
  ghost function IdsOf(c: Catalogue): map<Key, nat> {
    map key | key in c.known :: c.known[key].id
  }

  /** How far a merge has come: the next id, the id of every stack, and the ids in use; or it has aborted. */
  datatype Course = Stopped | At(next: nat, ids: map<Key, nat>, used: set<nat>)

  ghost function Seen(c: Catalogue): Course {
    At(c.next, IdsOf(c), c.listed.Keys)
  }

  /** One record with a stack: the stack has an id already, keeps its own if it occurs once and that is free, or gets
      the next one. Only a stack that occurs once makes the program abort, when both ids are in use. */
  ghost function Turn(c: Course, src: Catalogue, id: nat): Course
    requires c.At? && Leads(src, id)
  {
    var key, once := src.listed[id], src.known[src.listed[id]].count == 1;
    if key in c.ids then c
    else if once && id !in c.used then At(c.next, c.ids[key := id], c.used + {id})
    else if once && c.next in c.used then Stopped
    else At(c.next + 1, c.ids[key := c.next], c.used + {c.next})
  }

  /** The records of one thread, told from its set as it is before the merge. */
  ghost function CourseOf(c: Course, src: Catalogue, ids: seq<nat>): Course
    decreases |ids|
  {
    if c.Stopped? || ids == [] then c
    else if ids[0] == 0 then CourseOf(c, src, ids[1..])
    else if !Leads(src, ids[0]) then Stopped
    else CourseOf(Turn(c, src, ids[0]), src, ids[1..])
  }

  ghost function CourseAll(c: Course, threads: seq<Thread>): Course
    decreases |threads|
  {
    if c.Stopped? || threads == [] then c
    else CourseAll(CourseOf(c, threads[0].set', threads[0].ids), threads[1..])
  }

  ghost predicate HasId(ids: map<Key, nat>, id: nat) {
    exists key <- ids :: ids[key] == id
  }

  /** The ids of the stacks are 1 .. m, each used once. */
  ghost predicate Numbers(ids: map<Key, nat>, m: nat) {
    && (forall key <- ids, k <- ids :: ids[key] == ids[k] ==> key == k)
    && (forall key <- ids :: 1 <= ids[key] <= m)
    && (forall id: nat :: 1 <= id <= m ==> HasId(ids, id))
  }

  lemma IdsOfKnown(c: Catalogue)
    ensures IdsOf(c).Keys == c.known.Keys && |IdsOf(c)| == |c.known|
    ensures forall key <- c.known :: IdsOf(c)[key] == c.known[key].id
  {
    assert |IdsOf(c)| == |IdsOf(c).Keys| && |c.known| == |c.known.Keys|;
  }

  /** Then there are m stacks. */
  lemma {:induction false} NumbersSize(ids: map<Key, nat>, m: nat)
    requires Numbers(ids, m)
    ensures |ids| == m
    decreases m
  {
    if m == 0 {
      assert ids == map[];
    } else {
      assert HasId(ids, m);
      var key :| key in ids && ids[key] == m;
      var rest := ids - {key};
      forall id: nat | 1 <= id <= m - 1
        ensures HasId(rest, id)
      {
        assert HasId(ids, id);
        var k :| k in ids && ids[k] == id;
        assert k in rest && rest[k] == id;
      }
      NumbersSize(rest, m - 1);
      assert rest.Keys == ids.Keys - {key} && |ids| == |ids.Keys| && |rest| == |rest.Keys|;
    }
  }

  lemma DenseNumbers(c: Catalogue)
    requires Dense(c)
    ensures c.next > 0 && Numbers(IdsOf(c), c.next - 1)
  {
    forall id: nat | 1 <= id < c.next
      ensures HasId(IdsOf(c), id)
    {
      assert id in c.listed && IdsOf(c)[c.listed[id]] == id;
    }
  }

  // ---------------------------------------------------------------------------------
  // The course is what happens

  /** Of the source `was`, only stacks that the destination knows have been taken. */
  ghost predicate Pristine(dst: Catalogue, src: Catalogue, was: Catalogue) {
    && (forall id <- src.listed :: id in was.listed && was.listed[id] == src.listed[id])
    && (forall key <- src.known :: key in was.known && was.known[key].count > 0)
    && (forall key <- src.known :: key in dst.known || src.known[key] == was.known[key])
  }

  lemma StillPristine(dst: Catalogue, src: Catalogue, was: Catalogue, id: nat)
    requires Leads(src, id) && Pristine(dst, src, was) && Received(dst, src, id).Some?
    ensures Pristine(Received(dst, src, id).value, Taken(src, id), was)
  {
    var d, s := Received(dst, src, id).value, Taken(src, id);
    ReceiveKeeps(dst, src, id);
    assert forall key <- s.known :: key in src.known && (key != src.listed[id] ==> s.known[key] == src.known[key]);
  }

  /** One turn of the course is one merge. */
  lemma TurnExactly(dst: Catalogue, src: Catalogue, was: Catalogue, id: nat)
    requires Leads(src, id) && Pristine(dst, src, was)
    ensures Leads(was, id)
    ensures Turn(Seen(dst), was, id) ==
            if Received(dst, src, id).Some? then Seen(Received(dst, src, id).value) else Stopped
  {
    var key, r := src.listed[id], Received(dst, src, id);
    assert was.listed[id] == key && key in was.known;
    if r.Some? {
      var d := r.value;
      if key in dst.known {
        assert IdsOf(d) == IdsOf(dst);
      } else if d.next == dst.next {
        assert IdsOf(d) == IdsOf(dst)[key := id] && d.listed.Keys == dst.listed.Keys + {id};
      } else {
        assert IdsOf(d) == IdsOf(dst)[key := dst.next] && d.listed.Keys == dst.listed.Keys + {dst.next};
      }
    }
  }

  /** A drain succeeds exactly if its course does not stop, and then ends where the course ends. */
  lemma {:induction false} CourseExactly(dst: Catalogue, src: Catalogue, was: Catalogue, ids: seq<nat>,
                                         newIds: seq<nat>)
    requires Owed(src, ids) && Pristine(dst, src, was)
    ensures var o := Drain(dst, src, ids, newIds);
            CourseOf(Seen(dst), was, ids) == if o.Some? then Seen(o.value.dst) else Stopped
    decreases |ids|
  {
    hide Received, Taken, Owed, Pristine, Seen, Turn, Leads;
    if ids != [] {
      OwedRest(src, ids);
      assert Seen(dst).At? by { SeenAt(dst); }
      if ids[0] == 0 {
        CourseExactly(dst, src, was, ids[1..], newIds + [0]);
      } else {
        var id := ids[0];
        TurnExactly(dst, src, was, id);
        if Received(dst, src, id).Some? {
          var d := Received(dst, src, id).value;
          StillPristine(dst, src, was, id);
          CourseExactly(d, Taken(src, id), was, ids[1..], newIds + [NewId(d, src, id)]);
        }
      }
    } else {
      SeenAt(dst);
    }
  }

  lemma SeenAt(c: Catalogue)
    ensures Seen(c).At?
  {
  }

  lemma NothingTaken(dst: Catalogue, src: Catalogue, ids: seq<nat>)
    requires Owed(src, ids)
    ensures Pristine(dst, src, src)
  {
  }

  /** All threads are merged without abort exactly if the course does not stop, and it tells all ids. */
  lemma {:induction false} AllCourseExactly(dst: Catalogue, threads: seq<Thread>, newIds: seq<seq<nat>>)
    requires AllOwed(threads)
    ensures var s := DrainAll(dst, threads, newIds);
            CourseAll(Seen(dst), threads) == if s.Some? then Seen(s.value.dst) else Stopped
    decreases |threads|
  {
    hide Drain, CourseOf, Owed, Seen;
    SeenAt(dst);
    if threads != [] {
      var t := threads[0];
      assert t in threads && forall u <- threads[1..] :: u in threads;
      NothingTaken(dst, t.set', t.ids);
      CourseExactly(dst, t.set', t.set', t.ids, []);
      var o := Drain(dst, t.set', t.ids, []);
      if o.Some? {
        AllCourseExactly(o.value.dst, threads[1..], newIds + [o.value.newIds]);
      }
    }
  }

  // ---------------------------------------------------------------------------------
  // Which stacks are known in the end

  /** A drain makes exactly the stacks of the source known. */
  lemma {:induction false} DrainedKnown(dst: Catalogue, src: Catalogue, ids: seq<nat>, newIds: seq<nat>)
    requires Owed(src, ids) && Drain(dst, src, ids, newIds).Some?
    ensures Drain(dst, src, ids, newIds).value.dst.known.Keys == dst.known.Keys + src.known.Keys
    decreases |ids|
  {
    hide Received, Taken, Owed, Full;
    if ids == [] {
      NothingOwed(src);
    } else {
      OwedRest(src, ids);
      if ids[0] == 0 {
        DrainedKnown(dst, src, ids[1..], newIds + [0]);
      } else {
        var d, s := Received(dst, src, ids[0]).value, Taken(src, ids[0]);
        ReceivedKnown(dst, src, ids[0]);
        DrainedKnown(d, s, ids[1..], newIds + [NewId(d, src, ids[0])]);
      }
    }
  }

  lemma ReceivedKnown(dst: Catalogue, src: Catalogue, id: nat)
    requires Leads(src, id) && Received(dst, src, id).Some?
    ensures Received(dst, src, id).value.known.Keys == dst.known.Keys + {src.listed[id]}
    ensures src.known.Keys == Taken(src, id).known.Keys + {src.listed[id]}
  {
  }

  /** A thread has recorded this stack. */
  ghost predicate Knows(threads: seq<Thread>, key: Key) {
    exists t :: 0 <= t < |threads| && key in threads[t].set'.known
  }

  lemma KnowsFirst(threads: seq<Thread>, key: Key)
    requires threads != []
    ensures Knows(threads, key) <==> key in threads[0].set'.known || Knows(threads[1..], key)
  {
    if Knows(threads[1..], key) {
      var t :| 0 <= t < |threads| - 1 && key in threads[1..][t].set'.known;
      assert key in threads[t + 1].set'.known;
    }
    if Knows(threads, key) {
      var t :| 0 <= t < |threads| && key in threads[t].set'.known;
      assert t > 0 ==> threads[1..][t - 1] == threads[t];
    }
  }

  lemma {:induction false} AllDrainedKnown(dst: Catalogue, threads: seq<Thread>, newIds: seq<seq<nat>>, key: Key)
    requires AllOwed(threads) && DrainAll(dst, threads, newIds).Some?
    ensures key in DrainAll(dst, threads, newIds).value.dst.known <==> key in dst.known || Knows(threads, key)
    decreases |threads|
  {
    hide Drain, Owed, Knows;
    if threads == [] {
      NobodyKnows(key);
    } else {
      var t := threads[0];
      assert t in threads && forall u <- threads[1..] :: u in threads;
      DrainedKnown(dst, t.set', t.ids, []);
      var o := Drain(dst, t.set', t.ids, []).value;
      AllDrainedKnown(o.dst, threads[1..], newIds + [o.newIds], key);
      KnowsFirst(threads, key);
    }
  }

  lemma NobodyKnows(key: Key)
    ensures !Knows([], key)
  {
  }

  /** Every stack of a thread has a record. */
  lemma RecordOf(thread: Thread, key: Key) returns (j: nat)
    requires Owed(thread.set', thread.ids) && key in thread.set'.known
    ensures j < |thread.ids| && thread.ids[j] in thread.set'.listed && thread.set'.listed[thread.ids[j]] == key
    ensures thread.ids[j] != 0
  {
    var id := thread.set'.known[key].id;
    assert id in multiset(thread.ids);
    j :| 0 <= j < |thread.ids| && thread.ids[j] == id;
  }

  // ---------------------------------------------------------------------------------
  // Printed counts

  /** The records of all threads that have this stack. */
  ghost function RecordsWith(threads: seq<Thread>, key: Key): nat
    decreases |threads|
  {
    if threads == [] then 0
    else
      var src := threads[0].set';
      (if key in src.known then Occurrences(threads[0].ids, src.known[key].id) else 0) + RecordsWith(threads[1..], key)
  }

  /** How often the first thread that has this stack has recorded it. */
  ghost function FirstCount(threads: seq<Thread>, key: Key): nat
    decreases |threads|
  {
    if threads == [] then 0
    else if key in threads[0].set'.known then CountOf(threads[0].set', key)
    else FirstCount(threads[1..], key)
  }

  /** What is counted twice: a stack that the destination does not know is copied with its whole count by the first
      thread that brings it, and then counted again for all but the first of that thread's records. */
  ghost function Excess(dst: Catalogue, threads: seq<Thread>, key: Key): nat {
    if key in dst.known || FirstCount(threads, key) == 0 then 0 else FirstCount(threads, key) - 1
  }

  lemma {:induction false} AllDrainedCounts(dst: Catalogue, threads: seq<Thread>, newIds: seq<seq<nat>>, key: Key)
    requires AllOwed(threads) && DrainAll(dst, threads, newIds).Some?
    ensures CountOf(DrainAll(dst, threads, newIds).value.dst, key) ==
            CountOf(dst, key) + RecordsWith(threads, key) + Excess(dst, threads, key)
    decreases |threads|
  {
    hide Drain;
    if threads != [] {
      var t := threads[0];
      assert t in threads && forall u <- threads[1..] :: u in threads;
      DrainedCounts(dst, t.set', t.ids, [], key);
      DrainedKnown(dst, t.set', t.ids, []);
      var o := Drain(dst, t.set', t.ids, []).value;
      AllDrainedCounts(o.dst, threads[1..], newIds + [o.newIds], key);
    }
  }

  /** The count that is printed for a stack is the number of records of all threads that have it, plus the excess of
      the first thread that brought it to the master; it is right exactly if there is no such excess. */
  lemma AllCountsExactly(threads: seq<Thread>, newIds: seq<seq<nat>>, key: Key)
    requires threads != [] && AllOwed(threads) && DrainAll(threads[0].set', threads[1..], newIds).Some?
    ensures var excess := Excess(threads[0].set', threads[1..], key);
            var count := CountOf(DrainAll(threads[0].set', threads[1..], newIds).value.dst, key);
            && count == RecordsWith(threads, key) + excess
            && (count == RecordsWith(threads, key) <==>
                key in threads[0].set'.known || FirstCount(threads[1..], key) <= 1)
  {
    assert threads[0] in threads && forall t <- threads[1..] :: t in threads;
    AllDrainedCounts(threads[0].set', threads[1..], newIds, key);
  }

  // ---------------------------------------------------------------------------------
  // Stacks without frames

  /** A stack without frames is found by its id. */
  ghost predicate EmptiesListed(c: Catalogue) {
    forall key <- c.known :: key.frames == [] ==> c.known[key].id in c.listed && c.listed[c.known[key].id] == key
  }

  ghost predicate AllPlain(threads: seq<Thread>) {
    forall t <- threads :: Plain(t.set')
  }

  /** Stacks without frames do not share ids. */
  lemma EmptiesApart(c: Catalogue, a: Key, b: Key)
    requires EmptiesListed(c) && a in c.known && b in c.known && a != b && a.frames == b.frames
    requires a.frames != [] ==> a.front == b.front
    ensures c.known[a].id != c.known[b].id
  {
  }

  lemma ReceivedEmpties(dst: Catalogue, src: Catalogue, id: nat)
    requires Leads(src, id) && Plain(src) && EmptiesListed(dst) && Received(dst, src, id).Some?
    ensures EmptiesListed(Received(dst, src, id).value) && Plain(Taken(src, id))
  {
  }

  lemma {:induction false} DrainedEmpties(dst: Catalogue, src: Catalogue, ids: seq<nat>, newIds: seq<nat>)
    requires Owed(src, ids) && Plain(src) && EmptiesListed(dst) && Drain(dst, src, ids, newIds).Some?
    ensures EmptiesListed(Drain(dst, src, ids, newIds).value.dst)
    decreases |ids|
  {
    hide Received, Taken, Owed, Plain, EmptiesListed;
    if ids != [] {
      OwedRest(src, ids);
      if ids[0] == 0 {
        DrainedEmpties(dst, src, ids[1..], newIds + [0]);
      } else {
        ReceivedEmpties(dst, src, ids[0]);
        var d := Received(dst, src, ids[0]).value;
        DrainedEmpties(d, Taken(src, ids[0]), ids[1..], newIds + [NewId(d, src, ids[0])]);
      }
    }
  }

  lemma {:induction false} AllDrainedEmpties(dst: Catalogue, threads: seq<Thread>, newIds: seq<seq<nat>>)
    requires AllOwed(threads) && AllPlain(threads) && EmptiesListed(dst) && DrainAll(dst, threads, newIds).Some?
    ensures EmptiesListed(DrainAll(dst, threads, newIds).value.dst)
    decreases |threads|
  {
    hide Drain, Owed, Plain, EmptiesListed;
    if threads != [] {
      var t := threads[0];
      assert t in threads && forall u <- threads[1..] :: u in threads;
      DrainedEmpties(dst, t.set', t.ids, []);
      var o := Drain(dst, t.set', t.ids, []).value;
      AllDrainedEmpties(o.dst, threads[1..], newIds + [o.newIds]);
    }
  }

  lemma ReceivedSound(dst: Catalogue, src: Catalogue, id: nat)
    requires Sound(dst) && Sound(src) && Leads(src, id) && id > 0 && Received(dst, src, id).Some?
    ensures Sound(Received(dst, src, id).value)
  {
  }

  lemma {:induction false} DrainedSound(dst: Catalogue, src: Catalogue, ids: seq<nat>, newIds: seq<nat>)
    requires Owed(src, ids) && Sound(dst) && Drain(dst, src, ids, newIds).Some?
    ensures Sound(Drain(dst, src, ids, newIds).value.dst)
    decreases |ids|
  {
    hide Received, Taken, Owed, Sound;
    if ids != [] {
      OwedRest(src, ids);
      if ids[0] == 0 {
        DrainedSound(dst, src, ids[1..], newIds + [0]);
      } else {
        OwedSound(src, ids);
        ReceivedSound(dst, src, ids[0]);
        var d := Received(dst, src, ids[0]).value;
        DrainedSound(d, Taken(src, ids[0]), ids[1..], newIds + [NewId(d, src, ids[0])]);
      }
    }
  }

  lemma OwedSound(src: Catalogue, ids: seq<nat>)
    requires Owed(src, ids)
    ensures Sound(src)
  {
  }

  lemma {:induction false} AllDrainedSound(dst: Catalogue, threads: seq<Thread>, newIds: seq<seq<nat>>)
    requires AllOwed(threads) && Sound(dst) && DrainAll(dst, threads, newIds).Some?
    ensures Sound(DrainAll(dst, threads, newIds).value.dst)
    decreases |threads|
  {
    hide Drain, Owed, Sound;
    if threads != [] {
      var t := threads[0];
      assert t in threads && forall u <- threads[1..] :: u in threads;
      DrainedSound(dst, t.set', t.ids, []);
      var o := Drain(dst, t.set', t.ids, []).value;
      AllDrainedSound(o.dst, threads[1..], newIds + [o.newIds]);
    }
  }
}
