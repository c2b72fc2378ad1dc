/** Threads that allocate and release buffers while mprofile records them (mprofile/init.c,
    mprofile/record.c). The steps of the threads interleave freely; one heap call, one increment of the
    id counter and one queue insertion are single steps. */
module Interleaving {
  import opened History
  import Bags

  /** Where a thread stands. */
  datatype Pc =
    | Idle
    | Allocated(mem: nat, size: nat)                            // malloc has returned, no id taken yet
    | Moved(mem: nat, newMem: nat, oldSize: int, size: nat)     // realloc has returned, no id taken yet
    | Stamped(op: Op)                                           // the id is taken, the record not yet queued
    | Releasing(mem: nat)                                       // the record of a free is queued, the memory in use

  /** `heap` maps the address of each block to the size in its header; `owned` are the buffers the program
      may still use; `stamps` are the records in the order in which they took their ids from the counter. */
  datatype State = State(
    threads: seq<Pc>,
    queues: seq<seq<Op>>,
    heap: map<nat, int>,
    owned: set<nat>,
    counter: nat,
    stamps: seq<Op>)

  datatype Action =
    | HeapAlloc(mem: nat, size: nat)                // malloc in mp_CRYPTO_malloc_trace
    | StampAlloc                                    // the atomic increment in mprofile_record_alloc
    | StampFree(mem: nat)                           // the atomic increment in mprofile_record_free
    | MoveHeap(mem: nat, newMem: nat, size: nat)    // realloc in mp_CRYPTO_realloc_trace
    | StampMove                                     // the atomic increment in mprofile_record_realloc
    | Enqueue                                       // TAILQ_INSERT_TAIL
    | HeapFree                                      // free in mp_CRYPTO_free_trace

  /** What the heap and a program that releases only what it owns allow thread `t` to do. */
  ghost predicate Enabled(s: State, t: nat, a: Action) {
    && t < |s.threads| == |s.queues|
    && match a
       case HeapAlloc(mem, size) => s.threads[t].Idle? && mem != 0 && mem !in s.heap
       case StampAlloc => s.threads[t].Allocated?
       case StampFree(mem) => s.threads[t].Idle? && (mem == 0 || (mem in s.owned && mem in s.heap))
       case MoveHeap(mem, newMem, size) =>
         s.threads[t].Idle? && mem in s.owned && mem in s.heap && newMem != 0 && (newMem == mem || newMem !in s.heap)
       case StampMove => s.threads[t].Moved?
       case Enqueue => s.threads[t].Stamped?
       case HeapFree => s.threads[t].Releasing?
  }

  /** atomic_add_long_nv on the id counter. */
  function Stamp(s: State, kind: Kind, mem: nat, realloc: nat, delta: int): Op {
    Op(s.counter + 1, kind, mem, realloc, delta)
  }

  /** The record that a stamping step makes. */
  ghost function StampOp(s: State, t: nat, a: Action): Op
    requires Enabled(s, t, a) && (a.StampAlloc? || a.StampFree? || a.StampMove?)
  {
    var pc := s.threads[t];
    match a
    case StampAlloc => Stamp(s, Alloc, pc.mem, 0, pc.size)
    case StampFree(mem) => Stamp(s, Free, mem, 0, if mem == 0 then 0 else -s.heap[mem])
    case StampMove => Stamp(s, Realloc, pc.newMem, pc.mem, pc.size - pc.oldSize)
  }

  ghost function Apply(s: State, t: nat, a: Action): State
    requires Enabled(s, t, a)
  {
    match a
    case HeapAlloc(mem, size) =>
      s.(threads := s.threads[t := Allocated(mem, size)], heap := s.heap[mem := size])
    case StampAlloc =>
      s.(threads := s.threads[t := Stamped(StampOp(s, t, a))],
         counter := s.counter + 1, stamps := s.stamps + [StampOp(s, t, a)])
    case StampFree(mem) =>
      s.(threads := s.threads[t := Stamped(StampOp(s, t, a))],
         counter := s.counter + 1, stamps := s.stamps + [StampOp(s, t, a)], owned := s.owned - {mem})
    case MoveHeap(mem, newMem, size) =>
      s.(threads := s.threads[t := Moved(mem, newMem, s.heap[mem], size)],
         heap := (s.heap - {mem})[newMem := size], owned := s.owned - {mem})
    case StampMove =>
      s.(threads := s.threads[t := Stamped(StampOp(s, t, a))],
         counter := s.counter + 1, stamps := s.stamps + [StampOp(s, t, a)])
    case Enqueue =>
      var op := s.threads[t].op;
      s.(threads := s.threads[t := if op.kind.Free? then Releasing(op.mem) else Idle],
         queues := s.queues[t := s.queues[t] + [op]],
         owned := if op.kind.Free? then s.owned else s.owned + {op.mem})
    case HeapFree =>
      s.(threads := s.threads[t := Idle], heap := s.heap - {s.threads[t].mem})
  }

  /** The address that a realloc has given up, while its record has no id yet. */
  function Vacated(pc: Pc): set<nat> {
    if pc.Moved? then {pc.mem} else {}
  }

  /** No other thread is in the middle of moving a buffer away from the address about to be recorded. */
  ghost predicate Clear(s: State, t: nat, a: Action)
    requires Enabled(s, t, a)
  {
    (a.StampAlloc? || a.StampMove?) ==>
      forall u :: 0 <= u < |s.threads| && u != t ==> StampOp(s, t, a).mem !in Vacated(s.threads[u])
  }

  ghost predicate Init(s: State) {
    && |s.threads| == |s.queues| && s.counter == 0 && s.stamps == [] && s.heap == map[] && s.owned == {}
    && forall t :: 0 <= t < |s.threads| ==> s.threads[t].Idle? && s.queues[t] == []
  }

  datatype Step = Step(thread: nat, action: Action)

  /** `run` is the sequence of states that the schedule `steps` leads through. */
  ghost predicate IsRun(run: seq<State>, steps: seq<Step>) {
    && |run| == |steps| + 1 && Init(run[0])
    && forall i :: 0 <= i < |steps| ==>
         Enabled(run[i], steps[i].thread, steps[i].action) &&
           run[i + 1] == Apply(run[i], steps[i].thread, steps[i].action)
  }

  ghost predicate ClearUpTo(run: seq<State>, steps: seq<Step>, n: nat)
    requires IsRun(run, steps) && n < |run|
  {
    forall i :: 0 <= i < n ==> Clear(run[i], steps[i].thread, steps[i].action)
  }

  // ---------------------------------------------------------------------------------
  // What every clear step keeps

  /** The block a thread is working on. */
  function Held(pc: Pc): set<nat> {
    match pc
    case Idle => {}
    case Allocated(mem, _) => {mem}
    case Moved(_, newMem, _, _) => {newMem}
    case Stamped(op) => if op.mem == 0 then {} else {op.mem}
    case Releasing(mem) => if mem == 0 then {} else {mem}
  }

  /** The same, once the log knows about it. */
  function Settled(pc: Pc): set<nat> {
    if pc.Stamped? || pc.Releasing? then Held(pc) else {}
  }

  /** The thread holds a buffer that the log already shows as available. */
  predicate Publishing(pc: Pc, a: nat) {
    pc.Stamped? && !pc.op.kind.Free? && pc.op.mem == a
  }

  /** Nobody else touches the block a thread is working on. */
  ghost predicate Exclusive(s: State) {
    && s.owned <= s.heap.Keys && 0 !in s.heap
    && (forall t :: 0 <= t < |s.threads| ==> Held(s.threads[t]) <= s.heap.Keys && Held(s.threads[t]) !! s.owned)
    && (forall t :: 0 <= t < |s.threads| ==> Vacated(s.threads[t]) !! s.owned)
    && (forall t, u :: 0 <= t < |s.threads| && 0 <= u < |s.threads| && t != u ==>
          && Held(s.threads[t]) !! Held(s.threads[u])
          && Vacated(s.threads[t]) !! Vacated(s.threads[u])
          && Vacated(s.threads[t]) !! Settled(s.threads[u]))
  }

  ghost predicate Published(s: State, a: nat) {
    a in s.owned || exists t :: 0 <= t < |s.threads| && Publishing(s.threads[t], a)
  }

  ghost predicate BeingMoved(s: State, a: nat) {
    exists t :: 0 <= t < |s.threads| && a in Vacated(s.threads[t])
  }

  /** `z` is the size that the program knows of the buffer at `a`. */
  ghost predicate HasSize(s: State, a: nat, z: int) {
    && (Published(s, a) ==> a in s.heap && s.heap[a] == z)
    && (forall t :: 0 <= t < |s.threads| && a in Vacated(s.threads[t]) ==> s.threads[t].oldSize == z)
  }

  /** The log shows as live what the program owns, is about to get or is about to give up, with its size. */
  ghost predicate Mirrors(s: State) {
    && (forall a: nat :: LiveAt(s.stamps, a) <==> Published(s, a) || BeingMoved(s, a))
    && (forall i: nat :: Alive(s.stamps, |s.stamps|, i) ==> HasSize(s, s.stamps[i].mem, SizeAt(s.stamps, i)))
  }

  ghost predicate PcOk(s: State, t: nat)
    requires t < |s.threads|
  {
    match s.threads[t]
    case Allocated(mem, size) => mem in s.heap && s.heap[mem] == size && mem != 0
    case Moved(mem, newMem, _, size) => newMem in s.heap && s.heap[newMem] == size && newMem != 0 && mem != 0
    case Stamped(op) => op.mem != 0 || op.kind.Free?
    case _ => true
  }

  ghost predicate Inv(s: State) {
    && |s.threads| == |s.queues|
    && s.counter == |s.stamps| && (forall i :: 0 <= i < |s.stamps| ==> s.stamps[i].id == i + 1)
    && Exclusive(s) && (forall t: nat :: t < |s.threads| ==> PcOk(s, t))
    && WellFormed(s.stamps) && Balanced(s.stamps) && Mirrors(s)
  }

  /** A step leaves the other threads where they are, and their blocks alone. */
  lemma OthersOk(s: State, s': State, t: nat)
    requires Inv(s) && t < |s.threads| == |s'.threads| && PcOk(s', t)
    requires forall u :: 0 <= u < |s.threads| && u != t ==> s'.threads[u] == s.threads[u]
    requires forall u :: 0 <= u < |s.threads| && u != t ==>
               forall a :: a in Held(s.threads[u]) ==> a in s'.heap && s'.heap[a] == s.heap[a]
    ensures forall u: nat :: u < |s'.threads| ==> PcOk(s', u)
  {
    forall u: nat | u < |s'.threads|
      ensures PcOk(s', u)
    {
      assert PcOk(s, u);
    }
  }

  /** A step that changes neither the log nor what it shows. */
  lemma SameView(s: State, s': State, t: nat)
    requires Inv(s) && t < |s.threads| == |s'.threads| && s'.stamps == s.stamps
    requires forall u :: 0 <= u < |s.threads| && u != t ==> s'.threads[u] == s.threads[u]
    requires forall a: nat :: Published(s', a) || BeingMoved(s', a) <==> Published(s, a) || BeingMoved(s, a)
    requires forall a: nat, z: int :: HasSize(s, a, z) ==> HasSize(s', a, z)
    ensures Mirrors(s')
  {
  }

  /** The part of the invariant about the log, after a step has been appended. */
  lemma LogGrows(s: State, s': State, op: Op)
    requires WellFormed(s.stamps) && Balanced(s.stamps) && Mirrors(s)
    requires s'.stamps == s.stamps + [op] && MayAppend(s.stamps, op)
    requires op.kind.Alloc? ==> HasSize(s', op.mem, op.delta)
    requires op.kind.Realloc? ==> forall z: int :: HasSize(s, op.realloc, z) ==> HasSize(s', op.mem, z + op.delta)
    requires op.kind.Free? && op.mem != 0 ==> forall z: int :: HasSize(s, op.mem, z) ==> op.delta == -z
    requires op.kind.Free? && op.mem == 0 ==> op.delta == 0
    requires forall a: nat, z: int :: LiveAt(s.stamps, a) && !Closes(op, a) && HasSize(s, a, z) ==> HasSize(s', a, z)
    ensures WellFormed(s'.stamps) && Balanced(s'.stamps)
    ensures forall i: nat :: Alive(s'.stamps, |s'.stamps|, i) ==> HasSize(s', s'.stamps[i].mem, SizeAt(s'.stamps, i))
  {
    var log, w, n := s.stamps, s'.stamps, |s.stamps|;
    Append(log, op);
    Prefix(log, [op]);
    forall i: nat, j: nat | Link(w, i, j) && w[j].kind.Free?
      ensures w[j].delta == -SizeAt(w, i)
    {
      SizePrefix(log, [op], i);
      assert j < n ==> Link(log, i, j);
      assert j == n ==> Alive(log, n, i);
    }
    forall i: nat | Alive(w, n + 1, i)
      ensures HasSize(s', w[i].mem, SizeAt(w, i))
    {
      AliveAfter(log, op, i);
      if i < n {
        SizePrefix(log, [op], i);
        assert LiveAt(log, log[i].mem);
      } else if op.kind.Realloc? {
        var p: nat :| Alive(log, n, p) && log[p].mem == op.realloc;
        assert Link(w, p, n);
        SizeOfRealloc(w, p, n);
        SizePrefix(log, [op], p);
      }
    }
  }

  /** A heap call or a queue insertion does not change what is published, nor, but for a realloc, what is being
      moved. */
  lemma QuietView(s: State, t: nat, a: Action, b: nat)
    requires Inv(s) && Enabled(s, t, a) && (a.HeapAlloc? || a.HeapFree? || a.Enqueue?)
    ensures var s' := Apply(s, t, a);
            (Published(s', b) <==> Published(s, b)) &&
            (BeingMoved(s', b) <==> BeingMoved(s, b))
  {
    var s' := Apply(s, t, a);
    assert PcOk(s, t);
    assert forall u :: 0 <= u < |s.threads| && u != t ==> s'.threads[u] == s.threads[u];
    assert Publishing(s.threads[t], b) ==> b in s'.owned;
    assert Vacated(s'.threads[t]) == Vacated(s.threads[t]);
  }

  lemma KeepQuiet(s: State, t: nat, a: Action)
    requires Inv(s) && Enabled(s, t, a) && (a.HeapAlloc? || a.HeapFree? || a.Enqueue?)
    ensures Inv(Apply(s, t, a))
  {
    var s' := Apply(s, t, a);
    assert PcOk(s, t);
    QuietExclusive(s, t, a);
    forall b: nat
      ensures (Published(s', b) <==> Published(s, b)) && (BeingMoved(s', b) <==> BeingMoved(s, b))
      ensures Published(s, b) ==> b in s'.heap && s'.heap[b] == s.heap[b]
    {
      QuietView(s, t, a, b);
      if Published(s, b) {
        NotUnpublished(s, t, b);
      }
    }
    SameView(s, s', t);
    OthersOk(s, s', t);
  }

  lemma QuietExclusive(s: State, t: nat, a: Action)
    requires Inv(s) && Enabled(s, t, a) && (a.HeapAlloc? || a.HeapFree? || a.Enqueue?)
    ensures Exclusive(Apply(s, t, a))
  {
    hide LiveAt, WellFormed, Balanced, Mirrors;
    var s' := Apply(s, t, a);
    assert PcOk(s, t);
    assert forall u :: 0 <= u < |s.threads| && u != t ==> s'.threads[u] == s.threads[u];
    assert Vacated(s'.threads[t]) == Vacated(s.threads[t]) == {};
  }

  /** A published buffer is in the heap, and no other thread works on it. */
  lemma NotUnpublished(s: State, t: nat, b: nat)
    requires Inv(s) && t < |s.threads| && Published(s, b)
    ensures b in s.heap && (b in Held(s.threads[t]) ==> Publishing(s.threads[t], b))
  {
    if b !in s.owned {
      var u :| 0 <= u < |s.threads| && Publishing(s.threads[u], b);
      assert PcOk(s, u);
    }
  }

  lemma MoveView(s: State, t: nat, a: Action, b: nat)
    requires Inv(s) && Enabled(s, t, a) && a.MoveHeap?
    ensures var s' := Apply(s, t, a);
      && (Published(s', b) <==> Published(s, b) && b != a.mem)
      && (BeingMoved(s', b) <==> BeingMoved(s, b) || b == a.mem)
  {
    var s' := Apply(s, t, a);
    assert forall u :: 0 <= u < |s.threads| && u != t ==> s'.threads[u] == s.threads[u];
    assert forall u :: 0 <= u < |s.threads| ==> a.mem !in Held(s.threads[u]);
    assert a.mem in Vacated(s'.threads[t]);
  }

  lemma MoveExclusive(s: State, t: nat, a: Action)
    requires Inv(s) && Enabled(s, t, a) && a.MoveHeap?
    ensures Exclusive(Apply(s, t, a))
  {
    hide LiveAt, WellFormed, Balanced, Mirrors;
    var s' := Apply(s, t, a);
    assert forall u :: 0 <= u < |s.threads| && u != t ==> s'.threads[u] == s.threads[u];
    assert Settled(s'.threads[t]) == {};
    assert forall u :: 0 <= u < |s.threads| ==> a.mem !in Held(s.threads[u]) && a.newMem !in Held(s.threads[u]);
  }

  lemma KeepMoveHeap(s: State, t: nat, a: Action)
    requires Inv(s) && Enabled(s, t, a) && a.MoveHeap?
    ensures Inv(Apply(s, t, a))
  {
    var s' := Apply(s, t, a);
    MoveExclusive(s, t, a);
    assert Published(s, a.mem);
    forall b: nat
      ensures Published(s', b) <==> Published(s, b) && b != a.mem
      ensures BeingMoved(s', b) <==> BeingMoved(s, b) || b == a.mem
      ensures Published(s', b) ==> b in s'.heap && s'.heap[b] == s.heap[b]
    {
      MoveView(s, t, a, b);
      if Published(s, b) {
        NotUnpublished(s, t, b);
      }
    }
    SameView(s, s', t);
    OthersOk(s, s', t);
  }

  ghost predicate Stamping(a: Action) {
    a.StampAlloc? || a.StampFree? || a.StampMove?
  }

  /** The record of a stamping step may be appended to the log exactly if the step is clear. */
  lemma StampMayAppend(s: State, t: nat, a: Action)
    requires Inv(s) && Enabled(s, t, a) && Stamping(a)
    ensures MayAppend(s.stamps, StampOp(s, t, a)) <==> Clear(s, t, a)
  {
    var op := StampOp(s, t, a);
    assert PcOk(s, t);
    match a
    case StampFree(mem) =>
      assert mem != 0 ==> Published(s, mem);
    case StampAlloc =>
      assert !Published(s, op.mem) && op.mem !in Vacated(s.threads[t]);
    case StampMove =>
      assert BeingMoved(s, op.realloc) && !Published(s, op.mem);
      assert op.mem in Vacated(s.threads[t]) <==> op.mem == op.realloc;
      assert !Clear(s, t, a) ==> op.mem != op.realloc;
  }

  /** What the log shows after a clear stamping step is what it should show. */
  lemma StampView(s: State, t: nat, a: Action, b: nat)
    requires Inv(s) && Enabled(s, t, a) && Stamping(a) && Clear(s, t, a)
    ensures var s' := Apply(s, t, a);
      LiveAt(s'.stamps, b) <==> Published(s', b) || BeingMoved(s', b)
  {
    var s' := Apply(s, t, a);
    var op := StampOp(s, t, a);
    assert PcOk(s, t);
    LiveAfter(s.stamps, op, b);
    assert forall u :: 0 <= u < |s.threads| && u != t ==> s'.threads[u] == s.threads[u];
    assert s'.threads[t] == Stamped(op);
    var others := exists u :: 0 <= u < |s.threads| && u != t && Publishing(s.threads[u], b);
    assert Published(s', b) == (b in s'.owned || Publishing(s'.threads[t], b) || others);
    assert Published(s, b) == (b in s.owned || others);
    assert BeingMoved(s, b) == (b in Vacated(s.threads[t]) || BeingMoved(s', b));
  }

  lemma StampExclusive(s: State, t: nat, a: Action)
    requires Inv(s) && Enabled(s, t, a) && Stamping(a) && Clear(s, t, a)
    ensures Exclusive(Apply(s, t, a))
  {
    assert PcOk(s, t);
  }

  /** A buffer that the step does not concern keeps the size that is known of it. */
  lemma StampSizes(s: State, t: nat, a: Action, b: nat, z: int)
    requires Inv(s) && Enabled(s, t, a) && Stamping(a) && Clear(s, t, a)
    requires HasSize(s, b, z) && !Publishing(Apply(s, t, a).threads[t], b)
    ensures HasSize(Apply(s, t, a), b, z)
  {
    var s' := Apply(s, t, a);
    assert forall u :: 0 <= u < |s.threads| && u != t ==> s'.threads[u] == s.threads[u];
    assert Published(s', b) ==> Published(s, b);
  }

  /** The buffer that the step records has the size in its header, which nobody else is changing. */
  lemma StampedSize(s: State, t: nat, a: Action)
    requires Inv(s) && Enabled(s, t, a) && Stamping(a) && Clear(s, t, a) && !a.StampFree?
    ensures HasSize(Apply(s, t, a), StampOp(s, t, a).mem, s.threads[t].size)
  {
    var s' := Apply(s, t, a);
    assert PcOk(s, t);
    assert forall u :: 0 <= u < |s.threads| && u != t ==> s'.threads[u] == s.threads[u];
  }

  lemma KeepStamp(s: State, t: nat, a: Action)
    requires Inv(s) && Enabled(s, t, a) && Stamping(a) && Clear(s, t, a)
    ensures Inv(Apply(s, t, a))
  {
    var s' := Apply(s, t, a);
    var op := StampOp(s, t, a);
    assert PcOk(s, t);
    StampMayAppend(s, t, a);
    StampExclusive(s, t, a);
    if !a.StampFree? {
      StampedSize(s, t, a);
    }
    forall b: nat, z: int | LiveAt(s.stamps, b) && !Closes(op, b) && HasSize(s, b, z)
      ensures HasSize(s', b, z)
    {
      StampSizes(s, t, a, b, z);
    }
    StampDelta(s, t, a);
    LogGrows(s, s', op);
    forall b: nat
      ensures LiveAt(s'.stamps, b) <==> Published(s', b) || BeingMoved(s', b)
    {
      StampView(s, t, a, b);
    }
    OthersOk(s, s', t);
  }

  /** The size change in a record is the one that the program sees. */
  lemma StampDelta(s: State, t: nat, a: Action)
    requires Inv(s) && Enabled(s, t, a) && Stamping(a)
    ensures a.StampAlloc? ==> StampOp(s, t, a).delta == s.threads[t].size
    ensures a.StampFree? && a.mem != 0 ==> forall z: int :: HasSize(s, a.mem, z) ==> StampOp(s, t, a).delta == -z
    ensures a.StampMove? ==> forall z: int :: HasSize(s, s.threads[t].mem, z) ==>
            z + StampOp(s, t, a).delta == s.threads[t].size
  {
    if a.StampFree? && a.mem != 0 {
      assert Published(s, a.mem);
    }
    if a.StampMove? {
      assert s.threads[t].mem in Vacated(s.threads[t]);
    }
  }

  /** Every clear step of every thread keeps the invariant. */
  lemma Keep(s: State, t: nat, a: Action)
    requires Inv(s) && Enabled(s, t, a) && Clear(s, t, a)
    ensures Inv(Apply(s, t, a))
  {
    if Stamping(a) {
      KeepStamp(s, t, a);
    } else if a.MoveHeap? {
      KeepMoveHeap(s, t, a);
    } else {
      KeepQuiet(s, t, a);
    }
  }

  /** A step that is not clear spoils the log. */
  lemma Spoil(s: State, t: nat, a: Action)
    requires Inv(s) && Enabled(s, t, a) && !Clear(s, t, a)
    ensures !WellFormed(Apply(s, t, a).stamps)
  {
    StampMayAppend(s, t, a);
    Append(s.stamps, StampOp(s, t, a));
  }

  lemma {:induction false} ClearRuns(run: seq<State>, steps: seq<Step>, n: nat)
    requires IsRun(run, steps) && n < |run| && ClearUpTo(run, steps, n)
    ensures Inv(run[n])
  {
    if n > 0 {
      ClearRuns(run, steps, n - 1);
      Keep(run[n - 1], steps[n - 1].thread, steps[n - 1].action);
    }
  }

  /** The log only grows, and never recovers. */
  lemma {:induction false} StaysSpoilt(run: seq<State>, steps: seq<Step>, m: nat, n: nat)
    requires IsRun(run, steps) && m <= n < |run| && WellFormed(run[n].stamps)
    ensures WellFormed(run[m].stamps)
    decreases n - m
  {
    if m < n {
      var s, s' := run[n - 1], Apply(run[n - 1], steps[n - 1].thread, steps[n - 1].action);
      assert s'.stamps == s.stamps + s'.stamps[|s.stamps|..];
      Prefix(s.stamps, s'.stamps[|s.stamps|..]);
      StaysSpoilt(run, steps, m, n - 1);
    }
  }

  /** In every run, the log by ids is well-formed exactly if no buffer was recorded at an address from which
      another thread was just then moving a buffer away. */
  lemma {:induction false} WellFormedExactly(run: seq<State>, steps: seq<Step>, n: nat)
    requires IsRun(run, steps) && n < |run|
    ensures WellFormed(run[n].stamps) <==> ClearUpTo(run, steps, n)
  {
    if ClearUpTo(run, steps, n) {
      ClearRuns(run, steps, n);
    } else {
      var i :| 0 <= i < n && !Clear(run[i], steps[i].thread, steps[i].action);
      if WellFormed(run[n].stamps) {
        StaysSpoilt(run, steps, i, n);
        WellFormedExactly(run, steps, i);
        ClearRuns(run, steps, i);
        Spoil(run[i], steps[i].thread, steps[i].action);
        StaysSpoilt(run, steps, i + 1, n);
      }
    }
  }

  // ---------------------------------------------------------------------------------
  // From the queues to the merged log

  /** Everything in the queues of the threads. */
  ghost function Queued(queues: seq<seq<Op>>): multiset<Op> {
    if queues == [] then multiset{} else multiset(queues[0]) + Queued(queues[1..])
  }

  /** The records that have an id but are not yet queued. */
  ghost function Pending(threads: seq<Pc>): multiset<Op> {
    if threads == [] then multiset{} else PendingOf(threads[0]) + Pending(threads[1..])
  }

  ghost function PendingOf(pc: Pc): multiset<Op> {
    if pc.Stamped? then multiset{pc.op} else multiset{}
  }

  lemma {:induction false} QueuedUpdate(queues: seq<seq<Op>>, t: nat, op: Op)
    requires t < |queues|
    ensures Queued(queues[t := queues[t] + [op]]) == Queued(queues) + multiset{op}
  {
    var q := queues[t := queues[t] + [op]];
    if t == 0 {
      assert q[1..] == queues[1..];
    } else {
      assert q[1..] == queues[1..][t - 1 := queues[1..][t - 1] + [op]];
      QueuedUpdate(queues[1..], t - 1, op);
    }
  }

  lemma AddToBoth<T>(a: multiset<T>, x: multiset<T>, b: multiset<T>, y: multiset<T>, c: multiset<T>)
    requires x + b == y + c
    ensures a + x + b == a + y + c
  {
    assert a + x + b == a + (x + b);
    assert a + y + c == a + (y + c);
  }

  lemma {:induction false} PendingUpdate(threads: seq<Pc>, t: nat, pc: Pc)
    requires t < |threads|
    ensures Pending(threads[t := pc]) + PendingOf(threads[t]) == Pending(threads) + PendingOf(pc)
  {
    var ts := threads[t := pc];
    if t == 0 {
      assert ts[1..] == threads[1..];
    } else {
      assert ts[1..] == threads[1..][t - 1 := pc];
      PendingUpdate(threads[1..], t - 1, pc);
      AddToBoth(PendingOf(threads[0]), Pending(ts[1..]), PendingOf(threads[t]), Pending(threads[1..]), PendingOf(pc));
    }
  }

  lemma {:induction false} PendingMember(threads: seq<Pc>, op: Op) returns (t: nat)
    requires op in Pending(threads)
    ensures t < |threads| && threads[t] == Stamped(op)
  {
    if threads[0] == Stamped(op) {
      t := 0;
    } else {
      t := PendingMember(threads[1..], op);
      t := t + 1;
    }
  }

  /** Every record with an id is in one queue or on its way to it; ids are 1, 2, 3, ... */
  ghost predicate Tally(s: State) {
    && |s.threads| == |s.queues|
    && s.counter == |s.stamps| && (forall i :: 0 <= i < |s.stamps| ==> s.stamps[i].id == i + 1)
    && multiset(s.stamps) == Queued(s.queues) + Pending(s.threads)
  }

  lemma StampedOnce(s: State, op: Op)
    ensures multiset(s.stamps + [op]) == multiset(s.stamps) + multiset{op}
  {
  }

  /** A record that leaves the pending ones for a queue is still there. */
  lemma Transfer<T>(q: multiset<T>, p: multiset<T>, p': multiset<T>, x: multiset<T>)
    requires p' + x == p
    ensures q + p == (q + x) + p'
  {
    assert q + p == q + (p' + x);
  }

  lemma TallyQuiet(s: State, t: nat, a: Action)
    requires Tally(s) && Enabled(s, t, a) && !Stamping(a)
    ensures Tally(Apply(s, t, a))
  {
    hide Queued, Pending;
    var s' := Apply(s, t, a);
    var p, p' := Pending(s.threads), Pending(s'.threads);
    PendingUpdate(s.threads, t, s'.threads[t]);
    assert p + multiset{} == p && p' + multiset{} == p';
    if a.Enqueue? {
      var op := s.threads[t].op;
      QueuedUpdate(s.queues, t, op);
      Transfer(Queued(s.queues), p, p', multiset{op});
    }
  }

  lemma NewlyPending<T>(q: multiset<T>, p: multiset<T>, p': multiset<T>, x: multiset<T>)
    requires p' + multiset{} == p + x
    ensures q + p + x == q + p'
  {
    assert p' == p' + multiset{};
    assert q + p + x == q + (p + x);
  }

  lemma TallyStamp(s: State, t: nat, a: Action)
    requires Tally(s) && Enabled(s, t, a) && Stamping(a)
    ensures Tally(Apply(s, t, a))
  {
    hide Queued, Pending;
    var s' := Apply(s, t, a);
    var op := StampOp(s, t, a);
    StampedOnce(s, op);
    PendingUpdate(s.threads, t, s'.threads[t]);
    NewlyPending(Queued(s.queues), Pending(s.threads), Pending(s'.threads), multiset{op});
  }

  lemma {:induction false} RunsTally(run: seq<State>, steps: seq<Step>, n: nat)
    requires IsRun(run, steps) && n < |run|
    ensures Tally(run[n])
  {
    if n == 0 {
      NothingQueued(run[0].queues);
      NothingPending(run[0].threads);
    } else {
      RunsTally(run, steps, n - 1);
      var s, t, a := run[n - 1], steps[n - 1].thread, steps[n - 1].action;
      if Stamping(a) {
        TallyStamp(s, t, a);
      } else {
        TallyQuiet(s, t, a);
      }
    }
  }

  lemma {:induction false} NothingQueued(queues: seq<seq<Op>>)
    requires forall t :: 0 <= t < |queues| ==> queues[t] == []
    ensures Queued(queues) == multiset{}
  {
    if queues != [] {
      NothingQueued(queues[1..]);
    }
  }

  lemma {:induction false} NothingPending(threads: seq<Pc>)
    requires forall t :: 0 <= t < |threads| ==> !threads[t].Stamped?
    ensures Pending(threads) == multiset{}
  {
    if threads != [] {
      NothingPending(threads[1..]);
    }
  }

  ghost predicate AscendingIds(log: seq<Op>) {
    forall i, j :: 0 <= i < j < |log| ==> log[i].id < log[j].id
  }

  /** Once no record is on its way, the merged log is the whole history: record i has id i + 1. With
      WellFormedExactly, build_chains then aborts exactly if some step was not clear. */
  lemma QuiescentIsComplete(run: seq<State>, steps: seq<Step>, n: nat, log: seq<Op>)
    requires IsRun(run, steps) && n < |run| && forall t :: 0 <= t < |run[n].threads| ==> !run[n].threads[t].Stamped?
    requires AscendingIds(log) && multiset(log) == Queued(run[n].queues)
    ensures log == run[n].stamps && (forall i :: 0 <= i < |log| ==> log[i].id == i + 1)
    ensures WellFormed(log) <==> ClearUpTo(run, steps, n)
  {
    RunsTally(run, steps, n);
    NothingPending(run[n].threads);
    Sorted(log, run[n].stamps);
    WellFormedExactly(run, steps, n);
  }

  lemma WithoutLast(a: seq<Op>)
    requires a != []
    ensures multiset(a[..|a| - 1]) == multiset(a) - multiset{a[|a| - 1]}
  {
    assert a == a[..|a| - 1] + [a[|a| - 1]];
  }

  lemma LargestLast(a: seq<Op>, op: Op)
    requires AscendingIds(a) && op in multiset(a)
    ensures op.id <= a[|a| - 1].id && (op.id == a[|a| - 1].id ==> op == a[|a| - 1])
  {
    var i :| 0 <= i < |a| && a[i] == op;
  }

  /** A sequence sorted by ids is determined by its elements. */
  lemma {:induction false} Sorted(a: seq<Op>, b: seq<Op>)
    requires AscendingIds(a) && AscendingIds(b) && multiset(a) == multiset(b)
    ensures a == b
  {
    assert |a| == |multiset(a)| == |multiset(b)| == |b|;
    if a != [] {
      var x, y := a[|a| - 1], b[|b| - 1];
      assert x in multiset(a) && y in multiset(b);
      LargestLast(b, x);
      LargestLast(a, y);
      WithoutLast(a);
      WithoutLast(b);
      Sorted(a[..|a| - 1], b[..|b| - 1]);
    }
  }

  // ---------------------------------------------------------------------------------
  // Logs merged while records are still on their way

  ghost predicate PendingOk(s: State, t: nat)
    requires t < |s.threads|
  {
    s.threads[t].Stamped? ==>
      var op := s.threads[t].op;
      && 1 <= op.id <= |s.stamps| && s.stamps[op.id - 1] == op
      && Quiet(s.stamps, op.id - 1)
  }

  ghost predicate PendingsOk(s: State) {
    NoNull(s.stamps) && forall t: nat :: t < |s.threads| ==> PendingOk(s, t)
  }

  lemma KeepPendingQuiet(s: State, t: nat, a: Action)
    requires PendingsOk(s) && Enabled(s, t, a) && !Stamping(a)
    ensures PendingsOk(Apply(s, t, a))
  {
    var s' := Apply(s, t, a);
    forall u: nat | u < |s.threads|
      ensures PendingOk(s', u)
    {
      assert PendingOk(s, u);
    }
  }

  lemma KeepPendingAt(s: State, s': State, u: nat, op: Op)
    requires u < |s.threads| == |s'.threads| && s'.threads[u] == s.threads[u] && PendingOk(s, u)
    requires s'.stamps == s.stamps + [op]
    requires s.threads[u].Stamped? && s.threads[u].op.mem != 0 ==> !Touches(op, s.threads[u].op.mem)
    ensures PendingOk(s', u)
  {
    if s.threads[u].Stamped? {
      QuietLater(s.stamps, op, s.threads[u].op.id - 1);
    }
  }

  lemma KeepPendingStamp(s: State, t: nat, a: Action)
    requires Inv(s) && PendingsOk(s) && Enabled(s, t, a) && Stamping(a) && Clear(s, t, a)
    ensures PendingsOk(Apply(s, t, a))
  {
    var s' := Apply(s, t, a);
    assert PcOk(s, t);
    assert PendingOk(s', t);
    forall u: nat | u < |s.threads| && u != t
      ensures PendingOk(s', u)
    {
      if s.threads[u].Stamped? {
        Untouched(s, t, a, u);
      }
      KeepPendingAt(s, s', u, StampOp(s, t, a));
    }
  }

  /** A clear stamping step does not concern the buffer another thread is recording. */
  lemma Untouched(s: State, t: nat, a: Action, u: nat)
    requires Inv(s) && Enabled(s, t, a) && Stamping(a) && u < |s.threads| && u != t && s.threads[u].Stamped?
    ensures s.threads[u].op.mem != 0 ==> !Touches(StampOp(s, t, a), s.threads[u].op.mem)
  {
    var b := s.threads[u].op.mem;
    if b != 0 {
      assert b in Held(s.threads[u]) && b in Settled(s.threads[u]);
      assert b !in Held(s.threads[t]) && b !in Vacated(s.threads[t]) && b !in s.owned;
    }
  }

  lemma {:induction false} RunsPending(run: seq<State>, steps: seq<Step>, n: nat)
    requires IsRun(run, steps) && n < |run| && ClearUpTo(run, steps, n)
    ensures PendingsOk(run[n])
  {
    if n > 0 {
      RunsPending(run, steps, n - 1);
      ClearRuns(run, steps, n - 1);
      if Stamping(steps[n - 1].action) {
        KeepPendingStamp(run[n - 1], steps[n - 1].thread, steps[n - 1].action);
      } else {
        KeepPendingQuiet(run[n - 1], steps[n - 1].thread, steps[n - 1].action);
      }
    }
  }

  lemma StampOf(s: State, op: Op)
    requires Tally(s) && op in Queued(s.queues)
    ensures 1 <= op.id <= |s.stamps| && s.stamps[op.id - 1] == op
  {
    assert op in multiset(s.stamps);
    var k :| 0 <= k < |s.stamps| && s.stamps[k] == op;
  }

  lemma MissingIsPending(s: State, p: nat) returns (t: nat)
    requires Tally(s) && p < |s.stamps| && s.stamps[p] !in Queued(s.queues)
    ensures t < |s.threads| && s.threads[t] == Stamped(s.stamps[p])
  {
    var op := s.stamps[p];
    assert op in multiset(s.stamps);
    t := PendingMember(s.threads, op);
  }

  lemma {:induction false} PendingHas(threads: seq<Pc>, t: nat)
    requires t < |threads| && threads[t].Stamped?
    ensures threads[t].op in Pending(threads)
  {
    if t > 0 {
      PendingHas(threads[1..], t - 1);
    }
  }

  /** A record on its way is in no queue yet. */
  lemma PendingNotQueued(s: State, t: nat)
    requires Tally(s) && t < |s.threads| && s.threads[t].Stamped?
    ensures s.threads[t].op !in Queued(s.queues)
  {
    PendingHas(s.threads, t);
    Bags.Once(s.stamps, s.threads[t].op);
  }

  ghost function Position(op: Op): nat {
    if op.id == 0 then 0 else op.id - 1
  }

  /** Where the records of a merged log stand in the history. */
  ghost predicate Positions(s: State, log: seq<Op>, f: seq<nat>) {
    && |f| == |log| &&
       (forall i :: 0 <= i < |log| ==> f[i] == Position(log[i]) < |s.stamps| && s.stamps[f[i]] == log[i])
    && (forall p: nat :: p < |s.stamps| ==> (p in f <==> s.stamps[p] in log))
  }

  lemma HavePositions(s: State, log: seq<Op>) returns (f: seq<nat>)
    requires Tally(s) && multiset(log) == Queued(s.queues)
    ensures Positions(s, log, f)
  {
    f := seq(|log|, i requires 0 <= i < |log| => Position(log[i]));
    forall i | 0 <= i < |log|
      ensures f[i] < |s.stamps| && s.stamps[f[i]] == log[i]
    {
      assert log[i] in multiset(log);
      StampOf(s, log[i]);
    }
    forall p: nat | p < |s.stamps|
      ensures p in f <==> s.stamps[p] in log
    {
      if s.stamps[p] in log {
        var i :| 0 <= i < |log| && log[i] == s.stamps[p];
        assert f[i] == p;
      }
    }
  }

  lemma Embedded(s: State, log: seq<Op>, f: seq<nat>)
    requires Tally(s) && PendingsOk(s) && AscendingIds(log) && multiset(log) == Queued(s.queues) && Positions(s, log, f)
    ensures Embeds(log, s.stamps, f)
  {
    forall p: nat | p < |s.stamps| && p !in f
      ensures Quiet(s.stamps, p)
    {
      assert s.stamps[p] !in multiset(log);
      var t := MissingIsPending(s, p);
      assert PendingOk(s, t);
    }
    forall i, j | 0 <= i < j < |log|
      ensures f[i] < f[j]
    {
      StampOf(s, log[i]);
    }
  }

  /** No queued record with a larger id makes the buffer available that thread `t` has moved away and not yet said
      so. */
  ghost predicate OldStaysFree(s: State, t: nat, log: seq<Op>)
    requires t < |s.threads|
  {
    s.threads[t].Stamped? && s.threads[t].op.kind.Realloc? ==>
      forall op <- log :: op.id > s.threads[t].op.id && IsOpener(op) ==> op.mem != s.threads[t].op.realloc
  }

  lemma OldsStayFree(s: State, log: seq<Op>, f: seq<nat>)
    requires Tally(s) && PendingsOk(s) && multiset(log) == Queued(s.queues) && Positions(s, log, f)
    requires forall t :: 0 <= t < |s.threads| ==> OldStaysFree(s, t, log)
    ensures NoneReopened(s.stamps, f)
  {
    forall p: nat | p < |s.stamps| && p !in f
      ensures NotReopened(s.stamps, f, p)
    {
      assert s.stamps[p] !in multiset(log);
      var t := MissingIsPending(s, p);
      assert OldStaysFree(s, t, log);
    }
  }

  lemma OldReopened(s: State, log: seq<Op>, f: seq<nat>, t: nat)
    requires Tally(s) && PendingsOk(s) && multiset(log) == Queued(s.queues) && Positions(s, log, f)
    requires t < |s.threads| && !OldStaysFree(s, t, log)
    ensures !NoneReopened(s.stamps, f)
  {
    var r := s.threads[t].op;
    var op :| op in log && op.id > r.id && IsOpener(op) && op.mem == r.realloc;
    assert PendingOk(s, t);
    var i :| 0 <= i < |log| && log[i] == op;
    assert f[i] in f && s.stamps[f[i]] == op;
    PendingNotQueued(s, t);
    assert !NotReopened(s.stamps, f, r.id - 1);
  }

  /** Whenever the program ends, the queued records sorted by id are a well-formed log exactly if no thread has an
      id for a realloc, not yet queued, whose old buffer a queued record with a larger id makes available. Sizes are
      balanced then. Records of allocations and releases that are not yet queued do no harm. */
  lemma MergedIsWellFormed(run: seq<State>, steps: seq<Step>, n: nat, log: seq<Op>)
    requires IsRun(run, steps) && n < |run| && ClearUpTo(run, steps, n)
    requires AscendingIds(log) && multiset(log) == Queued(run[n].queues)
    ensures WellFormed(log) <==> forall t :: 0 <= t < |run[n].threads| ==> OldStaysFree(run[n], t, log)
    ensures WellFormed(log) ==> Balanced(log)
  {
    var s := run[n];
    ClearRuns(run, steps, n);
    RunsTally(run, steps, n);
    RunsPending(run, steps, n);
    var f := HavePositions(s, log);
    Embedded(s, log, f);
    LeaveOutExactly(log, s.stamps, f);
    if t: nat :| t < |s.threads| && !OldStaysFree(s, t, log) {
      OldReopened(s, log, f, t);
    } else {
      OldsStayFree(s, log, f);
      LeaveOutBalanced(log, s.stamps, f);
    }
  }

  // ---------------------------------------------------------------------------------
  // Reallocs that are not interrupted

  /** Every realloc takes its id in the step after it has moved the buffer. */
  ghost predicate AtomicReallocs(steps: seq<Step>) {
    forall i :: 0 <= i < |steps| && steps[i].action.MoveHeap? ==> FollowedByStamp(steps, i)
  }

  ghost predicate FollowedByStamp(steps: seq<Step>, i: nat) {
    i + 1 < |steps| && steps[i + 1] == Step(steps[i].thread, StampMove)
  }

  lemma {:induction false} JustMoved(run: seq<State>, steps: seq<Step>, n: nat, u: nat)
    requires IsRun(run, steps) && AtomicReallocs(steps) && n < |run| && u < |run[n].threads| && run[n].threads[u].Moved?
    ensures n > 0 && steps[n - 1].thread == u && steps[n - 1].action.MoveHeap?
  {
    if n > 0 && run[n - 1].threads[u].Moved? {
      JustMoved(run, steps, n - 1, u);
      assert FollowedByStamp(steps, n - 2);
    }
  }

  /** If no realloc is interrupted between its heap call and its id, every step is clear: the log is then a
      well-formed history in every interleaving. */
  lemma AtomicIsClear(run: seq<State>, steps: seq<Step>, n: nat)
    requires IsRun(run, steps) && AtomicReallocs(steps) && n < |run|
    ensures ClearUpTo(run, steps, n) && WellFormed(run[n].stamps)
  {
    forall i | 0 <= i < n
      ensures Clear(run[i], steps[i].thread, steps[i].action)
    {
      forall u | 0 <= u < |run[i].threads| && u != steps[i].thread
        ensures Vacated(run[i].threads[u]) == {}
      {
        if run[i].threads[u].Moved? {
          JustMoved(run, steps, i, u);
        }
      }
    }
    WellFormedExactly(run, steps, n);
  }

  // ---------------------------------------------------------------------------------
  // A run that is not clear

  /** One thread moves a buffer from 16 to 32; before it has its id, another thread gets and records 16. */
  const RACE: seq<Step> := [
    Step(0, HeapAlloc(16, 8)), Step(0, StampAlloc), Step(0, Enqueue), Step(0, MoveHeap(16, 32, 9)),
    Step(1, HeapAlloc(16, 7)), Step(1, StampAlloc)]

  /** The states of its first five steps; `A` is the record of the allocation. */
  const A: Op := Op(1, Alloc, 16, 0, 8)
  const S0: State := State([Idle, Idle], [[], []], map[], {}, 0, [])
  const S1: State := State([Allocated(16, 8), Idle], [[], []], map[16 := 8], {}, 0, [])
  const S2: State := State([Stamped(A), Idle], [[], []], map[16 := 8], {}, 1, [A])
  const S3: State := State([Idle, Idle], [[A], []], map[16 := 8], {16}, 1, [A])
  const S4: State := State([Moved(16, 32, 8, 9), Idle], [[A], []], map[32 := 9], {}, 1, [A])

  ghost predicate Leads(s: State, step: Step, s': State) {
    Enabled(s, step.thread, step.action) && s' == Apply(s, step.thread, step.action)
  }

  lemma FirstSteps()
    ensures Init(S0) && Leads(S0, RACE[0], S1) && Leads(S1, RACE[1], S2) && Leads(S2, RACE[2], S3) &&
            Leads(S3, RACE[3], S4)
  {
    FirstInQueue(A);
    assert S3.owned == S2.owned + {16};
    assert S4.owned == S3.owned - {16} && S4.heap == (S3.heap - {16})[32 := 9];
  }

  lemma MovingReallocRaces()
    ensures exists run: seq<State> :: IsRun(run, RACE) && !WellFormed(run[|RACE|].stamps)
  {
    var s5 := State([Moved(16, 32, 8, 9), Allocated(16, 7)], [[A], []], map[32 := 9, 16 := 7], {}, 1, [A]);
    var s6 := Apply(s5, 1, StampAlloc);
    var run := [S0, S1, S2, S3, S4, s5, s6];
    FirstSteps();
    assert Leads(S4, RACE[4], s5) && Leads(s5, RACE[5], s6);
    assert IsRun(run, RACE);
    assert !Clear(run[5], RACE[5].thread, RACE[5].action) by {
      assert 16 in Vacated(s5.threads[0]);
    }
    WellFormedExactly(run, RACE, 6);
  }

  // ---------------------------------------------------------------------------------
  // A run that ends too early

  /** One thread has moved a buffer from 16 to 32 and has the id for it, but has not queued the record; another
      thread gets and records 16. */
  const LATE: seq<Step> := [
    Step(0, HeapAlloc(16, 8)), Step(0, StampAlloc), Step(0, Enqueue), Step(0, MoveHeap(16, 32, 9)), Step(0, StampMove),
    Step(1, HeapAlloc(16, 7)), Step(1, StampAlloc), Step(1, Enqueue)]

  const LATE_LOG: seq<Op> := [Op(1, Alloc, 16, 0, 8), Op(3, Alloc, 16, 0, 7)]

  /** Every step of this run is clear, and yet the queued records are no well-formed log. */
  lemma PendingReallocMissing()
    ensures exists run: seq<State> ::
              && IsRun(run, LATE) && ClearUpTo(run, LATE, |LATE|)
              && AscendingIds(LATE_LOG) && multiset(LATE_LOG) == Queued(run[|LATE|].queues) && !WellFormed(LATE_LOG)
  {
    hide Apply, Queued;
    var run := [S0, S1, S2, S3, S4, LATE5, LATE6, LATE7, LATE8];
    FirstSteps();
    LateSteps();
    assert IsRun(run, LATE);
    assert ClearUpTo(run, LATE, |LATE|);
    TwoQueues(A, LATE_LOG[1]);
    assert Alive(LATE_LOG, 1, 0) && !Link(LATE_LOG, 0, 1) && !StepOk(LATE_LOG, 1);
  }

  const MOVED: Op := Op(2, Realloc, 32, 16, 1)
  const LATE5: State := State([Stamped(MOVED), Idle], [[A], []], map[32 := 9], {}, 2, [A, MOVED])
  const LATE6: State := LATE5.(threads := [Stamped(MOVED), Allocated(16, 7)], heap := map[32 := 9, 16 := 7])
  const LATE7: State :=
    LATE6.(threads := [Stamped(MOVED), Stamped(LATE_LOG[1])], counter := 3, stamps := [A, MOVED, LATE_LOG[1]])
  const LATE8: State := LATE7.(threads := [Stamped(MOVED), Idle], queues := [[A], [LATE_LOG[1]]], owned := {16})

  lemma LateSteps()
    ensures Leads(S4, LATE[4], LATE5) && Leads(LATE5, LATE[5], LATE6)
    ensures Leads(LATE6, LATE[6], LATE7) && Leads(LATE7, LATE[7], LATE8)
  {
    FirstInQueue(LATE_LOG[1]);
    assert LATE8.owned == LATE7.owned + {16};
  }

  lemma FirstInQueue(op: Op)
    ensures [[], []][0 := [] + [op]] == [[op], []] && [[A], []][1 := [] + [op]] == [[A], [op]]
  {
    var empty: seq<Op> := [];
    assert empty + [op] == [op];
    var q := [empty, empty][0 := [op]];
    assert q[0] == [op] && q[1] == empty && q == [[op], empty];
    var p := [[A], empty][1 := [op]];
    assert p[0] == [A] && p[1] == [op] && p == [[A], [op]];
  }

  lemma TwoQueues(a: Op, b: Op)
    ensures Queued([[a], [b]]) == multiset([a, b])
  {
    assert [[a], [b]][1..] == [[b]] && [[b]][1..] == [];
    assert Queued([[b]]) == multiset([b]) + Queued([]);
    assert multiset([a, b]) == multiset([a]) + multiset([b]);
  }
}
