/** The log of memory operations that mprofile/record.c collects, and what it means for operations
    to belong to the same buffer. Nothing here depends on how the log is processed. */
module History {

  datatype Kind = Alloc | Free | Realloc

  /** The part of struct mprofile_record that is fixed when the record is made; address 0 is NULL. */
  datatype Op = Op(id: nat, kind: Kind, mem: nat, realloc: nat, delta: int)

  /** The operation makes a buffer available at `op.mem`. */
  predicate IsOpener(op: Op) {
    !op.kind.Free?
  }

  /** The operation gives up the buffer at `Target(op)`; releasing NULL gives up nothing. */
  predicate IsCloser(op: Op) {
    op.kind.Realloc? || (op.kind.Free? && op.mem != 0)
  }

  function Target(op: Op): nat {
    if op.kind.Realloc? then op.realloc else op.mem
  }

  predicate Closes(op: Op, a: nat) {
    IsCloser(op) && Target(op) == a
  }

  /** Before step `n`, the buffer made available by step `i` has not been given up. */
  ghost predicate Alive(log: seq<Op>, n: nat, i: nat) {
    && i < n <= |log| && IsOpener(log[i])
    && forall k | i < k < n :: !Closes(log[k], log[i].mem)
  }

  /** Step `j` gives up the buffer made available by step `i`. */
  ghost predicate Link(log: seq<Op>, i: nat, j: nat) {
    j < |log| && Alive(log, j, i) && Closes(log[j], log[i].mem)
  }

  /** None of the first `n` steps gives up the buffer of step `i`. */
  ghost predicate NoNext(log: seq<Op>, n: nat, i: nat) {
    forall j: nat :: j < n ==> !Link(log, i, j)
  }

  /** Step `j` is not among the first `n`, or gives up no buffer. */
  ghost predicate NoPrev(log: seq<Op>, n: nat, j: nat) {
    forall i: nat :: j < n ==> !Link(log, i, j)
  }

  /** Step `j` gives up a live buffer if any, and makes one available only at a free address. */
  ghost predicate StepOk(log: seq<Op>, j: nat)
    requires j < |log|
  {
    && (IsCloser(log[j]) ==> exists i: nat :: Link(log, i, j))
    && (IsOpener(log[j]) ==> forall i: nat :: Alive(log, j, i) && log[i].mem == log[j].mem ==> Link(log, i, j))
  }

  ghost predicate WellFormedUpTo(log: seq<Op>, n: nat)
    requires n <= |log|
  {
    forall j: nat | j < n :: StepOk(log, j)
  }

  ghost predicate WellFormed(log: seq<Op>) {
    WellFormedUpTo(log, |log|)
  }

  /** In a well-formed log the live buffers have different addresses. */
  lemma AliveUnique(log: seq<Op>, n: nat, i: nat, i': nat)
    requires n <= |log| && WellFormedUpTo(log, n)
    requires Alive(log, n, i) && Alive(log, n, i') && log[i].mem == log[i'].mem
    ensures i == i'
  {
    if i < i' {
      assert StepOk(log, i') && Alive(log, i', i);
    } else if i' < i {
      assert StepOk(log, i) && Alive(log, i, i');
    }
  }

  /** Links form chains: a step has at most one successor and at most one predecessor. */
  lemma LinkUnique(log: seq<Op>, i: nat, j: nat, i': nat, j': nat)
    requires WellFormed(log) && Link(log, i, j) && Link(log, i', j')
    ensures i == i' <==> j == j'
  {
    if j == j' {
      AliveUnique(log, j, i, i');
    }
  }

  lemma AliveStep(log: seq<Op>, n: nat, i: nat)
    requires n < |log|
    ensures Alive(log, n + 1, i) <==>
            if i == n then IsOpener(log[n]) else Alive(log, n, i) && !Link(log, i, n)
  {
  }

  // ---------------------------------------------------------------------------------
  // Growing a log

  /** What a longer log says about its older steps. */
  lemma Prefix(log: seq<Op>, more: seq<Op>)
    ensures forall n: nat, i: nat :: n <= |log| ==> (Alive(log + more, n, i) <==> Alive(log, n, i))
    ensures forall i: nat, j: nat :: j < |log| ==> (Link(log + more, i, j) <==> Link(log, i, j))
    ensures forall j: nat :: j < |log| ==> (StepOk(log + more, j) <==> StepOk(log, j))
    ensures WellFormedUpTo(log + more, |log|) <==> WellFormed(log)
  {
    var w := log + more;
    assert forall i: nat :: i < |log| ==> w[i] == log[i];
    forall n: nat, i: nat | n <= |log|
      ensures Alive(w, n, i) <==> Alive(log, n, i)
    {
    }
    forall j: nat | j < |log|
      ensures StepOk(w, j) <==> StepOk(log, j)
    {
      assert forall i: nat :: Link(w, i, j) <==> Link(log, i, j);
    }
  }

  /** `a` holds a live buffer at the end of the log. */
  ghost predicate LiveAt(log: seq<Op>, a: nat) {
    exists i: nat :: Alive(log, |log|, i) && log[i].mem == a
  }

  /** A step may be appended if it gives up a live buffer and makes one available at a free address. */
  ghost predicate MayAppend(log: seq<Op>, op: Op) {
    && (IsCloser(op) ==> LiveAt(log, Target(op)))
    && (IsOpener(op) ==> LiveAt(log, op.mem) ==> Closes(op, op.mem))
  }

  lemma Append(log: seq<Op>, op: Op)
    requires WellFormed(log)
    ensures WellFormed(log + [op]) <==> MayAppend(log, op)
  {
    var w, n := log + [op], |log|;
    Prefix(log, [op]);
    if StepOk(w, n) && IsCloser(op) {
      var i: nat :| Link(w, i, n);
      assert Alive(log, n, i);
    }
    if MayAppend(log, op) && IsCloser(op) {
      var i: nat :| Alive(log, n, i) && log[i].mem == Target(op);
      assert Link(w, i, n);
    }
    assert IsOpener(op) ==> forall i: nat :: Alive(w, n, i) <==> Alive(log, n, i);
    assert StepOk(w, n) <==> MayAppend(log, op);
    assert WellFormed(w) <==> StepOk(w, n);
  }

  lemma AliveAfter(log: seq<Op>, op: Op, i: nat)
    ensures Alive(log + [op], |log| + 1, i) <==>
            if i == |log| then IsOpener(op) else Alive(log, |log|, i) && !Closes(op, log[i].mem)
  {
    Prefix(log, [op]);
    AliveStep(log + [op], |log|, i);
  }

  /** Which addresses are live after one more step. */
  lemma LiveAfter(log: seq<Op>, op: Op, a: nat)
    ensures LiveAt(log + [op], a) <==> (IsOpener(op) && op.mem == a) || (LiveAt(log, a) && !Closes(op, a))
  {
    var w, n := log + [op], |log|;
    forall i: nat
      ensures Alive(w, n + 1, i) <==> if i == n then IsOpener(op) else Alive(log, n, i) && !Closes(op, log[i].mem)
    {
      AliveAfter(log, op, i);
    }
    if IsOpener(op) && op.mem == a {
      assert Alive(w, n + 1, n);
    } else if LiveAt(log, a) && !Closes(op, a) {
      var i: nat :| Alive(log, n, i) && log[i].mem == a;
      assert Alive(w, n + 1, i);
    }
  }

  // ---------------------------------------------------------------------------------
  // Sizes

  /** The size of the buffer that step `i` leaves behind: its changes of size since the allocation. */
  ghost function SizeAt(log: seq<Op>, i: nat): int
    requires i < |log|
    decreases i
  {
    if log[i].kind.Realloc? && exists p: nat :: Link(log, p, i)
    then var p: nat :| Link(log, p, i); SizeAt(log, p) + log[i].delta
    else log[i].delta
  }

  lemma SizeOfRealloc(log: seq<Op>, p: nat, i: nat)
    requires WellFormed(log) && Link(log, p, i) && log[i].kind.Realloc?
    ensures SizeAt(log, i) == SizeAt(log, p) + log[i].delta
  {
    forall q: nat | Link(log, q, i)
      ensures q == p
    {
      LinkUnique(log, p, i, q, i);
    }
  }

  lemma {:induction false} SizePrefix(log: seq<Op>, more: seq<Op>, i: nat)
    requires WellFormed(log + more) && i < |log|
    ensures SizeAt(log + more, i) == SizeAt(log, i)
  {
    Prefix(log, more);
    assert WellFormed(log);
    if log[i].kind.Realloc? && exists p: nat :: Link(log, p, i) {
      var p: nat :| Link(log, p, i);
      SizeOfRealloc(log, p, i);
      SizeOfRealloc(log + more, p, i);
      SizePrefix(log, more, p);
    }
  }

  /** Every release gives back the size that its buffer has. */
  ghost predicate Balanced(log: seq<Op>) {
    && (forall i: nat, j: nat :: Link(log, i, j) && log[j].kind.Free? ==> log[j].delta == -SizeAt(log, i))
    && (forall j: nat :: j < |log| && log[j].kind.Free? && log[j].mem == 0 ==> log[j].delta == 0)
  }

  // ---------------------------------------------------------------------------------
  // Leaving out steps

  ghost predicate Touches(op: Op, a: nat) {
    Closes(op, a) || (IsOpener(op) && op.mem == a)
  }

  /** No step after `p` concerns the buffer of step `p`. */
  ghost predicate Quiet(log: seq<Op>, p: nat) {
    p < |log| && log[p].mem != 0 ==> forall k | p < k < |log| :: !Touches(log[k], log[p].mem)
  }

  /** `w` is the log without some quiet steps; `f` says where its steps stand in the log. */
  ghost predicate Embeds(w: seq<Op>, log: seq<Op>, f: seq<nat>) {
    && |f| == |w|
    && (forall i :: 0 <= i < |w| ==> f[i] < |log| && w[i] == log[f[i]])
    && (forall i, j :: 0 <= i < j < |w| ==> f[i] < f[j])
    && (forall p: nat :: p < |log| && p !in f ==> Quiet(log, p))
  }

  /** Address 0 is never made available. */
  ghost predicate NoNull(log: seq<Op>) {
    forall i :: 0 <= i < |log| ==> IsOpener(log[i]) ==> log[i].mem != 0
  }

  /** None of the steps that remain makes the buffer available again that step `p`, a realloc, has given up. */
  ghost predicate NotReopened(log: seq<Op>, f: seq<nat>, p: nat)
    requires p < |log|
  {
    log[p].kind.Realloc? ==> forall k | p < k < |log| && k in f :: IsOpener(log[k]) ==> log[k].mem != log[p].realloc
  }

  ghost predicate NoneReopened(log: seq<Op>, f: seq<nat>) {
    forall p: nat :: p < |log| && p !in f ==> NotReopened(log, f, p)
  }

  /** A step that remains concerns no buffer that a step left out has given up. */
  lemma GivenUp(w: seq<Op>, log: seq<Op>, f: seq<nat>, k: nat, n: nat, a: nat)
    requires Embeds(w, log, f) && NoNull(log) && WellFormed(log) && NoneReopened(log, f)
    requires n < |w| && k < f[n] && k !in f && a != 0 && Closes(log[k], a)
    ensures !Touches(w[n], a)
  {
    assert Quiet(log, k) && NotReopened(log, f, k) && f[n] in f;
    if Closes(w[n], a) {
      assert StepOk(log, f[n]);
      var i: nat :| Link(log, i, f[n]);
      assert k <= i && (i !in f ==> Quiet(log, i));
    }
  }

  lemma EmbedAlive(w: seq<Op>, log: seq<Op>, f: seq<nat>, n: nat, i: nat)
    requires Embeds(w, log, f) && NoNull(log) && WellFormed(log) && NoneReopened(log, f)
    requires n < |w| && Alive(w, n, i) && Touches(w[n], w[i].mem)
    ensures Alive(log, f[n], f[i])
  {
    forall k | f[i] < k < f[n]
      ensures !Closes(log[k], w[i].mem)
    {
      if k in f {
        var m :| 0 <= m < |f| && f[m] == k;
        assert i < m < n;
      } else if Closes(log[k], w[i].mem) {
        GivenUp(w, log, f, k, n, w[i].mem);
      }
    }
  }

  lemma EmbedLink(w: seq<Op>, log: seq<Op>, f: seq<nat>, i': nat, n: nat) returns (i: nat)
    requires Embeds(w, log, f) && NoNull(log) && n < |w| && Link(log, i', f[n])
    ensures i < n && f[i] == i' && Link(w, i, n)
  {
    assert Quiet(log, i') ==> !Touches(log[f[n]], log[i'].mem);
    i :| 0 <= i < |f| && f[i] == i';
    forall k | i < k < n
      ensures !Closes(w[k], w[i].mem)
    {
      assert f[i] < f[k] < f[n];
    }
  }

  /** A well-formed log stays well-formed without some quiet steps, and the links of the others stay what they are,
      if none of the buffers that these steps have given up is made available again. */
  lemma LeaveOut(w: seq<Op>, log: seq<Op>, f: seq<nat>)
    requires Embeds(w, log, f) && NoNull(log) && WellFormed(log) && NoneReopened(log, f)
    ensures WellFormed(w)
    ensures forall i: nat, j: nat :: Link(w, i, j) <==> j < |w| && i < j && Link(log, f[i], f[j])
  {
    forall i: nat, j: nat | i < j < |w|
      ensures Link(w, i, j) <==> Link(log, f[i], f[j])
    {
      if Link(w, i, j) {
        EmbedAlive(w, log, f, j, i);
      }
      assert forall k | i < k < j :: f[i] < f[k] < f[j];
    }
    forall j: nat | j < |w|
      ensures StepOk(w, j)
    {
      assert StepOk(log, f[j]);
      if IsCloser(w[j]) {
        var i': nat :| Link(log, i', f[j]);
        var i := EmbedLink(w, log, f, i', j);
      }
      forall i: nat | IsOpener(w[j]) && Alive(w, j, i) && w[i].mem == w[j].mem
        ensures Link(w, i, j)
      {
        EmbedAlive(w, log, f, j, i);
        assert Link(log, f[i], f[j]);
      }
    }
  }

  /** The first step after `p` that makes `a` available. */
  ghost predicate FirstOpener(log: seq<Op>, p: nat, a: nat, m: nat) {
    && p < m < |log| && IsOpener(log[m]) && log[m].mem == a
    && forall k | p < k < m :: !(IsOpener(log[k]) && log[k].mem == a)
  }

  lemma {:induction false} FindFirst(log: seq<Op>, p: nat, a: nat, m: nat) returns (first: nat)
    requires p < m < |log| && IsOpener(log[m]) && log[m].mem == a
    ensures FirstOpener(log, p, a, first) && first <= m
    decreases m
  {
    first := m;
    if k: nat :| p < k < m && IsOpener(log[k]) && log[k].mem == a {
      first := FindFirst(log, p, a, k);
    }
  }

  /** Nothing gives up `a` between its release by the realloc `p`, which moves the buffer away, and the next step that
      makes it available. */
  lemma StaysFree(log: seq<Op>, p: nat, m: nat, k: nat)
    requires WellFormed(log) && p < k <= m && p < |log| && log[p].kind.Realloc? && log[p].mem != log[p].realloc
    requires FirstOpener(log, p, log[p].realloc, m)
    ensures !Closes(log[k], log[p].realloc)
  {
    assert StepOk(log, k);
    forall i: nat | Link(log, i, k)
      ensures log[i].mem != log[p].realloc
    {
      assert i < p ==> !Closes(log[p], log[i].mem);
    }
  }

  /** Without the realloc that gave it up, a buffer is still live when its address is made available again. */
  lemma Reopened(w: seq<Op>, log: seq<Op>, f: seq<nat>, p: nat)
    requires Embeds(w, log, f) && NoNull(log) && WellFormed(log) && p < |log| && p !in f && !NotReopened(log, f, p)
    ensures !WellFormed(w)
  {
    var a := log[p].realloc;
    var k :| p < k < |log| && k in f && IsOpener(log[k]) && log[k].mem == a;
    assert Quiet(log, p) && Touches(log[k], a);
    var first := FindFirst(log, p, a, k);
    assert StepOk(log, p);
    var o: nat :| Link(log, o, p);
    assert Closes(log[p], a) && log[o].mem == a && a != 0;
    assert (o !in f ==> Quiet(log, o)) && (first !in f ==> Quiet(log, first));
    var i :| 0 <= i < |f| && f[i] == o;
    assert first in f by {
      assert first < k ==> Touches(log[k], log[first].mem);
    }
    var n :| 0 <= n < |f| && f[n] == first;
    assert Alive(w, n, i) by {
      assert i < n;
      forall m | i < m < n
        ensures !Closes(w[m], a)
      {
        assert o < f[m] < first && f[m] != p;
        if p < f[m] {
          StaysFree(log, p, first, f[m]);
        }
      }
    }
    StaysFree(log, p, first, first);
    assert !StepOk(w, n);
  }

  /** What remains of a well-formed log is well-formed exactly if no step that is left out is a realloc whose old
      buffer is made available again. */
  lemma LeaveOutExactly(w: seq<Op>, log: seq<Op>, f: seq<nat>)
    requires Embeds(w, log, f) && NoNull(log) && WellFormed(log)
    ensures WellFormed(w) <==> NoneReopened(log, f)
  {
    if NoneReopened(log, f) {
      LeaveOut(w, log, f);
    } else {
      var p: nat :| p < |log| && p !in f && !NotReopened(log, f, p);
      Reopened(w, log, f, p);
    }
  }

  lemma {:induction false} LeaveOutSize(w: seq<Op>, log: seq<Op>, f: seq<nat>, i: nat)
    requires Embeds(w, log, f) && NoNull(log) && WellFormed(log) && NoneReopened(log, f) && i < |w|
    ensures SizeAt(w, i) == SizeAt(log, f[i])
    decreases i
  {
    LeaveOut(w, log, f);
    if w[i].kind.Realloc? {
      assert StepOk(log, f[i]);
      var p': nat :| Link(log, p', f[i]);
      var p := EmbedLink(w, log, f, p', i);
      SizeOfRealloc(log, p', f[i]);
      SizeOfRealloc(w, p, i);
      LeaveOutSize(w, log, f, p);
    }
  }

  lemma LeaveOutBalanced(w: seq<Op>, log: seq<Op>, f: seq<nat>)
    requires Embeds(w, log, f) && NoNull(log) && WellFormed(log) && NoneReopened(log, f) && Balanced(log)
    ensures Balanced(w)
  {
    LeaveOut(w, log, f);
    forall i: nat, j: nat | Link(w, i, j) && w[j].kind.Free?
      ensures w[j].delta == -SizeAt(w, i)
    {
      LeaveOutSize(w, log, f, i);
      assert Link(log, f[i], f[j]);
    }
  }

  lemma QuietLater(log: seq<Op>, op: Op, p: nat)
    requires p < |log| && Quiet(log, p) && (log[p].mem != 0 ==> !Touches(op, log[p].mem))
    ensures Quiet(log + [op], p)
  {
  }
}
