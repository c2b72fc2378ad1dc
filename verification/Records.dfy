/** Records and the chains of mprofile/record.c. */
module Records {
  import opened History
  import opened RbShape
  import opened RbTree
  import TailQueue

  /** struct mprofile_record, with its embedded queue and tree entries. */
  class Record {
    const op: Op
    var stackId: nat
    var prevId: nat
    var nextId: nat
    var tqe: TailQueue.Entry?<Record>
    var rbe: Node?<Op, Record>

    /** create_mprofile_record, with the fields that its callers fill in. */
    constructor (op: Op)
      ensures this.op == op && stackId == prevId == nextId == 0
      ensures Intact() && fresh(tqe) && fresh(rbe)
    {
      this.op := op;
      stackId, prevId, nextId, tqe, rbe := 0, 0, 0, null, null;
      new;
      tqe := new TailQueue.Entry(this);
      rbe := new Node(op, this);
    }

    /** The embedded entries belong to this record. */
    ghost predicate Intact()
      reads this`tqe, this`rbe
    {
      && tqe != null && tqe.elem == this
      && rbe != null && rbe.elem == this && rbe.key == op
    }
  }

  function Sign(a: nat, b: nat): int {
    if a < b then -1 else if a > b then 1 else 0
  }

  /** record_id_compare and record_mem_compare. */
  function IdCompare(a: Op, b: Op): int {
    Sign(a.id, b.id)
  }

  function MemCompare(a: Op, b: Op): int {
    Sign(a.mem, b.mem)
  }

  ghost function Ops(recs: seq<Record>): (log: seq<Op>)
    ensures |log| == |recs| && forall i :: 0 <= i < |recs| ==> log[i] == recs[i].op
  {
    seq(|recs|, i requires 0 <= i < |recs| => recs[i].op)
  }

  /** The tree entries of the records. */
  ghost predicate Entries(recs: seq<Record>, nodes: seq<Node<Op, Record>>) {
    |nodes| == |recs| && forall i :: 0 <= i < |recs| ==> nodes[i].elem == recs[i] && nodes[i].key == recs[i].op
  }

  lemma NodesDiffer(recs: seq<Record>, nodes: seq<Node<Op, Record>>)
    requires Entries(recs, nodes) && TailQueue.NoDuplicates(recs)
    ensures TailQueue.NoDuplicates(nodes)
  {
    forall i, j | 0 <= i < j < |nodes|
      ensures nodes[i] != nodes[j]
    {
      assert nodes[i].elem == recs[i] && nodes[j].elem == recs[j];
    }
  }

  /** The links of the records after the first `n` steps are those of the log, and only those. */
  ghost predicate Chained(recs: seq<Record>, n: nat)
    requires n <= |recs|
    reads recs`nextId, recs`prevId
  {
    var log := Ops(recs);
    && (forall i: nat, j: nat :: j < n && Link(log, i, j) ==>
        recs[i].nextId == log[j].id && recs[j].prevId == log[i].id)
    && (forall i: nat {:trigger NoNext(log, n, i)} :: i < |recs| && NoNext(log, n, i) ==> recs[i].nextId == 0)
    && (forall j: nat {:trigger NoPrev(log, n, j)} :: j < |recs| && NoPrev(log, n, j) ==> recs[j].prevId == 0)
  }

  lemma MemOrdering()
    ensures Ordering(MemCompare) && Ordering(IdCompare)
  {
  }

  /** The state of build_chains before step `n`; during the step, `closed` says that its buffer has been given up. */
  ghost predicate Replaying(memtree: RbHead<Op, Record>, recs: seq<Record>, nodes: seq<Node<Op, Record>>, n: nat,
                            closed: bool)
    requires n <= |recs| && (closed ==> n < |recs|)
    reads memtree, memtree.nodes
  {
    var log := Ops(recs);
    && memtree.Valid() && memtree.compare == MemCompare && Entries(recs, nodes)
    && (forall m <- memtree.nodes :: m in nodes)
    && (forall j: nat :: j < |recs| ==>
          (nodes[j] in memtree.nodes <==> Alive(log, n, j) && !(closed && Link(log, j, n))))
    && WellFormedUpTo(log, n)
  }

  lemma Victim(memtree: RbHead<Op, Record>, recs: seq<Record>, nodes: seq<Node<Op, Record>>, n: nat,
               m: Node<Op, Record>)
    returns (i: nat)
    requires n < |recs| && Replaying(memtree, recs, nodes, n, false) && m in memtree.nodes
    requires Closes(recs[n].op, m.key.mem)
    ensures i < |recs| && nodes[i] == m && m.elem == recs[i] && Link(Ops(recs), i, n)
  {
    assert m in nodes;
    i :| 0 <= i < |nodes| && nodes[i] == m;
  }

  lemma NoVictim(memtree: RbHead<Op, Record>, recs: seq<Record>, nodes: seq<Node<Op, Record>>, n: nat, key: Op)
    requires n < |recs| && Replaying(memtree, recs, nodes, n, false)
    requires Closes(recs[n].op, key.mem) && !memtree.HasKey(key)
    ensures forall i: nat :: !Link(Ops(recs), i, n)
  {
    var log := Ops(recs);
    forall i: nat | Alive(log, n, i)
      ensures log[i].mem != key.mem
    {
      assert nodes[i] in memtree.nodes;
    }
  }

  /** Looks up and removes the record of the buffer that step `n` gives up (record.c:487-495, 502-511). */
  method TakeOut(memtree: RbHead<Op, Record>, a: nat, ghost recs: seq<Record>, ghost nodes: seq<Node<Op, Record>>,
                 ghost n: nat)
    returns (found: Record?, ghost i: nat)
    requires n < |recs| && Replaying(memtree, recs, nodes, n, false) && Closes(recs[n].op, a)
    requires TailQueue.NoDuplicates(recs)
    modifies memtree, memtree.nodes
    ensures memtree.nodes <= old(memtree.nodes)
    ensures found == null ==> forall i: nat :: !Link(Ops(recs), i, n)
    ensures found != null ==> Link(Ops(recs), i, n) && found == recs[i] && Replaying(memtree, recs, nodes, n, true)
  {
    var treeMpr, _ := memtree.Find(Op(0, Alloc, a, 0, 0));
    found, i := null, 0;
    if treeMpr == null {
      NoVictim(memtree, recs, nodes, n, Op(0, Alloc, a, 0, 0));
    } else {
      i := Victim(memtree, recs, nodes, n, treeMpr);
      found := treeMpr.elem;
      NodesDiffer(recs, nodes);
      OnlyVictim(Ops(recs), n, i);
      var _, _ := memtree.Remove(treeMpr);
    }
  }

  lemma OnlyVictim(log: seq<Op>, n: nat, i: nat)
    requires n < |log| && WellFormedUpTo(log, n) && Link(log, i, n)
    ensures forall j: nat :: Link(log, j, n) <==> j == i
  {
    forall j: nat | Link(log, j, n)
      ensures j == i
    {
      AliveUnique(log, n, i, j);
    }
  }

  lemma Rival(memtree: RbHead<Op, Record>, recs: seq<Record>, nodes: seq<Node<Op, Record>>, n: nat, m: Node<Op, Record>)
    requires n < |recs| && Replaying(memtree, recs, nodes, n, IsCloser(recs[n].op)) && m in memtree.nodes
    requires m.key.mem == recs[n].op.mem && IsOpener(recs[n].op)
    ensures !StepOk(Ops(recs), n)
  {
    assert m in nodes;
    var i: nat :| i < |nodes| && nodes[i] == m;
    assert Alive(Ops(recs), n, i) && !Link(Ops(recs), i, n);
  }

  lemma Opened(memtree: RbHead<Op, Record>, recs: seq<Record>, nodes: seq<Node<Op, Record>>, n: nat)
    requires n < |recs| && Replaying(memtree, recs, nodes, n, IsCloser(recs[n].op))
    requires IsOpener(recs[n].op) && (IsCloser(recs[n].op) ==> exists i: nat :: Link(Ops(recs), i, n))
    requires !memtree.HasKey(recs[n].op)
    ensures StepOk(Ops(recs), n) && nodes[n] !in memtree.nodes
  {
    var log := Ops(recs);
    forall i: nat | Alive(log, n, i) && !Link(log, i, n)
      ensures log[i].mem != log[n].mem
    {
      assert nodes[i] in memtree.nodes;
    }
  }

  /** After step `n` the tree holds the records of the buffers that are live then. */
  lemma Advance(memtree: RbHead<Op, Record>, before: set<Node<Op, Record>>, recs: seq<Record>,
                nodes: seq<Node<Op, Record>>, n: nat)
    requires memtree.Valid() && memtree.compare == MemCompare && Entries(recs, nodes) && n < |recs|
    requires TailQueue.NoDuplicates(nodes) && WellFormedUpTo(Ops(recs), n) && StepOk(Ops(recs), n)
    requires forall m <- before :: m in nodes
    requires forall j: nat :: j < |recs| ==>
               (nodes[j] in before <==> Alive(Ops(recs), n, j) && !(IsCloser(recs[n].op) && Link(Ops(recs), j, n)))
    requires memtree.nodes == if IsOpener(recs[n].op) then before + {nodes[n]} else before
    ensures Replaying(memtree, recs, nodes, n + 1, false)
  {
    var log := Ops(recs);
    forall j: nat | j < |recs|
      ensures nodes[j] in memtree.nodes <==> Alive(log, n + 1, j)
    {
      AliveStep(log, n, j);
    }
  }

  /** Inserts the record of the buffer that step `n` makes available (record.c:474-482, 519-527). */
  method PutIn(memtree: RbHead<Op, Record>, entry: Node<Op, Record>, ghost recs: seq<Record>,
               ghost nodes: seq<Node<Op, Record>>, ghost n: nat)
    returns (ok: bool)
    requires n < |recs| && Replaying(memtree, recs, nodes, n, IsCloser(recs[n].op)) && entry == nodes[n]
    requires IsOpener(recs[n].op) && (IsCloser(recs[n].op) ==> exists i: nat :: Link(Ops(recs), i, n))
    requires TailQueue.NoDuplicates(recs)
    modifies memtree, memtree.nodes, entry
    ensures memtree.nodes <= old(memtree.nodes) + {entry}
    ensures ok <==> StepOk(Ops(recs), n)
    ensures ok ==> Replaying(memtree, recs, nodes, n + 1, false)
  {
    if !memtree.HasKey(entry.key) {
      Opened(memtree, recs, nodes, n);
    }
    assert nodes[n] !in memtree.nodes;
    NodesDiffer(recs, nodes);
    ghost var before := memtree.nodes;
    var treeMpr, _, _ := memtree.Insert(entry);
    ok := treeMpr == null;
    if !ok {
      Rival(memtree, recs, nodes, n, treeMpr);
    } else {
      Advance(memtree, before, recs, nodes, n);
    }
  }

  /** A step that gives up nothing adds no link. */
  lemma NoLink(recs: seq<Record>, n: nat)
    requires n < |recs| && Chained(recs, n) && !IsCloser(recs[n].op)
    ensures Chained(recs, n + 1)
  {
    var log := Ops(recs);
    forall i: nat | i < |recs| && NoNext(log, n + 1, i)
      ensures recs[i].nextId == 0
    {
      assert NoNext(log, n, i);
    }
    forall j: nat | j < |recs| && NoPrev(log, n + 1, j)
      ensures recs[j].prevId == 0
    {
      assert NoPrev(log, n, j);
    }
  }

  /** What one more link, from step `i` to step `n`, changes. */
  lemma OneMoreLink(log: seq<Op>, n: nat, i: nat)
    requires n < |log| && WellFormedUpTo(log, n) && Link(log, i, n)
    ensures NoNext(log, n, i) && NoPrev(log, n, n)
    ensures forall k: nat {:trigger NoNext(log, n + 1, k)} :: NoNext(log, n + 1, k) ==> k != i && NoNext(log, n, k)
    ensures forall k: nat {:trigger NoPrev(log, n + 1, k)} :: NoPrev(log, n + 1, k) ==> k != n && NoPrev(log, n, k)
    ensures forall k: nat, j: nat :: j < n + 1 && Link(log, k, j) ==> if j == n then k == i else k != i
  {
    OnlyVictim(log, n, i);
    forall k: nat
      ensures NoNext(log, n + 1, k) ==> k != i && NoNext(log, n, k)
      ensures NoPrev(log, n + 1, k) ==> k != n && NoPrev(log, n, k)
    {
      assert NoNext(log, n + 1, k) ==> !Link(log, k, n);
    }
  }

  /** The two assignments and the two assertions of record.c:496-499 and 512-515. */
  method Tie(treeMpr: Record, mpr: Record, ghost recs: seq<Record>, ghost i: nat, ghost n: nat)
    requires n < |recs| && Link(Ops(recs), i, n) && treeMpr == recs[i] && mpr == recs[n]
    requires WellFormedUpTo(Ops(recs), n) && Chained(recs, n) && TailQueue.NoDuplicates(recs)
    modifies treeMpr`nextId, mpr`prevId
    ensures Chained(recs, n + 1)
  {
    ghost var log := Ops(recs);
    OneMoreLink(log, n, i);
    assert treeMpr.nextId == 0;
    treeMpr.nextId := mpr.op.id;
    assert mpr.prevId == 0;
    mpr.prevId := treeMpr.op.id;
    assert forall k :: 0 <= k < |recs| && k != i ==> recs[k].nextId == old(recs[k].nextId);
    assert forall k :: 0 <= k < |recs| && k != n ==> recs[k].prevId == old(recs[k].prevId);
  }

  /** The queue holds exactly these records, in this order. */
  ghost predicate Queued(mp: TailQueue.Head<Record>, recs: seq<Record>)
    reads mp, mp.entries, recs`tqe, recs`rbe
  {
    && mp.Valid() && |mp.entries| == |recs|
    && (forall i :: 0 <= i < |recs| ==> recs[i].Intact() && mp.entries[i] == recs[i].tqe)
  }

  ghost predicate Placed(recs: seq<Record>, nodes: seq<Node<Op, Record>>)
    reads recs`rbe
  {
    Entries(recs, nodes) && forall i :: 0 <= i < |recs| ==> recs[i].rbe == nodes[i]
  }

  lemma QueuedDiffer(mp: TailQueue.Head<Record>, recs: seq<Record>)
    requires Queued(mp, recs)
    ensures TailQueue.NoDuplicates(recs)
  {
    forall i, j | 0 <= i < j < |recs|
      ensures recs[i] != recs[j]
    {
      assert mp.entries[i] != mp.entries[j];
    }
  }

  /** The buffer at `a` is taken out of the tree and its record tied to the one of step `n`. */
  method Release(memtree: RbHead<Op, Record>, a: nat, mpr: Record, ghost recs: seq<Record>,
                 ghost nodes: seq<Node<Op, Record>>, ghost n: nat)
    returns (ok: bool)
    requires n < |recs| && mpr == recs[n] && TailQueue.NoDuplicates(recs) && Closes(mpr.op, a)
    requires Replaying(memtree, recs, nodes, n, false) && Chained(recs, n)
    modifies memtree, memtree.nodes, recs`nextId, recs`prevId
    ensures memtree.nodes <= old(memtree.nodes)
    ensures ok <==> exists i: nat :: Link(Ops(recs), i, n)
    ensures ok ==> Replaying(memtree, recs, nodes, n, true) && Chained(recs, n + 1)
  {
    var treeMpr;
    ghost var i;
    treeMpr, i := TakeOut(memtree, a, recs, nodes, n);
    ok := treeMpr != null;
    if ok {
      Tie(treeMpr, mpr, recs, i, n);
    }
  }

  /** A step that releases a buffer, or NULL (record.c:484-500); false where the program aborts. */
  method ChainFree(memtree: RbHead<Op, Record>, mpr: Record, ghost recs: seq<Record>,
                   ghost nodes: seq<Node<Op, Record>>, ghost n: nat)
    returns (ok: bool)
    requires n < |recs| && mpr == recs[n] && TailQueue.NoDuplicates(recs) && mpr.op.kind.Free?
    requires Replaying(memtree, recs, nodes, n, false) && Chained(recs, n)
    modifies memtree, memtree.nodes, recs`nextId, recs`prevId
    ensures ok <==> StepOk(Ops(recs), n)
    ensures ok ==> Replaying(memtree, recs, nodes, n + 1, false) && Chained(recs, n + 1)
    ensures memtree.nodes <= old(memtree.nodes)
  {
    NodesDiffer(recs, nodes);
    if mpr.op.mem == 0 {
      NoLink(recs, n);
      ok := true;
    } else {
      ok := Release(memtree, mpr.op.mem, mpr, recs, nodes, n);
    }
    if ok {
      Advance(memtree, memtree.nodes, recs, nodes, n);
    }
  }

  /** A step that changes the size of a buffer (record.c:501-528); false where the program aborts. */
  method ChainRealloc(memtree: RbHead<Op, Record>, mpr: Record, ghost recs: seq<Record>,
                      ghost nodes: seq<Node<Op, Record>>, ghost n: nat)
    returns (ok: bool)
    requires n < |recs| && mpr == recs[n] && TailQueue.NoDuplicates(recs) && mpr.op.kind.Realloc?
    requires Replaying(memtree, recs, nodes, n, false) && Chained(recs, n) && mpr.rbe == nodes[n]
    modifies memtree, memtree.nodes, nodes[n], recs`nextId, recs`prevId
    ensures ok <==> StepOk(Ops(recs), n)
    ensures ok ==> Replaying(memtree, recs, nodes, n + 1, false) && Chained(recs, n + 1)
    ensures memtree.nodes <= old(memtree.nodes) + {nodes[n]}
  {
    ok := Release(memtree, mpr.op.realloc, mpr, recs, nodes, n);
    if ok {
      label tied:
      ok := PutIn(memtree, mpr.rbe, recs, nodes, n);
      assert Chained(recs, n + 1) == old@tied(Chained(recs, n + 1));
    }
  }

  /** One turn of the loop of build_chains (record.c:472-528); false where the program aborts. */
  method ChainStep(memtree: RbHead<Op, Record>, mpr: Record, ghost recs: seq<Record>,
                   ghost nodes: seq<Node<Op, Record>>, ghost n: nat)
    returns (ok: bool)
    requires n < |recs| && mpr == recs[n] && TailQueue.NoDuplicates(recs)
    requires Replaying(memtree, recs, nodes, n, false) && Chained(recs, n) && mpr.rbe == nodes[n]
    modifies memtree, memtree.nodes, nodes[n], recs`nextId, recs`prevId
    ensures ok <==> StepOk(Ops(recs), n)
    ensures ok ==> Replaying(memtree, recs, nodes, n + 1, false) && Chained(recs, n + 1)
    ensures memtree.nodes <= old(memtree.nodes) + {nodes[n]}
  {
    match mpr.op.kind {
      case Alloc =>
        NoLink(recs, n);
        ok := PutIn(memtree, mpr.rbe, recs, nodes, n);
      case Free =>
        ok := ChainFree(memtree, mpr, recs, nodes, n);
      case Realloc =>
        ok := ChainRealloc(memtree, mpr, recs, nodes, n);
    }
  }

  /** The state of the loop of build_chains. */
  ghost predicate Looping(mp: TailQueue.Head<Record>, e: TailQueue.Entry?<Record>, memtree: RbHead<Op, Record>,
                          recs: seq<Record>, nodes: seq<Node<Op, Record>>, n: nat)
    reads mp, mp.entries, recs`tqe, recs`rbe, memtree, memtree.nodes, recs`nextId, recs`prevId
  {
    && n <= |recs| && Queued(mp, recs) && e == TailQueue.Nth(mp.entries, n) && Placed(recs, nodes)
    && Replaying(memtree, recs, nodes, n, false) && Chained(recs, n)
  }

  method Turn(mp: TailQueue.Head<Record>, e: TailQueue.Entry<Record>, memtree: RbHead<Op, Record>,
              ghost recs: seq<Record>, ghost nodes: seq<Node<Op, Record>>, ghost n: nat)
    returns (ok: bool, next: TailQueue.Entry?<Record>)
    requires n < |recs| && Looping(mp, e, memtree, recs, nodes, n)
    modifies memtree, memtree.nodes, nodes, recs`nextId, recs`prevId
    ensures ok <==> StepOk(Ops(recs), n)
    ensures ok ==> Looping(mp, next, memtree, recs, nodes, n + 1)
    ensures memtree.nodes <= old(memtree.nodes) + {nodes[n]}
  {
    QueuedDiffer(mp, recs);
    assert e.elem == recs[n];
    ok := ChainStep(memtree, e.elem, recs, nodes, n);
    next := e.next;
  }

  /** build_chains (record.c:462-535). It returns false exactly on the logs that make the program abort. */
  method BuildChains(mp: TailQueue.Head<Record>, ghost recs: seq<Record>, ghost nodes: seq<Node<Op, Record>>)
    returns (ok: bool, ghost left: set<Node<Op, Record>>)
    requires Queued(mp, recs) && Placed(recs, nodes)
    requires forall i :: 0 <= i < |recs| ==> recs[i].prevId == 0 && recs[i].nextId == 0
    modifies nodes, recs`nextId, recs`prevId
    ensures ok <==> WellFormed(Ops(recs))
    ensures ok ==> Chained(recs, |recs|) && Queued(mp, recs)
    ensures ok ==> forall j: nat :: j < |recs| ==> (nodes[j] in left <==> Alive(Ops(recs), |recs|, j))
  {
    hide RbHead.Valid, Looping, Chained, Queued, WellFormedUpTo, Alive, StepOk;
    var memtree := Start(mp, recs, nodes);
    var e := mp.first;
    ghost var n := 0;
    left := {};
    while e != null
      invariant fresh(memtree) && Looping(mp, e, memtree, recs, nodes, n)
      invariant forall m <- memtree.nodes :: m in nodes
      decreases |recs| - n
    {
      AtStep(mp, e, memtree, recs, nodes, n);
      ok, e := Turn(mp, e, memtree, recs, nodes, n);
      if !ok {
        NotAllOk(Ops(recs), n);
        return false, {};
      }
      n := n + 1;
    }
    AtStep(mp, e, memtree, recs, nodes, n);
    left := memtree.nodes;
    ok := true;
  }

  lemma NotAllOk(log: seq<Op>, n: nat)
    requires n < |log| && !StepOk(log, n)
    ensures !WellFormed(log)
  {
  }

  method Start(mp: TailQueue.Head<Record>, ghost recs: seq<Record>, ghost nodes: seq<Node<Op, Record>>)
    returns (memtree: RbHead<Op, Record>)
    requires Queued(mp, recs) && Placed(recs, nodes)
    requires forall i :: 0 <= i < |recs| ==> recs[i].prevId == 0 && recs[i].nextId == 0
    ensures fresh(memtree) && memtree.nodes == {} && Looping(mp, mp.first, memtree, recs, nodes, 0)
  {
    MemOrdering();
    memtree := new RbHead<Op, Record>(MemCompare);
  }

  /** What the state of the loop says, at a step and at the end. */
  lemma AtStep(mp: TailQueue.Head<Record>, e: TailQueue.Entry?<Record>, memtree: RbHead<Op, Record>,
               recs: seq<Record>, nodes: seq<Node<Op, Record>>, n: nat)
    requires Looping(mp, e, memtree, recs, nodes, n)
    ensures n <= |recs| == |nodes| && (e == null <==> n == |recs|) && forall m <- memtree.nodes :: m in nodes
    ensures n == |recs| ==> WellFormed(Ops(recs)) && Chained(recs, |recs|) && Queued(mp, recs)
    ensures n == |recs| ==> forall j: nat :: j < |recs| ==> (nodes[j] in memtree.nodes <==> Alive(Ops(recs), |recs|, j))
  {
    hide RbHead.Valid, Chained;
  }
}
