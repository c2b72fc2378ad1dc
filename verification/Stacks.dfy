/** Stack traces, mprofile/stack.c. */
module Stacks {
  import opened RbShape
  import opened RbTree
  import opened Catalogues

  // ---------------------------------------------------------------------------------
  // The order of stacks

  /** The order of frames from position `i` on, for stacks of equal depth. */
  function FramesFrom(a: Frames, b: Frames, i: nat): int
    requires |a| == |b|
    decreases |a| - i
  {
    if i >= |a| then 0
    else if a[i] < b[i] then -1
    else if a[i] > b[i] then 1
    else FramesFrom(a, b, i + 1)
  }

  /** Shallower stacks come first; stacks of equal depth are ordered by their first differing frame. */
  function FrameOrder(a: Frames, b: Frames): int {
    if |a| < |b| then -1
    else if |a| > |b| then 1
    else FramesFrom(a, b, 0)
  }

  lemma {:induction false} FramesZero(a: Frames, b: Frames, i: nat)
    requires |a| == |b|
    ensures FramesFrom(a, b, i) == 0 <==> forall j :: i <= j < |a| ==> a[j] == b[j]
    ensures FramesFrom(a, b, i) < 0 <==> FramesFrom(b, a, i) > 0
    decreases |a| - i
  {
    if i < |a| {
      FramesZero(a, b, i + 1);
    }
  }

  lemma {:induction false} FramesLess(a: Frames, b: Frames, c: Frames, i: nat)
    requires |a| == |b| == |c| && FramesFrom(a, b, i) <= 0 && FramesFrom(b, c, i) <= 0
    ensures FramesFrom(a, c, i) <= 0
    ensures FramesFrom(a, b, i) < 0 || FramesFrom(b, c, i) < 0 ==> FramesFrom(a, c, i) < 0
    decreases |a| - i
  {
    if i < |a| && a[i] == b[i] == c[i] {
      FramesLess(a, b, c, i + 1);
    }
  }

  /** `a` is shallower, or as deep and smaller at the first frame where they differ. */
  ghost predicate Precedes(a: Frames, b: Frames) {
    |a| < |b| || (|a| == |b| && exists k :: SmallerAt(a, b, k))
  }

  ghost predicate SmallerAt(a: Frames, b: Frames, k: nat)
    requires |a| == |b|
  {
    k < |a| && a[k] < b[k] && forall j :: 0 <= j < k ==> a[j] == b[j]
  }

  lemma {:induction false} FramesPrecede(a: Frames, b: Frames, i: nat)
    requires |a| == |b| && forall j :: 0 <= j < i && j < |a| ==> a[j] == b[j]
    ensures FramesFrom(a, b, i) < 0 <==> exists k :: SmallerAt(a, b, k)
    decreases |a| - i
  {
    if i < |a| {
      if a[i] == b[i] {
        FramesPrecede(a, b, i + 1);
      } else if a[i] < b[i] {
        assert SmallerAt(a, b, i);
      }
    }
  }

  /** What the comparator of stacks computes: the order of frames, and for two stacks without frames that of the
      words in front of them. */
  function KeyOrder(a: Key, b: Key): int {
    if FrameOrder(a.frames, b.frames) != 0 then FrameOrder(a.frames, b.frames) else IdOrder(a.front, b.front)
  }

  /** stack_id_compare (stack.c:77-85). */
  function IdOrder(a: nat, b: nat): int {
    if a < b then -1 else if a > b then 1 else 0
  }

  /** Which of two stacks comes first. */
  lemma StacksPrecede(a: Key, b: Key)
    ensures KeyOrder(a, b) < 0 <==> Precedes(a.frames, b.frames) || (a.frames == b.frames && a.front < b.front)
  {
    if |a.frames| == |b.frames| {
      FramesPrecede(a.frames, b.frames, 0);
      FramesZero(a.frames, b.frames, 0);
    }
  }

  /** A total order on frames that is zero exactly for equal frames. */
  lemma FrameOrdering()
    ensures Ordering(FrameOrder)
    ensures forall a, b :: FrameOrder(a, b) == 0 <==> a == b
  {
    forall a: Frames, b: Frames
      ensures FrameOrder(a, b) < 0 <==> FrameOrder(b, a) > 0
      ensures FrameOrder(a, b) == 0 <==> a == b
    {
      if |a| == |b| {
        FramesZero(a, b, 0);
      }
    }
    forall a: Frames, b: Frames, c: Frames | FrameOrder(a, b) <= 0 && FrameOrder(b, c) <= 0
      ensures FrameOrder(a, b) < 0 || FrameOrder(b, c) < 0 ==> FrameOrder(a, c) < 0
    {
      if |a| == |b| == |c| {
        FramesLess(a, b, c, 0);
      }
    }
  }

  /** A total order on stacks that is zero exactly for equal keys. */
  lemma KeyOrdering()
    ensures Ordering(KeyOrder)
    ensures forall a, b :: KeyOrder(a, b) == 0 <==> a == b
  {
    hide FrameOrder;
    FrameOrdering();
  }

  lemma IdOrdering()
    ensures Ordering(IdOrder)
  {
  }

  /** The word at position `i`; `past` follows the last frame in memory and `front` precedes the first. */
  function WordAt(a: Frames, front: nat, past: nat, i: int): nat
    requires -1 <= i <= |a|
  {
    if i < 0 then front else if i < |a| then a[i] else past
  }

  /** stack_compare (stack.c:53-74). It may read one word behind the frames, which does not matter, and for two
      stacks without frames the word in front of them, which decides. */
  method StackCompare(a: Frames, b: Frames, frontA: nat, frontB: nat, pastA: nat, pastB: nat) returns (r: int)
    ensures r == KeyOrder(KeyOf(a, frontA), KeyOf(b, frontB))
    ensures r < 0 <==> Precedes(a, b) || (a == b == [] && frontA < frontB)
  {
    StacksPrecede(KeyOf(a, frontA), KeyOf(b, frontB));
    var i := 0;
    if |a| < |b| {
      return -1;
    } else if |a| > |b| {
      return 1;
    }
    while WordAt(a, frontA, pastA, i) == WordAt(b, frontB, pastB, i) && i < |b|
      invariant 0 <= i <= |b| && (forall j :: 0 <= j < i ==> a[j] == b[j])
      invariant FramesFrom(a, b, 0) == FramesFrom(a, b, i)
      decreases |b| - i
    {
      i := i + 1;
    }
    if i == |b| {
      i := i - 1;
    }
    var x, y := WordAt(a, frontA, pastA, i), WordAt(b, frontB, pastB, i);
    r := if x < y then -1 else if x > y then 1 else 0;
  }

  /** The comparator is the order of frames exactly if the depths differ, there are frames, or the words in front
      of both stacks agree. */
  lemma ComparesFrames(a: Frames, b: Frames, frontA: nat, frontB: nat)
    ensures KeyOrder(KeyOf(a, frontA), KeyOf(b, frontB)) == FrameOrder(a, b) <==>
            (|a| != |b| || |a| > 0 || frontA == frontB)
  {
    FrameOrdering();
  }

  // ---------------------------------------------------------------------------------
  // Collecting frames

  /** A stack in the buffer of its caller, while it is being filled (mprofile_init_stack). */
  class Buffer {
    const stack: array<nat>
    const front: nat       // the word in front of the frames
    var depth: nat

    constructor (limit: nat, front: nat)
      ensures Valid() && Collected() == [] && stack.Length == limit && this.front == front && fresh(stack)
    {
      this.front := front;
      stack, depth := new nat[limit](_ => 0), 0;
    }

    ghost predicate Valid()
      reads this
    {
      depth <= stack.Length
    }

    ghost function Collected(): Frames
      requires Valid()
      reads this, stack
    {
      stack[..depth]
    }

    /** mprofile_push_frame: frames beyond the limit are dropped. */
    method PushFrame(frame: nat)
      requires Valid()
      modifies this`depth, stack
      ensures Valid()
      ensures Collected() == old(Collected()) + if old(depth) < stack.Length then [frame] else []
    {
      if depth < stack.Length {
        stack[depth] := frame;
        depth := depth + 1;
      }
    }

    /** The loop of mprofile_copy_stack (stack.c:146-147). */
    method Copy() returns (frames: Frames)
      requires Valid()
      ensures frames == Collected()
    {
      frames := [];
      for i := 0 to depth
        invariant frames == stack[..i]
      {
        frames := frames + [stack[i]];
      }
    }
  }

  // ---------------------------------------------------------------------------------
  // Stacks in a set

  /** A managed struct mprofile_stack, whose frames do not change any more. */
  class Stack {
    const frames: Frames
    const front: nat
    var id: nat
    var count: nat
    var rbe: Node?<Key, Stack>
    var idRbe: Node?<nat, Stack>

    constructor (frames: Frames, front: nat, count: nat, id: nat)
      ensures this.frames == frames && this.front == front && this.count == count && this.id == id
      ensures InFrames() && InIds() && fresh(rbe) && fresh(idRbe)
    {
      this.frames, this.front, this.count, this.id, rbe, idRbe := frames, front, count, id, null, null;
      new;
      rbe := new Node(KeyOf(frames, front), this);
      idRbe := new Node(id, this);
    }

    function TraceKey(): Key {
      KeyOf(frames, front)
    }

    /** The entry for the tree of frames belongs to this stack. */
    ghost predicate InFrames()
      reads this`rbe
    {
      rbe != null && rbe.elem == this && rbe.key == TraceKey()
    }

    /** The entry for the tree of ids belongs to this stack and carries its id. */
    ghost predicate InIds()
      reads this`idRbe, this`id
    {
      idRbe != null && idRbe.elem == this && idRbe.key == id
    }

    /** The assignment of mps_id; the entry of the id tree, which is in no tree now, gets the new key. */
    method SetId(id: nat)
      modifies this`id, this`idRbe
      ensures (old(InFrames()) ==> InFrames()) && InIds() && this.id == id && fresh(idRbe)
    {
      this.id := id;
      idRbe := new Node(id, this);
    }
  }

  ghost predicate KeyIn(all: set<Stack>, key: Key) {
    exists s <- all :: s.TraceKey() == key
  }

  ghost predicate IdIn(all: set<Stack>, id: nat)
    reads all`id
  {
    exists s <- all :: s.id == id
  }

  /** The entries of these stacks in a tree of frames. */
  ghost predicate FrameEntries(all: set<Stack>, nodes: set<Node<Key, Stack>>)
    reads all`rbe
  {
    && (forall s <- all :: s.InFrames() && s.rbe in nodes)
    && (forall n <- nodes :: n.elem in all && n.elem.rbe == n)
  }

  /** The entries of these stacks in a tree of ids. */
  ghost predicate IdEntries(all: set<Stack>, nodes: set<Node<nat, Stack>>)
    reads all`idRbe, all`id
  {
    && (forall s <- all :: s.InIds() && s.idRbe in nodes)
    && (forall n <- nodes :: n.elem in all && n.elem.idRbe == n)
  }

  lemma FrameEntry(all: set<Stack>, nodes: set<Node<Key, Stack>>)
    requires FrameEntries(all, nodes)
    ensures forall n <- nodes :: n.elem in all && n.key == n.elem.TraceKey()
  {
  }

  lemma IdEntry(all: set<Stack>, nodes: set<Node<nat, Stack>>)
    requires IdEntries(all, nodes)
    ensures forall n <- nodes :: n.elem in all && n.key == n.elem.id
  {
  }

  lemma FrameEntriesChange(all: set<Stack>, nodes: set<Node<Key, Stack>>, mps: Stack)
    requires FrameEntries(all, nodes) && mps.InFrames()
    ensures mps !in all ==> mps.rbe !in nodes && FrameEntries(all + {mps}, nodes + {mps.rbe})
    ensures mps in all ==> mps.rbe in nodes && FrameEntries(all - {mps}, nodes - {mps.rbe})
  {
  }

  lemma IdEntriesChange(all: set<Stack>, nodes: set<Node<nat, Stack>>, mps: Stack)
    requires IdEntries(all, nodes) && mps.InIds()
    ensures mps !in all ==> mps.idRbe !in nodes && IdEntries(all + {mps}, nodes + {mps.idRbe})
    ensures mps in all ==> mps.idRbe in nodes && IdEntries(all - {mps}, nodes - {mps.idRbe})
  {
  }

  /** The stack passed to mprofile_add_stack: in its caller's buffer, or in another set. */
  datatype Trace = Local(buf: Buffer) | Managed(mps: Stack) {
    ghost predicate Ready()
      reads if Local? then {buf} else {mps}
    {
      if Local? then buf.Valid() else mps.count > 0
    }

    ghost function Content(): Frames
      requires Ready()
      reads if Local? then {buf, buf.stack} else {mps}
    {
      if Local? then buf.Collected() else mps.frames
    }

    function Front(): nat {
      if Local? then buf.front else mps.front
    }

    /** The count of a copy (stack.c:153-159). */
    function FirstCount(): nat
      reads if Managed? then {mps} else {}
    {
      if Managed? then mps.count else 1
    }
  }
}
