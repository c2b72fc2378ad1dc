/** Sets of stack traces as values: what mprofile/stack.c does to its two trees, without the trees. */
module Catalogues {

  type Frames = seq<nat>

  /** What the comparator sees of a stack: its frames and, if there are none, the word in front of them. */
  datatype Key = Key(frames: Frames, front: nat)

  function KeyOf(frames: Frames, front: nat): Key {
    Key(frames, if frames == [] then front else 0)
  }

  datatype Entry = Entry(id: nat, count: nat)

  /** `next` is stset_id, `known` the tree of frames and `listed` the tree of ids. */
  datatype Catalogue = Catalogue(next: nat, known: map<Key, Entry>, listed: map<nat, Key>)

  datatype Option<T> = None | Some(value: T)

  const EMPTY: Catalogue := Catalogue(1, map[], map[])

  /** mprofile_add_stack: `n` is the count of a copy. A new stack whose id is in use is in the tree of frames only. */
  function Added(c: Catalogue, key: Key, n: nat): Catalogue {
    if key in c.known then c.(known := c.known[key := c.known[key].(count := c.known[key].count + 1)])
    else Catalogue(c.next + 1, c.known[key := Entry(c.next, n)],
                   if c.next in c.listed then c.listed else c.listed[c.next := key])
  }

  /** What one merge takes from the source (stack.c:303-304, 348). */
  function Taken(c: Catalogue, id: nat): Catalogue
    requires id in c.listed && c.listed[id] in c.known && c.known[c.listed[id]].count > 0
  {
    var key := c.listed[id];
    if c.known[key].count == 1 then c.(known := c.known - {key}, listed := c.listed - {id})
    else c.(known := c.known[key := c.known[key].(count := c.known[key].count - 1)])
  }

  /** A stack that occurs once is moved in (stack.c:305-330); None where the assertion of stack.c:319 fails. */
  function Accepted(c: Catalogue, key: Key, id: nat): Option<Catalogue> {
    if key in c.known then Some(Added(c, key, 1))
    else if id !in c.listed then Some(c.(known := c.known[key := Entry(id, 1)], listed := c.listed[id := key]))
    else if c.next !in c.listed then Some(Added(c, key, 1))
    else None
  }

  /** The destination after mprofile_merge_stack between different sets. */
  function Received(dst: Catalogue, src: Catalogue, id: nat): Option<Catalogue>
    requires id in src.listed && src.listed[id] in src.known
  {
    var key := src.listed[id];
    var e := src.known[key];
    if e.count == 1 then Accepted(dst, key, id) else Some(Added(dst, key, e.count))
  }

  /** What the two trees of any set have in common: the ids lead to stacks that carry them. */
  ghost predicate Sound(c: Catalogue) {
    && c.next > 0
    && (forall key <- c.known :: c.known[key].id > 0 && c.known[key].count > 0 && (key.frames != [] ==> key.front == 0))
    && (forall id <- c.listed :: c.listed[id] in c.known && c.known[c.listed[id]].id == id)
  }

  /** Besides, every stack is found by its id. */
  ghost predicate Full(c: Catalogue) {
    Sound(c) && forall key <- c.known :: c.known[key].id in c.listed && c.listed[c.known[key].id] == key
  }

  /** Besides, the ids are exactly 1 .. next - 1. */
  ghost predicate Dense(c: Catalogue) {
    Full(c) && forall id: nat :: id in c.listed <==> 1 <= id < c.next
  }

  // ---------------------------------------------------------------------------------
  // Recording

  /** The set of a thread that has recorded these stacks, one after the other. */
  function Recorded(added: seq<Key>): Catalogue {
    if added == [] then EMPTY else Added(Recorded(added[..|added| - 1]), added[|added| - 1], 1)
  }

  ghost predicate Canonical(added: seq<Key>) {
    forall key <- added :: key.frames != [] ==> key.front == 0
  }

  /** The ids of the records. */
  function RecordIds(added: seq<Key>): seq<nat> {
    if added == [] then []
    else
      var front, key := added[..|added| - 1], added[|added| - 1];
      RecordIds(front) + [if key in Recorded(added).known then Recorded(added).known[key].id else 0]
  }

  lemma RecordedMore(added: seq<Key>, key: Key)
    ensures Recorded(added + [key]) == Added(Recorded(added), key, 1) && key in Recorded(added + [key]).known
    ensures RecordIds(added + [key]) == RecordIds(added) + [Recorded(added + [key]).known[key].id]
    ensures Canonical(added) && (key.frames != [] ==> key.front == 0) ==> Canonical(added + [key])
  {
    var more := added + [key];
    assert more[..|more| - 1] == added;
  }

  lemma Counted(added: seq<Key>, key: Key, k: Key)
    ensures multiset(added + [key])[k] == multiset(added)[k] + if k == key then 1 else 0
  {
  }

  lemma DenseAdd(c: Catalogue, key: Key, n: nat)
    requires Dense(c) && n > 0 && (key.frames != [] ==> key.front == 0)
    ensures Dense(Added(c, key, n))
  {
  }

  /** Under any run of additions both trees hold the same stacks, the ids are 1 .. next - 1, and every count is the
      number of additions of that stack. */
  lemma {:induction false} RecordedTallies(added: seq<Key>)
    requires Canonical(added)
    ensures Dense(Recorded(added))
    ensures forall key :: key in Recorded(added).known <==> key in added
    ensures forall key <- added :: Recorded(added).known[key].count == multiset(added)[key]
  {
    if added != [] {
      var front, key := added[..|added| - 1], added[|added| - 1];
      assert added == front + [key];
      RecordedTallies(front);
      DenseAdd(Recorded(front), key, 1);
      forall k <- added
        ensures Recorded(added).known[k].count == multiset(added)[k]
      {
        Counted(front, key, k);
      }
    }
  }

  /** Two stacks without frames are never taken for one: they get two ids, where equal frames get one id twice. */
  lemma EmptyTwice(c: Catalogue, a: nat, b: nat, frames: Frames)
    requires Dense(c) && KeyOf([], a) !in c.known && KeyOf([], b) !in c.known && a != b
    requires frames != [] && KeyOf(frames, a) !in c.known
    ensures var e := Added(Added(c, KeyOf([], a), 1), KeyOf([], b), 1);
            e.known == c.known[KeyOf([], a) := Entry(c.next, 1)][KeyOf([], b) := Entry(c.next + 1, 1)] &&
              e.next == c.next + 2
    ensures var e := Added(Added(c, KeyOf(frames, a), 1), KeyOf(frames, b), 1);
            e.known == c.known[KeyOf(frames, a) := Entry(c.next, 2)] && e.next == c.next + 1
  {
  }
}
