/** Sets of stacks in two trees, mprofile/stack.c. */
module StackSets {
  import opened RbShape
  import opened RbTree
  import opened Catalogues
  import opened Stacks

  // ---------------------------------------------------------------------------------
  // What the stacks of a set say, and its catalogue

  type Entries = map<Stack, Entry>

  ghost predicate ShowsFrames(known: map<Key, Entry>, entries: Entries) {
    && (forall s <- entries :: s.TraceKey() in known && known[s.TraceKey()] == entries[s])
    && (forall key <- known :: KeyIn(entries.Keys, key))
  }

  ghost predicate ShowsIds(ids: map<nat, Key>, entries: Entries, listed: set<Stack>)
    requires listed <= entries.Keys
  {
    && (forall s <- listed :: entries[s].id in ids && ids[entries[s].id] == s.TraceKey())
    && (forall id <- ids :: EntryIn(entries, listed, id))
  }

  ghost predicate EntryIn(entries: Entries, listed: set<Stack>, id: nat)
    requires listed <= entries.Keys
  {
    exists s <- listed :: entries[s].id == id
  }

  /** The catalogue describes exactly these stacks; `listed` are those in the tree of ids. */
  ghost predicate Describes(c: Catalogue, entries: Entries, listed: set<Stack>) {
    listed <= entries.Keys && Sound(c) && ShowsFrames(c.known, entries) && ShowsIds(c.listed, entries, listed)
  }

  /** No two stacks have equal keys. */
  ghost predicate NoTwins(entries: Entries) {
    forall s <- entries, t <- entries :: s.TraceKey() == t.TraceKey() ==> s == t
  }

  ghost predicate NoIdTwins(entries: Entries, listed: set<Stack>)
    requires listed <= entries.Keys
  {
    forall s <- listed, t <- listed :: entries[s].id == entries[t].id ==> s == t
  }

  lemma StillIn(all: set<Stack>, more: set<Stack>, key: Key)
    requires all <= more && KeyIn(all, key)
    ensures KeyIn(more, key)
  {
  }

  lemma OneOwner(known: map<Key, Entry>, entries: Entries, mps: Stack)
    requires ShowsFrames(known, entries) && NoTwins(entries) && (mps in entries || mps.TraceKey() !in known)
    ensures forall s <- entries :: s.TraceKey() == mps.TraceKey() ==> s == mps
    ensures mps in entries ==> mps.TraceKey() in known
  {
  }

  lemma FramesSet(known: map<Key, Entry>, entries: Entries, mps: Stack, e: Entry)
    requires ShowsFrames(known, entries) && NoTwins(entries)
    requires mps in entries || mps.TraceKey() !in known
    ensures mps in entries ==> mps.TraceKey() in known
    ensures ShowsFrames(known[mps.TraceKey() := e], entries[mps := e]) && NoTwins(entries[mps := e])
  {
    hide KeyIn, KeyOf, Stack.TraceKey;
    OneOwner(known, entries, mps);
    var entries' := entries[mps := e];
    assert entries'.Keys == entries.Keys + {mps};
    forall key | key in known || key == mps.TraceKey()
      ensures KeyIn(entries'.Keys, key)
    {
      if key in known {
        StillIn(entries.Keys, entries'.Keys, key);
      } else {
        Among(entries'.Keys, mps);
      }
    }
  }

  lemma Among(all: set<Stack>, mps: Stack)
    requires mps in all
    ensures KeyIn(all, mps.TraceKey())
  {
  }

  lemma FramesGone(known: map<Key, Entry>, entries: Entries, mps: Stack)
    requires ShowsFrames(known, entries) && NoTwins(entries) && mps in entries
    ensures ShowsFrames(known - {mps.TraceKey()}, entries - {mps}) && NoTwins(entries - {mps})
  {
    var entries' := entries - {mps};
    assert entries'.Keys == entries.Keys - {mps};
    forall key | key in known && key != mps.TraceKey()
      ensures KeyIn(entries'.Keys, key)
    {
      var s: Stack :| s in entries && s.TraceKey() == key;
      assert s in entries'.Keys;
    }
  }

  /** A change of counts does not concern ids. */
  lemma IdsSame(ids: map<nat, Key>, entries: Entries, listed: set<Stack>, mps: Stack, e: Entry)
    requires listed <= entries.Keys && ShowsIds(ids, entries, listed) && (mps in entries ==> e.id == entries[mps].id)
    ensures listed <= entries[mps := e].Keys && ShowsIds(ids, entries[mps := e], listed)
  {
    var entries' := entries[mps := e];
    forall id <- ids
      ensures EntryIn(entries', listed, id)
    {
      assert EntryIn(entries, listed, id);
      var s: Stack :| s in listed && entries[s].id == id;
      assert entries'[s].id == id;
    }
  }

  lemma IdsNew(ids: map<nat, Key>, entries: Entries, listed: set<Stack>, mps: Stack, e: Entry)
    requires listed <= entries.Keys && ShowsIds(ids, entries, listed) && mps !in entries && e.id !in ids
    ensures listed + {mps} <= entries[mps := e].Keys &&
            ShowsIds(ids[e.id := mps.TraceKey()], entries[mps := e], listed + {mps})
  {
    var entries', listed' := entries[mps := e], listed + {mps};
    forall id | id in ids || id == e.id
      ensures EntryIn(entries', listed', id)
    {
      if id == e.id {
        assert entries'[mps].id == id;
      } else {
        assert EntryIn(entries, listed, id);
        var s: Stack :| s in listed && entries[s].id == id;
        assert entries'[s].id == id;
      }
    }
  }

  lemma IdsGone(ids: map<nat, Key>, entries: Entries, listed: set<Stack>, mps: Stack)
    requires listed <= entries.Keys && ShowsIds(ids, entries, listed) && NoIdTwins(entries, listed) && mps in listed
    ensures listed - {mps} <= (entries - {mps}).Keys &&
            ShowsIds(ids - {entries[mps].id}, entries - {mps}, listed - {mps})
  {
    var entries', listed' := entries - {mps}, listed - {mps};
    forall id | id in ids && id != entries[mps].id
      ensures EntryIn(entries', listed', id)
    {
      assert EntryIn(entries, listed, id);
      var s: Stack :| s in listed && entries[s].id == id;
      assert s in listed' && entries'[s].id == id;
    }
  }

  function Recount(e: Entry, count: nat): Entry {
    e.(count := count)
  }

  lemma DescribesCount(c: Catalogue, entries: Entries, listed: set<Stack>, mps: Stack, count: nat)
    requires Describes(c, entries, listed) && NoTwins(entries) && mps in entries && count > 0
    ensures mps.TraceKey() in c.known && c.known[mps.TraceKey()] == entries[mps]
    ensures Describes(c.(known := c.known[mps.TraceKey() := Recount(entries[mps], count)]),
                      entries[mps := Recount(entries[mps], count)], listed)
  {
    assert c.known[mps.TraceKey()] == entries[mps];
    hide ShowsFrames, ShowsIds, NoTwins;
    FramesSet(c.known, entries, mps, Recount(entries[mps], count));
    IdsSame(c.listed, entries, listed, mps, Recount(entries[mps], count));
  }

  lemma NothingDescribed()
    ensures Describes(EMPTY, map[], {})
  {
  }

  /** A new stack is in the tree of frames, and in the tree of ids if its id was not in use. */
  lemma DescribesNew(c: Catalogue, entries: Entries, listed: set<Stack>, mps: Stack, e: Entry, next: nat)
    requires Describes(c, entries, listed) && NoTwins(entries) && mps !in entries && mps.TraceKey() !in c.known
    requires e.id > 0 && e.count > 0 && next > 0
    ensures var ids := if e.id in c.listed then c.listed else c.listed[e.id := mps.TraceKey()];
            var d := Catalogue(next, c.known[mps.TraceKey() := e], ids);
            Describes(d, entries[mps := e], if e.id in c.listed then listed else listed + {mps})
    ensures NoTwins(entries[mps := e])
  {
    hide ShowsFrames, ShowsIds, NoTwins;
    FramesSet(c.known, entries, mps, e);
    if e.id in c.listed {
      IdsSame(c.listed, entries, listed, mps, e);
    } else {
      IdsNew(c.listed, entries, listed, mps, e);
    }
  }

  lemma DescribesGone(c: Catalogue, entries: Entries, listed: set<Stack>, mps: Stack)
    requires Describes(c, entries, listed) && NoTwins(entries) && NoIdTwins(entries, listed) && mps in listed
    ensures Describes(c.(known := c.known - {mps.TraceKey()}, listed := c.listed - {entries[mps].id}),
                      entries - {mps}, listed - {mps})
    ensures NoTwins(entries - {mps})
  {
    OneKey(c, entries, listed, mps);
    hide ShowsFrames, ShowsIds, NoTwins, NoIdTwins;
    FramesGone(c.known, entries, mps);
    IdsGone(c.listed, entries, listed, mps);
  }

  /** Only the id of a listed stack leads to it. */
  lemma OneKey(c: Catalogue, entries: Entries, listed: set<Stack>, mps: Stack)
    requires Describes(c, entries, listed) && mps in listed
    ensures entries[mps].id in c.listed && c.listed[entries[mps].id] == mps.TraceKey() &&
            c.known[mps.TraceKey()] == entries[mps]
    ensures forall id <- c.listed :: c.listed[id] == mps.TraceKey() ==> id == entries[mps].id
  {
  }

  /** The catalogue after a new stack has got the next id; `taken` says whether the id was in use. */
  lemma DescribesAdded(c: Catalogue, entries: Entries, listed: set<Stack>, mps: Stack, n: nat, taken: bool)
    requires Describes(c, entries, listed) && NoTwins(entries) && mps !in entries && mps.TraceKey() !in c.known
    requires n > 0 && (taken <==> c.next in c.listed)
    ensures var d := Added(c, mps.TraceKey(), n);
            d.next == c.next + 1 &&
              Describes(d, entries[mps := Entry(c.next, n)], if taken then listed else listed + {mps})
  {
    DescribesNew(c, entries, listed, mps, Entry(c.next, n), c.next + 1);
  }

  /** The catalogue after a stack that occurs once was moved in. */
  lemma DescribesAccepted(c: Catalogue, entries: Entries, listed: set<Stack>, mps: Stack, id: nat)
    requires Describes(c, entries, listed) && NoTwins(entries) && mps !in entries && mps.TraceKey() !in c.known
    requires id > 0 && (id in c.listed ==> c.next !in c.listed)
    ensures var d := Accepted(c, mps.TraceKey(), id); var newId := if id in c.listed then c.next else id;
            && d.Some? && Describes(d.value, entries[mps := Entry(newId, 1)], listed + {mps})
            && d.value.next == c.next + if id in c.listed then 1 else 0
  {
    if id in c.listed {
      DescribesAdded(c, entries, listed, mps, 1, false);
    } else {
      DescribesNew(c, entries, listed, mps, Entry(id, 1), c.next);
    }
  }

  // ---------------------------------------------------------------------------------
  // The set

  /** struct mprofile_stack_set; `entries` are its stacks with their ids and counts, `listed` those in the tree of
      ids. */
  class StackSet {
    var stsetId: nat
    const byFrames: RbHead<Key, Stack>
    const byId: RbHead<nat, Stack>
    ghost var entries: Entries
    ghost var listed: set<Stack>
    ghost var cat: Catalogue
    ghost var repr: set<object>

    /** The tree of frames holds the stacks of `all`. */
    ghost predicate FramesHold(all: set<Stack>)
      reads byFrames, byFrames.nodes, all`rbe
    {
      byFrames.Valid() && byFrames.compare == KeyOrder && FrameEntries(all, byFrames.nodes)
    }

    /** The tree of ids holds the stacks of `all`. */
    ghost predicate IdsHold(all: set<Stack>)
      reads byId, byId.nodes, all`idRbe, all`id
    {
      byId.Valid() && byId.compare == IdOrder && IdEntries(all, byId.nodes)
    }

    ghost predicate Accurate()
      reads this, entries.Keys
    {
      && stsetId == cat.next && Describes(cat, entries, listed)
      && forall s <- entries :: s.id == entries[s].id && s.count == entries[s].count
    }

    ghost predicate Valid()
      reads this, repr
    {
      && byFrames in repr && byId in repr && repr == {this, byFrames, byId} + entries.Keys + byFrames.nodes + byId.nodes
      && Accurate() && FramesHold(entries.Keys) && IdsHold(listed)
    }

    lemma Own()
      requires Valid()
      ensures {this, byFrames, byId} <= repr && entries.Keys <= repr
    {
    }

    /** mprofile_create_stset. */
    constructor ()
      ensures Valid() && cat == EMPTY && entries == map[]
      ensures fresh(repr)
    {
      hide Ordering, KeyOrder, IdOrder, RbHead.Valid, FramesHold, IdsHold, Describes;
      KeyOrdering();
      IdOrdering();
      byFrames := new RbHead<Key, Stack>(KeyOrder);
      byId := new RbHead<nat, Stack>(IdOrder);
      stsetId := 1;
      new;
      NoStacks();
      NothingDescribed();
      ghost var none: Entries := map[];
      assert none.Keys == {};
      Book(EMPTY, none, {});
    }

    lemma NoStacks()
      requires byFrames.Valid() && byFrames.compare == KeyOrder && byFrames.nodes == {}
      requires byId.Valid() && byId.compare == IdOrder && byId.nodes == {}
      ensures FramesHold({}) && IdsHold({})
    {
      hide RbHead.Valid;
    }

    // -------------------------------------------------------------------------------
    // One tree at a time

    lemma FrameKeys(key: Key, all: set<Stack>)
      requires FramesHold(all)
      ensures byFrames.HasKey(key) <==> KeyIn(all, key)
    {
      hide RbHead.Valid;
      KeyOrdering();
      if KeyIn(all, key) {
        var s :| s in all && s.TraceKey() == key;
        assert s.rbe in byFrames.nodes;
      }
    }

    lemma IdKeys(id: nat, all: set<Stack>)
      requires IdsHold(all)
      ensures byId.HasKey(id) <==> IdIn(all, id)
    {
      hide RbHead.Valid;
      if IdIn(all, id) {
        var s :| s in all && s.id == id;
        assert s.idRbe in byId.nodes;
      }
    }

    /** RB_FIND by frames. */
    method FindFrames(key: Key, ghost all: set<Stack>) returns (mps: Stack?)
      requires FramesHold(all)
      ensures mps != null ==> mps in all && mps.TraceKey() == key
      ensures mps == null <==> !KeyIn(all, key)
    {
      hide RbHead.Valid;
      KeyOrdering();
      FrameKeys(key, all);
      var n, _ := byFrames.Find(key);
      mps := if n == null then null else n.elem;
      assert n != null ==> n.elem in all;
    }

    /** RB_FIND by id. */
    method FindId(id: nat, ghost all: set<Stack>) returns (mps: Stack?)
      requires IdsHold(all)
      ensures mps != null ==> mps in all && mps.id == id
      ensures mps == null <==> !IdIn(all, id)
    {
      hide RbHead.Valid;
      IdKeys(id, all);
      var n, _ := byId.Find(id);
      mps := if n == null then null else n.elem;
      assert n != null ==> n.elem in all;
    }

    /** RB_INSERT into the tree of frames. */
    method InsertFrames(mps: Stack, ghost all: set<Stack>) returns (r: Stack?)
      requires FramesHold(all) && mps !in all && mps.InFrames()
      modifies byFrames, byFrames.nodes, mps.rbe
      ensures r == null <==> !KeyIn(all, mps.TraceKey())
      ensures r == null ==> byFrames.nodes == old(byFrames.nodes) + {mps.rbe}
      ensures r != null ==> r in all && r.TraceKey() == mps.TraceKey() && byFrames.nodes == old(byFrames.nodes)
      ensures FramesHold(if r == null then all + {mps} else all)
    {
      hide RbHead.Valid, FrameEntries, KeyIn;
      KeyOrdering();
      FrameKeys(mps.TraceKey(), all);
      ghost var nodes := byFrames.nodes;
      FrameEntriesChange(all, nodes, mps);
      FrameEntry(all, nodes);
      var n, _, _ := byFrames.Insert(mps.rbe);
      assert FrameEntries(all, nodes) == old(FrameEntries(all, nodes));
      assert FrameEntries(all + {mps}, nodes + {mps.rbe}) == old(FrameEntries(all + {mps}, nodes + {mps.rbe}));
      r := if n == null then null else n.elem;
    }

    /** RB_INSERT into the tree of ids. */
    method InsertId(mps: Stack, ghost all: set<Stack>) returns (r: Stack?)
      requires IdsHold(all) && mps !in all && mps.InIds()
      modifies byId, byId.nodes, mps.idRbe
      ensures r == null <==> !IdIn(all, mps.id)
      ensures r == null ==> byId.nodes == old(byId.nodes) + {mps.idRbe}
      ensures r != null ==> r in all && r.id == mps.id && byId.nodes == old(byId.nodes)
      ensures IdsHold(if r == null then all + {mps} else all)
    {
      hide RbHead.Valid, IdEntries, IdIn;
      IdKeys(mps.id, all);
      ghost var nodes := byId.nodes;
      IdEntriesChange(all, nodes, mps);
      IdEntry(all, nodes);
      var n, _, _ := byId.Insert(mps.idRbe);
      assert IdEntries(all, nodes) == old(IdEntries(all, nodes));
      assert IdEntries(all + {mps}, nodes + {mps.idRbe}) == old(IdEntries(all + {mps}, nodes + {mps.idRbe}));
      r := if n == null then null else n.elem;
    }

    /** RB_REMOVE from the tree of frames. */
    method RemoveFrames(mps: Stack, ghost all: set<Stack>)
      returns (ghost before: seq<Node<Key, Stack>>, ghost after: seq<Node<Key, Stack>>)
      requires FramesHold(all) && mps in all
      modifies byFrames, byFrames.nodes
      ensures FramesHold(all - {mps}) && byFrames.nodes == old(byFrames.nodes) - {mps.rbe}
      ensures old(byFrames.Contents()) == before + [mps.rbe] + after && byFrames.Contents() == before + after
    {
      hide RbHead.Valid;
      FrameEntriesChange(all, byFrames.nodes, mps);
      before, after := byFrames.Remove(mps.rbe);
    }

    /** RB_REMOVE from the tree of ids. */
    method RemoveId(mps: Stack, ghost all: set<Stack>)
      requires IdsHold(all) && mps in all
      modifies byId, byId.nodes
      ensures IdsHold(all - {mps}) && byId.nodes == old(byId.nodes) - {mps.idRbe}
    {
      hide RbHead.Valid;
      IdEntriesChange(all, byId.nodes, mps);
      var _, _ := byId.Remove(mps.idRbe);
    }

    /** Frames do not occur twice, and neither do ids in the tree of ids. */
    lemma Distinct()
      requires Valid()
      ensures NoTwins(entries)
      ensures listed <= entries.Keys && NoIdTwins(entries, listed)
    {
      hide RbHead.Valid, Describes;
      DescribesListed();
      KeyOrdering();
      forall s <- entries, t <- entries | s.TraceKey() == t.TraceKey()
        ensures s == t
      {
        byFrames.Unique(s.rbe, t.rbe);
      }
      forall s <- listed, t <- listed | entries[s].id == entries[t].id
        ensures s == t
      {
        byId.Unique(s.idRbe, t.idRbe);
      }
    }

    lemma DescribesListed()
      requires Describes(cat, entries, listed)
      ensures listed <= entries.Keys
    {
    }

    /** The catalogue knows the keys and ids that the trees hold. */
    lemma Known(key: Key)
      requires Describes(cat, entries, listed)
      ensures key in cat.known <==> KeyIn(entries.Keys, key)
      ensures forall s <- entries :: s.TraceKey() in cat.known && cat.known[s.TraceKey()] == entries[s]
    {
    }

    lemma Holds(key: Key)
      requires Valid()
      ensures FramesHold(entries.Keys) && this in repr && stsetId == cat.next
      ensures key in cat.known <==> KeyIn(entries.Keys, key)
      ensures forall s <- entries :: s.TraceKey() in cat.known && cat.known[s.TraceKey()] == Entry(s.id, s.count)
    {
      Known(key);
    }

    lemma KnownId(id: nat)
      requires Accurate()
      ensures id in cat.listed <==> IdIn(listed, id)
      ensures forall s <- listed :: s in entries && s.id in cat.listed && cat.listed[s.id] == s.TraceKey()
    {
      if id in cat.listed {
        assert EntryIn(entries, listed, id);
      }
    }

    // -------------------------------------------------------------------------------
    // Adding

    /** The books of the set are brought in line with its trees. */
    ghost method Book(c: Catalogue, all: Entries, ids: set<Stack>)
      requires FramesHold(all.Keys) && IdsHold(ids) && Describes(c, all, ids) && stsetId == c.next
      requires forall s <- all :: s.id == all[s].id && s.count == all[s].count
      modifies this`cat, this`entries, this`listed, this`repr
      ensures Valid() && cat == c && entries == all && listed == ids
    {
      hide RbHead.Valid, FramesHold, IdsHold, Describes;
      label before:
      cat, entries, listed := c, all, ids;
      repr := {this, byFrames, byId} + all.Keys + byFrames.nodes + byId.nodes;
      assert FramesHold(entries.Keys) == old@before(FramesHold(all.Keys));
      assert IdsHold(listed) == old@before(IdsHold(ids));
    }

    /** `mps_count` of a stack of the set is changed. */
    method SetCount(mps: Stack, count: nat)
      requires Valid() && mps in entries && count > 0
      modifies repr
      ensures Valid() && mps.count == count && entries.Keys == old(entries.Keys) && listed == old(listed)
      ensures repr == old(repr) && mps.TraceKey() in old(cat).known
      ensures var c, key := old(cat), mps.TraceKey();
              cat == c.(known := c.known[key := Recount(c.known[key], count)])
    {
      hide RbHead.Valid, FramesHold, IdsHold, Describes;
      Distinct();
      DescribesListed();
      DescribesCount(cat, entries, listed, mps, count);
      label before:
      mps.count := count;
      ghost var all := entries[mps := Recount(entries[mps], count)];
      assert all.Keys == entries.Keys;
      assert FramesHold(all.Keys) == old@before(FramesHold(entries.Keys));
      assert IdsHold(listed) == old@before(IdsHold(listed));
      Book(cat.(known := cat.known[mps.TraceKey() := Recount(entries[mps], count)]), all, listed);
    }

    /** A copy with the next id is inserted into both trees (stack.c:176-181). The insertion into the tree of ids
        may fail unnoticed; `taken` says whether it does. */
    method InsertCopy(frames: Frames, front: nat, n: nat, ghost all: set<Stack>, ghost ids: set<Stack>)
      returns (mps: Stack, ghost taken: bool)
      requires FramesHold(all) && IdsHold(ids) && ids <= all && !KeyIn(all, KeyOf(frames, front))
      modifies this`stsetId, byFrames, byFrames.nodes, byId, byId.nodes
      ensures fresh(mps) && fresh(mps.rbe) && fresh(mps.idRbe) && mps.frames == frames &&
              mps.TraceKey() == KeyOf(frames, front)
      ensures mps.id == old(stsetId) && mps.count == n && stsetId == old(stsetId) + 1 &&
              taken == old(IdIn(ids, stsetId))
      ensures FramesHold(all + {mps}) && IdsHold(if taken then ids else ids + {mps})
      ensures byFrames.nodes <= old(byFrames.nodes) + {mps.rbe} && byId.nodes <= old(byId.nodes) + {mps.idRbe}
    {
      hide RbHead.Valid, FramesHold, IdsHold, KeyIn, IdIn;
      mps := new Stack(frames, front, n, stsetId);
      assert FramesHold(all) == old(FramesHold(all)) && IdsHold(ids) == old(IdsHold(ids));
      assert IdIn(ids, mps.id) == old(IdIn(ids, stsetId));
      stsetId := stsetId + 1;
      var _ := InsertFrames(mps, all);
      label framed:
      var r := InsertId(mps, ids);
      assert FramesHold(all + {mps}) == old@framed(FramesHold(all + {mps}));
      taken := r != null;
    }

    /** A stack that the set does not have yet. */
    method AddNew(frames: Frames, front: nat, n: nat) returns (mps: Stack)
      requires Valid() && KeyOf(frames, front) !in cat.known && n > 0
      modifies repr
      ensures Valid() && cat == Added(old(cat), KeyOf(frames, front), n)
      ensures fresh(mps) && mps.frames == frames && mps.TraceKey() == KeyOf(frames, front)
      ensures entries.Keys == old(entries.Keys) + {mps} && old(listed) <= listed
      ensures forall o <- repr :: o in old(repr) || fresh(o)
    {
      hide RbHead.Valid, FramesHold, IdsHold, Describes, KeyIn, IdIn, Added;
      ghost var all, ids := entries.Keys, listed;
      DescribesListed();
      Distinct();
      Known(KeyOf(frames, front));
      KnownId(stsetId);
      ghost var taken;
      mps, taken := InsertCopy(frames, front, n, all, ids);
      DescribesAdded(cat, entries, ids, mps, n, taken);
      ghost var more := entries[mps := Entry(mps.id, n)];
      assert more.Keys == all + {mps};
      Book(Added(cat, KeyOf(frames, front), n), more, if taken then ids else ids + {mps});
    }

    /** A stack without frames is told from those of the set by where it lies. */
    ghost predicate Apart(frames: Frames, front: nat)
      reads this
    {
      frames == [] ==> KeyOf([], front) !in cat.known
    }

    /** mprofile_add_stack (stack.c:165-185); `front` is the word in front of the frames of a copy. */
    method AddStack(newMps: Trace, front: nat) returns (mps: Stack)
      requires Valid() && newMps.Ready() && Apart(newMps.Content(), newMps.Front()) && Apart(newMps.Content(), front)
      modifies repr
      ensures Valid() && cat == Added(old(cat), KeyOf(old(newMps.Content()), front), old(newMps.FirstCount()))
      ensures mps in entries && mps.frames == old(newMps.Content()) && mps.TraceKey() == KeyOf(mps.frames, front)
      ensures entries.Keys == old(entries.Keys) + {mps} && old(listed) <= listed
      ensures mps in old(entries) || fresh(mps)
      ensures forall o <- repr :: o in old(repr) || fresh(o)
    {
      hide RbHead.Valid, Valid, FramesHold;
      ghost var key := KeyOf(newMps.Content(), front);
      Holds(key);
      Holds(KeyOf(newMps.Content(), newMps.Front()));
      var frames;
      match newMps {
        case Local(buf) => frames := buf.Copy();
        case Managed(other) => frames := other.frames;
      }
      var found := FindFrames(KeyOf(frames, newMps.Front()), entries.Keys);
      if found == null {
        mps := AddNew(frames, front, newMps.FirstCount());
      } else {
        mps := found;
        SetCount(mps, mps.count + 1);
      }
    }

    /** The part of the recording functions about the stack (record.c:334-339): its id goes into the record. */
    method RecordStack(buf: Buffer, front: nat, ghost added: seq<Key>) returns (stackId: nat)
      requires Valid() && buf.Valid() && cat == Recorded(added) && Canonical(added)
      requires Apart(buf.Collected(), buf.front) && Apart(buf.Collected(), front)
      modifies repr
      ensures Valid() && var more := added + [KeyOf(old(buf.Collected()), front)];
              Canonical(more) && cat == Recorded(more) && RecordIds(more) == RecordIds(added) + [stackId]
      ensures old(entries.Keys) <= entries.Keys
      ensures forall o <- repr :: o in old(repr) || fresh(o)
    {
      hide RbHead.Valid, Valid, FramesHold;
      var mps := AddStack(Local(buf), front);
      assert added + [mps.TraceKey()] == added + [KeyOf(mps.frames, front)];
      RecordedMore(added, mps.TraceKey());
      Holds(mps.TraceKey());
      stackId := mps.id;
    }

    /** A stack with a larger count elsewhere is looked up, or copied into this set (stack.c:333-347). */
    method Share(oldMps: Stack) returns (mps: Stack)
      requires Valid() && oldMps.frames != [] && oldMps.count > 0
      modifies repr
      ensures Valid() && cat == Added(old(cat), oldMps.TraceKey(), old(oldMps.count))
      ensures mps in entries && mps.TraceKey() == oldMps.TraceKey()
      ensures entries.Keys == old(entries.Keys) + {mps} && old(listed) <= listed
      ensures mps in old(entries) || fresh(mps)
      ensures forall o <- repr :: o in old(repr) || fresh(o)
    {
      hide RbHead.Valid, Valid, FramesHold;
      Holds(oldMps.TraceKey());
      var found := FindFrames(oldMps.TraceKey(), entries.Keys);
      if found == null {
        mps := AddStack(Managed(oldMps), 0);
      } else {
        mps := found;
        SetCount(mps, mps.count + 1);
      }
    }

    // -------------------------------------------------------------------------------
    // Moving a stack to another set

    /** RB_FIND by id, as in mprofile_merge_stack (stack.c:295-296). */
    method Lookup(id: nat) returns (mps: Stack?)
      requires Valid()
      ensures mps != null <==> id in cat.listed
      ensures mps != null ==> mps in listed && mps.id == id && cat.listed[id] == mps.TraceKey()
    {
      hide RbHead.Valid, FramesHold, IdsHold, Describes;
      KnownId(id);
      mps := FindId(id, listed);
    }

    lemma Linked(mps: Stack)
      requires FramesHold(entries.Keys) && IdsHold(listed) && mps in entries && mps in listed
      ensures mps.InFrames() && mps.InIds() && mps.rbe in byFrames.nodes && mps.idRbe in byId.nodes
    {
    }

    /** The stack leaves both trees. */
    method RemoveBoth(mps: Stack, ghost all: set<Stack>, ghost ids: set<Stack>)
      returns (ghost before: seq<Node<Key, Stack>>, ghost after: seq<Node<Key, Stack>>)
      requires FramesHold(all) && IdsHold(ids) && mps in all && mps in ids
      modifies byFrames, byFrames.nodes, byId, byId.nodes
      ensures FramesHold(all - {mps}) && IdsHold(ids - {mps})
      ensures byFrames.nodes == old(byFrames.nodes) - {mps.rbe} && byId.nodes == old(byId.nodes) - {mps.idRbe}
      ensures old(byFrames.Contents()) == before + [mps.rbe] + after && byFrames.Contents() == before + after
    {
      hide RbHead.Valid, FramesHold, IdsHold;
      before, after := RemoveFrames(mps, all);
      label framed:
      RemoveId(mps, ids);
      assert byFrames.Contents() == old@framed(byFrames.Contents());
      assert FramesHold(all - {mps}) == old@framed(FramesHold(all - {mps}));
    }

    /** The two removals of mprofile_merge_stack (stack.c:303-304). */
    method Leave(mps: Stack) returns (ghost before: seq<Node<Key, Stack>>, ghost after: seq<Node<Key, Stack>>)
      requires Valid() && mps in listed
      modifies repr
      ensures Valid() &&
              cat == old(cat).(known := old(cat).known - {mps.TraceKey()}, listed := old(cat).listed - {mps.id})
      ensures entries.Keys == old(entries.Keys) - {mps} && listed == old(listed) - {mps}
      ensures mps.InFrames() && mps.InIds() && mps.id == old(mps.id) && mps.count == old(mps.count)
      ensures {mps, mps.rbe, mps.idRbe} <= old(repr) && repr <= old(repr) - {mps, mps.rbe, mps.idRbe}
      ensures mps.rbe == old(mps.rbe) && old(byFrames.Contents()) == before + [mps.rbe] + after &&
              byFrames.Contents() == before + after
    {
      hide RbHead.Valid, FramesHold, IdsHold, Describes, NoTwins, NoIdTwins, KeyOf;
      ghost var all, ids := entries.Keys, listed;
      Distinct();
      DescribesListed();
      DescribesGone(cat, entries, ids, mps);
      Linked(mps);
      before, after := RemoveBoth(mps, all, ids);
      ghost var rest := entries - {mps};
      assert rest.Keys == all - {mps};
      assert {mps, mps.rbe, mps.idRbe} !! {this, byFrames, byId} + rest.Keys + byFrames.nodes + byId.nodes;
      Book(cat.(known := cat.known - {mps.TraceKey()}, listed := cat.listed - {mps.id}), rest, ids - {mps});
    }

    /** The stack enters the tree of ids, under a new id if its own is in use (stack.c:309-320). `ok` is the
        assertion of stack.c:319. */
    method EnterId(mps: Stack, ghost all: set<Stack>) returns (ok: bool)
      requires IdsHold(all) && mps !in all && mps.InIds()
      modifies this`stsetId, byId, byId.nodes, mps`id, mps`idRbe, mps.idRbe
      ensures ok <==> !(old(IdIn(all, mps.id)) && old(IdIn(all, stsetId)))
      ensures ok ==> IdsHold(all + {mps})
      ensures mps.id == old(if IdIn(all, mps.id) then stsetId else mps.id)
      ensures stsetId == old(stsetId) + old(if IdIn(all, mps.id) then 1 else 0)
      ensures forall n <- byId.nodes :: n in old(byId.nodes) || n == old(mps.idRbe) || fresh(n)
    {
      hide RbHead.Valid, IdsHold, IdIn;
      var chk := InsertId(mps, all);
      if chk != null {
        label taken:
        mps.SetId(stsetId);
        stsetId := stsetId + 1;
        assert IdsHold(all) == old@taken(IdsHold(all)) && IdIn(all, mps.id) == old(IdIn(all, stsetId));
        chk := InsertId(mps, all);
      }
      ok := chk == null;
    }

    /** The rest of the move (stack.c:305-330): an equal stack takes over the count, or else the stack is entered
        here. The program aborts if not `ok`. */
    method Accept(mps: Stack) returns (ok: bool, newMps: Stack)
      requires Valid() && mps !in entries && mps.InFrames() && mps.InIds() && mps.count == 1 && mps.id > 0
      modifies repr, mps`id, mps`idRbe, mps.rbe, mps.idRbe
      ensures ok <==> Accepted(old(cat), mps.TraceKey(), old(mps.id)).Some?
      ensures ok ==> Valid() && cat == Accepted(old(cat), mps.TraceKey(), old(mps.id)).value
      ensures ok ==>
              newMps in entries && newMps.TraceKey() == mps.TraceKey() &&
              entries.Keys == old(entries.Keys) + {newMps}
      ensures ok ==>
              (if mps.TraceKey() in old(cat).known then newMps in old(entries) else newMps == mps) &&
              old(listed) <= listed
      ensures ok ==> forall o <- repr :: o in old(repr + {mps, mps.rbe, mps.idRbe}) || fresh(o)
    {
      hide RbHead.Valid, FramesHold, IdsHold, Describes;
      ghost var all, ids := entries.Keys, listed;
      Known(mps.TraceKey());
      Distinct();
      DescribesListed();
      var r := InsertFrames(mps, all);
      label framed:
      assert IdsHold(ids) == old(IdsHold(ids));
      if r == null {
        ok := EnterNew(mps, all);
        newMps := mps;
      } else {
        newMps := r;
        assert Valid();
        SetCount(newMps, newMps.count + 1);
        ok := true;
      }
    }

    /** A stack that has been inserted by its frames is inserted by its id. */
    method EnterNew(mps: Stack, ghost all: set<Stack>) returns (ok: bool)
      requires Accurate() && all == entries.Keys && FramesHold(all + {mps}) && IdsHold(listed) && NoTwins(entries)
      requires mps !in entries && mps.InIds() && mps.count == 1 && mps.id > 0 && mps.TraceKey() !in cat.known
      modifies this, byId, byId.nodes, mps`id, mps`idRbe, mps.idRbe
      ensures ok <==> Accepted(old(cat), mps.TraceKey(), old(mps.id)).Some?
      ensures ok ==> Valid() && cat == Accepted(old(cat), mps.TraceKey(), old(mps.id)).value
      ensures ok ==> entries.Keys == all + {mps} && listed == old(listed) + {mps}
      ensures forall n <- byId.nodes :: n in old(byId.nodes) || n == old(mps.idRbe) || fresh(n)
    {
      hide RbHead.Valid, FramesHold, IdsHold, Describes;
      ghost var ids, id := listed, mps.id;
      DescribesListed();
      KnownId(id);
      KnownId(stsetId);
      label before:
      ok := EnterId(mps, ids);
      assert FramesHold(all + {mps}) == old@before(FramesHold(all + {mps}));
      if ok {
        DescribesAccepted(cat, entries, ids, mps, id);
        ghost var more := entries[mps := Entry(mps.id, 1)];
        assert more.Keys == all + {mps};
        Book(Accepted(cat, mps.TraceKey(), id).value, more, ids + {mps});
      }
    }
  }
}
