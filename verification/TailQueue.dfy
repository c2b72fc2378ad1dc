/** The intrusive tail queue of mprofile/utils/queue.h. */
module TailQueue {

  /** TAILQ_ENTRY embedded in the element `elem`. */
  class Entry<V> {
    var next: Entry?<V>
    var prev: Address<V>
    const elem: V

    constructor (elem: V)
      ensures this.elem == elem && next == null
    {
      this.elem := elem;
      next, prev := null, First;
    }
  }

  /** The address of a link field: tqh_first of the head, or tqe_next of an entry. */
  datatype Address<V> = First | NextOf(entry: Entry<V>)

  ghost predicate NoDuplicates<T>(q: seq<T>) {
    forall i, j :: 0 <= i < j < |q| ==> q[i] != q[j]
  }

  /** The entry that a link at position `i` leads to. */
  ghost function Nth<V>(q: seq<Entry<V>>, i: nat): Entry?<V> {
    if i < |q| then q[i] else null
  }

  /** The address of the link that leads to position `i`. */
  ghost function LinkTo<V>(q: seq<Entry<V>>, i: nat): Address<V>
    requires i <= |q|
  {
    if i == 0 then First else NextOf(q[i - 1])
  }

  /** TAILQ_HEAD; `entries` are the queued entries, first to last. */
  class Head<V> {
    var first: Entry?<V>
    var last: Address<V>
    ghost var entries: seq<Entry<V>>

    /** `q` is linked from its first entry to its last one. */
    ghost predicate Linked(q: seq<Entry<V>>)
      reads this, q
    {
      && first == Nth(q, 0) && last == LinkTo(q, |q|)
      && (forall i {:trigger q[i].next} :: 0 <= i < |q| ==> q[i].next == Nth(q, i + 1))
      && (forall i {:trigger q[i].prev} :: 0 <= i < |q| ==> q[i].prev == LinkTo(q, i))
    }

    ghost predicate Valid()
      reads this, entries
    {
      NoDuplicates(entries) && Linked(entries)
    }

    /** TAILQ_INIT. */
    constructor ()
      ensures Valid() && entries == []
    {
      first, last, entries := null, First, [];
    }

    /** `*address = entry`. */
    method Store(address: Address<V>, entry: Entry?<V>)
      modifies this`first, (if address.NextOf? then {address.entry} else {})`next
      ensures match address case First => first == entry case NextOf(e) => e.next == entry && first == old(first)
    {
      match address {
        case First => first := entry;
        case NextOf(e) => e.next := entry;
      }
    }

    /** TAILQ_INSERT_TAIL. */
    method InsertTail(elm: Entry<V>)
      requires Valid() && elm !in entries
      modifies this, entries, elm
      ensures Valid() && entries == old(entries) + [elm]
    {
      ghost var q, n := entries, |entries|;
      elm.next := null;
      elm.prev := last;
      Store(last, elm);
      last := NextOf(elm);
      entries := q + [elm];
      assert n > 0 ==> q[n - 1].next == elm;
      assert forall i {:trigger q[i].next} :: 0 <= i < n - 1 ==> q[i].next == q[i + 1];
      assert forall i {:trigger q[i].prev} :: 0 <= i < n ==> q[i].prev == LinkTo(q, i);
    }

    /** The links around position `k` of `q` go past it. */
    ghost predicate Bypassed(q: seq<Entry<V>>, k: nat)
      requires k < |q|
      reads this, q
    {
      && first == Nth(q, if k == 0 then 1 else 0)
      && last == LinkTo(q, if k + 1 == |q| then k else |q|)
      && (k > 0 ==> q[k - 1].next == Nth(q, k + 1))
      && (k + 1 < |q| ==> q[k + 1].prev == LinkTo(q, k))
      && (forall i {:trigger q[i].next} :: 0 <= i < |q| && i != k && i + 1 != k ==> q[i].next == Nth(q, i + 1))
      && (forall i {:trigger q[i].prev} :: 0 <= i < |q| && i != k && i != k + 1 ==> q[i].prev == LinkTo(q, i))
    }

    lemma Close(q: seq<Entry<V>>, k: nat)
      requires k < |q| && Bypassed(q, k)
      ensures Linked(q[..k] + q[k + 1..])
    {
      var w := q[..k] + q[k + 1..];
      forall i | 0 <= i < |w|
        ensures w[i].next == Nth(w, i + 1) && w[i].prev == LinkTo(w, i)
      {
        assert w[i] == q[if i < k then i else i + 1];
      }
    }

    /** TAILQ_REMOVE. */
    method Remove(elm: Entry<V>, ghost k: nat)
      requires Valid() && k < |entries| && entries[k] == elm
      modifies this, entries
      ensures Valid() && entries == old(entries)[..k] + old(entries)[k + 1..]
    {
      ghost var q := entries;
      if elm.next != null {
        elm.next.prev := elm.prev;
      } else {
        last := elm.prev;
      }
      Store(elm.prev, elm.next);
      Close(q, k);
      entries := q[..k] + q[k + 1..];
    }
  }
}
