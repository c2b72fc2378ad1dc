/** The statistics mode and the trace mode of mprofile/init.c, one thread at a time. */
module Modes {
  import opened History
  import opened Totals
  import Blocks
  import Counters

  const WORDS: nat := Counters.WORDS

  // ---------------------------------------------------------------------------------
  // Machine words

  /** Conversion to uint64_t and size_t. */
  function Wrap(x: int): (r: nat)
    ensures r < WORDS
  {
    x % WORDS
  }

  /** Conversion of a size_t to ssize_t. */
  function Signed(x: nat): int {
    if Wrap(x) < WORDS / 2 then Wrap(x) else Wrap(x) - WORDS
  }

  lemma WrapAdd(x: int, y: int)
    ensures Wrap(Wrap(x) + y) == Wrap(x + y) && Wrap(x + Wrap(y)) == Wrap(x + y)
  {
    ModAdd(x, y);
    ModAdd(y, x);
  }

  lemma ModAdd(x: int, y: int)
    ensures (x % WORDS + y) % WORDS == (x + y) % WORDS
  {
    var q := x / WORDS;
    assert x == q * WORDS + x % WORDS;
    ModShift(x % WORDS + y, q);
  }

  lemma {:induction false} ModShift(z: int, q: int)
    ensures (z + q * WORDS) % WORDS == z % WORDS
    decreases if q < 0 then -q else q
  {
    if q > 0 {
      ModShift(z, q - 1);
      assert z + q * WORDS == (z + (q - 1) * WORDS) + WORDS;
    } else if q < 0 {
      ModShift(z, q + 1);
      assert z + (q + 1) * WORDS == (z + q * WORDS) + WORDS;
    }
  }

  lemma Small(x: int)
    requires 0 <= x < WORDS
    ensures Wrap(x) == x
  {
  }

  /** Differences of sizes below 2^63 survive the conversions. */
  lemma SignedDelta(x: nat, y: nat)
    requires x < WORDS / 2 && y < WORDS / 2
    ensures Signed(Wrap(x - y)) == x - y
  {
  }

  // ---------------------------------------------------------------------------------
  // Calls of the program

  /** A call and the address that the heap gives for it; addresses are those of the headers, 0 is NULL. */
  datatype Call =
    | CallMalloc(size: nat, mh: nat)
    | CallFree(mh: nat)
    | CallRealloc(mh: nat, size: nat, newMh: nat)

  type Heap = map<nat, nat>

  /** A successful call, on something the program may release; realloc(NULL, 0) is excluded. */
  ghost predicate Possible(heap: Heap, c: Call) {
    match c
    case CallMalloc(size, mh) => size < WORDS / 2 && mh != 0 && mh !in heap
    case CallFree(mh) => mh == 0 || mh in heap
    case CallRealloc(mh, size, newMh) =>
      && size < WORDS / 2 && (mh == 0 || mh in heap) && (mh == 0 ==> size > 0)
      && (size > 0 ==> newMh != 0 && (newMh == mh || newMh !in heap))
  }

  ghost function HeapAfter(heap: Heap, c: Call): Heap {
    match c
    case CallMalloc(size, mh) => heap[mh := size]
    case CallFree(mh) => heap - {mh}
    case CallRealloc(mh, size, newMh) => if size == 0 then heap - {mh} else (heap - {mh})[newMh := size]
  }

  // ---------------------------------------------------------------------------------
  // What the two modes record

  /** The counters of struct memstats. */
  datatype Stats = Stats(totalAllocated: nat, totalReleased: nat, reallocs: nat, allocs: nat, frees: nat, max: nat,
                         current: nat)

  const NO_STATS := Stats(0, 0, 0, 0, 0, 0, 0)

  ghost function Grown(v: Stats, delta: nat): Stats {
    var current := Wrap(v.current + delta);
    v.(totalAllocated := Wrap(v.totalAllocated + delta), current := current,
       max := if current > v.max then current else v.max)
  }

  ghost function Shrunk(v: Stats, delta: nat): Stats {
    v.(totalReleased := Wrap(v.totalReleased + delta), current := Wrap(v.current - delta))
  }

  ghost function SizeIn(heap: Heap, mh: nat): nat {
    if mh in heap then heap[mh] else 0
  }

  ghost function StatsAfter(v: Stats, heap: Heap, c: Call): Stats {
    match c
    case CallMalloc(size, _) => Grown(v.(allocs := Wrap(v.allocs + 1)), size)
    case CallFree(mh) => if mh == 0 then v else Shrunk(v.(frees := Wrap(v.frees + 1)), SizeIn(heap, mh))
    case CallRealloc(mh, size, _) =>
      if size == 0 && mh != 0 then Shrunk(v.(frees := Wrap(v.frees + 1)), SizeIn(heap, mh))
      else if mh == 0 then Grown(v.(allocs := Wrap(v.allocs + 1)), size)
      else if SizeIn(heap, mh) > size then Shrunk(v.(reallocs := Wrap(v.reallocs + 1)), SizeIn(heap, mh) - size)
      else Grown(v.(reallocs := Wrap(v.reallocs + 1)), size - SizeIn(heap, mh))
  }

  /** The record that the trace mode makes of a call (init.c:410-501, record.c:327-330, 354-357, 382-386). */
  ghost function OpOf(heap: Heap, c: Call, id: nat): Op {
    match c
    case CallMalloc(size, mh) => Op(id, Kind.Alloc, mh, 0, Signed(size))
    case CallFree(mh) => Op(id, Kind.Free, mh, 0, Signed(Wrap(-(SizeIn(heap, mh) as int))))
    case CallRealloc(mh, size, newMh) =>
      if size == 0 then Op(id, Kind.Free, mh, 0, Signed(Wrap(-(SizeIn(heap, mh) as int))))
      else if mh == 0 then Op(id, Kind.Alloc, newMh, 0, Signed(size))
      else Op(id, Kind.Realloc, newMh, mh, Signed(Wrap(size - SizeIn(heap, mh))))
  }

  // ---------------------------------------------------------------------------------
  // The two modes agree

  function Size(size: nat): nat { size }

  ghost function SumSizes(heap: Heap): nat {
    Blocks.Sum(heap, Size)
  }

  lemma SumWithout(heap: Heap, mh: nat)
    ensures SumSizes(heap) == SizeIn(heap, mh) + SumSizes(heap - {mh})
  {
    if mh in heap {
      Blocks.SumWithout(heap, Size, mh);
    } else {
      assert heap - {mh} == heap;
    }
  }

  lemma SumWith(heap: Heap, mh: nat, size: nat)
    requires mh !in heap
    ensures SumSizes(heap[mh := size]) == SumSizes(heap) + size
  {
    Blocks.SumChanged(heap, Size, mh, size);
    assert heap - {mh} == heap;
  }

  /** How a call changes the memory in use. */
  lemma HeapGrowth(heap: Heap, c: Call)
    requires Possible(heap, c)
    ensures SumSizes(HeapAfter(heap, c)) == SumSizes(heap) + Delta(heap, c)
  {
    match c
    case CallMalloc(size, mh) => SumWith(heap, mh, size);
    case CallFree(mh) => SumWithout(heap, mh);
    case CallRealloc(mh, size, newMh) =>
      SumWithout(heap, mh);
      if size > 0 {
        SumWith(heap - {mh}, newMh, size);
      }
  }

  ghost function Delta(heap: Heap, c: Call): int {
    match c
    case CallMalloc(size, _) => size
    case CallFree(mh) => -(SizeIn(heap, mh) as int)
    case CallRealloc(mh, size, _) => size - SizeIn(heap, mh)
  }

  /** The largest amount of memory in use after any of the first `n` steps, or at the start. */
  ghost function PeakTo(log: seq<Op>, n: nat): int
    requires n <= |log|
  {
    if n == 0 then 0 else if Total(log, n) > PeakTo(log, n - 1) then Total(log, n) else PeakTo(log, n - 1)
  }

  lemma {:induction false} SumsBefore(log: seq<Op>, op: Op, n: nat)
    requires n <= |log|
    ensures var w := log + [op];
            Total(w, n) == Total(log, n) && Gained(w, n) == Gained(log, n) && Lost(w, n) == Lost(log, n) &&
              PeakTo(w, n) == PeakTo(log, n)
  {
    if n > 0 {
      SumsBefore(log, op, n - 1);
    }
  }

  ghost function CountKind(log: seq<Op>, kind: Kind): nat {
    if log == [] then 0
    else
      var last := log[|log| - 1];
      CountKind(log[..|log| - 1], kind) + if last.kind == kind && last.mem != 0 then 1 else 0
  }

  lemma CountAppend(log: seq<Op>, op: Op, kind: Kind)
    ensures CountKind(log + [op], kind) == CountKind(log, kind) + if op.kind == kind && op.mem != 0 then 1 else 0
  {
    assert (log + [op])[..|log|] == log;
  }

  ghost predicate HeapOk(heap: Heap) {
    0 !in heap && SumSizes(heap) < WORDS && forall mh <- heap :: heap[mh] < WORDS / 2
  }

  /** The counters say of a run what its log says. */
  ghost predicate Agree(v: Stats, log: seq<Op>, heap: Heap) {
    var n := |log|;
    && v.totalAllocated == Wrap(Gained(log, n)) && v.totalReleased == Wrap(Lost(log, n))
    && v.current == Total(log, n) == SumSizes(heap) && v.max == PeakTo(log, n)
    && v.allocs == Wrap(CountKind(log, Kind.Alloc)) && v.frees == Wrap(CountKind(log, Kind.Free))
    && v.reallocs == Wrap(CountKind(log, Kind.Realloc))
  }

  lemma SignedSize(x: nat)
    requires x < WORDS / 2
    ensures Signed(x) == x
  {
  }

  lemma SizeFits(heap: Heap, mh: nat)
    requires HeapOk(heap)
    ensures SizeIn(heap, mh) < WORDS / 2
  {
  }

  /** The record of a call carries its true difference of sizes. */
  lemma TrueDelta(heap: Heap, c: Call, id: nat)
    requires Possible(heap, c) && HeapOk(heap)
    ensures OpOf(heap, c, id).delta == Delta(heap, c)
  {
    hide Wrap, Signed, HeapOk, SizeIn;
    match c
    case CallMalloc(size, _) => SignedSize(size);
    case CallFree(mh) =>
      SizeFits(heap, mh);
      SignedDelta(0, SizeIn(heap, mh));
    case CallRealloc(mh, size, _) =>
      SizeFits(heap, mh);
      SignedDelta(size, SizeIn(heap, mh));
      SignedSize(size);
      if mh == 0 {
        NoNullBlock(heap);
      }
  }

  lemma NoNullBlock(heap: Heap)
    requires HeapOk(heap)
    ensures SizeIn(heap, 0) == 0
  {
  }

  lemma LogGrows(log: seq<Op>, op: Op)
    ensures var w, n := log + [op], |log|;
      && Total(w, n + 1) == Total(log, n) + op.delta
      && Gained(w, n + 1) == Gained(log, n) + (if op.delta < 0 then 0 else op.delta)
      && Lost(w, n + 1) == Lost(log, n) + (if op.delta < 0 then -op.delta else 0)
      && PeakTo(w, n + 1) == (if Total(log, n) + op.delta > PeakTo(log, n) then Total(log, n) + op.delta
                              else PeakTo(log, n))
      && (forall kind: Kind :: CountKind(w, kind) ==
                               CountKind(log, kind) + if op.kind == kind && op.mem != 0 then 1 else 0)
  {
    SumsBefore(log, op, |log|);
    forall kind: Kind
      ensures CountKind(log + [op], kind) == CountKind(log, kind) + if op.kind == kind && op.mem != 0 then 1 else 0
    {
      CountAppend(log, op, kind);
    }
  }

  lemma {:induction false} PeakBounds(log: seq<Op>, n: nat)
    requires n <= |log|
    ensures PeakTo(log, n) >= Total(log, n)
  {
  }

  /** One call changes the counters as its record changes the sums over the log. */
  lemma AgreeStep(v: Stats, log: seq<Op>, heap: Heap, c: Call, id: nat)
    requires Agree(v, log, heap) && Possible(heap, c) && HeapOk(heap) && SumSizes(HeapAfter(heap, c)) < WORDS
    ensures Agree(StatsAfter(v, heap, c), log + [OpOf(heap, c, id)], HeapAfter(heap, c))
    ensures HeapOk(HeapAfter(heap, c))
  {
    hide Wrap, Total, Gained, Lost, PeakTo, CountKind, SumSizes, Signed;
    var op := OpOf(heap, c, id);
    TrueDelta(heap, c, id);
    HeapGrowth(heap, c);
    Small(SumSizes(heap) + op.delta);
    LogGrows(log, op);
    PeakBounds(log, |log|);
    WrapAdd(Gained(log, |log|), op.delta);
    WrapAdd(Lost(log, |log|), -op.delta);
    WrapAdd(CountKind(log, op.kind), 1);
  }

  // ---------------------------------------------------------------------------------
  // The log is a history of the heap

  /** The log is well-formed, shows as live exactly the blocks in the heap, and each with its size. */
  ghost predicate Mirrors(log: seq<Op>, heap: Heap) {
    && WellFormed(log) && Balanced(log) && (forall i :: 0 <= i < |log| ==> log[i].id == i + 1)
    && (forall a: nat :: LiveAt(log, a) <==> a in heap)
    && (forall i: nat :: Alive(log, |log|, i) ==> log[i].mem in heap && SizeAt(log, i) == heap[log[i].mem])
  }

  /** What the record of a call says of addresses. */
  lemma Addresses(heap: Heap, c: Call, id: nat)
    requires Possible(heap, c) && 0 !in heap
    ensures var op, heap' := OpOf(heap, c, id), HeapAfter(heap, c);
      && op.id == id
      && (IsCloser(op) ==> Target(op) in heap && Target(op) != 0)
      && (IsOpener(op) ==> op.mem in heap' && (op.mem in heap ==> Closes(op, op.mem)))
      && (forall a: nat :: a in heap' <==> (IsOpener(op) && a == op.mem) || (a in heap && !Closes(op, a)))
      && (forall a: nat :: a in heap && !Closes(op, a) ==> heap'[a] == heap[a])
      && (op.kind.Free? && op.mem == 0 ==> Delta(heap, c) == 0)
      && (op.kind.Free? && op.mem != 0 ==> Delta(heap, c) == -(heap[op.mem] as int))
      && (op.kind.Alloc? ==> Delta(heap, c) == heap'[op.mem])
      && (op.kind.Realloc? ==> heap[op.realloc] + Delta(heap, c) == heap'[op.mem])
  {
    hide Signed, Wrap;
  }

  lemma MirrorLive(log: seq<Op>, heap: Heap, op: Op, heap': Heap)
    requires WellFormed(log) && forall a: nat :: LiveAt(log, a) <==> a in heap
    requires IsCloser(op) ==> Target(op) in heap
    requires IsOpener(op) ==> op.mem in heap ==> Closes(op, op.mem)
    requires forall a: nat :: a in heap' <==> (IsOpener(op) && a == op.mem) || (a in heap && !Closes(op, a))
    ensures WellFormed(log + [op]) && forall a: nat :: LiveAt(log + [op], a) <==> a in heap'
  {
    Append(log, op);
    forall a: nat
      ensures LiveAt(log + [op], a) <==> a in heap'
    {
      LiveAfter(log, op, a);
    }
  }

  /** One more call, and the log still mirrors the heap. */
  lemma MirrorStep(log: seq<Op>, heap: Heap, c: Call)
    requires Mirrors(log, heap) && Possible(heap, c) && HeapOk(heap)
    ensures Mirrors(log + [OpOf(heap, c, |log| + 1)], HeapAfter(heap, c))
  {
    hide OpOf, HeapAfter, Delta, Possible, Signed, Wrap, SumSizes;
    var op, heap', w, n := OpOf(heap, c, |log| + 1), HeapAfter(heap, c), log + [OpOf(heap, c, |log| + 1)], |log|;
    Addresses(heap, c, |log| + 1);
    TrueDelta(heap, c, |log| + 1);
    MirrorLive(log, heap, op, heap');
    Prefix(log, [op]);
    forall i: nat | Alive(w, n + 1, i)
      ensures w[i].mem in heap' && SizeAt(w, i) == heap'[w[i].mem]
    {
      AliveAfter(log, op, i);
      if i < n {
        SizePrefix(log, [op], i);
      } else if op.kind.Realloc? {
        assert LiveAt(log, op.realloc);
        var p: nat :| Alive(log, n, p) && log[p].mem == op.realloc;
        assert Link(w, p, n);
        SizeOfRealloc(w, p, n);
        SizePrefix(log, [op], p);
      }
    }
    forall i: nat, j: nat | Link(w, i, j) && w[j].kind.Free?
      ensures w[j].delta == -SizeAt(w, i)
    {
      SizePrefix(log, [op], i);
      assert j < n ==> Link(log, i, j);
      assert j == n ==> Alive(log, n, i);
    }
  }

  /** What a program in one thread does, from the start: each call is possible and the memory fits in a word. */
  ghost predicate PossibleRun(calls: seq<Call>) {
    calls != [] ==>
      && PossibleRun(Front(calls)) && Possible(HeapOf(Front(calls)), Last(calls))
      && SumSizes(HeapOf(calls)) < WORDS
  }

  ghost function Front(calls: seq<Call>): (r: seq<Call>)
    requires calls != []
    ensures |r| == |calls| - 1
  {
    calls[..|calls| - 1]
  }

  ghost function Last(calls: seq<Call>): Call
    requires calls != []
  {
    calls[|calls| - 1]
  }

  ghost function HeapOf(calls: seq<Call>): Heap
    decreases |calls|
  {
    if calls == [] then map[] else HeapAfter(HeapOf(Front(calls)), Last(calls))
  }

  /** The counters after the calls in the statistics mode. */
  ghost function StatsOf(calls: seq<Call>): Stats
    decreases |calls|
  {
    if calls == [] then NO_STATS else StatsAfter(StatsOf(Front(calls)), HeapOf(Front(calls)), Last(calls))
  }

  /** The log after the calls in the trace mode. */
  ghost function LogOf(calls: seq<Call>): (log: seq<Op>)
    ensures |log| == |calls|
    decreases |calls|
  {
    if calls == [] then [] else LogOf(Front(calls)) + [OpOf(HeapOf(Front(calls)), Last(calls), |calls|)]
  }

  /** On every run of a program the two modes agree: the counters are the sums over the log, and ms_max is the
      largest amount of memory that the log shows in use. */
  lemma {:induction false} ModesAgree(calls: seq<Call>)
    requires PossibleRun(calls)
    ensures Agree(StatsOf(calls), LogOf(calls), HeapOf(calls)) && HeapOk(HeapOf(calls))
    decreases |calls|
  {
    if calls != [] {
      ModesAgree(Front(calls));
      AgreeStep(StatsOf(Front(calls)), LogOf(Front(calls)), HeapOf(Front(calls)), Last(calls), |calls|);
    }
  }

  /** The log of every run of a program is a history: chains can be built from it, it shows as live exactly the blocks
      that the program holds, each with its size, and every release gives back the size of its block. */
  lemma {:induction false} LogMirrors(calls: seq<Call>)
    requires PossibleRun(calls)
    ensures Mirrors(LogOf(calls), HeapOf(calls))
    decreases |calls|
  {
    hide Mirrors, OpOf, HeapAfter, Possible;
    if calls == [] {
      NothingMirrored();
    } else {
      LogMirrors(Front(calls));
      ModesAgree(Front(calls));
      MirrorStep(LogOf(Front(calls)), HeapOf(Front(calls)), Last(calls));
    }
  }

  /** The size asked for by the last call that got a block at `mh`. */
  ghost function SizeTold(calls: seq<Call>, mh: nat): nat
    decreases |calls|
  {
    if calls == [] then 0
    else
      var c := Last(calls);
      if (c.CallMalloc? && c.mh == mh) || (c.CallRealloc? && c.newMh == mh && c.size > 0) then c.size
      else SizeTold(Front(calls), mh)
  }

  /** Every block has the size that was asked for. */
  lemma {:induction false} HeapTold(calls: seq<Call>, mh: nat)
    requires PossibleRun(calls) && mh in HeapOf(calls)
    ensures HeapOf(calls)[mh] == SizeTold(calls, mh)
    decreases |calls|
  {
    if mh in HeapOf(Front(calls)) {
      HeapTold(Front(calls), mh);
    }
  }

  lemma NothingMirrored()
    ensures Mirrors([], map[])
  {
  }

  lemma {:induction false} PeakReached(log: seq<Op>, n: nat, k: nat)
    requires k < n <= |log| && forall j :: 0 <= j < n ==> InUse(log, j) <= InUse(log, k)
    ensures PeakTo(log, n) == if InUse(log, k) > 0 then InUse(log, k) else 0
    decreases n
  {
    PeakAtLeast(log, n, k);
    PeakAtMost(log, n, if InUse(log, k) > 0 then InUse(log, k) else 0);
  }

  lemma {:induction false} PeakAtLeast(log: seq<Op>, n: nat, k: nat)
    requires k < n <= |log|
    ensures PeakTo(log, n) >= InUse(log, k) && PeakTo(log, n) >= 0
    decreases n
  {
    if n > k + 1 {
      PeakAtLeast(log, n - 1, k);
    } else {
      PeakNotNegative(log, n - 1);
    }
  }

  lemma {:induction false} PeakNotNegative(log: seq<Op>, n: nat)
    requires n <= |log|
    ensures PeakTo(log, n) >= 0
  {
    if n > 0 {
      PeakNotNegative(log, n - 1);
    }
  }

  lemma {:induction false} PeakAtMost(log: seq<Op>, n: nat, bound: int)
    requires n <= |log| && bound >= 0 && forall j :: 0 <= j < n ==> InUse(log, j) <= bound
    ensures PeakTo(log, n) <= bound
  {
    if n > 0 {
      PeakAtMost(log, n - 1, bound);
      assert InUse(log, n - 1) <= bound;
    }
  }

  /** In particular, ms_max is the mem_current of the record that get_mem_peak finds, and the printed totals are
      those of get_total_mem. */
  lemma ReportsAgree(calls: seq<Call>, k: nat)
    requires PossibleRun(calls) && IsPeak(LogOf(calls), 0, |calls|, k)
    ensures StatsOf(calls).max == InUse(LogOf(calls), k)
    ensures StatsOf(calls).totalAllocated == Wrap(Gained(LogOf(calls), |calls|))
  {
    ModesAgree(calls);
    var log := LogOf(calls);
    PeakReached(log, |calls|, k);
    assert InUse(log, k) >= InUse(log, |calls| - 1) == Total(log, |calls|) >= 0;
  }

  lemma WrapSub(x: int, y: int)
    ensures Wrap(Wrap(x) - Wrap(y)) == Wrap(x - y)
  {
    WrapAdd(x, -(Wrap(y) as int));
    assert x - Wrap(y) == (x - y) + (y / WORDS) * WORDS;
    ModShift(x - y, y / WORDS);
  }

  /** Even if the totals have wrapped around, their difference is the memory that the program holds. */
  lemma BytesInUse(calls: seq<Call>)
    requires PossibleRun(calls)
    ensures var v := StatsOf(calls); Wrap(v.totalAllocated - v.totalReleased) == v.current == SumSizes(HeapOf(calls))
  {
    var log := LogOf(calls);
    ModesAgree(calls);
    Accounts(log, |log|);
    WrapSub(Gained(log, |log|), Lost(log, |log|));
    Small(SumSizes(HeapOf(calls)));
  }

  // ---------------------------------------------------------------------------------
  // The functions of the two modes

  ghost function Sizes(heap: map<nat, Counters.Header>): Heap {
    map mh | mh in heap :: heap[mh].size
  }

  ghost predicate Headers(heap: map<nat, Counters.Header>) {
    forall mh <- heap :: mh < WORDS && heap[mh].size < WORDS / 2 &&
      heap[mh].chk == Counters.CheckWord(mh, heap[mh].size)
  }

  /** The two assignments to a header. */
  lemma HeaderWritten(heap: map<nat, Counters.Header>, mh: nat, size: nat)
    requires Headers(heap) && mh < WORDS && size < WORDS / 2
    ensures var heap' := heap[mh := Counters.Header(size, Counters.CheckWord(mh, size))];
            Headers(heap') && Sizes(heap') == Sizes(heap)[mh := size]
  {
  }

  lemma HeaderGone(heap: map<nat, Counters.Header>, mh: nat)
    requires Headers(heap)
    ensures Headers(heap - {mh}) && Sizes(heap - {mh}) == Sizes(heap) - {mh}
  {
  }

  /** What a header says of its block. */
  lemma HeaderRead(heap: map<nat, Counters.Header>, mh: nat)
    requires Headers(heap)
    ensures mh in heap <==> mh in Sizes(heap)
    ensures mh in heap ==>
            mh < WORDS && heap[mh].size < WORDS / 2 && heap[mh].chk == Counters.CheckWord(mh, heap[mh].size)
    ensures mh in heap ==> Sizes(heap)[mh] == heap[mh].size
  {
  }

  /** The statistics mode; `heap` is the memory in front of the buffers. */
  class MemStats {
    var totalAllocated: nat
    var totalReleased: nat
    var reallocs: nat
    var allocs: nat
    var frees: nat
    var max: nat
    var current: nat
    var heap: map<nat, Counters.Header>

    constructor ()
      ensures View() == NO_STATS && heap == map[]
    {
      totalAllocated, totalReleased, reallocs, allocs, frees, max, current := 0, 0, 0, 0, 0, 0, 0;
      heap := map[];
    }

    ghost function View(): Stats
      reads this
    {
      Stats(totalAllocated, totalReleased, reallocs, allocs, frees, max, current)
    }

    /** update_alloc (init.c:269-278), undisturbed. */
    method UpdateAlloc(delta: nat)
      modifies this`current, this`max
      ensures current == Wrap(old(current) + delta)
      ensures max == if current > old(max) then current else old(max)
    {
      current := Wrap(current + delta);
      var cur := current;
      var seen := max;
      while cur > seen
        invariant cur == current && (seen == old(max) || seen == max)
        invariant max == old(max) || (max == cur && cur > old(max))
        decreases cur > seen, max != cur
      {
        if max == seen {
          max := cur;
        } else {
          seen := max;
        }
      }
    }

    /** update_release (init.c:281-284). */
    method UpdateRelease(delta: nat)
      modifies this`current
      ensures current == Wrap(old(current) - delta)
    {
      current := Wrap(current - delta);
    }

    /** mp_CRYPTO_malloc_stats (init.c:287-310); `mh` is what malloc returns. */
    method MallocStats(size: nat, mh: nat)
      requires Headers(heap) && Possible(Sizes(heap), CallMalloc(size, mh)) && mh < WORDS
      modifies this
      ensures View() == StatsAfter(old(View()), Sizes(old(heap)), CallMalloc(size, mh))
      ensures Headers(heap) && Sizes(heap) == HeapAfter(Sizes(old(heap)), CallMalloc(size, mh))
    {
      hide Wrap, Signed, Sizes, Headers, Counters.CheckWord;
      HeaderWritten(heap, mh, size);
      heap := heap[mh := Counters.Header(size, Counters.CheckWord(mh, size))];
      allocs := Wrap(allocs + 1);
      totalAllocated := Wrap(totalAllocated + size);
      UpdateAlloc(size);
    }

    /** The block at `mh` is released: counted first, then freed (init.c:327-333, 361-367). */
    method Release(mh: nat)
      requires Headers(heap) && mh in heap
      modifies this
      ensures View() == Shrunk(old(View()).(frees := Wrap(old(frees) + 1)), old(heap)[mh].size)
      ensures Headers(heap) && Sizes(heap) == Sizes(old(heap)) - {mh}
    {
      hide Wrap, Sizes, Headers, Counters.CheckWord;
      HeaderGone(heap, mh);
      frees := Wrap(frees + 1);
      totalReleased := Wrap(totalReleased + heap[mh].size);
      UpdateRelease(heap[mh].size);
      heap := heap - {mh};
    }

    /** mp_CRYPTO_free_stats (init.c:313-334); false where the program aborts. */
    method FreeStats(mh: nat) returns (ok: bool)
      requires Headers(heap) && Possible(Sizes(heap), CallFree(mh)) && 0 !in heap
      modifies this
      ensures ok && View() == StatsAfter(old(View()), Sizes(old(heap)), CallFree(mh))
      ensures Headers(heap) && Sizes(heap) == HeapAfter(Sizes(old(heap)), CallFree(mh))
    {
      hide Wrap, Sizes, Headers, Counters.CheckWord;
      HeaderRead(heap, mh);
      HeaderRead(heap, 0);
      if mh != 0 {
        if heap[mh].chk != Counters.CheckWord(mh, heap[mh].size) {
          return false;
        }
        Release(mh);
      }
      ok := true;
    }

    /** mp_CRYPTO_realloc_stats (init.c:337-408); `newMh` is what realloc returns. */
    method ReallocStats(mh: nat, size: nat, newMh: nat) returns (ok: bool)
      requires Headers(heap) && Possible(Sizes(heap), CallRealloc(mh, size, newMh)) && newMh < WORDS && 0 !in heap
      modifies this
      ensures ok && View() == StatsAfter(old(View()), Sizes(old(heap)), CallRealloc(mh, size, newMh))
      ensures Headers(heap) && Sizes(heap) == HeapAfter(Sizes(old(heap)), CallRealloc(mh, size, newMh))
    {
      hide Wrap, Signed, Sizes, Headers, Counters.CheckWord;
      HeaderRead(heap, mh);
      HeaderRead(heap, 0);
      HeaderGone(heap, mh);
      ok := true;
      var saved := 0;
      if mh != 0 {
        if heap[mh].chk != Counters.CheckWord(mh, heap[mh].size) {
          return false;
        }
        saved := heap[mh].size;
      }
      if size == 0 && mh != 0 {
        Release(mh);
        return;
      }
      HeaderWritten(heap - {mh}, newMh, size);
      heap := (heap - {mh})[newMh := Counters.Header(size, Counters.CheckWord(newMh, size))];
      if mh == 0 {
        allocs := Wrap(allocs + 1);
        totalAllocated := Wrap(totalAllocated + size);
        UpdateAlloc(size);
      } else {
        reallocs := Wrap(reallocs + 1);
        if saved > size {
          var delta := saved - size;
          UpdateRelease(delta);
          totalReleased := Wrap(totalReleased + delta);
        } else {
          var delta := size - saved;
          totalAllocated := Wrap(totalAllocated + delta);
          UpdateAlloc(delta);
        }
      }
    }
  }

  /** The trace mode. The log is in the order of ids. */
  class Tracer {
    var mprId: nat
    var log: seq<Op>
    var heap: map<nat, Counters.Header>

    constructor ()
      ensures log == [] && mprId == 0 && heap == map[]
    {
      log, mprId, heap := [], 0, map[];
    }

    /** A record with the next id. */
    method Record(kind: Kind, mem: nat, realloc: nat, delta: int)
      modifies this`log, this`mprId
      ensures mprId == old(mprId) + 1 && log == old(log) + [Op(mprId, kind, mem, realloc, delta)]
    {
      mprId := mprId + 1;
      log := log + [Op(mprId, kind, mem, realloc, delta)];
    }

    /** mp_CRYPTO_malloc_trace (init.c:411-430). */
    method MallocTrace(size: nat, mh: nat)
      requires Headers(heap) && Possible(Sizes(heap), CallMalloc(size, mh)) && mh < WORDS
      modifies this
      ensures mprId == old(mprId) + 1 && log == old(log) + [OpOf(Sizes(old(heap)), CallMalloc(size, mh), mprId)]
      ensures Headers(heap) && Sizes(heap) == HeapAfter(Sizes(old(heap)), CallMalloc(size, mh))
    {
      hide Wrap, Signed, Sizes, Headers, Counters.CheckWord;
      HeaderWritten(heap, mh, size);
      heap := heap[mh := Counters.Header(size, Counters.CheckWord(mh, size))];
      Record(Kind.Alloc, mh, 0, Signed(size));
    }

    /** mp_CRYPTO_free_trace (init.c:433-453); false where the program aborts. */
    method FreeTrace(mh: nat) returns (ok: bool)
      requires Headers(heap) && Possible(Sizes(heap), CallFree(mh)) && 0 !in heap
      modifies this
      ensures ok && mprId == old(mprId) + 1 && log == old(log) + [OpOf(Sizes(old(heap)), CallFree(mh), mprId)]
      ensures Headers(heap) && Sizes(heap) == HeapAfter(Sizes(old(heap)), CallFree(mh))
    {
      hide Wrap, Signed, Sizes, Headers, Counters.CheckWord;
      HeaderRead(heap, mh);
      HeaderRead(heap, 0);
      HeaderGone(heap, mh);
      ok := true;
      var sz: nat := 0;
      if mh != 0 {
        if heap[mh].chk != Counters.CheckWord(mh, heap[mh].size) {
          return false;
        }
        sz := heap[mh].size;
      }
      Record(Kind.Free, mh, 0, Signed(Wrap(-(sz as int))));
      heap := heap - {mh};
    }

    /** mp_CRYPTO_realloc_trace (init.c:456-501). */
    method ReallocTrace(mh: nat, size: nat, newMh: nat) returns (ok: bool)
      requires Headers(heap) && Possible(Sizes(heap), CallRealloc(mh, size, newMh)) && newMh < WORDS && 0 !in heap
      modifies this
      ensures ok && mprId == old(mprId) + 1 &&
              log == old(log) + [OpOf(Sizes(old(heap)), CallRealloc(mh, size, newMh), mprId)]
      ensures Headers(heap) && Sizes(heap) == HeapAfter(Sizes(old(heap)), CallRealloc(mh, size, newMh))
    {
      hide Wrap, Signed, Sizes, Headers, Counters.CheckWord;
      HeaderRead(heap, mh);
      HeaderRead(heap, 0);
      HeaderGone(heap, mh);
      ok := true;
      var saved: nat := 0;
      if mh != 0 {
        if heap[mh].chk != Counters.CheckWord(mh, heap[mh].size) {
          return false;
        }
        saved := heap[mh].size;
      }
      if size == 0 {
        Record(Kind.Free, mh, 0, Signed(Wrap(-(saved as int))));
        heap := heap - {mh};
        return;
      }
      HeaderWritten(heap - {mh}, newMh, size);
      heap := (heap - {mh})[newMh := Counters.Header(size, Counters.CheckWord(newMh, size))];
      if mh == 0 {
        Record(Kind.Alloc, newMh, 0, Signed(size));
      } else {
        Record(Kind.Realloc, newMh, mh, Signed(Wrap(size - saved)));
      }
    }
  }
}
