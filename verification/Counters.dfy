/** The statistics mode of mprofile/init.c: wrappers around malloc, realloc and free that keep counters with
    atomic operations. Every atomic operation and every heap call is one step; the steps of the threads
    interleave freely. */
module Counters {
  import Blocks

  /** struct memhdr. */
  datatype Header = Header(size: nat, chk: seq<bool>)

  const WORDS: nat := 0x1_0000_0000_0000_0000

  /** The binary digit `k` of `n`. */
  function Digit(n: nat, k: nat): bool {
    if k == 0 then n % 2 == 1 else Digit(n / 2, k - 1)
  }

  /** Address XOR size (init.c:295, 379), by its 64 binary digits. */
  function CheckWord(mh: nat, size: nat): seq<bool> {
    seq(64, k requires 0 <= k < 64 => Digit(mh, k) != Digit(size, k))
  }

  function Power(k: nat): nat {
    if k == 0 then 1 else 2 * Power(k - 1)
  }

  lemma Byte(k: nat)
    ensures Power(k + 8) == 256 * Power(k)
  {
    assert Power(k + 4) == 4 * Power(k + 2) == 16 * Power(k);
    assert Power(k + 8) == 4 * Power(k + 6) == 16 * Power(k + 4);
  }

  lemma WordOfDigits()
    ensures Power(64) == WORDS
  {
    Byte(0);
    Byte(8);
    Byte(16);
    Byte(24);
    Byte(32);
    Byte(40);
    Byte(48);
    Byte(56);
  }

  /** The digits of a number tell the number. */
  lemma {:induction false} DigitsTell(a: nat, b: nat, k: nat)
    requires a < Power(k) && b < Power(k) && forall j :: 0 <= j < k ==> Digit(a, j) == Digit(b, j)
    ensures a == b
  {
    if k > 0 {
      assert Digit(a, 0) == Digit(b, 0);
      forall j | 0 <= j < k - 1
        ensures Digit(a / 2, j) == Digit(b / 2, j)
      {
        assert Digit(a, j + 1) == Digit(b, j + 1);
      }
      DigitsTell(a / 2, b / 2, k - 1);
    }
  }

  /** Only one size fits the check word of an address, and only one address that of a size. */
  lemma CheckWordTells(mh: nat, size: nat, other: nat)
    requires size < WORDS && other < WORDS
    ensures CheckWord(mh, size) == CheckWord(mh, other) ==> size == other
    ensures CheckWord(size, mh) == CheckWord(other, mh) ==> size == other
  {
    WordOfDigits();
    if CheckWord(mh, size) == CheckWord(mh, other) || CheckWord(size, mh) == CheckWord(other, mh) {
      forall k | 0 <= k < 64
        ensures Digit(size, k) == Digit(other, k)
      {
        assert CheckWord(mh, size)[k] == CheckWord(mh, other)[k] || CheckWord(size, mh)[k] == CheckWord(other, mh)[k];
      }
      DigitsTell(size, other, 64);
    }
  }

  /** What a thread still has to do before its call returns. */
  datatype Micro =
    | IncAllocs
    | IncFrees
    | IncReallocs
    | AddAllocated(n: nat)
    | AddReleased(n: nat)
    | AddCurrent(n: nat)                    // __atomic_add_fetch in update_alloc
    | LoadMax(current: int)                 // __atomic_load_n in update_alloc
    | Swap(current: int, max: int)          // a turn of the loop in update_alloc
    | SubCurrent(n: nat)                    // update_release
    | HeapFree
    | Return

  datatype Todo = Done | Then(first: Micro, rest: Todo)

  datatype Thread = Idle | Busy(mh: nat, todo: Todo)

  /** How much of a block the counters show so far: in ms_current, in the two totals, and in the two counts. */
  datatype Book = Book(cur: nat, total: nat, count: nat)

  /** `books` and `peak` are auxiliary: what the counters show of each block, and the largest value that
      ms_current has had. */
  datatype State = State(
    threads: seq<Thread>,
    heap: map<nat, Header>,
    owned: set<nat>,
    allocs: nat, frees: nat, reallocs: nat,
    totalAllocated: nat, totalReleased: nat,
    current: int, max: int,
    aborted: bool,
    books: map<nat, Book>,
    peak: int)

  datatype Action =
    | Malloc(mh: nat, size: nat)                  // also realloc(NULL, size)
    | Free(mh: nat)                               // also realloc(b, 0)
    | Realloc(mh: nat, newMh: nat, size: nat)
    | Continue

  /** What the heap and a program that releases only what it owns allow. */
  ghost predicate Enabled(s: State, t: nat, a: Action) {
    && t < |s.threads| && !s.aborted
    && match a
       case Malloc(mh, size) => s.threads[t].Idle? && mh !in s.heap && mh < WORDS && size < WORDS
       case Free(mh) => s.threads[t].Idle? && mh in s.owned && mh in s.heap
       case Realloc(mh, newMh, size) =>
         s.threads[t].Idle? && mh in s.owned && mh in s.heap && 0 < size < WORDS && newMh < WORDS
         && (newMh == mh || newMh !in s.heap)
       case Continue => s.threads[t].Busy? && s.threads[t].todo.Then?
  }

  /** The check at the entry of free and realloc (init.c:320-325, 346-351). */
  ghost predicate Intact(s: State, mh: nat)
    requires mh in s.heap
  {
    mh < WORDS && s.heap[mh].size < WORDS && s.heap[mh].chk == CheckWord(mh, s.heap[mh].size)
  }

  /** A header whose size has been overwritten is noticed: the next free or realloc of the block aborts. */
  lemma OverwriteNoticed(s: State, t: nat, a: Action, size: nat)
    requires (a.Free? || a.Realloc?) && Enabled(s, t, a)
    requires Intact(s, a.mh) && size < WORDS && size != s.heap[a.mh].size
    ensures var s' := s.(heap := s.heap[a.mh := Header(size, s.heap[a.mh].chk)]);
            Enabled(s', t, a) && Apply(s', t, a).aborted
  {
    if s.heap[a.mh].chk == CheckWord(a.mh, size) {
      CheckWordTells(a.mh, size, s.heap[a.mh].size);
    }
  }

  function MallocTodo(size: nat): Todo {
    Then(IncAllocs, Then(AddAllocated(size), Then(AddCurrent(size), Then(Return, Done))))
  }

  function FreeTodo(size: nat): Todo {
    Then(IncFrees, Then(AddReleased(size), Then(SubCurrent(size), Then(HeapFree, Done))))
  }

  /** The rest of a realloc (init.c:390-404). */
  function ReallocTodo(old': nat, size: nat): Todo {
    if old' > size then
      Then(IncReallocs, Then(SubCurrent(old' - size), Then(AddReleased(old' - size), Then(Return, Done))))
    else
      Then(IncReallocs, Then(AddAllocated(size - old'), Then(AddCurrent(size - old'), Then(Return, Done))))
  }

  ghost function Begin(s: State, t: nat, a: Action): State
    requires Enabled(s, t, a) && !a.Continue?
  {
    match a
    case Malloc(mh, size) =>
      s.(threads := s.threads[t := Busy(mh, MallocTodo(size))],
         heap := s.heap[mh := Header(size, CheckWord(mh, size))], books := s.books[mh := Book(0, 0, 0)])
    case Free(mh) =>
      if !Intact(s, mh) then s.(aborted := true)
      else s.(threads := s.threads[t := Busy(mh, FreeTodo(s.heap[mh].size))], owned := s.owned - {mh})
    case Realloc(mh, newMh, size) =>
      if !Intact(s, mh) then s.(aborted := true)
      else s.(threads := s.threads[t := Busy(newMh, ReallocTodo(s.heap[mh].size, size))],
              heap := (s.heap - {mh})[newMh := Header(size, CheckWord(newMh, size))],
              owned := s.owned - {mh},
              books := if mh in s.books then (s.books - {mh})[newMh := s.books[mh]] else s.books)
  }

  /** The next atomic operation of a thread. */
  ghost function Proceed(s: State, t: nat): State
    requires Enabled(s, t, Continue)
  {
    var mh, m, rest := s.threads[t].mh, s.threads[t].todo.first, s.threads[t].todo.rest;
    var s' := s.(threads := s.threads[t := Busy(mh, rest)],
                 books := if mh in s.books then s.books[mh := Entered(m, s.books[mh])] else s.books);
    match m
    case IncAllocs => s'.(allocs := s.allocs + 1)
    case IncFrees => s'.(frees := s.frees + 1)
    case IncReallocs => s'.(reallocs := s.reallocs + 1)
    case AddAllocated(n) => s'.(totalAllocated := s.totalAllocated + n)
    case AddReleased(n) => s'.(totalReleased := s.totalReleased + n)
    case AddCurrent(n) =>
      var current := s.current + n;
      s'.(threads := s.threads[t := Busy(mh, Then(LoadMax(current), rest))],
          current := current, peak := if current > s.peak then current else s.peak)
    case SubCurrent(n) => s'.(current := s.current - n)
    case LoadMax(current) => s'.(threads := s.threads[t := Busy(mh, Then(Swap(current, s.max), rest))])
    case Swap(current, max) =>
      if current <= max then s'
      else if s.max == max then s.(max := current)
      else s'.(threads := s.threads[t := Busy(mh, Then(Swap(current, s.max), rest))])
    case HeapFree => s'.(threads := s.threads[t := Idle], heap := s.heap - {mh}, books := s.books - {mh})
    case Return => s'.(threads := s.threads[t := Idle], owned := s.owned + {mh})
  }

  ghost function Apply(s: State, t: nat, a: Action): State
    requires Enabled(s, t, a)
  {
    if a.Continue? then Proceed(s, t) else Begin(s, t, a)
  }

  ghost predicate Init(s: State) {
    && (forall t :: 0 <= t < |s.threads| ==> s.threads[t].Idle?)
    && s.heap == map[] && s.owned == {} && s.books == map[] && !s.aborted
    && s.allocs == s.frees == s.reallocs == s.totalAllocated == s.totalReleased == s.max == s.peak == 0 &&
       s.current == 0
  }

  datatype Event = Event(thread: nat, action: Action)

  ghost predicate IsRun(run: seq<State>, events: seq<Event>) {
    && |run| == |events| + 1 && Init(run[0])
    && forall i :: 0 <= i < |events| ==>
         Enabled(run[i], events[i].thread, events[i].action) &&
           run[i + 1] == Apply(run[i], events[i].thread, events[i].action)
  }

  // ---------------------------------------------------------------------------------
  // Sums over blocks

  function Plus(a: Book, b: Book): Book {
    Book(a.cur + b.cur, a.total + b.total, a.count + b.count)
  }

  function Cur(b: Book): nat { b.cur }
  function Total(b: Book): nat { b.total }
  function Count(b: Book): nat { b.count }

  ghost function Sum(books: map<nat, Book>): Book {
    Book(Blocks.Sum(books, Cur), Blocks.Sum(books, Total), Blocks.Sum(books, Count))
  }

  lemma SumWithout(books: map<nat, Book>, mh: nat)
    requires mh in books
    ensures Sum(books) == Plus(books[mh], Sum(books - {mh}))
  {
    Blocks.SumWithout(books, Cur, mh);
    Blocks.SumWithout(books, Total, mh);
    Blocks.SumWithout(books, Count, mh);
  }

  lemma SumChanged(books: map<nat, Book>, mh: nat, b: Book)
    ensures Sum(books[mh := b]) == Plus(b, Sum(books - {mh}))
  {
    Blocks.SumChanged(books, Cur, mh, b);
    Blocks.SumChanged(books, Total, mh, b);
    Blocks.SumChanged(books, Count, mh, b);
  }

  // ---------------------------------------------------------------------------------
  // What every step keeps

  /** What an operation does to the book of its thread's block. */
  ghost function Entered(m: Micro, b: Book): Book {
    match m
    case IncAllocs => b.(count := b.count + 1)
    case IncFrees => b.(count := if b.count > 0 then b.count - 1 else 0)
    case AddAllocated(n) => b.(total := b.total + n)
    case AddReleased(n) => b.(total := if b.total >= n then b.total - n else 0)
    case AddCurrent(n) => b.(cur := b.cur + n)
    case SubCurrent(n) => b.(cur := if b.cur >= n then b.cur - n else 0)
    case _ => b
  }

  /** Nothing is taken back that was not entered before. */
  ghost predicate Covered(m: Micro, b: Book) {
    match m
    case IncFrees => b.count > 0
    case AddReleased(n) => b.total >= n
    case SubCurrent(n) => b.cur >= n
    case _ => true
  }

  /** Doing `todo` brings the book of a block of this size in order. */
  ghost predicate Settles(todo: Todo, size: nat, b: Book) {
    match todo
    case Done => false
    case Then(m, rest) =>
      if m.HeapFree? then rest.Done? && b == Book(0, 0, 0)
      else if m.Return? then rest.Done? && b == Book(size, size, 1)
      else Covered(m, b) && Settles(rest, size, Entered(m, b))
  }

  lemma MallocSettles(size: nat)
    ensures Settles(MallocTodo(size), size, Book(0, 0, 0))
  {
    var end := Then(Return, Done);
    assert Settles(end, size, Book(size, size, 1));
    assert Settles(Then(AddCurrent(size), end), size, Book(0, size, 1));
    assert Settles(Then(AddAllocated(size), Then(AddCurrent(size), end)), size, Book(0, 0, 1));
  }

  lemma FreeSettles(size: nat)
    ensures Settles(FreeTodo(size), size, Book(size, size, 1))
  {
    var end := Then(HeapFree, Done);
    assert Settles(end, size, Book(0, 0, 0));
    assert Settles(Then(SubCurrent(size), end), size, Book(size, 0, 0));
    assert Settles(Then(AddReleased(size), Then(SubCurrent(size), end)), size, Book(size, size, 0));
  }

  lemma ReallocSettles(old': nat, size: nat)
    ensures Settles(ReallocTodo(old', size), size, Book(old', old', 1))
  {
    var end := Then(Return, Done);
    assert Settles(end, size, Book(size, size, 1));
    if old' > size {
      var d := old' - size;
      assert Settles(Then(AddReleased(d), end), size, Book(size, old', 1));
      assert Settles(Then(SubCurrent(d), Then(AddReleased(d), end)), size, Book(old', old', 1));
    } else {
      var d := size - old';
      assert Settles(Then(AddCurrent(d), end), size, Book(old', size, 1));
      assert Settles(Then(AddAllocated(d), Then(AddCurrent(d), end)), size, Book(old', old', 1));
    }
  }

  /** No other thread works on the block at `mh`. */
  ghost predicate OnlyThread(threads: seq<Thread>, t: nat, mh: nat) {
    forall u :: 0 <= u < |threads| && u != t && threads[u].Busy? ==> threads[u].mh != mh
  }

  ghost predicate Held(threads: seq<Thread>, mh: nat) {
    exists t :: 0 <= t < |threads| && threads[t].Busy? && threads[t].mh == mh
  }

  /** The thread has a block of its own and will bring its book in order. */
  ghost predicate ThreadOk(s: State, t: nat)
    requires t < |s.threads|
  {
    s.threads[t].Busy? ==>
      var mh := s.threads[t].mh;
      && mh in s.heap && mh in s.books && mh !in s.owned && OnlyThread(s.threads, t, mh)
      && Settles(s.threads[t].todo, s.heap[mh].size, s.books[mh])
  }

  /** The block at `mh` is owned by the program, with its book in order, or in the hands of a thread. */
  ghost predicate BlockOk(s: State, mh: nat) {
    && (mh in s.heap <==> mh in s.books)
    && (mh in s.heap ==> Intact(s, mh) && (mh in s.owned || Held(s.threads, mh)))
    && (mh in s.owned ==> mh in s.heap && s.books[mh] == Book(s.heap[mh].size, s.heap[mh].size, 1))
  }

  /** The counters show the sum of the books. */
  ghost predicate Accounts(s: State) {
    && Sum(s.books).cur == s.current
    && Sum(s.books).total == s.totalAllocated - s.totalReleased
    && Sum(s.books).count == s.allocs - s.frees
  }

  ghost predicate Inv(s: State) {
    && !s.aborted && Accounts(s)
    && (forall t: nat :: t < |s.threads| ==> ThreadOk(s, t))
    && (forall mh: nat :: BlockOk(s, mh))
  }

  /** Nothing but thread `t` and the blocks at `m` and `m'` changes. */
  ghost predicate Local(s: State, s': State, t: nat, m: nat, m': nat) {
    && t < |s.threads| == |s'.threads| && s'.threads == s.threads[t := s'.threads[t]]
    && (s'.threads[t].Busy? ==> s'.threads[t].mh == m')
    && OnlyThread(s.threads, t, m) && OnlyThread(s.threads, t, m')
    && (s.threads[t].Busy? ==> s.threads[t].mh == m)
    && forall k: nat :: k != m && k != m' ==>
         && (k in s'.heap <==> k in s.heap) && (k in s'.books <==> k in s.books) && (k in s'.owned <==> k in s.owned)
         && (k in s.heap ==> s'.heap[k] == s.heap[k]) && (k in s.books ==> s'.books[k] == s.books[k])
  }

  /** A local change that leaves its thread and its blocks in order leaves everything in order. */
  lemma KeepRest(s: State, s': State, t: nat, m: nat, m': nat)
    requires Inv(s) && Local(s, s', t, m, m')
    requires ThreadOk(s', t) && BlockOk(s', m) && BlockOk(s', m') && Accounts(s') && !s'.aborted
    ensures Inv(s')
  {
    hide Settles, Sum;
    forall u: nat | u < |s.threads|
      ensures ThreadOk(s', u)
    {
      assert ThreadOk(s, u);
      assert u != t && s.threads[u].Busy? ==> OnlyThread(s'.threads, u, s.threads[u].mh);
    }
    forall k: nat | k != m && k != m'
      ensures BlockOk(s', k)
    {
      assert BlockOk(s, k);
      StillHeld(s, s', t, k, m, m');
    }
  }

  lemma StillHeld(s: State, s': State, t: nat, k: nat, m: nat, m': nat)
    requires Local(s, s', t, m, m') && k != m && k != m'
    ensures Held(s.threads, k) ==> Held(s'.threads, k)
  {
    if Held(s.threads, k) {
      var u :| 0 <= u < |s.threads| && s.threads[u].Busy? && s.threads[u].mh == k;
      assert s'.threads[u] == s.threads[u];
    }
  }

  /** A block that is owned, or not in the heap, is in no thread's hands. */
  lemma NotHeld(s: State, t: nat, mh: nat)
    requires Inv(s) && (mh in s.owned || mh !in s.heap)
    ensures OnlyThread(s.threads, t, mh)
  {
    hide Settles, Sum;
    forall u: nat | u < |s.threads|
      ensures s.threads[u].Busy? ==> s.threads[u].mh != mh
    {
      assert ThreadOk(s, u);
    }
  }

  lemma MallocAccounts(s: State, t: nat, a: Action)
    requires Inv(s) && Enabled(s, t, a) && a.Malloc?
    ensures Accounts(Begin(s, t, a))
  {
    hide Settles, Sum, ThreadOk;
    assert BlockOk(s, a.mh);
    SumChanged(s.books, a.mh, Book(0, 0, 0));
    assert s.books - {a.mh} == s.books;
  }

  lemma MallocLocal(s: State, t: nat, a: Action)
    requires Inv(s) && Enabled(s, t, a) && a.Malloc?
    ensures var s' := Begin(s, t, a); Local(s, s', t, a.mh, a.mh) && ThreadOk(s', t) && BlockOk(s', a.mh)
  {
    hide Settles, Sum, Accounts;
    var s' := Begin(s, t, a);
    MallocSettles(a.size);
    assert BlockOk(s, a.mh);
    NotHeld(s, t, a.mh);
    assert s'.threads[t].mh == a.mh;
  }

  lemma KeepMalloc(s: State, t: nat, a: Action)
    requires Inv(s) && Enabled(s, t, a) && a.Malloc?
    ensures Inv(Begin(s, t, a))
  {
    hide Settles, Sum, Local, ThreadOk, BlockOk, Accounts;
    MallocAccounts(s, t, a);
    MallocLocal(s, t, a);
    KeepRest(s, Begin(s, t, a), t, a.mh, a.mh);
  }

  lemma KeepFree(s: State, t: nat, a: Action)
    requires Inv(s) && Enabled(s, t, a) && a.Free?
    ensures Inv(Begin(s, t, a))
  {
    hide Settles, Sum;
    var s' := Begin(s, t, a);
    assert BlockOk(s, a.mh);
    FreeSettles(s.heap[a.mh].size);
    NotHeld(s, t, a.mh);
    assert s'.threads[t].mh == a.mh;
    KeepRest(s, s', t, a.mh, a.mh);
  }

  lemma ReallocAccounts(s: State, t: nat, a: Action)
    requires Inv(s) && Enabled(s, t, a) && a.Realloc?
    ensures Accounts(Begin(s, t, a))
  {
    hide Settles, Sum, ThreadOk;
    assert BlockOk(s, a.mh) && BlockOk(s, a.newMh);
    SumWithout(s.books, a.mh);
    SumChanged(s.books - {a.mh}, a.newMh, s.books[a.mh]);
    assert s.books - {a.mh} - {a.newMh} == s.books - {a.mh};
  }

  lemma Elsewhere<V>(m: map<nat, V>, a: nat, b: nat, v: V)
    ensures var m' := (m - {a})[b := v]; forall k: nat :: k != a && k != b ==>
            (k in m' <==> k in m) && (k in m ==> m'[k] == m[k])
  {
  }

  lemma ReallocBegins(s: State, t: nat, a: Action)
    requires Inv(s) && Enabled(s, t, a) && a.Realloc?
    ensures a.mh in s.heap && a.mh in s.books
    ensures var size := s.heap[a.mh].size;
            Begin(s, t, a) == s.(threads := s.threads[t := Busy(a.newMh, ReallocTodo(size, a.size))],
                                 heap := (s.heap - {a.mh})[a.newMh := Header(a.size, CheckWord(a.newMh, a.size))],
                                 owned := s.owned - {a.mh}, books := (s.books - {a.mh})[a.newMh := s.books[a.mh]])
  {
    hide Settles, Sum, ReallocTodo;
    assert BlockOk(s, a.mh);
  }

  lemma ReallocLocal(s: State, t: nat, a: Action)
    requires Inv(s) && Enabled(s, t, a) && a.Realloc?
    ensures Local(s, Begin(s, t, a), t, a.mh, a.newMh)
  {
    hide Inv, Begin, OnlyThread, ReallocTodo, CheckWord;
    ReallocBegins(s, t, a);
    NotHeld(s, t, a.mh);
    NotHeld(s, t, a.newMh);
    Elsewhere(s.heap, a.mh, a.newMh, Header(a.size, CheckWord(a.newMh, a.size)));
    Elsewhere(s.books, a.mh, a.newMh, s.books[a.mh]);
  }

  lemma ReallocOwn(s: State, t: nat, a: Action)
    requires Inv(s) && Enabled(s, t, a) && a.Realloc?
    ensures var s' := Begin(s, t, a); !s'.aborted && ThreadOk(s', t) && BlockOk(s', a.mh) && BlockOk(s', a.newMh)
  {
    hide Settles, Sum, Accounts, ReallocTodo;
    var s' := Begin(s, t, a);
    assert BlockOk(s, a.mh) && BlockOk(s, a.newMh);
    ReallocSettles(s.heap[a.mh].size, a.size);
    NotHeld(s, t, a.newMh);
    assert s'.threads[t].mh == a.newMh;
  }

  lemma KeepRealloc(s: State, t: nat, a: Action)
    requires Inv(s) && Enabled(s, t, a) && a.Realloc?
    ensures Inv(Begin(s, t, a))
  {
    hide Settles, Sum, Local, ThreadOk, BlockOk, Accounts;
    ReallocAccounts(s, t, a);
    ReallocLocal(s, t, a);
    ReallocOwn(s, t, a);
    KeepRest(s, Begin(s, t, a), t, a.mh, a.newMh);
  }

  lemma SettlesOn(m: Micro, rest: Todo, size: nat, b: Book)
    requires Settles(Then(m, rest), size, b)
    ensures !m.HeapFree? && !m.Return? ==> Covered(m, b) && Settles(rest, size, Entered(m, b))
    ensures m.HeapFree? ==> b == Book(0, 0, 0)
    ensures m.Return? ==> b == Book(size, size, 1)
    ensures m.AddCurrent? ==> forall c: int :: Settles(Then(LoadMax(c), rest), size, Entered(m, b))
    ensures m.LoadMax? || m.Swap? ==> forall c: int, x: int :: Settles(Then(Swap(c, x), rest), size, b)
  {
  }

  lemma ProceedAccounts(s: State, t: nat)
    requires Inv(s) && Enabled(s, t, Continue)
    ensures Accounts(Proceed(s, t)) && !Proceed(s, t).aborted
  {
    hide Settles, Sum;
    assert ThreadOk(s, t);
    var mh, m, rest := s.threads[t].mh, s.threads[t].todo.first, s.threads[t].todo.rest;
    SettlesOn(m, rest, s.heap[mh].size, s.books[mh]);
    SumWithout(s.books, mh);
    SumChanged(s.books, mh, Entered(m, s.books[mh]));
  }

  lemma ProceedThread(s: State, t: nat)
    requires Inv(s) && Enabled(s, t, Continue)
    ensures ThreadOk(Proceed(s, t), t)
  {
    hide Settles, Sum;
    assert ThreadOk(s, t);
    var mh, m, rest := s.threads[t].mh, s.threads[t].todo.first, s.threads[t].todo.rest;
    SettlesOn(m, rest, s.heap[mh].size, s.books[mh]);
  }

  /** What the next operation does to its thread's block. */
  lemma ProceedView(s: State, t: nat)
    requires Enabled(s, t, Continue)
    ensures var s', mh, m := Proceed(s, t), s.threads[t].mh, s.threads[t].todo.first;
      && |s'.threads| == |s.threads|
      && s'.heap == (if m.HeapFree? then s.heap - {mh} else s.heap)
      && (mh in s'.books <==> mh in s.books && !m.HeapFree?) &&
          (mh in s'.books ==> s'.books[mh] == Entered(m, s.books[mh]))
      && s'.owned == (if m.Return? then s.owned + {mh} else s.owned)
      && (if m.HeapFree? || m.Return? then s'.threads[t].Idle? else s'.threads[t].Busy? && s'.threads[t].mh == mh)
  {
  }

  lemma ProceedBlock(s: State, t: nat)
    requires Inv(s) && Enabled(s, t, Continue)
    ensures BlockOk(Proceed(s, t), s.threads[t].mh)
  {
    hide Settles, Sum, Accounts, OnlyThread, Proceed, Covered;
    var s' := Proceed(s, t);
    assert ThreadOk(s, t);
    var mh, m, rest := s.threads[t].mh, s.threads[t].todo.first, s.threads[t].todo.rest;
    assert BlockOk(s, mh);
    SettlesOn(m, rest, s.heap[mh].size, s.books[mh]);
    ProceedView(s, t);
    assert s'.threads[t].Busy? ==> s'.threads[t].mh == mh && Held(s'.threads, mh);
  }

  lemma ProceedLocal(s: State, t: nat)
    requires Inv(s) && Enabled(s, t, Continue)
    ensures Local(s, Proceed(s, t), t, s.threads[t].mh, s.threads[t].mh)
  {
    hide Settles, Sum, Accounts, BlockOk, OnlyThread;
    assert ThreadOk(s, t);
  }

  lemma KeepProceed(s: State, t: nat)
    requires Inv(s) && Enabled(s, t, Continue)
    ensures Inv(Proceed(s, t))
  {
    hide Settles, Sum, Proceed, Local, ThreadOk, BlockOk, Accounts;
    ProceedAccounts(s, t);
    ProceedThread(s, t);
    ProceedBlock(s, t);
    ProceedLocal(s, t);
    KeepRest(s, Proceed(s, t), t, s.threads[t].mh, s.threads[t].mh);
  }

  // ---------------------------------------------------------------------------------
  // The high-water mark

  /** The thread has seen this value of ms_current and has not yet finished updating ms_max. */
  ghost predicate Brings(th: Thread, c: int) {
    && th.Busy? && th.todo.Then?
    && ((th.todo.first.LoadMax? && th.todo.first.current == c) || (th.todo.first.Swap? && th.todo.first.current == c))
  }

  ghost predicate AnyBrings(s: State, c: int) {
    exists t :: 0 <= t < |s.threads| && Brings(s.threads[t], c)
  }

  /** What is still to do does not contain a half-done update of ms_max. */
  ghost predicate Plain(todo: Todo) {
    todo.Then? ==> !todo.first.LoadMax? && !todo.first.Swap? && Plain(todo.rest)
  }

  lemma CallsPlain(old': nat, size: nat)
    ensures Plain(MallocTodo(size)) && Plain(FreeTodo(size)) && Plain(ReallocTodo(old', size))
  {
    assert Plain(Then(Return, Done)) && Plain(Then(HeapFree, Done));
    assert Plain(MallocTodo(size).rest.rest) && Plain(FreeTodo(size).rest.rest) &&
           Plain(ReallocTodo(old', size).rest.rest);
  }

  ghost predicate MarkOk(s: State, th: Thread) {
    && (forall c: int :: Brings(th, c) ==> c <= s.peak)
    && (th.Busy? && th.todo.Then? ==> Plain(th.todo.rest))
    && (th.Busy? && th.todo.Then? && th.todo.first.Swap? ==> th.todo.first.max <= s.max)
  }

  /** ms_max lags behind the largest value of ms_current only while a thread is about to report that value. */
  ghost predicate HighWater(s: State) {
    && s.max <= s.peak && s.current <= s.peak
    && (forall t :: 0 <= t < |s.threads| ==> MarkOk(s, s.threads[t]))
    && (s.max == s.peak || AnyBrings(s, s.peak))
  }

  lemma BringsOn(s: State, s': State, t: nat, c: int)
    requires t < |s.threads| == |s'.threads| && AnyBrings(s, c)
    requires forall u :: 0 <= u < |s.threads| && u != t ==> s'.threads[u] == s.threads[u]
    ensures AnyBrings(s', c) || Brings(s.threads[t], c)
  {
    var u :| 0 <= u < |s.threads| && Brings(s.threads[u], c);
    assert u != t ==> Brings(s'.threads[u], c);
  }

  lemma MarkBegin(s: State, t: nat, a: Action)
    requires HighWater(s) && Enabled(s, t, a) && !a.Continue?
    ensures HighWater(Begin(s, t, a)) && s.max <= Begin(s, t, a).max && s.peak <= Begin(s, t, a).peak
  {
    hide MallocTodo, FreeTodo, ReallocTodo;
    var s' := Begin(s, t, a);
    CallsPlain(if a.Realloc? then s.heap[a.mh].size else 0, if a.Free? then s.heap[a.mh].size else a.size);
    if AnyBrings(s, s.peak) {
      BringsOn(s, s', t, s.peak);
    }
    assert MarkOk(s', s'.threads[t]);
  }

  lemma MarkProceed(s: State, t: nat)
    requires HighWater(s) && Enabled(s, t, Continue)
    ensures var s' := Proceed(s, t); MarkOk(s', s'.threads[t]) && s.max <= s'.max <= s'.peak && s'.current <= s'.peak
    ensures var s' := Proceed(s, t); s.peak <= s'.peak
    ensures var s' := Proceed(s, t);
            s'.max == s'.peak ||
            (Brings(s.threads[t], s'.peak) ==> Brings(s'.threads[t], s'.peak))
    ensures var s' := Proceed(s, t); s'.peak > s.peak ==> Brings(s'.threads[t], s'.peak)
  {
    assert MarkOk(s, s.threads[t]);
    assert Brings(s.threads[t], s.peak) || !Brings(s.threads[t], s.peak);
    var m := s.threads[t].todo.first;
    assert m.LoadMax? || m.Swap? ==> Brings(s.threads[t], m.current);
  }

  /** No step loses a maximum, and ms_max never decreases. */
  lemma KeepHighWater(s: State, t: nat, a: Action)
    requires HighWater(s) && Enabled(s, t, a)
    ensures HighWater(Apply(s, t, a)) && s.max <= Apply(s, t, a).max && s.peak <= Apply(s, t, a).peak
  {
    if !a.Continue? {
      MarkBegin(s, t, a);
    } else {
      MarkProceed(s, t);
      var s' := Proceed(s, t);
      if s'.max < s'.peak && s'.peak == s.peak {
        BringsOn(s, s', t, s.peak);
      }
      forall u | 0 <= u < |s'.threads|
        ensures MarkOk(s', s'.threads[u])
      {
        assert MarkOk(s, s.threads[u]);
      }
    }
  }

  /** A thread leaves the loop of update_alloc only once ms_max is at least the total that it produced. */
  lemma LeavesLoop(s: State, t: nat)
    requires HighWater(s) && Enabled(s, t, Continue) && s.threads[t].todo.first.Swap?
    requires var th' := Proceed(s, t).threads[t]; !(th'.Busy? && th'.todo.Then? && th'.todo.first.Swap?)
    ensures s.threads[t].todo.first.current <= Proceed(s, t).max
  {
    assert MarkOk(s, s.threads[t]);
  }

  /** How many more turns a thread in that loop can take: after a successful exchange there is one more. */
  ghost function Turns(s: State, th: Thread): nat {
    if th.Busy? && th.todo.Then? && th.todo.first.Swap? && th.todo.first.current > th.todo.first.max
    then 2 * (th.todo.first.current - th.todo.first.max) - if s.max >= th.todo.first.current then 1 else 0
    else 0
  }

  lemma OthersStay(s: State, t: nat, u: nat, a: Action)
    requires Enabled(s, t, a) && u < |s.threads| && u != t
    ensures u < |Apply(s, t, a).threads| && Apply(s, t, a).threads[u] == s.threads[u]
  {
  }

  lemma TurnsLater(s: State, s': State, th: Thread)
    requires s.max <= s'.max
    ensures Turns(s', th) <= Turns(s, th)
  {
  }

  lemma SwapTurn(s: State, t: nat)
    requires HighWater(s) && Enabled(s, t, Continue) && s.threads[t].todo.first.Swap? && Turns(s, s.threads[t]) > 0
    ensures Turns(Proceed(s, t), Proceed(s, t).threads[t]) < Turns(s, s.threads[t])
  {
    assert MarkOk(s, s.threads[t]);
  }

  /** Every turn brings a thread nearer to leaving the loop, whatever the other threads do. */
  lemma LoopEnds(s: State, t: nat, u: nat, a: Action)
    requires HighWater(s) && Enabled(s, t, a) && u < |s.threads|
    ensures u != t ==>
            u < |Apply(s, t, a).threads| && Turns(Apply(s, t, a), Apply(s, t, a).threads[u]) <= Turns(s, s.threads[u])
    ensures u == t && a.Continue? && s.threads[t].todo.first.Swap? && Turns(s, s.threads[t]) > 0 ==>
              Turns(Proceed(s, t), Proceed(s, t).threads[t]) < Turns(s, s.threads[t])
  {
    hide HighWater, Turns, Apply, Proceed;
    if u != t {
      KeepHighWater(s, t, a);
      OthersStay(s, t, u, a);
      TurnsLater(s, Apply(s, t, a), s.threads[u]);
    } else if a.Continue? && s.threads[t].todo.first.Swap? && Turns(s, s.threads[t]) > 0 {
      SwapTurn(s, t);
    }
  }

  // ---------------------------------------------------------------------------------
  // Whole runs

  function HeaderSize(h: Header): nat { h.size }

  ghost function HeaderSum(heap: map<nat, Header>): nat {
    Blocks.Sum(heap, HeaderSize)
  }

  lemma HeaderSums(heap: map<nat, Header>, books: map<nat, Book>)
    requires books.Keys == heap.Keys && forall mh <- heap :: books[mh] == Book(heap[mh].size, heap[mh].size, 1)
    ensures Sum(books) == Book(HeaderSum(heap), HeaderSum(heap), |heap|)
  {
    Blocks.SameSums(books, heap, Cur, HeaderSize);
    Blocks.SameSums(books, heap, Total, HeaderSize);
    Blocks.Count(books, Count);
    assert |books| == |books.Keys| == |heap.Keys| == |heap|;
  }

  lemma {:induction false} RunInv(run: seq<State>, events: seq<Event>, n: nat)
    requires IsRun(run, events) && n < |run|
    ensures Inv(run[n]) && HighWater(run[n])
  {
    if n > 0 {
      RunInv(run, events, n - 1);
      var s, t, a := run[n - 1], events[n - 1].thread, events[n - 1].action;
      KeepHighWater(s, t, a);
      match a {
        case Malloc(_, _) => KeepMalloc(s, t, a);
        case Free(_) => KeepFree(s, t, a);
        case Realloc(_, _, _) => KeepRealloc(s, t, a);
        case Continue => KeepProceed(s, t);
      }
    }
  }

  lemma PeakStep(s: State, t: nat, a: Action)
    requires HighWater(s) && Enabled(s, t, a)
    ensures var s' := Apply(s, t, a);
            s.peak <= s'.peak && s'.current <= s'.peak &&
            (s'.peak == s.peak || s'.peak == s'.current)
  {
    KeepHighWater(s, t, a);
  }

  /** The auxiliary peak is the largest value that ms_current has had. */
  lemma {:induction false} RunPeak(run: seq<State>, events: seq<Event>, n: nat)
    requires IsRun(run, events) && n < |run|
    ensures forall i :: 0 <= i <= n ==> run[i].current <= run[n].peak
    ensures exists i :: 0 <= i <= n && run[i].current == run[n].peak
  {
    hide Inv, HighWater, Apply;
    if n > 0 {
      RunInv(run, events, n - 1);
      RunPeak(run, events, n - 1);
      var i :| 0 <= i <= n - 1 && run[i].current == run[n - 1].peak;
      PeakStep(run[n - 1], events[n - 1].thread, events[n - 1].action);
      assert run[n].peak == run[if run[n].peak == run[n - 1].peak then i else n].current;
    } else {
      assert run[0].current == run[0].peak;
    }
  }

  /** ms_max never decreases. */
  lemma {:induction false} MaxGrows(run: seq<State>, events: seq<Event>, m: nat, n: nat)
    requires IsRun(run, events) && m <= n < |run|
    ensures run[m].max <= run[n].max
    decreases n - m
  {
    hide Inv, HighWater, Apply;
    if m < n {
      RunInv(run, events, n - 1);
      KeepHighWater(run[n - 1], events[n - 1].thread, events[n - 1].action);
      MaxGrows(run, events, m, n - 1);
    }
  }

  /** No call ever finds a corrupted header, whatever the interleaving. */
  lemma NeverAborts(run: seq<State>, events: seq<Event>, n: nat)
    requires IsRun(run, events) && n < |run|
    ensures !run[n].aborted && forall mh <- run[n].heap :: Intact(run[n], mh)
  {
    RunInv(run, events, n);
    forall mh <- run[n].heap
      ensures Intact(run[n], mh)
    {
      assert BlockOk(run[n], mh);
    }
  }

  /** Whenever no call is in progress, the counters agree with each other and with the heap, and ms_max is the
      largest value that ms_current has had. */
  lemma Quiescent(run: seq<State>, events: seq<Event>, n: nat)
    requires IsRun(run, events) && n < |run|
    requires forall t :: 0 <= t < |run[n].threads| ==> run[n].threads[t].Idle?
    ensures var s := run[n];
            && s.totalAllocated - s.totalReleased == s.current == HeaderSum(s.heap)
            && s.allocs - s.frees == |s.heap|
            && (forall i :: 0 <= i <= n ==> run[i].current <= s.max)
            && exists i :: 0 <= i <= n && run[i].current == s.max
  {
    var s := run[n];
    RunInv(run, events, n);
    RunPeak(run, events, n);
    forall mh: nat
      ensures (mh in s.heap <==> mh in s.books) &&
              (mh in s.heap ==> s.books[mh] == Book(s.heap[mh].size, s.heap[mh].size, 1))
    {
      assert BlockOk(s, mh);
    }
    HeaderSums(s.heap, s.books);
    assert !AnyBrings(s, s.peak);
  }
}
