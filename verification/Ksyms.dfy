/** The symbol table of mprofile/ksyms.c. */
module Ksyms {
  import Sorting
  import TailQueue
  import Bags
  import opened Modes

  /** struct sym. */
  datatype Sym = Sym(name: string, value: nat, size: nat)

  /** An entry of an ELF symbol table, as far as kelf_open looks at it; `readable` is false where
      gelf_getsym fails, and `name` is missing where the string table has none. */
  datatype Name = NoName | Name(text: string)
  datatype ElfSym = ElfSym(readable: bool, isFunc: bool, name: Name, value: nat, size: nat)

  predicate Taken(e: ElfSym) {
    e.readable && e.isFunc && e.name.Name?
  }

  function SymOf(e: ElfSym, base: nat): Sym
    requires e.name.Name?
  {
    Sym(e.name.text, Wrap(e.value + base), Wrap(e.size))
  }

  /** The functions of the file, in its order. */
  function Functions(elf: seq<ElfSym>, base: nat): (r: seq<Sym>) {
    if elf == [] then []
    else
      var last := elf[|elf| - 1];
      Functions(elf[..|elf| - 1], base) + if Taken(last) then [SymOf(last, base)] else []
  }

  /** What the loop of kelf_open looks at, with `n` symbols in the table before. */
  function Rest(elf: seq<ElfSym>, n: nat): seq<ElfSym> {
    if n <= |elf| then elf[n..] else []
  }

  /** What it has looked at before it comes to `i`. */
  function Looked(elf: seq<ElfSym>, n: nat, i: nat): seq<ElfSym>
    requires n <= i
  {
    if i <= |elf| then elf[n..i] else Rest(elf, n)
  }

  lemma LookedMore(elf: seq<ElfSym>, n: nat, i: nat, base: nat)
    requires n <= i
    ensures Functions(Looked(elf, n, i + 1), base) ==
            Functions(Looked(elf, n, i), base) + if i < |elf| && Taken(elf[i]) then [SymOf(elf[i], base)] else []
  {
    if i < |elf| {
      assert elf[n..i + 1][..i - n] == elf[n..i];
    } else {
      assert i == |elf| ==> elf[n..i] == Rest(elf, n);
    }
  }

  lemma LookedAll(elf: seq<ElfSym>, n: nat)
    ensures Looked(elf, n, n) == [] && Looked(elf, n, n + |elf|) == Rest(elf, n)
  {
  }

  /** The loop of kelf_open that fills the table (ksyms.c:132-146). It starts at the number of symbols that earlier
      files have left in the table. */
  method ReadSymbols(elf: seq<ElfSym>, base: nat, loaded: seq<Sym>) returns (table: seq<Sym>)
    ensures table == loaded + Functions(Rest(elf, |loaded|), base)
  {
    hide Looked, Rest;
    table := loaded;
    var n := |loaded|;
    LookedAll(elf, n);
    for i := n to n + |elf|
      invariant table == loaded + Functions(Looked(elf, n, i), base)
    {
      LookedMore(elf, n, i, base);
      if i >= |elf| || !elf[i].readable {
        continue;
      }
      if !elf[i].isFunc {
        continue;
      }
      if elf[i].name.NoName? {
        continue;
      }
      table := table + [SymOf(elf[i], base)];
    }
  }

  lemma {:induction false} FunctionsSplit(a: seq<ElfSym>, b: seq<ElfSym>, base: nat)
    ensures Functions(a + b, base) == Functions(a, base) + Functions(b, base)
    decreases |b|
  {
    if b == [] {
      assert a + b == a;
    } else {
      var front := b[..|b| - 1];
      assert (a + b)[..|a + b| - 1] == a + front;
      FunctionsSplit(a, front, base);
    }
  }

  lemma {:induction false} NoFunctions(a: seq<ElfSym>, base: nat)
    ensures Functions(a, base) == [] <==> forall i :: 0 <= i < |a| ==> !Taken(a[i])
    decreases |a|
  {
    if a != [] {
      NoFunctions(a[..|a| - 1], base);
      assert forall i :: 0 <= i < |a| - 1 ==> a[..|a| - 1][i] == a[i];
    }
  }

  /** No function of the file stands where the loop does not look. */
  predicate NoneSkipped(elf: seq<ElfSym>, n: nat) {
    forall i :: 0 <= i < |elf| && i < n ==> !Taken(elf[i])
  }

  /** The functions that the loop reads are all of the file exactly if none stands before its start. */
  lemma SkipsExactly(elf: seq<ElfSym>, base: nat, n: nat)
    ensures |Functions(Rest(elf, n), base)| <= |Functions(elf, base)|
    ensures |Functions(Rest(elf, n), base)| == |Functions(elf, base)| <==> NoneSkipped(elf, n)
    ensures NoneSkipped(elf, n) ==> Functions(Rest(elf, n), base) == Functions(elf, base)
  {
    var first := if n <= |elf| then elf[..n] else elf;
    assert elf == first + Rest(elf, n);
    FunctionsSplit(first, Rest(elf, n), base);
    NoFunctions(first, base);
    assert NoneSkipped(elf, n) <==> forall i :: 0 <= i < |first| ==> !Taken(first[i]);
  }

  ghost predicate Sorted(table: seq<Sym>) {
    forall i, j :: 0 <= i < j < |table| ==> table[i].value <= table[j].value
  }

  /** The first byte behind a symbol. */
  function EndOf(s: Sym): nat {
    s.value + s.size
  }

  /** What the gap filling makes of entry `i`. */
  function FilledAt(table: seq<Sym>, i: nat): Sym
    requires i < |table|
  {
    if table[i].size != 0 || i + 1 == |table| then table[i]
    else table[i].(size := Wrap(table[i + 1].value - table[i].value))
  }

  ghost function Filled(table: seq<Sym>): (r: seq<Sym>)
    ensures |r| == |table| && forall i :: 0 <= i < |table| ==> r[i] == FilledAt(table, i)
  {
    seq(|table|, i requires 0 <= i < |table| => FilledAt(table, i))
  }

  /** The gap filling (ksyms.c:160-168), in place. */
  method FillGaps(table: array<Sym>)
    modifies table
    ensures table[..] == Filled(old(table[..]))
  {
    ghost var was := table[..];
    var i := 0;
    while i < table.Length
      invariant 0 <= i <= table.Length
      invariant forall j :: 0 <= j < i ==> table[j] == FilledAt(was, j)
      invariant forall j :: i <= j < table.Length ==> table[j] == was[j]
    {
      if table[i].size != 0 {
        i := i + 1;
        continue;
      }
      if i + 1 == table.Length {
        i := i + 1;
        continue;
      }
      var diff := Wrap(table[i + 1].value - table[i].value);
      table[i] := table[i].(size := diff);
      i := i + 1;
    }
    assert |table[..]| == |Filled(was)|;
  }

  // ---------------------------------------------------------------------------------
  // Looking up an address

  /** sym_compare_search (ksyms.c:229-236). */
  function CompareSearch(key: nat, entry: Sym): int {
    if key < entry.value then -1 else if key >= Wrap(EndOf(entry)) then 1 else 0
  }

  ghost predicate Covers(s: Sym, address: nat) {
    s.value <= address < EndOf(s)
  }

  /** Symbols end before the next one starts, and no symbol reaches beyond the address space. */
  ghost predicate Separate(table: seq<Sym>) {
    && (forall i :: 0 <= i < |table| ==> EndOf(table[i]) < WORDS)
    && (forall i, j :: 0 <= i < j < |table| ==> EndOf(table[i]) <= table[j].value)
  }

  /** bsearch of the C library. */
  method Bsearch(key: nat, table: array<Sym>) returns (entry: nat)
    ensures entry <= table.Length
    ensures entry < table.Length ==> CompareSearch(key, table[entry]) == 0
    ensures Separate(table[..]) && entry == table.Length ==> forall i :: 0 <= i < table.Length ==>
            !Covers(table[i], key)
  {
    var lo, hi := 0, table.Length;
    while lo < hi
      invariant 0 <= lo <= hi <= table.Length
      invariant Separate(table[..]) ==> forall i :: 0 <= i < table.Length && (i < lo || hi <= i) ==>
                !Covers(table[i], key)
    {
      var mid := (lo + hi) / 2;
      var c := CompareSearch(key, table[mid]);
      if c == 0 {
        return mid;
      } else if c < 0 {
        hi := mid;
      } else {
        lo := mid + 1;
      }
    }
    entry := table.Length;
  }

  /** The printed text: a symbol with an offset, or the address itself. */
  datatype Text = Symbol(name: string, offset: nat) | Hex(pc: nat)

  /** kelf_snprintsym (ksyms.c:191-216). */
  method Snprintsym(table: array<Sym>, pc: nat, off: nat) returns (t: Text, ghost entry: nat)
    requires pc < WORDS && off < WORDS
    ensures t.Symbol? ==>
              && entry < table.Length && t.name == table[entry].name && Covers(table[entry], Wrap(pc + off))
              && Wrap(table[entry].value + off + t.offset) == pc && t.offset < WORDS
    ensures t.Hex? ==> t.pc == pc
    ensures t.Hex? && Separate(table[..]) ==> forall i :: 0 <= i < table.Length ==> !Covers(table[i], Wrap(pc + off))
  {
    var e := Bsearch(Wrap(pc + off), table);
    entry := e;
    if e == table.Length {
      return Hex(pc), entry;
    }
    Found(Wrap(pc + off), table[e]);
    var offset := Wrap(pc - Wrap(table[e].value + off));
    OffsetBack(table[e].value + off, pc);
    t := Symbol(table[e].name, offset);
  }

  lemma Found(key: nat, s: Sym)
    requires CompareSearch(key, s) == 0
    ensures Covers(s, key)
  {
  }

  lemma OffsetBack(x: nat, pc: nat)
    requires pc < WORDS
    ensures Wrap(x + Wrap(pc - Wrap(x))) == pc
  {
    WrapAdd(x, pc - Wrap(x));
    WrapAdd(x, pc - x);
    assert Wrap(Wrap(x) + (pc - Wrap(x))) == Wrap(x + (pc - Wrap(x)));
    Small(pc);
  }

  /** As it is called (record.c:234), with offset 0: the symbol contains the address, and name and offset together
      give the address back. */
  lemma PrintedBack(s: Sym, pc: nat, offset: nat)
    requires pc < WORDS && Covers(s, Wrap(pc + 0)) && Wrap(s.value + 0 + offset) == pc && offset < WORDS
    ensures Covers(s, pc) && s.value + offset == pc
  {
    Small(pc);
    NoWrap(s.value, offset, pc);
  }

  lemma NoWrap(a: nat, b: nat, pc: nat)
    requires a <= pc < WORDS && b < WORDS && Wrap(a + b) == pc
    ensures a + b == pc
  {
  }

  // ---------------------------------------------------------------------------------
  // When every covered address is found

  /** Sized symbols end before the next start. */
  ghost predicate Fits(table: seq<Sym>) {
    forall i :: 0 <= i < |table| - 1 ==> table[i].size != 0 ==> EndOf(table[i]) <= ValueAfter(table, i)
  }

  function ValueAfter(table: seq<Sym>, i: nat): nat
    requires i + 1 < |table|
  {
    table[i + 1].value
  }

  ghost predicate InSpace(table: seq<Sym>) {
    forall i :: 0 <= i < |table| ==> EndOf(table[i]) < WORDS
  }

  lemma FilledEnd(table: seq<Sym>, i: nat)
    requires Sorted(table) && InSpace(table) && i + 1 < |table|
    ensures EndOf(FilledAt(table, i)) == if table[i].size != 0 then EndOf(table[i]) else ValueAfter(table, i)
  {
    assert table[i].value <= table[i + 1].value && EndOf(table[i + 1]) < WORDS;
    Small(table[i + 1].value - table[i].value);
  }

  /** The filled table is disjoint exactly if no sized symbol overlaps the next one. */
  lemma FilledSeparate(table: seq<Sym>)
    requires Sorted(table) && InSpace(table)
    ensures Separate(Filled(table)) <==> Fits(table)
  {
    var r := Filled(table);
    if Fits(table) {
      forall i, j | 0 <= i < j < |r|
        ensures EndOf(r[i]) <= r[j].value
      {
        FilledEnd(table, i);
        assert ValueAfter(table, i) <= table[j].value;
      }
      forall i | 0 <= i < |r|
        ensures EndOf(r[i]) < WORDS
      {
        if i + 1 < |r| {
          FilledEnd(table, i);
          assert EndOf(table[i + 1]) < WORDS;
        }
      }
    }
    if Separate(r) {
      forall i | 0 <= i < |table| - 1 && table[i].size != 0
        ensures EndOf(table[i]) <= ValueAfter(table, i)
      {
        assert EndOf(r[i]) <= r[i + 1].value;
      }
    }
  }

  /** What makes the table fit, told of the symbols of the file: they start at different addresses, and none
      reaches into a later one. */
  ghost predicate Tidy(d: seq<Sym>) {
    && InSpace(d)
    && (forall i, j :: 0 <= i < j < |d| ==> d[i].value != d[j].value)
    && (forall x <- d, y <- d :: x.value < y.value ==> EndOf(x) <= y.value)
  }

  lemma TidyFits(d: seq<Sym>, table: seq<Sym>)
    requires Tidy(d) && multiset(table) == multiset(d) && Sorted(table)
    ensures Fits(table) && InSpace(table)
  {
    forall x
      ensures x in table <==> x in d
    {
      assert x in multiset(table) <==> x in multiset(d);
    }
    assert TailQueue.NoDuplicates(d);
    forall i, j | 0 <= i < j < |table|
      ensures table[i].value != table[j].value
    {
      assert table[i] in d && table[j] in d;
      if table[i] == table[j] {
        Bags.Twice(table, i, j);
        Bags.Once(d, table[i]);
      }
    }
    forall i | 0 <= i < |table|
      ensures EndOf(table[i]) < WORDS
    {
      assert table[i] in d;
    }
    forall i | 0 <= i < |table| - 1
      ensures EndOf(table[i]) <= ValueAfter(table, i)
    {
      assert table[i] in d && table[i + 1] in d;
    }
  }

  /** kelf_open (ksyms.c:132-168) with the symbols of earlier files in the table: all functions of the file join them
      exactly if none stands before the position that the loop starts at. For the first file this is always so. */
  method KelfOpen(elf: seq<ElfSym>, base: nat, loaded: seq<Sym>) returns (table: array<Sym>, ghost sorted: seq<Sym>)
    ensures Sorted(sorted) && table[..] == Filled(sorted) && fresh(table)
    ensures multiset(sorted) == multiset(loaded + Functions(Rest(elf, |loaded|), base))
    ensures multiset(sorted) == multiset(loaded + Functions(elf, base)) <==> NoneSkipped(elf, |loaded|)
    ensures Tidy(loaded + Functions(Rest(elf, |loaded|), base)) ==> Separate(table[..])
  {
    var symbols := ReadSymbols(elf, base, loaded);
    var s := Sorting.SortBy(symbols, (x: Sym) => x.value);
    sorted := s;
    table := new Sym[|s|](i requires 0 <= i < |s| => s[i]);
    assert table[..] == s;
    FillGaps(table);
    SkipsExactly(elf, base, |loaded|);
    assert |multiset(sorted)| == |loaded| + |Functions(Rest(elf, |loaded|), base)|;
    assert |multiset(loaded + Functions(elf, base))| == |loaded| + |Functions(elf, base)|;
    if Tidy(symbols) {
      TidyFits(symbols, sorted);
      FilledSeparate(sorted);
    }
  }
}
