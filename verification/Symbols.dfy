/** From the symbol table of a file to the printed address: kelf_open and kelf_snprintsym together. */
module Symbols {
  import Bags
  import TailQueue
  import opened Ksyms
  import opened Modes

  // ---------------------------------------------------------------------------------
  // What a file says of an address

  /** A readable, named function of the file. */
  predicate IsFunction(elf: seq<ElfSym>, i: nat) {
    i < |elf| && elf[i].readable && elf[i].isFunc && elf[i].name.Name?
  }

  /** Function `j` starts behind function `i`. */
  predicate Behind(elf: seq<ElfSym>, i: nat, j: nat) {
    IsFunction(elf, i) && IsFunction(elf, j) && elf[i].value < elf[j].value
  }

  /** The functions start at different places, do not overlap, and stay below the end of the address space. */
  ghost predicate TidyFile(elf: seq<ElfSym>, base: nat) {
    && (forall i: nat :: IsFunction(elf, i) ==> base + elf[i].value + elf[i].size < WORDS)
    && (forall i: nat, j: nat :: IsFunction(elf, i) && IsFunction(elf, j) && elf[i].value == elf[j].value ==> i == j)
    && (forall i: nat, j: nat :: Behind(elf, i, j) ==> elf[i].value + elf[i].size <= elf[j].value)
  }

  /** Function `i` of the file, loaded at `base`, covers the address: it is in front of the end of the function or, if
      the file does not know its size, in front of some later function and of all of them. */
  ghost predicate FunctionCovers(elf: seq<ElfSym>, base: nat, i: nat, pc: nat) {
    && IsFunction(elf, i) && base + elf[i].value <= pc
    && (elf[i].size != 0 ==> pc < base + elf[i].value + elf[i].size)
    && (elf[i].size == 0 ==> (exists j: nat :: Behind(elf, i, j)) && forall j: nat :: Behind(elf, i, j) ==>
        pc < base + elf[j].value)
  }

  // ---------------------------------------------------------------------------------
  // The table and the file

  /** Function `i` has this entry. */
  ghost predicate Shows(elf: seq<ElfSym>, base: nat, i: nat, s: Sym) {
    IsFunction(elf, i) && s == Sym(elf[i].name.text, base + elf[i].value, elf[i].size)
  }

  ghost predicate Listed(elf: seq<ElfSym>, base: nat, s: Sym) {
    exists i: nat :: Shows(elf, base, i, s)
  }

  function EntryFor(elf: seq<ElfSym>, base: nat, i: nat): Sym
    requires IsFunction(elf, i)
  {
    Sym(elf[i].name.text, base + elf[i].value, elf[i].size)
  }

  /** The last entry of a file. */
  lemma FunctionsLast(elf: seq<ElfSym>, base: nat)
    requires elf != [] && forall i: nat :: IsFunction(elf, i) ==> base + elf[i].value + elf[i].size < WORDS
    ensures var n, front := |elf| - 1, elf[..|elf| - 1];
      && Functions(elf, base) == Functions(front, base) + (if IsFunction(elf, n) then [EntryFor(elf, base, n)] else [])
      && (forall i: nat :: IsFunction(front, i) <==> i < n && IsFunction(elf, i))
      && (forall i: nat :: IsFunction(front, i) ==> front[i] == elf[i])
  {
    var last := elf[|elf| - 1];
    if IsFunction(elf, |elf| - 1) {
      Small(last.value + base);
      Small(last.size);
    }
  }

  lemma {:induction false} FunctionsShow(elf: seq<ElfSym>, base: nat)
    requires forall i: nat :: IsFunction(elf, i) ==> base + elf[i].value + elf[i].size < WORDS
    ensures forall s <- Functions(elf, base) :: Listed(elf, base, s)
    ensures forall i: nat :: IsFunction(elf, i) ==> EntryFor(elf, base, i) in Functions(elf, base)
    decreases |elf|
  {
    hide IsFunction, Functions;
    if elf == [] {
      NoEntries(elf, base);
    } else {
      var n, front := |elf| - 1, elf[..|elf| - 1];
      FunctionsLast(elf, base);
      FunctionsShow(front, base);
      forall s <- Functions(elf, base)
        ensures Listed(elf, base, s)
      {
        if s in Functions(front, base) {
          var i := ShownAt(front, base, s);
          assert Shows(elf, base, i, s);
        } else {
          assert Shows(elf, base, n, s);
        }
      }
      forall i: nat | IsFunction(elf, i)
        ensures EntryFor(elf, base, i) in Functions(elf, base)
      {
        InRange(elf, i);
        if i < n {
          assert EntryFor(front, base, i) in Functions(front, base);
        }
      }
    }
  }

  lemma InRange(elf: seq<ElfSym>, i: nat)
    requires IsFunction(elf, i)
    ensures i < |elf|
  {
  }

  lemma NoEntries(elf: seq<ElfSym>, base: nat)
    requires elf == []
    ensures Functions(elf, base) == [] && forall i: nat :: !IsFunction(elf, i)
  {
  }

  lemma ShownAt(elf: seq<ElfSym>, base: nat, s: Sym) returns (i: nat)
    requires Listed(elf, base, s)
    ensures Shows(elf, base, i, s)
  {
    i :| Shows(elf, base, i, s);
  }

  lemma {:induction false} FunctionsDiffer(elf: seq<ElfSym>, base: nat)
    requires TidyFile(elf, base)
    ensures var d := Functions(elf, base); forall a, b :: 0 <= a < b < |d| ==> d[a].value != d[b].value
    decreases |elf|
  {
    hide IsFunction, Functions;
    if elf == [] {
      NoEntries(elf, base);
    } else {
      var n, front := |elf| - 1, elf[..|elf| - 1];
      TidyFront(elf, base);
      FunctionsLast(elf, base);
      FunctionsDiffer(front, base);
      FunctionsShow(front, base);
      var d := Functions(front, base);
      if IsFunction(elf, n) {
        forall a | 0 <= a < |d|
          ensures d[a].value != base + elf[n].value
        {
          assert d[a] in d;
          var i := ShownAt(front, base, d[a]);
        }
      }
    }
  }

  lemma TidyFront(elf: seq<ElfSym>, base: nat)
    requires elf != [] && TidyFile(elf, base)
    ensures TidyFile(elf[..|elf| - 1], base)
  {
    var front := elf[..|elf| - 1];
    assert forall i: nat :: IsFunction(front, i) ==> IsFunction(elf, i) && front[i] == elf[i];
    assert forall i: nat, j: nat :: Behind(front, i, j) ==> Behind(elf, i, j);
  }

  /** A tidy file has tidy symbols. */
  lemma FileTidy(elf: seq<ElfSym>, base: nat)
    requires TidyFile(elf, base)
    ensures Tidy(Functions(elf, base))
  {
    var d := Functions(elf, base);
    FunctionsShow(elf, base);
    FunctionsDiffer(elf, base);
    forall x | x in d
      ensures EndOf(x) < WORDS
    {
      var i := ShownAt(elf, base, x);
    }
    assert forall k :: 0 <= k < |d| ==> d[k] in d;
    forall x, y | x in d && y in d && x.value < y.value
      ensures EndOf(x) <= y.value
    {
      var i := ShownAt(elf, base, x);
      var j := ShownAt(elf, base, y);
      assert Behind(elf, i, j);
    }
  }

  /** The sorted symbols are the functions of the file, at different places. */
  ghost predicate Places(elf: seq<ElfSym>, base: nat, sorted: seq<Sym>) {
    && (forall a, b :: 0 <= a < b < |sorted| ==> sorted[a].value < sorted[b].value)
    && (forall a :: 0 <= a < |sorted| ==> Listed(elf, base, sorted[a]))
    && (forall i: nat :: IsFunction(elf, i) ==> HasPlace(elf, base, sorted, i))
  }

  ghost predicate HasPlace(elf: seq<ElfSym>, base: nat, sorted: seq<Sym>, i: nat) {
    exists a :: 0 <= a < |sorted| && Shows(elf, base, i, sorted[a])
  }

  lemma SortedPlaces(elf: seq<ElfSym>, base: nat, sorted: seq<Sym>)
    requires TidyFile(elf, base) && Sorted(sorted) && multiset(sorted) == multiset(Functions(elf, base))
    ensures Places(elf, base, sorted)
  {
    var d := Functions(elf, base);
    FunctionsShow(elf, base);
    FunctionsDiffer(elf, base);
    forall x
      ensures x in sorted <==> x in d
    {
      assert x in multiset(sorted) <==> x in multiset(d);
    }
    assert TailQueue.NoDuplicates(d);
    forall a, b | 0 <= a < b < |sorted|
      ensures sorted[a].value < sorted[b].value
    {
      assert sorted[a] in d && sorted[b] in d;
      if sorted[a] == sorted[b] {
        Bags.Twice(sorted, a, b);
        Bags.Once(d, sorted[a]);
      }
    }
    forall a | 0 <= a < |sorted|
      ensures Listed(elf, base, sorted[a])
    {
      assert sorted[a] in d;
    }
    forall i: nat | IsFunction(elf, i)
      ensures HasPlace(elf, base, sorted, i)
    {
      var s := Sym(elf[i].name.text, base + elf[i].value, elf[i].size);
      assert s in sorted;
      var a :| 0 <= a < |sorted| && sorted[a] == s;
      assert Shows(elf, base, i, sorted[a]);
    }
  }

  /** All later functions stand behind in the table. */
  lemma LaterEntry(elf: seq<ElfSym>, base: nat, sorted: seq<Sym>, a: nat, i: nat, j: nat)
    requires Places(elf, base, sorted) && a < |sorted| && Shows(elf, base, i, sorted[a]) && Behind(elf, i, j)
    ensures a + 1 < |sorted| && sorted[a + 1].value <= base + elf[j].value
  {
    assert HasPlace(elf, base, sorted, j);
    var b :| 0 <= b < |sorted| && Shows(elf, base, j, sorted[b]);
    assert b > a;
  }

  /** The next entry in the table is that of a later function. */
  lemma NextEntry(elf: seq<ElfSym>, base: nat, sorted: seq<Sym>, a: nat, i: nat) returns (j: nat)
    requires TidyFile(elf, base) && Places(elf, base, sorted) && a + 1 < |sorted| && Shows(elf, base, i, sorted[a])
    ensures Behind(elf, i, j) && sorted[a + 1].value == base + elf[j].value < WORDS
  {
    assert Listed(elf, base, sorted[a + 1]) && sorted[a].value < sorted[a + 1].value;
    j := ShownAt(elf, base, sorted[a + 1]);
  }

  /** The filled entry of a function covers what the function covers. */
  lemma EntryCovers(elf: seq<ElfSym>, base: nat, sorted: seq<Sym>, a: nat, i: nat, pc: nat)
    requires TidyFile(elf, base) && Places(elf, base, sorted) && a < |sorted| && Shows(elf, base, i, sorted[a])
    ensures Covers(FilledAt(sorted, a), pc) <==> FunctionCovers(elf, base, i, pc)
    ensures FilledAt(sorted, a).value == base + elf[i].value && FilledAt(sorted, a).name == elf[i].name.text
  {
    hide TidyFile, Places, Behind;
    if elf[i].size == 0 {
      forall j: nat | Behind(elf, i, j)
        ensures j < |elf| && a + 1 < |sorted| && sorted[a + 1].value <= base + elf[j].value
      {
        BehindInRange(elf, i, j);
        LaterEntry(elf, base, sorted, a, i, j);
      }
      if a + 1 < |sorted| {
        var j := NextEntry(elf, base, sorted, a, i);
        BehindInRange(elf, i, j);
        Small(sorted[a + 1].value - sorted[a].value);
      }
    }
  }

  lemma BehindInRange(elf: seq<ElfSym>, i: nat, j: nat)
    requires Behind(elf, i, j)
    ensures i < |elf| && j < |elf| && elf[i].value < elf[j].value
  {
  }

  /** What the table of a file says of an address. */
  lemma TableCovers(elf: seq<ElfSym>, base: nat, sorted: seq<Sym>, pc: nat)
    requires TidyFile(elf, base) && Places(elf, base, sorted)
    ensures forall a :: 0 <= a < |sorted| && Covers(FilledAt(sorted, a), pc) ==>
            Covered(elf, base, FilledAt(sorted, a), pc)
    ensures forall i: nat :: FunctionCovers(elf, base, i, pc) ==> Found(elf, base, sorted, i, pc)
  {
    hide TidyFile, Covers, FilledAt, FunctionCovers;
    forall a | 0 <= a < |sorted| && Covers(FilledAt(sorted, a), pc)
      ensures Covered(elf, base, FilledAt(sorted, a), pc)
    {
      var i := ShownAt(elf, base, sorted[a]);
      EntryCovers(elf, base, sorted, a, i, pc);
    }
    forall i: nat | FunctionCovers(elf, base, i, pc)
      ensures Found(elf, base, sorted, i, pc)
    {
      CoversIsFunction(elf, base, i, pc);
      assert HasPlace(elf, base, sorted, i);
      var a :| 0 <= a < |sorted| && Shows(elf, base, i, sorted[a]);
      EntryCovers(elf, base, sorted, a, i, pc);
    }
  }

  lemma CoversIsFunction(elf: seq<ElfSym>, base: nat, i: nat, pc: nat)
    requires FunctionCovers(elf, base, i, pc)
    ensures IsFunction(elf, i) && base + elf[i].value <= pc
  {
  }

  /** A function of the file has this entry and covers the address. */
  ghost predicate Covered(elf: seq<ElfSym>, base: nat, s: Sym, pc: nat) {
    exists i: nat :: FunctionCovers(elf, base, i, pc) && s.name == elf[i].name.text && s.value == base + elf[i].value
  }

  /** An entry of the table is that of function `i` and covers the address. */
  ghost predicate Found(elf: seq<ElfSym>, base: nat, sorted: seq<Sym>, i: nat, pc: nat)
  {
    IsFunction(elf, i) &&
    exists a :: 0 <= a < |sorted| && Covers(FilledAt(sorted, a), pc) &&
                FilledAt(sorted, a).name == elf[i].name.text && FilledAt(sorted, a).value == base + elf[i].value
  }

  /** In a table of disjoint ranges one entry covers an address. */
  lemma OneCovers(table: seq<Sym>, a: nat, b: nat, pc: nat)
    requires Separate(table) && a < |table| && b < |table| && Covers(table[a], pc) && Covers(table[b], pc)
    ensures a == b
  {
  }

  /** The text is the name of function `i` and the distance from its start. */
  predicate PrintsAs(elf: seq<ElfSym>, base: nat, i: nat, pc: nat, t: Text) {
    IsFunction(elf, i) && t.Symbol? && t.name == elf[i].name.text && base + elf[i].value + t.offset == pc
  }

  /** The text that kelf_snprintsym makes with the entry `e` of the table. */
  ghost predicate TextOf(table: seq<Sym>, pc: nat, t: Text, e: nat) {
    if t.Symbol? then e < |table| && t.name == table[e].name && Covers(table[e], pc) && table[e].value + t.offset == pc
    else forall i :: 0 <= i < |table| ==> !Covers(table[i], pc)
  }

  /** If a function covers the address, the text is made with its entry. */
  lemma PrintsCovering(elf: seq<ElfSym>, base: nat, sorted: seq<Sym>, pc: nat, t: Text, e: nat, i: nat)
    requires Separate(Filled(sorted)) && TextOf(Filled(sorted), pc, t, e) && Found(elf, base, sorted, i, pc)
    ensures PrintsAs(elf, base, i, pc, t)
  {
    hide Separate, Covers, FilledAt;
    var table := Filled(sorted);
    var a :| 0 <= a < |sorted| && Covers(FilledAt(sorted, a), pc) &&
             FilledAt(sorted, a).name == elf[i].name.text && FilledAt(sorted, a).value == base + elf[i].value;
    assert table[a] == FilledAt(sorted, a);
    if t.Symbol? {
      OneCovers(table, a, e, pc);
    }
  }

  lemma CoveringOf(elf: seq<ElfSym>, base: nat, s: Sym, pc: nat) returns (i: nat)
    requires Covered(elf, base, s, pc)
    ensures FunctionCovers(elf, base, i, pc)
  {
    i :| FunctionCovers(elf, base, i, pc) && s.name == elf[i].name.text && s.value == base + elf[i].value;
  }

  /** What the printed text says. */
  lemma Concluded(elf: seq<ElfSym>, base: nat, sorted: seq<Sym>, pc: nat, t: Text, e: nat)
    requires Separate(Filled(sorted)) && Places(elf, base, sorted) && TidyFile(elf, base) &&
             TextOf(Filled(sorted), pc, t, e)
    ensures t.Symbol? <==> exists i: nat :: FunctionCovers(elf, base, i, pc)
    ensures forall i: nat :: FunctionCovers(elf, base, i, pc) ==> PrintsAs(elf, base, i, pc, t)
  {
    hide FilledAt, FunctionCovers, Separate, Covers, TidyFile, Places, IsFunction, Found, Covered;
    TableCovers(elf, base, sorted, pc);
    if t.Symbol? {
      assert Filled(sorted)[e] == FilledAt(sorted, e);
      var i := CoveringOf(elf, base, FilledAt(sorted, e), pc);
    }
    forall i: nat | FunctionCovers(elf, base, i, pc)
      ensures PrintsAs(elf, base, i, pc, t)
    {
      PrintsCovering(elf, base, sorted, pc, t, e, i);
    }
  }

  /** kelf_open of the first file and kelf_snprintsym with offset 0 (record.c:234): the address is printed as a name
      and an offset exactly if a function of the file covers it, and then as the name of that function and the distance
      from its start; otherwise it is printed as it is. */
  method PrintAddress(elf: seq<ElfSym>, base: nat, pc: nat) returns (t: Text)
    requires TidyFile(elf, base) && pc < WORDS
    ensures t.Symbol? <==> exists i: nat :: FunctionCovers(elf, base, i, pc)
    ensures forall i: nat :: FunctionCovers(elf, base, i, pc) ==> PrintsAs(elf, base, i, pc, t)
    ensures t.Hex? ==> t.pc == pc
  {
    hide TidyFile, Tidy, FunctionCovers, Functions, Separate, Places, FilledAt, PrintsAs;
    var table;
    ghost var sorted;
    table, sorted := KelfOpen(elf, base, []);
    assert Rest(elf, 0) == elf && [] + Functions(elf, base) == Functions(elf, base);
    FileTidy(elf, base);
    SortedPlaces(elf, base, sorted);
    ghost var e;
    t, e := Snprintsym(table, pc, 0);
    Small(pc);
    if t.Symbol? {
      PrintedBack(table[e], pc, t.offset);
    }
    Concluded(elf, base, sorted, pc, t, e);
  }
}
