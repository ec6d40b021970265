/**
  What deleting sections does to an object file held in memory: the value each
  deletion must produce, and what a whole deletion run amounts to.
 */
module Stripping {
  import opened Words
  import opened Elf

  const DOT_TEXT: seq<byte> := [46, 116, 101, 120, 116]
  const DOT_DATA: seq<byte> := [46, 100, 97, 116, 97]
  const DOT_STRTAB: seq<byte> := [46, 115, 116, 114, 116, 97, 98]
  const DOT_SHSTRTAB: seq<byte> := [46, 115, 104, 115, 116, 114, 116, 97, 98]

  /** The in-memory object: header, section table, symbol table, section names, symtabIndex. */
  datatype Object = Object(
    hdr: Ehdr, sections: seq<Shdr>, symbols: seq<Sym>, names: seq<byte>, symtabIndex: nat)

  /**
    Storing a section index, a C int, in an unsigned member. Indices are below
    0x1_0000, so the one value that does not fit is the -1 of a missing section.
   */
  function AsWord(i: int): word { if 0 <= i < 0x1_0000_0000 then i else 0xffff_ffff }
  function AsHalf(i: int): half { if 0 <= i < 0x1_0000 then i else 0xffff }

  // ----- section names -----

  /** The C string that starts at an offset of a string table. */
  function NameAt(names: seq<byte>, off: nat): seq<byte>
    decreases |names| - off
  {
    if off >= |names| || names[off] == 0 then [] else [names[off]] + NameAt(names, off + 1)
  }

  /** strcmp answers 0 for that string and name. */
  predicate NameIs(names: seq<byte>, off: nat, name: seq<byte>) {
    NameAt(names, off) == name
  }

  /** The index of the first section from i on with a name, or -1. */
  function FirstNamed(names: seq<byte>, sections: seq<Shdr>, name: seq<byte>, i: nat): (r: int)
    requires i <= |sections|
    ensures r == -1 || i <= r < |sections|
    ensures 0 <= r ==> NameIs(names, sections[r].name, name)
    ensures forall k :: i <= k < (if r == -1 then |sections| else r) ==> !NameIs(names, sections[k].name, name)
    decreases |sections| - i
  {
    if i == |sections| then -1
    else if NameIs(names, sections[i].name, name) then i
    else FirstNamed(names, sections, name, i + 1)
  }

  function SectionIndex(names: seq<byte>, sections: seq<Shdr>, name: seq<byte>): (r: int)
    ensures -1 <= r < |sections|
  {
    FirstNamed(names, sections, name, 0)
  }

  // ----- one deletion -----

  predicate IsRel(s: Shdr) { s.stype == SHT_REL }

  /** Section types whose sh_link is rewritten after each deletion. */
  predicate Relinked(t: word) { t == SHT_SYMTAB || t == SHT_SYMTAB_SHNDX || t == SHT_REL }

  function LinkFor(s: Shdr, strtab: word, symtab: word): word {
    if s.stype == SHT_SYMTAB then strtab
    else if s.stype == SHT_SYMTAB_SHNDX || s.stype == SHT_REL then symtab
    else s.link
  }

  function Relink(names: seq<byte>, sections: seq<Shdr>, symtabIndex: int): seq<Shdr> {
    var strtab := AsWord(SectionIndex(names, sections, DOT_STRTAB));
    seq(|sections|, i requires 0 <= i < |sections| =>
      sections[i].(link := LinkFor(sections[i], strtab, AsWord(symtabIndex))))
  }

  function Without(sections: seq<Shdr>, d: nat): seq<Shdr>
    requires d < |sections|
  {
    seq(|sections| - 1, i requires 0 <= i < |sections| - 1 => sections[if i < d then i else i + 1])
  }

  /** The section number a symbol holds once section d of n is gone. */
  function Renumber(k: half, d: nat, n: nat): half {
    if d < k <= n then k - 1 else k
  }

  function RenumberAll(symbols: seq<Sym>, d: nat, n: nat): seq<Sym> {
    seq(|symbols|, j requires 0 <= j < |symbols| =>
      symbols[j].(shndx := Renumber(symbols[j].shndx, d, n)))
  }

  // ----- one deletion, step by step -----

  /** The cells while the shift that deletes section d has reached cell i. */
  function ShiftedTo(cells: seq<Shdr>, d: nat, i: nat): seq<Shdr>
    requires d <= i < |cells|
  {
    seq(|cells|, k requires 0 <= k < |cells| => cells[if d <= k < i then k + 1 else k])
  }

  lemma ShiftStep(cells: seq<Shdr>, d: nat, i: nat)
    requires d <= i < |cells| - 1
    ensures ShiftedTo(cells, d, i)[i := ShiftedTo(cells, d, i)[i + 1]] == ShiftedTo(cells, d, i + 1)
  {
  }

  lemma ShiftedWithout(cells: seq<Shdr>, d: nat, n: nat)
    requires d < n < |cells|
    ensures ShiftedTo(cells, d, n)[..n - 1] == Without(cells[..n], d)
    ensures ShiftedTo(cells, d, n)[n - 1] == cells[n]
  {
  }

  /** The symbols once those that held number m hold n instead. */
  function Moved(symbols: seq<Sym>, m: nat, n: half): seq<Sym> {
    seq(|symbols|, j requires 0 <= j < |symbols| =>
      if symbols[j].shndx == m then symbols[j].(shndx := n) else symbols[j])
  }

  /** The ascending updates never move one symbol twice. */
  lemma MoveStep(symbols: seq<Sym>, d: nat, i: half)
    requires d <= i
    ensures Moved(RenumberAll(symbols, d, i), i + 1, i) == RenumberAll(symbols, d, i + 1)
  {
  }

  predicate OneSymtab(sections: seq<Shdr>, at: nat) {
    at < |sections| && forall i :: 0 <= i < |sections| ==> (sections[i].stype == SHT_SYMTAB <==> i == at)
  }

  /** Header, tables and symtabIndex agree, as read_shtable and read_symtable leave them. */
  predicate Coherent(o: Object) {
    && |o.sections| == o.hdr.shnum
    && OneSymtab(o.sections, o.symtabIndex)
    && o.sections[o.symtabIndex].size == 16 * |o.symbols|
  }

  function Delete(o: Object, d: nat): Object
    requires Coherent(o) && d < |o.sections|
  {
    var sections := Without(o.sections, d);
    var symtab := if d < o.symtabIndex then o.symtabIndex - 1 else o.symtabIndex;
    Object(
      o.hdr.(shnum := o.hdr.shnum - 1, shstrndx := AsHalf(SectionIndex(o.names, sections, DOT_SHSTRTAB))),
      Relink(o.names, sections, symtab),
      RenumberAll(o.symbols, d, o.hdr.shnum),
      o.names,
      symtab)
  }

  lemma DeleteCoherent(o: Object, d: nat)
    requires Coherent(o) && d < |o.sections| && d != o.symtabIndex
    ensures Coherent(Delete(o, d))
    ensures forall i :: 0 <= i < |o.sections| - 1 ==>
      IsRel(Delete(o, d).sections[i]) == IsRel(o.sections[if i < d then i else i + 1])
  {
    assert Delete(o, d).sections[Delete(o, d).symtabIndex].stype == SHT_SYMTAB;
  }

  // ----- the deletion run -----

  /** The loop of supprime_rel_sections from index i on. */
  function StripFrom(o: Object, i: nat): Object
    requires Coherent(o)
    decreases |o.sections| - i
  {
    if i >= |o.sections| then o
    else if IsRel(o.sections[i]) then
      DeleteCoherent(o, i);
      StripFrom(Delete(o, i), i)
    else StripFrom(o, i + 1)
  }

  /** How many of the first k sections are REL sections. */
  function RelsBelow(sections: seq<Shdr>, k: nat): (r: nat)
    requires k <= |sections|
    ensures r <= k
  {
    if k == 0 then 0 else RelsBelow(sections, k - 1) + if IsRel(sections[k - 1]) then 1 else 0
  }

  /** The sections among the first n that are kept, in their order. */
  function KeptAmong(sections: seq<Shdr>, n: nat): (r: seq<Shdr>)
    requires n <= |sections|
    ensures |r| == n - RelsBelow(sections, n)
  {
    if n == 0 then []
    else KeptAmong(sections, n - 1) + if IsRel(sections[n - 1]) then [] else [sections[n - 1]]
  }

  function NonRel(sections: seq<Shdr>): seq<Shdr> {
    KeptAmong(sections, |sections|)
  }

  lemma {:induction false} RelsBelowAgree(xs: seq<Shdr>, ys: seq<Shdr>, k: nat)
    requires k <= |xs| && k <= |ys|
    requires forall i :: 0 <= i < k ==> IsRel(xs[i]) == IsRel(ys[i])
    ensures RelsBelow(xs, k) == RelsBelow(ys, k)
  {
    if k > 0 { RelsBelowAgree(xs, ys, k - 1); }
  }

  lemma {:induction false} RelsBelowMonotone(sections: seq<Shdr>, j: nat, k: nat)
    requires j <= k <= |sections|
    ensures RelsBelow(sections, j) <= RelsBelow(sections, k) <= RelsBelow(sections, j) + (k - j)
    decreases k
  {
    if j < k { RelsBelowMonotone(sections, j, k - 1); }
  }

  /** The number that ends up in st_shndx: lowered by the REL sections below it. */
  function FinalNumber(sections: seq<Shdr>, k: half): half {
    if k <= |sections| then k - RelsBelow(sections, k) else k
  }

  function FinalNumbers(sections: seq<Shdr>, symbols: seq<Sym>): seq<Sym> {
    seq(|symbols|, j requires 0 <= j < |symbols| =>
      symbols[j].(shndx := FinalNumber(sections, symbols[j].shndx)))
  }

  /** The object left when the sections that remain are known. */
  function Compacted(o: Object, kept: seq<Shdr>): Object
    requires Coherent(o) && |kept| <= |o.sections|
  {
    var symtab := o.symtabIndex - RelsBelow(o.sections, o.symtabIndex);
    Object(
      o.hdr.(shnum := |kept|, shstrndx := AsHalf(SectionIndex(o.names, kept, DOT_SHSTRTAB))),
      Relink(o.names, kept, symtab),
      FinalNumbers(o.sections, o.symbols),
      o.names,
      symtab)
  }

  /** The object after a run that deleted something, in closed form. */
  function Stripped(o: Object): Object
    requires Coherent(o)
  {
    Compacted(o, NonRel(o.sections))
  }

  predicate HasRel(sections: seq<Shdr>) {
    exists i :: 0 <= i < |sections| && IsRel(sections[i])
  }

  // ----- deleting one REL section does not change where the run ends -----

  /** Equal headers, except for links that the next relinking overwrites. */
  predicate Alike(xs: seq<Shdr>, ys: seq<Shdr>) {
    |xs| == |ys|
    && forall i :: 0 <= i < |xs| ==>
         xs[i] == ys[i] || (Relinked(xs[i].stype) && xs[i] == ys[i].(link := xs[i].link))
  }

  lemma SameNamesIndex(names: seq<byte>, xs: seq<Shdr>, ys: seq<Shdr>, name: seq<byte>)
    requires |xs| == |ys| && forall i :: 0 <= i < |xs| ==> xs[i].name == ys[i].name
    ensures SectionIndex(names, xs, name) == SectionIndex(names, ys, name)
  {
    assert forall k :: 0 <= k < |xs| ==> NameIs(names, xs[k].name, name) == NameIs(names, ys[k].name, name);
  }

  lemma AlikeIndex(names: seq<byte>, xs: seq<Shdr>, ys: seq<Shdr>, name: seq<byte>)
    requires Alike(xs, ys)
    ensures SectionIndex(names, xs, name) == SectionIndex(names, ys, name)
  {
    SameNamesIndex(names, xs, ys, name);
  }

  lemma AlikeRelink(names: seq<byte>, xs: seq<Shdr>, ys: seq<Shdr>, symtabIndex: int)
    requires Alike(xs, ys)
    ensures Relink(names, xs, symtabIndex) == Relink(names, ys, symtabIndex)
  {
    AlikeIndex(names, xs, ys, DOT_STRTAB);
  }

  lemma {:induction false} AlikeKept(xs: seq<Shdr>, ys: seq<Shdr>, n: nat)
    requires Alike(xs, ys) && n <= |xs|
    ensures Alike(KeptAmong(xs, n), KeptAmong(ys, n))
  {
    if n > 0 {
      AlikeKept(xs, ys, n - 1);
      RelsBelowAgree(xs, ys, n);
      RelsBelowAgree(xs, ys, n - 1);
    }
  }

  lemma {:induction false} KeptWithout(xs: seq<Shdr>, d: nat, n: nat)
    requires d < |xs| && IsRel(xs[d]) && n < |xs|
    ensures KeptAmong(Without(xs, d), n) == KeptAmong(xs, if n <= d then n else n + 1)
  {
    if n > 0 {
      KeptWithout(xs, d, n - 1);
      assert Without(xs, d)[n - 1] == xs[if n <= d then n - 1 else n];
    }
  }

  lemma {:induction false} RelsBelowWithout(xs: seq<Shdr>, d: nat, k: nat)
    requires d < |xs| && IsRel(xs[d]) && k < |xs|
    ensures RelsBelow(Without(xs, d), k) == if k <= d then RelsBelow(xs, k) else RelsBelow(xs, k + 1) - 1
  {
    if k <= d {
      RelsBelowAgree(Without(xs, d), xs, k);
    } else {
      RelsBelowWithout(xs, d, k - 1);
      assert Without(xs, d)[k - 1] == xs[k];
    }
  }

  lemma FinalNumberWithout(xs: seq<Shdr>, d: nat, k: half)
    requires d < |xs| && IsRel(xs[d])
    ensures FinalNumber(Without(xs, d), Renumber(k, d, |xs|)) == FinalNumber(xs, k)
  {
    if k <= d {
      RelsBelowWithout(xs, d, k);
    } else if k <= |xs| {
      RelsBelowWithout(xs, d, k - 1);
    }
  }

  lemma DeletedHeaders(o: Object, d: nat)
    requires Coherent(o) && d < |o.sections| && d != o.symtabIndex
    ensures Alike(Delete(o, d).sections, Without(o.sections, d))
  {
  }

  lemma DeletedSections(o: Object, d: nat)
    requires Coherent(o) && d < |o.sections| && IsRel(o.sections[d])
    ensures Alike(Delete(o, d).sections, Without(o.sections, d))
    ensures Alike(NonRel(Delete(o, d).sections), NonRel(o.sections))
  {
    DeletedHeaders(o, d);
    DeletedKept(Delete(o, d).sections, o.sections, d);
  }

  lemma DeletedKept(deleted: seq<Shdr>, sections: seq<Shdr>, d: nat)
    requires d < |sections| && IsRel(sections[d]) && Alike(deleted, Without(sections, d))
    ensures Alike(NonRel(deleted), NonRel(sections))
  {
    AlikeKept(deleted, Without(sections, d), |sections| - 1);
    KeptWithout(sections, d, |sections| - 1);
  }

  lemma DeletedNumber(o: Object, d: nat, k: half)
    requires Coherent(o) && d < |o.sections| && IsRel(o.sections[d])
    ensures FinalNumber(Delete(o, d).sections, Renumber(k, d, |o.sections|)) == FinalNumber(o.sections, k)
  {
    var m := Renumber(k, d, |o.sections|);
    FinalNumberWithout(o.sections, d, k);
    DeletedSections(o, d);
    if m < |o.sections| { RelsBelowAgree(Delete(o, d).sections, Without(o.sections, d), m); }
  }

  lemma DeletedSymbols(o: Object, d: nat)
    requires Coherent(o) && d < |o.sections| && IsRel(o.sections[d])
    ensures FinalNumbers(Delete(o, d).sections, Delete(o, d).symbols) == FinalNumbers(o.sections, o.symbols)
  {
    forall j | 0 <= j < |o.symbols| { DeletedNumber(o, d, o.symbols[j].shndx); }
  }

  lemma DeletedSymtab(o: Object, d: nat)
    requires Coherent(o) && d < |o.sections| && IsRel(o.sections[d])
    ensures Coherent(Delete(o, d))
    ensures Stripped(Delete(o, d)).symtabIndex == Stripped(o).symtabIndex
  {
    DeleteCoherent(o, d);
    DeletedNumber(o, d, o.symtabIndex);
  }

  lemma DeleteThenStrip(o: Object, d: nat)
    requires Coherent(o) && d < |o.sections| && IsRel(o.sections[d])
    ensures Coherent(Delete(o, d)) && Stripped(Delete(o, d)) == Stripped(o)
  {
    DeletedSymtab(o, d);
    DeletedSections(o, d);
    DeletedSymbols(o, d);
    var xs, ys := NonRel(Delete(o, d).sections), NonRel(o.sections);
    AlikeRelink(o.names, xs, ys, Stripped(o).symtabIndex);
    AlikeIndex(o.names, xs, ys, DOT_SHSTRTAB);
    assert |xs| == |ys|;
  }

  predicate LinksSet(names: seq<byte>, sections: seq<Shdr>, symtabIndex: int) {
    var strtab := AsWord(SectionIndex(names, sections, DOT_STRTAB));
    forall i :: 0 <= i < |sections| ==> sections[i].link == LinkFor(sections[i], strtab, AsWord(symtabIndex))
  }

  lemma RelinkSets(names: seq<byte>, sections: seq<Shdr>, symtabIndex: int)
    ensures LinksSet(names, Relink(names, sections, symtabIndex), symtabIndex)
    ensures LinksSet(names, sections, symtabIndex) ==> Relink(names, sections, symtabIndex) == sections
  {
    assert Alike(Relink(names, sections, symtabIndex), sections);
    AlikeIndex(names, Relink(names, sections, symtabIndex), sections, DOT_STRTAB);
  }

  /** What a deletion leaves: the links and e_shstrndx are up to date. */
  predicate Settled(o: Object) {
    && LinksSet(o.names, o.sections, o.symtabIndex)
    && o.hdr.shstrndx == AsHalf(SectionIndex(o.names, o.sections, DOT_SHSTRTAB))
  }

  lemma DeleteSettled(o: Object, d: nat)
    requires Coherent(o) && d < |o.sections| && IsRel(o.sections[d])
    ensures Settled(Delete(o, d))
  {
    var p := Delete(o, d);
    var rest := Without(o.sections, d);
    assert Alike(p.sections, rest);
    AlikeIndex(o.names, p.sections, rest, DOT_SHSTRTAB);
    RelinkSets(o.names, rest, p.symtabIndex);
  }

  lemma {:induction false} NothingToStrip(xs: seq<Shdr>, k: nat)
    requires k <= |xs| && !HasRel(xs)
    ensures KeptAmong(xs, k) == xs[..k] && RelsBelow(xs, k) == 0
  {
    if k > 0 { NothingToStrip(xs, k - 1); }
  }

  lemma NoNumberChanges(o: Object)
    requires Coherent(o) && !HasRel(o.sections)
    ensures FinalNumbers(o.sections, o.symbols) == o.symbols
  {
    forall j | 0 <= j < |o.symbols|
      ensures FinalNumber(o.sections, o.symbols[j].shndx) == o.symbols[j].shndx
    {
      var k := o.symbols[j].shndx;
      if k <= |o.sections| { NothingToStrip(o.sections, k); }
    }
  }

  lemma AllKept(xs: seq<Shdr>)
    requires !HasRel(xs)
    ensures NonRel(xs) == xs
  {
    NothingToStrip(xs, |xs|);
    assert xs[..|xs|] == xs;
  }

  lemma SettledCompacted(o: Object)
    requires Coherent(o) && Settled(o) && !HasRel(o.sections)
    ensures Compacted(o, o.sections) == o
  {
    NothingToStrip(o.sections, o.symtabIndex);
    NoNumberChanges(o);
    RelinkSets(o.names, o.sections, o.symtabIndex);
  }

  lemma SettledStripped(o: Object)
    requires Coherent(o) && Settled(o) && !HasRel(o.sections)
    ensures Stripped(o) == o
  {
    AllKept(o.sections);
    SettledCompacted(o);
  }

  /** One step of the run, as the induction uses it. */
  lemma DeleteStep(o: Object, d: nat)
    requires Coherent(o) && d < |o.sections| && IsRel(o.sections[d])
    ensures
      var p := Delete(o, d);
      && Coherent(p) && Settled(p)
      && Stripped(p) == Stripped(o)
      && |p.sections| == |o.sections| - 1
      && (forall j :: 0 <= j < d ==> IsRel(p.sections[j]) == IsRel(o.sections[j]))
      && StripFrom(o, d) == StripFrom(p, d)
  {
    DeleteCoherent(o, d);
    DeleteSettled(o, d);
    DeleteThenStrip(o, d);
  }

  lemma {:induction false} StripFromSettled(o: Object, i: nat)
    requires Coherent(o) && Settled(o) && i <= |o.sections|
    requires forall j :: 0 <= j < i ==> !IsRel(o.sections[j])
    ensures StripFrom(o, i) == Stripped(o)
    decreases |o.sections| - i
  {
    if i == |o.sections| {
      SettledStripped(o);
    } else if IsRel(o.sections[i]) {
      DeleteStep(o, i);
      StripFromSettled(Delete(o, i), i);
    } else {
      StripFromSettled(o, i + 1);
    }
  }

  lemma {:induction false} StripFromClosed(o: Object, i: nat)
    requires Coherent(o) && i <= |o.sections|
    requires forall j :: 0 <= j < i ==> !IsRel(o.sections[j])
    ensures StripFrom(o, i) == if HasRel(o.sections) then Stripped(o) else o
    decreases |o.sections| - i
  {
    if i < |o.sections| {
      if IsRel(o.sections[i]) {
        DeleteStep(o, i);
        StripFromSettled(Delete(o, i), i);
      } else {
        StripFromClosed(o, i + 1);
      }
    }
  }

  /** Main result: the loop of in-place deletions computes the closed form. */
  lemma StripIsCompaction(o: Object)
    requires Coherent(o)
    ensures StripFrom(o, 0) == if HasRel(o.sections) then Stripped(o) else o
  {
    StripFromClosed(o, 0);
  }

  // ----- what the closed form means -----

  /** A kept section is found at its rank among the kept ones. */
  lemma {:induction false} KeptAt(xs: seq<Shdr>, n: nat, k: nat)
    requires k < n <= |xs| && !IsRel(xs[k])
    ensures k - RelsBelow(xs, k) < |KeptAmong(xs, n)|
    ensures KeptAmong(xs, n)[k - RelsBelow(xs, k)] == xs[k]
  {
    if k < n - 1 { KeptAt(xs, n - 1, k); }
  }

  /** Each kept header is the header of a kept section, at its rank. */
  lemma {:induction false} KeptFrom(xs: seq<Shdr>, n: nat, i: nat) returns (k: nat)
    requires n <= |xs| && i < |KeptAmong(xs, n)|
    ensures k < n && !IsRel(xs[k]) && KeptAmong(xs, n)[i] == xs[k] && i == k - RelsBelow(xs, k)
  {
    if i < |KeptAmong(xs, n - 1)| {
      k := KeptFrom(xs, n - 1, i);
    } else {
      k := n - 1;
    }
  }

  lemma NoneIsRel(xs: seq<Shdr>)
    ensures forall i :: 0 <= i < |NonRel(xs)| ==> !IsRel(NonRel(xs)[i])
  {
    forall i | 0 <= i < |NonRel(xs)|
      ensures !IsRel(NonRel(xs)[i])
    {
      var k := KeptFrom(xs, |xs|, i);
    }
  }

  /** The two headers describe the same section: they differ at most in sh_link. */
  predicate SameSection(s: Shdr, t: Shdr) {
    s == t.(link := s.link)
  }

  lemma SectionAfterStrip(o: Object, k: nat)
    requires Coherent(o) && k < |o.sections| && !IsRel(o.sections[k])
    ensures
      var r, rank := StripFrom(o, 0), k - RelsBelow(o.sections, k);
      rank < |r.sections| && SameSection(o.sections[k], r.sections[rank])
  {
    StripIsCompaction(o);
    KeptAt(o.sections, |o.sections|, k);
    if !HasRel(o.sections) { NothingToStrip(o.sections, k); }
  }

  lemma NumbersAfterStrip(o: Object)
    requires Coherent(o)
    ensures StripFrom(o, 0).symbols == FinalNumbers(o.sections, o.symbols)
    ensures StripFrom(o, 0).symtabIndex == o.symtabIndex - RelsBelow(o.sections, o.symtabIndex)
  {
    StripIsCompaction(o);
    if !HasRel(o.sections) {
      NothingToStrip(o.sections, o.symtabIndex);
      NoNumberChanges(o);
    }
  }

  /** After the run symbol j denotes the section it denoted before. */
  predicate KeepsSection(o: Object, j: nat)
    requires Coherent(o)
  {
    var r := StripFrom(o, 0);
    && j < |o.symbols| && j < |r.symbols|
    && o.symbols[j].shndx < |o.sections| && r.symbols[j].shndx < |r.sections|
    && SameSection(o.sections[o.symbols[j].shndx], r.sections[r.symbols[j].shndx])
  }

  /**
    Renumbering over a whole run. A symbol defined in section k ends with k minus
    the REL sections below k; this denotes the section it denoted before exactly
    when that section is kept. Numbers beyond the table (the reserved ones) stay.
   */
  lemma SymbolKeepsItsSection(o: Object, j: nat)
    requires Coherent(o) && j < |o.symbols|
    ensures
      var r, k := StripFrom(o, 0), o.symbols[j].shndx;
      && |r.symbols| == |o.symbols|
      && r.symbols[j] == o.symbols[j].(shndx := FinalNumber(o.sections, k))
      && (k == SHN_UNDEF || k > |o.sections| ==> r.symbols[j] == o.symbols[j])
      && (k < |o.sections| ==> (KeepsSection(o, j) <==> !IsRel(o.sections[k])))
  {
    NumbersAfterStrip(o);
    StripIsCompaction(o);
    NoneIsRel(o.sections);
    var k := o.symbols[j].shndx;
    if k < |o.sections| && !IsRel(o.sections[k]) {
      SectionAfterStrip(o, k);
    }
  }

  lemma IndexAmongKept(names: seq<byte>, xs: seq<Shdr>, name: seq<byte>)
    requires SectionIndex(names, xs, name) >= 0 && !IsRel(xs[SectionIndex(names, xs, name)])
    ensures
      var k := SectionIndex(names, xs, name);
      SectionIndex(names, NonRel(xs), name) == k - RelsBelow(xs, k)
  {
    var k := SectionIndex(names, xs, name);
    KeptAt(xs, |xs|, k);
    forall i | 0 <= i < k - RelsBelow(xs, k)
      ensures !NameIs(names, NonRel(xs)[i].name, name)
    {
      var m := KeptFrom(xs, |xs|, i);
      if k <= m { RelsBelowMonotone(xs, k, m); }
    }
  }

  /** An index that designates the section of a given name, when that section is kept. */
  predicate Designates(o: Object, i: int, name: seq<byte>) {
    var k := SectionIndex(o.names, o.sections, name);
    0 <= k == i && !IsRel(o.sections[k])
  }

  lemma LinkAfterStrip(o: Object)
    requires Coherent(o)
    requires Designates(o, o.sections[o.symtabIndex].link, DOT_STRTAB)
    ensures
      var r, link := StripFrom(o, 0), o.sections[o.symtabIndex].link;
      r.symtabIndex < |r.sections| && r.sections[r.symtabIndex].link == link - RelsBelow(o.sections, link)
  {
    StripIsCompaction(o);
    NumbersAfterStrip(o);
    SectionAfterStrip(o, o.symtabIndex);
    var link := o.sections[o.symtabIndex].link;
    if !HasRel(o.sections) {
      NothingToStrip(o.sections, link);
    } else {
      KeptAt(o.sections, |o.sections|, o.symtabIndex);
      IndexAmongKept(o.names, o.sections, DOT_STRTAB);
    }
  }

  lemma NamesIndexAfterStrip(o: Object)
    requires Coherent(o)
    requires Designates(o, o.hdr.shstrndx, DOT_SHSTRTAB)
    ensures StripFrom(o, 0).hdr.shstrndx == o.hdr.shstrndx - RelsBelow(o.sections, o.hdr.shstrndx)
  {
    StripIsCompaction(o);
    if !HasRel(o.sections) {
      NothingToStrip(o.sections, o.hdr.shstrndx);
    } else {
      IndexAmongKept(o.names, o.sections, DOT_SHSTRTAB);
    }
  }

  /**
    Every other live index of the object: symtabIndex, e_shstrndx and the symbol
    table's sh_link designate after the run the sections they designated before.
   */
  lemma IndicesKeepTheirSections(o: Object)
    requires Coherent(o)
    requires Designates(o, o.hdr.shstrndx, DOT_SHSTRTAB)
    requires Designates(o, o.sections[o.symtabIndex].link, DOT_STRTAB)
    ensures
      var r := StripFrom(o, 0);
      && r.symtabIndex < |r.sections|
      && r.hdr.shstrndx < |r.sections|
      && r.sections[r.symtabIndex].link < |r.sections|
      && SameSection(o.sections[o.symtabIndex], r.sections[r.symtabIndex])
      && SameSection(o.sections[o.hdr.shstrndx], r.sections[r.hdr.shstrndx])
      && SameSection(o.sections[o.sections[o.symtabIndex].link], r.sections[r.sections[r.symtabIndex].link])
  {
    NumbersAfterStrip(o);
    LinkAfterStrip(o);
    NamesIndexAfterStrip(o);
    SectionAfterStrip(o, o.symtabIndex);
    SectionAfterStrip(o, o.hdr.shstrndx);
    SectionAfterStrip(o, o.sections[o.symtabIndex].link);
  }

  lemma {:induction false} StripFromCoherent(o: Object, i: nat)
    requires Coherent(o)
    ensures Coherent(StripFrom(o, i))
    decreases |o.sections| - i
  {
    if i < |o.sections| {
      if IsRel(o.sections[i]) {
        DeleteCoherent(o, i);
        StripFromCoherent(Delete(o, i), i);
      } else {
        StripFromCoherent(o, i + 1);
      }
    }
  }
}
