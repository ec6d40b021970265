/**
  The object a run of my_readelf holds, with its section table and symbol table
  changed in place and its files written step by step, as my_elf.c does. Each
  method is proved against the functions of Stripping, ElfFile and Relocation.
 */
module MyElf {
  import opened Words
  import opened Elf
  import opened FileModel
  import opened Stripping
  import opened ElfFile
  import opened Relocation

  /** The loop of get_section_index. */
  method FindSection(names: seq<byte>, shtable: array<Shdr>, shnum: nat, name: seq<byte>) returns (sectionIndex: int)
    requires shnum <= shtable.Length
    ensures sectionIndex == SectionIndex(names, shtable[..shnum], name)
  {
    sectionIndex := 0;
    var isRightSection := false;
    while sectionIndex < shnum && !isRightSection
      invariant 0 <= sectionIndex <= shnum
      invariant isRightSection ==>
        0 < sectionIndex && NameIs(names, shtable[..shnum][sectionIndex - 1].name, name)
      invariant forall k :: 0 <= k < (if isRightSection then sectionIndex - 1 else sectionIndex) ==>
        !NameIs(names, shtable[..shnum][k].name, name)
    {
      isRightSection := NameIs(names, shtable[sectionIndex].name, name);
      sectionIndex := sectionIndex + 1;
    }
    sectionIndex := sectionIndex - 1;
    if !isRightSection {
      sectionIndex := -1;
    }
  }

  class Elf32 {
    const host: Host
    var elfhdr: Ehdr
    /** The first e_shnum cells are the table; the last shift reads the cell after them. */
    const shtable: array<Shdr>
    const symtable: array<Sym>
    const shStrtab: seq<byte>
    /** The names of the symbols; only the display uses them. */
    const symStrtab: seq<byte>
    const reltab: seq<RelEntry>
    var symtabIndex: nat

    constructor (host: Host, hdr: Ehdr, shtable: array<Shdr>, symtable: array<Sym>,
                 shStrtab: seq<byte>, symStrtab: seq<byte>, reltab: seq<RelEntry>, symtabIndex: nat)
      ensures this.host == host && elfhdr == hdr && this.shtable == shtable && this.symtable == symtable
      ensures this.shStrtab == shStrtab && this.symStrtab == symStrtab
      ensures this.reltab == reltab && this.symtabIndex == symtabIndex
    {
      this.host, elfhdr, this.shtable, this.symtable := host, hdr, shtable, symtable;
      this.shStrtab, this.symStrtab, this.reltab, this.symtabIndex := shStrtab, symStrtab, reltab, symtabIndex;
    }

    ghost function Value(): Object
      requires elfhdr.shnum <= shtable.Length
      reads this, shtable, symtable
    {
      Object(elfhdr, shtable[..elfhdr.shnum], symtable[..], shStrtab, symtabIndex)
    }

    ghost predicate Valid()
      reads this, shtable, symtable
    {
      && elfhdr.shnum < shtable.Length
      && shtable[elfhdr.shnum].stype != SHT_SYMTAB
      && Coherent(Value())
    }

    method GetSectionIndex(name: seq<byte>) returns (sectionIndex: int)
      requires elfhdr.shnum <= shtable.Length
      ensures sectionIndex == SectionIndex(shStrtab, shtable[..elfhdr.shnum], name)
    {
      sectionIndex := FindSection(shStrtab, shtable, elfhdr.shnum, name);
    }

    method UpdateSymShndx(oldShndx: nat, newShndx: half)
      requires symtabIndex < shtable.Length && shtable[symtabIndex].size / 16 == symtable.Length
      modifies symtable
      ensures symtable[..] == Moved(old(symtable[..]), oldShndx, newShndx)
    {
      var count := shtable[symtabIndex].size / 16;
      ghost var symbols := symtable[..];
      for i := 0 to count
        invariant symtable[..i] == Moved(symbols, oldShndx, newShndx)[..i]
        invariant symtable[i..] == symbols[i..]
      {
        assert symtable[i] == symbols[i];
        if symtable[i].shndx == oldShndx {
          symtable[i] := symtable[i].(shndx := newShndx);
        }
      }
    }

    /** One turn of the first loop of supprime_sh. */
    method ShiftOne(i: half)
      requires i + 1 < shtable.Length
      requires
        var at := if shtable[i + 1].stype == SHT_SYMTAB then i + 1 else symtabIndex;
        at < shtable.Length && at != i && shtable[at].size / 16 == symtable.Length
      modifies this`symtabIndex, shtable, symtable
      ensures symtabIndex == if old(shtable[i + 1]).stype == SHT_SYMTAB then i else old(symtabIndex)
      ensures shtable[..] == old(shtable[..])[i := old(shtable[i + 1])]
      ensures symtable[..] == Moved(old(symtable[..]), i + 1, i)
    {
      shtable[i] := shtable[i + 1];
      if shtable[i].stype == SHT_SYMTAB {
        symtabIndex := i;
      }
      UpdateSymShndx(i + 1, i);
    }

    /**
      The first loop of supprime_sh: every later header moves down one cell and
      the symbols defined there follow it.
     */
    method ShiftSections(index: nat)
      requires index < elfhdr.shnum < shtable.Length && index != symtabIndex < elfhdr.shnum
      requires forall k :: 0 <= k <= elfhdr.shnum ==> (shtable[k].stype == SHT_SYMTAB <==> k == symtabIndex)
      requires shtable[symtabIndex].size / 16 == symtable.Length
      modifies this`symtabIndex, shtable, symtable
      ensures symtabIndex == if index < old(symtabIndex) then old(symtabIndex) - 1 else old(symtabIndex)
      ensures shtable[..] == ShiftedTo(old(shtable[..]), index, elfhdr.shnum)
      ensures symtable[..] == RenumberAll(old(symtable[..]), index, elfhdr.shnum)
    {
      ghost var p, cells, symbols := symtabIndex, shtable[..], symtable[..];
      assert RenumberAll(symbols, index, index) == symbols;
      for i := index to elfhdr.shnum
        invariant shtable[..] == ShiftedTo(cells, index, i)
        invariant symtabIndex == if index < p <= i then p - 1 else p
        invariant symtable[..] == RenumberAll(symbols, index, i)
      {
        assert shtable[i + 1] == shtable[..][i + 1] == cells[i + 1];
        assert shtable[symtabIndex] == shtable[..][symtabIndex] == cells[p];
        ShiftOne(i);
        ShiftStep(cells, index, i);
        MoveStep(symbols, index, i);
      }
    }

    method MetAJourShlink()
      requires elfhdr.shnum <= shtable.Length
      modifies shtable
      ensures shtable[..elfhdr.shnum] == Relink(shStrtab, old(shtable[..elfhdr.shnum]), symtabIndex)
      ensures forall k :: elfhdr.shnum <= k < shtable.Length ==> shtable[k] == old(shtable[k])
    {
      var at := GetSectionIndex(DOT_STRTAB);
      var strtabIndex := AsWord(at);
      for i := 0 to elfhdr.shnum
        invariant forall k :: 0 <= k < i ==>
          shtable[k] == old(shtable[k]).(link := LinkFor(old(shtable[k]), strtabIndex, AsWord(symtabIndex)))
        invariant forall k :: i <= k < shtable.Length ==> shtable[k] == old(shtable[k])
      {
        var t := shtable[i].stype;
        if t == SHT_SYMTAB {
          shtable[i] := shtable[i].(link := strtabIndex);
        } else if t == SHT_SYMTAB_SHNDX || t == SHT_REL {
          shtable[i] := shtable[i].(link := AsWord(symtabIndex));
        }
      }
    }

    method SwapShtable(shnum: nat)
      requires shnum <= shtable.Length
      modifies shtable
      ensures forall k :: 0 <= k < shnum ==> shtable[k] == SwapShdr(old(shtable[k]))
      ensures forall k :: shnum <= k < shtable.Length ==> shtable[k] == old(shtable[k])
    {
      for i := 0 to shnum
        invariant forall k :: 0 <= k < i ==> shtable[k] == SwapShdr(old(shtable[k]))
        invariant forall k :: i <= k < shtable.Length ==> shtable[k] == old(shtable[k])
      {
        shtable[i] := SwapShdr(shtable[i]);
      }
    }

    method SwapSymtable()
      modifies symtable
      ensures forall k :: 0 <= k < symtable.Length ==> symtable[k] == SwapSym(old(symtable[k]))
    {
      for i := 0 to symtable.Length
        invariant forall k :: 0 <= k < i ==> symtable[k] == SwapSym(old(symtable[k]))
        invariant forall k :: i <= k < symtable.Length ==> symtable[k] == old(symtable[k])
      {
        symtable[i] := SwapSym(symtable[i]);
      }
    }

    /** Swap if the host needs it, write the section table, swap back. */
    method WriteSections(file: Stream)
      requires elfhdr.shnum <= shtable.Length
      modifies shtable, file
      ensures shtable[..] == old(shtable[..])
      ensures file.content == SaveSections(old(file.content), Value())
    {
      var shoff, shnum := elfhdr.shoff, elfhdr.shnum;
      ghost var sections := shtable[..shnum];
      if host.LittleEndian? {
        SwapShtable(shnum);
      }
      ShdrTableWrittenAlike(host, shtable[..shnum], sections);
      file.Seek(shoff);
      file.Write(ShdrTable(host, shtable[..shnum]));
      if host.LittleEndian? {
        SwapShtable(shnum);
        forall k | 0 <= k < shnum { SwapShdrTwice(old(shtable[k])); }
      }
    }

    /** Swap if the host needs it, write the symbol table, swap back. */
    method WriteSymbols(file: Stream)
      requires Valid()
      modifies symtable, file
      ensures symtable[..] == old(symtable[..])
      ensures file.content == SaveSymbols(old(file.content), Value())
    {
      var symoff := shtable[symtabIndex].offset;
      ghost var symbols := symtable[..];
      if host.LittleEndian? {
        SwapSymtable();
      }
      SymTableWrittenAlike(host, symtable[..], symbols);
      file.Seek(symoff);
      file.Write(SymTable(host, symtable[..]));
      if host.LittleEndian? {
        SwapSymtable();
        forall k | 0 <= k < symtable.Length { SwapSymTwice(old(symtable[k])); }
      }
    }

    /** "if (!is_big_endian())" swap the header, shnum section headers and the symbols. */
    method SwapTables(shnum: nat)
      requires shnum <= shtable.Length
      modifies this`elfhdr, shtable, symtable
      ensures elfhdr == FileEhdr(host, old(elfhdr))
      ensures forall k :: 0 <= k < shnum ==> shtable[k] == FileShdr(host, old(shtable[k]))
      ensures forall k :: shnum <= k < shtable.Length ==> shtable[k] == old(shtable[k])
      ensures forall k :: 0 <= k < symtable.Length ==> symtable[k] == FileSym(host, old(symtable[k]))
    {
      if host.LittleEndian? {
        elfhdr := SwapEhdr(elfhdr);
        SwapShtable(shnum);
        SwapSymtable();
      }
    }

    /** The tables hold o as it has to be written. */
    ghost predicate InFileOrder(o: Object, shnum: nat)
      reads this, shtable, symtable
    {
      && shnum == |o.sections| <= shtable.Length && symtable.Length == |o.symbols|
      && elfhdr == FileEhdr(host, o.hdr)
      && (forall k :: 0 <= k < shnum ==> shtable[k] == FileShdr(host, o.sections[k]))
      && (forall k :: 0 <= k < symtable.Length ==> symtable[k] == FileSym(host, o.symbols[k]))
    }

    /** That statement, from tables that hold o. */
    method SwapTablesOut(ghost o: Object, shnum: nat)
      requires shnum == |o.sections| <= shtable.Length && elfhdr == o.hdr
      requires shtable[..shnum] == o.sections && symtable[..] == o.symbols
      modifies this`elfhdr, shtable, symtable
      ensures InFileOrder(o, shnum) && shtable[shnum..] == old(shtable[shnum..])
    {
      assert forall k :: 0 <= k < shnum ==> shtable[k] == o.sections[k];
      assert forall k :: 0 <= k < symtable.Length ==> symtable[k] == o.symbols[k];
      SwapTables(shnum);
    }

    /** The same statement again, from tables in file order: it restores them. */
    method SwapTablesBack(ghost o: Object, shnum: nat)
      requires InFileOrder(o, shnum)
      modifies this`elfhdr, shtable, symtable
      ensures elfhdr == o.hdr && symtable[..] == o.symbols && shtable[..shnum] == o.sections
      ensures shtable[shnum..] == old(shtable[shnum..])
    {
      SwapTables(shnum);
      SwapEhdrTwice(o.hdr);
      forall k | 0 <= k < shnum { SwapShdrTwice(o.sections[k]); }
      forall k | 0 <= k < symtable.Length { SwapSymTwice(o.symbols[k]); }
    }

    /** The three fwrite calls of supprime_sh, from tables in file order. */
    method WriteImages(file: Stream, ghost o: Object, shoff: nat, shnum: nat, symoff: nat)
      requires InFileOrder(o, shnum)
      requires o.symtabIndex < |o.sections| && shoff == o.hdr.shoff && symoff == SymOff(o)
      modifies file
      ensures file.content == Save(old(file.content), o)
    {
      EhdrWrittenAlike(host, o.hdr);
      ShdrTableWrittenAlike(host, shtable[..shnum], o.sections);
      SymTableWrittenAlike(host, symtable[..], o.symbols);
      file.Seek(0);
      file.Write(EhdrImage(host, elfhdr));
      file.Seek(shoff);
      file.Write(ShdrTable(host, shtable[..shnum]));
      file.Seek(symoff);
      file.Write(SymTable(host, symtable[..]));
    }

    /**
      The second half of supprime_sh: everything is swapped if the host needs it,
      header, section table and symbol table are written, everything is swapped back.
     */
    method WriteTables(file: Stream)
      requires Valid()
      modifies this`elfhdr, shtable, symtable, file
      ensures elfhdr == old(elfhdr) && shtable[..] == old(shtable[..]) && symtable[..] == old(symtable[..])
      ensures file.content == Save(old(file.content), Value())
    {
      ghost var o := Value();
      var shoff, shnum := elfhdr.shoff, elfhdr.shnum;
      var symoff := shtable[symtabIndex].offset;
      assert shtable[..] == shtable[..shnum] + shtable[shnum..];
      SwapTablesOut(o, shnum);
      WriteImages(file, o, shoff, shnum, symoff);
      SwapTablesBack(o, shnum);
      assert shtable[..] == shtable[..shnum] + shtable[shnum..];
    }

    /** The in-memory part of supprime_sh. */
    method DeleteSection(index: nat)
      requires Valid() && index < elfhdr.shnum && index != symtabIndex
      modifies this`elfhdr, this`symtabIndex, shtable, symtable
      ensures Valid() && Value() == Delete(old(Value()), index)
    {
      ghost var o, cells, n := Value(), shtable[..], elfhdr.shnum;
      assert forall k :: 0 <= k < n ==> shtable[k] == o.sections[k];
      ShiftSections(index);
      ShiftedWithout(cells, index, n);
      assert cells[..n] == o.sections;
      assert shtable[n - 1] == shtable[..][n - 1] == cells[n];
      RenumberHeader(Without(o.sections, index));
      DeleteCoherent(o, index);
    }

    /** The header fields and the links that follow the number of sections. */
    method RenumberHeader(ghost rest: seq<Shdr>)
      requires 0 < elfhdr.shnum <= shtable.Length && shtable[..elfhdr.shnum - 1] == rest
      modifies this`elfhdr, shtable
      ensures elfhdr == old(elfhdr).(shnum := old(elfhdr).shnum - 1,
                                     shstrndx := AsHalf(SectionIndex(shStrtab, rest, DOT_SHSTRTAB)))
      ensures shtable[..elfhdr.shnum] == Relink(shStrtab, rest, symtabIndex)
      ensures forall k :: elfhdr.shnum <= k < shtable.Length ==> shtable[k] == old(shtable[k])
    {
      elfhdr := elfhdr.(shnum := elfhdr.shnum - 1);
      var names := GetSectionIndex(DOT_SHSTRTAB);
      elfhdr := elfhdr.(shstrndx := AsHalf(names));
      MetAJourShlink();
    }

    method SupprimeSh(file: Stream, index: nat)
      requires Valid() && index < elfhdr.shnum && index != symtabIndex
      modifies this`elfhdr, this`symtabIndex, shtable, symtable, file
      ensures Valid() && Value() == Delete(old(Value()), index)
      ensures file.content == Save(old(file.content), Value())
    {
      DeleteSection(index);
      WriteTables(file);
    }

    method SupprimeRelSections(dest: Stream)
      requires Valid()
      modifies this`elfhdr, this`symtabIndex, shtable, symtable, dest
      ensures Valid() && Value() == StripFrom(old(Value()), 0)
      ensures dest.content == StripFile(old(dest.content), old(Value()), 0)
    {
      ghost var o, c := Value(), dest.content;
      var i := 0;
      while i < elfhdr.shnum
        invariant Valid() && 0 <= i
        invariant StripFrom(Value(), i) == StripFrom(o, 0)
        invariant StripFile(dest.content, Value(), i) == StripFile(c, o, 0)
        decreases elfhdr.shnum - i
      {
        ghost var before := Value();
        if shtable[i].stype == SHT_REL {
          assert IsRel(before.sections[i]);
          SupprimeSh(dest, i);
          i := i - 1;
        } else {
          assert !IsRel(before.sections[i]);
        }
        i := i + 1;
      }
    }

    /** fwrite_sh_addr_test_data. */
    method FwriteShAddr(file: Stream, b: Bases)
      requires Valid() && HasTextAndData(Value())
      modifies shtable, file
      ensures Valid() && Value() == WithAddresses(old(Value()), b)
      ensures file.content == SaveSections(old(file.content), Value())
    {
      ghost var o := Value();
      var text := GetSectionIndex(DOT_TEXT);
      shtable[text] := shtable[text].(addr := b.text);
      SameNamesIndex(shStrtab, o.sections, shtable[..elfhdr.shnum], DOT_DATA);
      var data := GetSectionIndex(DOT_DATA);
      shtable[data] := shtable[data].(addr := b.data);
      assert Value() == WithAddresses(o, b);
      WriteSections(file);
      assert shtable[..elfhdr.shnum] == WithAddresses(o, b).sections;
    }

    /** The loop of corriger_symboles. */
    method RebaseSymbols(b: Bases)
      requires Valid()
      modifies symtable
      ensures Valid() && Value() == Rebased(old(Value()), b)
    {
      ghost var o := Value();
      var count := shtable[symtabIndex].size / 16;
      for i := 0 to count
        invariant forall j :: 0 <= j < i ==> symtable[j] == o.symbols[j].(value := Address(o, o.symbols[j], b))
        invariant forall j :: i <= j < symtable.Length ==> symtable[j] == o.symbols[j]
      {
        var sectionIndex := symtable[i].shndx;
        if sectionIndex == SHN_UNDEF || sectionIndex == SHN_ABS {
          continue;
        }
        var text := GetSectionIndex(DOT_TEXT);
        if sectionIndex == text {
          symtable[i] := symtable[i].(value := AddWord(symtable[i].value, b.text));
        }
        var data := GetSectionIndex(DOT_DATA);
        if sectionIndex == data {
          symtable[i] := symtable[i].(value := AddWord(symtable[i].value, b.data));
        }
      }
      assert symtable[..] == Rebased(o, b).symbols;
    }

    method CorrigerSymboles(dest: Stream, b: Bases)
      requires Valid()
      modifies symtable, dest
      ensures Valid() && Value() == Rebased(old(Value()), b)
      ensures dest.content == SaveSymbols(old(dest.content), Value())
    {
      RebaseSymbols(b);
      WriteSymbols(dest);
    }

    /** The part of appliquer_relocations that finds the absolute address of a symbol. */
    method AbsoluteAddress(symbol: Sym, b: Bases) returns (address: word)
      requires elfhdr.shnum <= shtable.Length
      ensures address == Address(Value(), symbol, b)
    {
      address := symbol.value;
      if symbol.shndx != SHN_ABS && symbol.shndx != SHN_UNDEF {
        var text := GetSectionIndex(DOT_TEXT);
        if text == symbol.shndx {
          address := AddWord(address, b.text);
        }
        var data := GetSectionIndex(DOT_DATA);
        if data == symbol.shndx {
          address := AddWord(address, b.data);
        }
      }
    }

    /** fread of a word, put in the order of the host. */
    method ReadWord(file: Stream, at: nat) returns (w: word)
      requires at + 4 <= |file.content|
      modifies file`pos
      ensures w == WordAt(file.content, at)
    {
      file.Seek(at);
      var s := file.Read(4);
      w := WordIn(host, s);
      if host.LittleEndian? {
        w := Reverse4(w);
      }
      WordReadAlike(host, s);
    }

    /** The word in file order, then fwrite. */
    method WriteWord(file: Stream, at: nat, w: word)
      modifies file
      ensures file.content == Overwrite(old(file.content), at, WordBytes(w))
    {
      WordWrittenAlike(host, w);
      var held := if host.LittleEndian? then Reverse4(w) else w;
      file.Seek(at);
      file.Write(WordImage(host, held));
    }

    /** One turn of the inner loop of appliquer_relocations. */
    method ApplyRelocation(source: Stream, dest: Stream, r: Rel, b: Bases)
      requires elfhdr.shnum <= shtable.Length && source != dest
      requires Applicable(Value(), |source.content|, r)
      modifies source`pos, dest
      ensures
        var p := PatchFor(source.content, Value(), r, b);
        dest.content == Overwrite(old(dest.content), p.at, p.bytes)
    {
      var symbol := symtable[r.SymIndex()];
      var target := shtable[symbol.shndx];
      assert target == Value().sections[symbol.shndx];
      var address := AbsoluteAddress(symbol, b);
      var at := AddWord(target.offset, r.offset);
      var current := ReadWord(source, at);
      var t := r.Type();
      if t == R_ARM_ABS32 {
        current := AddWord(current, address);
      } else if t == R_ARM_ABS16 {
        current := AddWord(address, current) % 0x1_0000;
      } else if t == R_ARM_ABS8 {
        current := AddWord(address, current) % 0x100;
      } else if t == R_ARM_JUMP24 || t == R_ARM_CALL {
        current := AddWord(current, SubWord(address, r.offset));
      } else {
        return;
      }
      WriteWord(dest, at, current);
    }

    /** The same turn, as patch k of a run. */
    method ApplyNext(source: Stream, dest: Stream, r: Rel, b: Bases, ghost c: seq<byte>, ghost ps: seq<Patch>, ghost k: nat)
      requires elfhdr.shnum <= shtable.Length && source != dest
      requires Applicable(Value(), |source.content|, r) && AllFit(ps, |c|)
      requires k < |ps| && ps[k] == PatchFor(source.content, Value(), r, b)
      requires dest.content == PatchAll(c, ps, k)
      modifies source`pos, dest
      ensures dest.content == PatchAll(c, ps, k + 1)
    {
      ApplyRelocation(source, dest, r, b);
    }

    /** The loop over one relocation table; the first done patches of ps are already written. */
    method ApplyTable(source: Stream, dest: Stream, rels: seq<Rel>, b: Bases,
                      ghost c: seq<byte>, ghost ps: seq<Patch>, ghost done: nat)
      requires elfhdr.shnum <= shtable.Length && source != dest
      requires AllApplicable(Value(), |source.content|, rels) && AllFit(ps, |c|)
      requires StandsAt(Patches(source.content, Value(), rels, b), ps, done)
      requires dest.content == PatchAll(c, ps, done)
      modifies source`pos, dest
      ensures dest.content == PatchAll(c, ps, done + |rels|)
    {
      for j := 0 to |rels|
        invariant dest.content == PatchAll(c, ps, done + j)
      {
        StandsThere(Patches(source.content, Value(), rels, b), ps, done, j);
        ApplyNext(source, dest, rels[j], b, c, ps, done + j);
      }
    }

    /** The two loops of appliquer_relocations; table i writes the patches from starts[i] on. */
    method ApplyTables(source: Stream, dest: Stream, b: Bases, ghost ps: seq<Patch>, ghost starts: seq<nat>)
      requires elfhdr.shnum <= shtable.Length && source != dest && AllFit(ps, |dest.content|)
      requires Starts(source.content, Value(), reltab, b, ps, starts)
      modifies source`pos, dest
      ensures dest.content == PatchAll(old(dest.content), ps, |ps|)
    {
      ghost var c := dest.content;
      for i := 0 to |reltab|
        invariant dest.content == PatchAll(c, ps, starts[i])
      {
        ghost var done, next := starts[i], starts[i + 1];
        assert Turn(source.content, Value(), reltab[i], b, ps, done, next);
        if reltab[i].relType != SHT_REL {
          continue;
        }
        ApplyTable(source, dest, reltab[i].rels, b, c, ps, done);
        assert next == done + |reltab[i].rels|;
      }
    }

    method AppliquerRelocations(source: Stream, dest: Stream, b: Bases)
      requires Valid() && HasTextAndData(Value()) && source != dest
      requires InFile(Value(), |source.content|) && |dest.content| == |source.content|
      requires AllApplicable(Value(), |source.content|, Entries(reltab, |reltab|))
      modifies shtable, source`pos, dest
      ensures Valid() && Value() == WithAddresses(old(Value()), b)
      ensures AllApplicable(Value(), |source.content|, Entries(reltab, |reltab|))
      ensures
        var rels, c := Entries(reltab, |reltab|), SaveSections(old(dest.content), Value());
        && |c| == |source.content|
        && dest.content == PatchAll(c, Patches(source.content, Value(), rels, b), |rels|)
    {
      ghost var rels := Entries(reltab, |reltab|);
      AddressesKeepPlaces(Value(), b, |source.content|, rels);
      FwriteShAddr(dest, b);
      ghost var starts := TableStarts(source.content, Value(), reltab, b);
      ApplyTables(source, dest, b, Patches(source.content, Value(), rels, b), starts);
    }
  }
}
