/**
  The readers of my_elf.c and the -R branch of my_readelf.c: read an object,
  copy it, relocate, rebase the symbols and strip.
 */
module MyReadelf {
  import opened Words
  import opened Elf
  import opened FileModel
  import opened Stripping
  import opened ElfFile
  import opened Relocation
  import opened MyElf
  import opened StripRun

  const BASES := Bases(0x20, 0x2800)

  lemma MembersStep(host: Host, ws: seq<Width>, c: seq<byte>, p: nat)
    requires ws != [] && p + LayoutSize(ws) <= |c|
    ensures
      var n := ws[0].Size();
      && LayoutSize(ws) == n + LayoutSize(ws[1..])
      && Members(host, ws, c[p..p + LayoutSize(ws)])
         == [FieldOf(host, ws[0], c[p..p + n])] + Members(host, ws[1..], c[p + n..p + n + LayoutSize(ws[1..])])
  {
    var n, s := ws[0].Size(), c[p..p + LayoutSize(ws)];
    assert s[..n] == c[p..p + n];
    assert s[n..] == c[p + n..p + n + LayoutSize(ws[1..])];
  }

  /** A run of read_Half, read_Word, ... calls: one fread for each member. */
  method ReadMembers(file: Stream, host: Host, ws: seq<Width>) returns (fs: seq<Field>)
    requires file.pos + LayoutSize(ws) <= |file.content|
    modifies file`pos
    ensures file.pos == old(file.pos) + LayoutSize(ws)
    ensures fs == Members(host, ws, file.content[old(file.pos)..old(file.pos) + LayoutSize(ws)])
    decreases |ws|
  {
    if ws == [] {
      return [];
    }
    MembersStep(host, ws, file.content, file.pos);
    var part := file.Read(ws[0].Size());
    var rest := ReadMembers(file, host, ws[1..]);
    fs := [FieldOf(host, ws[0], part)] + rest;
  }

  lemma HeaderParts(host: Host, c: seq<byte>)
    requires |c| >= EHDR_SIZE
    ensures EhdrIn(host, c[..52]) == FileEhdr(host, EhdrOf(c[0..16], EhdrMembers(host, c[16..52])))
  {
    EhdrInFileOrder(host, c[0..16], EhdrMembers(host, c[16..52]));
    assert c[..52][..16] == c[0..16] && c[..52][16..] == c[16..52];
  }

  /** The thirteen members after e_ident. */
  method ReadHeaderMembers(file: Stream, host: Host) returns (fs: seq<Field>)
    requires file.pos == 16 && 52 <= |file.content|
    modifies file`pos
    ensures fs == EhdrMembers(host, file.content[16..52])
  {
    EhdrLayoutSize();
    fs := ReadMembers(file, host, EHDR_LAYOUT);
  }

  method ReadHeader(file: Stream, host: Host) returns (r: Option<Ehdr>)
    requires file.pos == 0
    modifies file`pos
    ensures r == if |file.content| < EHDR_SIZE then None else Some(EhdrIn(host, file.content[..52]))
  {
    if |file.content| < EHDR_SIZE {
      return None;
    }
    HeaderParts(host, file.content);
    var ident := file.Read(EI_NIDENT);
    var fields := ReadHeaderMembers(file, host);
    var hdr := EhdrOf(ident, fields);
    if host.LittleEndian? {
      hdr := SwapEhdr(hdr);
    }
    r := Some(hdr);
  }

  const NO_SECTION := Shdr(0, 0, 0, 0, 0, 0, 0, 0, 0, 0)

  /** The headers of a table as fread leaves them in memory. */
  function RawShdrs(host: Host, c: seq<byte>, off: nat, n: nat): seq<Shdr>
    requires off + 40 * n <= |c|
  {
    seq(n, i requires 0 <= i < n => RawShdr(host, c[off + 40 * i..off + 40 * i + 40]))
  }

  lemma EntryOfTable(host: Host, c: seq<byte>, off: nat, n: nat, i: nat)
    requires i < n && off + 40 * n <= |c|
    ensures RawShdr(host, c[off..off + 40 * n][40 * i..40 * i + 40]) == RawShdrs(host, c, off, n)[i]
  {
    SliceOfSlice(c, off, 40 * n, 40 * i, 40);
  }

  /** The fread of read_shtable, and the cell that the last shift of a deletion reads. */
  method FreadShtable(file: Stream, host: Host, off: nat, n: nat) returns (shtable: array<Shdr>)
    requires off + 40 * n <= |file.content|
    modifies file`pos
    ensures fresh(shtable) && shtable.Length == n + 1 && shtable[n] == NO_SECTION
    ensures shtable[..n] == RawShdrs(host, file.content, off, n)
  {
    ghost var raw := RawShdrs(host, file.content, off, n);
    file.Seek(off);
    var bytes := file.Read(40 * n);
    assert bytes == file.content[off..off + 40 * n];
    shtable := new Shdr[n + 1](_ => NO_SECTION);
    for i := 0 to n
      invariant shtable[n] == NO_SECTION && shtable[..i] == raw[..i]
    {
      EntryOfTable(host, file.content, off, n, i);
      shtable[i] := RawShdr(host, bytes[40 * i..40 * i + 40]);
      assert shtable[i] == raw[i];
    }
  }

  /** swap_endianess_shtable on what fread left of a header. */
  method SwapRead(host: Host, raw: Shdr, ghost s: seq<byte>) returns (header: Shdr)
    requires host.LittleEndian? && |s| == 40 && raw == RawShdr(host, s)
    ensures header == ShdrIn(host, s)
  {
    RawShdrSwapped(host, s);
    header := SwapShdr(raw);
  }

  /** Big-endian hosts need no swap. */
  lemma BigEndianTable(c: seq<byte>, off: nat, n: nat)
    requires off + 40 * n <= |c|
    ensures RawShdrs(BigEndian, c, off, n) == ShdrsIn(BigEndian, c, off, n)
  {
    forall i | 0 <= i < n { RawShdrSwapped(BigEndian, c[off + 40 * i..off + 40 * i + 40]); }
  }

  /** read_shtable: the fread and, if the host needs it, one swap for each header. */
  method ReadShtable(file: Stream, host: Host, hdr: Ehdr) returns (shtable: array<Shdr>)
    requires hdr.shoff + 40 * hdr.shnum <= |file.content|
    modifies file`pos
    ensures fresh(shtable) && shtable.Length == hdr.shnum + 1
    ensures shtable[..hdr.shnum] == ShdrsIn(host, file.content, hdr.shoff, hdr.shnum)
    ensures shtable[hdr.shnum].stype != SHT_SYMTAB
  {
    var off, n := hdr.shoff, hdr.shnum;
    shtable := FreadShtable(file, host, off, n);
    if host.BigEndian? {
      BigEndianTable(file.content, off, n);
      return;
    }
    ghost var raw, stored := RawShdrs(host, file.content, off, n), ShdrsIn(host, file.content, off, n);
    for i := 0 to n
      invariant shtable[n] == NO_SECTION
      invariant shtable[..i] == stored[..i] && shtable[i..n] == raw[i..]
    {
      ghost var entry := file.content[off + 40 * i..off + 40 * i + 40];
      assert shtable[i] == raw[i] == RawShdr(host, entry);
      var header := SwapRead(host, shtable[i], entry);
      assert header == stored[i];
      shtable[i] := header;
    }
  }

  /** The search of read_symtable. */
  method FindSymtab(hdr: Ehdr, shtable: array<Shdr>) returns (symtabIndex: nat)
    requires hdr.shnum <= shtable.Length
    ensures symtabIndex == FirstSymtab(shtable[..hdr.shnum], 0)
  {
    symtabIndex := 0;
    while symtabIndex < hdr.shnum && shtable[symtabIndex].stype != SHT_SYMTAB
      invariant symtabIndex <= hdr.shnum
      invariant forall k :: 0 <= k < symtabIndex ==> shtable[..hdr.shnum][k].stype != SHT_SYMTAB
    {
      symtabIndex := symtabIndex + 1;
    }
  }

  /** One turn of the loop of read_symtable: the fread and, if the host needs it, the swap. */
  method ReadSymbol(file: Stream, host: Host) returns (symbol: Sym)
    requires file.pos + 16 <= |file.content|
    modifies file`pos
    ensures file.pos == old(file.pos) + 16
    ensures symbol == SymIn(host, file.content[old(file.pos)..old(file.pos) + 16])
  {
    var bytes := file.Read(16);
    symbol := RawSym(host, bytes);
    RawSymSwapped(host, bytes);
    if host.LittleEndian? {
      symbol := SwapSym(symbol);
    }
  }

  method ReadSymbols(file: Stream, host: Host, off: nat, count: nat) returns (symtable: array<Sym>)
    requires off + 16 * count <= |file.content|
    modifies file`pos
    ensures fresh(symtable) && symtable[..] == SymsIn(host, file.content, off, count)
  {
    ghost var stored := SymsIn(host, file.content, off, count);
    file.Seek(off);
    symtable := new Sym[count](_ => Sym(0, 0, 0, 0, 0, 0));
    for i := 0 to count
      invariant file.pos == off + 16 * i
      invariant symtable[..i] == stored[..i]
    {
      var symbol := ReadSymbol(file, host);
      assert symbol == stored[i];
      symtable[i] := symbol;
    }
  }

  function RawRels(host: Host, c: seq<byte>, off: nat, n: nat): seq<Rel>
    requires off + 8 * n <= |c|
  {
    seq(n, i requires 0 <= i < n => RawRel(host, c[off + 8 * i..off + 8 * i + 8]))
  }

  lemma RelOfTable(host: Host, c: seq<byte>, off: nat, size: nat, n: nat, j: nat)
    requires j < n && 8 * n <= size && off + size <= |c|
    ensures RawRel(host, c[off..off + size][8 * j..8 * j + 8]) == RawRels(host, c, off, n)[j]
  {
    SliceOfSlice(c, off, size, 8 * j, 8);
  }

  /** The fread of one relocation table. */
  method FreadRels(file: Stream, host: Host, off: nat, size: nat) returns (rel: array<Rel>)
    requires off + size <= |file.content|
    modifies file`pos
    ensures fresh(rel) && rel[..] == RawRels(host, file.content, off, size / 8)
  {
    var count := size / 8;
    ghost var raw := RawRels(host, file.content, off, count);
    file.Seek(off);
    var bytes := file.Read(size);
    rel := new Rel[count](_ => Rel(0, 0));
    for j := 0 to count
      invariant rel[..j] == raw[..j]
    {
      RelOfTable(host, file.content, off, size, count, j);
      rel[j] := RawRel(host, bytes[8 * j..8 * j + 8]);
      assert rel[j] == raw[j];
    }
  }

  /** One turn of swap_endianess_rel. */
  method SwapRelRead(host: Host, raw: Rel, ghost s: seq<byte>) returns (entry: Rel)
    requires |s| == 8 && raw == RawRel(host, s)
    ensures entry == RelIn(host, s)
  {
    RawRelSwapped(host, s);
    entry := SwapRel(raw);
  }

  /** The fread and swap_endianess_rel, which swaps on every host. */
  method ReadRels(file: Stream, host: Host, off: nat, size: nat) returns (rels: seq<Rel>)
    requires off + size <= |file.content|
    modifies file`pos
    ensures rels == RelsIn(host, file.content, off, size / 8)
  {
    var rel := FreadRels(file, host, off, size);
    ghost var raw, stored := rel[..], RelsIn(host, file.content, off, size / 8);
    for j := 0 to rel.Length
      invariant rel[..j] == stored[..j] && rel[j..] == raw[j..]
    {
      ghost var s := file.content[off + 8 * j..off + 8 * j + 8];
      assert rel[j] == raw[j] == RawRel(host, s);
      var entry := SwapRelRead(host, rel[j], s);
      assert entry == stored[j];
      rel[j] := entry;
    }
    rels := rel[..];
  }

  function RawRelas(host: Host, c: seq<byte>, off: nat, n: nat): seq<Rela>
    requires off + 12 * n <= |c|
  {
    seq(n, i requires 0 <= i < n => RawRela(host, c[off + 12 * i..off + 12 * i + 12]))
  }

  lemma RelaOfTable(host: Host, c: seq<byte>, off: nat, size: nat, n: nat, j: nat)
    requires j < n && 12 * n <= size && off + size <= |c|
    ensures RawRela(host, c[off..off + size][12 * j..12 * j + 12]) == RawRelas(host, c, off, n)[j]
  {
    SliceOfSlice(c, off, size, 12 * j, 12);
  }

  /** The fread of a table of entries with addends, counted in entries of 8 bytes. */
  method FreadRelas(file: Stream, host: Host, off: nat, size: nat) returns (rela: array<Rela>)
    requires off + size <= |file.content| && 12 * (size / 8) <= size
    modifies file`pos
    ensures fresh(rela) && rela[..] == RawRelas(host, file.content, off, size / 8)
  {
    var count := size / 8;
    ghost var raw := RawRelas(host, file.content, off, count);
    file.Seek(off);
    var bytes := file.Read(size);
    rela := new Rela[count](_ => Rela(0, 0, 0));
    for j := 0 to count
      invariant rela[..j] == raw[..j]
    {
      RelaOfTable(host, file.content, off, size, count, j);
      rela[j] := RawRela(host, bytes[12 * j..12 * j + 12]);
      assert rela[j] == raw[j];
    }
  }

  /** One turn of swap_endianess_rela. */
  method SwapRelaRead(host: Host, raw: Rela, ghost s: seq<byte>) returns (entry: Rela)
    requires |s| == 12 && raw == RawRela(host, s)
    ensures entry == RelaIn(host, s)
  {
    RawRelaSwapped(host, s);
    entry := SwapRela(raw);
  }

  /** The fread and swap_endianess_rela, which swaps on every host. */
  method ReadRelas(file: Stream, host: Host, off: nat, size: nat) returns (relas: seq<Rela>)
    requires off + size <= |file.content| && 12 * (size / 8) <= size
    modifies file`pos
    ensures relas == RelasIn(host, file.content, off, size / 8)
  {
    var rela := FreadRelas(file, host, off, size);
    ghost var raw, stored := rela[..], RelasIn(host, file.content, off, size / 8);
    for j := 0 to rela.Length
      invariant rela[..j] == stored[..j] && rela[j..] == raw[j..]
    {
      ghost var s := file.content[off + 12 * j..off + 12 * j + 12];
      assert rela[j] == raw[j] == RawRela(host, s);
      var entry := SwapRelaRead(host, rela[j], s);
      assert entry == stored[j];
      rela[j] := entry;
    }
    relas := rela[..];
  }

  method ReadReltab(file: Stream, host: Host, hdr: Ehdr, shtable: array<Shdr>) returns (entries: seq<RelEntry>)
    requires hdr.shnum <= shtable.Length
    requires RelTablesInFile(shtable[..hdr.shnum], |file.content|)
    modifies file`pos
    ensures entries == Reltab(host, file.content, shtable[..hdr.shnum], hdr.shnum)
  {
    entries := [];
    ghost var sections := shtable[..hdr.shnum];
    for i := 0 to hdr.shnum
      invariant entries == Reltab(host, file.content, sections, i)
    {
      var s := shtable[i];
      assert s == sections[i] && Readable(s, |file.content|);
      if s.stype != SHT_REL && s.stype != SHT_RELA {
        continue;
      }
      var rels, relas := [], [];
      if s.stype == SHT_REL {
        rels := ReadRels(file, host, s.offset, s.size);
      } else {
        relas := ReadRelas(file, host, s.offset, s.size);
      }
      entries := entries + [RelEntry(i, s.stype % 0x100, rels, relas)];
    }
  }

  /** The rest of read_strtab once the section is known; a short read keeps what there is. */
  method ReadStrtab(file: Stream, section: Shdr) returns (strtab: seq<byte>)
    modifies file`pos
    ensures strtab == StrtabIn(file.content, section)
  {
    file.Seek(section.offset);
    strtab := file.Read(section.size);
  }

  function StrtabIn(c: seq<byte>, section: Shdr): seq<byte> {
    if section.offset >= |c| then []
    else if section.offset + section.size <= |c| then c[section.offset..section.offset + section.size]
    else c[section.offset..]
  }

  /** copy_file. */
  method CopyFile(source: Stream, dest: Stream)
    requires source != dest && dest.pos == 0 && dest.content == []
    modifies source`pos, dest
    ensures dest.content == source.content && source.pos == 0 && dest.pos == 0
  {
    source.Seek(0);
    var buffer := source.Read(|source.content|);
    dest.Write(buffer);
    source.Seek(0);
    dest.Seek(0);
  }

  /** The relocation entries of a file, as this host reads them. */
  function EntriesOf(host: Host, c: seq<byte>, o: Object): seq<Rel>
    requires RelTablesInFile(o.sections, |c|)
  {
    var tables := Reltab(host, c, o.sections, |o.sections|);
    Entries(tables, |tables|)
  }

  /** The parts of o are what the calls below read, one after the other. */
  predicate Stored(host: Host, c: seq<byte>, o: Object) {
    && EHDR_SIZE <= |c| && o.hdr == EhdrIn(host, c[..52])
    && o.hdr.shoff + 40 * o.hdr.shnum <= |c|
    && o.sections == ShdrsIn(host, c, o.hdr.shoff, o.hdr.shnum)
    && o.hdr.shstrndx < |o.sections|
    && NamesOff(o) + o.sections[o.hdr.shstrndx].size <= |c|
    && o.names == c[NamesOff(o)..NamesOff(o) + o.sections[o.hdr.shstrndx].size]
    && o.symtabIndex == FirstSymtab(o.sections, 0) < |o.sections|
    && SymOff(o) + 16 * (o.sections[o.symtabIndex].size / 16) <= |c|
    && o.symbols == SymsIn(host, c, SymOff(o), o.sections[o.symtabIndex].size / 16)
  }

  lemma ReadObjectStored(host: Host, c: seq<byte>, o: Object)
    requires ReadObject(host, c) == Some(o)
    ensures Stored(host, c, o)
  {
    assert c[..52] == c[..EHDR_SIZE];
  }

  /**
    A file that the program can serve with -R: it holds the object o, relocation
    tables that can be read, a .strtab, and what Processable asks for.
   */
  predicate Strippable(host: Host, c: seq<byte>, o: Object) {
    && ReadObject(host, c) == Some(o) && Coherent(o)
    && Loadable(c, o)
    && Processable(c, o, EntriesOf(host, c, o))
  }

  predicate Loadable(c: seq<byte>, o: Object) {
    && RelTablesInFile(o.sections, |c|)
    && SectionIndex(o.names, o.sections, DOT_STRTAB) >= 0
  }

  /** The sections that sh_info gives for these entries. */
  function TargetsOf(host: Host, c: seq<byte>, o: Object): seq<nat>
    requires RelTablesInFile(o.sections, |c|)
  {
    var tables := Reltab(host, c, o.sections, |o.sections|);
    ReltabSections(host, c, o.sections, |o.sections|);
    Targets(o, tables, |tables|)
  }

  /**
    For a file whose symbols and sh_info agree on the patched sections, -R relocates
    as the ABI asks: in the destination it leaves, the word that each supported entry
    means in the section of sh_info holds its new value.
   */
  lemma RelocatesAsAsked(host: Host, c: seq<byte>, o: Object)
    requires Strippable(host, c, o) && Independent(o, EntriesOf(host, c, o))
    requires TargetsApplicable(o, |c|, EntriesOf(host, c, o), TargetsOf(host, c, o))
    requires AllCoincide(o, |c|, EntriesOf(host, c, o), TargetsOf(host, c, o))
    ensures
      var rels, targets := EntriesOf(host, c, o), TargetsOf(host, c, o);
      var d := FinalFile(c, o, rels, BASES);
      forall j :: 0 <= j < |rels| && Supported(rels[j]) ==>
        var p := PlaceIn(o, targets[j], rels[j]);
        |d| == |c| && WordAt(d, p) == NewWord(o, rels[j], WordAt(c, p), BASES)
  {
    var rels, targets := EntriesOf(host, c, o), TargetsOf(host, c, o);
    forall j | 0 <= j < |rels| && Supported(rels[j]) { FinalWordInTarget(c, o, rels, targets, BASES, j); }
  }

  /** read_header, read_shtable and the two calls of read_strtab. */
  method LoadSections(file: Stream, host: Host, ghost o: Object)
      returns (hdr: Ehdr, shtable: array<Shdr>, names: seq<byte>, symbolNames: seq<byte>)
    requires Stored(host, file.content, o) && Loadable(file.content, o) && file.pos == 0
    modifies file`pos
    ensures hdr == o.hdr && names == o.names
    ensures fresh(shtable) && shtable.Length == hdr.shnum + 1 && shtable[hdr.shnum].stype != SHT_SYMTAB
    ensures shtable[..hdr.shnum] == o.sections
    ensures symbolNames == StrtabIn(file.content, o.sections[SectionIndex(o.names, o.sections, DOT_STRTAB)])
  {
    var header := ReadHeader(file, host);
    hdr := header.value;
    shtable := ReadShtable(file, host, hdr);
    ghost var sections := shtable[..hdr.shnum];
    assert sections == o.sections && shtable[hdr.shstrndx] == sections[hdr.shstrndx];
    names := ReadStrtab(file, shtable[hdr.shstrndx]);
    assert names == o.names;
    var strtabIndex := FindSection(names, shtable, hdr.shnum, DOT_STRTAB);
    assert shtable[strtabIndex] == sections[strtabIndex];
    symbolNames := ReadStrtab(file, shtable[strtabIndex]);
  }

  /** The calls that load the object before -R is served. */
  method Load(file: Stream, host: Host, ghost o: Object) returns (elf: Elf32)
    requires Stored(host, file.content, o) && Coherent(o) && Loadable(file.content, o) && file.pos == 0
    modifies file`pos
    ensures fresh(elf) && fresh(elf.shtable) && fresh(elf.symtable)
    ensures elf.Valid() && elf.Value() == o
    ensures elf.symStrtab == StrtabIn(file.content, o.sections[SectionIndex(o.names, o.sections, DOT_STRTAB)])
    ensures elf.reltab == Reltab(host, file.content, o.sections, |o.sections|)
  {
    var hdr, shtable, names, symbolNames := LoadSections(file, host, o);
    assert forall k :: 0 <= k < hdr.shnum ==> shtable[k] == o.sections[k];
    var symtabIndex := FindSymtab(hdr, shtable);
    var symtab := shtable[symtabIndex];
    var symtable := ReadSymbols(file, host, symtab.offset, symtab.size / 16);
    var reltab := ReadReltab(file, host, hdr, shtable);
    elf := new Elf32(host, hdr, shtable, symtable, names, symbolNames, reltab, symtabIndex);
  }

  /**
    The -R branch. The destination is what FinalFile says, and reading it on any
    host gives back exactly the object the program holds when it ends.
   */
  method Strip(source: Stream, dest: Stream, host: Host, ghost o: Object) returns (elf: Elf32)
    requires source != dest && source.pos == 0 && dest.pos == 0 && dest.content == []
    requires Strippable(host, source.content, o)
    modifies source`pos, dest
    ensures fresh(elf) && fresh(elf.shtable) && fresh(elf.symtable)
    ensures elf.Valid() && elf.Value() == FinalObject(o, BASES)
    ensures dest.content == FinalFile(source.content, o, EntriesOf(host, source.content, o), BASES)
    ensures forall reader: Host :: ReadObject(reader, dest.content) == Some(elf.Value())
  {
    ReadObjectStored(host, source.content, o);
    elf := Load(source, host, o);
    CopyFile(source, dest);
    RelocatedCoherent(o, BASES);
    elf.AppliquerRelocations(source, dest, BASES);
    elf.CorrigerSymboles(dest, BASES);
    elf.SupprimeRelSections(dest);
    RereadGivesMemory(host, source.content, o, EntriesOf(host, source.content, o), BASES);
  }
}
