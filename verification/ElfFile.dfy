/**
  An object file and the object a program holds for it: what reading gives,
  what saving writes, and the file a deletion run leaves.
 */
module ElfFile {
  import opened Words
  import opened Elf
  import opened FileModel
  import opened Stripping

  datatype Option<T> = None | Some(value: T)

  function FirstSymtab(sections: seq<Shdr>, i: nat): (r: nat)
    requires i <= |sections|
    ensures i <= r <= |sections|
    ensures r < |sections| ==> sections[r].stype == SHT_SYMTAB
    ensures forall k :: i <= k < r ==> sections[k].stype != SHT_SYMTAB
    decreases |sections| - i
  {
    if i == |sections| || sections[i].stype == SHT_SYMTAB then i else FirstSymtab(sections, i + 1)
  }

  /** Where the three parts of an object lie in its file. */
  predicate InFile(o: Object, len: nat) {
    && EHDR_SIZE <= len
    && o.hdr.shnum == |o.sections|
    && o.hdr.shoff + 40 * |o.sections| <= len
    && o.symtabIndex < |o.sections|
    && SymOff(o) + 16 * |o.symbols| <= len
  }

  function SymOff(o: Object): nat
    requires o.symtabIndex < |o.sections|
  {
    o.sections[o.symtabIndex].offset
  }

  /** Reading the three parts of the file c gives o. */
  predicate Reflects(c: seq<byte>, o: Object) {
    && InFile(o, |c|)
    && EhdrIn(BigEndian, c[..EHDR_SIZE]) == o.hdr
    && ShdrsIn(BigEndian, c, o.hdr.shoff, |o.sections|) == o.sections
    && SymsIn(BigEndian, c, SymOff(o), |o.symbols|) == o.symbols
  }

  /** Header, section table and symbol table do not overlap. */
  predicate Spaced(o: Object)
    requires o.symtabIndex < |o.sections|
  {
    && Apart(0, EHDR_SIZE, o.hdr.shoff, 40 * |o.sections|)
    && Apart(0, EHDR_SIZE, SymOff(o), 16 * |o.symbols|)
    && Apart(o.hdr.shoff, 40 * |o.sections|, SymOff(o), 16 * |o.symbols|)
  }

  /** Byte k belongs to none of the three parts. */
  predicate Elsewhere(o: Object, k: nat)
    requires o.symtabIndex < |o.sections|
  {
    && EHDR_SIZE <= k
    && !(o.hdr.shoff <= k < o.hdr.shoff + 40 * |o.sections|)
    && !(SymOff(o) <= k < SymOff(o) + 16 * |o.symbols|)
  }

  function SaveHeader(c: seq<byte>, o: Object): seq<byte> {
    Overwrite(c, 0, EhdrImage(BigEndian, o.hdr))
  }

  function SaveSections(c: seq<byte>, o: Object): seq<byte> {
    Overwrite(c, o.hdr.shoff, ShdrTable(BigEndian, o.sections))
  }

  function SaveSymbols(c: seq<byte>, o: Object): seq<byte>
    requires o.symtabIndex < |o.sections|
  {
    Overwrite(c, SymOff(o), SymTable(BigEndian, o.symbols))
  }

  /** What supprime_sh writes: the header, then the section table, then the symbol table. */
  function Save(c: seq<byte>, o: Object): seq<byte>
    requires o.symtabIndex < |o.sections|
  {
    SaveSymbols(SaveSections(SaveHeader(c, o), o), o)
  }

  lemma SectionsReflected(c: seq<byte>, o: Object)
    requires InFile(o, |c|) && Spaced(o)
    ensures
      var d := SaveSections(c, o);
      && |d| == |c|
      && d[..EHDR_SIZE] == c[..EHDR_SIZE]
      && ShdrsIn(BigEndian, d, o.hdr.shoff, |o.sections|) == o.sections
      && SymsIn(BigEndian, d, SymOff(o), |o.symbols|) == SymsIn(BigEndian, c, SymOff(o), |o.symbols|)
  {
    var s := ShdrTable(BigEndian, o.sections);
    OverwriteHolds(c, o.hdr.shoff, s);
    OverwriteKeeps(c, o.hdr.shoff, s, 0, EHDR_SIZE);
    OverwriteKeeps(c, o.hdr.shoff, s, SymOff(o), 16 * |o.symbols|);
    ShdrTableReadBack(SaveSections(c, o), o.hdr.shoff, o.sections);
    SymsUnmoved(SaveSections(c, o), c, SymOff(o), |o.symbols|);
  }

  lemma SymbolsReflected(c: seq<byte>, o: Object)
    requires InFile(o, |c|) && Spaced(o)
    ensures
      var d := SaveSymbols(c, o);
      && |d| == |c|
      && d[..EHDR_SIZE] == c[..EHDR_SIZE]
      && ShdrsIn(BigEndian, d, o.hdr.shoff, |o.sections|) == ShdrsIn(BigEndian, c, o.hdr.shoff, |o.sections|)
      && SymsIn(BigEndian, d, SymOff(o), |o.symbols|) == o.symbols
  {
    var s := SymTable(BigEndian, o.symbols);
    OverwriteHolds(c, SymOff(o), s);
    OverwriteKeeps(c, SymOff(o), s, 0, EHDR_SIZE);
    OverwriteKeeps(c, SymOff(o), s, o.hdr.shoff, 40 * |o.sections|);
    SymTableReadBack(SaveSymbols(c, o), SymOff(o), o.symbols);
    ShdrsUnmoved(SaveSymbols(c, o), c, o.hdr.shoff, |o.sections|);
  }

  lemma HeaderReflected(c: seq<byte>, o: Object)
    requires EHDR_SIZE <= |c|
    ensures |SaveHeader(c, o)| == |c|
    ensures EhdrIn(BigEndian, SaveHeader(c, o)[..EHDR_SIZE]) == o.hdr
  {
    OverwriteHolds(c, 0, EhdrImage(BigEndian, o.hdr));
    EhdrReadBack(o.hdr);
  }

  lemma SaveReflects(c: seq<byte>, o: Object)
    requires InFile(o, |c|) && Spaced(o)
    ensures |Save(c, o)| == |c| && Reflects(Save(c, o), o)
  {
    var c1 := SaveHeader(c, o);
    HeaderReflected(c, o);
    var c2 := SaveSections(c1, o);
    SectionsReflected(c1, o);
    SymbolsReflected(c2, o);
  }

  lemma SaveElsewhere(c: seq<byte>, o: Object, k: nat)
    requires InFile(o, |c|) && k < |c| && Elsewhere(o, k)
    ensures |Save(c, o)| == |c| && Save(c, o)[k] == c[k]
  {
    var c1 := SaveHeader(c, o);
    OverwriteByte(c, 0, EhdrImage(BigEndian, o.hdr), k);
    var c2 := SaveSections(c1, o);
    OverwriteByte(c1, o.hdr.shoff, ShdrTable(BigEndian, o.sections), k);
    OverwriteByte(c2, SymOff(o), SymTable(BigEndian, o.symbols), k);
  }

  // ----- the file a deletion run leaves -----

  /** The destination after the loop of supprime_rel_sections from index i on. */
  function StripFile(c: seq<byte>, o: Object, i: nat): seq<byte>
    requires Coherent(o)
    decreases |o.sections| - i
  {
    if i >= |o.sections| then c
    else if IsRel(o.sections[i]) then
      DeleteCoherent(o, i);
      StripFile(Save(c, Delete(o, i)), Delete(o, i), i)
    else StripFile(c, o, i + 1)
  }

  lemma DeleteInFile(o: Object, d: nat, len: nat)
    requires Coherent(o) && d < |o.sections| && d != o.symtabIndex
    requires InFile(o, len) && Spaced(o)
    ensures Coherent(Delete(o, d))
    ensures InFile(Delete(o, d), len) && Spaced(Delete(o, d))
    ensures forall k: nat :: Elsewhere(o, k) ==> Elsewhere(Delete(o, d), k)
  {
    DeleteCoherent(o, d);
    assert SymOff(Delete(o, d)) == SymOff(o);
  }

  /** After the whole run the file still reads back as the object in memory. */
  lemma {:induction false} StripFileReflects(c: seq<byte>, o: Object, i: nat)
    requires Coherent(o) && Spaced(o) && Reflects(c, o)
    ensures |StripFile(c, o, i)| == |c| && Reflects(StripFile(c, o, i), StripFrom(o, i))
    decreases |o.sections| - i
  {
    if i < |o.sections| {
      if IsRel(o.sections[i]) {
        var p := Delete(o, i);
        DeleteInFile(o, i, |c|);
        SaveReflects(c, p);
        StripFileReflects(Save(c, p), p, i);
      } else {
        StripFileReflects(c, o, i + 1);
      }
    }
  }

  lemma {:induction false} StripFileElsewhere(c: seq<byte>, o: Object, i: nat, k: nat)
    requires Coherent(o) && Spaced(o) && InFile(o, |c|)
    requires k < |c| && Elsewhere(o, k)
    ensures |StripFile(c, o, i)| == |c| && StripFile(c, o, i)[k] == c[k]
    decreases |o.sections| - i
  {
    if i < |o.sections| {
      if IsRel(o.sections[i]) {
        var p := Delete(o, i);
        DeleteInFile(o, i, |c|);
        SaveElsewhere(c, p, k);
        StripFileElsewhere(Save(c, p), p, i, k);
      } else {
        StripFileElsewhere(c, o, i + 1, k);
      }
    }
  }

  // ----- reading -----

  /** read_symtable, once the section table and the names are in memory. */
  function ReadSymbols(host: Host, c: seq<byte>, hdr: Ehdr, sections: seq<Shdr>, names: seq<byte>): Option<Object> {
    var at := FirstSymtab(sections, 0);
    if at == |sections| then None
    else
      var n := sections[at].size / 16;
      if |c| < sections[at].offset + 16 * n then None
      else Some(Object(hdr, sections, SymsIn(host, c, sections[at].offset, n), names, at))
  }

  /** read_strtab, once the section table is in memory. */
  function ReadNames(host: Host, c: seq<byte>, hdr: Ehdr, sections: seq<Shdr>): Option<Object> {
    if hdr.shstrndx >= |sections| then None
    else
      var table := sections[hdr.shstrndx];
      if |c| < table.offset + table.size then None
      else ReadSymbols(host, c, hdr, sections, c[table.offset..table.offset + table.size])
  }

  /** read_shtable, once the header is in memory. */
  function ReadTables(host: Host, c: seq<byte>, hdr: Ehdr): Option<Object> {
    if hdr.shentsize != SHDR_SIZE || |c| < hdr.shoff + 40 * hdr.shnum then None
    else ReadNames(host, c, hdr, ShdrsIn(host, c, hdr.shoff, hdr.shnum))
  }

  /**
    What read_header, read_shtable, read_strtab and read_symtable leave in memory,
    or None when a read is short or no symbol table is found. A section header
    entry has its ABI size.
   */
  function ReadObject(host: Host, c: seq<byte>): Option<Object> {
    if |c| < EHDR_SIZE then None else ReadTables(host, c, EhdrIn(host, c[..EHDR_SIZE]))
  }

  lemma ReadSymbolsAlike(host: Host, c: seq<byte>, hdr: Ehdr, sections: seq<Shdr>, names: seq<byte>)
    ensures ReadSymbols(host, c, hdr, sections, names) == ReadSymbols(BigEndian, c, hdr, sections, names)
  {
    var at := FirstSymtab(sections, 0);
    if at < |sections| && sections[at].offset + 16 * (sections[at].size / 16) <= |c| {
      SymsReadAlike(host, c, sections[at].offset, sections[at].size / 16);
    }
  }

  lemma ReadNamesAlike(host: Host, c: seq<byte>, hdr: Ehdr, sections: seq<Shdr>)
    ensures ReadNames(host, c, hdr, sections) == ReadNames(BigEndian, c, hdr, sections)
  {
    if hdr.shstrndx < |sections| {
      var table := sections[hdr.shstrndx];
      if table.offset + table.size <= |c| {
        ReadSymbolsAlike(host, c, hdr, sections, c[table.offset..table.offset + table.size]);
      }
    }
  }

  lemma ReadTablesAlike(host: Host, c: seq<byte>, hdr: Ehdr)
    ensures ReadTables(host, c, hdr) == ReadTables(BigEndian, c, hdr)
  {
    if hdr.shoff + 40 * hdr.shnum <= |c| {
      ShdrsReadAlike(host, c, hdr.shoff, hdr.shnum);
      ReadNamesAlike(host, c, hdr, ShdrsIn(BigEndian, c, hdr.shoff, hdr.shnum));
    }
  }

  /** A file means the same object on hosts of both byte orders. */
  lemma ReadAlikeOnHosts(host: Host, c: seq<byte>)
    ensures ReadObject(host, c) == ReadObject(BigEndian, c)
  {
    if |c| >= EHDR_SIZE {
      EhdrReadAlike(host, c[..EHDR_SIZE]);
      ReadTablesAlike(host, c, EhdrIn(BigEndian, c[..EHDR_SIZE]));
    }
  }

  /** The section-name table lies in the file where e_shstrndx says. */
  predicate NamesIn(c: seq<byte>, o: Object) {
    && o.hdr.shstrndx < |o.sections|
    && Holds(c, o.sections[o.hdr.shstrndx].offset, o.names)
    && |o.names| == o.sections[o.hdr.shstrndx].size
  }

  lemma ReadReflects(host: Host, c: seq<byte>)
    requires ReadObject(host, c).Some? && Coherent(ReadObject(host, c).value)
    ensures
      var o := ReadObject(host, c).value;
      Reflects(c, o) && NamesIn(c, o) && o.hdr.shentsize == SHDR_SIZE
  {
    ReadAlikeOnHosts(host, c);
  }

  lemma ReflectsSymbols(c: seq<byte>, o: Object)
    requires Coherent(o) && Reflects(c, o)
    ensures ReadSymbols(BigEndian, c, o.hdr, o.sections, o.names) == Some(o)
  {
    assert FirstSymtab(o.sections, 0) == o.symtabIndex;
    assert o.sections[o.symtabIndex].size / 16 == |o.symbols|;
  }

  lemma ReflectsNames(c: seq<byte>, o: Object)
    requires NamesIn(c, o)
    ensures ReadNames(BigEndian, c, o.hdr, o.sections) == ReadSymbols(BigEndian, c, o.hdr, o.sections, o.names)
  {
  }

  lemma ReflectsTables(c: seq<byte>, o: Object)
    requires Coherent(o) && Reflects(c, o) && NamesIn(c, o) && o.hdr.shentsize == SHDR_SIZE
    ensures ReadTables(BigEndian, c, o.hdr) == ReadSymbols(BigEndian, c, o.hdr, o.sections, o.names)
  {
    ReflectsNames(c, o);
  }

  lemma ReflectsRead(host: Host, c: seq<byte>, o: Object)
    requires Coherent(o) && Reflects(c, o) && NamesIn(c, o) && o.hdr.shentsize == SHDR_SIZE
    ensures ReadObject(host, c) == Some(o)
  {
    ReadAlikeOnHosts(host, c);
    ReflectsTables(c, o);
    ReflectsSymbols(c, o);
  }
}
