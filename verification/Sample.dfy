/**
  Three small object files that option -R can serve, so that the conditions of the main
  result are known to be consistent. They differ in the section of their symbol: one is
  relocated where sh_info says, one is not, and in one the symbol loses its section.
 */
module Sample {
  import opened Words
  import opened Elf
  import opened FileModel
  import opened Stripping
  import opened ElfFile
  import opened Relocation
  import opened StripRun
  import opened MyReadelf

  const NAMES: seq<byte> := [0] + DOT_TEXT + [0] + DOT_DATA + [0] + DOT_STRTAB + [0] + DOT_SHSTRTAB + [0]

  const IDENT: Ident := [0x7f, 69, 76, 70, 1, 2, 1, 0, 0, 0, 0, 0, 0, 0, 0, 0]

  /** A header whose other members do not matter here. */
  function Section(name: word, stype: word, offset: word, size: word, link: word, info: word): Shdr {
    Shdr(name, stype, 0, 0, offset, size, link, info, 0, 0)
  }

  /** Null, .text, .data, a REL section for .text, the symbol table, .strtab, .shstrtab. */
  const SECTIONS: seq<Shdr> := [
    Section(0, 0, 0, 0, 0, 0), Section(1, 1, 380, 4, 0, 0), Section(7, 1, 384, 4, 0, 0),
    Section(0, SHT_REL, 388, 8, 4, 1), Section(0, SHT_SYMTAB, 332, 16, 5, 0),
    Section(13, 3, 379, 1, 0, 0), Section(21, 3, 348, 31, 0, 0)]

  /** .text, .data or the REL section. */
  type Defined = k: half | 1 <= k <= 3 witness 1

  const HEADER := Ehdr(IDENT, 1, 40, 1, 0, 0, 52, 0, 52, 0, 0, 40, 7, 6)

  /** One symbol, at the start of section k. */
  function SampleObject(k: Defined): Object {
    Object(HEADER, SECTIONS, [Sym(0, 0, 0, 0, 0, k)], NAMES, 4)
  }

  /** One ABS32 relocation of the first word of a section, for the symbol. */
  const ENTRY := Rel(0, 2)
  const RELS: seq<Rel> := [ENTRY]

  /** A file that only holds the entry. */
  function Blank(): seq<byte> {
    Overwrite(Zeros(396), 388, RelImage(ENTRY))
  }

  /** The sample as a file. */
  function File(k: Defined): seq<byte> {
    Overwrite(Save(Blank(), SampleObject(k)), 348, NAMES)
  }

  // ----- its section names -----

  /** A name that stands in a string table, closed by a NUL, is the string there. */
  lemma {:induction false} NameStands(names: seq<byte>, off: nat, name: seq<byte>)
    requires off + |name| < |names| && names[off + |name|] == 0
    requires names[off..off + |name|] == name && 0 !in name
    ensures NameAt(names, off) == name
    decreases |name|
  {
    if name != [] {
      assert names[off] == name[0];
      NameStands(names, off + 1, name[1..]);
    }
  }

  lemma NamesStand()
    ensures |NAMES| == 31 && NameAt(NAMES, 0) == []
    ensures NameAt(NAMES, 1) == DOT_TEXT && NameAt(NAMES, 7) == DOT_DATA
    ensures NameAt(NAMES, 13) == DOT_STRTAB && NameAt(NAMES, 21) == DOT_SHSTRTAB
  {
    assert NAMES[1..6] == DOT_TEXT && NAMES[7..12] == DOT_DATA;
    assert NAMES[13..20] == DOT_STRTAB && NAMES[21..30] == DOT_SHSTRTAB;
    NameStands(NAMES, 1, DOT_TEXT);
    NameStands(NAMES, 7, DOT_DATA);
    NameStands(NAMES, 13, DOT_STRTAB);
    NameStands(NAMES, 21, DOT_SHSTRTAB);
  }

  /** Each of the four names is found where it is. */
  lemma NamesFound()
    ensures SectionIndex(NAMES, SECTIONS, DOT_TEXT) == 1 && SectionIndex(NAMES, SECTIONS, DOT_DATA) == 2
    ensures SectionIndex(NAMES, SECTIONS, DOT_STRTAB) == 5 && SectionIndex(NAMES, SECTIONS, DOT_SHSTRTAB) == 6
  {
    NamesStand();
    assert NameIs(NAMES, SECTIONS[1].name, DOT_TEXT);
    assert NameIs(NAMES, SECTIONS[2].name, DOT_DATA);
    assert NameIs(NAMES, SECTIONS[5].name, DOT_STRTAB);
    assert NameIs(NAMES, SECTIONS[6].name, DOT_SHSTRTAB);
    assert SECTIONS[0].name == SECTIONS[3].name == SECTIONS[4].name == 0;
  }

  // ----- its relocation -----

  lemma TablesReadable()
    ensures RelTablesInFile(SECTIONS, 396)
  {
  }

  predicate OnlyRel(o: Object, r: nat) {
    && r < |o.sections| && IsRel(o.sections[r])
    && forall i :: 0 <= i < |o.sections| ==> (IsTable(o.sections[i]) <==> i == r)
  }

  /** The entries of an object whose only relocation table is that of section r and holds x. */
  lemma OneEntry(c: seq<byte>, o: Object, r: nat, x: Rel)
    requires OnlyRel(o, r) && RelTablesInFile(o.sections, |c|) && o.sections[r].size == 8
    requires Holds(c, o.sections[r].offset, RelImage(x))
    ensures EntriesOf(LittleEndian, c, o) == [x]
  {
    OnlyTable(LittleEndian, c, o.sections, |o.sections|, r);
    var tables, off := [TableOf(LittleEndian, c, o.sections[r], r)], o.sections[r].offset;
    assert Entries(tables, 1) == Entries(tables, 0) + tables[0].rels;
    RelReadBack(x);
    assert RelsIn(LittleEndian, c, off, 1) == [RelIn(LittleEndian, c[off..off + 8])];
  }

  lemma EntriesStored(c: seq<byte>, k: Defined)
    requires |c| == 396 && c[388..396] == RelImage(ENTRY)
    ensures RelTablesInFile(SECTIONS, |c|) && EntriesOf(LittleEndian, c, SampleObject(k)) == RELS
  {
    TablesReadable();
    OneEntry(c, SampleObject(k), 3, ENTRY);
  }

  // ----- the whole file -----

  lemma SampleProcessable(c: seq<byte>, k: Defined)
    requires |c| == 396
    ensures Processable(c, SampleObject(k), RELS)
  {
    NamesStand();
    NamesFound();
    assert OneSymtab(SECTIONS, 4);
    assert Place(SampleObject(k), ENTRY) == SECTIONS[k].offset;
  }

  /** An object of these dimensions, written over any file, reads back and leaves the entry alone. */
  lemma WrittenSample(host: Host, c: seq<byte>, o: Object, k: Defined)
    requires o == SampleObject(k) && |c| == 396
    ensures
      var d := Overwrite(Save(c, o), NamesOff(o), o.names);
      |d| == 396 && ReadObject(host, d) == Some(o) && d[388..396] == c[388..396]
  {
    NamesStand();
    SampleProcessable(c, k);
    WrittenObjectReads(host, c, o);
    var d := Overwrite(Save(c, o), NamesOff(o), o.names);
    forall i | 388 <= i < 396
      ensures |d| == |c| && d[i] == c[i]
    {
      WrittenElsewhere(c, o, i);
    }
    assert |d| == |c| by { WrittenElsewhere(c, o, 388); }
    SameSlice(d, c, 388, 8);
  }

  /** On a little-endian host the program can serve the samples, with their stored relocation. */
  lemma SampleStrippable(k: Defined)
    ensures Strippable(LittleEndian, File(k), SampleObject(k))
    ensures |File(k)| == 396 && EntriesOf(LittleEndian, File(k), SampleObject(k)) == RELS
  {
    OverwriteHolds(Zeros(396), 388, RelImage(ENTRY));
    WrittenSample(LittleEndian, Blank(), SampleObject(k), k);
    EntriesStored(File(k), k);
    SampleProcessable(File(k), k);
    NamesFound();
  }

  /** -R served on a file that holds the sample. */
  method StripSample(file: seq<byte>) returns (content: seq<byte>)
    requires file == File(1)
    ensures Coherent(SampleObject(1)) && HasTextAndData(SampleObject(1))
    ensures forall reader: Host :: ReadObject(reader, content) == Some(FinalObject(SampleObject(1), BASES))
  {
    ghost var o := SampleObject(1);
    SampleStrippable(1);
    var source := new Stream(file);
    var dest := new Stream([]);
    var elf := Strip(source, dest, LittleEndian, o);
    content := dest.content;
  }

  // ----- a relocation in the wrong section -----

  lemma TargetOfTable(o: Object, t: RelEntry)
    requires t.shndx < |o.sections| && t.relType == SHT_REL && |t.rels| == 1
    ensures Targets(o, [t], 1) == [o.sections[t.shndx].info]
  {
    assert Targets(o, [t], 0) == [];
  }

  /** The section that sh_info gives for the entry of such an object. */
  lemma OneTarget(c: seq<byte>, o: Object, r: nat)
    requires OnlyRel(o, r) && RelTablesInFile(o.sections, |c|) && o.sections[r].size == 8
    ensures TargetsOf(LittleEndian, c, o) == [o.sections[r].info]
  {
    OnlyTable(LittleEndian, c, o.sections, |o.sections|, r);
    TargetOfTable(o, TableOf(LittleEndian, c, o.sections[r], r));
  }

  /** By the sh_info of its table the entry is one for .text; it is applied there only with the symbol in .text. */
  lemma SampleTargets(c: seq<byte>, k: Defined)
    requires |c| == 396
    ensures RelTablesInFile(SECTIONS, |c|) && TargetsOf(LittleEndian, c, SampleObject(k)) == [1]
    ensures TargetsApplicable(SampleObject(k), |c|, RELS, [1])
    ensures AllCoincide(SampleObject(k), |c|, RELS, [1]) <==> k == 1
  {
    TablesReadable();
    OneTarget(c, SampleObject(k), 3);
    assert Supported(RELS[0]) && (Coincide(SampleObject(k), RELS[0], 1) <==> k == 1);
  }

  lemma SampleMisplaced(c: seq<byte>)
    requires |c| == 396
    ensures Misplaced(c, SampleObject(2), RELS, BASES, 0, 1)
  {
    NamesFound();
    SampleProcessable(c, 2);
    EntryMisplaced(c, SampleObject(2), RELS, BASES, 0, 1);
  }

  /**
    Relocation in the section of sh_info does not hold of every file that -R serves:
    with the symbol in .data the entry of .text leaves the word of .text as it was,
    which is not its new value, and changes the word of .data.
   */
  lemma RelocatedInWrongSection()
    ensures Strippable(LittleEndian, File(2), SampleObject(2))
    ensures EntriesOf(LittleEndian, File(2), SampleObject(2)) == RELS
    ensures TargetsOf(LittleEndian, File(2), SampleObject(2)) == [1]
    ensures Misplaced(File(2), SampleObject(2), RELS, BASES, 0, 1)
  {
    SampleStrippable(2);
    SampleTargets(File(2), 2);
    SampleMisplaced(File(2));
  }

  // ----- a symbol of a deleted section -----

  lemma LosesSection(o: Object)
    requires o == SampleObject(3)
    ensures !KeepsSection(o, 0)
  {
    SymbolKeepsItsSection(o, 0);
  }

  /** A symbol defined in the REL section denotes another section after the run. */
  lemma SymbolLosesItsSection()
    ensures Strippable(LittleEndian, File(3), SampleObject(3))
    ensures SECTIONS[SampleObject(3).symbols[0].shndx].stype == SHT_REL
    ensures !KeepsSection(SampleObject(3), 0)
  {
    SampleStrippable(3);
    LosesSection(SampleObject(3));
  }
}
