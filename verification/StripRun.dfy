/**
  The whole of option -R on values: relocate, rebase the symbols, strip. Reading
  the destination again gives the object left in memory.
 */
module StripRun {
  import opened Words
  import opened Elf
  import opened FileModel
  import opened Stripping
  import opened ElfFile
  import opened Relocation

  // ----- the three passes -----

  /** The destination once section addresses and relocations are written. */
  function RelocatedFile(c: seq<byte>, o: Object, rels: seq<Rel>, b: Bases): seq<byte>
    requires HasTextAndData(o) && InFile(o, |c|) && AllApplicable(o, |c|, rels)
  {
    var o1 := WithAddresses(o, b);
    AddressesKeepPlaces(o, b, |c|, rels);
    PatchAll(SaveSections(c, o1), Patches(c, o1, rels, b), |rels|)
  }

  /** The object in memory when the deletions begin. */
  function RelocatedObject(o: Object, b: Bases): Object
    requires HasTextAndData(o)
  {
    Rebased(WithAddresses(o, b), b)
  }

  function FinalObject(o: Object, b: Bases): Object
    requires Coherent(o) && HasTextAndData(o)
  {
    RelocatedCoherent(o, b);
    StripFrom(RelocatedObject(o, b), 0)
  }

  /** The destination when the program ends; c is the source, and the copy it starts from. */
  function FinalFile(c: seq<byte>, o: Object, rels: seq<Rel>, b: Bases): seq<byte>
    requires Coherent(o) && HasTextAndData(o) && InFile(o, |c|) && AllApplicable(o, |c|, rels)
  {
    RelocatedCoherent(o, b);
    var o2 := RelocatedObject(o, b);
    StripFile(SaveSymbols(RelocatedFile(c, o, rels, b), o2), o2, 0)
  }

  // ----- setting addresses moves nothing -----

  lemma AddressesCoherent(o: Object, b: Bases)
    requires Coherent(o) && HasTextAndData(o)
    ensures Coherent(WithAddresses(o, b))
  {
    AddressesOnly(o, b);
  }

  lemma RelocatedCoherent(o: Object, b: Bases)
    requires Coherent(o) && HasTextAndData(o)
    ensures Coherent(RelocatedObject(o, b))
  {
    AddressesCoherent(o, b);
  }

  // ----- the places that the ABI asks for -----

  lemma AddressesKeepTargets(o: Object, b: Bases, len: nat, rels: seq<Rel>, targets: seq<nat>)
    requires HasTextAndData(o) && TargetsApplicable(o, len, rels, targets)
    ensures TargetsApplicable(WithAddresses(o, b), len, rels, targets)
    ensures AllCoincide(WithAddresses(o, b), len, rels, targets) == AllCoincide(o, len, rels, targets)
  {
    AddressesOnly(o, b);
    forall i | 0 <= i < |rels|
      ensures Coincide(WithAddresses(o, b), rels[i], targets[i]) == Coincide(o, rels[i], targets[i])
    {
    }
  }

  /**
    The relocated destination is the one the System V ABI asks for, where an entry
    applies to the section in sh_info of its REL header (see Targets), whenever each
    supported entry has a symbol defined in a section that starts at the same offset.
   */
  lemma RelocatedMeetsTargets(c: seq<byte>, o: Object, rels: seq<Rel>, targets: seq<nat>, b: Bases)
    requires HasTextAndData(o) && InFile(o, |c|) && AllApplicable(o, |c|, rels)
    requires TargetsApplicable(o, |c|, rels, targets) && AllCoincide(o, |c|, rels, targets)
    ensures
      var o1 := WithAddresses(o, b);
      && |SaveSections(c, o1)| == |c| && TargetsApplicable(o1, |c|, rels, targets)
      && RelocatedFile(c, o, rels, b) == PatchAll(SaveSections(c, o1), TargetPatches(c, o1, rels, targets, b), |rels|)
  {
    var o1 := WithAddresses(o, b);
    AddressesOnly(o, b);
    AddressesKeepPlaces(o, b, |c|, rels);
    AddressesKeepTargets(o, b, |c|, rels, targets);
    RunMeetsTargets(SaveSections(c, o1), c, o1, rels, targets, b);
  }

  // ----- the conditions on the file -----

  function NamesOff(o: Object): nat
    requires o.hdr.shstrndx < |o.sections|
  {
    o.sections[o.hdr.shstrndx].offset
  }

  /** Four regions of the file: header, section table, symbol table and section names. */
  predicate ClearOfTables(o: Object, p: nat, n: nat)
    requires o.symtabIndex < |o.sections|
  {
    && Apart(p, n, 0, EHDR_SIZE)
    && Apart(p, n, o.hdr.shoff, 40 * |o.sections|)
    && Apart(p, n, SymOff(o), 16 * |o.symbols|)
  }

  predicate PlacesClear(o: Object, rels: seq<Rel>)
    requires o.symtabIndex < |o.sections| && o.hdr.shstrndx < |o.sections|
    requires forall i :: 0 <= i < |rels| ==> Resolves(o, rels[i])
  {
    forall i :: 0 <= i < |rels| && Supported(rels[i]) ==>
      && ClearOfTables(o, Place(o, rels[i]), 4)
      && Apart(Place(o, rels[i]), 4, NamesOff(o), |o.names|)
  }

  /**
    An object the program can process: one symbol table, .text and .data present,
    e_shstrndx on .shstrtab, tables and names that do not overlap, and relocation
    entries whose words lie in the file, outside the tables and the names.
   */
  predicate Processable(c: seq<byte>, o: Object, rels: seq<Rel>) {
    && Coherent(o) && Spaced(o) && InFile(o, |c|)
    && HasTextAndData(o)
    && Designates(o, o.hdr.shstrndx, DOT_SHSTRTAB)
    && NamesOff(o) + |o.names| <= |c|
    && ClearOfTables(o, NamesOff(o), |o.names|)
    && AllApplicable(o, |c|, rels)
    && PlacesClear(o, rels)
  }

  // ----- file and memory stay in step -----

  lemma AddressesReflected(c: seq<byte>, o: Object, b: Bases)
    requires Coherent(o) && Spaced(o) && HasTextAndData(o) && Reflects(c, o)
    ensures
      var o1 := WithAddresses(o, b);
      Coherent(o1) && Spaced(o1) && |SaveSections(c, o1)| == |c| && Reflects(SaveSections(c, o1), o1)
  {
    AddressesOnly(o, b);
    AddressesCoherent(o, b);
    SectionsReflected(c, WithAddresses(o, b));
  }

  lemma PatchesMiss(c: seq<byte>, src: seq<byte>, o: Object, rels: seq<Rel>, b: Bases, q: nat, m: nat)
    requires |c| == |src| && AllApplicable(o, |src|, rels) && q + m <= |c|
    requires forall i :: 0 <= i < |rels| && Supported(rels[i]) ==> Apart(Place(o, rels[i]), 4, q, m)
    ensures AgreeOn(PatchAll(c, Patches(src, o, rels, b), |rels|), c, q, m)
  {
    UncoveredRegionKept(c, Patches(src, o, rels, b), |rels|, q, m);
  }

  lemma AgreeingReflects(c: seq<byte>, d: seq<byte>, o: Object)
    requires Reflects(c, o)
    requires AgreeOn(d, c, 0, EHDR_SIZE)
    requires AgreeOn(d, c, o.hdr.shoff, 40 * |o.sections|)
    requires AgreeOn(d, c, SymOff(o), 16 * |o.symbols|)
    ensures Reflects(d, o)
  {
    assert d[..EHDR_SIZE] == d[0..0 + EHDR_SIZE] && c[..EHDR_SIZE] == c[0..0 + EHDR_SIZE];
    ShdrsUnmoved(d, c, o.hdr.shoff, |o.sections|);
    SymsUnmoved(d, c, SymOff(o), |o.symbols|);
  }

  /** Writing the names clear of the tables leaves the tables and adds the names. */
  lemma NamesAdded(d: seq<byte>, o: Object)
    requires Coherent(o) && Reflects(d, o) && o.hdr.shstrndx < |o.sections|
    requires o.sections[o.hdr.shstrndx].size == |o.names|
    requires NamesOff(o) + |o.names| <= |d| && ClearOfTables(o, NamesOff(o), |o.names|)
    ensures
      var e := Overwrite(d, NamesOff(o), o.names);
      Reflects(e, o) && NamesIn(e, o)
  {
    var e, p := Overwrite(d, NamesOff(o), o.names), NamesOff(o);
    OverwriteHolds(d, p, o.names);
    OverwriteKeeps(d, p, o.names, 0, EHDR_SIZE);
    OverwriteKeeps(d, p, o.names, o.hdr.shoff, 40 * |o.sections|);
    OverwriteKeeps(d, p, o.names, SymOff(o), 16 * |o.symbols|);
    AgreeingReflects(d, e, o);
  }

  /**
    Serialisation round trip: an object whose tables and names do not overlap,
    written into a file that is long enough, is read back by every host.
   */
  lemma WrittenObjectReads(host: Host, c: seq<byte>, o: Object)
    requires Coherent(o) && Spaced(o) && InFile(o, |c|) && o.hdr.shentsize == SHDR_SIZE
    requires o.hdr.shstrndx < |o.sections| && o.sections[o.hdr.shstrndx].size == |o.names|
    requires NamesOff(o) + |o.names| <= |c| && ClearOfTables(o, NamesOff(o), |o.names|)
    ensures ReadObject(host, Overwrite(Save(c, o), NamesOff(o), o.names)) == Some(o)
  {
    var d := Save(c, o);
    SaveReflects(c, o);
    NamesAdded(d, o);
    ReflectsRead(host, Overwrite(d, NamesOff(o), o.names), o);
  }

  /** ... and every byte outside the tables and the names is kept. */
  lemma WrittenElsewhere(c: seq<byte>, o: Object, k: nat)
    requires InFile(o, |c|) && k < |c| && Elsewhere(o, k) && o.hdr.shstrndx < |o.sections|
    requires NamesOff(o) + |o.names| <= |c| && Apart(NamesOff(o), |o.names|, k, 1)
    ensures
      var d := Overwrite(Save(c, o), NamesOff(o), o.names);
      |d| == |c| && d[k] == c[k]
  {
    SaveElsewhere(c, o, k);
    OverwriteByte(Save(c, o), NamesOff(o), o.names, k);
  }

  lemma PatchesReflected(c: seq<byte>, src: seq<byte>, o: Object, rels: seq<Rel>, b: Bases)
    requires |c| == |src| && AllApplicable(o, |src|, rels) && Reflects(c, o)
    requires forall i :: 0 <= i < |rels| && Supported(rels[i]) ==> ClearOfTables(o, Place(o, rels[i]), 4)
    ensures Reflects(PatchAll(c, Patches(src, o, rels, b), |rels|), o)
  {
    var d := PatchAll(c, Patches(src, o, rels, b), |rels|);
    assert AgreeOn(d, c, 0, EHDR_SIZE) by { PatchesMiss(c, src, o, rels, b, 0, EHDR_SIZE); }
    assert AgreeOn(d, c, o.hdr.shoff, 40 * |o.sections|) by {
      PatchesMiss(c, src, o, rels, b, o.hdr.shoff, 40 * |o.sections|);
    }
    assert AgreeOn(d, c, SymOff(o), 16 * |o.symbols|) by {
      PatchesMiss(c, src, o, rels, b, SymOff(o), 16 * |o.symbols|);
    }
    AgreeingReflects(c, d, o);
  }

  lemma RelocatedReflected(c: seq<byte>, o: Object, rels: seq<Rel>, b: Bases)
    requires Processable(c, o, rels) && Reflects(c, o)
    ensures
      var o2, d := RelocatedObject(o, b), RelocatedFile(c, o, rels, b);
      Coherent(o2) && Spaced(o2) && |SaveSymbols(d, o2)| == |c| && Reflects(SaveSymbols(d, o2), o2)
  {
    var o1 := WithAddresses(o, b);
    AddressesOnly(o, b);
    AddressesReflected(c, o, b);
    AddressesKeepPlaces(o, b, |c|, rels);
    PatchesReflected(SaveSections(c, o1), c, o1, rels, b);
    SymbolsReflected(RelocatedFile(c, o, rels, b), Rebased(o1, b));
  }

  lemma FinalReflected(c: seq<byte>, o: Object, rels: seq<Rel>, b: Bases)
    requires Processable(c, o, rels) && Reflects(c, o)
    ensures Coherent(FinalObject(o, b))
    ensures |FinalFile(c, o, rels, b)| == |c| && Reflects(FinalFile(c, o, rels, b), FinalObject(o, b))
  {
    RelocatedReflected(c, o, rels, b);
    var o2 := RelocatedObject(o, b);
    StripFromCoherent(o2, 0);
    StripFileReflects(SaveSymbols(RelocatedFile(c, o, rels, b), o2), o2, 0);
  }

  // ----- what the run leaves alone -----

  predicate Patched(o: Object, rels: seq<Rel>, k: nat)
    requires forall i :: 0 <= i < |rels| ==> Resolves(o, rels[i])
  {
    exists i :: 0 <= i < |rels| && Supported(rels[i]) && Place(o, rels[i]) <= k < Place(o, rels[i]) + 4
  }

  /** Past the patches, only bytes of the three tables change. */
  lemma ElsewhereAsRelocated(c: seq<byte>, o: Object, rels: seq<Rel>, b: Bases, k: nat)
    requires Processable(c, o, rels) && k < |c| && Elsewhere(o, k)
    ensures |FinalFile(c, o, rels, b)| == |c| && |RelocatedFile(c, o, rels, b)| == |c|
    ensures FinalFile(c, o, rels, b)[k] == RelocatedFile(c, o, rels, b)[k]
  {
    AddressesOnly(o, b);
    RelocatedCoherent(o, b);
    var o2, d := RelocatedObject(o, b), RelocatedFile(c, o, rels, b);
    OverwriteByte(d, SymOff(o2), SymTable(BigEndian, o2.symbols), k);
    StripFileElsewhere(SaveSymbols(d, o2), o2, 0, k);
  }

  /** Bytes outside the tables and the relocation places are those of the source. */
  lemma ElsewhereUnchanged(c: seq<byte>, o: Object, rels: seq<Rel>, b: Bases, k: nat)
    requires Processable(c, o, rels) && k < |c| && Elsewhere(o, k) && !Patched(o, rels, k)
    ensures |FinalFile(c, o, rels, b)| == |c| && FinalFile(c, o, rels, b)[k] == c[k]
  {
    ElsewhereAsRelocated(c, o, rels, b, k);
    var o1 := WithAddresses(o, b);
    AddressesOnly(o, b);
    AddressesKeepPlaces(o, b, |c|, rels);
    OverwriteByte(c, o1.hdr.shoff, ShdrTable(BigEndian, o1.sections), k);
    UncoveredByteKept(SaveSections(c, o1), Patches(c, o1, rels, b), |rels|, k);
  }

  /** No relocation touches a byte of the names. */
  lemma NotPatched(o: Object, rels: seq<Rel>, k: nat)
    requires o.symtabIndex < |o.sections| && o.hdr.shstrndx < |o.sections|
    requires forall i :: 0 <= i < |rels| ==> Resolves(o, rels[i])
    requires PlacesClear(o, rels) && NamesOff(o) <= k < NamesOff(o) + |o.names|
    ensures !Patched(o, rels, k)
  {
  }

  lemma NameByteUnchanged(c: seq<byte>, o: Object, rels: seq<Rel>, b: Bases, k: nat)
    requires Processable(c, o, rels) && NamesOff(o) <= k < NamesOff(o) + |o.names|
    ensures |FinalFile(c, o, rels, b)| == |c| && FinalFile(c, o, rels, b)[k] == c[k]
  {
    NotPatched(o, rels, k);
    ElsewhereUnchanged(c, o, rels, b, k);
  }

  lemma NamesUnchanged(c: seq<byte>, o: Object, rels: seq<Rel>, b: Bases)
    requires Processable(c, o, rels) && Holds(c, NamesOff(o), o.names)
    requires |FinalFile(c, o, rels, b)| == |c|
    ensures Holds(FinalFile(c, o, rels, b), NamesOff(o), o.names)
  {
    forall k | NamesOff(o) <= k < NamesOff(o) + |o.names| { NameByteUnchanged(c, o, rels, b, k); }
    StillHeld(c, FinalFile(c, o, rels, b), NamesOff(o), o.names);
  }

  lemma FinalNames(c: seq<byte>, o: Object, rels: seq<Rel>, b: Bases)
    requires Processable(c, o, rels) && NamesIn(c, o)
    ensures
      var r := FinalObject(o, b);
      && r.names == o.names
      && r.hdr.shentsize == o.hdr.shentsize
      && r.hdr.shstrndx < |r.sections|
      && r.sections[r.hdr.shstrndx].offset == NamesOff(o)
      && r.sections[r.hdr.shstrndx].size == |o.names|
  {
    var o2 := RelocatedObject(o, b);
    RelocatedCoherent(o, b);
    AddressesOnly(o, b);
    SameNamesIndex(o.names, o.sections, o2.sections, DOT_SHSTRTAB);
    NamesIndexAfterStrip(o2);
    SectionAfterStrip(o2, o2.hdr.shstrndx);
    StripIsCompaction(o2);
  }

  /**
    Main result. Whatever hosts write and read, reading the destination gives
    exactly the object that the three passes leave in memory.
   */
  lemma RereadGivesMemory(reader: Host, c: seq<byte>, o: Object, rels: seq<Rel>, b: Bases)
    requires ReadObject(reader, c) == Some(o) && Processable(c, o, rels)
    ensures forall host: Host :: ReadObject(host, FinalFile(c, o, rels, b)) == Some(FinalObject(o, b))
  {
    ReadReflects(reader, c);
    FinalReflected(c, o, rels, b);
    FinalNames(c, o, rels, b);
    NamesUnchanged(c, o, rels, b);
    forall host: Host { ReflectsRead(host, FinalFile(c, o, rels, b), FinalObject(o, b)); }
  }

  lemma RelocatedNumber(o: Object, b: Bases, k: half)
    requires HasTextAndData(o)
    ensures FinalNumber(RelocatedObject(o, b).sections, k) == FinalNumber(o.sections, k)
  {
    AddressesOnly(o, b);
    if k <= |o.sections| { RelsBelowAgree(o.sections, RelocatedObject(o, b).sections, k); }
  }

  lemma RelocatedAddress(o: Object, b: Bases, s: Sym)
    requires HasTextAndData(o)
    ensures Address(WithAddresses(o, b), s, b) == Address(o, s, b)
  {
    AddressesOnly(o, b);
    SameNamesIndex(o.names, o.sections, WithAddresses(o, b).sections, DOT_TEXT);
    SameNamesIndex(o.names, o.sections, WithAddresses(o, b).sections, DOT_DATA);
  }

  lemma FinalSymbol(o: Object, b: Bases, j: nat)
    requires Coherent(o) && HasTextAndData(o) && j < |o.symbols|
    ensures |FinalObject(o, b).symbols| == |o.symbols|
    ensures FinalObject(o, b).symbols[j] == o.symbols[j].(
              value := Address(o, o.symbols[j], b),
              shndx := FinalNumber(o.sections, o.symbols[j].shndx))
  {
    RelocatedCoherent(o, b);
    NumbersAfterStrip(RelocatedObject(o, b));
    RelocatedAddress(o, b, o.symbols[j]);
    RelocatedNumber(o, b, o.symbols[j].shndx);
  }

  /** The object itself: what the source stored, compacted, with addresses, rebased and renumbered symbols. */
  lemma FinalObjectClosed(o: Object, b: Bases)
    requires Coherent(o) && HasTextAndData(o)
    ensures
      var o2, r := RelocatedObject(o, b), FinalObject(o, b);
      && Coherent(o2)
      && r == (if HasRel(o2.sections) then Stripped(o2) else o2)
      && |r.symbols| == |o.symbols|
      && forall j :: 0 <= j < |o.symbols| ==>
           r.symbols[j] == o.symbols[j].(
             value := Address(o, o.symbols[j], b),
             shndx := FinalNumber(o.sections, o.symbols[j].shndx))
  {
    RelocatedCoherent(o, b);
    StripIsCompaction(RelocatedObject(o, b));
    NumbersAfterStrip(RelocatedObject(o, b));
    forall j | 0 <= j < |o.symbols| { FinalSymbol(o, b, j); }
  }

  lemma RelocatedLength(c: seq<byte>, o: Object, rels: seq<Rel>, b: Bases)
    requires Processable(c, o, rels)
    ensures |SaveSections(c, WithAddresses(o, b))| == |c| && |RelocatedFile(c, o, rels, b)| == |c|
  {
    AddressesOnly(o, b);
  }

  lemma SameNewWord(o: Object, b: Bases, r: Rel, w: word)
    requires HasTextAndData(o) && Resolves(o, r)
    ensures Resolves(WithAddresses(o, b), r) && NewWord(WithAddresses(o, b), r, w, b) == NewWord(o, r, w, b)
  {
    AddressesOnly(o, b);
    RelocatedAddress(o, b, o.symbols[r.SymIndex()]);
  }

  lemma RelocatedWord(c: seq<byte>, o: Object, rels: seq<Rel>, b: Bases, j: nat)
    requires Processable(c, o, rels) && Independent(o, rels)
    requires j < |rels| && Supported(rels[j])
    ensures
      var p, d := Place(o, rels[j]), RelocatedFile(c, o, rels, b);
      && |d| == |c|
      && WordAt(d, p) == NewWord(o, rels[j], WordAt(c, p), b)
  {
    var o1 := WithAddresses(o, b);
    RelocatedLength(c, o, rels, b);
    AddressesKeepPlaces(o, b, |c|, rels);
    SameNewWord(o, b, rels[j], WordAt(c, Place(o, rels[j])));
    PlaceHoldsNewWord(SaveSections(c, o1), c, o1, rels, b, j);
  }

  lemma FinalWord(c: seq<byte>, o: Object, rels: seq<Rel>, b: Bases, p: nat)
    requires Processable(c, o, rels) && p + 4 <= |c| && ClearOfTables(o, p, 4)
    requires |FinalFile(c, o, rels, b)| == |c| == |RelocatedFile(c, o, rels, b)|
    ensures WordAt(FinalFile(c, o, rels, b), p) == WordAt(RelocatedFile(c, o, rels, b), p)
  {
    forall k | p <= k < p + 4
      ensures FinalFile(c, o, rels, b)[k] == RelocatedFile(c, o, rels, b)[k]
    {
      ElsewhereAsRelocated(c, o, rels, b, k);
    }
    SameSlice(FinalFile(c, o, rels, b), RelocatedFile(c, o, rels, b), p, 4);
  }

  /** Each place of a supported entry holds, in the finished destination, the new value of the source word. */
  lemma FinalWordIsNew(c: seq<byte>, o: Object, rels: seq<Rel>, b: Bases, j: nat)
    requires Processable(c, o, rels) && Independent(o, rels)
    requires j < |rels| && Supported(rels[j])
    ensures
      var p, d := Place(o, rels[j]), FinalFile(c, o, rels, b);
      |d| == |c| && WordAt(d, p) == NewWord(o, rels[j], WordAt(c, p), b)
  {
    RelocatedWord(c, o, rels, b, j);
    ElsewhereAsRelocated(c, o, rels, b, Place(o, rels[j]));
    FinalWord(c, o, rels, b, Place(o, rels[j]));
  }

  /**
    The patched words and the symbols of the finished destination: each ABS32 place
    holds the source word plus the st_value the finished symbol table gives its symbol.
   */
  lemma FinalWordMeetsFinalSymbol(c: seq<byte>, o: Object, rels: seq<Rel>, b: Bases, j: nat)
    requires Processable(c, o, rels) && Independent(o, rels)
    requires j < |rels| && rels[j].Type() == R_ARM_ABS32
    ensures
      var p, r, d := Place(o, rels[j]), FinalObject(o, b), FinalFile(c, o, rels, b);
      && |d| == |c| && rels[j].SymIndex() < |r.symbols|
      && WordAt(d, p) == AddWord(WordAt(c, p), r.symbols[rels[j].SymIndex()].value)
  {
    FinalWordIsNew(c, o, rels, b, j);
    FinalSymbol(o, b, rels[j].SymIndex());
  }

  /**
    When the sections that sh_info gives coincide with those of the symbols, the words
    that the System V ABI means hold the new values in the finished destination.
   */
  lemma FinalWordInTarget(c: seq<byte>, o: Object, rels: seq<Rel>, targets: seq<nat>, b: Bases, j: nat)
    requires Processable(c, o, rels) && Independent(o, rels)
    requires TargetsApplicable(o, |c|, rels, targets) && AllCoincide(o, |c|, rels, targets)
    requires j < |rels| && Supported(rels[j])
    ensures
      var p, d := PlaceIn(o, targets[j], rels[j]), FinalFile(c, o, rels, b);
      |d| == |c| && WordAt(d, p) == NewWord(o, rels[j], WordAt(c, p), b)
  {
    FinalWordIsNew(c, o, rels, b, j);
    assert Coincide(o, rels[j], targets[j]);
  }

  /** A word outside the tables that no entry patches stays as it was. */
  lemma WordUnchanged(c: seq<byte>, o: Object, rels: seq<Rel>, b: Bases, p: nat)
    requires Processable(c, o, rels) && p + 4 <= |c| && ClearOfTables(o, p, 4)
    requires forall i :: 0 <= i < |rels| && Supported(rels[i]) ==> Apart(Place(o, rels[i]), 4, p, 4)
    ensures |FinalFile(c, o, rels, b)| == |c| && WordAt(FinalFile(c, o, rels, b), p) == WordAt(c, p)
  {
    var d := FinalFile(c, o, rels, b);
    forall k | p <= k < p + 4
      ensures |d| == |c| && d[k] == c[k]
    {
      ElsewhereUnchanged(c, o, rels, b, k);
    }
    assert |d| == |c| by { ElsewhereUnchanged(c, o, rels, b, p); }
    SameSlice(d, c, p, 4);
  }

  /**
    The word that entry j means in the section of sh_info is left as it was, which is
    not its new value, and the word in the section of the symbol is changed instead.
   */
  predicate Misplaced(c: seq<byte>, o: Object, rels: seq<Rel>, b: Bases, j: nat, target: nat) {
    && Processable(c, o, rels) && j < |rels|
    && target < |o.sections| && PlaceIn(o, target, rels[j]) + 4 <= |c|
    && var p, q, d := PlaceIn(o, target, rels[j]), Place(o, rels[j]), FinalFile(c, o, rels, b);
    && |d| == |c|
    && WordAt(d, p) == WordAt(c, p) != NewWord(o, rels[j], WordAt(c, p), b)
    && WordAt(d, q) != WordAt(c, q)
  }

  lemma NewWordDiffers(o: Object, r: Rel, w: word, b: Bases)
    requires Resolves(o, r) && r.Type() == R_ARM_ABS32 && Address(o, o.symbols[r.SymIndex()], b) != 0
    ensures NewWord(o, r, w, b) != w
  {
  }

  /** This is what happens to an ABS32 entry whose symbol lies in another section than the one of sh_info. */
  lemma EntryMisplaced(c: seq<byte>, o: Object, rels: seq<Rel>, b: Bases, j: nat, target: nat)
    requires Processable(c, o, rels) && Independent(o, rels)
    requires j < |rels| && rels[j].Type() == R_ARM_ABS32 && Address(o, o.symbols[rels[j].SymIndex()], b) != 0
    requires target < |o.sections| && PlaceIn(o, target, rels[j]) + 4 <= |c|
    requires ClearOfTables(o, PlaceIn(o, target, rels[j]), 4)
    requires forall i :: 0 <= i < |rels| && Supported(rels[i]) ==>
      Apart(Place(o, rels[i]), 4, PlaceIn(o, target, rels[j]), 4)
    ensures Misplaced(c, o, rels, b, j, target)
  {
    var p, q := PlaceIn(o, target, rels[j]), Place(o, rels[j]);
    WordUnchanged(c, o, rels, b, p);
    FinalWordIsNew(c, o, rels, b, j);
    NewWordDiffers(o, rels[j], WordAt(c, p), b);
    NewWordDiffers(o, rels[j], WordAt(c, q), b);
  }
}
