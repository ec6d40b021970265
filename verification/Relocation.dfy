/**
  The relocation entries of an object, the words they patch in the destination
  file, and the addresses the symbols get.
 */
module Relocation {
  import opened Words
  import opened Elf
  import opened FileModel
  import opened Stripping

  const R_ARM_ABS32: byte := 2
  const R_ARM_ABS16: byte := 5
  const R_ARM_ABS8: byte := 8
  const R_ARM_CALL: byte := 28
  const R_ARM_JUMP24: byte := 29

  /** The addresses given to .text and .data. */
  datatype Bases = Bases(text: word, data: word)

  predicate HasTextAndData(o: Object) {
    SectionIndex(o.names, o.sections, DOT_TEXT) >= 0 && SectionIndex(o.names, o.sections, DOT_DATA) >= 0
  }

  /** The section table with sh_addr of .text and .data set, in this order. */
  function WithAddresses(o: Object, b: Bases): Object
    requires HasTextAndData(o)
  {
    var t := SectionIndex(o.names, o.sections, DOT_TEXT);
    var d := SectionIndex(o.names, o.sections, DOT_DATA);
    var sections := o.sections[t := o.sections[t].(addr := b.text)];
    o.(sections := sections[d := sections[d].(addr := b.data)])
  }

  /** The absolute address of a symbol: st_value, moved by the base of its section. */
  function Address(o: Object, s: Sym, b: Bases): word {
    if s.shndx == SHN_UNDEF || s.shndx == SHN_ABS then s.value
    else if SectionIndex(o.names, o.sections, DOT_TEXT) == s.shndx then
      AddWord(s.value, b.text)
    else if SectionIndex(o.names, o.sections, DOT_DATA) == s.shndx then
      AddWord(s.value, b.data)
    else s.value
  }

  /** The object with every st_value replaced by the absolute address. */
  function Rebased(o: Object, b: Bases): Object {
    o.(symbols := seq(|o.symbols|, j requires 0 <= j < |o.symbols| =>
      o.symbols[j].(value := Address(o, o.symbols[j], b))))
  }

  // ----- the relocation tables -----

  datatype Rela = Rela(offset: word, info: word, addend: word)

  const RELA_SIZE := 12
  const RELA_LAYOUT := [Four, Four, Four]

  /** A relocation table: the section it was read from, its type and its entries of either kind. */
  datatype RelEntry = RelEntry(shndx: nat, relType: byte, rels: seq<Rel>, relas: seq<Rela>)

  function RelMembers(host: Host, s: seq<byte>): (fs: seq<Field>)
    requires |s| == REL_SIZE
    ensures Layout(fs) == REL_LAYOUT
  {
    assert LayoutSize([Four, Four]) == 8;
    Members(host, REL_LAYOUT, s)
  }

  /** The entry as fread leaves it in the memory of a host. */
  function RawRel(host: Host, s: seq<byte>): Rel
    requires |s| == REL_SIZE
  {
    RelOf(RelMembers(host, s))
  }

  /** What read_reltab holds for an entry: the bytes are swapped on every host. */
  function RelIn(host: Host, s: seq<byte>): Rel
    requires |s| == REL_SIZE
  {
    var raw := RelMembers(host, s);
    SwapKeepsLayout(LittleEndian, raw);
    RelOf(SwapAll(LittleEndian, raw))
  }

  /** The entry the big-endian file stores. */
  function RelStored(s: seq<byte>): Rel
    requires |s| == REL_SIZE
  {
    RawRel(BigEndian, s)
  }

  /** swap_endianess_rel on the entry that fread has left in memory. */
  lemma RelInFileOrder(raw: seq<Field>)
    requires Layout(raw) == REL_LAYOUT
    ensures Layout(SwapAll(LittleEndian, raw)) == REL_LAYOUT
    ensures SwapRel(RelOf(raw)) == RelOf(SwapAll(LittleEndian, raw))
  {
    SwapKeepsLayout(LittleEndian, raw);
    assert forall i :: 0 <= i < 2 ==> WidthOf(raw[i]) == Layout(raw)[i];
    ReversedWord(raw[0]);
    ReversedWord(raw[1]);
  }

  lemma RawRelSwapped(host: Host, s: seq<byte>)
    requires |s| == REL_SIZE
    ensures SwapRel(RawRel(host, s)) == RelIn(host, s)
  {
    RelInFileOrder(RelMembers(host, s));
  }

  lemma RelOnLittleEndian(s: seq<byte>)
    requires |s| == REL_SIZE
    ensures RelIn(LittleEndian, s) == RelStored(s)
  {
    assert LayoutSize([Four, Four]) == 8;
    ReadAlike(LittleEndian, REL_LAYOUT, s);
  }

  lemma BothMembers(host: Host, s: seq<byte>)
    requires |s| == REL_SIZE
    ensures RelMembers(host, s) == [FieldOf(host, Four, s[..4]), FieldOf(host, Four, s[4..])]
  {
    var rest := s[4..];
    assert rest[..4] == rest;
    assert Members(host, [Four], rest) == [FieldOf(host, Four, rest)];
    assert RelMembers(host, s) == [FieldOf(host, Four, s[..4])] + Members(host, [Four], rest);
  }

  /** The bytes that store an entry. */
  function RelImage(r: Rel): (s: seq<byte>)
    ensures |s| == REL_SIZE
  {
    assert Layout(RelFields(r)) == REL_LAYOUT;
    assert LayoutSize([Four, Four]) == 8;
    Image(BigEndian, RelFields(r))
  }

  lemma RelReadBack(r: Rel)
    ensures RelStored(RelImage(r)) == r && RelIn(LittleEndian, RelImage(r)) == r
  {
    assert Layout(RelFields(r)) == REL_LAYOUT;
    MembersOfImage(BigEndian, RelFields(r));
    WordOfField(r.offset);
    WordOfField(r.info);
    RelOnLittleEndian(RelImage(r));
  }

  /** On a big-endian host an entry whose first member is not a palindrome is read wrong. */
  lemma RelOnBigEndian(s: seq<byte>)
    requires |s| == REL_SIZE && s[0] != s[3]
    ensures RelIn(BigEndian, s) != RelStored(s)
  {
    BothMembers(BigEndian, s);
    var raw := RelMembers(BigEndian, s);
    var first := raw[0];
    assert first == W(s[0], s[1], s[2], s[3]);
    BytesOfComposed(s[0], s[1], s[2], s[3]);
    assert RelStored(s).offset == WordOf(first);
    assert RelIn(BigEndian, s).offset == WordOf(SwapField(first)) by {
      SwapKeepsLayout(LittleEndian, raw);
    }
    BytesOfComposed(s[3], s[2], s[1], s[0]);
  }

  lemma SwappedOnLittleEndian(s: seq<byte>)
    requires |s| == REL_SIZE
    ensures SwapRel(RawRel(LittleEndian, s)) == RelStored(s)
  {
    RawRelSwapped(LittleEndian, s);
    RelOnLittleEndian(s);
  }

  lemma SwappedOnBigEndian(s: seq<byte>)
    requires |s| == REL_SIZE && s[0] != s[3]
    ensures SwapRel(RawRel(BigEndian, s)) != RelStored(s)
  {
    RawRelSwapped(BigEndian, s);
    RelOnBigEndian(s);
  }

  predicate ReadRight(host: Host, s: seq<byte>)
    requires |s| == REL_SIZE
  {
    SwapRel(RawRel(host, s)) == RelStored(s)
  }

  lemma SomeReadWrong() returns (s: seq<byte>)
    ensures |s| == REL_SIZE && !ReadRight(BigEndian, s)
  {
    s := seq(REL_SIZE, i => i);
    SwappedOnBigEndian(s);
  }

  /**
    swap_endianess_rel is unconditional, so a big-endian host does not get the stored
    entry: the relocation tables are read right exactly on little-endian hosts.
   */
  lemma RelReadRightIffLittleEndian(host: Host)
    ensures (forall s: seq<byte> | |s| == REL_SIZE :: ReadRight(host, s)) <==> host.LittleEndian?
  {
    forall s: seq<byte> | |s| == REL_SIZE
      ensures ReadRight(LittleEndian, s)
    {
      SwappedOnLittleEndian(s);
    }
    var wrong := SomeReadWrong();
  }

  function RelsIn(host: Host, c: seq<byte>, off: nat, n: nat): (r: seq<Rel>)
    requires off + 8 * n <= |c|
    ensures |r| == n
  {
    seq(n, i requires 0 <= i < n => RelIn(host, c[off + 8 * i..off + 8 * i + 8]))
  }

  function RelaMembers(host: Host, s: seq<byte>): (fs: seq<Field>)
    requires |s| == RELA_SIZE
    ensures Layout(fs) == RELA_LAYOUT
  {
    assert LayoutSize([Four, Four, Four]) == 12;
    Members(host, RELA_LAYOUT, s)
  }

  function RelaOf(fs: seq<Field>): Rela
    requires Layout(fs) == RELA_LAYOUT
  {
    assert forall i :: 0 <= i < 3 ==> WidthOf(fs[i]) == Layout(fs)[i];
    Rela(WordOf(fs[0]), WordOf(fs[1]), WordOf(fs[2]))
  }

  function RawRela(host: Host, s: seq<byte>): Rela
    requires |s| == RELA_SIZE
  {
    RelaOf(RelaMembers(host, s))
  }

  /** swap_endianess_rela. */
  function SwapRela(r: Rela): Rela {
    Rela(Reverse4(r.offset), Reverse4(r.info), Reverse4(r.addend))
  }

  /** What read_reltab holds for an entry with an addend. */
  function RelaIn(host: Host, s: seq<byte>): Rela
    requires |s| == RELA_SIZE
  {
    var raw := RelaMembers(host, s);
    SwapKeepsLayout(LittleEndian, raw);
    RelaOf(SwapAll(LittleEndian, raw))
  }

  lemma RawRelaSwapped(host: Host, s: seq<byte>)
    requires |s| == RELA_SIZE
    ensures SwapRela(RawRela(host, s)) == RelaIn(host, s)
  {
    var raw := RelaMembers(host, s);
    SwapKeepsLayout(LittleEndian, raw);
    assert forall i :: 0 <= i < 3 ==> WidthOf(raw[i]) == Layout(raw)[i];
    ReversedWord(raw[0]);
    ReversedWord(raw[1]);
    ReversedWord(raw[2]);
  }

  function RelasIn(host: Host, c: seq<byte>, off: nat, n: nat): (r: seq<Rela>)
    requires off + 12 * n <= |c|
    ensures |r| == n
  {
    seq(n, i requires 0 <= i < n => RelaIn(host, c[off + 12 * i..off + 12 * i + 12]))
  }

  predicate IsTable(s: Shdr) {
    s.stype == SHT_REL || s.stype == SHT_RELA
  }

  /**
    A relocation table that read_reltab can read: it lies in the file, and the
    swap, which counts entries of 8 bytes, stays inside the bytes that were read.
   */
  predicate Readable(s: Shdr, len: nat) {
    && (IsTable(s) ==> s.offset + s.size <= len)
    && (s.stype == SHT_RELA ==> 12 * (s.size / 8) <= s.size)
  }

  predicate RelTablesInFile(sections: seq<Shdr>, len: nat) {
    forall i :: 0 <= i < |sections| ==> Readable(sections[i], len)
  }

  /** What read_reltab appends for section i. */
  function TableOf(host: Host, c: seq<byte>, s: Shdr, i: nat): RelEntry
    requires IsTable(s) && Readable(s, |c|)
  {
    if s.stype == SHT_REL then RelEntry(i, s.stype % 0x100, RelsIn(host, c, s.offset, s.size / 8), [])
    else RelEntry(i, s.stype % 0x100, [], RelasIn(host, c, s.offset, s.size / 8))
  }

  /** The relocation tables among the first k sections. */
  function Reltab(host: Host, c: seq<byte>, sections: seq<Shdr>, k: nat): seq<RelEntry>
    requires k <= |sections| && RelTablesInFile(sections, |c|)
  {
    if k == 0 then []
    else if IsTable(sections[k - 1]) then
      Reltab(host, c, sections, k - 1) + [TableOf(host, c, sections[k - 1], k - 1)]
    else Reltab(host, c, sections, k - 1)
  }

  lemma {:induction false} ReltabSections(host: Host, c: seq<byte>, sections: seq<Shdr>, k: nat)
    requires k <= |sections| && RelTablesInFile(sections, |c|)
    ensures forall i :: 0 <= i < |Reltab(host, c, sections, k)| ==> Reltab(host, c, sections, k)[i].shndx < k
  {
    if k > 0 { ReltabSections(host, c, sections, k - 1); }
  }

  lemma {:induction false} NoTable(host: Host, c: seq<byte>, sections: seq<Shdr>, k: nat)
    requires k <= |sections| && RelTablesInFile(sections, |c|)
    requires forall i :: 0 <= i < k ==> !IsTable(sections[i])
    ensures Reltab(host, c, sections, k) == []
  {
    if k > 0 { NoTable(host, c, sections, k - 1); }
  }

  /** When only section r is a relocation table. */
  lemma {:induction false} OnlyTable(host: Host, c: seq<byte>, sections: seq<Shdr>, k: nat, r: nat)
    requires r < k <= |sections| && RelTablesInFile(sections, |c|)
    requires forall i :: 0 <= i < |sections| ==> (IsTable(sections[i]) <==> i == r)
    ensures Reltab(host, c, sections, k) == [TableOf(host, c, sections[r], r)]
  {
    if k - 1 == r {
      NoTable(host, c, sections, r);
    } else {
      OnlyTable(host, c, sections, k - 1, r);
    }
  }

  /** The entries of the first n tables, in the order they are applied. */
  function Entries(tables: seq<RelEntry>, n: nat): seq<Rel>
    requires n <= |tables|
  {
    if n == 0 then []
    else if tables[n - 1].relType == SHT_REL then Entries(tables, n - 1) + tables[n - 1].rels
    else Entries(tables, n - 1)
  }

  lemma {:induction false} EntriesGrow(tables: seq<RelEntry>, i: nat, n: nat)
    requires i <= n <= |tables|
    ensures |Entries(tables, i)| <= |Entries(tables, n)|
    ensures Entries(tables, n)[..|Entries(tables, i)|] == Entries(tables, i)
  {
    if i < n { EntriesGrow(tables, i, n - 1); }
  }

  /** Table t stands in all from position done on. */
  predicate StandsAt<T(==)>(t: seq<T>, all: seq<T>, done: nat) {
    done + |t| <= |all| && all[done..done + |t|] == t
  }

  lemma StandsThere<T>(t: seq<T>, all: seq<T>, done: nat, j: nat)
    requires StandsAt(t, all, done) && j < |t|
    ensures all[done + j] == t[j]
  {
    assert all[done..done + |t|][j] == all[done + j];
  }

  lemma EntriesOfTable(tables: seq<RelEntry>, i: nat)
    requires i < |tables| && tables[i].relType == SHT_REL
    ensures |Entries(tables, i + 1)| == |Entries(tables, i)| + |tables[i].rels|
    ensures StandsAt(tables[i].rels, Entries(tables, |tables|), |Entries(tables, i)|)
  {
    EntriesGrow(tables, i + 1, |tables|);
    var all, upTo, done := Entries(tables, |tables|), Entries(tables, i + 1), |Entries(tables, i)|;
    assert all[done..|upTo|] == all[..|upTo|][done..] == upTo[done..] == tables[i].rels;
  }

  // ----- one relocation -----

  /** The entry names an existing symbol, which is defined in an existing section. */
  predicate Resolves(o: Object, r: Rel) {
    r.SymIndex() < |o.symbols| && o.symbols[r.SymIndex()].shndx < |o.sections|
  }

  /** The file position of the word an entry patches. */
  function Place(o: Object, r: Rel): word
    requires Resolves(o, r)
  {
    PlaceIn(o, o.symbols[r.SymIndex()].shndx, r)
  }

  /** The position of r_offset in a section. */
  function PlaceIn(o: Object, section: nat, r: Rel): word
    requires section < |o.sections|
  {
    AddWord(o.sections[section].offset, r.offset)
  }

  predicate Applicable(o: Object, len: nat, r: Rel) {
    Resolves(o, r) && Place(o, r) + 4 <= len
  }

  predicate Supported(r: Rel) {
    r.Type() in {R_ARM_ABS32, R_ARM_ABS16, R_ARM_ABS8, R_ARM_CALL, R_ARM_JUMP24}
  }

  function WordAt(c: seq<byte>, p: nat): word
    requires p + 4 <= |c|
  {
    WordIn(BigEndian, c[p..p + 4])
  }

  function WordBytes(w: word): seq<byte> {
    WordImage(BigEndian, w)
  }

  lemma WordOfBytes(c: seq<byte>, p: nat, w: word)
    requires Holds(c, p, WordBytes(w))
    ensures WordAt(c, p) == w
  {
    WordRoundTrip(BigEndian, w);
  }

  /** The word a supported entry puts in place of the word w. */
  function NewWord(o: Object, r: Rel, w: word, b: Bases): word
    requires Resolves(o, r)
  {
    var address := Address(o, o.symbols[r.SymIndex()], b);
    if r.Type() == R_ARM_ABS32 then AddWord(w, address)
    else if r.Type() == R_ARM_ABS16 then AddWord(address, w) % 0x1_0000
    else if r.Type() == R_ARM_ABS8 then AddWord(address, w) % 0x100
    else AddWord(w, SubWord(address, r.offset))
  }

  /** One turn of the inner loop: the word is read in the source src, the patch goes to the destination. */
  function PatchFor(src: seq<byte>, o: Object, r: Rel, b: Bases): (p: Patch)
    requires Applicable(o, |src|, r)
    ensures p.at + |p.bytes| <= |src|
  {
    PatchAt(src, o, r, Place(o, r), b)
  }

  /** What an entry writes when its word is at a given position. */
  function PatchAt(src: seq<byte>, o: Object, r: Rel, at: nat, b: Bases): (p: Patch)
    requires Resolves(o, r) && at + 4 <= |src|
    ensures p.at + |p.bytes| <= |src|
  {
    Patch(at, if Supported(r) then WordBytes(NewWord(o, r, WordAt(src, at), b)) else [])
  }

  predicate AllApplicable(o: Object, len: nat, rels: seq<Rel>) {
    forall i :: 0 <= i < |rels| ==> Applicable(o, len, rels[i])
  }

  function Patches(src: seq<byte>, o: Object, rels: seq<Rel>, b: Bases): (ps: seq<Patch>)
    requires AllApplicable(o, |src|, rels)
    ensures AllFit(ps, |src|)
  {
    seq(|rels|, i requires 0 <= i < |rels| => PatchFor(src, o, rels[i], b))
  }

  lemma PatchesOfTable(src: seq<byte>, o: Object, all: seq<Rel>, b: Bases, done: nat, table: seq<Rel>)
    requires AllApplicable(o, |src|, all) && StandsAt(table, all, done)
    ensures AllApplicable(o, |src|, table)
    ensures StandsAt(Patches(src, o, table, b), Patches(src, o, all, b), done)
  {
    assert forall j :: 0 <= j < |table| ==> table[j] == all[done + j];
  }

  /** Table t writes the patches of ps from done to next. */
  predicate Turn(src: seq<byte>, o: Object, t: RelEntry, b: Bases, ps: seq<Patch>, done: nat, next: nat) {
    if t.relType != SHT_REL then next == done
    else
      && next == done + |t.rels|
      && AllApplicable(o, |src|, t.rels) && StandsAt(Patches(src, o, t.rels, b), ps, done)
  }

  /** Where the patches of each table start in ps, and where those of the last one end. */
  predicate Starts(src: seq<byte>, o: Object, tables: seq<RelEntry>, b: Bases, ps: seq<Patch>, starts: seq<nat>) {
    && |starts| == |tables| + 1 && starts[0] == 0 && starts[|tables|] == |ps|
    && (forall i :: 0 <= i <= |tables| ==> starts[i] <= |ps|)
    && forall i :: 0 <= i < |tables| ==> Turn(src, o, tables[i], b, ps, starts[i], starts[i + 1])
  }

  lemma TableTurn(src: seq<byte>, o: Object, tables: seq<RelEntry>, b: Bases, i: nat)
    requires i < |tables| && AllApplicable(o, |src|, Entries(tables, |tables|))
    ensures Turn(src, o, tables[i], b, Patches(src, o, Entries(tables, |tables|), b),
                 |Entries(tables, i)|, |Entries(tables, i + 1)|)
  {
    if tables[i].relType == SHT_REL {
      EntriesOfTable(tables, i);
      PatchesOfTable(src, o, Entries(tables, |tables|), b, |Entries(tables, i)|, tables[i].rels);
    }
  }

  lemma TableStarts(src: seq<byte>, o: Object, tables: seq<RelEntry>, b: Bases) returns (starts: seq<nat>)
    requires AllApplicable(o, |src|, Entries(tables, |tables|))
    ensures Starts(src, o, tables, b, Patches(src, o, Entries(tables, |tables|), b), starts)
  {
    starts := seq(|tables| + 1, i requires 0 <= i <= |tables| => |Entries(tables, i)|);
    forall i | 0 <= i <= |tables| { EntriesGrow(tables, i, |tables|); }
    forall i | 0 <= i < |tables| { TableTurn(src, o, tables, b, i); }
  }

  // ----- what a run of relocations does -----

  /** The words patched by different entries are disjoint. */
  predicate Independent(o: Object, rels: seq<Rel>)
    requires forall i :: 0 <= i < |rels| ==> Resolves(o, rels[i])
  {
    forall i, j :: 0 <= i < |rels| && 0 <= j < |rels| && Supported(rels[i]) && Supported(rels[j]) ==>
      rels[i] == rels[j] || Apart(Place(o, rels[i]), 4, Place(o, rels[j]), 4)
  }

  /**
    The order of the entries does not matter, nor does repeating one: words are
    read in the source, so the destination depends on the set of entries only.
   */
  lemma OrderIrrelevant(c: seq<byte>, src: seq<byte>, o: Object, rels: seq<Rel>, rels': seq<Rel>, b: Bases)
    requires |c| == |src| && AllApplicable(o, |src|, rels) && AllApplicable(o, |src|, rels')
    requires forall r :: r in rels <==> r in rels'
    requires Independent(o, rels)
    ensures PatchAll(c, Patches(src, o, rels, b), |rels|) == PatchAll(c, Patches(src, o, rels', b), |rels'|)
  {
    var ps, qs := Patches(src, o, rels, b), Patches(src, o, rels', b);
    PatchesIncluded(src, o, rels, rels', b);
    PatchesIncluded(src, o, rels', rels, b);
    IndependentCompatible(src, o, rels, b);
    PatchSetDetermines(c, ps, qs);
  }

  lemma PatchesIncluded(src: seq<byte>, o: Object, rels: seq<Rel>, rels': seq<Rel>, b: Bases)
    requires AllApplicable(o, |src|, rels) && AllApplicable(o, |src|, rels')
    requires forall r :: r in rels ==> r in rels'
    ensures forall p :: p in Patches(src, o, rels, b) ==> p in Patches(src, o, rels', b)
  {
    var ps, qs := Patches(src, o, rels, b), Patches(src, o, rels', b);
    forall p | p in ps
      ensures p in qs
    {
      var i :| 0 <= i < |rels| && ps[i] == p;
      assert rels[i] in rels';
      var j :| 0 <= j < |rels'| && rels'[j] == rels[i];
      assert qs[j] == p;
    }
  }

  lemma IndependentCompatible(src: seq<byte>, o: Object, rels: seq<Rel>, b: Bases)
    requires AllApplicable(o, |src|, rels) && Independent(o, rels)
    ensures AllCompatible(Patches(src, o, rels, b))
  {
    var ps := Patches(src, o, rels, b);
    forall i, j | 0 <= i < |ps| && 0 <= j < |ps|
      ensures Compatible(ps[i], ps[j])
    {
    }
  }

  /** Each supported entry leaves at its place the new value of the word read in the source. */
  lemma PlaceHoldsNewWord(c: seq<byte>, src: seq<byte>, o: Object, rels: seq<Rel>, b: Bases, j: nat)
    requires j < |rels| && |c| == |src| && AllApplicable(o, |src|, rels)
    requires Independent(o, rels) && Supported(rels[j])
    ensures
      var p, d := Place(o, rels[j]), PatchAll(c, Patches(src, o, rels, b), |rels|);
      WordAt(d, p) == NewWord(o, rels[j], WordAt(src, p), b)
  {
    var ps := Patches(src, o, rels, b);
    IndependentCompatible(src, o, rels, b);
    PatchHeld(c, ps, |rels|, j);
    var p := Place(o, rels[j]);
    WordOfBytes(PatchAll(c, ps, |rels|), p, NewWord(o, rels[j], WordAt(src, p), b));
  }

  /** An ABS32 word grows by the very value that rebasing stores for the symbol. */
  lemma Abs32MeetsSymbol(c: seq<byte>, src: seq<byte>, o: Object, rels: seq<Rel>, b: Bases, j: nat)
    requires j < |rels| && |c| == |src| && AllApplicable(o, |src|, rels)
    requires Independent(o, rels) && rels[j].Type() == R_ARM_ABS32
    ensures
      var p, d := Place(o, rels[j]), PatchAll(c, Patches(src, o, rels, b), |rels|);
      WordAt(d, p) == AddWord(WordAt(src, p), Rebased(o, b).symbols[rels[j].SymIndex()].value)
  {
    PlaceHoldsNewWord(c, src, o, rels, b, j);
  }

  // ----- the section that sh_info names -----

  /**
    The System V ABI has a relocation apply to the section in sh_info of the REL
    header; the code takes the section of the symbol. These are the sections in
    sh_info for the entries of the first n tables.
   */
  function Targets(o: Object, tables: seq<RelEntry>, n: nat): (ts: seq<nat>)
    requires n <= |tables| && forall i :: 0 <= i < |tables| ==> tables[i].shndx < |o.sections|
    ensures |ts| == |Entries(tables, n)|
  {
    if n == 0 then []
    else
      var t := tables[n - 1];
      if t.relType == SHT_REL then
        Targets(o, tables, n - 1) + seq(|t.rels|, _ => o.sections[t.shndx].info)
      else Targets(o, tables, n - 1)
  }

  predicate TargetsApplicable(o: Object, len: nat, rels: seq<Rel>, targets: seq<nat>) {
    && |targets| == |rels|
    && forall i :: 0 <= i < |rels| ==>
         Resolves(o, rels[i]) && targets[i] < |o.sections| && PlaceIn(o, targets[i], rels[i]) + 4 <= len
  }

  /** The patches that the ABI asks for. */
  function TargetPatches(src: seq<byte>, o: Object, rels: seq<Rel>, targets: seq<nat>, b: Bases): (ps: seq<Patch>)
    requires TargetsApplicable(o, |src|, rels, targets)
    ensures AllFit(ps, |src|)
  {
    seq(|rels|, i requires 0 <= i < |rels| => PatchAt(src, o, rels[i], PlaceIn(o, targets[i], rels[i]), b))
  }

  /** The symbol of an entry is defined in a section that starts where the target does. */
  predicate Coincide(o: Object, r: Rel, target: nat)
    requires Resolves(o, r) && target < |o.sections|
  {
    o.sections[o.symbols[r.SymIndex()].shndx].offset == o.sections[target].offset
  }

  predicate AllCoincide(o: Object, len: nat, rels: seq<Rel>, targets: seq<nat>)
    requires TargetsApplicable(o, len, rels, targets)
  {
    forall i :: 0 <= i < |rels| && Supported(rels[i]) ==> Coincide(o, rels[i], targets[i])
  }

  /** Supported entries patch what the ABI asks for exactly when the two sections start at the same offset. */
  lemma TargetPatchIff(src: seq<byte>, o: Object, rels: seq<Rel>, targets: seq<nat>, b: Bases)
    requires AllApplicable(o, |src|, rels) && TargetsApplicable(o, |src|, rels, targets)
    ensures
      var ps, qs := Patches(src, o, rels, b), TargetPatches(src, o, rels, targets, b);
      (forall i :: 0 <= i < |rels| && Supported(rels[i]) ==> ps[i] == qs[i])
      <==> AllCoincide(o, |src|, rels, targets)
  {
    var ps, qs := Patches(src, o, rels, b), TargetPatches(src, o, rels, targets, b);
    forall i | 0 <= i < |rels| && Supported(rels[i])
      ensures ps[i] == qs[i] <==> Coincide(o, rels[i], targets[i])
    {
      assert ps[i].at == Place(o, rels[i]) && qs[i].at == PlaceIn(o, targets[i], rels[i]);
    }
  }

  /** Then the whole run gives the destination that the ABI asks for. */
  lemma RunMeetsTargets(c: seq<byte>, src: seq<byte>, o: Object, rels: seq<Rel>, targets: seq<nat>, b: Bases)
    requires |c| == |src| && AllApplicable(o, |src|, rels) && TargetsApplicable(o, |src|, rels, targets)
    requires AllCoincide(o, |src|, rels, targets)
    ensures PatchAll(c, Patches(src, o, rels, b), |rels|) == PatchAll(c, TargetPatches(src, o, rels, targets, b), |rels|)
  {
    TargetPatchIff(src, o, rels, targets, b);
    EqualWrites(c, Patches(src, o, rels, b), TargetPatches(src, o, rels, targets, b), |rels|);
  }

  // ----- setting addresses moves nothing -----

  lemma AddressesOnly(o: Object, b: Bases)
    requires HasTextAndData(o)
    ensures
      var o1 := WithAddresses(o, b);
      && |o1.sections| == |o.sections|
      && forall i :: 0 <= i < |o.sections| ==> o1.sections[i] == o.sections[i].(addr := o1.sections[i].addr)
  {
  }

  lemma AddressesKeepPlaces(o: Object, b: Bases, len: nat, rels: seq<Rel>)
    requires HasTextAndData(o) && AllApplicable(o, len, rels)
    ensures AllApplicable(WithAddresses(o, b), len, rels)
    ensures forall i :: 0 <= i < |rels| ==>
      Resolves(WithAddresses(o, b), rels[i]) && Place(WithAddresses(o, b), rels[i]) == Place(o, rels[i])
  {
    AddressesOnly(o, b);
  }
}
