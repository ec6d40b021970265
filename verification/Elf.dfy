/**
  The ELF32 structures of <elf.h> that the program handles, their byte
  reversals, and the bytes fread and fwrite exchange with a file.
 */
module Elf {
  import opened Words

  const SHT_SYMTAB: word := 2
  const SHT_RELA: word := 4
  const SHT_REL: word := 9
  const SHT_SYMTAB_SHNDX: word := 18
  const SHN_UNDEF: half := 0
  const SHN_ABS: half := 0xfff1

  const EI_NIDENT := 16
  const EHDR_SIZE := 52
  const SHDR_SIZE := 40
  const SYM_SIZE := 16
  const REL_SIZE := 8

  type Ident = s: seq<byte> | |s| == EI_NIDENT witness [0, 0, 0, 0, 0, 0, 0, 0, 0, 0, 0, 0, 0, 0, 0, 0]

  datatype Ehdr = Ehdr(
    ident: Ident, etype: half, machine: half, version: word, entry: word, phoff: word,
    shoff: word, flags: word, ehsize: half, phentsize: half, phnum: half, shentsize: half,
    shnum: half, shstrndx: half)

  datatype Shdr = Shdr(
    name: word, stype: word, flags: word, addr: word, offset: word,
    size: word, link: word, info: word, addralign: word, entsize: word)

  datatype Sym = Sym(name: word, value: word, size: word, info: byte, other: byte, shndx: half)

  datatype Rel = Rel(offset: word, info: word) {
    /** ELF32_R_TYPE. */
    function Type(): byte { info % 0x100 }
    /** ELF32_R_SYM. */
    function SymIndex(): nat { info / 0x100 }
  }

  // ----- structures as lists of members -----

  const EHDR_LAYOUT := [Two, Two, Four, Four, Four, Four, Four, Two, Two, Two, Two, Two, Two]
  const SHDR_LAYOUT := [Four, Four, Four, Four, Four, Four, Four, Four, Four, Four]
  const SYM_LAYOUT := [Four, Four, Four, One, One, Two]
  const REL_LAYOUT := [Four, Four]

  /** The members of the header after e_ident. */
  function EhdrFields(e: Ehdr): seq<Field> {
    [HalfField(e.etype), HalfField(e.machine), WordField(e.version), WordField(e.entry), WordField(e.phoff),
     WordField(e.shoff), WordField(e.flags), HalfField(e.ehsize), HalfField(e.phentsize), HalfField(e.phnum),
     HalfField(e.shentsize), HalfField(e.shnum), HalfField(e.shstrndx)]
  }

  function ShdrFields(s: Shdr): seq<Field> {
    [WordField(s.name), WordField(s.stype), WordField(s.flags), WordField(s.addr), WordField(s.offset),
     WordField(s.size), WordField(s.link), WordField(s.info), WordField(s.addralign), WordField(s.entsize)]
  }

  function SymFields(s: Sym): seq<Field> {
    [WordField(s.name), WordField(s.value), WordField(s.size), B(s.info), B(s.other), HalfField(s.shndx)]
  }

  function RelFields(r: Rel): seq<Field> {
    [WordField(r.offset), WordField(r.info)]
  }

  function EhdrOf(ident: Ident, fs: seq<Field>): Ehdr
    requires Layout(fs) == EHDR_LAYOUT
  {
    assert forall i :: 0 <= i < 13 ==> WidthOf(fs[i]) == Layout(fs)[i];
    Ehdr(ident, HalfOf(fs[0]), HalfOf(fs[1]), WordOf(fs[2]), WordOf(fs[3]), WordOf(fs[4]), WordOf(fs[5]),
         WordOf(fs[6]), HalfOf(fs[7]), HalfOf(fs[8]), HalfOf(fs[9]), HalfOf(fs[10]), HalfOf(fs[11]), HalfOf(fs[12]))
  }

  function ShdrOf(fs: seq<Field>): Shdr
    requires Layout(fs) == SHDR_LAYOUT
  {
    assert forall i :: 0 <= i < 10 ==> WidthOf(fs[i]) == Layout(fs)[i];
    Shdr(WordOf(fs[0]), WordOf(fs[1]), WordOf(fs[2]), WordOf(fs[3]), WordOf(fs[4]),
         WordOf(fs[5]), WordOf(fs[6]), WordOf(fs[7]), WordOf(fs[8]), WordOf(fs[9]))
  }

  function SymOf(fs: seq<Field>): Sym
    requires Layout(fs) == SYM_LAYOUT
  {
    assert forall i :: 0 <= i < 6 ==> WidthOf(fs[i]) == Layout(fs)[i];
    Sym(WordOf(fs[0]), WordOf(fs[1]), WordOf(fs[2]), fs[3].b, fs[4].b, HalfOf(fs[5]))
  }

  function RelOf(fs: seq<Field>): Rel
    requires Layout(fs) == REL_LAYOUT
  {
    assert forall i :: 0 <= i < 2 ==> WidthOf(fs[i]) == Layout(fs)[i];
    Rel(WordOf(fs[0]), WordOf(fs[1]))
  }

  // ----- swap_endianess_* -----

  function SwapEhdr(e: Ehdr): Ehdr {
    Ehdr(e.ident, Reverse2(e.etype), Reverse2(e.machine), Reverse4(e.version), Reverse4(e.entry),
         Reverse4(e.phoff), Reverse4(e.shoff), Reverse4(e.flags), Reverse2(e.ehsize),
         Reverse2(e.phentsize), Reverse2(e.phnum), Reverse2(e.shentsize), Reverse2(e.shnum),
         Reverse2(e.shstrndx))
  }

  function SwapShdr(s: Shdr): Shdr {
    Shdr(Reverse4(s.name), Reverse4(s.stype), Reverse4(s.flags), Reverse4(s.addr),
         Reverse4(s.offset), Reverse4(s.size), Reverse4(s.link), Reverse4(s.info),
         Reverse4(s.addralign), Reverse4(s.entsize))
  }

  function SwapSym(s: Sym): Sym {
    Sym(Reverse4(s.name), Reverse4(s.value), Reverse4(s.size), s.info, s.other, Reverse2(s.shndx))
  }

  function SwapRel(r: Rel): Rel {
    Rel(Reverse4(r.offset), Reverse4(r.info))
  }

  lemma SwapEhdrTwice(e: Ehdr)
    ensures SwapEhdr(SwapEhdr(e)) == e
  {
    forall x: half { ReversedHalfTwice(x); }
    forall x: word { ReversedWordTwice(x); }
  }

  lemma SwapShdrTwice(s: Shdr)
    ensures SwapShdr(SwapShdr(s)) == s
  {
    forall x: word { ReversedWordTwice(x); }
  }

  lemma SwapSymTwice(s: Sym)
    ensures SwapSym(SwapSym(s)) == s
  {
    forall x: half { ReversedHalfTwice(x); }
    forall x: word { ReversedWordTwice(x); }
  }

  /** The structure as this host keeps it in memory while it writes it, and as it finds it after a read. */
  function FileEhdr(host: Host, e: Ehdr): Ehdr { if host.BigEndian? then e else SwapEhdr(e) }
  function FileShdr(host: Host, s: Shdr): Shdr { if host.BigEndian? then s else SwapShdr(s) }
  function FileSym(host: Host, s: Sym): Sym { if host.BigEndian? then s else SwapSym(s) }

  lemma EhdrLayoutSize()
    ensures LayoutSize(EHDR_LAYOUT) == EHDR_SIZE - EI_NIDENT
  {
    assert LayoutSize([Two, Two, Four, Four, Four, Four, Four, Two, Two, Two, Two, Two, Two]) == 36;
  }

  lemma ShdrLayoutSize()
    ensures LayoutSize(SHDR_LAYOUT) == SHDR_SIZE
  {
    assert LayoutSize([Four, Four, Four, Four, Four, Four, Four, Four, Four, Four]) == 40;
  }

  lemma SymLayoutSize()
    ensures LayoutSize(SYM_LAYOUT) == SYM_SIZE
  {
    assert LayoutSize([Four, Four, Four, One, One, Two]) == 16;
  }

  lemma EhdrLayout(e: Ehdr)
    ensures Layout(EhdrFields(e)) == EHDR_LAYOUT
  {
  }

  lemma EhdrShape(e: Ehdr)
    ensures Layout(EhdrFields(e)) == EHDR_LAYOUT && LayoutSize(EHDR_LAYOUT) == EHDR_SIZE - EI_NIDENT
  {
    EhdrLayout(e);
    EhdrLayoutSize();
  }

  lemma ShdrLayout(s: Shdr)
    ensures Layout(ShdrFields(s)) == SHDR_LAYOUT
  {
  }

  lemma ShdrShape(s: Shdr)
    ensures Layout(ShdrFields(s)) == SHDR_LAYOUT && LayoutSize(SHDR_LAYOUT) == SHDR_SIZE
  {
    ShdrLayout(s);
    ShdrLayoutSize();
  }

  lemma SymLayout(s: Sym)
    ensures Layout(SymFields(s)) == SYM_LAYOUT
  {
  }

  lemma SymShape(s: Sym)
    ensures Layout(SymFields(s)) == SYM_LAYOUT && LayoutSize(SYM_LAYOUT) == SYM_SIZE
  {
    SymLayout(s);
    SymLayoutSize();
  }

  // ----- what fwrite copies out of memory -----

  function EhdrImage(host: Host, e: Ehdr): (s: seq<byte>)
    ensures |s| == EHDR_SIZE
  {
    EhdrShape(e);
    e.ident + Image(host, EhdrFields(e))
  }

  function ShdrImage(host: Host, s: Shdr): (r: seq<byte>)
    ensures |r| == SHDR_SIZE
  {
    ShdrShape(s);
    Image(host, ShdrFields(s))
  }

  function SymImage(host: Host, s: Sym): (r: seq<byte>)
    ensures |r| == SYM_SIZE
  {
    SymShape(s);
    Image(host, SymFields(s))
  }

  function Concat(cells: seq<seq<byte>>): seq<byte> {
    if cells == [] then [] else Concat(cells[..|cells| - 1]) + cells[|cells| - 1]
  }

  /** Where cell i starts when each takes n bytes. */
  function CellOffset(n: nat, i: nat): nat {
    if i == 0 then 0 else CellOffset(n, i - 1) + n
  }

  lemma {:induction false} CellOffsetIs(n: nat, i: nat)
    ensures CellOffset(n, i) == n * i
  {
    if i > 0 {
      CellOffsetIs(n, i - 1);
      assert n * i == n * (i - 1) + n;
    }
  }

  lemma {:induction false} ConcatLength(cells: seq<seq<byte>>, n: nat)
    requires forall i :: 0 <= i < |cells| ==> |cells[i]| == n
    ensures |Concat(cells)| == CellOffset(n, |cells|)
  {
    if cells != [] { ConcatLength(cells[..|cells| - 1], n); }
  }

  lemma {:induction false} ConcatCell(cells: seq<seq<byte>>, n: nat, i: nat)
    requires i < |cells| && forall j :: 0 <= j < |cells| ==> |cells[j]| == n
    ensures CellOffset(n, i) + n <= |Concat(cells)|
    ensures Concat(cells)[CellOffset(n, i)..CellOffset(n, i) + n] == cells[i]
  {
    var k, p := |cells| - 1, CellOffset(n, i);
    var front, last := Concat(cells[..k]), cells[k];
    ConcatLength(cells[..k], n);
    if i < k {
      ConcatCell(cells[..k], n, i);
      assert (front + last)[p..p + n] == front[p..p + n];
    }
  }

  function ShdrImages(host: Host, xs: seq<Shdr>): seq<seq<byte>> {
    seq(|xs|, i requires 0 <= i < |xs| => ShdrImage(host, xs[i]))
  }

  function ShdrTable(host: Host, xs: seq<Shdr>): (r: seq<byte>)
    ensures |r| == 40 * |xs|
  {
    ConcatLength(ShdrImages(host, xs), 40);
    CellOffsetIs(40, |xs|);
    Concat(ShdrImages(host, xs))
  }

  function SymImages(host: Host, xs: seq<Sym>): seq<seq<byte>> {
    seq(|xs|, i requires 0 <= i < |xs| => SymImage(host, xs[i]))
  }

  function SymTable(host: Host, xs: seq<Sym>): (r: seq<byte>)
    ensures |r| == 16 * |xs|
  {
    ConcatLength(SymImages(host, xs), 16);
    CellOffsetIs(16, |xs|);
    Concat(SymImages(host, xs))
  }

  // ----- what a program holds after fread and the swap that follows it -----

  function EhdrMembers(host: Host, s: seq<byte>): (fs: seq<Field>)
    requires |s| == EHDR_SIZE - EI_NIDENT
    ensures Layout(fs) == EHDR_LAYOUT
  {
    EhdrLayoutSize();
    Members(host, EHDR_LAYOUT, s)
  }

  function EhdrIn(host: Host, s: seq<byte>): Ehdr
    requires |s| == EHDR_SIZE
  {
    var raw := EhdrMembers(host, s[EI_NIDENT..]);
    SwapKeepsLayout(host, raw);
    EhdrOf(s[..EI_NIDENT], SwapAll(host, raw))
  }

  /** The structures as fread leaves them in the memory of a host. */
  function RawShdr(host: Host, s: seq<byte>): Shdr
    requires |s| == SHDR_SIZE
  {
    ShdrLayoutSize();
    ShdrOf(Members(host, SHDR_LAYOUT, s))
  }

  function RawSym(host: Host, s: seq<byte>): Sym
    requires |s| == SYM_SIZE
  {
    SymLayoutSize();
    SymOf(Members(host, SYM_LAYOUT, s))
  }

  function ShdrIn(host: Host, s: seq<byte>): Shdr
    requires |s| == SHDR_SIZE
  {
    ShdrLayoutSize();
    var raw := Members(host, SHDR_LAYOUT, s);
    SwapKeepsLayout(host, raw);
    ShdrOf(SwapAll(host, raw))
  }

  function SymIn(host: Host, s: seq<byte>): Sym
    requires |s| == SYM_SIZE
  {
    SymLayoutSize();
    var raw := Members(host, SYM_LAYOUT, s);
    SwapKeepsLayout(host, raw);
    SymOf(SwapAll(host, raw))
  }

  // ... and for tables that start at an offset of the file c

  function ShdrsIn(host: Host, c: seq<byte>, off: nat, n: nat): (xs: seq<Shdr>)
    requires off + 40 * n <= |c|
    ensures |xs| == n
  {
    seq(n, i requires 0 <= i < n => ShdrIn(host, c[off + 40 * i..off + 40 * i + 40]))
  }

  function SymsIn(host: Host, c: seq<byte>, off: nat, n: nat): (xs: seq<Sym>)
    requires off + 16 * n <= |c|
    ensures |xs| == n
  {
    seq(n, i requires 0 <= i < n => SymIn(host, c[off + 16 * i..off + 16 * i + 16]))
  }

  // ----- the file is the same on every host -----

  lemma EhdrFieldsSwapped(host: Host, e: Ehdr)
    ensures EhdrFields(FileEhdr(host, e)) == SwapAll(host, EhdrFields(e))
  {
    FieldOfReversedHalf(e.etype);
    FieldOfReversedHalf(e.machine);
    FieldOfReversedWord(e.version);
    FieldOfReversedWord(e.entry);
    FieldOfReversedWord(e.phoff);
    FieldOfReversedWord(e.shoff);
    FieldOfReversedWord(e.flags);
    FieldOfReversedHalf(e.ehsize);
    FieldOfReversedHalf(e.phentsize);
    FieldOfReversedHalf(e.phnum);
    FieldOfReversedHalf(e.shentsize);
    FieldOfReversedHalf(e.shnum);
    FieldOfReversedHalf(e.shstrndx);
  }

  lemma ShdrFieldsSwapped(host: Host, s: Shdr)
    ensures ShdrFields(FileShdr(host, s)) == SwapAll(host, ShdrFields(s))
  {
    FieldOfReversedWord(s.name);
    FieldOfReversedWord(s.stype);
    FieldOfReversedWord(s.flags);
    FieldOfReversedWord(s.addr);
    FieldOfReversedWord(s.offset);
    FieldOfReversedWord(s.size);
    FieldOfReversedWord(s.link);
    FieldOfReversedWord(s.info);
    FieldOfReversedWord(s.addralign);
    FieldOfReversedWord(s.entsize);
  }

  lemma SymFieldsSwapped(host: Host, s: Sym)
    ensures SymFields(FileSym(host, s)) == SwapAll(host, SymFields(s))
  {
    FieldOfReversedWord(s.name);
    FieldOfReversedWord(s.value);
    FieldOfReversedWord(s.size);
    FieldOfReversedHalf(s.shndx);
  }

  lemma EhdrWrittenAlike(host: Host, e: Ehdr)
    ensures EhdrImage(host, FileEhdr(host, e)) == EhdrImage(BigEndian, e)
  {
    EhdrFieldsSwapped(host, e);
    WrittenAlike(host, EhdrFields(e));
  }

  lemma ShdrWrittenAlike(host: Host, held: Shdr, s: Shdr)
    requires held == FileShdr(host, s)
    ensures ShdrImage(host, held) == ShdrImage(BigEndian, s)
  {
    ShdrFieldsSwapped(host, s);
    WrittenAlike(host, ShdrFields(s));
  }

  lemma SymWrittenAlike(host: Host, s: Sym)
    ensures SymImage(host, FileSym(host, s)) == SymImage(BigEndian, s)
  {
    SymFieldsSwapped(host, s);
    WrittenAlike(host, SymFields(s));
  }

  lemma ShdrTableWrittenAlike(host: Host, held: seq<Shdr>, xs: seq<Shdr>)
    requires |held| == |xs| && forall i :: 0 <= i < |xs| ==> held[i] == FileShdr(host, xs[i])
    ensures ShdrTable(host, held) == ShdrTable(BigEndian, xs)
  {
    forall i | 0 <= i < |xs| { ShdrWrittenAlike(host, held[i], xs[i]); }
    assert ShdrImages(host, held) == ShdrImages(BigEndian, xs);
  }

  lemma SymTableWrittenAlike(host: Host, held: seq<Sym>, xs: seq<Sym>)
    requires |held| == |xs| && forall i :: 0 <= i < |xs| ==> held[i] == FileSym(host, xs[i])
    ensures SymTable(host, held) == SymTable(BigEndian, xs)
  {
    forall i | 0 <= i < |xs| { SymWrittenAlike(host, xs[i]); }
    assert SymImages(host, held) == SymImages(BigEndian, xs);
  }

  // ----- a file means the same on every host -----

  lemma SliceOfSlice(c: seq<byte>, p: nat, n: nat, q: nat, m: nat)
    requires p + n <= |c| && q + m <= n
    ensures c[p..p + n][q..q + m] == c[p + q..p + q + m]
  {
    var t, u := c[p..p + n][q..q + m], c[p + q..p + q + m];
    assert forall k :: 0 <= k < m ==> t[k] == u[k];
  }

  lemma EhdrInFileOrder(host: Host, ident: Ident, raw: seq<Field>)
    requires Layout(raw) == EHDR_LAYOUT
    ensures Layout(SwapAll(host, raw)) == EHDR_LAYOUT
    ensures FileEhdr(host, EhdrOf(ident, raw)) == EhdrOf(ident, SwapAll(host, raw))
  {
    SwapKeepsLayout(host, raw);
    assert forall i :: 0 <= i < 13 ==> WidthOf(raw[i]) == Layout(raw)[i];
    forall i | 0 <= i < 13 && raw[i].W? { ReversedWord(raw[i]); }
    forall i | 0 <= i < 13 && raw[i].H? { ReversedHalf(raw[i]); }
  }

  lemma ShdrInFileOrder(host: Host, raw: seq<Field>)
    requires Layout(raw) == SHDR_LAYOUT
    ensures Layout(SwapAll(host, raw)) == SHDR_LAYOUT
    ensures FileShdr(host, ShdrOf(raw)) == ShdrOf(SwapAll(host, raw))
  {
    SwapKeepsLayout(host, raw);
    assert forall i :: 0 <= i < 10 ==> WidthOf(raw[i]) == Layout(raw)[i];
    forall i | 0 <= i < 10 && raw[i].W? { ReversedWord(raw[i]); }
  }

  lemma SymInFileOrder(host: Host, raw: seq<Field>)
    requires Layout(raw) == SYM_LAYOUT
    ensures Layout(SwapAll(host, raw)) == SYM_LAYOUT
    ensures FileSym(host, SymOf(raw)) == SymOf(SwapAll(host, raw))
  {
    SwapKeepsLayout(host, raw);
    assert forall i :: 0 <= i < 6 ==> WidthOf(raw[i]) == Layout(raw)[i];
    forall i | 0 <= i < 6 && raw[i].W? { ReversedWord(raw[i]); }
    forall i | 0 <= i < 6 && raw[i].H? { ReversedHalf(raw[i]); }
  }

  /** What the swap that follows a read makes of a section header. */
  lemma RawShdrSwapped(host: Host, s: seq<byte>)
    requires |s| == SHDR_SIZE
    ensures FileShdr(host, RawShdr(host, s)) == ShdrIn(host, s)
  {
    ShdrLayoutSize();
    ShdrInFileOrder(host, Members(host, SHDR_LAYOUT, s));
  }

  lemma RawSymSwapped(host: Host, s: seq<byte>)
    requires |s| == SYM_SIZE
    ensures FileSym(host, RawSym(host, s)) == SymIn(host, s)
  {
    SymLayoutSize();
    SymInFileOrder(host, Members(host, SYM_LAYOUT, s));
  }

  lemma EhdrReadAlike(host: Host, s: seq<byte>)
    requires |s| == EHDR_SIZE
    ensures EhdrIn(host, s) == EhdrIn(BigEndian, s)
  {
    EhdrLayoutSize();
    var t := s[EI_NIDENT..];
    ReadAlike(host, EHDR_LAYOUT, t);
  }

  lemma ShdrReadAlike(host: Host, s: seq<byte>)
    requires |s| == SHDR_SIZE
    ensures ShdrIn(host, s) == ShdrIn(BigEndian, s)
  {
    ShdrLayoutSize();
    ReadAlike(host, SHDR_LAYOUT, s);
  }

  lemma SymReadAlike(host: Host, s: seq<byte>)
    requires |s| == SYM_SIZE
    ensures SymIn(host, s) == SymIn(BigEndian, s)
  {
    SymLayoutSize();
    ReadAlike(host, SYM_LAYOUT, s);
  }

  lemma ShdrsReadAlike(host: Host, c: seq<byte>, off: nat, n: nat)
    requires off + 40 * n <= |c|
    ensures ShdrsIn(host, c, off, n) == ShdrsIn(BigEndian, c, off, n)
  {
    forall i | 0 <= i < n { ShdrReadAlike(host, c[off + 40 * i..off + 40 * i + 40]); }
  }

  lemma ShdrsUnmoved(c: seq<byte>, d: seq<byte>, off: nat, n: nat)
    requires off + 40 * n <= |c| && off + 40 * n <= |d|
    requires c[off..off + 40 * n] == d[off..off + 40 * n]
    ensures ShdrsIn(BigEndian, c, off, n) == ShdrsIn(BigEndian, d, off, n)
  {
    forall i | 0 <= i < n
      ensures c[off + 40 * i..off + 40 * i + 40] == d[off + 40 * i..off + 40 * i + 40]
    {
      SliceOfSlice(c, off, 40 * n, 40 * i, 40);
      SliceOfSlice(d, off, 40 * n, 40 * i, 40);
    }
  }

  lemma SymsReadAlike(host: Host, c: seq<byte>, off: nat, n: nat)
    requires off + 16 * n <= |c|
    ensures SymsIn(host, c, off, n) == SymsIn(BigEndian, c, off, n)
  {
    forall i | 0 <= i < n { SymReadAlike(host, c[off + 16 * i..off + 16 * i + 16]); }
  }

  lemma SymsUnmoved(c: seq<byte>, d: seq<byte>, off: nat, n: nat)
    requires off + 16 * n <= |c| && off + 16 * n <= |d|
    requires c[off..off + 16 * n] == d[off..off + 16 * n]
    ensures SymsIn(BigEndian, c, off, n) == SymsIn(BigEndian, d, off, n)
  {
    forall i | 0 <= i < n
      ensures c[off + 16 * i..off + 16 * i + 16] == d[off + 16 * i..off + 16 * i + 16]
    {
      SliceOfSlice(c, off, 16 * n, 16 * i, 16);
      SliceOfSlice(d, off, 16 * n, 16 * i, 16);
    }
  }

  // ----- reading undoes writing -----

  lemma EhdrOfFields(e: Ehdr)
    ensures Layout(EhdrFields(e)) == EHDR_LAYOUT && EhdrOf(e.ident, EhdrFields(e)) == e
  {
    EhdrLayout(e);
    forall x: word { WordOfField(x); }
  }

  lemma EhdrOfMembers(s: seq<byte>, ident: Ident, fs: seq<Field>)
    requires Layout(fs) == EHDR_LAYOUT && |s| == EHDR_SIZE
    requires s[..EI_NIDENT] == ident && EhdrMembers(BigEndian, s[EI_NIDENT..]) == fs
    ensures EhdrIn(BigEndian, s) == EhdrOf(ident, fs)
  {
    assert SwapAll(BigEndian, fs) == fs;
  }

  lemma EhdrOfImage(ident: Ident, fs: seq<Field>)
    requires Layout(fs) == EHDR_LAYOUT
    ensures |ident + Image(BigEndian, fs)| == EHDR_SIZE
    ensures EhdrIn(BigEndian, ident + Image(BigEndian, fs)) == EhdrOf(ident, fs)
  {
    EhdrLayoutSize();
    var t := Image(BigEndian, fs);
    MembersOfImage(BigEndian, fs);
    assert (ident + t)[..EI_NIDENT] == ident && (ident + t)[EI_NIDENT..] == t;
    EhdrOfMembers(ident + t, ident, fs);
  }

  lemma EhdrReadBack(e: Ehdr)
    ensures EhdrIn(BigEndian, EhdrImage(BigEndian, e)) == e
  {
    EhdrOfFields(e);
    EhdrOfImage(e.ident, EhdrFields(e));
  }

  lemma ShdrOfFields(s: Shdr)
    ensures Layout(ShdrFields(s)) == SHDR_LAYOUT && ShdrOf(ShdrFields(s)) == s
  {
    ShdrLayout(s);
    forall x: word { WordOfField(x); }
  }

  lemma ShdrReadBack(s: Shdr)
    ensures ShdrIn(BigEndian, ShdrImage(BigEndian, s)) == s
  {
    ShdrShape(s);
    MembersOfImage(BigEndian, ShdrFields(s));
    ShdrOfFields(s);
    assert SwapAll(BigEndian, ShdrFields(s)) == ShdrFields(s);
  }

  lemma SymOfFields(s: Sym)
    ensures Layout(SymFields(s)) == SYM_LAYOUT && SymOf(SymFields(s)) == s
  {
    SymLayout(s);
    forall x: word { WordOfField(x); }
  }

  lemma SymReadBack(s: Sym)
    ensures SymIn(BigEndian, SymImage(BigEndian, s)) == s
  {
    SymShape(s);
    MembersOfImage(BigEndian, SymFields(s));
    SymOfFields(s);
    assert SwapAll(BigEndian, SymFields(s)) == SymFields(s);
  }

  lemma ShdrTableEntry(host: Host, xs: seq<Shdr>, i: nat)
    requires i < |xs|
    ensures ShdrTable(host, xs)[40 * i..40 * i + 40] == ShdrImage(host, xs[i])
  {
    ConcatCell(ShdrImages(host, xs), 40, i);
    CellOffsetIs(40, i);
  }

  lemma ShdrEntryHeld(c: seq<byte>, off: nat, xs: seq<Shdr>, i: nat)
    requires i < |xs|
    requires off + 40 * |xs| <= |c| && c[off..off + 40 * |xs|] == ShdrTable(BigEndian, xs)
    ensures c[off + 40 * i..off + 40 * i + 40] == ShdrImage(BigEndian, xs[i])
  {
    SliceOfSlice(c, off, 40 * |xs|, 40 * i, 40);
    ShdrTableEntry(BigEndian, xs, i);
  }

  lemma ShdrEntryReadBack(c: seq<byte>, off: nat, xs: seq<Shdr>, i: nat)
    requires i < |xs|
    requires off + 40 * |xs| <= |c| && c[off..off + 40 * |xs|] == ShdrTable(BigEndian, xs)
    ensures ShdrIn(BigEndian, c[off + 40 * i..off + 40 * i + 40]) == xs[i]
  {
    ShdrEntryHeld(c, off, xs, i);
    ShdrReadBack(xs[i]);
  }

  lemma ShdrTableReadBack(c: seq<byte>, off: nat, xs: seq<Shdr>)
    requires off + 40 * |xs| <= |c| && c[off..off + 40 * |xs|] == ShdrTable(BigEndian, xs)
    ensures ShdrsIn(BigEndian, c, off, |xs|) == xs
  {
    var read := ShdrsIn(BigEndian, c, off, |xs|);
    forall i | 0 <= i < |xs|
      ensures read[i] == xs[i]
    {
      ShdrEntryReadBack(c, off, xs, i);
    }
  }

  lemma SymTableEntry(host: Host, xs: seq<Sym>, i: nat)
    requires i < |xs|
    ensures SymTable(host, xs)[16 * i..16 * i + 16] == SymImage(host, xs[i])
  {
    ConcatCell(SymImages(host, xs), 16, i);
    CellOffsetIs(16, i);
  }

  lemma SymEntryHeld(c: seq<byte>, off: nat, xs: seq<Sym>, i: nat)
    requires i < |xs|
    requires off + 16 * |xs| <= |c| && c[off..off + 16 * |xs|] == SymTable(BigEndian, xs)
    ensures c[off + 16 * i..off + 16 * i + 16] == SymImage(BigEndian, xs[i])
  {
    SliceOfSlice(c, off, 16 * |xs|, 16 * i, 16);
    SymTableEntry(BigEndian, xs, i);
  }

  lemma SymEntryReadBack(c: seq<byte>, off: nat, xs: seq<Sym>, i: nat)
    requires i < |xs|
    requires off + 16 * |xs| <= |c| && c[off..off + 16 * |xs|] == SymTable(BigEndian, xs)
    ensures SymIn(BigEndian, c[off + 16 * i..off + 16 * i + 16]) == xs[i]
  {
    SymEntryHeld(c, off, xs, i);
    SymReadBack(xs[i]);
  }

  lemma SymTableReadBack(c: seq<byte>, off: nat, xs: seq<Sym>)
    requires off + 16 * |xs| <= |c| && c[off..off + 16 * |xs|] == SymTable(BigEndian, xs)
    ensures SymsIn(BigEndian, c, off, |xs|) == xs
  {
    var read := SymsIn(BigEndian, c, off, |xs|);
    forall i | 0 <= i < |xs|
      ensures read[i] == xs[i]
    {
      SymEntryReadBack(c, off, xs, i);
    }
  }
}
