# Verification of the ELF linker exercise

A Dafny model of the parts of this repository that compute something, with proofs.
`dafny verify dfyconfig.toml` checks the whole project.

What is modelled, and where:

- **The relocating section stripper**, option `-R` of `my_readelf`.
  `Words.dfy` and `Elf.dfy` hold the ELF32 structures, their byte images on hosts of both byte orders
  and the byte swaps; `FileModel.dfy` a `FILE*` over a byte array and runs of writes.
  `Stripping.dfy` says what one deletion and a whole deletion run do to the object in memory,
  `ElfFile.dfy` what they do to the file, `Relocation.dfy` what relocations and symbol rebasing do,
  and `StripRun.dfy` puts the three passes together. `Sample.dfy` exhibits files that meet all the
  conditions of the main result, and failing inputs.
  `MyElf.dfy` and `MyReadelf.dfy` are the program itself: arrays changed in place, seeks, reads and
  writes, each method proved against those functions.
- **The client of the GDB remote protocol.** `ScannerTables.dfy` and `ScannerRules.dfy` hold the tables
  of `scanner.c` and the rules of `scanner.l`; `Matcher.dfy` proves that the table-driven loop returns
  the longest match of the earliest rule. `GdbFrames.dfy` has the packets as values, `GdbLink.dfy` the
  protocol over whole runs, `GdbMemory.dfy` what a run leaves in the memory of the target, and
  `GdbProtocol.dfy` the client with its buffers filled in place.
- **The buffered reader of `csapp.c`** (`Rio.dfy`), **the line filter `filtre.pl`** (`Filtre.dfy`) and
  **the sorted name table of `debug.c`** (`DebugSet.dfy`).

The main theorems are

1. `MyReadelf.Strip` and `StripRun.RereadGivesMemory`: reading the destination of `-R` again, on any host, gives exactly
   the object the program holds when it ends;
2. `Stripping.StripIsCompaction`, `SymbolKeepsItsSection` and `IndicesKeepTheirSections`: the repeated
   in-place deletions are one order-preserving compaction, and every live index follows its section;
3. `Relocation.OrderIrrelevant`, `StripRun.FinalWordIsNew` and `FinalWordMeetsFinalSymbol`: relocations
   commute, every patched word of the finished file has its new value, and patched words and rebased
   symbols agree;
4. `Matcher.YyMatch`: the compressed tables refine the lexical rules;
5. `GdbFrames.ScanUndoesSend`, `GdbMemory.MemoryRunArrives` and `GdbProtocol.WriteMemory`: whatever is
   received during a memory write and however often frames are repeated, a receiver that scans the
   bytes on the wire and performs every write it finds ends with the buffer in its memory;
6. `GdbLink.RunAccount`: over every run and all received bytes, the acknowledgements and requests are
   counted and the frames on the wire are given exactly;
7. `Rio.RunCalls`: no byte is lost or repeated by any mix of reads, short reads and errors, and without
   failing reads what the callers get does not depend on how the reads were cut;
8. `Filtre.ScriptFollowsNesting` and `TwoPassesAreOne`: the one-pass stack machine has the meaning of the
   block tree, and filtering composes;
9. `DebugSet.AddThenAsk` and `OrderIrrelevant`: the table is the set of the names inserted.

Some properties that one might expect are false of the code. For each the exact condition is proved,
and an input that fails is given:

- relocation entries are read right exactly on little-endian hosts
  (`Relocation.RelReadRightIffLittleEndian`; `Relocation.SomeReadWrong` gives eight bytes that are not);
- an entry patches the word the ABI means exactly when the section of its symbol starts where that of
  sh_info does (`Relocation.TargetPatchIff`); `Sample.RelocatedInWrongSection` gives a file served by
  `-R` where an entry for .text leaves the word of .text as it was and changes that of .data;
- a symbol denotes after the run the section it denoted before exactly when that section is kept
  (`Stripping.SymbolKeepsItsSection`); `Sample.SymbolLosesItsSection` gives a file where one does not;
- the packets of a memory write fit the packet buffer exactly when the escaped data is at most 1000 bytes
  (`GdbFrames.PacketsFitIff`; 1001 zero bytes do not, `GdbFrames.PacketsMayNotFit`);
- `rio_writen` fails exactly when a failing write, or a write of 0 bytes while errno does not still hold
  EINTR, comes before the earlier writes have taken all the bytes (`Rio.WriteFailsIff`); a first write of
  0 bytes is an error, the same after an interruption is not (`Rio.EmptyWriteDependsOnErrno`).

## Model

| member | source | states |
|---|---|---|
| `Words.WordWrittenAlike` | util.h:29-30 | a word reversed on little-endian hosts is written as the same bytes by every host |
| `Words.WordReadAlike` | util.h:29-30 | a word read and then reversed on little-endian hosts has the same value on every host |
| `Words.MembersOfImage` | my_elf.c:61-90 | reading a structure member by member inverts writing it, on either host |
| `Words.WrittenAlike` | my_elf.c:677-703 | a whole swapped structure is written as the same bytes by every host |
| `Elf.EhdrReadBack` | my_elf.c:61-90 | reading a written header gives the header |
| `Elf.ShdrTableReadBack` | my_elf.c:280-302 | where a written section table stands in a file, reading it gives the table |
| `Elf.SymTableReadBack` | my_elf.c:390-419 | where a written symbol table stands in a file, reading it gives the table |
| `FileModel.PatchSetDetermines` | my_elf.c:822-885 | the content after a run of compatible writes depends on the set of writes only, not on order or repetition |
| `Stripping.StripIsCompaction` | my_elf.c:717-735 | the loop of in-place deletions equals one closed form: the order-preserving filter of the non-REL headers with renumbered symbols, links and indices |
| `Stripping.SectionAfterStrip` | my_elf.c:717-735 | a kept section is found after the run at its index minus the REL sections below it, unchanged but for sh_link |
| `Stripping.SymbolKeepsItsSection` | my_elf.c:621-640 | a symbol ends with its section number lowered by the REL sections below it; it denotes the same section if and only if that section is kept; undefined and reserved numbers are unchanged |
| `Stripping.IndicesKeepTheirSections` | my_elf.c:657-675 | symtabIndex, e_shstrndx and the symbol table's sh_link designate after the run the sections they designated before |
| `ElfFile.SaveReflects` | my_elf.c:677-703 | after the three writes the file reads back as the object in memory |
| `ElfFile.SaveElsewhere` | my_elf.c:692-703 | the three writes change no byte outside the header and the two tables |
| `ElfFile.StripFileReflects` | my_elf.c:717-735 | the file and the memory stay in step through the whole deletion run |
| `ElfFile.StripFileElsewhere` | my_elf.c:717-735 | a deletion run changes no byte outside the header and the two tables |
| `ElfFile.ReadAlikeOnHosts` | my_elf.c:61-90 | a file means the same object on hosts of both byte orders |
| `ElfFile.ReflectsRead` | my_elf.c:280-302 | the readers, run on a file that holds a coherent object, give that object |
| `Relocation.RelReadRightIffLittleEndian` | my_elf.c:470-476 | swap_endianess_rel applied to what fread leaves gives the stored entry, for all eight bytes, if and only if the host is little-endian |
| `Relocation.SomeReadWrong` | my_elf.c:470-476 | on a big-endian host there are bytes that it does not read right |
| `Relocation.OrderIrrelevant` | my_elf.c:822-885 | when the patched words are disjoint, any order and repetition of the entries gives the same destination bytes |
| `Relocation.PlaceHoldsNewWord` | my_elf.c:858-882 | each supported entry leaves at its place the new value of the word read in the source |
| `Relocation.Abs32MeetsSymbol` | my_elf.c:838-862 | an ABS32 word grows, modulo 2 to the 32, by the value rebasing stores for its symbol |
| `Relocation.TargetPatchIff` | my_elf.c:839-852 | every supported entry patches what the System V ABI asks for, in the section of sh_info, if and only if the section of its symbol starts at the same offset |
| `Relocation.RunMeetsTargets` | my_elf.c:822-885 | then the whole run gives the destination the ABI asks for |
| `StripRun.WrittenObjectReads` | my_elf.c:677-703 | serialisation round trip: a whole object whose tables and names do not overlap, written into a long enough file, is read back by every host |
| `StripRun.ElsewhereUnchanged` | my_readelf.c:154-164 | every byte outside the tables and the relocation places is that of the source |
| `StripRun.FinalObjectClosed` | my_readelf.c:154-164 | the object left in memory is the compacted one, with section addresses, rebased symbols and renumbered sections |
| `StripRun.RereadGivesMemory` | my_readelf.c:154-164 | reading the finished destination on any host gives exactly the object left in memory |
| `StripRun.FinalWordMeetsFinalSymbol` | my_readelf.c:160-164 | in the finished file each ABS32 place holds the source word plus the st_value of its symbol in the finished symbol table |
| `StripRun.FinalWordIsNew` | my_elf.c:853-882 | in the finished file the place of every supported entry holds the new value of the source word |
| `StripRun.FinalWordInTarget` | my_elf.c:839-882 | when the sections agree, that place is the one in the section of sh_info |
| `StripRun.RelocatedMeetsTargets` | my_elf.c:822-885 | then the relocated destination, before symbols are written and sections deleted, is the one the ABI asks for |
| `StripRun.EntryMisplaced` | my_elf.c:839-882 | an ABS32 entry whose symbol lies elsewhere leaves the word in the section of sh_info as it was, which is not its new value, and changes the word in the section of the symbol |
| `MyElf.FindSection` | my_elf.c:599-619 | the loop finds the first section of that name, or answers -1 |
| `MyElf.Elf32.UpdateSymShndx` | my_elf.c:621-640 | in place, exactly the symbols that held the old number hold the new one |
| `MyElf.Elf32.ShiftSections` | my_elf.c:657-666 | after the loop the cells are shifted, the symbols renumbered once each, and symtabIndex is on the symbol table |
| `MyElf.Elf32.MetAJourShlink` | my_elf.c:1074-1093 | the links of SYMTAB, SYMTAB_SHNDX and REL headers are rewritten, everything else is unchanged |
| `MyElf.Elf32.WriteTables` | my_elf.c:677-712 | swap, three writes and swap back leave memory unchanged and save header, section table and symbol table |
| `MyElf.Elf32.SupprimeSh` | my_elf.c:642-715 | a deletion computes the specified object and saves it in the file |
| `MyElf.Elf32.SupprimeRelSections` | my_elf.c:717-735 | the loop ends (shnum - i decreases) with the object and the file of the specified run |
| `MyElf.Elf32.FwriteShAddr` | my_elf.c:775-802 | the addresses of .text and .data are set in memory and in the file |
| `MyElf.Elf32.CorrigerSymboles` | my_elf.c:737-773 | every symbol is rebased by the address of its section, in memory and in the file |
| `MyElf.Elf32.AbsoluteAddress` | my_elf.c:842-848 | the address used in a relocation is the rebased value of the symbol |
| `MyElf.Elf32.ApplyRelocation` | my_elf.c:829-883 | one entry reads its word in the source and writes the specified patch in the destination, or nothing when its type is unsupported |
| `MyElf.Elf32.AppliquerRelocations` | my_elf.c:803-886 | the destination holds the section addresses and then the patches of all REL entries in order |
| `MyReadelf.ReadHeader` | my_elf.c:61-90 | the header is the one stored in the file; a short read is reported |
| `MyReadelf.ReadShtable` | my_elf.c:280-302 | the fread and, on a little-endian host, the loop that swaps each header leave the table stored in the file |
| `MyReadelf.FindSymtab` | my_elf.c:394-397 | the index of the first SYMTAB section |
| `MyReadelf.ReadSymbol` | my_elf.c:410-415 | one turn: the fread and, on a little-endian host, the swap give the symbol stored at the position |
| `MyReadelf.ReadSymbols` | my_elf.c:401-417 | the symbols, read and swapped one by one, are those stored in the file |
| `MyReadelf.ReadRels` | my_elf.c:527-535 | the fread and the swap of every entry leave the entries as this host reads them |
| `MyReadelf.ReadRelas` | my_elf.c:536-542 | the same for entries with addends, counted in entries of 8 bytes |
| `MyReadelf.ReadReltab` | my_elf.c:486-544 | one entry for each REL or RELA section, holding its relocations as this host reads them |
| `MyReadelf.ReadStrtab` | my_elf.c:238-278 | the string table is what the file holds at the section, cut at the end of the file |
| `MyReadelf.CopyFile` | my_elf.c:1052-1071 | the destination gets the bytes of the source and both are rewound |
| `MyReadelf.Load` | my_readelf.c:107-149 | the object held before -R is served is the one the file stores, with both string tables and the relocation tables |
| `MyReadelf.Strip` | my_readelf.c:154-164 | the three passes leave the specified object and file, and every host reads the object back from the file |
| `MyReadelf.RelocatesAsAsked` | my_readelf.c:154-164 | for a file whose symbols and sh_info agree on the patched sections, the destination -R leaves holds each new value in the section of sh_info, as the ABI asks |
| `Sample.SampleStrippable` | my_readelf.c:107-164 | files with a stored REL entry, .strtab and .shstrtab exist that meet every condition of -R, with the symbol in .text, in .data or in the REL section |
| `Sample.StripSample` | my_readelf.c:154-164 | -R served on it leaves a file that every host reads as the final object |
| `Sample.SampleTargets` | my_elf.c:839-852 | the entry of these files is one for .text, and it is applied there if and only if the symbol is in .text |
| `Sample.RelocatedInWrongSection` | my_elf.c:839-852 | a file that -R serves whose entry for .text leaves the word of .text as it was and changes the word of .data |
| `Sample.SymbolLosesItsSection` | my_elf.c:621-640 | a file that -R serves with a symbol that denotes another section after the run |
| `ScannerRules.LongestIsFirst` | scanner.l:63-76 | rule and length are a longest match, earliest rule first, if and only if they are the lexeme computed from the first mark |
| `ScannerRules.LexemesCoverInput` | scanner.l:63-76 | the lexemes of any input concatenate to it |
| `Matcher.EcIsClass` | scanner.c:356-386 | the table sorts all bytes but NUL into the seven classes the rules distinguish |
| `Matcher.DefaultDescends` | scanner.c:388-417 | a failed check leads, with a valid class, to a state nearer to the jam state, so the default chain ends |
| `Matcher.Transition` | scanner.c:750-756 | the inner loop ends with the transition the tables encode |
| `Matcher.Scan` | scanner.c:741-759 | the scan stops in a final state or at the end of the input, and remembers the last accepting position |
| `Matcher.YyMatch` | scanner.c:741-768 | with backing up, rule and length are those of the longest match, earliest rule first |
| `GdbFrames.ScanUndoesSend` | gdb_protocol.c:48-64 | any sequence of acknowledgements and sent frames is scanned as exactly these, in order, and every frame passes the check |
| `GdbFrames.UnescapeUndoesEscape` | gdb_protocol.c:156-166 | unescaping gives back the escaped bytes |
| `GdbFrames.ChunkFits` | gdb_protocol.c:154-171 | the payload of a chunk is at most MAX_BUFFER_SIZE bytes |
| `GdbFrames.XPayloadDecodes` | gdb_protocol.c:173-175 | one packet decodes to its declared address and number of bytes, and contains no mark |
| `GdbFrames.MemoryWriteFaithful` | gdb_protocol.c:144-181 | for every address and buffer the decoded writes are the bytes of the buffer in order at consecutive addresses modulo 2 to the 32, in sound packets |
| `GdbFrames.MemoryArrives` | gdb_protocol.c:144-181 | the frames of a memory write, scanned from the byte stream, pass their checksums and deliver the buffer |
| `GdbFrames.PacketsFitIff` | gdb_protocol.c:32-37 | the packets of a memory write fit the declared packet array if and only if the escaped data is at most 1000 bytes |
| `GdbFrames.PacketsMayNotFit` | gdb_protocol.c:32-37 | the packets of 1001 zero bytes do not fit the declared packet array |
| `GdbFrames.PacketsFitFull` | gdb_protocol.c:144-181 | a packet array of 1042 bytes, header included, serves every memory write |
| `GdbFrames.RegisterRoundTrip` | gdb_protocol.c:134-142 | a register frame decodes to the register and the value in the byte order of the target |
| `GdbLink.ConsumedInOrder` | scanner.l:97-99 | successive calls consume the lexemes of the input in order, without gap or repetition |
| `GdbLink.ActAccount` | scanner.l:63-76 | every rule keeps the packet, bounds the error buffer by 1023 bytes and writes exactly what it owes |
| `GdbLink.YylexAccount` | scanner.l:42-77 | one call: the packet stays, the error buffer ends empty, each '-' rewrites the packet once, each accepted frame is acknowledged, rejected frames and junk are the only causes of '-' |
| `GdbLink.JunkCausesRequests` | scanner.l:34-56 | a call that meets n junk bytes, with newlines anywhere between them, and then a recognised lexeme or the end writes '-' n / 1023 times, rounded up, for them |
| `GdbLink.RunKeepsLastFrame` | gdb_protocol.c:228-231 | after a run the packet is the last frame sent |
| `GdbLink.RunTransmits` | gdb_protocol.c:228-231 | over every run the writes other than '+' and '-' are, in order, the frame of each payload, once when it is sent and once for each '-' of the call that follows |
| `GdbLink.RunAccount` | scanner.l:42-77 | over every run: '+' as often as frames are accepted and answered, '-' as often as frames are rejected and junk groups begin, the transmitted frames as above, and nothing else |
| `GdbMemory.StoreTwice` | gdb_protocol.c:144-181 | performing the byte writes of a packet again changes nothing, even if addresses repeat |
| `GdbMemory.RepeatsHarmless` | gdb_protocol.c:228-231 | whatever number of copies of each packet is accepted, at least one, the memory is the same |
| `GdbMemory.ReceiverFinds` | gdb_protocol.c:48-64 | scanning the concatenated writes, acknowledgements and requests among them, finds exactly the payloads sent |
| `GdbMemory.RunArrives` | gdb_protocol.c:228-231 | over every run the receiver finds each payload, once and once more for each '-' of its call |
| `GdbMemory.MemoryRunArrives` | gdb_protocol.c:144-181 | over a memory write, whatever is received, performing every write found on the wire leaves the memory that storing the buffer leaves |
| `GdbMemory.StoredData` | gdb_protocol.c:144-181 | a stored buffer of at most 2 to the 32 bytes is found byte by byte from its address, and other addresses are as before |
| `GdbProtocol.Gdb.SendBuffer` | gdb_protocol.c:48-64 | the packet becomes the frame of its payload and is written once |
| `GdbProtocol.Gdb.WriteUint32` | gdb_protocol.c:87-115 | on either host the digits are the bytes of the value in the order of the target |
| `GdbProtocol.Gdb.FillChunk` | gdb_protocol.c:150-171 | the loop takes the greedy chunk and escapes it behind the header |
| `GdbProtocol.Gdb.PrepareChunk` | gdb_protocol.c:150-175 | the packet holds the X payload of the chunk whenever that payload fits it |
| `GdbProtocol.Gdb.PacketCheck` | gdb_protocol.c:204-226 | a frame is accepted and acknowledged if and only if its checksum is right, else a retransmission is asked for |
| `GdbProtocol.Scanner.HandleError` | scanner.l:42-50 | a non-empty error buffer causes one request and is emptied |
| `GdbProtocol.Scanner.AddCharacterToError` | scanner.l:52-56 | the byte is stored, after a forced flush when 1023 bytes are held |
| `GdbProtocol.Scanner.Yylex` | scanner.l:97-99 | a call of the scanner on the buffers and tables does what the protocol on values says |
| `GdbProtocol.SendData` | gdb_protocol.c:66-70 | data that fits the packet is sent as one frame |
| `GdbProtocol.Step` | gdb_protocol.c:192-198 | a step sends "s" and takes one answer |
| `GdbProtocol.WriteRegister` | gdb_protocol.c:134-142 | the register payload of the target is sent, whatever the host, and one answer taken |
| `GdbProtocol.WriteMemory` | gdb_protocol.c:144-181 | whenever the packets of the buffer fit the packet array, the loop ends after sending exactly them in order and taking one answer for each; what was put on the wire leaves the buffer in memory |
| `GdbProtocol.WriteSmallMemory` | gdb_protocol.c:32-37 | the program's own array of 1024 bytes serves every write of at most 1000 escaped bytes |
| `Rio.ReadN` | csapp.c:564-582 | whatever interruptions and short reads occur, the first min(n, remaining) bytes; -1 exactly if a failing read is met; no byte is lost |
| `Rio.WriteFailsIff` | csapp.c:590-607 | known before the call: not all bytes are written if and only if some fatal event (a failing write, or a write of 0 bytes while errno does not hold EINTR) comes before the earlier events have taken all of them |
| `Rio.ShortWritesHarmless` | csapp.c:590-607 | without failing and empty writes everything is written |
| `Rio.WriteN` | csapp.c:590-607 | the bytes written, the result and the events left are functions of the schedule, errno and the bytes; -1 exactly under the condition above |
| `Rio.LineShape` | csapp.c:690-710 | the specified line is the shortest prefix that ends in a newline, cut at the limit or the end |
| `Rio.Reader.RioRead` | csapp.c:620-645 | at least one and at most n bytes leave the buffer, 0 only at the end, -1 exactly if a failing read is met |
| `Rio.Reader.ReadNb` | csapp.c:664-683 | whatever interruptions and short reads occur, exactly the first min(n, remaining) bytes are stored; -1 exactly if a failing read is met |
| `Rio.Reader.ReadLineb` | csapp.c:690-710 | the line is stored, NUL-terminated unless the end is met at once, nothing beyond it is consumed; the result is the stored count, one more when no newline ended it, -1 exactly if a failing read is met |
| `Rio.RunCalls` | csapp.h:66-71 | for any mix of calls: the bytes handed over, the unread buffer and the rest of the descriptor make up the original stream; exactly the failing reads are reported; every other reply is right for what remained; without failing reads the results and the stored bytes are a function of the stream and the calls alone |
| `Filtre.Script.OneLine` | filtre.pl:70-115 | one turn of the loop on the mode and the two stacks, and whether the line is printed |
| `Filtre.Script.Filter` | filtre.pl:65-115 | the loop prints the selected lines in order and ends in the specified state |
| `Filtre.EqualHeights` | filtre.pl:73-98 | on any input the two stacks have equal height |
| `Filtre.EndIgnored` | filtre.pl:86-98 | an end leaves the state unchanged if and only if it is surplus or mismatched |
| `Filtre.InversePartitions` | filtre.pl:111-114 | each text line is printed either with --inverse or without; each directive in both cases or in none |
| `Filtre.InverseKeepsDirectives` | filtre.pl:73-114 | --inverse changes neither which directives are printed nor their order |
| `Filtre.HiddenBlockHidesAll` | filtre.pl:77-78 | with --herite, a block opened where text is hidden prints no directive at any depth and its text exactly with --inverse |
| `Filtre.ScriptFollowsNesting` | filtre.pl:65-115 | on every well nested document and for all options the script prints what the recursive reading prints and restores mode and stacks |
| `Filtre.RenderPrunes` | filtre.pl:18-36 | with --herite and --conserve-autres the output is the document in which each cut block gives way to its alternative |
| `Filtre.TwoPassesAreOne` | filtre.pl:65-115 | on such documents, filtering with some names and then with others is filtering once with all of them |
| `DebugSet.StrcmpIsZero` | debug.c:36 | strcmp answers 0 exactly on equal strings |
| `DebugSet.StrcmpReversed` | debug.c:36 | exchanging the arguments of strcmp reverses its sign |
| `DebugSet.StrcmpTransitive` | debug.c:36 | strcmp is transitive |
| `DebugSet.InsertAllSorts` | debug.c:32-45 | any run of insertions gives a sorted permutation of the inserted names |
| `DebugSet.OrderIrrelevant` | debug.c:32-45 | the table does not depend on the order of the insertions |
| `DebugSet.Table.AddDebugTo` | debug.c:32-45 | the name is inserted in order, or ignored by a full table all of whose names are below it |
| `DebugSet.Table.IsDebugged` | debug.c:47-65 | the binary search answers 1 if and only if the name is in the table |
| `DebugSet.AddAll` | debug.c:32-45 | up to 64 insertions leave a sorted permutation of the inserted names |
| `DebugSet.AddThenAsk` | debug.c:32-65 | after up to 64 insertions the search answers 1 if and only if the name was inserted |

## Left out

Preconditions and choices of the model:

- MyElf.Elf32.ShiftSections: the last turn of the loop copies the cell after the table (my_elf.c:658-661); the model gives the table one spare cell that is not of type SYMTAB, and lets realloc (my_elf.c:668) shrink the table in place.
- MyElf.Elf32.SupprimeSh: requires that the deleted section is not the symbol table; the program only deletes REL sections, and without a symbol table update_sym_shndx would take the number of symbols from another header (my_elf.c:629-632).
- Stripping.StripIsCompaction: requires exactly one SYMTAB section whose size is a whole number of symbols, and e_shnum as the true number of sections (no extended numbering).
- Stripping.IndicesKeepTheirSections: requires that e_shstrndx and the symbol table's sh_link designate the first .shstrtab and .strtab to begin with, since the code looks them up by name; other links and sh_info are not remapped by the code.
- ElfFile.ReadObject: expects e_shentsize to be 40, the size of an Elf32_Shdr; a file whose reads would be short, or that has no symbol table, is None, where the program stops on an assertion or an error. An empty symbol table placed past the end of the file counts as unreadable.
- MyReadelf.ReadReltab: a RELA table is read if the swap of my_elf.c:541, which counts entries of 8 bytes and swaps 12 for each, stays inside the bytes that were allocated; for any other RELA table the program writes past them.
- MyReadelf.Load: requires a section named .strtab, since the program uses the index it looks up without a check (my_elf.c:254-257).
- MyReadelf.Strip: on a big-endian host the entries are those that host reads, byte-reversed; see Relocation.RelReadRightIffLittleEndian.
- Relocation.PatchFor: the place is taken from the section of the symbol, as the code does (my_elf.c:839-852); Relocation.TargetPatchIff says when that is the place the ABI means. A symbol of a relocation must have a section number inside the table. CALL and JUMP24 add to the whole word (my_elf.c:869-872), so nothing is claimed about the ARM ELF relocation rules for them.
- StripRun.RereadGivesMemory: requires that header, section table, symbol table, section names and relocation places do not overlap; where they do, a later write may overwrite an earlier one.
- GdbProtocol.Gdb.PrepareChunk: requires that the payload fits the packet, whose capacity is a parameter; where it does not, the program writes past the array (see GdbFrames.PacketsFitIff for the declared 1024 bytes). SendData, Step and WriteRegister likewise require that their payload fits.
- GdbProtocol.Gdb.RioWriten: a write on the descriptor is one indivisible step of the protocol; short writes are in Rio.WriteN.
- GdbMemory.MemoryRunArrives: the receiver is an ideal one; it gets every byte written, cuts them with the same lexical rules and performs the writes in order. GdbMemory.RepeatsHarmless covers a receiver that refuses some copies of a packet, as long as it accepts one.
- Matcher.Scan: the input is one byte sequence with an end; the refilling of the flex buffer and its two end-of-buffer bytes are not modelled, and NUL is class 1 as in yy_get_previous_state and yy_try_NUL_trans.
- Rio.Reader.ReadNb: the user buffer is a different array from rio_buf; the sizes do not wrap at the width of int and size_t.
- Rio.Reader.ReadLineb: requires maxlen to be at least 1, as there is always a NUL to store.
- Filtre.ScriptFollowsNesting: documents have at most one alternative in each block; other inputs are covered by the lemmas on arbitrary input.
- Filtre.TwoPassesAreOne: holds under --herite, --conserve-autres and without --conserve and --inverse; without --conserve-autres the output no longer contains the directives.
- DebugSet.Table.AddDebugTo: requires a free cell, or that all names of a full table are below the new one; otherwise the shift of debug.c:41-42 writes past the array. Strings are values, so later changes of a caller's string are not modelled.

Not modelled:

- display of headers, tables, sections and relocations, option parsing and the ELFCLASS32 check of my_readelf.c;
- malloc, realloc, free, fopen and other library failures;
- sockets, name resolution, processes, signals, threads and the wrappers of csapp.c that stop the program on errors;
- gdb_cont, which differs from gdb_step by one letter;
- simulator start and the ARM side of the protocol;
- matching lines of filtre.pl against the directive patterns, and the warnings it prints on stderr.
