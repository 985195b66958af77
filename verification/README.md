# WinArk, modelled and proved

WinArk inspects and changes running Windows systems. This project models five of its cores and proves
what they keep, over all inputs and all runs:

1. **Import rebuilder and PE layout.** One pass sizes a new import section, a second fills it with
   three cursors, sections are aligned and written out, and references in code are moved to the new
   table (`ImportLayout`, `ImportWalk`, `ImportRoundTrip`, `ImportRebuilder`, `PELayout`, `PEArrange`,
   `PEParser`, `IATReferenceScan`, `RebuiltReferences`). Layout as in Microsoft's PE Format specification,
   ".idata".
2. **Inline hooks.** A table-driven copier of x86 instructions that relocates branches, an allocator of
   trampolines, stores to code that may be running, and attach, detach and commit over trampolines that are
   one record of 72 bytes (`CopyTables`, `CopyRoutes`, `InstructionCopy`, `BranchCopy`, `VerbatimCopy`,
   `CopyLengths`, `EscapeLengths`, `Disasm`, `LockedCopy`, `HookCode`, `TrampolineLayout`, `Detours`,
   `Trampolines`).
3. **Intrusive hash table.** Chains that end in a tagged pointer to the table, rehashing, an iterator
   with removal (`Hashing`, `Chains`, `HashTable`, `HashTableIterator`).
4. **IAT to module map.** Parsing with two caches, and a pass that makes an edited map canonical
   (`OrderedMap`, `Thunks`, `ModuleMaps`, `ApiReader`, `ImportsHandling`).
5. **Undo and redo over registry commands** that change themselves when executed (`CopyNames`,
   `Commands`, `CommandManager`).

Objects that the source updates in place are classes here, and its loops are loops with invariants;
each such method is proved against a specification function or predicate on values, about which the
lemmas speak.

## Where the code departs from its evident intent

The model follows the code. Each departure is stated as the exact condition under which the code does
what it is for, or as a concrete counterexample beside a theorem.

- The import directory RVA leaves out the jump table, so it points at the descriptors exactly when there
  is none (`BuildNewImportTable`). `GetImports` ends a library at its first ordinal.
- `SavePEFileToDisk` ends the file at its last write, which may be before the end of an earlier section
  (`CoveredIffTailSafe`, `CutsOff`). The layout pass takes the optional header's size from the mapped
  file header, while the save writes the full structure (`ClearIffFirst`, `ShortOptionalHeader`).
- `RVAToRelativeOffset` takes addresses from the aligned section list and sizes from the mapped one, so a
  reference in the slack of a section patches its start (`PatchedPlace`). The patches go into the mapped
  file, while the save writes section buffers that were read before: references in the saved file still go
  through the old table (`ReferenceUnpatched`, `ReferenceLeftBehind`, `RebuiltCall`).
- A trampoline's jump runs into its saved bytes if the copies have more than 27 bytes (`JumpLeavesRoom`,
  `LongCopySpoils`), and a detach then restores wrong bytes (`AttachEx`, `CommitEx`).
- `HashTableChangeTable` indexes with the old bucket count (`FoundIffIndexKept`, `GrowingHidesKeyZero`);
  a second change to the same count repairs the table (`SecondChangeRepairs`).
- Four ModR/M entries are flagged for a SIB byte, and with that flag an operand relative to RIP is not
  relocated (`RipKept`). The address-size prefix is ignored for addressing forms; moves to and from control
  registers are charged addressing bytes (`Length0FIsManual`); any REX prefix counts as REX.W
  (`Length64IsManual`); an EVEX opcode 78 is taken for EXTRQ (`EvexConvertOvercharged`). XBEGIN is not
  relocated (`XbeginMoves`). LOOP and JCXZ report a negative growth (`LoopKeptIffItFits`), branches with
  16-bit operands one that they do not have (`WordBranchKept`). LOOPNE counts as the end of a function
  (`EndsExactly`). In the x86 build near jumps behind a VEX prefix violate an assertion (`X86VexViolation`).
- A commit never puts a trampoline back on its free list, so a region that handed one out stays.
- `ParseIAT` puts a found API behind an unresolved slot into the unknown group if its module was the last
  one found (`PlacedIffNoneAbsorbed`); `ScanAndFixModuleList` repairs this. The address filter can hide
  the least and the greatest address (`FilterExact`).
- Attaching a detour to itself returns success without a hook (`AttachEx`). A list command that fails half
  way is not rolled back (`LeavesPrefix`).
- `CreateKeyCommand` creates the missing keys on the way to a nested name and undoes only the last
  (`CreateReverses`, `NestedKeyLeft`).

## Model

| member | source | states |
|---|---|---|
| `ImportRebuilder.ImportRebuilder.CalculateImportSize` | WinArk/ImportRebuilder.cpp:286-330 | The sizing loop computes descriptor count, OFT bytes, name bytes and section size of the frame that the filling pass needs. |
| `ImportLayout.ModulesFit` | WinArk/ImportRebuilder.cpp:93-330 | The sizing pass predicts the filling pass for every module map: names and descriptors exactly, OFT slots up to one spare slot per RVA gap; so each cursor stays in its area and one descriptor is left as terminator. |
| `ImportRebuilder.ImportRebuilder.FillImportSection` | WinArk/ImportRebuilder.cpp:93-180 | Starting from zeros, the filling pass leaves the bytes of the tables of the map and returns an offset equal to the section size. |
| `ImportRebuilder.ImportRebuilder.FillThunks` | WinArk/ImportRebuilder.cpp:120-160 | The inner loop appends exactly the slots, gap descriptors and names of its thunks, and what is still reserved suffices for the rest. |
| `ImportRebuilder.ImportRebuilder.AddImportDescriptor` | WinArk/ImportRebuilder.cpp:182-199 | One descriptor and its module name are appended to the tables the section holds. |
| `ImportRebuilder.ImportRebuilder.AddSpecialImportDescriptor` | WinArk/ImportRebuilder.cpp:332-343 | At an RVA gap the open run is closed by a null slot and a descriptor with the same name is appended. |
| `ImportRebuilder.ImportRebuilder.AddImportToImportTable` | WinArk/ImportRebuilder.cpp:261-284 | One slot is appended, with hint and name for a named import, and only the ordinal for an unnamed one; what a loader makes of it is `LoaderReadsBack`. |
| `ImportRebuilder.MovedMapSizes` | WinArk/ImportRebuilder.cpp:349-360 | Moving the IAT keeps all gaps, also when RVAs wrap: the sizes counted before the move are right after it. |
| `ImportRebuilder.ImportRebuilder.ChangeIATBaseAddress` | WinArk/ImportRebuilder.cpp:349-360 | Every first thunk and thunk RVA moves by the same distance; keys, names and order stay. |
| `ImportRebuilder.ImportRebuilder.BuildNewImportTable` | WinArk/ImportRebuilder.cpp:54-91 | The new last section holds the complete tables of the written map; the directory RVA lies below the descriptors by exactly the size of the jump table. |
| `ImportWalk.GetImports` | PEParser/PEParser.cpp:332-394 | The loop over descriptors finds exactly what the reference walk over the bytes of a section finds. |
| `ImportWalk.LibrariesAreCut` | PEParser/PEParser.cpp:357-392 | On any bytes on which a loader finds its way, `GetImports` finds the same libraries, each cut at its first ordinal. |
| `ImportWalk.ReadThroughIat` | PEParser/PEParser.cpp:347-351 | A descriptor without original thunks is read as one that has its IAT as original thunks; it ends the table exactly if it has no IAT either. |
| `ImportWalk.NamedPrefixComplete` | PEParser/PEParser.cpp:357-392 | A run whose thunks are all named is read completely; a run is cut at its first ordinal. |
| `ImportRoundTrip.LoaderReadsBack` | WinArk/ImportRebuilder.cpp:93-343 | Round trip: from the first descriptor of the rendered section a loader that reads every slot up to the null one (PE Format) finds the modules of the map in order, one library per run, with the ordinal modulo 2^16 or the hint and name of every thunk. |
| `ImportWalk.RunIsMaximal` | WinArk/ImportRebuilder.cpp:120-160 | A run is exactly the thunks that lie back to back, so a loader that fills the IAT of a library in order fills each thunk's own slot. |
| `ImportRoundTrip.RebuiltTableReadsBack` | WinArk/ImportRebuilder.cpp:93-343 | So the walk of `GetImports` yields the modules of the map in order, one library per run without gap, each with the names of its run up to the first ordinal. |
| `ImportRebuilder.ImportRebuilder.RebuildImportTable` | WinArk/ImportRebuilder.cpp:5-34 | End to end: if the headers, as they are written, end in front of the first raw range, then the file starts with the source's DOS header and stub and the NT headers, by its section table every old section loads its old bytes at its aligned address and the new one, above them, the import tables, in which a loader finds every import of the map and `GetImports` its libraries; the import directory lies below them by the size of the jump table; SizeOfImage ends with the sections. With a moved IAT the mapped file gets the patches of the scan's references and no other change. |
| `ImportRebuilder.ImportRebuilder.PatchFileForNewIATLocation` | WinArk/ImportRebuilder.cpp:345-347 | With every reference in an aligned old section, the references before the first that does not fit are patched in the mapped file. |
| `RebuiltReferences.ReferenceUnpatched` | WinArk/ImportRebuilder.cpp:12-29 | The displacement of every instruction of an old section is the source's in the rebuilt file; so a reference that went through an old slot goes through the moved one, modulo 2^32, if and only if the table has not moved (in 32-bit code: at the same address). |
| `RebuiltReferences.ReferenceLeftBehind` | WinArk/ImportRebuilder.cpp:12-29 | If the old table lies in a section of the file, no reference in the rebuilt file goes through the moved table; in 32-bit code, if the base is that of the running module. |
| `RebuiltReferences.RebuiltCall` | WinArk/ImportRebuilder.cpp:12-29 | A concrete file: after the rebuild the call in the mapped file goes through a slot of the new section, and the one in the saved file through the old slot. |
| `RebuiltReferences.SlotIsMovedThunk` | WinArk/IATReferenceScan.cpp:73 | The moved slot is at the RVA that moving the module map gives the same thunk. |
| `IATReferenceScan.IATReferenceScan.PatchNewIAT` | WinArk/IATReferenceScan.cpp:68-101 | Patches the references before the first that does not fit, changes no byte outside their four displacement bytes, and every patch stays that no later one overlaps. |
| `IATReferenceScan.IATReferenceScan.PatchedPlace` | PEParser/PEParser.cpp:478-495 | If mapped and aligned section list name the same sections, a reference is patched at its own place in the file exactly when it lies within the mapped size of its section; in the slack behind that, the start of the section is patched. |
| `IATReferenceScan.IATReferenceScan.PatchedReferenceReads` | WinArk/IATReferenceScan.cpp:75-79 | A patched RIP-relative reference goes through the moved slot modulo 2^32, and through exactly that address if and only if it is within reach. |
| `IATReferenceScan.IATReferenceScan.PatchedReference32` | WinArk/IATReferenceScan.cpp:80-82 | In 32-bit code the patched operand is the address of the moved slot. |
| `IATReferenceScan.IATReferenceScan.UnpatchedReads` | WinArk/IATReferenceScan.cpp:72-82 | A reference that keeps its displacement goes through the moved slot, modulo 2^32, if and only if the table has not moved; in 32-bit code the base counts, too. |
| `PELayout.AlignUp` | PEParser/PEParser.cpp:709-711 | For a power of two the mask expression gives the least multiple not below the value if and only if the rounding does not overflow 32 bits; otherwise it gives 0. |
| `PELayout.TableRoundTrip` | PEParser/PEParser.cpp:1053-1061 | A section table that was written anywhere in a file is read back from there. |
| `PEParser.PEParser.AlignAllSectionHeaders` | PEParser/PEParser.cpp:713-740 | The list is a permutation of the old one with aligned addresses, in RVA order; raw ranges are aligned, disjoint, without gaps from the first one on, and in the old raw order. |
| `PEParser.ClearIffFirst` | PEParser/PEParser.cpp:724-735 | The packed raw ranges clear headers of a given size if and only if the first one, at the aligned end of the headers by the mapped SizeOfOptionalHeader, does. |
| `PEParser.PEParser.ShortOptionalHeader` | PEParser/PEParser.cpp:724-735 | A module with a mapped optional header of 96 bytes, which is written with 224: its data lies in the section table, and the table read from the file is another one. |
| `PEParser.VirtualStaysDisjoint` | PEParser/PEParser.cpp:728-729 | Aligned virtual ranges that are disjoint stay disjoint when their sizes are rounded up. |
| `PEParser.PEParser.FixPEHeader` | PEParser/PEParser.cpp:742-788 | SizeOfImage is the greatest end of a section, 0 without sections. |
| `PEParser.PEParser.GetPESectionData` | PEParser/PEParser.cpp:930-966 | Only zeros are cut from the end of a section, all of them but four. |
| `PEParser.PEParser.GetPESections` | PEParser/PEParser.cpp:901-928 | Every section is read with its own header and its trimmed bytes. |
| `PEParser.PEParser.SavePEFileToDisk` | PEParser/PEParser.cpp:996-1128 | The file is the headers, the section table, the padded sections in list order and the overlay, cut at the last write. |
| `PEParser.PEParser.FrontKept` | PEParser/PEParser.cpp:1007-1050 | A file that keeps the written headers starts with the module's first bytes up to max(64, e_lfanew), with the NT headers behind them. |
| `PEParser.OutputFile.WriteZeroMemory` | PEParser/PEParser.cpp:1130-1144 | Chunks of 64 KB write the same zeros as one write. |
| `PEArrange.RestoredIffCovered` | PEParser/PEParser.cpp:1064-1119 | All sections load their bytes back if and only if no section that has data ends behind the last write, where the file is cut. |
| `PEArrange.CoveredIffTailSafe` | PEParser/PEParser.cpp:1064-1119 | For sections packed without gaps that is so if and only if none has data, or the last one in the list that has data is shorter than its raw size or ends behind all others that have data. |
| `PEArrange.CoveredInOrder` | PEParser/PEParser.cpp:1064-1119 | With sections in file order the last write covers all of them. |
| `PEArrange.CoveredByOverlay` | PEParser/PEParser.cpp:1102-1119 | With an overlay the last write covers all sections. |
| `PEParser.PEParser.CutsOff` | PEParser/PEParser.cpp:1064-1119 | A mapped module with full headers whose second section in memory was the first one in its file and fills its raw range: the dump does not load back. |
| `PEParser.PEParser.AddNewLastSection` | PEParser/PEParser.cpp:814-874 | The new section is behind all others in the file and in memory, aligned by both alignments, and holds zeros. |
| `PEParser.PEParser.FileOffsetToRva` | PEParser/PEParser.cpp:466-476 | The loop finds the RVA of the first section whose raw range holds the offset, 0 if none does. |
| `PEParser.PEParser.DumpProcess` | PEParser/PEParser.cpp:890-899 | For a mapped module: raw ranges that clear the written headers exactly if the first one does, virtual ranges still disjoint, SizeOfImage covering. If the headers fit, the section table read from the file is that of the list, and by it every section loads its memory back if and only if the last one in memory that has data is shorter than its raw size or lies behind all others in the file. |
| `Hashing.RoundToPowerOfTwo` | KernelLibrary/HashTable.cpp:48-61 | The highest-bit loop and the shift give the least power of two not below the value; with the flag, twice that for other values. |
| `Hashing.HashBytesGeneric` | KernelLibrary/HashTable.cpp:63-78 | The loop computes the polynomial over the bytes modulo 2^64. |
| `Hashing.GetBucketIndex` | KernelLibrary/HashTable.cpp:80-87 | Masking takes the hash modulo the bucket count and is always in range. |
| `Hashing.IndexIsPolynomial` | KernelLibrary/HashTable.cpp:63-87 | 64-bit overflow never shows in a bucket index. |
| `Hashing.MaskedEqual` | KernelLibrary/HashTable.cpp:91 | Two keys match exactly when they agree above the masked low bits. |
| `HashTables.HashTable.constructor` | KernelLibrary/HashTable.cpp:24-41 | An initialised table has the rounded, capped bucket count and only empty chains that end in the tagged table pointer. |
| `HashTables.HashTable.Insert` | KernelLibrary/HashTable.cpp:89-98 | The entry goes to the front of its bucket: every search meets it first if its masked key matches and is otherwise as before; the count wraps at 32 bits. |
| `HashTables.HashTable.FindNext` | KernelLibrary/HashTable.cpp:135-162 | Returns the next matching entry behind the given one in its chain, or the first of the key's bucket. |
| `HashTables.HashTable.FindAll` | KernelLibrary/HashTable.cpp:135-162 | Repeated searches from null enumerate the matching entries of the bucket, each once, newest first. |
| `HashTables.HashTable.MatchingExact` | KernelLibrary/HashTable.cpp:135-162 | When entries hang where they hash to, that is exactly the entries of the whole table with an equal masked key. |
| `HashTables.GetTable` | KernelLibrary/HashTable.cpp:164-184 | From any linked entry the walk and the search end, with the table that owns the entry. |
| `HashTables.HashTable.ChangeTable` | KernelLibrary/HashTable.cpp:104-133 | Moves every entry exactly once: multiset and count are conserved, old chains end empty, new chains hold the entries spread by their old index. |
| `HashTables.HashTable.RespreadAt` | KernelLibrary/HashTable.cpp:117-126 | Each new chain holds the entries of its old index in reverse order. |
| `HashTables.HashTable.LookupAfterChange` | KernelLibrary/HashTable.cpp:104-133 | A search finds the same entries reversed if the key's index is the same for both counts, and nothing otherwise. |
| `HashTables.HashTable.FoundIffIndexKept` | KernelLibrary/HashTable.cpp:123 | An entry is found by its own key after the change if and only if its index is the same for the old and the new count. |
| `HashTables.HashTable.SecondChangeRepairs` | KernelLibrary/HashTable.cpp:116-123 | A second change to the same count puts every entry where searches look for it. |
| `HashTables.HashTable.GrowingHidesKeyZero` | KernelLibrary/HashTable.cpp:123 | Growing a table from one bucket to two hides an entry with key 0, its only one: it stays in the table, and a search for its key, which found it, finds nothing. |
| `HashTableIterators.HashTableIterator.GetNext` | KernelLibrary/HashTable.cpp:223-250 | Returns the next entry of the table, skipping empty buckets, or null without moving. |
| `HashTableIterators.HashTableIterator.Remove` | KernelLibrary/HashTable.cpp:252-269 | Takes exactly the current entry out of its chain and the count, marks its link, and leaves what is ahead untouched. |
| `HashTableIterators.Sweep` | KernelLibrary/HashTable.cpp:216-269 | Any run that removes whichever entries it likes as it meets them visits every initial entry exactly once and leaves the others in order. |
| `CopyTables.TableIsOpcodeMap` | KernelLibrary/disasm.cpp:75-420 | Every one-byte entry of the x86 table has the size, ModR/M and operand kind of the opcode map (Intel SDM Vol. 2D, table A-2). |
| `CopyTables.Table0FIsOpcodeMap` | KernelLibrary/disasm.cpp:442-732 | So has every entry behind 0F (table A-3). |
| `CopyTables.Table0FIsOpcodeMap64` | KernelLibrary/disasm.cpp:442-732 | So has every entry behind 0F of the x64 table, where near branches keep four bytes under an operand-size prefix. |
| `CopyTables.AddressingIs32BitForm` | KernelLibrary/disasm.cpp:423-440 | ModR/M and SIB handling charges the forms of Intel SDM Vol. 2A section 2.1.5, except exactly the four flagged entries with displacement bits 101. |
| `CopyTables.AddressingIs16BitForm` | KernelLibrary/disasm.cpp:793-813 | Under an address-size prefix in 32-bit code the charge is right exactly for the forms that both address sizes share. |
| `CopyLengths.LengthIsManual` | KernelLibrary/disasm.cpp:771-851 | An x86 instruction with a one-byte opcode is charged the manual's length if and only if its addressing form is one the table is right about. |
| `CopyLengths.Length0FIsManual` | KernelLibrary/disasm.cpp:995-999 | The same for opcodes behind 0F; for moves to and from control, debug and test registers, whose ModR/M byte never has addressing bytes behind it, if and only if none are charged. |
| `CopyLengths.ControlRegisterOvercharged` | KernelLibrary/disasm.cpp:479-482 | 0F 20 45 has three bytes, and the copier takes four. |
| `CopyLengths.GroupLengthIsManual` | KernelLibrary/disasm.cpp:1056-1143 | The same for F6, F7 and FF, whose form depends on the reg field. |
| `CopyLengths.Length64IsManual` | KernelLibrary/disasm.cpp:786-796 | A 64-bit instruction with a one-byte opcode is charged the manual's length if and only if its addressing form is one the table is right about and, behind a REX prefix without W, it is neither MOV B8 to BF nor has an operand-sized immediate under 66. |
| `CopyLengths.GroupLength64` | KernelLibrary/disasm.cpp:1056-1143 | The same for F6, F7 and FF in 64-bit code. |
| `CopyLengths.RexLength` | KernelLibrary/disasm.cpp:864-870 | Behind a REX prefix the copier charges as with REX.W, with that exact condition for the W bit of the prefix. |
| `CopyLengths.Length0F64` | KernelLibrary/disasm.cpp:995-999 | A 64-bit instruction with an opcode behind 0F is charged the manual's length, with REX or without, under the same condition on its addressing form. |
| `EscapeLengths.EscapedLength` | KernelLibrary/disasm.cpp:995-999 | 0F 38 and 0F 3A in both builds: the manual's length if and only if the addressing form is one the table is right about. |
| `EscapeLengths.VexLength` | KernelLibrary/disasm.cpp:1145-1275 | The same behind VEX and EVEX, maps 1 to 3, 5 and 6, for all opcodes but 78. |
| `EscapeLengths.EvexConvertOvercharged` | KernelLibrary/disasm.cpp:1012-1024 | 62 F1 7D 08 78 C0 has six bytes, and the copier takes eight. |
| `EscapeLengths.XopLength` | KernelLibrary/disasm.cpp:1277-1308 | The same behind XOP, with the immediates of its three maps, and for POP, which shares its opcode. |
| `EscapeLengths.SpecialLength` | KernelLibrary/disasm.cpp:1002-1032 | The same for 0F 00, 0F 78 and 0F B8, whose forms depend on prefixes. |
| `CopyLengths.WordImmediateOvercharged` | KernelLibrary/disasm.cpp:786-796 | 66 41 81 C0 34 12 has six bytes, and the copier takes eight. |
| `CopyLengths.XbeginMoves` | KernelLibrary/disasm.cpp:771-851 | XBEGIN is copied as it is, so its destination stays exactly when the copy does not move. |
| `CopyRoutes.X64AlwaysSafe` | KernelLibrary/disasm.cpp:774-777 | In the x64 build no byte string reaches CopyBytes through VEX or EVEX with an entry that violates its assertion. |
| `CopyRoutes.VexCommonSafe` | KernelLibrary/disasm.cpp:1203-1229 | In the x86 build the assertion fails exactly for near jumps and the two JMPE entries of the 0F map. |
| `CopyLengths.X86VexViolation` | KernelLibrary/disasm.cpp:774-777 | C5 F8 80 violates the assertion in the x86 build, whatever follows. |
| `BranchCopy.BranchKept` | KernelLibrary/disasm.cpp:771-983 | A copied direct branch without operand-size prefix is a branch of the same kind, also when enlarged; it has the same destination if and only if that is within reach, and the reported growth is the growth in bytes. |
| `BranchCopy.X86BranchKept` | KernelLibrary/disasm.cpp:872-983 | In the x86 build every such branch keeps its destination. |
| `VerbatimCopy.CopyIsVerbatim` | KernelLibrary/disasm.cpp:771-851 | Whatever the distance: an instruction without an operand relative to the instruction pointer is copied byte by byte and does not grow; of every other one that is not enlarged all bytes but the operand are; prefixes always are; an invalid opcode is passed over. |
| `VerbatimCopy.UnmovedIfNoBranch` | KernelLibrary/disasm.cpp:75-732 | In 32-bit code, VEX and EVEX aside, the valid instructions whose operand moves are exactly the relative jumps, calls and loops. |
| `VerbatimCopy.RipKept` | KernelLibrary/disasm.cpp:823-844 | An operand relative to the instruction pointer names the same address in the copy if and only if it is in reach; the four with the wrong flag, if and only if the copy does not move. |
| `VerbatimCopy.IndirectReported` | KernelLibrary/disasm.cpp:1094-1143 | Of FF 15 and FF 25 the pointer is reported, unless a segment override changes its meaning; of other indirect calls and jumps that the target is not known. |
| `BranchCopy.LoopKeptIffItFits` | KernelLibrary/disasm.cpp:838-845 | LOOP and JCXZ keep their destination if and only if the moved operand fits a byte; otherwise the growth is reported as -3 though two bytes are written. |
| `BranchCopy.WordBranchKept` | KernelLibrary/disasm.cpp:903-983 | In the x86 build a near branch with an operand-size prefix always keeps its destination; if its operand no longer fits 16 bits the copier reports two bytes of growth that it does not write. |
| `Disassembler.Disasm.CopyInstruction` | KernelLibrary/disasm.cpp:754-769 | The handlers, which set flags and write the destination, copy an instruction of any length as the reference says, or run out of source bytes; what that copy is, is `CopyIsVerbatim`, `BranchKept`, `WordBranchKept`, `LoopKeptIffItFits` and `RipKept`. |
| `Disassembler.Disasm.CopyBytes` | KernelLibrary/disasm.cpp:771-851 | The fixed forms: the bytes of the source but for the operand that moves, that operand adjusted, target and growth. |
| `Disassembler.Disasm.AdjustTarget` | KernelLibrary/disasm.cpp:903-983 | The relative operand in the destination is moved by the distance of the copy, cut to its size. |
| `Disassembler.Disasm.CopyBytesJump` | KernelLibrary/disasm.cpp:872-901 | Short jumps become near ones. |
| `LockedCopy.MapLockedCopyMemory` | KernelLibrary/detours.cpp:72-98 | Refines a plain copy for every length, or changes nothing. The trace, which is the memory before the first store and after each of the stores (one exchange; or a spin, the tail byte by byte, and the first word), has nothing but the old code, the new code, or a spin at the start, and no byte outside changes. |
| `LockedCopy.StoresHarmless` | KernelLibrary/detours.cpp:72-98 | Every state from the first store to the last is harmless, and the last one is the copy. |
| `LockedCopy.TailInAnyOrder` | KernelLibrary/detours.cpp:87-97 | So it is up to the last exchange in whatever order and pieces the tail is stored. |
| `LockedCopy.SpinIsJumpToSelf` | KernelLibrary/detours.cpp:90 | The word stored first decodes as a jump to its own address. |
| `HookCode.CopyTarget` | KernelLibrary/detours.cpp:925-986 | Instructions are copied one behind the other until five bytes are free, the table is full or the function ends, and no further, and padding is passed over: the ends are those of the reference, the trampoline holds every copy and its entry of the alignment table. |
| `HookCode.BranchesKept` | KernelLibrary/detours.cpp:940-966 | Every direct branch among the moved instructions reads in the trampoline as the same branch, and the cursor moved over exactly its bytes. |
| `HookCode.OrdinaryKept` | KernelLibrary/detours.cpp:940-966 | Every other moved instruction reads in the trampoline as the function's own bytes. |
| `HookCode.FrontKept` | KernelLibrary/detours.cpp:940-966 | If no moved instruction is a relative branch, the trampoline starts with the function's first bytes. |
| `HookCode.OrdinaryUnlessBranch` | KernelLibrary/disasm.cpp:75-732 | VEX and EVEX aside, a valid instruction is copied byte by byte unless it is a relative jump, call or loop. |
| `HookCode.EndsExactly` | KernelLibrary/detours.cpp:254-280 | The end of a function is recognised at a LOOPNE, and otherwise exactly at jumps, returns, breakpoints and jumps through a pointer, with F3 in front of a RET or a segment override in front of a jump through a pointer and no other prefix. |
| `HookCode.FillerIsNop` | KernelLibrary/detours.cpp:282-340 | What is passed over as padding is one whole instruction, a NOP or a breakpoint. |
| `HookCode.AlignmentReads` | KernelLibrary/detours.cpp:948-953 | An entry of the alignment table tells where an instruction ends modulo 8 and where its copy does modulo 32. |
| `Detours.FillTrampoline` | KernelLibrary/detours.cpp:920-1042 | Succeeds exactly if five bytes can be moved; then the 72-byte record holds all fields, the jump to the first byte that was not moved, and what the jump and the size field leave of the saved bytes and of the copies. |
| `Detours.JumpLeavesRoom` | KernelLibrary/detours.cpp:1008-1042 | If the copies have at most 27 bytes, saved bytes and copies survive the jump; if they have more, the saved bytes are lost unless they happen to be what the jump writes. |
| `Detours.LongCopySpoils` | KernelLibrary/detours.cpp:1008-1042 | A function whose 16 bytes have copies of 28: the first saved byte becomes the high byte of the jump's 32-bit distance, and the saved bytes survive if and only if that is 74, the function's own. |
| `Detours.CodeJumpsOn` | KernelLibrary/detours.cpp:1040 | The jump at the end of a trampoline's code reads as a jump to the first byte that was not moved. |
| `Detours.JumpDecodes` | KernelLibrary/detours.cpp:151-159 | The generated five-byte jump reads as a jump to its destination, at any distance. |
| `Detours.SkipFollows` | KernelLibrary/detours.cpp:185-228 | By decoded jumps: behind an import vector, if there is one, and then behind a patch jump and the import vector or long jump it leads to; otherwise nowhere further. The pointer leads there in at most three steps. |
| `Detours.PatchedFunction` | KernelLibrary/detours.cpp:207-226 | EB F9 behind a near jump: the function is where the near jump leads. |
| `Detours.DetourEngine.AttachEx` | KernelLibrary/detours.cpp:818-1081 | The hook is on the code that the pointer leads to, and jumps to the code that the detour leads to. The status is exactly that of the arguments and the function; the hook is pending exactly on success with another target than the detour itself, and it keeps the bytes of its target if and only if the jump of its trampoline ends in front of them or happens to be them. |
| `Detours.DetourEngine.Detach` | KernelLibrary/detours.cpp:1083-1154 | The status is exactly that of the arguments; the removal is pending exactly on success, when the detour leads to the code that the hook jumps to. |
| `Detours.DetourEngine.Perform` | KernelLibrary/detours.cpp:673-746 | One operation leaves the restored bytes, or the jump and the padding behind it, and every other byte; outside the installed hooks all is as it was at the start. |
| `Detours.DetourEngine.CommitEx` | KernelLibrary/detours.cpp:667-809 | Every new hook jumps to its detour, every pointer holds the trampoline or the original target, outside the hooks that are now installed the code is what it is without hooks, and that changes only where a removal restores, and stays what it was if and only if every hook removed had kept its bytes; the log grows by what each operation restores. |
| `Detours.DetourEngine.HookedJumps` | KernelLibrary/detours.cpp:728-733 | The code of a hooked function reads as a jump to the hook's detour. |
| `Detours.InstalledMember` | KernelLibrary/detours.cpp:667-790 | Which hooks are installed after a commit. |
| `Detours.DetourEngine.AllDetached` | KernelLibrary/detours.cpp:673-680 | Over any run: in a state without installed hooks the code is the initial one if and only if, wherever hooks were ever removed, the last removal gave back the initial bytes; so it is if no trampoline's jump ever ran into its saved bytes. |
| `LockedCopy.UnchangedIffWrittenBack` | KernelLibrary/detours.cpp:673-680 | Any sequence of stores leaves memory as it was if and only if at every address stored to the last store wrote what was there at first. |
| `Trampolines.Allocator.AllocTrampoline` | KernelLibrary/detours.cpp:562-616 | Hands out a trampoline that was never handed out, of the default, an existing or a new region; none only if all regions are used up and the pool gives nothing. |
| `Trampolines.TrampolinesApart` | KernelLibrary/detours.cpp:562-616 | A trampoline lies wholly inside its region, clear of the header and of every other trampoline. |
| `Trampolines.Region.LinkFree` | KernelLibrary/detours.cpp:601-609 | The free list of a new region runs upwards over all trampolines but the first two. |
| `Trampolines.Allocator.SetRemain` | KernelLibrary/detours.cpp:1021 | The caller sets one remain field; the lists stay as they are. |
| `Trampolines.Allocator.FreeUnusedRegions` | KernelLibrary/detours.cpp:641-656 | Exactly the regions in which every trampoline looks free leave the list, and the others keep their order. |
| `Trampolines.ReleasedOnlyUnused` | KernelLibrary/detours.cpp:618-656 | While remain fields of handed-out trampolines point outside their region, a region is released exactly when none was ever handed out and the two unused ones look free. |
| `ApiReader.ApiReader.ParseIAT` | WinArk/ApiReader.cpp:669-745 | With its two caches the loop builds the map that direct queries describe (`TableDescribed`). If every API carries the file name of its module, every thunk is in a group named for its module or an unknown one, unresolved ones in unknown ones, and every found API is in its module's if and only if none is absorbed. |
| `ApiReader.ApiReader.TableDescribed` | WinArk/ApiReader.cpp:330-415 | The map has an entry for exactly the words whose page is accessible or cannot be queried, under the RVA of the word; its thunk has the word as API address and is valid exactly if there is an API there that the filter passes, with that API's name, ordinal, hint and module, and otherwise with none of them. |
| `ApiReader.ParsePlaces` | WinArk/ApiReader.cpp:720-744 | From an empty map: groups cover disjoint ascending intervals, are keyed by their least RVA, and together hold exactly the slots in order. |
| `ApiReader.ParseNames` | WinArk/ApiReader.cpp:630-636 | An unresolved slot is in an unknown group, a found one in a group named for its module or in an unknown group. |
| `ApiReader.PlacedIffNoneAbsorbed` | WinArk/ApiReader.cpp:736-740 | Every found API is in a group named for its module if and only if none stands right behind an unresolved slot with its module the last one found. |
| `ApiReader.ScanRepairs` | WinArk/ImportsHandling.cpp:514-550 | Behind the re-canonicalising pass every thunk of a parsed table is in a group of its own module. |
| `ApiReader.ApiReader.IsInvalidAddress` | WinArk/ApiReader.cpp:684-709 | If queries return uniform runs of pages, the page cache answers as the direct query for every sequence of addresses. |
| `ApiReader.ApiReader.GetApiInfo` | WinArk/ApiReader.cpp:711-718 | The lookup cache answers as the direct lookup. |
| `ApiReader.FilterExact` | WinArk/ApiReader.cpp:320-330 | The filter hides the least address if and only if the run of addresses upwards from it that are first read in descending order is odd, the greatest likewise, and no other. |
| `ApiReader.AllPassExactly` | WinArk/ApiReader.cpp:320-330 | All APIs pass the filter if and only if both runs are even. |
| `ImportsHandling.BuildCanonical` | WinArk/ImportsHandling.cpp:514-550 | The pass yields a canonical map of the same thunks: maximal runs by module, keyed by their first RVA, unresolved thunks reset in unknown groups. |
| `ImportsHandling.FixedExactlyCanonical` | WinArk/ImportsHandling.cpp:514-550 | The maps that the pass leaves alone are exactly the canonical ones with reset unresolved thunks; so the canonical map of given thunks is unique. |
| `ImportsHandling.ScanTwice` | WinArk/ImportsHandling.cpp:514-550 | Applying the pass twice is applying it once. |
| `ImportsHandling.PassCarries` | WinArk/ImportsHandling.cpp:143-200 | No thunk is lost: resolved ones are carried over whole, unresolved ones keep address, RVA and API address. |
| `ImportsHandling.SameNameExactly` | WinArk/ImportsHandling.cpp:533 | Module names are the same exactly if they differ at most in the case of A to Z. |
| `ImportsHandling.InOwnModule` | WinArk/ImportsHandling.cpp:527-542 | Every thunk that goes into the pass comes out in a group of its own module, or, if unresolved, reset in an unknown one. |
| `ImportsHandling.ImportsHandling.ScanAndFixModuleList` | WinArk/ImportsHandling.cpp:514-550 | The nested loops over the old map leave the canonical map of its thunks and an empty scratch map. |
| `ImportsHandling.ImportsHandling.ScanThunk` | WinArk/ImportsHandling.cpp:527-542 | One round of the inner loop is one step of the pass. |
| `ModuleMaps.PutUnknownFits` | WinArk/ImportsHandling.cpp:155-202 | Behind all groups an unresolved thunk joins an unknown last group and otherwise opens one. |
| `ModuleMaps.PutKnownJoins` | WinArk/ImportsHandling.cpp:204-228 | Behind all groups a known thunk joins the last group. |
| `CopyNames.CandidatesDiffer` | WinArk/CopyValueCommand.cpp:23-29 | The search for a pasted value's name never tries a name twice. |
| `CopyNames.DecimalNumber` | WinArk/CopyValueCommand.cpp:23-29 | The number in a name to try is read back from it. |
| `CopyNames.FindFreshName` | WinArk/CopyValueCommand.cpp:19-34 | The search ends on every finite key, with the first candidate that is free. |
| `Commands.ExecuteEffect` | WinArk/AppCommandBase.cpp:16-28 | What each single command does, read off the registries before and after: which one value is written, removed or pasted under the first free name, and what it is; which keys are new; everything else as before; and what the command has saved. |
| `Commands.UndoHasEffect` | WinArk/AppCommandBase.cpp:23-28 | The same for undoing one. |
| `Commands.ExecuteReverses` | WinArk/AppCommandBase.cpp:16-28 | Whatever the command, nested lists included: after a successful execution undo succeeds and leaves the old registry and the leftover keys; it restores the registry, and the command executes again to the same state, if and only if there are none. |
| `Commands.ChangeUndone` | WinArk/ChangeValueCommand.cpp:13-43 | Changing a value swaps it with the command's, so execution is its own undo, whatever keys were left over. |
| `Commands.DeleteUndone` | WinArk/DeleteValueCommand.cpp:9-50 | Deleting saves the value that undo writes back. |
| `Commands.CopyUndone` | WinArk/CopyValueCommand.cpp:10-53 | Pasting adds one fresh value, which undo deletes. |
| `Commands.PastedAgain` | WinArk/CopyValueCommand.cpp:10-53 | Redoing an undone paste pastes the same value under the same name. |
| `Commands.CreateReverses` | WinArk/CreateKeyCommand.cpp:9-35 | Undoing the creation of a key, whose name may be a path, restores the registry if and only if all keys on the way to it existed. |
| `Commands.NestedKeyLeft` | WinArk/CreateKeyCommand.cpp:9-35 | Creating `a\b` without "a" and undoing it leaves "a". |
| `Commands.CompleteLeavesNothing` | WinArk/CreateKeyCommand.cpp:9-35 | A command, list or not, whose key creations all find their parents leaves no keys behind. |
| `Commands.FailureKeeps` | WinArk/AppCommandBase.cpp:16-21 | A failing command that is not a list leaves the registry alone. |
| `Commands.LeavesPrefix` | WinArk/AppCommandBase.cpp:16-21 | Any command, however nested, leaves exactly the registry after the longest prefix of its single commands that succeeds, and fails exactly if that is not all of them. |
| `Commands.FailureKeepsIff` | WinArk/AppCommandBase.cpp:16-21 | A failing command leaves the registry alone if its first single command fails; if the second does, exactly if the first wrote a value over itself; and it changes the set of keys exactly if one in front of the failure created a key. |
| `CommandHistory.BackForth` | WinArk/CommandManager.cpp:34-45 | Undo succeeds in every consistent history, keeps it consistent, and redo takes it back. |
| `CommandHistory.ForthBack` | WinArk/CommandManager.cpp:47-58 | Redo succeeds in every consistent history, keeps it consistent, and undo takes it back. |
| `CommandHistory.UndoRedo` | WinArk/CommandManager.cpp:34-58 | k undos and then k redos are the identity on registry and lists. |
| `CommandHistory.UndoEverything` | WinArk/CommandManager.cpp:34-45 | Undoing everything restores the registry the history started with. |
| `CommandHistory.Registry.ExecuteCommand` | WinArk/AppCommandBase.cpp:16-21 | Executing in place does what the command says, lists in order up to the first failure. |
| `CommandHistory.Registry.UndoCommand` | WinArk/AppCommandBase.cpp:23-28 | Undoing in place, lists from the last command back. |
| `CommandHistory.CommandManager.AddCommand` | WinArk/CommandManager.cpp:21-32 | A successful command is recorded and the redo list cleared, and the history stays consistent if and only if undoing the command would leave no keys behind; a failing one is not recorded, and leaves it consistent if the registry is unchanged and not if keys were created. |
| `CommandHistory.CommandManager.UndoLast` | WinArk/CommandManager.cpp:34-45 | Never fails unless there is nothing to undo, and is the undo step on histories. |
| `CommandHistory.CommandManager.Clear` | WinArk/CommandManager.cpp:60-63 | Empties both lists; the history starts again from the present registry. |
| `CommandHistory.CommandManager.Redo` | WinArk/CommandManager.cpp:47-58 | Never fails unless there is nothing to redo, and is the redo step on histories. |

## Left out

- Win32, NT and registry calls: memory, files and the registry are values or buffers, and queries are functions; failing pool allocations, page mappings and searches are parameters.
- Filling the IAT in place without an OFT: ordinal entries write no terminator there, so there is no round trip to state.
- The tool's pointer size is taken equal to the target's, and the module map nonempty, as the native thunk type and the code's first access demand.
- Encoding of the NT optional header, section names and characteristics, and double-byte code pages in module names.
- ImportWalk.GetImports: only descriptors, names and thunks inside one section are followed; the source resolves RVAs in all sections.
- PEParser.PEParser.FixPEHeader: SizeOfHeaders, ImageBase, the entry point and the directories it clears are part of the headers as written, whose contents are not modelled.
- The overlay is a parameter of the save: computing its start reads one header past the mapped section table once a section has been added.
- PEParser.PEParser.DumpProcess: sections start aligned and above 0 in memory, and headers and data take less than 2 GB, so that 32-bit offsets do not wrap.
- ImportRebuilder.ImportRebuilder.RebuildImportTable: sections lie below 1 GB, so that RVAs keep clear of the ordinal flag, and rounded up each starts below the end of all, so that the new section is the last one; failing to open or write the file is left to the system.
- The jump table's bytes, the patches of direct imports and `PatchDirectJumpTable`: its rebased branch compares rebased with unrebased pointers. The area keeps its filler.
- IATReferenceScan.IATReferenceScan.PatchNewIAT: references outside all sections, or in a section without an entry in the mapped table, make the source read through a null pointer and are excluded.
- `HashTableRemoveKey` tests its predecessor's key and `HashUStringUpcase` does not advance: not modelled. A table initialised without a bucket array is not either.
- HashTables.HashTable.ChangeTable: a rounded new count below the old one, with which the source writes behind the new bucket array, is excluded.
- Hashing.RoundToPowerOfTwo: values above 2^31 (with the flag 2^30, powers of two aside), for which the shift is undefined, are excluded.
- The pointer that FF 15 and FF 25 go through is reported by its address; reading it is not modelled, nor is limiting references to a module, which nothing turns on.
- The x64 trampoline, which a reflector not part of this model fills.
- HookCode.CopyTarget: up to the fifth byte or the function's end, code with LOOP or JCXZ, and instructions longer than 15 bytes, are excluded; with them the saved bytes could outgrow their field, the branch for more than 25 bytes is then unreachable, and a window of 36 bytes behind the target suffices.
- Detours.DetourEngine.AttachEx: the moved range is clear of all installed and pending hooks. Padding from behind the jump to a limit that lies in front of it counts nearly 4 GB, which is taken not to be mappable.
- Detours.DetourEngine.CommitEx: releasing unused regions at its end is modelled apart, in the allocator.
- Detours.DetourEngine.Detach: the pointer holds an installed hook's trampoline, which the source reads without looking; a jump at the start of a trampoline's own code is not followed.
- Trampolines are records beside the code memory, not bytes of the same address space; the allocator keeps only the field that links them.
- ApiReader.ApiReader.ParseIAT: the table lies above the image base, so RVAs do not wrap.
- The duplicate branch of `GetApiByVirtualAddress`, which a map without duplicates never reaches, and undecorated names.
- Hints of unresolved thunks are never set: they are an arbitrary function of the RVA.
- Command objects are values held by the lists, so one object shared by two histories is not modelled; callbacks are absent; names compare exactly, not without case; a key name is the list of its parts, and one with an empty part is refused; the counter of the name search does not overflow.
- `CopyKeyCommand` and `CreateValueCommand`, whose undo is not the inverse of what they did, and the rename commands.
- A disabled manager executes without recording, and a command added without executing it is taken on trust: neither keeps a history consistent, and no claim is made for them.
