# Verified models of the linker back end, double-word arithmetic and flash image builder

This project models, in Dafny 4.11, four algorithmic cores of the repository and proves what
they promise.

* **RISC-V linker back end** (`elf32-riscv.c`). `Relaxation`, `AlignPlan`, `AlignSymbols`,
  `ShortenPlan`, `ShortenBytes` and `RelaxSection` cover relaxation: bytes are deleted in place
  while relocations, symbols and alignment directives must keep their meaning. A `Section`
  object holds the buffers; every method is tied to a run of edits, the theorems are about all
  runs, and the methods state them on the object (`Mapped`, `Rewritten`, `PaddingsFilled`,
  `DirectivesHold`). `HashTables`, `ImportSections`, `ImportWriter`, `ExportSection` and `PulpLink` cover the PULP add-on: the
  chained tables, the size pass and the writer of the import and export sections, their
  reader, and the in-place rebasing. `DynRelocs` is the merge of dynamic-relocation lists,
  with the nodes in memory.
* **Double-word arithmetic** (`longlong.h`) in `LongLong`, over any half-word width, with
  every wrap written out.
* **Byte-level codes**: `Crc32`, with the polynomial division it performs in `CrcPolynomial` and
  its check value in `CrcCheck`, and `Leb128`.
* **Flash image builder** (`utils.py`, `flash.py`, `readfs.py`, `rom_v2.py`) in `Structs`,
  `FlashSection`, `ReadFs`, `Rom` and `FlashLayout`, and the word-packing memory preload
  (`rtl_testbench.py`) in `Preload`.

`Bits`, `Fields` and `Buffers` hold the shared vocabulary: C's bitwise operators on natural
numbers with the lemmas that turn them into arithmetic, packed fields, and byte buffers.

Conventions. Machine words are natural numbers below a stated power of two and every
reduction is explicit. A C string is the sequence of its bytes without the terminator; bytes
of buffers are natural numbers. Failure is a `bool`, an `Option` or a datatype, never a
precondition, unless the source reads out of bounds. Where a method is proved equal to a
specification function, the lemmas about that function are the rows that say what it means.
`dafny verify dfyconfig.toml` checks everything.

Results that differ from what the code's comments say, or that need a condition:

* `riscv_relax_delete_bytes` adjusts a symbol's value and then looks at the adjusted value, so a
  symbol that starts exactly where the deleted range ends loses `count` bytes of its size
  (`FollowingSymbolLosesBytes`); `MoveSymExact` gives the exact condition.
* Hash entries listed twice are moved twice (`ListedTwiceMovesTwice`); `ListedTwiceExact` and
  `ListedOftenExact` say exactly when they still come out right.
* `_bfd_riscv_relax_import_pcrel` clears `*again` that an earlier shortening set
  (`ResetHidesShortening`, with the witness `CallThenPcrel`), so "again is false" does not mean
  "nothing shrank"; `AgainExact` is the exact condition.
* The preload clears `width` bits where a word holds `width` bytes, so overwritten bytes are
  joined, not replaced (`OverwriteKeepsBits`); `ReadsBackWhen` is the exact condition for a byte
  and `LaterReadsBack` for a segment.
* The section writers compute their buffer sizes on 32 bits. Import tables that need 2^32 bytes
  or more run over a buffer (`CreateNameAndRelocSections`, `LongNameWraps`). The export writer
  also takes the length of a name as an `int`: a table is written correctly if and only if it
  needs less than 2^32 bytes and every name is shorter than 2^31 - 2 bytes (`ShortTables`,
  `SmallTables`, with the failing tables `LongNameStrays`, `WrapsTooSmall`, `WrapsToNothing` and
  `LostName`).
* A function directly behind a padding that shrinks comes out of pass 1 too short
  (`FunctionLosesBytes`, `AlignedFunctionShrinks`), the fault of `FollowingSymbolLosesBytes`.
* ReadFS sizes a name in characters and stores its UTF-8 encoding, so a non-ASCII name loses
  its terminator (`NameReadsBack`).
* The ROM segment header field `crc` holds the number of 4K blocks.

## Model

| member | source | states |
|---|---|---|
| Relaxation.MoveOffsetExact | gapy/gen-debug-info-src/ext/bfd/elf32-riscv.c:3476-3481 | a relocation inside the section moves to the number of surviving bytes before it if and only if it does not point strictly inside the deleted range |
| Relaxation.MoveSymExact | gapy/gen-debug-info-src/ext/bfd/elf32-riscv.c:3489-3500 | one deletion maps both ends of a symbol to the surviving positions if and only if `SymMovesWell` holds: the guard line 3497 gets wrong, because it looks at the value line 3492 has already changed, is shut out and nothing else is |
| Relaxation.FollowingSymbolLosesBytes | gapy/gen-debug-info-src/ext/bfd/elf32-riscv.c:3491-3500 | a symbol starting exactly where the deleted range ends loses `count` bytes of its size although none of its bytes went: the family for which the code does not do what its comment says |
| Relaxation.ListedTwiceMovesTwice | gapy/gen-debug-info-src/ext/bfd/elf32-riscv.c:3504-3527 | a hash entry listed twice is moved twice: behind the deletion it ends `count` bytes too low |
| Relaxation.ListedTwiceExact | gapy/gen-debug-info-src/ext/bfd/elf32-riscv.c:3504-3527 | an entry that one visit moves well still comes out right after a second visit if and only if it ends at or before the end of the deleted range |
| Relaxation.ListedOftenExact | gapy/gen-debug-info-src/ext/bfd/elf32-riscv.c:3504-3527 | for any number of listings from two on, in sections below 2^63: both ends are right if and only if one visit moves them well and the symbol ends at or before the end of the deleted range |
| Relaxation.ThirdVisitWrapsBack | gapy/gen-debug-info-src/ext/bfd/elf32-riscv.c:3504-3527 | why 2^63: in a larger section a third visit can wrap a symbol back to its right place |
| Relaxation.RunKeepsOrder | gapy/gen-debug-info-src/ext/bfd/elf32-riscv.c:3472-3481 | over any run of deletions the surviving positions keep their order, and `MapPos` counts the survivors below a position |
| Relaxation.SurvivingByte | gapy/gen-debug-info-src/ext/bfd/elf32-riscv.c:3472-3474 | over any run every surviving byte is found at its mapped position, with its value unless it was rewritten: the contents are the original minus the deleted ranges |
| Relaxation.RelocKeepsByte | gapy/gen-debug-info-src/ext/bfd/elf32-riscv.c:3476-3481 | over any run a relocation at a surviving byte keeps designating that byte |
| Relaxation.SymFollowsRun | gapy/gen-debug-info-src/ext/bfd/elf32-riscv.c:3489-3500 | over any run whose steps all satisfy the condition of `MoveSymExact`, both ends of a symbol follow the surviving positions |
| Relaxation.SymKeepsBytes | gapy/gen-debug-info-src/ext/bfd/elf32-riscv.c:3489-3500 | after such a run a byte lies in the symbol if and only if its original did: the extent is the original one with the deleted bytes removed |
| Relaxation.DistanceShrinks | gapy/gen-debug-info-src/ext/bfd/elf32-riscv.c:3461-3481 | deletion is monotone and non-expanding on positions |
| Relaxation.JalStillFits | gapy/gen-debug-info-src/ext/bfd/elf32-riscv.c:3556-3602 | a displacement inside one section that fits JAL (section 2.5 of the RISC-V Unprivileged ISA 20191213) still fits after any later run of even deletions |
| RelaxSection.Section.DeleteBytes | gapy/gen-debug-info-src/ext/bfd/elf32-riscv.c:3461-3530 | the in-place update is one deletion: contents and relocations move up, each local symbol of the section and each hash entry of it, once per listing, moves as `MoveSym` says and all others stay; so every local symbol of the section, and every hash entry listed once, that `SymMovesWell` admits has both ends at the surviving positions (`Mapped`); relocation types and addends stay |
| RelaxSection.Section.MoveGlobals | gapy/gen-debug-info-src/ext/bfd/elf32-riscv.c:3504-3527 | each hash entry of the section ends up moved as many times as the vector lists it, each visit starting from what the last one left |
| AlignPlan.AlignmentIsPower | gapy/gen-debug-info-src/ext/bfd/elf32-riscv.c:3767-3769 | the alignment a directive asks for is a power of two |
| AlignPlan.AlignmentIsLeast | gapy/gen-debug-info-src/ext/bfd/elf32-riscv.c:3767-3769 | and no power of two above the addend is smaller |
| RelaxSection.Section.ComputeAlignment | gapy/gen-debug-info-src/ext/bfd/elf32-riscv.c:3767-3769 | the doubling loop computes that alignment |
| AlignPlan.NopBytesNearest | gapy/gen-debug-info-src/ext/bfd/elf32-riscv.c:3771-3773 | the masked formula, in wrapping 64-bit arithmetic, is the distance to the nearest aligned address at or above the padding, at every address |
| RelaxSection.Section.NopBytesFor | gapy/gen-debug-info-src/ext/bfd/elf32-riscv.c:3767-3773 | the bytes the loop and the masks compute from the value the caller passes are the bytes needed at the padding's present address |
| RelaxSection.Section.WriteNops | gapy/gen-debug-info-src/ext/bfd/elf32-riscv.c:3789-3795 | the kept padding holds 4-byte NOPs and then at most one 2-byte NOP, and nothing else in the section changes |
| RelaxSection.Section.RelaxAlign | gapy/gen-debug-info-src/ext/bfd/elf32-riscv.c:3755-3800 | one directive: fails, changing nothing but the frozen flag, exactly when the padding is too small; otherwise the snapshot follows the edits that fill and cut the padding and the relocation becomes NONE |
| RelaxSection.Section.HandleAlignments | gapy/gen-debug-info-src/ext/bfd/elf32-riscv.c:3907-3948 | pass 1 as a loop over all relocations produces exactly the edits of the plan, fails exactly when the plan is impossible, turns every directive into a relocation without effect and no other, fills in even code what is left of each padding, and freezes the section exactly when it has a directive |
| AlignPlan.PlanFits | gapy/gen-debug-info-src/ext/bfd/elf32-riscv.c:3907-3948 | a possible plan never deletes or writes outside the section |
| AlignPlan.Settled | gapy/gen-debug-info-src/ext/bfd/elf32-riscv.c:3907-3948 | later alignments never disturb contents, relocations or positions at or before their padding |
| AlignPlan.PlanAligns | gapy/gen-debug-info-src/ext/bfd/elf32-riscv.c:3907-3948 | after the whole pass each padding has exactly the size its directive needs at its final address, and the bytes that belong there |
| AlignPlan.DirectiveHolds | gapy/gen-debug-info-src/ext/bfd/elf32-riscv.c:3755-3800 | after a successful pass every directive holds at once, wherever the section lies: the end of each padding is a multiple of the least power of two above its addend, and the nearest such address |
| AlignPlan.PaddingIsFilled | gapy/gen-debug-info-src/ext/bfd/elf32-riscv.c:3789-3800 | in even code every padding that shrank is exactly filled by NOPs; one that kept its size keeps the assembler's bytes |
| AlignPlan.NopDataWords | gapy/gen-debug-info-src/ext/bfd/elf32-riscv.c:3789-3795 | the filling, byte by byte: words 0x00000013, then one half word 0x0001 if two bytes are left |
| AlignPlan.PlanIsEven | gapy/gen-debug-info-src/ext/bfd/elf32-riscv.c:3797-3799 | over an even base and even paddings pass 1 deletes only even ranges |
| AlignPlan.PaddingSuffices | gapy/gen-debug-info-src/ext/bfd/elf32-riscv.c:3778-3780 | with padding of the alignment less one smallest instruction, 2 bytes in compressed code and 4 otherwise, the pass cannot fail |
| AlignPlan.PlanExists | gapy/gen-debug-info-src/ext/bfd/elf32-riscv.c:3778-3780 | pass 1 succeeds if and only if every padding, moved down by what the earlier ones lost, reaches the next aligned address |
| AlignSymbols.SymbolFollowsPlan | gapy/gen-debug-info-src/ext/bfd/elf32-riscv.c:3489-3500 | over a whole pass 1 both ends of a symbol follow the surviving positions when it neither starts in or right behind a padding nor ends inside one |
| AlignSymbols.FunctionLosesBytes | gapy/gen-debug-info-src/ext/bfd/elf32-riscv.c:3489-3500 | a function right behind a padding that shrinks, with no later directive before its end, loses the bytes the padding lost from its size, although none of its own went |
| AlignSymbols.AlignedFunctionShrinks | gapy/gen-debug-info-src/ext/bfd/elf32-riscv.c:3489-3500 | the witness: six bytes of padding go, and the eight-byte function behind them comes out with size two |
| ShortenPlan.TurnKeeps | gapy/gen-debug-info-src/ext/bfd/elf32-riscv.c:3907-3943 | what every turn of pass 0 keeps: the remaining relaxable relocations still lie apart and inside the section, evenness, and that deleting bytes and setting `*again` go together |
| ShortenPlan.PassKeepsPlaced | gapy/gen-debug-info-src/ext/bfd/elf32-riscv.c:3906-3943 | a whole pass 0 leaves code sequences apart, paddings in order and both clear of each other, and every padding ends where the position behind it went |
| ShortenPlan.RelaxableKinds | gapy/gen-debug-info-src/ext/bfd/elf32-riscv.c:3917-3935 | the relocation types that pass 0 relaxes, and the length of their code: eight bytes for calls, four for all others |
| ShortenBytes.PassRewrites | gapy/gen-debug-info-src/ext/bfd/elf32-riscv.c:3595-3602 | after a whole pass the new instruction of every shortened pair is in the final contents where its offset went, under its new type; a retagged pair has its new type; a relocation that no R_RISCV_RELAX follows keeps its own |
| ShortenBytes.FreeSurvives | gapy/gen-debug-info-src/ext/bfd/elf32-riscv.c:3906-3943 | a byte outside the code of every relaxable relocation to come is neither deleted nor rewritten by the rest of the pass |
| ShortenPlan.AgainShrinks | gapy/gen-debug-info-src/ext/bfd/elf32-riscv.c:3600-3602 | a pass 0 that ends with `*again` set has strictly shrunk the section; without the reset of line 3838 every shrinking pass ends with it set |
| ShortenPlan.EventsTell | gapy/gen-debug-info-src/ext/bfd/elf32-riscv.c:3906-3943 | the section shrinks if and only if some turn shortens, and `*again` tells whether the last shortening or reset was a shortening |
| ShortenPlan.AgainExact | gapy/gen-debug-info-src/ext/bfd/elf32-riscv.c:3906-3943 | `*again` tells a section that shrank from one that did not if and only if the last such event is not a reset behind a shortening |
| ShortenPlan.ShortenIsEven | gapy/gen-debug-info-src/ext/bfd/elf32-riscv.c:3676-3706 | pass 0 over even code deletes only even ranges |
| ShortenPlan.JumpsStillFit | gapy/gen-debug-info-src/ext/bfd/elf32-riscv.c:3556-3602 | a jump that fits JAL before a whole pass 0 fits after it |
| ShortenPlan.ResetHidesShortening | gapy/gen-debug-info-src/ext/bfd/elf32-riscv.c:3838-3839 | at any length: in a list of paired relocations, a reset with a shortening before and none behind it ends a pass that shrank the section with `*again` false |
| ShortenPlan.CallThenPcrel | gapy/gen-debug-info-src/ext/bfd/elf32-riscv.c:3838-3839 | the witness: a relaxed call and then a PC-relative address, twelve bytes become eight and `*again` is false |
| RelaxSection.Section.ShortenAt | gapy/gen-debug-info-src/ext/bfd/elf32-riscv.c:3595-3602 | the section afterwards holds what was before the relocation, the kept bytes of the new instruction and what lay behind the old code; the relocation has its new type, the section is `drop` bytes smaller, and what points behind moved with it |
| RelaxSection.Section.RelaxOne | gapy/gen-debug-info-src/ext/bfd/elf32-riscv.c:3907-3943 | a relocation of a relaxable type with R_RISCV_RELAX behind it at the same offset is handled as chosen: rewritten, only retagged, or only `*again` cleared; any other is left alone with everything else; the next relocation is the one after the pair or after this one |
| RelaxSection.Section.ShortenCode | gapy/gen-debug-info-src/ext/bfd/elf32-riscv.c:3906-3943 | pass 0 as a loop leaves the relocations, the edits and `*again` of the plan; of every pair chosen for shortening the new instruction is in the final contents where its offset went, under its new type; symbols, relocations and all bytes not rewritten are where the deletions put them |
| RelaxSection.Section.RelaxSection | gapy/gen-debug-info-src/ext/bfd/elf32-riscv.c:3874-3948 | the whole section pass: a relocatable link, a frozen section, one without relocations, and pass 0 with relaxation disabled change nothing; pass 0 and pass 1 leave what `ShortenCode` and `HandleAlignments` say; symbols and relocations follow their bytes; `*again` implies a strictly smaller section; pass 0 leaves code and paddings placed as the next call needs them |
| RelaxSection.Section.RelaxAll | gapy/gen-debug-info-src/ext/bfd/elf32-riscv.c:3871-3948 | pass 0 for as long as it asks for another round and then pass 1: the rounds end, pass 1 succeeds if and only if every padding reaches its aligned address from where they left it, and then every directive of the original section holds and over all rounds every symbol that no deletion spoils has both ends at the surviving positions |
| RelaxSection.Section.RelaxFrozen | gapy/gen-debug-info-src/ext/bfd/elf32-riscv.c:3888-3895 | once a directive has been handled, any later calls in any pass change nothing and never ask for another round |
| DynRelocs.CopyIndirectSymbol | gapy/gen-debug-info-src/ext/bfd/elf32-riscv.c:397-440 | pointer surgery on the two lists: the direct symbol ends with one null-terminated list of distinct nodes, all of them from the two lists, that reads as `Merge`; the indirect symbol keeps none |
| DynRelocs.MergeLists | gapy/gen-debug-info-src/ext/bfd/elf32-riscv.c:416-431 | the loop over `pp` unlinks the absorbed nodes, keeps the others in order and hangs the other list behind them, and terminates |
| DynRelocs.AddCounts | gapy/gen-debug-info-src/ext/bfd/elf32-riscv.c:420-427 | the inner loop adds to the first node of the same section, in place, and tells whether there was one |
| DynRelocs.MergeConserves | gapy/gen-debug-info-src/ext/bfd/elf32-riscv.c:414-432 | for every section `count` and `pc_count` of the merged list are the sums over both lists, in 64-bit arithmetic |
| DynRelocs.MergeNoDuplicates | gapy/gen-debug-info-src/ext/bfd/elf32-riscv.c:414-432 | if neither list names a section twice the merged list does not |
| DynRelocs.MergeShape | gapy/gen-debug-info-src/ext/bfd/elf32-riscv.c:414-432 | the elements whose section the other list does not name come first, unchanged and in their order, and then the other list, element by element under the same sections |
| HashTables.HashSdbm | gapy/gen-debug-info-src/ext/bfd/elf32-riscv.c:546-554 | the wrapping 64-bit hash of signed characters picks the bucket that the exact polynomial in 65599 picks |
| HashTables.SignedChar | gapy/gen-debug-info-src/ext/bfd/elf32-riscv.c:550-552 | a character counts as its byte modulo 256 in [-128, 128) |
| HashTables.NamedBuckets | gapy/gen-debug-info-src/ext/bfd/elf32-riscv.c:546-554 | the buckets of `main` and of one non-ASCII name |
| HashTables.ExportTable.ExportLookup | gapy/gen-debug-info-src/ext/bfd/elf32-riscv.c:556-565 | true exactly when the table has an entry for the name |
| HashTables.ExportTable.InsertExportEntry | gapy/gen-debug-info-src/ext/bfd/elf32-riscv.c:568-588 | a new name goes to the end of its chain; a name already there leaves the table as it is |
| HashTables.ExportTable.ReleaseExportEntry | gapy/gen-debug-info-src/ext/bfd/elf32-riscv.c:618-633 | leaves the empty table |
| HashTables.ImportTable.InsertImportEntry | gapy/gen-debug-info-src/ext/bfd/elf32-riscv.c:635-681 | finds or appends the entry of the name and appends the reference to its list, at the offset in the input section plus that of the input section in its output section |
| HashTables.ImportTable.ReleaseImportEntry | gapy/gen-debug-info-src/ext/bfd/elf32-riscv.c:683-703 | leaves the empty table |
| HashTables.GetSet | gapy/gen-debug-info-src/ext/bfd/elf32-riscv.c:568-588 | setting a name keeps every entry once in the bucket of its name, is seen by lookups of that name and by no others |
| HashTables.SetKeepsOrder | gapy/gen-debug-info-src/ext/bfd/elf32-riscv.c:568-588 | a new name goes to the end of its chain, a known one keeps its place, and no other chain changes |
| HashTables.LookupIsMembership | gapy/gen-debug-info-src/ext/bfd/elf32-riscv.c:556-588 | after any run of operations the table is tidy and lookup finds exactly the names inserted since the last release |
| HashTables.InsertTwice | gapy/gen-debug-info-src/ext/bfd/elf32-riscv.c:568-588 | inserting a name twice is inserting it once |
| HashTables.RefsKeepOrder | gapy/gen-debug-info-src/ext/bfd/elf32-riscv.c:635-681 | after any run of operations each name holds exactly the references made to it, in order, each at the sum of its two offsets modulo 2^64, and has an entry exactly when there is one |
| HashTables.WalkMeetsAll | gapy/gen-debug-info-src/ext/bfd/elf32-riscv.c:597-603 | the walk over buckets and chains meets every entry of the table once and nothing else |
| HashTables.WalkTakesBuckets | gapy/gen-debug-info-src/ext/bfd/elf32-riscv.c:597-603 | and it takes the buckets in ascending order |
| ImportSections.FuseExpands | gapy/gen-debug-info-src/ext/bfd/elf32-riscv.c:1016-1035 | fusing adjacent HI20/LO12_I pairs loses nothing: unfolding the packed relocations gives back the references |
| ImportSections.FuseLeavesNoPair | gapy/gen-debug-info-src/ext/bfd/elf32-riscv.c:1016-1035 | and every pair is fused: no two neighbours of the result are a HI20 and a LO12_I four bytes behind it; with `FuseExpands` this leaves one packing |
| ImportSections.RelocReadsBack | gapy/gen-debug-info-src/ext/bfd/elf32-riscv.c:1039-1039 | a packed relocation word reads back if and only if the offset is even and below 2^29 |
| ImportSections.TypeBits | gapy/gen-debug-info-src/ext/bfd/elf32-riscv.c:1039-1039 | the top four bits of a packed word: JAL 0, a fused pair 1, HI20 2, LO12_I 3, LO12_S 4; half the offset is below them |
| ImportSections.HeaderReadsBack | gapy/gen-debug-info-src/ext/bfd/elf32-riscv.c:1042-1042 | the header of a name reads back its index slot and relocation count modulo 2^16 |
| ImportSections.CountReadsBack | gapy/gen-debug-info-src/ext/bfd/elf32-riscv.c:1003-1003 | the first word reads back the import count modulo 2^12, and the size if and only if it is a multiple of 4 below 2^22 |
| ImportSections.ImportsReadBack | gapy/gen-debug-info-src/ext/bfd/elf32-riscv.c:1116-1166 | reading the written sections yields, in bucket and chain order, each imported name with its relocations, adjacent pairs fused, for every table within the field sizes |
| ImportSections.ImportsArePacked | gapy/gen-debug-info-src/ext/bfd/elf32-riscv.c:1116-1166 | what is read from the written sections has no pair left unfused and unfolds to the references of each import, stated without the packing function |
| ImportSections.SmallSections | gapy/gen-debug-info-src/ext/bfd/elf32-riscv.c:946-1049 | both sections of a table with one import and one pair, byte for byte |
| ImportSections.AdjustMoves | gapy/gen-debug-info-src/ext/bfd/elf32-riscv.c:1068-1073 | rebasing a word keeps the type, and adds the base to the offset read back if and only if the base is even and the sum stays below 2^29 |
| ImportSections.RebaseCommutes | gapy/gen-debug-info-src/ext/bfd/elf32-riscv.c:1053-1077 | rebasing commutes with reading: names, index slots, counts and types stay and every offset moves by the base, for any section, not only written ones |
| ImportWriter.PulpImportSectionsSize | gapy/gen-debug-info-src/ext/bfd/elf32-riscv.c:838-876 | the size pass returns the sizes of the sections the writer fills and the number of imports, in 32-bit arithmetic |
| ImportWriter.UsedParts | gapy/gen-debug-info-src/ext/bfd/elf32-riscv.c:848-851 | entries without references are passed over, all others kept in order |
| ImportWriter.PackedSize | gapy/gen-debug-info-src/ext/bfd/elf32-riscv.c:860-867 | over one list the size pass counts one word for each packed relocation and ends with nothing to skip |
| ImportWriter.WriteRelocs | gapy/gen-debug-info-src/ext/bfd/elf32-riscv.c:1011-1041 | over one list the writer stores exactly the packed relocations and ends with nothing to skip; it stops only at an unknown type or at a store that misses the buffer |
| ImportWriter.FillNames | gapy/gen-debug-info-src/ext/bfd/elf32-riscv.c:975-1002 | every store is inside the names buffer if and only if it has the size the section needs; then it ends up as the index words, the terminated strings and zero padding |
| ImportWriter.FillRelocs | gapy/gen-debug-info-src/ext/bfd/elf32-riscv.c:1003-1046 | the relocs buffer ends up as the specified words, filled to its last one; it stops only at an unknown type, or at a store that misses a buffer that is too small |
| ImportWriter.CreateNameAndRelocSections | gapy/gen-debug-info-src/ext/bfd/elf32-riscv.c:946-1049 | for every table: with all types known some store misses a buffer if and only if a section needs 2^32 bytes or more; below that it fails exactly for an unknown type, and otherwise both buffers are filled exactly, with what `ImportsArePacked` reads from them |
| ImportWriter.LongNameWraps | gapy/gen-debug-info-src/ext/bfd/elf32-riscv.c:838-876 | one import needs 2^32 bytes if and only if its name has 2^32 - 12 or more, and at 2^32 - 9 the size wraps to 0 |
| ImportWriter.AdjustRelocsImport | gapy/gen-debug-info-src/ext/bfd/elf32-riscv.c:1053-1077 | the in-place loops rebase every relocation and nothing else; a missing section is left alone |
| ImportWriter.RebasedImportsRead | gapy/gen-debug-info-src/ext/bfd/elf32-riscv.c:1053-1166 | written, rebased and read, the sections give the imports with every offset moved by the base |
| PulpLink.WalkListsRefs | gapy/gen-debug-info-src/ext/bfd/elf32-riscv.c:635-681 | the section passes meet a name exactly when it is referred to, once, with its references in the order they were made |
| PulpLink.ImportsEndToEnd | gapy/gen-debug-info-src/ext/bfd/elf32-riscv.c:635-1166 | from any run of table operations to the rebased sections and back: one listing per referenced name, no name twice, each with exactly its references fused and moved |
| ExportSection.ExportSectionSize | gapy/gen-debug-info-src/ext/bfd/elf32-riscv.c:590-614 | the size pass returns the bytes of the section in 32-bit arithmetic and 0 for an empty table; it is the true size if and only if that is below 2^32 |
| ExportSection.PulpExportCreateSection | gapy/gen-debug-info-src/ext/bfd/elf32-riscv.c:879-944 | with all symbols known the section is written if and only if every store is in bounds, and what was written holds every name with its own value if and only if the table fits: below 2^32 bytes, and every name below 2^31 - 2; a size that wraps to 0 makes no section |
| ExportSection.ShortTables | gapy/gen-debug-info-src/ext/bfd/elf32-riscv.c:902-940 | with all names below 2^31 - 2 bytes every store is in bounds if and only if the table needs less than 2^32 |
| ExportSection.SmallTables | gapy/gen-debug-info-src/ext/bfd/elf32-riscv.c:902-940 | in a table below 2^32 bytes every store is in bounds if and only if all names are below 2^31 - 2 |
| ExportSection.LongNameStrays | gapy/gen-debug-info-src/ext/bfd/elf32-riscv.c:904-922 | a name of 2^31 bytes: nothing is copied and the value goes in front of the section |
| ExportSection.WrapsTooSmall | gapy/gen-debug-info-src/ext/bfd/elf32-riscv.c:590-614 | two names below 2^31 bytes in a table of 2^32 + 4: the section gets four bytes |
| ExportSection.WrapsToNothing | gapy/gen-debug-info-src/ext/bfd/elf32-riscv.c:890-893 | two such names in a table of 2^32: the size wraps to 0 |
| ExportSection.LostName | gapy/gen-debug-info-src/ext/bfd/elf32-riscv.c:904-922 | a name of 2^32 - 2 bytes: every store is in bounds, in a section of eight bytes without the name |
| ExportSection.WriteStrings | gapy/gen-debug-info-src/ext/bfd/elf32-riscv.c:902-926 | the first loop as it runs, with the length of each name as a signed int: the stores and positions of `StringsStored` and `StringsEnd`, up to a name without a symbol or a store that misses the section |
| ExportSection.WriteValues | gapy/gen-debug-info-src/ext/bfd/elf32-riscv.c:934-940 | the values go from there on, a word each, up to a store that misses the section |
| ExportSection.HeaderReadsBack | gapy/gen-debug-info-src/ext/bfd/elf32-riscv.c:941-941 | the header word reads back the mode bit, the count modulo 2^15 and the word offset of the values modulo 2^16 |
| ExportSection.ExportsReadBack | gapy/gen-debug-info-src/ext/bfd/elf32-riscv.c:1186-1223 | reading what the writer filled in gives the mode and every exported name with its own value, given count below 2^15 and value offset below 2^18, whatever the unwritten padding holds |
| ExportSection.SmallSection | gapy/gen-debug-info-src/ext/bfd/elf32-riscv.c:886-943 | the section for one exported function, byte for byte |
| PulpLink.ExportsEndToEnd | gapy/gen-debug-info-src/ext/bfd/elf32-riscv.c:568-1223 | from any run of table operations to the section and back: exactly the inserted names, no name twice, each with its own value |
| LongLong.AddSsaaaa | gapy/gen-debug-info-src/ext/longlong.h:1597-1604 | double-word sum modulo the double word, with the carry found by comparison |
| LongLong.SubDdmmss | gapy/gen-debug-info-src/ext/longlong.h:1607-1614 | double-word difference modulo the double word, with the borrow found by comparison |
| LongLong.AddThenSub | gapy/gen-debug-info-src/ext/longlong.h:1597-1614 | subtracting what was added gives back the words |
| LongLong.UmulPpmm | gapy/gen-debug-info-src/ext/longlong.h:1630-1654 | the two result words are the full product of any two words, for every half-word size |
| LongLong.Accumulate | gapy/gen-debug-info-src/ext/longlong.h:1645-1652 | the first partial addition never carries, the carry of the second is caught by `__x1 < __x2`, and the words are those of the columns |
| LongLong.UmulPpmmViaSmul | gapy/gen-debug-info-src/ext/longlong.h:1617-1628 | the variant through the signed product gives the same full product |
| LongLong.SignMaskMeaning | gapy/gen-debug-info-src/ext/longlong.h:1624-1626 | `-(x >> (W - 1)) & y` is y when x is negative as a signed word, and 0 otherwise |
| LongLong.CorrectDigit | gapy/gen-debug-info-src/ext/longlong.h:1675-1682 | despite the wrapping `__r1 += (d)` the correction decrements the digit at most twice and ends with the remainder below d |
| LongLong.EstimateWithinTwo | gapy/gen-debug-info-src/ext/longlong.h:1671-1682 | the digit estimated from the high half of a normalised divisor is at least the true one and at most two above it |
| LongLong.QuotientDigit | gapy/gen-debug-info-src/ext/longlong.h:1671-1682 | one digit: exact quotient and remainder, and the digit fits a half word |
| LongLong.UdivQrnndC | gapy/gen-debug-info-src/ext/longlong.h:1665-1700 | for every normalised d and n1 < d: n1 * 2^W + n0 == q * d + r with r < d, `or` joining the digits as addition |
| LongLong.MultiplyAddDivide | gapy/gen-debug-info-src/ext/longlong.h:1597-1700 | multiplying q by d, adding r < d and dividing gives back q and r |
| Leb128.ReadUleb128 | gapy/gen-debug-info-src/ext/leb128.h:53-76 | the length of the first terminated encoding for every buffer, and its value modulo 2^64 for up to ten bytes, whatever wider shifts give; on truncation returns 0 and leaves the result |
| Leb128.ReadSleb128 | gapy/gen-debug-info-src/ext/leb128.h:86-111 | the same for the sign-extended value as a 64-bit integer |
| Leb128.SkipLeb128 | gapy/gen-debug-info-src/ext/leb128.h:119-134 | skips exactly the bytes both readers consume, 0 on truncation, for buffers of any length |
| Leb128.UnsignedDecodes | gapy/gen-debug-info-src/ext/leb128.h:45-76 | the encoding of section 7.6 of DWARF 4, followed by anything, ends where it ends and has the value that was encoded |
| Leb128.SignedDecodes | gapy/gen-debug-info-src/ext/leb128.h:78-111 | the same for signed numbers |
| Leb128.UnsignedLength | gapy/gen-debug-info-src/ext/leb128.h:45-76 | a number below 2^(7k) takes at most k bytes, so 64-bit values take at most ten |
| Leb128.SignedLength | gapy/gen-debug-info-src/ext/leb128.h:78-111 | the same for signed numbers |
| Leb128.UnsignedRoundTrip | gapy/gen-debug-info-src/ext/leb128.h:53-76 | for every uint64 value the reader returns it and the length of its encoding, whatever follows |
| Leb128.SignedRoundTrip | gapy/gen-debug-info-src/ext/leb128.h:86-111 | for every int64 value the reader returns it and the length of its encoding, whatever follows |
| Leb128.StandardExamples | gapy/gen-debug-info-src/ext/leb128.h:45-111 | examples of figures 22 and 23 of DWARF 4, byte for byte |
| Crc32.ComputeCrc | gapy/bin/gapylib/utils.py:30-53 | the nested loops compute `Crc` of any message from any start value |
| Crc32.SegmentCrc | gapy/bin/gapylib/chips/pulp/rom_v2.py:51-65 | the checksum of a ROM segment is the same function started at 0xffffffff |
| CrcPolynomial.RegisterIsRemainder | gapy/bin/gapylib/utils.py:46-52 | over any bits the register holds the remainder of the polynomial division of the start value and the message, one coefficient a bit, lowest first, by the generator with the exponents 32, 26, 23, 22, 16, 12, 11, 10, 8, 7, 5, 4, 2, 1, 0 (section 8 of RFC 1952) |
| CrcPolynomial.CrcIsRemainder | gapy/bin/gapylib/utils.py:30-53 | so the checksum of a message is that remainder, complemented |
| CrcPolynomial.MultiplesVanish | gapy/bin/gapylib/utils.py:46-52 | adding a multiple of the generator leaves the remainder as it is: what makes it a remainder |
| CrcCheck.CheckValue | gapy/bin/gapylib/chips/pulp/rom_v2.py:51-65 | the check value: 0xcbf43926 for the bytes of "123456789" from 0xffffffff |
| Crc32.StepInverse | gapy/bin/gapylib/utils.py:46-52 | the bit step has a two-sided inverse on 32-bit states |
| Crc32.RunInverse | gapy/bin/gapylib/utils.py:44-52 | for a fixed message the loop is a permutation of the 32-bit states |
| Crc32.RunConcat | gapy/bin/gapylib/utils.py:44-53 | the register composes over concatenation |
| Crc32.CrcConcat | gapy/bin/gapylib/utils.py:30-53 | the CRC of a concatenation is the CRC of the second part started from that of the first |
| Crc32.RunXor | gapy/bin/gapylib/utils.py:44-52 | the register is linear: it commutes with exclusive or of states and messages |
| Crc32.RunIsTableRun | gapy/bin/gapylib/utils.py:44-52 | the bitwise loop agrees with the table-driven form of section 8 of RFC 1952 |
| Crc32.BurstChangesCrc | gapy/bin/gapylib/utils.py:30-53 | two messages that differ only inside some window of 32 bits, at any bit position, have different CRCs |
| Crc32.FourByteErrorChangesCrc | gapy/bin/gapylib/utils.py:30-53 | two messages of the same length that differ only inside four consecutive bytes have different CRCs |
| Preload.Memory.AddMemWord | gapy/bin/gapylib/chips/gap/rtl_testbench.py:43-61 | one word of the dictionary takes the part of the data that falls into it, its low four bits at the write position cleared first |
| Preload.Memory.AddMem | gapy/bin/gapylib/chips/gap/rtl_testbench.py:63-71 | the loop adds the whole segment |
| Preload.StoredByte | gapy/bin/gapylib/chips/gap/rtl_testbench.py:54-57 | the bytes of a stored word: those outside the data stay, those under it are joined to what was there |
| Preload.SegmentBytes | gapy/bin/gapylib/chips/gap/rtl_testbench.py:43-71 | every byte of memory after adding a segment of any base and length, exactly; every word stays below 2^32 |
| Preload.ReadsBackWhen | gapy/bin/gapylib/chips/gap/rtl_testbench.py:43-71 | a byte of the segment reads back if and only if clearing its bits from those left standing under it leaves nothing; always where the memory held 0 |
| Preload.SegmentKeys | gapy/bin/gapylib/chips/gap/rtl_testbench.py:43-71 | exactly the words the segment touches appear in the dictionary |
| Preload.LoadReadsBack | gapy/bin/gapylib/chips/gap/rtl_testbench.py:73-100 | after loading disjoint segments every byte of each reads back from its word |
| Preload.LoadOutside | gapy/bin/gapylib/chips/gap/rtl_testbench.py:73-100 | and every byte of a touched word that no segment covers is 0 |
| Preload.LaterReadsBack | gapy/bin/gapylib/chips/gap/rtl_testbench.py:73-100 | a whole segment loaded over earlier ones reads back if and only if, at every common address, the bits left standing of the earlier byte are among its own |
| Preload.LoadOrder | gapy/bin/gapylib/chips/gap/rtl_testbench.py:73-100 | the words do not depend on the order of disjoint segments |
| Preload.OverwriteKeepsBits | gapy/bin/gapylib/chips/gap/rtl_testbench.py:54-55 | for overlapping data the later byte need not read back: 0x01 over 0x10 gives 0x11 |
| Preload.FourBytesMakeAWord | gapy/bin/gapylib/chips/gap/rtl_testbench.py:40-72 | four bytes loaded at a word address make one word, the first byte the lowest |
| Structs.LittleReadsBack | gapy/bin/gapylib/utils.py:388-405 | a number reads back from its little-endian field if and only if it fits |
| Structs.DeclareLaid | gapy/bin/gapylib/utils.py:307-362 | declaring a field at the next offset keeps the offsets in line with the packed format if and only if its name is new in the structure; otherwise packing fails |
| Structs.FieldLands | gapy/bin/gapylib/utils.py:388-405 | the bytes of every field are at its declared offset, counted from the structure |
| Structs.StackedFieldLands | gapy/bin/gapylib/utils.py:531-545 | and, for structures built one after another, counted from the first of them |
| Structs.StackedLength | gapy/bin/gapylib/utils.py:531-545 | the packed length equals the offsets handed out |
| FlashSection.RoundUpIs | gapy/bin/gapylib/flash.py:177-180 | for a power of two the mask rounds up to the next multiple |
| FlashSection.Section.AlignOffset | gapy/bin/gapylib/flash.py:162-182 | the next offset moves by less than the alignment, and for a power of two to its next multiple |
| FlashSection.Section.AddField | gapy/bin/gapylib/utils.py:307-362 | declares a field at the next free offset and keeps the section without gaps |
| FlashSection.Section.AddPadding | gapy/bin/gapylib/utils.py:282-304 | a padding field of exactly the bytes by which the offset moves up: less than the alignment, and for a power of two to its next multiple |
| FlashSection.SizeCovers | gapy/bin/gapylib/flash.py:184-214 | the size is never less than what was allocated, for any alignment, and a multiple of a power-of-two size alignment |
| FlashSection.SizeIsLeast | gapy/bin/gapylib/flash.py:184-214 | for power-of-two alignments: there is no size if and only if a requested size is too small or not aligned; otherwise it is the least admissible multiple at or above the requested or used size |
| FlashLayout.SectionSizes | gapy/bin/gapylib/flash.py:184-214 | in a laid-out flash every section has the least admissible size for its own content: the size its content asks for, or the bytes it uses rounded up |
| FlashLayout.PlacedFails | gapy/bin/gapylib/flash.py:184-214 | wherever it goes, a section is placed and sized if and only if its content asks for no size, or for one that holds what it uses and, where sizes are aligned, is a multiple of a given start alignment |
| FlashLayout.LayoutExists | gapy/bin/gapylib/flash.py:942-960 | for every list of contents and every flash: some flash has a layout if and only if every content can be sized, and this one has it, the same, if and only if no section ends behind the flash |
| FlashSection.Section.GetSize | gapy/bin/gapylib/flash.py:184-214 | the size of the view, or failure exactly for content that does not fit the requested size or a size that is not aligned |
| FlashSection.ImageFits | gapy/bin/gapylib/flash.py:266-286 | the image-too-big branch is unreachable once there is a size: the image is the packed structures and zeros up to it |
| FlashSection.ImageHoldsField | gapy/bin/gapylib/flash.py:266-286 | the section image holds every field at its offset minus the section offset |
| FlashSection.Section.GetImage | gapy/bin/gapylib/flash.py:266-286 | the loop over the structures returns that image, failing exactly when packing or the size does |
| ReadFs.SetContent | gapy/bin/gapylib/fs/readfs.py:146-231 | the two phases, declaring and then filling in, leave the specified structures, offsets included |
| ReadFs.ImageExists | gapy/bin/gapylib/fs/readfs.py:187-230 | a filled section has an image if and only if header size, file count and every offset, size and name length fit their fields |
| ReadFs.HeaderSize | gapy/bin/gapylib/fs/readfs.py:209-212 | the loop over the declared headers computes the size of all of them |
| ReadFs.Utf8Length | gapy/bin/gapylib/fs/readfs.py:225-226 | the encoding of a NUL-free name has as many bytes as the name has characters if and only if it is ASCII |
| ReadFs.StandardExamples | gapy/bin/gapylib/fs/readfs.py:225-226 | examples of section 7 of RFC 3629, byte for byte |
| ReadFs.NameReadsBack | gapy/bin/gapylib/fs/readfs.py:225-226 | the name field, sized in characters, holds the terminated name if and only if the name is ASCII |
| ReadFs.FsHeaderReadsBack | gapy/bin/gapylib/fs/readfs.py:214-215 | the main header gives the size of all headers and the number of files |
| ReadFs.FileLands | gapy/bin/gapylib/fs/readfs.py:217-230 | each file header gives an offset, size and name length that select the content and the name field |
| ReadFs.ImageReadsBack | gapy/bin/gapylib/fs/readfs.py:187-230 | a filled section has an image if and only if its values fit their fields, and then an independent reader recovers exactly the names and contents in order, for any number and size of files, if and only if all names are ASCII |
| Rom.SetContent | gapy/bin/gapylib/chips/pulp/rom_v2.py:230-295 | the two phases leave the specified structures; fails exactly when the content does not fit the requested size |
| Rom.ContentValid | gapy/bin/gapylib/chips/pulp/rom_v2.py:230-295 | the structures follow one another without gaps and the section has a size |
| Rom.ImageExists | gapy/bin/gapylib/chips/pulp/rom_v2.py:268-294 | a filled section has an image if and only if its size, segment count, entry, and every offset, load address, size and block count fit 32 bits |
| Rom.SmallFits | gapy/bin/gapylib/chips/pulp/rom_v2.py:268-294 | below 4 GiB only the entry and the load addresses can fail to fit |
| Rom.RomHeaderReadsBack | gapy/bin/gapylib/chips/pulp/rom_v2.py:271-274 | when the values fit there is an image, and its main header gives its size, the number of segments, the entry and a zero |
| Rom.EmptyReadsBack | gapy/bin/gapylib/chips/pulp/rom_v2.py:292-295 | a section without a binary has its own size in its first word |
| Rom.SegmentReadsBack | gapy/bin/gapylib/chips/pulp/rom_v2.py:280-289 | when the values fit each segment header of the image gives load address, size and number of 4K blocks (in the field called crc), and an offset that selects exactly the data of its segment |
| FlashLayout.LayoutOrdered | gapy/bin/gapylib/flash.py:942-960 | sections are in order, disjoint, aligned in start and size, within the flash, and each starts at the first place it may |
| FlashLayout.ImageExists | gapy/bin/gapylib/flash.py:738-770 | hole padding is never negative: there is a flash image if and only if every section has one |
| FlashLayout.FlashImageExists | gapy/bin/gapylib/flash.py:738-770 | a laid-out flash has an image if and only if the values of every section fit their fields |
| FlashLayout.SmallFlashFits | gapy/bin/gapylib/flash.py:738-770 | in a flash below 4 GiB that is: if and only if entries and load addresses are below 2^32 |
| FlashLayout.FlashHoldsSections | gapy/bin/gapylib/flash.py:738-770 | the whole image holds every section image at the flash offset of the section |
| FlashLayout.SegmentsInFlash | gapy/bin/gapylib/chips/pulp/rom_v2.py:280-289 | when the values fit there is a flash image, and in it the absolute offset and size in the header of every ROM segment select exactly its data |
| FlashLayout.FilesInFlash | gapy/bin/gapylib/fs/readfs.py:187-230 | when the values fit, a ReadFS section cut out of the whole flash image reads back as its files if and only if all names are ASCII |
| FlashLayout.Flash.ParseContent | gapy/bin/gapylib/flash.py:908-960 | creates and lays out one section per entry as specified; fails exactly when one cannot be placed or overflows the flash |
| FlashLayout.Flash.GetImage | gapy/bin/gapylib/flash.py:738-770 | the loop over any range of sections returns their images with the holes filled; without bounds these are all sections |
| FlashLayout.Flash.WholeImage | gapy/bin/gapylib/flash.py:738-770 | parsing and then asking for the image without bounds: it exists exactly when the contents can be placed and their values fit, and holds every section at its offset, zeros between them, and nothing behind the last |
| FlashLayout.SliceSelects | gapy/bin/gapylib/flash.py:753-760 | with bounds, section i is in the result if and only if first <= i <= last, in order |
| FlashLayout.SliceHoldsSections | gapy/bin/gapylib/flash.py:738-770 | the image of such a range holds each of its sections at its offset from the first |
| FlashLayout.HolesAreZero | gapy/bin/gapylib/flash.py:763-767 | the image ends with its last section, and every byte outside the sections is zero |

## Left out

- Relaxation decisions: whether a call, LUI or TLS sequence can be shortened, and its new encoding, depend on immediate-range macros and symbol values that are inputs here; a `Choice` that `ShortenPlan.Allowed` permits stands for the outcome, and the theorems hold for all choices.
- `_bfd_riscv_relax_import_pcrel` (import branch) and `_bfd_riscv_relax_got_ref`: they rewrite the neighbouring relocation on an assumption about its kind; only the reset of `*again` is modelled.
- Reading relocations, contents and symbols on first use, and freeing them: allocation and file access are assumed to succeed, here and in the table insertions and section writers.
- AlignPlan.DirectiveHolds: asks for sections below 2^63 bytes; for a larger addend the doubling loop of the source overflows to 0 and never ends.
- Relaxation.ListedOftenExact: asks for sections below 2^63 bytes; `Relaxation.ThirdVisitWrapsBack` shows why, and `Relaxation.ListedTwiceExact` has no such limit.
- RelaxSection.Section.RelaxAll: asks that no directive sits at the very start of code that may be deleted; the linker's loop over all its sections is not part of this model.
- Relaxation.JalStillFits: within one section only; across sections the code widens the range by the largest alignment.
- `InsertImportEntry` with Collect set, and the reloc counts it keeps: they rest on static pointers to the last entry and relocation, one of them read before it is set.
- Hash chains are sequences in link order: the list surgery of the tables is not modelled (that of the dynamic relocations is), and the section passes take the walk over buckets and chains as one sequence (`HashTables.AllFrom`).
- Import sections of type 1 (pre-resolved indexes): the only caller asks for type 0.
- ImportWriter.CreateNameAndRelocSections: what happens after a store past the end of a buffer is undefined; the model stops there. The same holds for `ExportSection.PulpExportCreateSection`.
- ExportSection.WriteStrings: for names of 2^31 - 2 and 2^31 - 1 bytes the sum of the length and 2 overflows an `int`, which C leaves undefined; the model wraps it.
- Dumping sections as C text, and the printing in the disassemblers: they are modelled as readers.
- PLT, GOT, symbol resolution, attribute merging, core notes and the other BFD plumbing of `elf32-riscv.c`.
- `smul_ppmm`: supplied by the machine; it is a function with the signed product as its value.
- Inline-assembly variants in `longlong.h`, and counting of leading and trailing zeros, whose table is external.
- Leb128.ReadUleb128: encodings of more than ten bytes shift by 64 or more, which C leaves undefined; a parameter stands for the result of such shifts, and the value is stated for up to ten bytes only. The same holds for `Leb128.ReadSleb128`.
- Preload.LoadReadsBack: widths other than 4, which no caller uses; overlapping segments are covered in `Preload.SegmentBytes` and `Preload.LaterReadsBack`.
- The sorted text file written from the preload memory.
- Structures live in the section object as values: the separate parent, structure and field objects of the Python code, and aliasing between them, are not modelled. A structure class is the list of its field names and formats, declared in order.
- FlashSection.Section.AddPadding: asks for a positive alignment; for 0 the source makes a field of negative size, which packing rejects.
- FlashLayout.Flash.ParseContent: asks for distinct section names; a repeated name makes the source set the content of one section object twice. Templates other than ROM and ReadFS, and overwriting properties from the command line, are not modelled.
- ReadFs.SetContent: takes the list of names and contents; splitting paths, listing directories and reading files are not modelled, nor are names that UTF-8 cannot encode.
- Rom.SetContent: the block count is integer division, where the source divides in floating point; they agree below 2^53 bytes. ELF parsing is not modelled.
- Flash-image slices with negative bounds, and the description files written beside the images.
