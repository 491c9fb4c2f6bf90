# A verified model of the soel daemon, its rewriters and guest memory

This project models four parts of the repository in Dafny and proves what they are for.

**Binary rewriters.** `os-rewrite-macho` splices an `LC_LOAD_DYLIB` into a load-command table in
place; `os-rewrite-elf` appends entries to the dynamic array and strings to `.dynstr`, both inside
existing slack. For each there is an independent reader (a list of commands; a list of dynamic
entries and C strings), the rewriter as imperative code on one `array<byte>`, and the theorem that
reading the output equals editing what was read from the input. Both are then followed over whole
chains of rewrites.

**Guest memory and paging.** `LegacyOnDemand` and `LinearHost` are classes; runs of both refine one
flat memory of 2^64 bytes. The 2- and 3-level page-table walks are arithmetic over such a memory.

**Wire protocol, C client, daemon.** The codec's encoders and decoders, the second implementation
inside the generated C of `os-daemon-shim`, frame streams, and the dispatcher over stateful
backends. Round trips are stated as bijections, isolation over every sequence of frames, and the
last theorem follows one `execve` from the C client through the daemon and back.

**Encoders of the codesigner.** Base64, XML escaping and hexadecimal decoding.

## Layout

| files | contents |
|---|---|
| `Results`, `Bytes` | option and result types; little-endian words, slices, overlays |
| `MachOTable`, `MachORewrite`, `MachOTheorems` | reader and slot rule; the rewriter; what it means |
| `ElfFormat`, `ElfRewrite`, `ElfFrames`, `ElfTheorems`, `ElfLoader`, `ElfChains`, `ElfLookup`, `ElfOverlap`, `ElfWitness` | reader; the rewriter; frame facts; one rewrite; a loader's view; chains; lookups and refusals; overlapping layouts; concrete files |
| `GuestMemory`, `GuestRuns`, `PageTable`, `PageInstall` | memories and their methods; runs; page walks; installing a mapping |
| `Utf8`, `Wire`, `WireTheorems`, `FrameStream` | strings; codec; bijections; streams |
| `CClient`, `IdOrder`, `Daemon`, `DaemonRuns`, `EndToEnd` | the C client; sorted ids; the daemon; runs; one `execve` |
| `Base64`, `XmlEscape`, `HexDecode` | the encoders |

Bytes are integers from 0 to 255, and words are their little-endian values. Widths are explicit:
`AsU32` truncates, `Wrap` reduces modulo 2^64, and `Add` fails where a 64-bit sum overflows.

## What the theorems assume

- Mach-O: the theorems about reading assume a *well-formed* file, one whose `ncmds` commands end
  exactly at `32 + sizeofcmds`. The rewriter itself, its frame and its error branches are specified
  on every input.
- ELF: the theorems about loading assume that the ELF header with the program headers, the
  `PT_DYNAMIC` range, and the string table with its padding are pairwise disjoint
  (`ElfTheorems.Separated`). The code does not check this. The rewriter itself is specified on
  every input, and the closing loop is characterised on overlapping layouts as well.
- 32-bit page entries: the stored entry must not overwrite the security directory.

## Where the code differs from what one would expect

- The Mach-O walk bounds commands by the file length, not by the table end. A pair that sticks out
  of the table can be chosen, and a long path then indexes past the buffer
  (`MachOTheorems.StrayPairPanics`); `MachOTheorems.PanicsExactlyOnStrayPair` says exactly when.
- The ELF rewriter takes the last `DT_STRSZ` as the length and patches the first one
  (`ElfWitness.TwoLengthsDisagree`); the two agree exactly when there is only one.
- The ELF rewriter does not check that the padding after the string table is apart from the
  dynamic array. New strings can overwrite the tag the closing loop looks for, and the loop then
  runs on, to the end of the file if need be (`ElfWitness.OverlapPanics`). It ends where it should
  exactly when that tag keeps its bytes (`ElfOverlap.ClosingLoopStopsIff`).
- A reply whose path reaches 2^32 bytes has its length truncated, so the C client can take a
  proper prefix of the path (`CClient.TakenIsWhole`).
- With 64-bit page entries the security directory is read but never observed, because a 32-bit
  word is shifted right by 48 (`PageTable.SecurityDirectoryUnobserved`).
- `hex_decode` takes a plus sign for a leading zero (`HexDecode.PlusIsAccepted`).
- Agreement of `LinearHost` with flat memory needs no bound on base plus size: an access below the
  base faults and offsets never wrap.

## Model

| member | source | states |
|---|---|---|
| `MachOTable.ReadU32` | crates/daemon/os-rewrite-macho/src/lib.rs:75-81 | a word is read exactly when its four bytes lie in the buffer; anything else is Malformed |
| `MachOTable.ParseFlattened` | crates/daemon/os-rewrite-macho/src/lib.rs:101-138 | the independent reader inverts layout: a table that is a list of commands laid end to end reads as that list |
| `MachOTable.FlattenParsed` | crates/daemon/os-rewrite-macho/src/lib.rs:101-138 | the other direction: the commands read, laid end to end, are the bytes that were read |
| `MachOTable.WellFormedIntro` | crates/daemon/os-rewrite-macho/src/lib.rs:151-153 | a file whose header words and table bytes describe a list of commands is well formed, and reads as that list and no other |
| `MachOTable.FirstPair` | crates/daemon/os-rewrite-macho/src/lib.rs:113-128 | the first adjacent 16-byte DATA_IN_CODE / CODE_SIGNATURE pair, with no pair before it |
| `MachOTable.AnchorIsSlot` | crates/daemon/os-rewrite-macho/src/lib.rs:95-141 | the search is complete: it answers the first pair, else a CODE_SIGNATURE that ends the table, and fails exactly when there is neither |
| `MachOTable.PairInWords` | crates/daemon/os-rewrite-macho/src/lib.rs:113-122 | a pair by its words: two commands of 16 bytes, kinds 0x29 and 0x1d |
| `MachOTable.SlotInWords` | crates/daemon/os-rewrite-macho/src/lib.rs:95-141 | the slot by its words: the first pair; without one, kind 0x1d as the last command; otherwise none |
| `MachORewrite.FindAnchor` | crates/daemon/os-rewrite-macho/src/lib.rs:95-141 | the table-walking loop answers what the search on the list of parsed commands answers, on every input, malformed ones included |
| `MachORewrite.AnchorBounds` | crates/daemon/os-rewrite-macho/src/lib.rs:95-141 | on any input a found slot lies in the file after the header; a pair is 32 bytes, a single signature ends at the table end |
| `MachORewrite.SearchStep` | crates/daemon/os-rewrite-macho/src/lib.rs:103-138 | one turn of the loop: the test on the raw words of two neighbours is the test on parsed commands |
| `MachORewrite.MoveUp` | crates/daemon/os-rewrite-macho/src/lib.rs:173-181 | the backward loop is a simultaneous copy of the old tail upwards, although source and target overlap |
| `MachORewrite.MoveDown` | crates/daemon/os-rewrite-macho/src/lib.rs:182-188 | the forward loop is a simultaneous copy of the old tail downwards, although source and target overlap |
| `MachORewrite.ShiftTail` | crates/daemon/os-rewrite-macho/src/lib.rs:173-188 | both branches together: the tail as it was before the call stands `delta` further on and nothing else changed |
| `MachORewrite.WriteU32` | crates/daemon/os-rewrite-macho/src/lib.rs:83-85 | four little-endian bytes at the offset, every other byte kept |
| `MachORewrite.ZeroFill` | crates/daemon/os-rewrite-macho/src/lib.rs:190-196 | exactly the bytes from `lo` to `hi` become zero |
| `MachORewrite.WriteCommand` | crates/daemon/os-rewrite-macho/src/lib.rs:190-206 | zeroing, six words and the path together lay down the injected command, cut at the end of the file, and touch nothing else |
| `MachORewrite.PatchHeader` | crates/daemon/os-rewrite-macho/src/lib.rs:208-209 | only the eight bytes of ncmds and sizeofcmds change |
| `MachORewrite.SplicedBytes` | crates/daemon/os-rewrite-macho/src/lib.rs:172-206 | shifting the tail and then writing the command equals one write of command followed by tail over the original |
| `MachORewrite.Emit` | crates/daemon/os-rewrite-macho/src/lib.rs:172-211 | all in-place edits of one buffer amount to one splice and one header patch of the original bytes |
| `MachORewrite.RewriteMachO` | crates/daemon/os-rewrite-macho/src/lib.rs:146-212 | the in-place rewriter meets the specification on every input: same bytes, same error branch, including the index past the buffer |
| `MachOTheorems.NewCommandSizeIsLeast` | crates/daemon/os-rewrite-macho/src/lib.rs:157-158 | the command size is the least multiple of 8 that holds 24 header bytes, the path and its NUL |
| `MachOTheorems.LoadDylibFields` | crates/daemon/os-rewrite-macho/src/lib.rs:198-206 | the injected bytes are a command whose size field is its length, with the words 0xc, 24, 2, 0x10000 and 0x10000, and zeros after the path |
| `MachOTheorems.NameReadsBack` | crates/daemon/os-rewrite-macho/src/lib.rs:204-206 | the C string at offset 24 of the command is the requested path if and only if the path has no NUL |
| `MachOTheorems.OutcomeOnWellFormed` | crates/daemon/os-rewrite-macho/src/lib.rs:146-170 | on a well-formed file: NoReplaceableSlot exactly without a slot; NoPaddingToGrow exactly if the growth runs past the file or some byte in it is not zero; success otherwise |
| `MachOTheorems.NonZeroBytesSurvive` | crates/daemon/os-rewrite-macho/src/lib.rs:161-170 | a successful rewrite leaves every non-zero byte after the table as it was |
| `MachOTheorems.ShrinkingHasNoTail` | crates/daemon/os-rewrite-macho/src/lib.rs:182-188 | a negative delta occurs only for a single final signature, so only with an empty tail |
| `MachOTheorems.PatchIs` | crates/daemon/os-rewrite-macho/src/lib.rs:172-206 | with room to grow, the patched run is command plus tail and ends at the table end moved by the growth |
| `MachOTheorems.SpliceCommutesWithReading` | crates/daemon/os-rewrite-macho/src/lib.rs:95-212 | reading the output equals editing the list read from the input: the slot is replaced by the one LC_LOAD_DYLIB and every survivor is byte-identical, if and only if the new table size fits 32 bits |
| `MachOTheorems.SmallFilesFit` | crates/daemon/os-rewrite-macho/src/lib.rs:208 | files below 4 GiB always meet that condition |
| `MachOTheorems.EveryTableHasAFile` | crates/daemon/os-rewrite-macho/src/lib.rs:146-170 | every list of commands that fits the header words is the table of some file; with padding for the whole command, rewriting it succeeds if and only if the list has a slot |
| `MachOTheorems.UntouchedBytes` | crates/daemon/os-rewrite-macho/src/lib.rs:172-211 | on any input, no byte moves outside the two header words and the patched run |
| `MachOTheorems.PanicsExactlyOnStrayPair` | crates/daemon/os-rewrite-macho/src/lib.rs:113-206 | on any input the rewriter indexes past the buffer if and only if the slot is a pair, the padding for its growth is free and the path runs over the end of the file; the pair then sticks out of the declared table |
| `MachOTheorems.StrayPairPanics` | crates/daemon/os-rewrite-macho/src/lib.rs:97-113 | such a file exists: the walk is bounded by the file length, not by the table end |
| `MachOTheorems.SlotHoldsOneSignature` | crates/daemon/os-rewrite-macho/src/lib.rs:113-135 | replacing the slot removes exactly one CODE_SIGNATURE from the list |
| `MachOTheorems.ChainsEditTheList` | crates/daemon/os-rewrite-macho/src/lib.rs:146-212 | any chain of successful rewrites of a file below 4 GiB is that many edits of the command list, keeps the file length and well-formedness, and uses up one signature each |
| `MachOTheorems.ChainSucceedsIff` | crates/daemon/os-rewrite-macho/src/lib.rs:146-212 | a chain succeeds if and only if the list has a slot for every edit and every byte after the table that the accumulated growth reaches is in the file and zero |
| `MachOTheorems.ChainsKeepNonZeroBytes` | crates/daemon/os-rewrite-macho/src/lib.rs:161-170 | a non-zero byte after the table survives any successful chain |
| `MachOTheorems.RefusesExactly` | crates/daemon/os-rewrite-macho/src/lib.rs:96-111 | on any input: NotThin64 exactly for another magic or a short file; Malformed exactly if the table leaves the file or does not read as a list |
| `MachOTheorems.ShrinkingIsLast` | crates/daemon/os-rewrite-macho/src/lib.rs:129-135 | after a rewrite that shrinks the table no slot is left |
| `MachOTheorems.RewritingUsesUpTheSlot` | crates/daemon/os-rewrite-macho/src/lib.rs:95-155 | with one signature in the input, rewriting the output again with any path answers NoReplaceableSlot |
| `ElfFormat.ReadLE` | crates/daemon/os-rewrite-elf/src/lib.rs:96-118 | a word is read exactly when its bytes lie in the file at offsets below 2^64 |
| `ElfFormat.DynListParses` | crates/daemon/os-rewrite-elf/src/lib.rs:182-197 | a segment that holds a list of entries and then a DT_NULL reads as that list |
| `ElfFormat.ParsedIsDynList` | crates/daemon/os-rewrite-elf/src/lib.rs:182-199 | the other direction: what reads as a list stands there entry by entry, null-free, with its terminator inside the segment |
| `ElfFormat.FirstIndex` | crates/daemon/os-rewrite-elf/src/lib.rs:279-290 | the first entry with a tag, with none before it |
| `ElfFormat.LastValue` | crates/daemon/os-rewrite-elf/src/lib.rs:191-195 | a value is found exactly when some entry carries the tag |
| `ElfLookup.HeadersAreRows` | crates/daemon/os-rewrite-elf/src/lib.rs:131-149 | each header read is the row of the table that the ELF header describes, field by field |
| `ElfLookup.HeadersReadExactly` | crates/daemon/os-rewrite-elf/src/lib.rs:131-149 | the headers are readable exactly if the rows are at least 56 bytes apart and lie in the file |
| `ElfLookup.TranslationIs` | crates/daemon/os-rewrite-elf/src/lib.rs:151-160 | the first PT_LOAD segment covering the address decides: its offset plus the distance into it, or an overflow; Malformed exactly if no segment covers it |
| `ElfLookup.DynamicIsFirst` | crates/daemon/os-rewrite-elf/src/lib.rs:173-177 | the first PT_DYNAMIC segment is taken; NoDynamicSection exactly if there is none |
| `ElfLookup.SectionIs` | crates/daemon/os-rewrite-elf/src/lib.rs:173-211 | offset and end of the array come from the first PT_DYNAMIC segment, the string table lies where the first covering PT_LOAD segment puts the last DT_STRTAB address, and the length is the last DT_STRSZ |
| `ElfLookup.SectionFoundFrom` | crates/daemon/os-rewrite-elf/src/lib.rs:173-211 | the converse: a file whose first PT_DYNAMIC segment holds a terminated array and whose string table address is covered is located, with exactly these values |
| `ElfLookup.LastValueIsLast` | crates/daemon/os-rewrite-elf/src/lib.rs:191-195 | of several entries with a tag the last one counts |
| `ElfLookup.NotIdentifiedExactly` | crates/daemon/os-rewrite-elf/src/lib.rs:217-228 | NotExecutableOrPie exactly unless the first bytes name a 64-bit little-endian file of type 2 or 3 |
| `ElfLookup.NoDynamicExactly` | crates/daemon/os-rewrite-elf/src/lib.rs:173-177 | a file with readable headers is refused with NoDynamicSection exactly if none is PT_DYNAMIC |
| `ElfLookup.NoRoomIsNoSpace` | crates/daemon/os-rewrite-elf/src/lib.rs:233-263 | with the segment inside the file, NoFreeStringTableSpace exactly if a spare slot is missing or not zero, or the padding leaves the file or is not zero |
| `ElfRewrite.ReadProgramHeaders` | crates/daemon/os-rewrite-elf/src/lib.rs:131-149 | the loop reads the same headers, or fails with the same error, as the row-by-row specification |
| `ElfRewrite.FindDynamicSection` | crates/daemon/os-rewrite-elf/src/lib.rs:173-211 | one pass with three variables finds what listing the entries first and looking tags up afterwards finds, errors included |
| `ElfRewrite.SpareSlots` | crates/daemon/os-rewrite-elf/src/lib.rs:237-242 | the slot check answers what the specification answers, truncated reads included |
| `ElfRewrite.WriteU64` | crates/daemon/os-rewrite-elf/src/lib.rs:120-122 | eight little-endian bytes at the offset, every other byte kept |
| `ElfRewrite.WriteEntries` | crates/daemon/os-rewrite-elf/src/lib.rs:268-274 | the new tag and value words lie at the old terminator in order and nothing else changes |
| `ElfRewrite.GrowStrsz` | crates/daemon/os-rewrite-elf/src/lib.rs:278-290 | the closing loop patches the value of the first DT_STRSZ before a DT_NULL of the buffer as it stands, or stops, or fails, as specified |
| `ElfRewrite.Emit` | crates/daemon/os-rewrite-elf/src/lib.rs:265-292 | strings, entries and closing loop on one buffer equal the specified overlays of the original |
| `ElfRewrite.RewriteElf` | crates/daemon/os-rewrite-elf/src/lib.rs:216-293 | the in-place rewriter meets the specification on every input, every error branch included |
| `ElfFrames.CheckSlotsIsZero` | crates/daemon/os-rewrite-elf/src/lib.rs:237-242 | the slot check passes exactly when the spare slots lie in the file and are all zero |
| `ElfFrames.FixUpFinds` | crates/daemon/os-rewrite-elf/src/lib.rs:278-290 | over null-free entries the closing loop patches exactly the first DT_STRSZ |
| `ElfFrames.HeadersSame` | crates/daemon/os-rewrite-elf/src/lib.rs:131-149 | program headers depend only on the ELF header and the bytes of their own table |
| `ElfTheorems.LocatedIntro` | crates/daemon/os-rewrite-elf/src/lib.rs:173-211 | what the locator reports are the entries up to the first DT_NULL, the terminator right after them, and the last DT_STRSZ value |
| `ElfTheorems.ClosingLoopStops` | crates/daemon/os-rewrite-elf/src/lib.rs:278-290 | the closing loop always ends on the original DT_STRSZ slot and never on an error |
| `ElfTheorems.SucceedsIffRoom` | crates/daemon/os-rewrite-elf/src/lib.rs:233-263 | a rewrite succeeds if and only if there are enough spare zero slots and zero bytes of padding |
| `ElfTheorems.OutputEntries` | crates/daemon/os-rewrite-elf/src/lib.rs:265-292 | the output segment holds the old entries with only DT_STRSZ grown, then the new ones, then a terminator |
| `ElfTheorems.OutputSame` | crates/daemon/os-rewrite-elf/src/lib.rs:265-292 | every byte outside the strings, the new slots and the one patched word is unchanged |
| `ElfLoader.HeadersKept` | crates/daemon/os-rewrite-elf/src/lib.rs:131-160 | ELF identification and program headers, hence address translation, are unchanged |
| `ElfLoader.RewriteExtendsDynamic` | crates/daemon/os-rewrite-elf/src/lib.rs:173-293 | entries of the output are the original entries with the first DT_STRSZ grown, then DT_NEEDED and DT_RUNPATH; the terminator is still inside PT_DYNAMIC; the layout conditions still hold; the length a reader finds is the grown one if and only if DT_STRSZ occurs once |
| `ElfLoader.EntriesSpelledOut` | crates/daemon/os-rewrite-elf/src/lib.rs:268-290 | the same entries by their tags: the first 10 grown, then 1 and 29 with their string offsets, all others as they were |
| `ElfLoader.NonZeroBytesSurvive` | crates/daemon/os-rewrite-elf/src/lib.rs:230-290 | no non-zero byte is overwritten but the length and the value word of the old terminator |
| `ElfLoader.StringsPlaced` | crates/daemon/os-rewrite-elf/src/lib.rs:246-266 | the new strings occupy exactly the bytes after the old string table |
| `ElfLoader.NewStringsResolve` | crates/daemon/os-rewrite-elf/src/lib.rs:250-273 | each new entry resolves through the string table to the requested name if and only if that name has no NUL |
| `ElfLoader.OldTableKept` | crates/daemon/os-rewrite-elf/src/lib.rs:244-266 | the bytes of the old string table are unchanged |
| `ElfLoader.OldStringsResolve` | crates/daemon/os-rewrite-elf/src/lib.rs:244-266 | an old string resolves to the same bytes if and only if it ends inside the old DT_STRSZ, or the appended bytes start with a NUL |
| `ElfOverlap.FixUpFollows` | crates/daemon/os-rewrite-elf/src/lib.rs:278-290 | the result of the closing loop from the slot where it ends, its index past the buffer included |
| `ElfOverlap.ClosingLoopStopsIff` | crates/daemon/os-rewrite-elf/src/lib.rs:244-290 | on every layout on which the checks pass, overlapping ones included, the closing loop ends on the original DT_STRSZ slot if and only if the new strings put only zeros on its tag, and then the rewrite succeeds |
| `ElfOverlap.PanicsExactly` | crates/daemon/os-rewrite-elf/src/lib.rs:216-293 | on any input the rewriter indexes past the buffer if and only if all checks pass and the closing loop ends on a DT_STRSZ tag cut off by the end of the file; the original tag is then overwritten |
| `ElfWitness.OverlapPanics` | crates/daemon/os-rewrite-elf/src/lib.rs:244-290 | such a file and name exist: the code does not check that the padding is apart from the dynamic array |
| `ElfWitness.ReadyFile` | crates/daemon/os-rewrite-elf/src/lib.rs:216-293 | a position-independent file, loaded at 0x1000 from offset 16, meets the conditions of the theorems about chains, its string table is found at offset 256, and a rewrite of it succeeds |
| `ElfWitness.TwoLengthsDisagree` | crates/daemon/os-rewrite-elf/src/lib.rs:193-195 | a file with two DT_STRSZ entries: the last one is read, the first one is patched, so the length a reader finds does not grow |
| `ElfChains.Link` | crates/daemon/os-rewrite-elf/src/lib.rs:216-293 | a successful rewrite leaves a file that meets every condition of the next one |
| `ElfChains.RoomSplits` | crates/daemon/os-rewrite-elf/src/lib.rs:233-263 | room left after a rewrite is the room before it less exactly its slots and its string bytes |
| `ElfChains.ChainsAddUp` | crates/daemon/os-rewrite-elf/src/lib.rs:216-293 | a chain succeeds if and only if there is room for the sum of its slots and the sum of its bytes, and then appends all its entries in order and keeps the program headers |
| `ElfChains.SlotsBoundChains` | crates/daemon/os-rewrite-elf/src/lib.rs:233-242 | the spare slots bound the length of any successful chain |
| `ElfChains.ChainsKeepStrings` | crates/daemon/os-rewrite-elf/src/lib.rs:244-266 | an old string that ends in the old table reads the same after any chain |
| `ElfChains.ChainsResolveNames` | crates/daemon/os-rewrite-elf/src/lib.rs:244-273 | after the whole chain every added entry, run paths included, resolves through the string table to its own name if and only if that name has no NUL |
| `GuestMemory.ReadBack` | crates/page/os-page/src/backends.rs:30-47 | on flat memory a read returns the stored value, modulo 2^64 at the top of the address space |
| `GuestMemory.ReadApart` | crates/page/os-page/src/backends.rs:30-47 | a read that shares no byte with a store is unaffected by it, wrapping included |
| `GuestMemory.LoadSpelledOut` | crates/page/os-page/src/backends.rs:15-39 | a load of each width is one, two, four or eight bytes, least significant first; 128-bit loads fault |
| `GuestMemory.StoreSpelledOut` | crates/page/os-page/src/backends.rs:15-47 | a store of each width changes one, two, four or eight bytes, to those of the value, and no others |
| `GuestMemory.ReadBytesAt` | crates/page/os-page/src/backends.rs:30-39 | gathering bytes page by page equals a little-endian read of flat memory, across pages and past 2^64 |
| `GuestMemory.WithPage` | crates/page/os-page/src/backends.rs:44 | allocating a page changes no byte |
| `GuestMemory.PutByte` | crates/page/os-page/src/backends.rs:43-45 | one byte changes, on the page its address names |
| `GuestMemory.LegacyOnDemand.constructor` | crates/page/os-page/src/backends.rs:85-87 | no page is allocated |
| `GuestMemory.LegacyOnDemand.GetPage` | crates/page/os-page/src/backends.rs:93-97 | the page exists afterwards and no byte has changed |
| `GuestMemory.LegacyOnDemand.WriteBytesAt` | crates/page/os-page/src/backends.rs:41-47 | scattering bytes over pages equals one flat write, across pages and past 2^64 |
| `GuestMemory.LegacyOnDemand.Read` | crates/page/os-page/src/backends.rs:109-114 | a read is a step of flat memory; 128-bit reads fault |
| `GuestMemory.LegacyOnDemand.Write` | crates/page/os-page/src/backends.rs:116-124 | a write is a step of flat memory; only 128-bit writes fault, and they change nothing |
| `GuestMemory.LinearHost.constructor` | crates/page/os-page/src/backends.rs:276-288 | a zeroed buffer of the given size and base |
| `GuestMemory.LinearHost.Read` | crates/page/os-page/src/backends.rs:290-309 | a read succeeds exactly if its one, two, four or eight bytes lie in the buffer, and gives the little-endian word |
| `GuestMemory.LinearHost.Write` | crates/page/os-page/src/backends.rs:290-317 | a write succeeds exactly if its one, two, four or eight bytes lie in the buffer; a faulting one changes nothing |
| `GuestMemory.LinearLoadSpelledOut` | crates/page/os-page/src/backends.rs:49-60 | what each width reads from the buffer, byte by byte |
| `GuestMemory.LinearStoreSpelledOut` | crates/page/os-page/src/backends.rs:62-72 | what each byte of the buffer is after a store of each width |
| `GuestMemory.ReadBytesLinear` | crates/page/os-page/src/backends.rs:49-60 | the loop reads the little-endian word, or faults exactly when the saturated end is out of bounds |
| `GuestMemory.WriteBytesLinear` | crates/page/os-page/src/backends.rs:62-72 | the loop writes the value's little-endian bytes, or faults and writes none |
| `GuestRuns.PagesRefineFlat` | crates/page/os-page/src/backends.rs:30-125 | over every run of reads, writes and page allocations, sparse pages answer what zero-initialised flat memory answers |
| `GuestRuns.AllocationIsUnobservable` | crates/page/os-page/src/backends.rs:93-97 | a run over pages and any run of the same reads and writes without its page allocations give the same answers |
| `GuestRuns.LinearRefinesFlat` | crates/page/os-page/src/backends.rs:290-317 | over every run, in-bounds accesses to linear memory answer as flat memory does under those accesses alone, at any base, and all others fault |
| `GuestRuns.BackendsAgree` | crates/page/os-page/src/backends.rs:30-72 | linear and paged memory give the same answers to the same admitted accesses |
| `PageTable.TranslationFits` | crates/page/os-page/src/backends.rs:187-261 | a translation never exceeds 64 bits and keeps the page offset, at any page size, level count and entry width |
| `PageTable.IndexSplit` | crates/page/os-page/src/backends.rs:219-227 | the three indices are the digits of the page number |
| `PageTable.IndexSplitInjective` | crates/page/os-page/src/backends.rs:216-227 | three indices and the page offset determine the address and conversely |
| `PageTable.ThreeLevelWalk` | crates/page/os-page/src/backends.rs:215-250 | the 3-level walk from its reads: bits 48 to 63, 32 to 47 and 16 to 31 select in turn, and the last entry gives the page, with either entry width |
| `PageTable.TwoLevelWalk` | crates/page/os-page/src/backends.rs:187-213 | the 2-level walk from its one read, at any page size, with either entry width |
| `PageTable.WalkFaults` | crates/page/os-page/src/backends.rs:215-260 | the first page-table read that faults decides; other level counts are unmapped |
| `PageTable.ThreeLevelsRefineTwo` | crates/page/os-page/src/backends.rs:187-251 | if the two upper reads lead to where a flat table would lie, the 3-level walk equals the 2-level walk for every address and both entry widths |
| `PageTable.SecurityTopIsZero` | crates/page/os-page/src/backends.rs:198-202 | with 64-bit entries the security entry contributes nothing to the page: a 32-bit word shifted right by 48 |
| `PageTable.SecurityDirectoryUnobserved` | crates/page/os-page/src/backends.rs:187-251 | so with 64-bit entries a whole translation, of 2 or 3 levels, is the page pointer's upper 48 bits and the offset, whatever a readable security directory holds and wherever it lies |
| `PageInstall.EntriesApart` | crates/page/os-page/src/backends.rs:190-193 | entries of two pages share no byte, even when the table wraps around 2^64 |
| `PageInstall.TranslateOver64` | crates/page/os-page/src/backends.rs:187-203 | over sparse memory every 2-level translation with 64-bit entries succeeds and is the entry's upper 48 bits |
| `PageInstall.InstallMapping` | crates/page/os-page/src/backends.rs:187-203 | storing an entry maps every address of its page to the given frame and changes no other page's translation |
| `PageInstall.TranslateOver32` | crates/page/os-page/src/backends.rs:204-212 | the same with 32-bit entries, where the directory supplies the top 8 bits |
| `PageInstall.InstallMapping32` | crates/page/os-page/src/backends.rs:204-212 | storing a 32-bit entry that does not overwrite the directory maps its page and no other |
| `PageInstall.InstallThreeLevels` | crates/page/os-page/src/backends.rs:215-250 | storing a top, a middle and a leaf entry that do not overlap maps every address of the page to the frame |
| `PageInstall.LeafStoreIsLocal` | crates/page/os-page/src/backends.rs:215-250 | storing an entry changes no translation whose three entries it does not overlap |
| `Utf8.ConcatValid` | crates/daemon/os-daemon-protocol/src/lib.rs:252-266 | valid UTF-8 is closed under concatenation, so built messages are valid strings |
| `Utf8.ValidIsEncoded` | crates/daemon/os-daemon-protocol/src/lib.rs:252-266 | a byte string is taken for UTF-8 exactly if it is the encoding of some scalar values |
| `Wire.EncodeString` | crates/daemon/os-daemon-protocol/src/lib.rs:246-250 | appends length and bytes to whatever the buffer held |
| `Wire.EncodeOptionString` | crates/daemon/os-daemon-protocol/src/lib.rs:268-276 | appends the presence byte and, if present, the string |
| `Wire.EncodeStringVec` | crates/daemon/os-daemon-protocol/src/lib.rs:292-297 | the loop appends the count and every item in order |
| `Wire.EncodeFrame` | crates/daemon/os-daemon-protocol/src/lib.rs:225-232 | version, tag, payload length, payload |
| `Wire.EncodeRequest` | crates/daemon/os-daemon-protocol/src/lib.rs:74-91 | the imperative encoder produces the specified bytes for every request |
| `Wire.EncodeResponse` | crates/daemon/os-daemon-protocol/src/lib.rs:118-151 | the imperative encoder produces the specified bytes for every response |
| `Wire.DecodeStringVec` | crates/daemon/os-daemon-protocol/src/lib.rs:299-312 | the accumulating loop answers what decoding item by item answers, failures included |
| `WireTheorems.StringReads` | crates/daemon/os-daemon-protocol/src/lib.rs:246-266 | a string followed by anything decodes to it and leaves the rest |
| `WireTheorems.StringRead` | crates/daemon/os-daemon-protocol/src/lib.rs:252-266 | whatever decodes as a string is its encoding followed by the rest |
| `WireTheorems.OptionReads` | crates/daemon/os-daemon-protocol/src/lib.rs:268-290 | an optional string followed by anything decodes to it and leaves the rest |
| `WireTheorems.OptionRead` | crates/daemon/os-daemon-protocol/src/lib.rs:278-290 | whatever decodes as an optional string is its encoding followed by the rest |
| `WireTheorems.ItemsReads` | crates/daemon/os-daemon-protocol/src/lib.rs:292-312 | a list of strings followed by anything decodes to it and leaves the rest |
| `WireTheorems.ItemsRead` | crates/daemon/os-daemon-protocol/src/lib.rs:299-312 | whatever decodes as a list is its encoding followed by the rest |
| `WireTheorems.FrameReads` | crates/daemon/os-daemon-protocol/src/lib.rs:225-244 | a frame decodes to its tag and payload exactly when the payload length fits 32 bits |
| `WireTheorems.FrameRead` | crates/daemon/os-daemon-protocol/src/lib.rs:234-244 | only frames decode |
| `WireTheorems.RequestBijection` | crates/daemon/os-daemon-protocol/src/lib.rs:74-116 | a buffer decodes to a request if and only if it is that request's encoding and the payload is below 2^32 |
| `WireTheorems.OversizeRequest` | crates/daemon/os-daemon-protocol/src/lib.rs:225-232 | an encoding whose length was truncated never decodes |
| `WireTheorems.ResponseBijection` | crates/daemon/os-daemon-protocol/src/lib.rs:118-204 | a buffer decodes to a response if and only if it is its encoding with some byte standing for the same cache flag, below 2^32 |
| `WireTheorems.ResponseRoundTrip` | crates/daemon/os-daemon-protocol/src/lib.rs:118-204 | decoding an encoded response gives it back, or fails exactly when the payload does not fit |
| `WireTheorems.ResponseReencodes` | crates/daemon/os-daemon-protocol/src/lib.rs:153-204 | re-encoding an accepted buffer gives it back with only the cache byte normalised |
| `WireTheorems.RequestsSpelledOut` | crates/daemon/os-daemon-protocol/src/lib.rs:74-91 | the bytes of every request by version, tag and fields |
| `WireTheorems.ResponsesSpelledOut` | crates/daemon/os-daemon-protocol/src/lib.rs:118-151 | the bytes of every response by version, tag and fields |
| `WireTheorems.ItemsSpelledOut` | crates/daemon/os-daemon-protocol/src/lib.rs:292-297 | each string of a list stands after its own length, in order |
| `FrameStream.ByteStream.ReadExact` | crates/daemon/os-daemon-protocol/src/lib.rs:206-218 | takes exactly the next bytes, or fails with the stream used up |
| `FrameStream.ReadFrame` | crates/daemon/os-daemon-protocol/src/lib.rs:206-218 | two exact reads take exactly the first frame off the stream and leave the rest |
| `FrameStream.StreamsSplit` | crates/daemon/os-daemon-protocol/src/lib.rs:206-232 | repeated reads of concatenated frames and a suffix return those frames in order and leave the suffix |
| `FrameStream.StreamsInjective` | crates/daemon/os-daemon-protocol/src/lib.rs:206-232 | two sequences of as many frames with the same concatenation are the same |
| `FrameStream.AcceptedIsFramed` | crates/daemon/os-daemon-protocol/src/lib.rs:93-244 | every buffer a decoder accepts is one whole frame of the stream |
| `FrameStream.EncodedIsFramed` | crates/daemon/os-daemon-protocol/src/lib.rs:225-232 | every encoded frame below 2^32 is one whole frame of the stream |
| `FrameStream.FramesPrefixFree` | crates/daemon/os-daemon-protocol/src/lib.rs:206-244 | no frame is a proper prefix of another |
| `FrameStream.TruncationsRejected` | crates/daemon/os-daemon-protocol/src/lib.rs:234-244 | every proper truncation or extension of an accepted buffer is refused by both decoders |
| `CClient.WriteU32` | crates/daemon/os-daemon-shim/src/execve.rs:71-79 | writes a little-endian word and advances, or refuses without a change |
| `CClient.WriteStr` | crates/daemon/os-daemon-shim/src/execve.rs:81-88 | writes length and bytes exactly when they fit the buffer |
| `CClient.ReadU32` | crates/daemon/os-daemon-shim/src/execve.rs:90-98 | reads the little-endian word exactly when four bytes remain |
| `CClient.ReadStr` | crates/daemon/os-daemon-shim/src/execve.rs:100-108 | copies the string and its NUL exactly when it fits both buffers, with the 32-bit sum as the C computes it |
| `CClient.BuildRequest` | crates/daemon/os-daemon-shim/src/execve.rs:121-134 | the request buffers end up as the Obtain frame if and only if it fits the 512-byte payload |
| `CClient.ParseResponse` | crates/daemon/os-daemon-shim/src/execve.rs:138-154 | the reply buffers yield the executable path, NUL-terminated, exactly when the reply is one the client takes |
| `CClient.TakesExactly` | crates/daemon/os-daemon-shim/src/execve.rs:138-154 | of all byte strings the client takes exactly whole version-2 Ready frames of at most 2048 bytes of payload that start with a string of at most 1023 bytes |
| `CClient.ShimExecve` | crates/daemon/os-daemon-shim/src/execve.rs:156-162 | the path executed: the C string in the buffer, or else the original path |
| `CClient.ClientBuildsObtain` | crates/daemon/os-daemon-shim/src/execve.rs:121-134 | what the client builds is the codec's encoding of Obtain and the daemon decodes it |
| `CClient.ClientParsesResponses` | crates/daemon/os-daemon-shim/src/execve.rs:138-154 | of all encoded responses, of any size, the client takes exactly a Ready whose length fields fit its buffers, and reads its path |
| `CClient.TakenIsWhole` | crates/daemon/os-daemon-shim/src/execve.rs:138-154 | below 2^32 the path taken is the one sent if it fits 2048 and 1023 bytes; in general it is a prefix of it, and the whole if and only if the path is below 2^32 |
| `CClient.ExecPathIsExact` | crates/daemon/os-daemon-shim/src/execve.rs:156-162 | for such a reply the executed path is the one sent if and only if it has no NUL |
| `CClient.ExecPathFallsBack` | crates/daemon/os-daemon-shim/src/execve.rs:156-162 | every other encoded response makes the original path run |
| `IdOrder.LessTotal` | crates/daemon/os-daemon/src/lib.rs:79-80 | byte order on ids is total |
| `IdOrder.LessTransitive` | crates/daemon/os-daemon/src/lib.rs:79-80 | byte order on ids is transitive |
| `IdOrder.LessByFirstDifference` | crates/daemon/os-daemon/src/lib.rs:79-80 | ids are ordered by their first difference, a proper prefix first |
| `IdOrder.ListingUnique` | crates/daemon/os-daemon/src/lib.rs:61-63 | a set of ids has only one ascending listing, so map iteration order is not observable |
| `IdOrder.SortIds` | crates/daemon/os-daemon/src/lib.rs:79-80 | sorting yields that listing |
| `Daemon.Daemon.Register` | crates/daemon/os-daemon/src/lib.rs:38-40 | the backend replaces what its id named and nothing else |
| `Daemon.Daemon.HandleFrame` | crates/daemon/os-daemon/src/lib.rs:42-52 | reply and new registry for every frame, malformed ones included |
| `Daemon.Daemon.Dispatch` | crates/daemon/os-daemon/src/lib.rs:54-66 | reply and new registry for every request |
| `Daemon.Daemon.HandleAnalyze` | crates/daemon/os-daemon/src/lib.rs:68-95 | the loop with its early return answers what the recursive search over sorted ids answers |
| `Daemon.Daemon.HandleObtain` | crates/daemon/os-daemon/src/lib.rs:97-117 | only the named backend steps; an unknown id changes nothing |
| `DaemonRuns.BackendsIsolated` | crates/daemon/os-daemon/src/lib.rs:42-117 | over every sequence of frames the set of ids never changes and each backend ends as the fold of obtain over exactly the well-formed Obtain frames naming it, in order |
| `DaemonRuns.RunSplits` | crates/daemon/os-daemon/src/lib.rs:42-52 | the reply to each frame of a run is that of the state its predecessors left |
| `DaemonRuns.ObtainRepliesIsolated` | crates/daemon/os-daemon/src/lib.rs:97-117 | the reply to an Obtain depends only on the earlier Obtains of the same backend: Ready with its path, Unsuitable with its reasons or Error with its message; an unknown id is named in an error |
| `DaemonRuns.NamedAnalysis` | crates/daemon/os-daemon/src/lib.rs:68-74 | the reply to an analysis by a named backend is that backend's verdict; an unknown id is named in an error |
| `DaemonRuns.PlainReplies` | crates/daemon/os-daemon/src/lib.rs:42-57 | what cannot be decoded is an invalid request and changes nothing; a ping gets a pong |
| `DaemonRuns.MessageTexts` | crates/daemon/os-daemon/src/lib.rs:42-84 | the two fixed messages |
| `DaemonRuns.ListingsUnchanged` | crates/daemon/os-daemon/src/lib.rs:59-64 | every listing in a run is the ascending list of the ids registered at its start |
| `DaemonRuns.RepliesDecode` | crates/daemon/os-daemon/src/lib.rs:42-117 | every reply is of a kind the request allows, names the requested backend if it is Ready or Unsuitable, and decodes if and only if it fits 32 bits |
| `DaemonRuns.FirstSuitableFinds` | crates/daemon/os-daemon/src/lib.rs:85-92 | the loop stops at the first suitable id, or answers what the last id says |
| `DaemonRuns.DefaultAnalysis` | crates/daemon/os-daemon/src/lib.rs:75-93 | the reply without a named backend: the least id whose backend says suitable, else the greatest id's reasons or message, else that none is registered |
| `DaemonRuns.LastRegistrationWins` | crates/daemon/os-daemon/src/lib.rs:36-40 | after any registrations an id names the last backend registered under it |
| `DaemonRuns.RegistrationOrderUnobserved` | crates/daemon/os-daemon/src/lib.rs:36-40 | two histories of registrations leave the same registry if and only if they end with the same backend under every id |
| `EndToEnd.ClientFrameDecodes` | crates/daemon/os-daemon-protocol/src/lib.rs:93-116 | the daemon decodes the client's frame to that Obtain if and only if both strings are UTF-8, and refuses it otherwise |
| `EndToEnd.ExecutedPath` | crates/daemon/os-daemon-shim/src/execve.rs:110-162 | client, codec, daemon and backend together: what is executed for any path, any registry and any backend answer, of any size |
| `Base64.Letter` | crates/daemon/os-codesign-macho/src/lib.rs:381-382 | no sextet is written as a padding character |
| `Base64.CapitalLetters` | crates/daemon/os-codesign-macho/src/lib.rs:381-382 | the first 26 letters of the alphabet |
| `Base64.SmallLetters` | crates/daemon/os-codesign-macho/src/lib.rs:381-382 | the next 26 |
| `Base64.DigitsAndSigns` | crates/daemon/os-codesign-macho/src/lib.rs:381-382 | the last 12 |
| `Base64.ChunkText` | crates/daemon/os-codesign-macho/src/lib.rs:386-402 | every chunk becomes four characters |
| `Base64.Base64Encode` | crates/daemon/os-codesign-macho/src/lib.rs:384-405 | the loop over chunks meets the chunk-by-chunk specification |
| `Base64.ChunkReads` | crates/daemon/os-codesign-macho/src/lib.rs:386-402 | a strict reader of four characters inverts each chunk of one, two or three bytes |
| `Base64.ChunkRead` | crates/daemon/os-codesign-macho/src/lib.rs:386-402 | four characters the strict reader takes are the encoding of what it read: zero pad bits only |
| `Base64.Base64Bijection` | crates/daemon/os-codesign-macho/src/lib.rs:384-405 | a strict decoder answers a byte string if and only if the text is its encoding; so encoding is injective and padding canonical |
| `Base64.EncodedLength` | crates/daemon/os-codesign-macho/src/lib.rs:384-405 | four characters for every three bytes or part of them |
| `Base64.PaddingCanonical` | crates/daemon/os-codesign-macho/src/lib.rs:394-403 | a character is padding exactly where the last chunk has no byte for it |
| `XmlEscape.FivePassesAreOne` | crates/daemon/os-codesign-macho/src/lib.rs:363-369 | five sequential replacements equal one simultaneous substitution per character |
| `XmlEscape.EscapeBijection` | crates/daemon/os-codesign-macho/src/lib.rs:363-369 | unescaping the five entities answers a string if and only if the text is its escape; so escaping is injective |
| `XmlEscape.EscapedIsInert` | crates/daemon/os-codesign-macho/src/lib.rs:363-369 | no raw angle bracket or quote remains |
| `HexDecode.AcceptsExactly` | crates/daemon/os-codesign-macho/src/lib.rs:371-379 | decoding succeeds exactly on even length and good pairs, where a plus sign passes for a leading digit |
| `HexDecode.DigitsAreHex` | crates/daemon/os-codesign-macho/src/lib.rs:371-379 | the digits are 0 to 9, A to F and a to f with their values, and nothing else |
| `HexDecode.PanicsExactly` | crates/daemon/os-codesign-macho/src/lib.rs:371-379 | slicing panics if and only if the length is even and the first pair that is not good is cut off a character boundary |
| `HexDecode.PlusIsAccepted` | crates/daemon/os-codesign-macho/src/lib.rs:371-379 | "+f" decodes to 15 |
| `HexDecode.HexRoundTrip` | crates/daemon/os-codesign-macho/src/lib.rs:371-379 | the hexadecimal text of any bytes decodes to them |
| `HexDecode.CaseIgnored` | crates/daemon/os-codesign-macho/src/lib.rs:371-379 | upper-case text decodes to the same |

## Left out

- MachORewrite.FindAnchor: which of its `Malformed` messages an input gets is not specified, because the wording carries no decision.
- MachORewrite.RewriteMachO: up to the wording of `Malformed`; the input's file length is not limited to the address space.
- MachOTheorems.SpliceCommutesWithReading: says nothing of a table whose commands do not end where the header says; for those only the byte-level specification and the frame hold.
- ElfRewrite.RewriteElf: a 64-bit sum that overflows is an error of its own, as in a build with overflow checks; a build without them wraps around.
- ElfLoader.RewriteExtendsDynamic: one way only in the disjointness of regions; of overlapping layouts, ElfOverlap characterises the closing loop and not what else the strings overwrite.
- GuestMemory.LegacyOnDemand.GetPage: models the allocation, not writes through the reference it returns.
- GuestMemory.LinearHost.Read: buffers are below 2^63 bytes, the longest slice there can be.
- GuestMemory.LegacyOnDemand.Write: ORing bytes that share no bit is modelled as addition, as are the joins of the page walk.
- PageTable.TranslationFits: for the 2-level walk, assumes that page number times entry size fits 64 bits; a multiplication that overflows is not modelled.
- CClient.BuildRequest: paths and backend ids are C strings, so they hold no NUL; the backend id is a parameter, where the generator pastes it into the source.
- CClient.ParseResponse: the reply is one whole byte string; a `read` that returns fewer bytes than asked for is a reply that ends there.
- Daemon.Daemon.HandleFrame: the lock is held for the length of a request, so requests are sequential; a backend that panics and poisons the lock is not modelled.
- Daemon.Daemon.HandleObtain: a path is its UTF-8 bytes; lossy display of paths that are not UTF-8 is not modelled.
- Wire.DecodeStringVec: capacity reserved from a count on the wire has no counterpart.
- HexDecode.AcceptsExactly: hexadecimal text is taken as the bytes of a string; its caller is not modelled.
- Sockets, files, environment variables and processes: a connection is a sequence of bytes, a backend is abstract state with functions `analyze` and `obtain`.
- `write_frame` and `handle_client`: forwarding to sockets.
- `os-abi-codegen`, `os-shim-handler`, other generated C and Rust: text whose meaning lies in the language it is written in.
- `os-host-api`, `os-linux-wasi`, `os-syscall-emit`: fixed tables and short lookups, which would only add easy members.
- `os-page-codegen`, `os-abi-spec`, `os-ctx`, `os-async`: interfaces, or code whose definitions lie in crates that are not part of this model.
- Calling `codesign`, reading plists and building entitlements: text handed to another program.
