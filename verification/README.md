# A verified model of the minidump writer

The writer stops a process, reads its threads, mappings and memory, and lays out a minidump in a
growing buffer that is mirrored, flush by flush, to a seekable destination. This project models the
parts of it that are hard to get right and proves what they promise.

* **Mappings and stack sanitising** (`Maps`, `Aggregation`, `Runs`, `Android`, `Sanitizer`, `StackInfo`,
  `Pipeline`). Rows of `/proc/<pid>/maps` are folded into modules by three merge rules, the module of
  the entry point is moved to the front, Android libraries are biased, and stack copies are then
  sanitised with the help of a 2048-bit modular bitmap, the range of the stack, and a last-hit cache.
  The sanitiser refines a plain linear rule on every sound table; every table the pipeline produces
  is sound; so no address of code, and none in the row of the stack pointer, is ever removed from a
  stack, and nothing but small numbers, mapped addresses and the filler is left in it. Each module is
  described by a run of touching rows, and rows of one file stay together.
* **Buffer, directory and file** (`Bytes`, `Format`, `DumpBuffer`, `Strings`, `DirSection`, `DumpLog`,
  `ThreadList`, `ThreadNames`, `MemoryList`, `Sections`, `GenerateDump`, `DumpReader`, `WholeDump`). Slots are reserved
  first and filled later. The destination mirrors the buffer after every flush, although directory entries are
  written out of order; at every flush of every run at which the dump is below 4 GiB, with any
  combination of failing streams and failing I/O, it holds a readable dump. However a run ends, even in
  the middle of a write, the last completed flush is still there but for the slot of the next entry.
  From the bytes alone a reader finds every entry under its number and type, each thread with the right
  registers and stack, the list of memory, and the exception; and unless the destination fails, a run
  succeeds exactly when every required stream can be written.
* **Suspending and resuming threads** (`Ptrace`). Every run of `dump` is a trace of kernel events
  against a kernel that may answer anything. Attaching and detaching balance, and signals are
  conserved, on every exit.
* **Parsers and readers** (`MemReader`, `SoName`, `SoVersion`, `LoadCommands`). The word-by-word
  remote reader, the two ways to find a SONAME, versions in file names, Mach-O load commands.

Files that work by changing state are modelled by classes, arrays and loops, and each such method is
proved equal to a function of its inputs or of the old state; the theorems are about those functions.

## What the code does that its description does not say

* `small_int_magnitude` (src/linux/ptrace_dumper.rs:446-449) suggests that small negative numbers are
  kept; line 485 compares them as unsigned, so they are defaced (`Sanitizer.SmallNegativeIsDefaced`).
* A module whose name ends twice in ` (deleted)` loses the marker once per pass
  (`Aggregation.TwiceDeletedIsRenamed`), so aggregating again is the identity exactly when no output
  name carries the marker (`Aggregation.ReaggregationIsIdentity`).
* A file can be split although its rows touch: a first row without access is taken as space reserved behind
  another file's code (`Runs.FileIsSplit`). Touching rows of one name, also over an empty page, lie in one
  module exactly when the first is in a module of its name or the last looks reserved too
  (`Runs.TogetherIff`, `Runs.TogetherOverPageIff`).
* `get_stack_info` can report a mapping without any access when it lies just beyond the guard limit
  (`StackInfo.GuardBeyondLimitIsReported`); the search ends on a possible stack exactly when one is
  within reach (`StackInfo.EndsOnStackIff`).
* A directory entry reaches the file before the data it names. After a flush that is interrupted there,
  the entry lies outside the file exactly when the destination was not that long before
  (`DirSection.InterruptedFlush`, `DirSection.EntryOutsideFile`). The promise holds at completed flushes.
* The sanitiser slices beyond a stack copy exactly when the stack pointer lies behind its whole words
  (`ThreadList.CopyTooShortIff`); for a stack cut to 2 KiB, when it lies more than 2 KiB into it
  (`ThreadList.CutTooShortIff`, `ThreadList.PointerBeyondCut`).
* The dso-debug entry counts the whole dynamic section before it is copied, and the copy may come short
  without an error: the entry then ends behind the file of its own flush, and overlaps the next stream
  after that. It lies inside exactly when the copy is complete (`Sections.DsoCoveredIff`,
  `Sections.ShortDsoLeavesFile`, `DumpLog.TruncationSafety`).
* Thread names are counted over the named threads but indexed by all of them, so the list reads back
  exactly when unnamed threads come last (`ThreadNames.WriteThreadNames`, `ThreadNames.NameBehindUnnamed`).
  A slot may even lie behind the end of the dump, which faults; which threads lead there is a recurrence
  over their names (`ThreadNames.FateOf`, `ThreadNames.SlotBeyondEnd`).
* `suspend_thread` does not detach a thread that reports something other than a stop, or that cannot be
  continued; it stays attached exactly when it is nevertheless alive, or its detach is refused
  (`Ptrace.NoThreadStaysAttached`, `Ptrace.LivingThreadLeaks`).
* With several different DT_SONAME entries the program headers yield the last, the sections the first in
  range (`SoName.DifferentSonamesDisagree`); they agree exactly when those two have the same name or
  error (`SoName.SonamesAgreeIff`).
* A version component whose last non-digit is not ASCII is cut inside a character
  (`SoVersion.TaggedRoundTrip`).

## Model

| member | source | states |
|---|---|---|
| `Maps.AddRow` | src/linux/maps_reader.rs:120-183 | one turn of the loop is exactly one step of the fold: continue the last module, extend it over reserved space, close over an empty page (dropping it), or push |
| `Maps.Aggregate` | src/linux/maps_reader.rs:91-186 | the loop over the rows, with their names resolved, is the fold over which the laws below are proved |
| `Aggregation.Conservation` | src/linux/maps_reader.rs:120-183 | for all sorted disjoint rows: modules are sorted and disjoint, cover exactly the same addresses, kernel ranges start with their module and end inside it, every executable row lies in the kernel range of an executable module, and every executable module has such a row |
| `Aggregation.AggregatedIsStable` | src/linux/maps_reader.rs:120-171 | in the output no module could still be merged with the modules before it |
| `Aggregation.StableIsFixpoint` | src/linux/maps_reader.rs:120-183 | such a list aggregates to itself |
| `Aggregation.NeighboursDiffer` | src/linux/maps_reader.rs:120-130 | no two modules that touch share a name |
| `Aggregation.ReaggregationIsIdentity` | src/linux/maps_reader.rs:69-75 | aggregating the output again, through path names, changes no start, size, offset, permissions or name if and only if no output name ends in the deleted-file marker |
| `Aggregation.TwiceDeletedIsRenamed` | src/linux/maps_reader.rs:69-75 | a file whose name carries the marker twice: its module has another name after the second pass |
| `Aggregation.AtMostOneEach` | src/linux/maps_reader.rs:173-183 | every row adds at most one module, and if each adds one then row k became module k |
| `Aggregation.ResolvedNames` | src/linux/maps_reader.rs:95-118 | for every row: range and permissions stay; a file keeps its path, without the deleted-file marker, and its offset; an unnamed row or the vDSO at the gate's address becomes linux-gate.so at offset 0; any other unnamed row stays unnamed |
| `Aggregation.NumberedNames` | src/linux/maps_reader.rs:104-109 | stacks of threads are numbered in decimal, shared memory in lower-case hexadecimal |
| `Runs.RowsFallIntoRuns` | src/linux/maps_reader.rs:120-183 | for all rows: the table is the concatenation of one run of touching rows per module; a module's start, name and offset are those of its first row and its end that of its last; its permissions are the union of those of its rows with its name; its kernel range ends with the last of these; every other row in it has no access and is either reserved behind earlier code of the file or an unnamed page at offset 0 before another row of the file |
| `Runs.AnonymousIsAlone` | src/linux/maps_reader.rs:120-183 | a module without a name is a single row |
| `Runs.RowsAreHoused` | src/linux/maps_reader.rs:120-183 | for all sorted rows: every row with more than the private flag lies in the kernel range of a module that has its name and at least its permissions |
| `Runs.TogetherIff` | src/linux/maps_reader.rs:120-130 | two touching rows of one name lie in one module if and only if the first is in a module of its name or the second looks reserved; the first is whenever it has any access |
| `Runs.TogetherOverPageIff` | src/linux/maps_reader.rs:146-171 | the same for two rows of one file with an unnamed, private, offset-0 page between them, all touching; the page is in the module of the first row |
| `Runs.ReservedStaysWithCode` | src/linux/maps_reader.rs:131-143 | a row without access, with offset 0 or its own address, that touches an executable row of a file lies in the same module |
| `Runs.TakenByOtherCode` | src/linux/maps_reader.rs:131-143 | such a row of another file does not lie in a module of its own name |
| `Runs.FileIsSplit` | src/linux/maps_reader.rs:131-171 | four touching rows by which a file is split over two modules |
| `Pipeline.EnumerateMappings` | src/linux/ptrace_dumper.rs:322-345 | the search-and-swap loop yields the aggregated modules with the first one that spans the entry point in front |
| `Pipeline.EntryFirstPermutes` | src/linux/ptrace_dumper.rs:327-345 | the swap loses no module; afterwards the first module spans the entry point whenever some module does, and else nothing changed |
| `Pipeline.OnlyEntryMoves` | src/linux/ptrace_dumper.rs:341-343 | a later module that does not span the entry point keeps its place; the first one that does changes places with the module in front |
| `Android.MinVaddrIsMin` | src/linux/android.rs:75-94 | the running minimum is the least address of a loadable segment, or the greatest word when there is none |
| `Android.ParseProgramHeaders` | src/linux/android.rs:69-107 | the loop over program headers finds that minimum and the last dynamic segment |
| `Android.FindPackedRelocations` | src/linux/android.rs:35-51 | the scan succeeds if and only if an entry with a packed-relocation tag comes before any that cannot be read; with overflow checks it faults if and only if it reaches an address that wraps |
| `Android.EffectiveLoadBias` | src/linux/android.rs:53-107 | for every image and address the computed bias is the one below, and with overflow checks it faults if and only if the address of the program headers, the subtraction, the dynamic address or a step of the scan overflows |
| `Android.LoadBiasIff` | src/linux/android.rs:53-67 | the bias differs from the address if and only if the lowest segment is not at zero and a packed-relocation tag is found; then it lies below the address by that lowest address if and only if that does not exceed the address |
| `Android.LateProcessMappings` | src/linux/android.rs:109-136 | the loop over the array biases exactly the executable file mappings with a shared-object header, in place; unreadable headers are covered; with overflow checks it faults if and only if some module's bias overflows |
| `Android.BiasOnlyLowersStart` | src/linux/android.rs:129-131 | the bias lowers the start and keeps end, kernel range, permissions, name and offset |
| `Android.DynamicIsLast` | src/linux/android.rs:95-98 | the dynamic segment that counts is the last one: its address, and its size divided by 16 |
| `Android.NoDynamic` | src/linux/android.rs:69-74 | without one, address and count are 0 |
| `Android.LibraryMovesIff` | src/linux/android.rs:53-136 | a shared object with lowest segment at min > 0 moves down by min, its end fixed, if and only if one of the entries of its last dynamic segment has tag 0x6000000f or 0x60000011 and those before it can be read; else it stays as it is |
| `Android.OthersStay` | src/linux/android.rs:113-131 | data, unnamed memory, what is no shared object, and modules with lowest address 0 stay as they are |
| `Sanitizer.FindIsUnique` | src/linux/ptrace_dumper.rs:529-534 | with disjoint kernel ranges, a mapping that contains the address is the one the linear search finds |
| `Sanitizer.SettingABit` | src/linux/ptrace_dumper.rs:465-468 | setting bit k of the 256-byte field sets the bits congruent to k modulo 2048, and no other |
| `Sanitizer.MarkMapping` | src/linux/ptrace_dumper.rs:461-468 | the inner loop adds exactly the blocks of one mapping to the bitmap |
| `Sanitizer.BuildBitmap` | src/linux/ptrace_dumper.rs:451-469 | a bit is set if and only if some executable mapping has a block that falls on it |
| `Sanitizer.NoFalseNegatives` | src/linux/ptrace_dumper.rs:500-501 | an address in the kernel range of an executable mapping always finds its bit set |
| `Sanitizer.KeepWord` | src/linux/ptrace_dumper.rs:481-508 | with bitmap, stack range and last-hit cache, a word is kept if and only if the plain rule keeps it (see KeptIff); the cache stays correct |
| `Sanitizer.SanitizeWord` | src/linux/ptrace_dumper.rs:481-510 | one word of the array becomes what the plain rule says, and no other byte changes |
| `Sanitizer.KeptIff` | src/linux/ptrace_dumper.rs:482-508 | on every table with disjoint kernel ranges a word is kept if and only if it is at most 4096, or one mapping's kernel range holds it and the stack pointer, or the kernel range of an executable mapping holds it |
| `Sanitizer.WordOutcome` | src/linux/ptrace_dumper.rs:481-510 | every whole word from the aligned stack pointer on is unchanged or becomes the filler, by the rule |
| `Sanitizer.SanitizedIsCensored` | src/linux/ptrace_dumper.rs:471-515 | the bytes that result, from the ranges of the table alone: zeros below the first multiple of 8 at or above the stack pointer's offset and behind the last whole word; each word between stands unchanged under the condition above, and else is 0x0defaced0defaced |
| `Sanitizer.SmallNegativeIsDefaced` | src/linux/ptrace_dumper.rs:482-487 | the word -1 is defaced when nothing is mapped |
| `Sanitizer.SanitizeStackCopy` | src/linux/ptrace_dumper.rs:410-517 | on every sound table and every copy the in-place sanitiser writes, byte for byte, what the plain rule says, and so exactly the bytes described from the ranges of the table: zeros below the aligned stack pointer, small numbers, stack addresses and code addresses unchanged, every other word the filler, a zero tail |
| `Pipeline.TableIsSound` | src/linux/ptrace_dumper.rs:303-347 | for every sorted disjoint table of rows, aggregation, swap and bias yield disjoint kernel ranges, each inside its module |
| `Pipeline.CodeAddressIsKept` | src/linux/ptrace_dumper.rs:500-508 | end to end: an address in any executable row is kept |
| `Pipeline.KeptWordIsMapped` | src/linux/ptrace_dumper.rs:485-508 | end to end, the converse: a kept word is a small number or an address of some row |
| `Pipeline.CodeWordsSurvive` | src/linux/ptrace_dumper.rs:410-517 | a stack word that is an address in an executable row is never defaced, for every target |
| `Pipeline.RowIsShared` | src/linux/ptrace_dumper.rs:489-493 | for every target, two addresses in one row that can be read or written lie in one mapping's kernel range |
| `Pipeline.StackWordsSurvive` | src/linux/ptrace_dumper.rs:489-493 | end to end: a stack word that is an address in the row of the stack pointer is never defaced, when that row can be read or written |
| `Pipeline.Idempotent` | src/linux/ptrace_dumper.rs:410-517 | sanitising twice is sanitising once, for every table, stack pointer and offset |
| `Pipeline.OnlyKeptWordsShow` | src/linux/ptrace_dumper.rs:471-515 | two copies that agree on the words to be kept become the same bytes |
| `StackInfo.GetStackInfo` | src/linux/ptrace_dumper.rs:365-408 | the loop ends; it stops at the first page that may be a stack or lies beyond the limit; every page skipped was unmapped or had neither read nor write permission; it passes the rounded pointer by at most 1 MiB and a page; pointer plus length is the end of the mapping found, and 0 < length <= size |
| `StackInfo.OneOutcome` | src/linux/ptrace_dumper.rs:365-398 | that description has one outcome for every table, page size and pointer |
| `StackInfo.OverflowIff` | src/linux/ptrace_dumper.rs:381-383 | the search overflows if and only if no page up to the top of the address space may be a stack and the last one is within the limit |
| `StackInfo.HeadRoomSuffices` | src/linux/ptrace_dumper.rs:381-383 | with room for the guard and one page below the top of the address space the outcome is never an overflow |
| `StackInfo.EndsOnStackIff` | src/linux/ptrace_dumper.rs:381-383 | the search ends on a possible stack if and only if there is one within its reach |
| `StackInfo.StackReachesPointer` | src/linux/ptrace_dumper.rs:386-397 | when mappings end at page boundaries, the reported stack reaches beyond the stack pointer |
| `StackInfo.PageIsMultiple` | src/linux/ptrace_dumper.rs:368-368 | the search starts at the multiple of the page size at or below the pointer |
| `StackInfo.SkippedHaveNoAccess` | src/linux/ptrace_dumper.rs:381-384 | at every page skipped no mapping begins or goes on, or one that has neither the read nor the write flag, and it lies at most 1 MiB above the first |
| `StackInfo.StackBehindGuard` | src/linux/ptrace_dumper.rs:381-397 | a mapping with read or write flag behind any number of pages without one, the last of them at most 1 MiB up, is reported from its first page to its end, or as a whole if that page is outside its kernel range; with no such page it is found at the pointer's own page |
| `StackInfo.NothingNearby` | src/linux/ptrace_dumper.rs:381-397 | with nothing mapped from the pointer's page to 1 MiB and a page above it, no stack is found |
| `StackInfo.GuardBeyondLimitIsReported` | src/linux/ptrace_dumper.rs:381-397 | a concrete table on which every outcome of the search is a mapping without any access |
| `DumpBuffer.PutIsLocal` | src/mem_writer.rs:55-69 | a write puts its bytes at its place and changes no other byte |
| `DumpBuffer.PutKeepsStored` | src/mem_writer.rs:55-69 | what is stored clear of the written range stays stored |
| `DumpBuffer.Buffer.Reserve` | src/mem_writer.rs:40-44 | zeros are appended and the old length is returned |
| `DumpBuffer.Buffer.WriteAt` | src/mem_writer.rs:55-69 | the new contents; the length grows to max(len, offset + size) |
| `DumpBuffer.Buffer.Write` | src/mem_writer.rs:47-53 | writing at the end appends |
| `DumpBuffer.Buffer.WriteAll` | src/mem_writer.rs:72-74 | bytes are appended |
| `DumpBuffer.AllocWithVal` | src/mem_writer.rs:103-113 | the value is appended; its position is kept modulo 2^32 |
| `DumpBuffer.Alloc` | src/mem_writer.rs:116-125 | a zeroed slot is appended |
| `DumpBuffer.SetValue` | src/mem_writer.rs:129-131 | the slot is overwritten, nothing else |
| `DumpBuffer.WriteBytes` | src/mem_writer.rs:152-161 | bytes are appended, with a writer for their range |
| `DumpBuffer.AllocArray` | src/mem_writer.rs:215-223 | zeroed slots for an array are appended |
| `DumpBuffer.SetValueAt` | src/mem_writer.rs:227-231 | slot `index` is overwritten, nothing else |
| `DumpBuffer.AllocFromArray` | src/mem_writer.rs:168-181 | reserving the array and filling slot after slot equals appending the images of all values |
| `DumpBuffer.ConcatStores` | src/mem_writer.rs:168-181 | the image of value i is stored at i times the record size |
| `Strings.Utf16RoundTrip` | src/mem_writer.rs:254-254 | every text is read back from its UTF-16 units (section 2 of RFC 2781) |
| `Strings.SurrogateExample` | src/mem_writer.rs:254-254 | the example of section 2 of RFC 2781: U+12345 becomes D808 DF45 |
| `Strings.WriteUnits` | src/mem_writer.rs:262-266 | filling the text section slot by slot appends exactly the images of the units |
| `Strings.WriteStringToLocation` | src/mem_writer.rs:250-272 | fails exactly when the byte count does not fit in 32 bits, then writes nothing; else the returned location covers a count, which is that of the bytes, and that many bytes, reads back as the text, and all earlier bytes are unchanged |
| `Format.HeaderRoundTrip` | src/linux/minidump_writer.rs:239-252 | a header is read back from its image |
| `Format.DirectoryRoundTrip` | src/dir_section.rs:63-63 | a directory entry is read back from its image |
| `Format.ThreadRoundTrip` | src/linux/sections/thread_list_stream.rs:62-70 | a thread record is read back from its image |
| `Format.DescriptorRoundTrip` | src/linux/sections/memory_list_stream.rs:15-16 | a memory descriptor is read back from its image |
| `Format.HeaderFields` | src/linux/minidump_writer.rs:239-252 | the header's fields at offsets 0, 4, 8, 12, 16, 20 and 24 |
| `Format.DirectoryFields` | src/dir_section.rs:63-63 | an entry is type, size, position, four bytes each |
| `Format.DescriptorFields` | src/linux/sections/memory_list_stream.rs:15-16 | a block is its address in eight bytes, then size and position |
| `Format.ThreadFields` | src/linux/sections/thread_list_stream.rs:62-70 | a thread is its id, three words, a double word, then stack at 24 and context at 40 |
| `Bytes.LowBytesFirst` | src/mem_writer.rs:103-113 | numbers are stored with the bytes of low weight first |
| `DirSection.OverlayPatchAndFlush` | src/dir_section.rs:63-100 | writing an entry over the flushed part and then the unflushed rest gives the same file as writing the whole updated buffer |
| `DirSection.FlushMirrors` | src/dir_section.rs:89-102 | after a flush, with or without an entry, the file from its start offset is the whole buffer |
| `DirSection.SlotsAfterEntry` | src/dir_section.rs:63-70 | putting the next entry keeps all earlier entries and leaves the later slots zero |
| `DirSection.NewSection` | src/dir_section.rs:36-51 | reserves zeroed slots and remembers where the destination stands, or fails if it does not say; the section mirrors the buffer while that is below 4 GiB |
| `DirSection.DirSection.DumpDirEntry` | src/dir_section.rs:58-84 | entry put into the buffer and over its place in the destination, which returns to where it stood; whichever operation fails, no byte of the destination outside the slot has changed |
| `DirSection.DirSection.WriteToFile` | src/dir_section.rs:89-102 | mirror invariant: on success the destination from its start offset equals the buffer if it mirrored the flushed part before, it stands at start plus length, the entry is in its slot; on any I/O failure the flushed part has changed in the slot of the entry at most, and nothing before the start offset |
| `DirSection.EntryPrecedesItsData` | src/dir_section.rs:94-99 | between the two writes, for every destination: the entry is in the file, and behind the part flushed before the file holds what it held at first, or nothing |
| `DirSection.InterruptedFlush` | src/dir_section.rs:94-99 | a flush that ends after its first write, for any stream of positive size appended to a flushed buffer: the entry lies inside the file if and only if the destination was that long before, and then shows its old content |
| `DirSection.EntryOutsideFile` | src/dir_section.rs:94-99 | a concrete entry that names four bytes behind the end of a file of twelve |
| `ThreadList.StackHasPointerToMapping` | src/linux/maps_reader.rs:210-241 | true if and only if some whole word from the aligned stack pointer on lies in the kernel range, both ends included |
| `ThreadList.SkipsStack` | src/linux/sections/thread_list_stream.rs:203-217 | the exact condition for leaving out a stack, and for the fault on a copy shorter than a word |
| `ThreadList.FillThreadStack` | src/linux/sections/thread_list_stream.rs:177-232 | the exact outcome in every case: no stack found, copy failed, skipped, too short to sanitise, or appended (sanitised if asked for) and recorded as a block; the copy is that of all that was found, or of no more than the limit |
| `ThreadList.StackStatusIff` | src/linux/sections/thread_list_stream.rs:177-232 | filling in a stack fails if and only if nothing can be copied; it faults if and only if the search overflows, pointers are looked for in less than a word, or a sanitised stack ends below its stack pointer in whole words |
| `ThreadList.CopyTooShortIff` | src/linux/ptrace_dumper.rs:472-477 | a copy of any size, short reads included, is too short for the sanitiser if and only if its whole words end below the stack pointer |
| `ThreadList.CutTooShortIff` | src/linux/sections/thread_list_stream.rs:191-195 | a stack read in full always reaches the aligned stack pointer; one cut at the limit fails to if and only if the pointer lies beyond the limit |
| `ThreadList.PointerBeyondCut` | src/linux/sections/thread_list_stream.rs:191-195 | a stack of one page and a pointer for which the cut copy is too short |
| `ThreadList.WriteInstructionWindow` | src/linux/sections/thread_list_stream.rs:95-146 | the window around the crashing instruction is clipped to its mapping, holds all of it that could be copied, unchanged, and is the one block recorded if and only if there is a mapping; it faults if and only if there is one and the pointer is within 128 bytes of either end of the address space, and fails if and only if nothing can be copied |
| `ThreadList.DumpThread` | src/linux/sections/thread_list_stream.rs:61-172 | the record shows the thread's id, exactly the stack its registers lead to, cut at the limit unless it crashed, with the bytes to be shown of it, and the image of its registers; that stack and, for the crashing thread, the code around the crash are recorded as blocks; what is remembered of the crash; the exact status |
| `ThreadList.BlamedIsNoted` | src/linux/sections/thread_list_stream.rs:149-171 | over any list of threads, what is remembered is the context of the last blamed one, and none when there is none |
| `ThreadList.LayoutSlot` | src/linux/sections/thread_list_stream.rs:173-173 | filling the next slot keeps the records before it and every block of memory |
| `ThreadList.WriteThreadList` | src/linux/sections/thread_list_stream.rs:28-175 | for any number of threads the stream is exactly count and array, slot i reads back as the record of thread i, every block is the stack of one of these records (sanitised if asked for) or plain memory around the crash, and every stack and that code is such a block; the remembered context is that of the blamed thread's record, earlier bytes are unchanged, past the size limit each thread from index 20 without crash context is cut to 2048 stack bytes and no other is; it succeeds if and only if every thread can be written |
| `ThreadNames.NamedFirstIsPrefix` | src/linux/sections/thread_names_stream.rs:8-8 | when unnamed threads come last, the named ones are a prefix of all threads |
| `ThreadNames.GapInSlots` | src/linux/sections/thread_names_stream.rs:8-29 | otherwise some reserved slot has the index of an unnamed thread |
| `ThreadNames.NamesReadBackIff` | src/linux/sections/thread_names_stream.rs:22-29 | what the writer leaves behind reads back as the list if and only if unnamed threads come last |
| `ThreadNames.NamesStay` | src/linux/sections/thread_names_stream.rs:22-29 | that stays so while the dump only grows behind it |
| `ThreadNames.NameBehindUnnamed` | src/linux/sections/thread_names_stream.rs:22-29 | two threads for which that fails |
| `ThreadNames.WriteThreadNames` | src/linux/sections/thread_names_stream.rs:3-32 | the range is count and array; slot k gives id and name of the k-th named thread, for all k, if and only if unnamed threads come last; it succeeds, fails or faults if and only if the recurrence over the threads says so |
| `ThreadNames.FateStays` | src/linux/sections/thread_names_stream.rs:22-29 | once the recurrence has ended in an error or a fault, the threads behind do not change it |
| `ThreadNames.SlotBeyondEnd` | src/linux/sections/thread_names_stream.rs:22-29 | three threads for which a slot lies behind the end of the dump |
| `MemoryList.WriteAppMemory` | src/linux/sections/app_memory.rs:4-23 | one block per requested region, in order, each holding unchanged all that could be copied of it; bytes are only appended; it fails if and only if nothing can be copied of some region |
| `MemoryList.WriteMemoryList` | src/linux/sections/memory_list_stream.rs:3-21 | the stream is exactly the count and the descriptors of all blocks, and reads back as them |
| `DumpLog.Publish` | src/linux/minidump_writer.rs:256-268 | a flush keeps the run invariant and adds a snapshot that the destination then holds; if an operation of the destination fails, and only then, the log stays and the last flush still stands |
| `DumpLog.EntryKeepsSealed` | src/dir_section.rs:63-63 | an entry keeps header, entries in order, zeros behind them, ranges inside the image, and the streams |
| `DumpLog.SealedReadsBack` | src/linux/minidump_writer.rs:239-256 | from such an image a reader gets the header, entry k as the k-th written, and zeros behind |
| `DumpLog.TruncationSafety` | src/linux/minidump_writer.rs:254-371 | at every flush of every run at which the dump is below 4 GiB the file holds it from its start offset, with a valid header, entry k in slot k with its range inside what was flushed, zeros in later slots, at most 17 entries; the range of dso debug lies inside at its own flush if and only if it is covered; later flushes leave the streams alone |
| `DumpLog.SurvivorReadsBack` | src/linux/minidump_writer.rs:254-255 | what is left when a flush breaks off anywhere: a reader finds the header, every entry of the last completed flush, zeros in the slots behind the next, and every byte of its streams |
| `Sections.RequiredStream` | src/linux/minidump_writer.rs:270-277 | a required stream that fails ends the run with the last flush in the destination; else its entry shows its bytes |
| `Sections.OptionalStream` | src/linux/minidump_writer.rs:279-286 | an optional stream that fails leaves an empty entry and the run goes on; only the destination can end it |
| `Sections.DsoCoveredIff` | src/linux/dso_debug.rs:228-238 | the dso-debug entry names its own bytes only, if and only if the dynamic section was copied in full |
| `Sections.ShortDsoLeavesFile` | src/linux/dso_debug.rs:235-238 | a copy that came short, whose entry ends behind the dump of its flush |
| `Sections.ExceptionReads` | src/linux/sections/exception_stream.rs:7-47 | thread, code, flags, address and the place of the context are read back from the exception stream, at offsets 0, 8, 12, 24 and 160 |
| `GenerateDump.ThreadListStream` | src/linux/minidump_writer.rs:258-259 | the first entry's stream reads back as the threads after the flush; without a failure of the destination it fails if and only if some thread cannot be written |
| `GenerateDump.MemoryListStream` | src/linux/minidump_writer.rs:267-268 | the third entry's stream reads back as all blocks, each a thread's stack or plain memory where that is called for |
| `Sections.RunSteps` | src/linux/minidump_writer.rs:270-360 | after any number of steps, each entry shows its stream, in order, and no required step failed; without a failure of the destination the run ends early only at a required step that failed |
| `GenerateDump.ThreadNamesStream` | src/linux/minidump_writer.rs:362-363 | the entry behind them shows what the names writer leaves behind; below 4 GiB and without a failure of the destination it fails if and only if the recurrence over the names does not reach the end |
| `GenerateDump.HandleDataStream` | src/linux/minidump_writer.rs:365-368 | the last entry shows the handles, or there is none because their stream failed; that failure leaves the destination as it was flushed, and failure of its flush leaves that standing |
| `GenerateDump.GenerateDump` | src/linux/minidump_writer.rs:225-372 | on every exit every completed flush below 4 GiB left a readable dump, the last one still stands in the destination, and nothing before it changed; unless an operation of the destination failed it holds exactly the last flush, and the run was given up, if at all, at the threads, modules, application memory, system information, memory information or names, each of which could not be written; on success all of these could, and that flush shows threads, modules, memory, the exception, every stream of the program, thread names and handles |
| `DumpReader.SealedHeaderReads` | src/linux/minidump_writer.rs:233-252 | the dump begins with the bytes of MDMP, version 0xa793, 17 entries at offset 32, checksum 0, the time, flags 0 |
| `DumpReader.EntriesOfFiles` | src/linux/minidump_writer.rs:279-360 | in a finished dump below 4 GiB entries 6 to 12 and 14 have types 0x47670003 to 0x47670009 and 0x4d7a0003 and name the bytes of cpuinfo, status, lsb-release (or os-release if that is missing), cmdline, environ, auxv, maps and limits; an entry whose file could not be read is zero |
| `DumpReader.EntriesOfParts` | src/linux/minidump_writer.rs:261-350 | entries 1, 4, 5 and 13 name what the writers of modules, system information, memory information and dso debug gave |
| `DumpReader.EntriesOfLists` | src/linux/minidump_writer.rs:258-363 | entries 0, 2, 3 and 15 have the types of threads (3), memory (5), exception (6, of 168 bytes) and thread names (24) |
| `DumpReader.ThreadsRead` | src/linux/sections/thread_list_stream.rs:61-174 | record i has the id of thread i; if there is a crash context and the id is the blamed one, it has the registers of the crash as context and the stack found from their stack pointer; else its own registers and their stack, cut to 2 KiB exactly when i is at least 20 and position + 8 KiB per thread + 64 KiB exceeds the limit; the stack's bytes are target memory, censored as above if asked for |
| `DumpReader.UnfilteredStack` | src/linux/sections/thread_list_stream.rs:190-230 | without filtering, the stack is all that could be copied of the mapping that the search found, and empty when it found none |
| `DumpReader.FilterIff` | src/linux/sections/thread_list_stream.rs:203-217 | a stack is filtered out if and only if filtering is on and there is no principal mapping, or the thread runs outside it and no word from the stack pointer on lies in its kernel range, ends included |
| `DumpReader.StackIsListed` | src/linux/sections/thread_list_stream.rs:229-230 | every stack that a record shows is in the list of memory |
| `DumpReader.CodeIsListed` | src/linux/sections/thread_list_stream.rs:95-146 | so are the 128 bytes before and behind the crashing instruction, as far as its mapping reaches and they could be copied |
| `DumpReader.RegionIsListed` | src/linux/sections/app_memory.rs:8-20 | so are the application's regions, last and in order, with the bytes that could be copied of each |
| `DumpReader.ExceptionIsBlamed` | src/linux/sections/exception_stream.rs:3-49 | the exception has the blamed id and the context of the last record with that id, or none; with a crash context it has code, flags and address of the signal, else the code of a requested dump and the instruction pointer of that thread, or 0 |
| `DumpReader.FinishedReads` | src/linux/minidump_writer.rs:225-372 | all of this of every finished dump below 4 GiB |
| `WholeDump.StackKeepsAddresses` | src/linux/sections/thread_list_stream.rs:219-230 | in the record of any thread every stack word that is an address of code, or in the row of the stack pointer, stands unchanged in the dump |
| `WholeDump.StackShowsOnlyAddresses` | src/linux/sections/thread_list_stream.rs:219-230 | a sanitised stack in the dump shows only the filler, small numbers and addresses that are mapped |
| `WholeDump.FindMappings` | src/linux/ptrace_dumper.rs:129-135 | enumerating and, on Android, biasing the mappings of an orderly target gives the table the theorems are about, for every build; it faults if and only if overflow checks are on and a bias overflows |
| `WholeDump.DumpTarget` | src/linux/minidump_writer.rs:147-168 | from the rows of any orderly target to what the destination holds: the run above without an assumption on mappings; a complete dump keeps the code and stack addresses on all stacks, a reader finds all that DumpReader states, and its names read back if and only if unnamed threads come last |
| `WholeDump.ExceptionNamesBlamed` | src/linux/sections/exception_stream.rs:28-42 | in a finished dump the exception leads to the context in the record of the last blamed thread, and to none when no thread is blamed |
| `MemReader.ReadByPtrace` | src/linux/mem_reader.rs:225-249 | for every source and length the word loop and its remainder fill exactly target memory; on failure at offset o the first o bytes are correct and the others untouched |
| `MemReader.MemReader.Read` | src/linux/mem_reader.rs:142-198 | style and result are exactly those of the first way that works, or of the way chosen before; what is reported as read is target memory |
| `MemReader.MemReader.ReadToVec` | src/linux/mem_reader.rs:97-140 | the result is target memory of exactly the length that the read reported, or nothing when it failed |
| `MemReader.CopyFromProcess` | src/linux/mem_reader.rs:256-276 | an empty request is an error; else exactly the copy described by CopyIff |
| `MemReader.CopyIff` | src/linux/mem_reader.rs:142-276 | a copy is made if and only if something is asked for and the system call, the memory file or all single words can be read; it is target memory, as much as the system call read or else all of it |
| `MemReader.FirstStyle` | src/linux/mem_reader.rs:160-197 | the style is the first of the three that works; if none does, the error of each is kept |
| `MemReader.FirstBadWord` | src/linux/mem_reader.rs:225-249 | a word-by-word read ends at the first word that cannot be read, with its error and offset |
| `MemReader.LaterRead` | src/linux/mem_reader.rs:143-158 | a later read works if and only if the chosen way does |
| `MemReader.StyleIsChosenOnce` | src/linux/mem_reader.rs:142-198 | over any run of reads the style is chosen by the first and never changes; unavailable is absorbing, with the same error |
| `Ptrace.PtraceDumper.SuspendThread` | src/linux/ptrace_dumper.rs:138-203 | the wait loop produces exactly the events of the thread's script, and succeeds if and only if the thread is to be kept |
| `Ptrace.PtraceDumper.SuspendThreads` | src/linux/ptrace_dumper.rs:210-224 | the threads retained are those that could be suspended; fails, and marks nothing as suspended, if and only if none is left |
| `Ptrace.KeptIff` | src/linux/ptrace_dumper.rs:138-214 | a thread is retained if and only if it was listed, its attach worked, SIGSTOP ended the waiting, and on x86 its registers could be read and its stack pointer is not 0 |
| `Ptrace.KeptInOrder` | src/linux/ptrace_dumper.rs:216-216 | retained threads keep their order |
| `Ptrace.KeptThreadIsHeld` | src/linux/ptrace_dumper.rs:138-203 | until the resume a retained thread is attached, has its signals passed on and is stopped by SIGSTOP; it is not detached |
| `Ptrace.SandboxThreadIsLetGo` | src/linux/ptrace_dumper.rs:183-201 | a thread whose registers cannot be read or whose stack pointer is 0 is detached as soon as it has stopped |
| `Ptrace.PtraceDumper.ResumeThreads` | src/linux/ptrace_dumper.rs:226-240 | detaches all threads if they are suspended, and does nothing when called again |
| `Ptrace.PtraceDumper.Drop` | src/linux/ptrace_dumper.rs:48-55 | resumes what is still suspended, then lets the process continue |
| `Ptrace.Dump` | src/linux/minidump_writer.rs:141-169 | a run with any of its exits has exactly the trace that the theorems below are about, and always ends by continuing the process |
| `Ptrace.RunOfThread` | src/linux/minidump_writer.rs:147-168 | what a run does to one thread depends on that thread's answers alone |
| `Ptrace.NoThreadStaysAttached` | src/linux/ptrace_dumper.rs:138-240 | over every run and exit each thread's history is legal, and it ends attached if and only if its detach is refused or it stays alive after a status that says otherwise |
| `Ptrace.LivingThreadLeaks` | src/linux/ptrace_dumper.rs:147-152 | a thread that reports another status and lives on is attached at the end of a complete run |
| `Ptrace.KeptThreadDetachedOnce` | src/linux/ptrace_dumper.rs:226-240 | a kept thread is attached once and detached once, by the explicit resume or by the drop, never by both |
| `Ptrace.SignalsAreConserved` | src/linux/ptrace_dumper.rs:154-166 | the signals other than SIGSTOP taken from a thread are those passed on to it, in order, but for the one whose continue failed |
| `Ptrace.StraysArePassedOn` | src/linux/ptrace_dumper.rs:162-166 | each signal that comes in while a thread is being suspended is passed on to it, in order |
| `SoName.DynIter.Step` | src/linux/module_reader.rs:210-225 | entries in order, an end at the null tag, an error when the data ends first |
| `SoName.SonameFromProgramHeaders` | src/linux/module_reader.rs:273-309 | the loop finds the last SONAME, string table and size, and reads the name up to its NUL, from a file image or a live process |
| `SoName.SonameFromSections` | src/linux/module_reader.rs:312-357 | the loop takes the first SONAME inside the string table, from a file image or a live process |
| `SoName.FileFields` | src/linux/module_reader.rs:410-441 | in a file, offsets and file sizes of the headers are read |
| `SoName.ProcessFields` | src/linux/module_reader.rs:83-88 | in a process, addresses and memory sizes, counted from the start of the module; an address of the dynamic section below that start is relative |
| `SoName.ProcessSoname` | src/linux/module_reader.rs:273-309 | the name of a module in a process, from what reads of the process answer |
| `SoName.FileSoname` | src/linux/module_reader.rs:273-309 | the name of a module in a file, from the bytes of the file |
| `SoName.ScanKeepsLast` | src/linux/module_reader.rs:286-294 | of the entries with tags 14, 5 and 10 the scan keeps the last of each |
| `SoName.FirstOfKind` | src/linux/module_reader.rs:276-318 | segments and sections are searched for the first of a kind |
| `SoName.SearchHitsFirst` | src/linux/module_reader.rs:123-150 | in a file the search by name hits the first section with that name, and misses if there is none |
| `SoName.TableIsLinkedOrNamed` | src/linux/module_reader.rs:320-330 | the string table is the linked section, or else the one named .dynstr |
| `SoName.ProgramTakesLast` | src/linux/module_reader.rs:286-308 | on modules whose headers name the same tables, the program headers yield the name at the last SONAME value, or an error if that is out of range |
| `SoName.SectionTakesFirst` | src/linux/module_reader.rs:337-356 | the sections yield the name at the first SONAME value in range, on terminated and unterminated sections |
| `SoName.SonamesAgreeIff` | src/linux/module_reader.rs:273-357 | both ways agree if and only if the last value, or none on an unterminated section, has the same name or error as the first in range |
| `SoName.SonamesAgree` | src/linux/module_reader.rs:273-357 | with one SONAME value both ways give the same result on a terminated dynamic section; so whenever the program headers yield a name the sections yield the same |
| `SoName.DynReadsBack` | src/linux/module_reader.rs:210-225 | an encoded dynamic section is read back entry by entry |
| `SoName.DifferentSonamesDisagree` | src/linux/module_reader.rs:286-353 | a concrete module that the program headers name "b" and the sections name "a" |
| `SoVersion.Parse` | src/linux/maps_reader.rs:390-434 | for every file name the component loop computes the function the round trips are about, and faults if and only if the last non-digit of the third component is not ASCII |
| `SoVersion.DottedRoundTrip` | src/linux/maps_reader.rs:390-434 | for all 32-bit a, b, c, d, a name whose first ".so." is followed by a.b.c.d is read as (a, b, c, d), whatever components follow |
| `SoVersion.TaggedRoundTrip` | src/linux/maps_reader.rs:411-427 | so is a.b.c, tag, d, for every tag without dots that neither starts nor ends in a digit, if and only if the tag ends in an ASCII character |
| `SoVersion.OneNumber` | src/linux/maps_reader.rs:390-434 | one number is read back, the others being 0 |
| `SoVersion.TwoNumbers` | src/linux/maps_reader.rs:390-434 | so are two |
| `SoVersion.ThreeNumbers` | src/linux/maps_reader.rs:390-434 | so are three |
| `SoVersion.BareTag` | src/linux/maps_reader.rs:411-427 | a third number with a tag and nothing behind it is read with a fourth number of 0 |
| `SoVersion.FillBareTag` | src/linux/maps_reader.rs:411-427 | the same on components: a fourth component, if there is one, gives the fourth number |
| `SoVersion.FirstTwoNumbers` | src/linux/maps_reader.rs:401-407 | whatever the components, the first two give the first two numbers, or 0 where they are none |
| `SoVersion.NoVersionIff` | src/linux/maps_reader.rs:383-392 | a name has no version if and only if ".so." does not occur in it |
| `SoVersion.SmallName` | src/linux/maps_reader.rs:383-392 | l.so.7 has version 7.0.0.0 |
| `LoadCommands.LoadCommandsIter.Next` | src/mac/mach.rs:510-569 | each call yields the next command of the listing and uses up at least one of the count, even for commands of size zero |
| `LoadCommands.List` | src/mac/mach.rs:516-567 | at most `count` commands are yielded from any buffer |
| `LoadCommands.ListsWellFormed` | src/mac/mach.rs:516-567 | on well-formed commands laid end to end, exactly the recognised ones are yielded, in order, without a fault |
| `LoadCommands.EncodedReadsBack` | src/mac/mach.rs:530-559 | an encoded command of each kind, with any padding, is well formed and read back with its fields |
| `LoadCommands.SegmentFields` | src/mac/mach.rs:530-559 | command 0x19 and the offsets of its fields |
| `LoadCommands.DylibFields` | src/mac/mach.rs:530-559 | commands 0xd and 0x1b and the offsets of their fields |
| `LoadCommands.DylinkerFields` | src/mac/mach.rs:530-559 | commands 0xe and 0xf: the path goes from its offset to the first zero inside the command |
| `LoadCommands.IterationReadsBack` | src/mac/mach.rs:510-569 | iterating over encoded commands, with any others in between, gives exactly those of recognised kinds, in order, with their fields |

## Left out

- 32-bit targets and big-endian targets: words are eight bytes, least significant first; `usize` is 64 bits wide.
- Shifts and masks by powers of two are written as division and remainder, except in the bitmap, which is `bv8`.
- System calls, `/proc`, clocks and the file system: target memory is a function from addresses to bytes, reads and I/O fail or stop short at will, and the kernel's answers to ptrace are given by a script per thread.
- The line parser of `/proc/<pid>/maps` and ELF header decoding belong to other libraries: decoded rows, segments and sections are inputs.
- The constants of the minidump format (signature, version, stream types, record sizes) come from the format, not from this repository.
- Arithmetic that would overflow or an index out of range is a fault or a precondition; what a build without overflow checks computes instead is modelled for Android's bias and for positions cut to 32 bits only.
- Sizes from 4 GiB on: positions are cut to 32 bits and slots are then filled in the wrong place; runs go on, and only the bytes before the start offset, and the last flush below that size until the next one completes, are promised for them.
- Sections.RequiredStream: modules, system info, memory info and handle data enter as the bytes their writers append and the range their entry names; that they only append below 4 GiB, and that the range lies in what they appended, are assumptions about those writers.
- Sections.OptionalStream: dso debug enters as the bytes it appends, its record, and how much of the dynamic section could be copied; the walk over the link maps is not modelled.
- Sections.RunSteps: the straight-line tail of `generate_dump` is a table of twelve steps run by a loop.
- GenerateDump.GenerateDump: whether thread names can be written is promised below 4 GiB only.
- MemReader.CopyFromProcess: reads of a stopped target give the same answer when they are repeated, and every thread of it shows the same memory.
- MemReader.MemReader.ReadToVec: running out of memory and the layout check are not modelled.
- SoName.SonameFromProgramHeaders: lossy conversion of the name to UTF-8 and build ids are not modelled; reads of a live process give the same answer when repeated.
- SoVersion.Parse: starts from the file name; taking it from a path and lossy conversion are not modelled.
- Ptrace.Dump: stopping the process and its timeout are one event that happens or not; `crash_thread_references_principal_mapping` is one of the exits.
- LoadCommands.LoadCommandsIter.Next: reading a structure beyond the end of the buffer is a fault; alignment is not modelled.
- Registers and their copying: the image of a thread's context record is an input.
- The Windows and most of the macOS back end, CPU and system information, the linked-list walk of the dso debug stream, path handling, logging, and error texts: only easy members, or code that calls into the system.
