/**
 * What a reader finds in a complete dump below 4 GiB, from its bytes alone: the header, each entry of
 * the directory by number and type, the record of each thread, the list of memory and the exception.
 */
module DumpReader {
  import opened Bytes
  import opened Format
  import opened DumpBuffer
  import opened DirSection
  import opened DumpLog
  import opened Maps
  import opened Sanitizer
  import opened ThreadList
  import opened MemoryList
  import opened Sections
  import opened GenerateDump
  import MemReader
  import StackInfo

  // ---- Header and directory ----

  /** The signature "MDMP", the version, 17 entries behind the header, the time. */
  predicate HeaderReads(image: seq<byte>, time: u32) {
    |image| >= 32 + 17 * 12 && image[0..4] == [0x4d, 0x44, 0x4d, 0x50]
    && GetU32(image, 4) == 0xa793 && GetU32(image, 8) == 17 && GetU32(image, 12) == 32
    && GetU32(image, 16) == 0 && GetU32(image, 20) == time && GetU64(image, 24) == 0
  }

  lemma {:induction false} SealedHeaderReads(image: seq<byte>, entries: seq<Directory>, time: u32)
    requires Sealed(image, entries, EncodeHeader(HeaderFor(time)))
    ensures HeaderReads(image, time)
  {
    SealedHeader(image, entries, time);
    HeaderFields(image, 0);
    ToFromLE(image[0..4]);
    assert ToLE(0x504d_444d, 4) == [0x4d, 0x44, 0x4d, 0x50];
  }

  /** The entry names the content of a file, and it is zero if there is none. */
  predicate NamesFile(image: seq<byte>, d: Directory, streamType: u32, content: FileContent) {
    match content
    case None => d == Directory(0, Location(0, 0))
    case Some(bytes) =>
      d.streamType == streamType && d.location.dataSize == |bytes| && Stored(image, d.location.rva, bytes)
  }

  /** The entry names the part of a section that its writer gave. */
  predicate NamesPart(image: seq<byte>, d: Directory, s: Section)
    requires s.Whole()
  {
    match s.succeeds
    case false => d == Directory(0, Location(0, 0))
    case true =>
      d.streamType == s.streamType && d.location.dataSize == s.size
      && Stored(image, d.location.rva, s.bytes[s.offset..s.offset + s.size])
  }

  /** The entry names the record and the copy of the dynamic section, and counts the section's length. */
  predicate NamesDso(image: seq<byte>, d: Directory, dso: DsoDebug) {
    match dso.succeeds
    case false => d == Directory(0, Location(0, 0))
    case true =>
      d.streamType == 0x4767_000a && d.location.dataSize == (|dso.record| + dso.length) % 0x1_0000_0000
      && Stored(image, d.location.rva, dso.record + dso.copied)
  }

  /** Entry k of the directory. */
  function Entry(image: seq<byte>, k: nat): Directory
    requires |image| >= 32 + 17 * 12 && k < 17
  {
    DirectoryAt(image, 32 + 12 * k)
  }

  lemma {:induction false} EntryIsRead(image: seq<byte>, entries: seq<Directory>, head: seq<byte>, k: nat)
    requires Sealed(image, entries, head) && k < |entries|
    ensures |image| >= 32 + 17 * 12 && |entries| <= 17 && Entry(image, k) == entries[k]
  {
    DumpLog.SlotReadsBack(image, entries, k);
  }

  lemma {:induction false} ShownFile(image: seq<byte>, d: Directory, content: FileContent, streamType: u32)
    requires |image| < U32_LIMIT && SectionShown(image, d, FileSection(content, streamType))
    ensures NamesFile(image, d, streamType, content)
  {
    if content.Some? {
      assert FileSection(content, streamType).Shown() == content.value;
    }
  }

  lemma {:induction false} ShownPart(image: seq<byte>, d: Directory, s: Section)
    requires |image| < U32_LIMIT && s.Whole() && SectionShown(image, d, s)
    ensures NamesPart(image, d, s)
  {
    assert s.Shown() == s.bytes[s.offset..s.offset + s.size];
  }

  lemma {:induction false} ShownDso(image: seq<byte>, d: Directory, dso: DsoDebug)
    requires |image| < U32_LIMIT && dso.Valid() && SectionShown(image, d, dso.AsSection())
    ensures NamesDso(image, d, dso)
  {
    DsoShown(dso);
  }

  lemma {:induction false} DsoShown(dso: DsoDebug)
    requires dso.Valid()
    ensures dso.AsSection().Shown() == dso.record + dso.copied
  {
    var bytes, shown := dso.front + dso.record + dso.copied, dso.record + dso.copied;
    assert bytes == dso.front + shown;
    assert bytes[|dso.front|..|bytes|] == shown;
  }

  lemma {:induction false} NthSection(exception: Section, steps: seq<Step>, i: nat)
    requires i < |steps|
    ensures SectionsOf(AllSteps(exception, steps))[i + 1] == steps[i].section
  {
  }

  /** The sections of the program by number, the exception first. */
  predicate IsProgram(s: seq<Section>, exception: Section, inputs: Inputs)
    requires inputs.Valid()
  {
    |s| == 12 && s[0] == exception && s[1] == inputs.systemInfo && s[2] == inputs.memoryInfo
    && s[3] == FileSection(inputs.cpuInfo, 0x4767_0003) && s[4] == FileSection(inputs.status, 0x4767_0004)
    && s[5] == FileSection(if inputs.lsbRelease.Some? then inputs.lsbRelease else inputs.osRelease, 0x4767_0005)
    && s[6] == FileSection(inputs.cmdline, 0x4767_0006) && s[7] == FileSection(inputs.environ, 0x4767_0007)
    && s[8] == FileSection(inputs.auxv, 0x4767_0008) && s[9] == FileSection(inputs.maps, 0x4767_0009)
    && s[10] == inputs.dsoDebug.AsSection() && s[11] == FileSection(inputs.limits, 0x4d7a_0003)
  }

  lemma {:induction false} SectionNumbers(inputs: Inputs, config: Config, crashing: CrashingContext)
    requires inputs.Valid()
    ensures IsProgram(SectionsFor(inputs, config, crashing), ExceptionSection(config, inputs.siginfo, crashing), inputs)
  {
    var steps, s := Program(inputs), SectionsFor(inputs, config, crashing);
    forall i | 0 <= i < |steps| ensures s[i + 1] == steps[i].section {
      NthSection(ExceptionSection(config, inputs.siginfo, crashing), steps, i);
    }
    assert s[0 + 1] == steps[0].section && s[1 + 1] == steps[1].section && s[2 + 1] == steps[2].section;
    assert s[3 + 1] == steps[3].section && s[4 + 1] == steps[4].section && s[5 + 1] == steps[5].section;
    assert s[6 + 1] == steps[6].section && s[7 + 1] == steps[7].section && s[8 + 1] == steps[8].section;
    assert s[9 + 1] == steps[9].section && s[10 + 1] == steps[10].section;
  }

  /** The image of a finished run, with its entries. */
  ghost predicate Finished(image: seq<byte>, entries: seq<Directory>, config: Config, taken: Taken, p: Dumper,
                           inputs: Inputs)
    requires inputs.Valid()
  {
    |image| < U32_LIMIT && Sealed(image, entries, EncodeHeader(HeaderFor(inputs.time)))
    && Complete(image, entries, config, taken, p, inputs.modules, SectionsFor(inputs, config, taken.crashing))
  }

  /** The directory of the image has the entries of sections from index `at` on. */
  ghost predicate HasSections(image: seq<byte>, entries: seq<Directory>, head: seq<byte>, at: nat,
                              sections: seq<Section>)
  {
    |image| < U32_LIMIT && Sealed(image, entries, head) && AllValid(sections)
    && SectionsShown(image, entries, at, sections)
  }

  lemma {:induction false} SectionEntry(image: seq<byte>, entries: seq<Directory>, head: seq<byte>, at: nat,
                                        sections: seq<Section>, k: nat)
    requires HasSections(image, entries, head, at, sections) && k < |sections|
    ensures at + k < 17 && |image| >= 32 + 17 * 12 && SectionShown(image, Entry(image, at + k), sections[k])
  {
    EntryIsRead(image, entries, head, at + k);
  }

  /** Entries 6 to 12 and 14: the files of the target, each under its own type. */
  predicate FilesRead(image: seq<byte>, inputs: Inputs)
    requires |image| >= 32 + 17 * 12
  {
    NamesFile(image, Entry(image, 6), 0x4767_0003, inputs.cpuInfo)
    && NamesFile(image, Entry(image, 7), 0x4767_0004, inputs.status)
    && NamesFile(image, Entry(image, 8), 0x4767_0005,
                 if inputs.lsbRelease.Some? then inputs.lsbRelease else inputs.osRelease)
    && NamesFile(image, Entry(image, 9), 0x4767_0006, inputs.cmdline)
    && NamesFile(image, Entry(image, 10), 0x4767_0007, inputs.environ)
    && NamesFile(image, Entry(image, 11), 0x4767_0008, inputs.auxv)
    && NamesFile(image, Entry(image, 12), 0x4767_0009, inputs.maps)
    && NamesFile(image, Entry(image, 14), 0x4d7a_0003, inputs.limits)
  }

  lemma {:induction false} FileEntry(image: seq<byte>, entries: seq<Directory>, head: seq<byte>,
                                     sections: seq<Section>, k: nat, content: FileContent, streamType: u32)
    requires HasSections(image, entries, head, 3, sections)
    requires k < |sections| && sections[k] == FileSection(content, streamType)
    ensures 3 + k < 17 && |image| >= 32 + 17 * 12 && NamesFile(image, Entry(image, 3 + k), streamType, content)
  {
    SectionEntry(image, entries, head, 3, sections, k);
    ShownFile(image, Entry(image, 3 + k), content, streamType);
  }

  lemma {:induction false} EntriesOfFiles(image: seq<byte>, entries: seq<Directory>, head: seq<byte>,
                                          sections: seq<Section>, exception: Section, inputs: Inputs)
    requires HasSections(image, entries, head, 3, sections) && inputs.Valid() && IsProgram(sections, exception, inputs)
    ensures |image| >= 32 + 17 * 12 && FilesRead(image, inputs)
  {
    FileEntry(image, entries, head, sections, 3, inputs.cpuInfo, 0x4767_0003);
    FileEntry(image, entries, head, sections, 4, inputs.status, 0x4767_0004);
    FileEntry(image, entries, head, sections, 5,
              if inputs.lsbRelease.Some? then inputs.lsbRelease else inputs.osRelease, 0x4767_0005);
    FileEntry(image, entries, head, sections, 6, inputs.cmdline, 0x4767_0006);
    FileEntry(image, entries, head, sections, 7, inputs.environ, 0x4767_0007);
    FileEntry(image, entries, head, sections, 8, inputs.auxv, 0x4767_0008);
    FileEntry(image, entries, head, sections, 9, inputs.maps, 0x4767_0009);
    FileEntry(image, entries, head, sections, 11, inputs.limits, 0x4d7a_0003);
  }

  /** Entries 1, 4, 5 and 13: modules, system information, memory information and dso debug. */
  predicate PartsRead(image: seq<byte>, inputs: Inputs)
    requires inputs.Valid() && |image| >= 32 + 17 * 12
  {
    NamesPart(image, Entry(image, 1), inputs.modules) && NamesPart(image, Entry(image, 4), inputs.systemInfo)
    && NamesPart(image, Entry(image, 5), inputs.memoryInfo) && NamesDso(image, Entry(image, 13), inputs.dsoDebug)
  }

  lemma {:induction false} PartEntry(image: seq<byte>, entries: seq<Directory>, head: seq<byte>, at: nat,
                                     sections: seq<Section>, k: nat)
    requires HasSections(image, entries, head, at, sections) && k < |sections| && sections[k].Whole()
    ensures at + k < 17 && |image| >= 32 + 17 * 12 && NamesPart(image, Entry(image, at + k), sections[k])
  {
    SectionEntry(image, entries, head, at, sections, k);
    ShownPart(image, Entry(image, at + k), sections[k]);
  }

  lemma {:induction false} DsoEntry(image: seq<byte>, entries: seq<Directory>, head: seq<byte>,
                                    sections: seq<Section>, k: nat, dso: DsoDebug)
    requires HasSections(image, entries, head, 3, sections)
    requires k < |sections| && dso.Valid() && sections[k] == dso.AsSection()
    ensures 3 + k < 17 && |image| >= 32 + 17 * 12 && NamesDso(image, Entry(image, 3 + k), dso)
  {
    SectionEntry(image, entries, head, 3, sections, k);
    ShownDso(image, Entry(image, 3 + k), dso);
  }

  lemma {:induction false} ModulesEntry(image: seq<byte>, entries: seq<Directory>, modules: Section)
    requires |image| < U32_LIMIT && modules.Whole() && SectionsShown(image, entries, 1, [modules])
    ensures NamesPart(image, entries[1], modules)
  {
    var sections := [modules];
    assert SectionShown(image, entries[1 + 0], sections[0]);
    ShownPart(image, entries[1], modules);
  }

  lemma {:induction false} EntriesOfParts(image: seq<byte>, entries: seq<Directory>, head: seq<byte>,
                                          sections: seq<Section>, inputs: Inputs)
    requires HasSections(image, entries, head, 3, sections) && inputs.Valid() && |sections| == 12
    requires sections[1] == inputs.systemInfo && sections[2] == inputs.memoryInfo
    requires sections[10] == inputs.dsoDebug.AsSection()
    requires |image| >= 32 + 17 * 12 && NamesPart(image, Entry(image, 1), inputs.modules)
    ensures PartsRead(image, inputs)
  {
    PartEntry(image, entries, head, 3, sections, 1);
    PartEntry(image, entries, head, 3, sections, 2);
    DsoEntry(image, entries, head, sections, 10, inputs.dsoDebug);
  }

  /** The types of entries 0, 2, 3 and 15: threads, memory, exception and thread names. */
  predicate ListsRead(image: seq<byte>)
    requires |image| >= 32 + 17 * 12
  {
    Entry(image, 0).streamType == 3 && Entry(image, 2).streamType == 5 && Entry(image, 3).streamType == 6
    && Entry(image, 3).location.dataSize == 168 && Entry(image, 15).streamType == 24
  }

  lemma {:induction false} EntriesOfLists(image: seq<byte>, entries: seq<Directory>, head: seq<byte>, config: Config,
                                          taken: Taken, p: Dumper, exception: Section)
    requires |image| < U32_LIMIT && Sealed(image, entries, head) && |entries| >= 16
    requires MemoryStreams(image, entries, config, taken, p) && NamesShown(image, entries[15], p.threads)
    requires exception.Valid() && SectionShown(image, entries[3], exception)
    requires exception.succeeds && exception.streamType == 6 && exception.size == 168
    ensures |image| >= 32 + 17 * 12 && ListsRead(image)
    ensures Entry(image, 0) == entries[0] && Entry(image, 2) == entries[2] && Entry(image, 3) == entries[3]
  {
    EntryIsRead(image, entries, head, 0);
    EntryIsRead(image, entries, head, 2);
    EntryIsRead(image, entries, head, 3);
    EntryIsRead(image, entries, head, 15);
  }

  // ---- The threads ----

  /** The thread is shown as it crashed, not as it was found. */
  predicate Crashed(config: Config, source: ThreadSource) {
    config.crashContext.Some? && source.tid == config.blamedThread % 0x1_0000_0000
  }

  /** With 8 KiB for each thread and 64 KiB besides, the dump would grow beyond its limit. */
  predicate TooLarge(config: Config, n: nat, end: nat) {
    config.sizeLimit.Some? && end + 8192 * n + 65536 > config.sizeLimit.value
  }

  /** What is shown of memory copied from `start`: the same bytes, or censored if stacks are sanitised. */
  ghost predicate ShownOf(shown: seq<byte>, raw: seq<byte>, start: nat, sp: nat, config: Config, p: Dumper) {
    if config.sanitize then Censored(p.mappings, raw, shown, sp, if sp > start then sp - start else 0)
    else shown == raw
  }

  /** The bytes at d show the memory of the target at the address it names. */
  ghost predicate StackReads(image: seq<byte>, d: Descriptor, sp: nat, config: Config, p: Dumper) {
    d.memory.rva + d.memory.dataSize <= |image|
    && ShownOf(image[d.memory.rva..d.memory.rva + d.memory.dataSize],
               MemReader.Slice(p.memory, d.start, d.memory.dataSize), d.start, sp, config, p)
  }

  /**
   * Record t shows thread i: with the registers of the crash if it is the one that crashed, else with
   * its own; with the stack that these registers lead to, of which no more than 2 KiB are shown from
   * thread 20 on when the dump would be too large behind a list that ends at `end`.
   */
  ghost predicate RecordReads(t: Thread, image: seq<byte>, end: nat, i: nat, config: Config, p: Dumper)
    requires i < |p.threads|
  {
    var source := p.threads[i];
    (Crashed(config, source) || source.regs.Some?)
    && var regs := if Crashed(config, source) then config.crashContext.value else source.regs.value;
    var max := if !Crashed(config, source) && i >= 20 && TooLarge(config, |p.threads|, end) then Some(2048) else None;
    t.threadId == source.tid && t.context.dataSize == |regs.cpu| && Stored(image, t.context.rva, regs.cpu)
    && StackTaken(t.stack, regs, max, config, p) && StackReads(image, t.stack, regs.sp, config, p)
  }

  /** The bytes of the stream that an entry names; none when they are not all there. */
  function StreamOf(image: seq<byte>, d: Directory): seq<byte> {
    if d.location.rva + d.location.dataSize > |image| then []
    else image[d.location.rva..d.location.rva + d.location.dataSize]
  }

  /** The list of threads at d: their number, and a record of 48 bytes for each. */
  predicate CountReads(image: seq<byte>, d: Directory, p: Dumper) {
    |StreamOf(image, d)| == 4 + 48 * |p.threads| && GetU32(StreamOf(image, d), 0) == |p.threads|
  }

  /** Record i of the list of threads at d shows thread i. */
  ghost predicate ThreadReads(image: seq<byte>, d: Directory, i: nat, config: Config, p: Dumper)
    requires i < |p.threads| && CountReads(image, d, p)
  {
    RecordReads(ThreadAt(StreamOf(image, d), 4 + 48 * i), image, d.location.rva + 4 + 48 * |p.threads|, i, config, p)
  }

  lemma {:induction false} StackBytesAreShown(config: Config, p: Dumper, shown: seq<byte>, raw: seq<byte>, start: nat,
                                              sp: nat)
    requires config.sanitize ==> DisjointSystem(p.mappings)
    requires shown == StackBytes(config.sanitize, p, raw, start, sp)
    ensures ShownOf(shown, raw, start, sp, config, p)
  {
    if config.sanitize {
      SanitizedIsCensored(p.mappings, raw, sp, Max(sp - start, 0));
    }
  }

  lemma {:induction false} ShownStackReads(image: seq<byte>, d: Descriptor, sp: nat, config: Config, p: Dumper)
    requires StackShown(d, sp, image, config, p) && (config.sanitize ==> DisjointSystem(p.mappings))
    ensures StackReads(image, d, sp, config, p)
  {
    StackBytesAreShown(config, p, image[d.memory.rva..d.memory.rva + d.memory.dataSize],
                       MemReader.Slice(p.memory, d.start, d.memory.dataSize), d.start, sp);
  }

  /** Each record reads as its thread. */
  lemma {:induction false} ThreadsRead(image: seq<byte>, d: Directory, taken: Taken, config: Config, p: Dumper,
                                       i: nat)
    requires ThreadsShown(image, d, taken, config, p) && (config.sanitize ==> DisjointSystem(p.mappings))
    requires i < |p.threads|
    ensures CountReads(image, d, p) && ThreadReads(image, d, i, config, p)
  {
    var bytes, hi := StreamOf(image, d), d.location.rva + d.location.dataSize;
    assert SlotShown(bytes, i, image, config, p, hi);
    ShownRecordReads(ThreadAt(bytes, 4 + 48 * i), i, image, config, p, hi);
  }

  lemma {:induction false} ShownRecordReads(t: Thread, i: nat, image: seq<byte>, config: Config, p: Dumper, end: nat)
    requires i < |p.threads| && RecordShown(t, i, image, config, p, end)
    requires config.sanitize ==> DisjointSystem(p.mappings)
    ensures RecordReads(t, image, end, i, config, p)
  {
    ShownStackReads(image, t.stack, RegistersOf(config, p.threads[i]).value.sp, config, p);
  }

  /**
   * When stacks are not filtered, the stack is the part of memory that the search from the stack pointer
   * found, as far as it could be copied.
   */
  lemma {:induction false} UnfilteredStack(d: Descriptor, regs: Registers, max: Option<nat>, config: Config,
                                           p: Dumper, info: StackInfo.Outcome, k: nat)
    requires StackTaken(d, regs, max, config, p) && !config.skipUnreferenced
    requires StackInfo.Locates(p.mappings, p.page, regs.sp, info, k)
    ensures info.Found? ==>
      var length := if max.Some? && max.value < info.length then max.value else info.length;
      var copied := MemReader.Copy(p.memory, info.pointer, length);
      copied.Some? && d.start == info.pointer && d.memory.dataSize == |copied.value|
    ensures !info.Found? ==> d.start == regs.sp && d.memory.dataSize == 0
  {
    var info', k' :| StackAsFound(d, regs, max, config, p, info', k');
    StackInfo.OneOutcome(p.mappings, p.page, regs.sp, info, k, info', k');
  }

  /** A word of the stack at or above the stack pointer that lies in the principal mapping, end included. */
  predicate RefersTo(m: MappingInfo, raw: seq<byte>, spOffset: nat, k: nat) {
    spOffset <= 8 * k && 8 * k + 8 <= |raw| && m.sys.start <= FromLE(raw[8 * k..8 * k + 8]) <= m.sys.end
  }

  /**
   * A stack is filtered out exactly when filtering is on and there is no principal mapping, or the thread
   * runs outside it and no word of its stack refers to it.
   */
  lemma {:induction false} FilterIff(config: Config, ip: nat, raw: seq<byte>, spOffset: nat)
    ensures Unreferenced(config, ip, raw, spOffset)
       <==> config.skipUnreferenced
            && (config.principalMapping.None?
                || var m := config.principalMapping.value;
                   (ip < m.sys.start || m.sys.end < ip) && forall k: nat :: !RefersTo(m, raw, spOffset, k))
  {
    if config.principalMapping.Some? {
      var m := config.principalMapping.value;
      if at: nat :| PointsInto(m, raw, spOffset, at) {
        assert at == 8 * (at / 8);
        assert RefersTo(m, raw, spOffset, at / 8);
      }
      if k: nat :| RefersTo(m, raw, spOffset, k) {
        assert PointsInto(m, raw, spOffset, 8 * k);
      }
    }
  }

  // ---- The list of memory ----

  /** Block j of the list at d. */
  function BlockAt(image: seq<byte>, d: Directory, j: nat): Descriptor
    requires d.location.rva + 4 + 16 * j + 16 <= |image|
  {
    DescriptorAt(image, d.location.rva + 4 + 16 * j)
  }

  /** The list at d has this block. */
  ghost predicate ListsBlock(image: seq<byte>, d: Directory, b: Descriptor) {
    d.location.rva + 4 <= |image|
    && d.location.rva + 4 + 16 * GetU32(image, d.location.rva) <= |image|
    && exists j :: 0 <= j < GetU32(image, d.location.rva) && BlockAt(image, d, j) == b
  }

  lemma {:induction false} BlockIsListed(image: seq<byte>, d: Directory, blocks: seq<Descriptor>, v: View,
                                         b: Descriptor)
    requires BlocksShown(image, d, blocks, v) && b in blocks
    ensures ListsBlock(image, d, b)
  {
    var j :| 0 <= j < |blocks| && blocks[j] == b;
    assert BlockAt(image, d, j) == b;
  }

  lemma {:induction false} RecordIsLinked(image: seq<byte>, d: Directory, taken: Taken, config: Config, p: Dumper,
                                          i: nat)
    requires ThreadsShown(image, d, taken, config, p) && i < |p.threads|
    ensures CountReads(image, d, p)
    ensures InList(ThreadAt(StreamOf(image, d), 4 + 48 * i), p.threads[i], taken.blocks, config, p)
  {
    BytesAreLinked(StreamOf(image, d), d.location.rva + d.location.dataSize, image, taken, config, p, i);
  }

  lemma {:induction false} BytesAreLinked(bytes: seq<byte>, end: nat, image: seq<byte>, taken: Taken, config: Config,
                                          p: Dumper, i: nat)
    requires ListShown(bytes, end, image, taken.blocks, 0, taken.crashing, NoContext, config, p) && i < |p.threads|
    ensures InList(ThreadAt(bytes, 4 + 48 * i), p.threads[i], taken.blocks, config, p)
  {
    assert InList(RecordsAt(bytes, |p.threads|)[i], p.threads[i], taken.blocks, config, p);
  }

  lemma {:induction false} LinkedStackIsListed(t: Thread, source: ThreadSource, image: seq<byte>, d: Directory,
                                               blocks: seq<Descriptor>, config: Config, p: Dumper)
    requires InList(t, source, blocks, config, p) && BlocksShown(image, d, blocks, ViewOf(config, p))
    ensures t.stack.memory.dataSize > 0 ==> ListsBlock(image, d, t.stack)
  {
    if t.stack.memory.dataSize > 0 {
      BlockIsListed(image, d, blocks, ViewOf(config, p), t.stack);
    }
  }

  /** The stack that record i shows is listed as well. */
  ghost predicate StackListed(image: seq<byte>, threads: Directory, memory: Directory, i: nat) {
    4 + 48 * i + 48 <= |StreamOf(image, threads)|
    && var stack := ThreadAt(StreamOf(image, threads), 4 + 48 * i).stack;
    stack.memory.dataSize > 0 ==> ListsBlock(image, memory, stack)
  }

  lemma {:induction false} StackIsListed(image: seq<byte>, entries: seq<Directory>, config: Config, taken: Taken,
                                         p: Dumper, i: nat)
    requires MemoryStreams(image, entries, config, taken, p) && i < |p.threads|
    ensures StackListed(image, entries[0], entries[2], i)
  {
    RecordIsLinked(image, entries[0], taken, config, p, i);
    var t := ThreadAt(StreamOf(image, entries[0]), 4 + 48 * i);
    LinkedStackIsListed(t, p.threads[i], image, entries[2], taken.blocks, config, p);
  }

  /** The 128 bytes before and behind an instruction, as far as its mapping reaches and they could be copied. */
  ghost predicate CodeAround(image: seq<byte>, d: Directory, m: MappingInfo, ip: nat, p: Dumper) {
    var lo, hi := Max(m.start, ip - 128), Min(m.start + m.size, ip + 128);
    lo >= 0 && hi >= lo && MemReader.Copy(p.memory, lo, hi - lo).Some?
    && exists b :: ListsBlock(image, d, b) && b.start == lo
                   && b.memory.dataSize == |MemReader.Copy(p.memory, lo, hi - lo).value|
  }

  lemma {:induction false} WindowIsAround(image: seq<byte>, d: Directory, b: Descriptor, m: MappingInfo, ip: nat,
                                          p: Dumper)
    requires ListsBlock(image, d, b) && IsWindow(b, m, ip, p)
    ensures CodeAround(image, d, m, ip, p)
  {
  }

  /** The code around the crash is listed, unless no mapping is there. */
  ghost predicate CrashListed(image: seq<byte>, d: Directory, config: Config, p: Dumper) {
    config.crashContext.Some?
    && var ip := config.crashContext.value.ip;
    FindMapping(p.mappings, ip).Some? ==> CodeAround(image, d, FindMapping(p.mappings, ip).value, ip, p)
  }

  lemma {:induction false} CodeIsListed(image: seq<byte>, entries: seq<Directory>, config: Config, taken: Taken,
                                        p: Dumper, i: nat)
    requires MemoryStreams(image, entries, config, taken, p) && i < |p.threads| && Crashed(config, p.threads[i])
    ensures CrashListed(image, entries[2], config, p)
  {
    RecordIsLinked(image, entries[0], taken, config, p, i);
    var ip := config.crashContext.value.ip;
    var m := FindMapping(p.mappings, ip);
    if m.Some? {
      var b :| b in taken.blocks && IsWindow(b, m.value, ip, p);
      BlockIsListed(image, entries[2], taken.blocks, ViewOf(config, p), b);
      WindowIsAround(image, entries[2], b, m.value, ip, p);
    }
  }

  /** Region k of the application is block k of the last ones, with the bytes that could be copied. */
  predicate RegionReads(image: seq<byte>, d: Directory, config: Config, p: Dumper, k: nat)
    requires k < |config.appMemory|
  {
    d.location.rva + 4 <= |image|
    && var n := GetU32(image, d.location.rva);
    d.location.rva + 4 + 16 * n <= |image| && |config.appMemory| <= n
    && var (address, length) := config.appMemory[k];
    var b, copied := BlockAt(image, d, n - |config.appMemory| + k), MemReader.Copy(p.memory, address, length);
    copied.Some? && b.start == address && b.memory.dataSize == |copied.value|
    && Stored(image, b.memory.rva, copied.value)
  }

  lemma {:induction false} RegionIsListed(image: seq<byte>, entries: seq<Directory>, config: Config, taken: Taken,
                                          p: Dumper, k: nat)
    requires MemoryStreams(image, entries, config, taken, p) && k < |config.appMemory|
    ensures RegionReads(image, entries[2], config, p, k)
  {
    var j := |taken.blocks| - |config.appMemory| + k;
    assert IsRegion(taken.blocks[j], config.appMemory[k], p) && Plain(taken.blocks[j], image, p);
    assert BlockAt(image, entries[2], j) == taken.blocks[j];
  }

  // ---- The exception ----

  /** The exception at d: thread, code, flags, address and context. */
  function ExceptionAt(image: seq<byte>, d: Directory): Exception
    requires d.location.rva + 168 <= |image|
  {
    var at := d.location.rva;
    Exception(GetU32(image, at), GetU32(image, at + 8), GetU32(image, at + 12), GetU64(image, at + 24),
              Location(GetU32(image, at + 160), GetU32(image, at + 164)))
  }

  lemma {:induction false} ExceptionIsRead(image: seq<byte>, d: Directory, e: Exception)
    requires Stored(image, d.location.rva, EncodeException(e))
    ensures ExceptionAt(image, d) == e
  {
    ExceptionReads(image, d.location.rva, e);
    LocationFields(image, d.location.rva + 160);
  }

  /** No thread behind number i is the one that is blamed. */
  predicate LastBlamed(config: Config, threads: seq<ThreadSource>, i: nat) {
    i <= |threads| && forall j :: i <= j < |threads| ==> threads[j].tid != config.blamedThread % 0x1_0000_0000
  }

  /** The thread has registers and an id that can be shown. */
  predicate IsKnown(config: Config, source: ThreadSource) {
    0 <= source.tid < 0x1_0000_0000 && (Crashed(config, source) || source.regs.Some?)
  }

  function IpOf(source: ThreadSource): u64 { if source.regs.Some? then source.regs.value.ip else 0 }

  /** What is noted of the crash, from the ids of the threads. */
  lemma {:induction false} NotedContext(config: Config, threads: seq<ThreadSource>, records: seq<Thread>, i: nat)
    requires |records| == |threads| && LastBlamed(config, threads, i)
    requires forall j :: 0 <= j < |threads| ==> IsKnown(config, threads[j])
    requires config.crashContext.Some? || 0 <= config.blamedThread < 0x1_0000_0000
    ensures i == 0 ==> NotedAfter(config, threads, records, NoContext) == NoContext
    ensures i > 0 && threads[i - 1].tid == config.blamedThread % 0x1_0000_0000 ==>
      NotedAfter(config, threads, records, NoContext)
      == if config.crashContext.Some? then CrashContext(records[i - 1].context)
         else CrashContextPlusAddress(records[i - 1].context, IpOf(threads[i - 1]))
  {
    NotedPrefix(config, threads, records, i, |records|);
  }

  lemma {:induction false} NotedPrefix(config: Config, threads: seq<ThreadSource>, records: seq<Thread>, i: nat,
                                       n: nat)
    requires i <= n <= |records| == |threads| && LastBlamed(config, threads, i)
    requires forall j :: 0 <= j < |threads| ==> IsKnown(config, threads[j])
    requires config.crashContext.Some? || 0 <= config.blamedThread < 0x1_0000_0000
    ensures i == 0 ==> NotedAfter(config, threads, records[..n], NoContext) == NoContext
    ensures i > 0 && threads[i - 1].tid == config.blamedThread % 0x1_0000_0000 ==>
      NotedAfter(config, threads, records[..n], NoContext)
      == if config.crashContext.Some? then CrashContext(records[i - 1].context)
         else CrashContextPlusAddress(records[i - 1].context, IpOf(threads[i - 1]))
    ensures records[..|records|] == records
  {
    if n > 0 {
      assert records[..n][..n - 1] == records[..n - 1];
      if n > i {
        NotedPrefix(config, threads, records, i, n - 1);
      }
    }
  }

  /**
   * The exception when thread i - 1 is the last one with the blamed id, or i is 0 and there is none: it
   * has that id, the signal of the crash or a request for a dump, and leads to the context of the record.
   */
  predicate BlameReads(image: seq<byte>, threads: Directory, exception: Directory, siginfo: Siginfo, config: Config,
                       p: Dumper, i: nat)
    requires i <= |p.threads| && CountReads(image, threads, p)
  {
    exception.location.rva + 168 <= |image|
    && var e := ExceptionAt(image, exception);
    e.threadId == config.blamedThread % 0x1_0000_0000
    && e.context == (if i == 0 then Location(0, 0) else ThreadAt(StreamOf(image, threads), 4 + 48 * (i - 1)).context)
    && if config.crashContext.Some?
       then e.code == siginfo.code && e.flags == siginfo.flags && e.address == siginfo.address
       else e.code == 0xffff_ffff && e.flags == 0 && e.address == if i == 0 then 0 else IpOf(p.threads[i - 1])
  }

  /** The blamed id is that of some thread, and the last such is number i - 1; or i is 0 and there is none. */
  predicate Blames(config: Config, threads: seq<ThreadSource>, i: nat) {
    (config.crashContext.Some? || 0 <= config.blamedThread < 0x1_0000_0000) && LastBlamed(config, threads, i)
    && (i > 0 ==> threads[i - 1].tid == config.blamedThread % 0x1_0000_0000)
  }

  lemma {:induction false} NotedInBytes(bytes: seq<byte>, end: nat, image: seq<byte>, taken: Taken, config: Config,
                                        p: Dumper, i: nat)
    requires ListShown(bytes, end, image, taken.blocks, 0, taken.crashing, NoContext, config, p)
    requires Blames(config, p.threads, i)
    ensures |bytes| == 4 + 48 * |p.threads| && taken.crashing == NotedAt(bytes, config, p, i)
  {
    forall j | 0 <= j < |p.threads| ensures IsKnown(config, p.threads[j]) {
      assert SlotShown(bytes, j, image, config, p, end);
    }
    NotedContext(config, p.threads, RecordsAt(bytes, |p.threads|), i);
  }

  /** The exception for a context that was noted, or for none. */
  lemma {:induction false} ExceptionFor(config: Config, siginfo: Siginfo, noted: Option<Location>, ip: u64)
    ensures var crashing := match noted
                            case None => NoContext
                            case Some(l) => if config.crashContext.Some? then CrashContext(l)
                                            else CrashContextPlusAddress(l, ip);
            var e := ExceptionOf(config, siginfo, crashing);
            e.threadId == config.blamedThread % 0x1_0000_0000
            && e.context == (if noted.None? then Location(0, 0) else noted.value)
            && if config.crashContext.Some?
               then e.code == siginfo.code && e.flags == siginfo.flags && e.address == siginfo.address
               else e.code == 0xffff_ffff && e.flags == 0 && e.address == if noted.None? then 0 else ip
  {
  }

  /** What the list of threads at d says was noted. */
  lemma {:induction false} NotedInStream(image: seq<byte>, d: Directory, taken: Taken, config: Config, p: Dumper,
                                         i: nat)
    requires ThreadsShown(image, d, taken, config, p) && Blames(config, p.threads, i)
    ensures CountReads(image, d, p)
    ensures taken.crashing == NotedAt(StreamOf(image, d), config, p, i)
  {
    NotedInBytes(StreamOf(image, d), d.location.rva + d.location.dataSize, image, taken, config, p, i);
  }

  /** The context of record i - 1, as it is noted; none if i is 0. */
  function NotedAt(bytes: seq<byte>, config: Config, p: Dumper, i: nat): CrashingContext
    requires i <= |p.threads| && |bytes| == 4 + 48 * |p.threads|
  {
    if i == 0 then NoContext else
      var context := ThreadAt(bytes, 4 + 48 * (i - 1)).context;
      if config.crashContext.Some? then CrashContext(context)
      else CrashContextPlusAddress(context, IpOf(p.threads[i - 1]))
  }

  lemma {:induction false} NotedIsBlamed(image: seq<byte>, threads: Directory, exception: Directory, siginfo: Siginfo,
                                         config: Config, p: Dumper, i: nat)
    requires i <= |p.threads| && CountReads(image, threads, p) && exception.location.rva + 168 <= |image|
    requires ExceptionAt(image, exception)
          == ExceptionOf(config, siginfo, NotedAt(StreamOf(image, threads), config, p, i))
    ensures BlameReads(image, threads, exception, siginfo, config, p, i)
  {
    if i == 0 {
      ExceptionFor(config, siginfo, None, 0);
    } else {
      var context := ThreadAt(StreamOf(image, threads), 4 + 48 * (i - 1)).context;
      ExceptionFor(config, siginfo, Some(context), IpOf(p.threads[i - 1]));
    }
  }

  /** The exception leads to the context of the last record whose id it has. */
  lemma {:induction false} ExceptionIsBlamed(image: seq<byte>, threads: Directory, exception: Directory,
                                             siginfo: Siginfo, config: Config, taken: Taken, p: Dumper, i: nat)
    requires ThreadsShown(image, threads, taken, config, p) && Blames(config, p.threads, i)
    requires SectionShown(image, exception, ExceptionSection(config, siginfo, taken.crashing))
    ensures CountReads(image, threads, p) && BlameReads(image, threads, exception, siginfo, config, p, i)
  {
    NotedInStream(image, threads, taken, config, p, i);
    ExceptionOfSection(image, exception, siginfo, config, taken.crashing);
    NotedIsBlamed(image, threads, exception, siginfo, config, p, i);
  }

  lemma {:induction false} ExceptionOfSection(image: seq<byte>, d: Directory, siginfo: Siginfo, config: Config,
                                              crashing: CrashingContext)
    requires SectionShown(image, d, ExceptionSection(config, siginfo, crashing))
    ensures d.location.rva + 168 <= |image| && ExceptionAt(image, d) == ExceptionOf(config, siginfo, crashing)
  {
    var s := ExceptionSection(config, siginfo, crashing);
    assert s.Shown() == s.bytes;
    ExceptionIsRead(image, d, ExceptionOf(config, siginfo, crashing));
  }

  // ---- The whole dump ----

  /** Threads, memory and exception, by the numbers of their entries. */
  ghost predicate StreamsRead(image: seq<byte>, config: Config, p: Dumper, siginfo: Siginfo)
    requires |image| >= 32 + 17 * 12
  {
    var threads, memory, exception := Entry(image, 0), Entry(image, 2), Entry(image, 3);
    CountReads(image, threads, p)
    && (forall i :: 0 <= i < |p.threads| ==>
       ThreadReads(image, threads, i, config, p) && StackListed(image, threads, memory, i)
       && (Crashed(config, p.threads[i]) ==> CrashListed(image, memory, config, p)))
    && (forall k :: 0 <= k < |config.appMemory| ==> RegionReads(image, memory, config, p, k))
    && (forall i :: 0 <= i <= |p.threads| && Blames(config, p.threads, i) ==>
          BlameReads(image, threads, exception, siginfo, config, p, i))
  }

  /** Everything a reader finds in a finished dump. */
  ghost predicate DumpReads(image: seq<byte>, config: Config, p: Dumper, inputs: Inputs)
    requires inputs.Valid()
  {
    HeaderReads(image, inputs.time) && FilesRead(image, inputs) && PartsRead(image, inputs) && ListsRead(image)
    && StreamsRead(image, config, p, inputs.siginfo)
  }

  lemma {:induction false} AllThreadsRead(image: seq<byte>, entries: seq<Directory>, config: Config, taken: Taken,
                                          p: Dumper)
    requires MemoryStreams(image, entries, config, taken, p) && (config.sanitize ==> DisjointSystem(p.mappings))
    ensures CountReads(image, entries[0], p)
    ensures forall i :: 0 <= i < |p.threads| ==>
      ThreadReads(image, entries[0], i, config, p) && StackListed(image, entries[0], entries[2], i)
      && (Crashed(config, p.threads[i]) ==> CrashListed(image, entries[2], config, p))
  {
    assert CountReads(image, entries[0], p);
    forall i | 0 <= i < |p.threads|
      ensures ThreadReads(image, entries[0], i, config, p) && StackListed(image, entries[0], entries[2], i)
      ensures Crashed(config, p.threads[i]) ==> CrashListed(image, entries[2], config, p)
    {
      ThreadsRead(image, entries[0], taken, config, p, i);
      StackIsListed(image, entries, config, taken, p, i);
      if Crashed(config, p.threads[i]) {
        CodeIsListed(image, entries, config, taken, p, i);
      }
    }
  }

  lemma {:induction false} StreamsAreRead(image: seq<byte>, entries: seq<Directory>, config: Config, taken: Taken,
                                          p: Dumper, siginfo: Siginfo)
    requires |entries| >= 4 && |image| >= 32 + 17 * 12 && MemoryStreams(image, entries, config, taken, p)
    requires SectionShown(image, entries[3], ExceptionSection(config, siginfo, taken.crashing))
    requires Entry(image, 0) == entries[0] && Entry(image, 2) == entries[2] && Entry(image, 3) == entries[3]
    requires config.sanitize ==> DisjointSystem(p.mappings)
    ensures StreamsRead(image, config, p, siginfo)
  {
    AllThreadsRead(image, entries, config, taken, p);
    forall k | 0 <= k < |config.appMemory| ensures RegionReads(image, entries[2], config, p, k) {
      RegionIsListed(image, entries, config, taken, p, k);
    }
    forall i | 0 <= i <= |p.threads| && Blames(config, p.threads, i)
      ensures BlameReads(image, entries[0], entries[3], siginfo, config, p, i)
    {
      ExceptionIsBlamed(image, entries[0], entries[3], siginfo, config, taken, p, i);
    }
  }

  /** What a finished run wrote is found by a reader. */
  lemma {:induction false} FinishedReads(image: seq<byte>, entries: seq<Directory>, config: Config, taken: Taken,
                                         p: Dumper, inputs: Inputs)
    requires inputs.Valid() && Finished(image, entries, config, taken, p, inputs)
    requires config.sanitize ==> DisjointSystem(p.mappings)
    ensures DumpReads(image, config, p, inputs)
  {
    var head, sections := EncodeHeader(HeaderFor(inputs.time)), SectionsFor(inputs, config, taken.crashing);
    var exception := ExceptionSection(config, inputs.siginfo, taken.crashing);
    SectionNumbers(inputs, config, taken.crashing);
    FinishedParts(image, entries, head, config, taken, p, inputs, sections, exception);
    SealedHeaderReads(image, entries, inputs.time);
  }

  lemma {:induction false} FinishedParts(image: seq<byte>, entries: seq<Directory>, head: seq<byte>, config: Config,
                                         taken: Taken, p: Dumper, inputs: Inputs, sections: seq<Section>,
                                         exception: Section)
    requires inputs.Valid() && IsProgram(sections, exception, inputs) && AllValid(sections)
    requires exception == ExceptionSection(config, inputs.siginfo, taken.crashing)
    requires |image| < U32_LIMIT && Sealed(image, entries, head)
    requires Complete(image, entries, config, taken, p, inputs.modules, sections)
    requires config.sanitize ==> DisjointSystem(p.mappings)
    ensures |image| >= 32 + 17 * 12 && FilesRead(image, inputs) && PartsRead(image, inputs) && ListsRead(image)
    ensures StreamsRead(image, config, p, inputs.siginfo)
  {
    EntryIsRead(image, entries, head, 1);
    ModulesEntry(image, entries, inputs.modules);
    assert FilesRead(image, inputs) by { EntriesOfFiles(image, entries, head, sections, exception, inputs); }
    assert PartsRead(image, inputs) by { EntriesOfParts(image, entries, head, sections, inputs); }
    assert SectionShown(image, entries[3 + 0], sections[0]);
    EntriesOfLists(image, entries, head, config, taken, p, exception);
    StreamsAreRead(image, entries, config, taken, p, inputs.siginfo);
  }
}
