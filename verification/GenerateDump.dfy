/**
 * The program that writes a dump: header, directory, then one stream after the other, each
 * flushed to the destination before the next is built.
 */
module GenerateDump {
  import opened Bytes
  import opened Format
  import opened DumpBuffer
  import opened DirSection
  import opened DumpLog
  import opened ThreadList
  import opened ThreadNames
  import opened MemoryList
  import opened Sections
  import Sanitizer

  /** Everything the program reads besides the target's threads and memory. */
  datatype Inputs = Inputs(
    time: u32, siginfo: Siginfo, modules: Section, systemInfo: Section, memoryInfo: Section,
    cpuInfo: FileContent, status: FileContent, lsbRelease: FileContent, osRelease: FileContent,
    cmdline: FileContent, environ: FileContent, auxv: FileContent, maps: FileContent,
    dsoDebug: DsoDebug, limits: FileContent, handleData: Section)
  {
    /** The entries of writers outside this model name what they appended, but for dso debug. */
    predicate Valid() {
      modules.Whole() && systemInfo.Whole() && memoryInfo.Whole() && dsoDebug.Valid() && handleData.Whole()
    }
  }

  function FrameFor(inputs: Inputs): Frame {
    var dso := inputs.dsoDebug.AsSection();
    Frame(EncodeHeader(HeaderFor(inputs.time)), dso.succeeds ==> dso.Covered())
  }

  // ---- Streams of threads and memory ----

  /** What writing the threads and memory leaves in the configuration. */
  datatype Taken = Taken(blocks: seq<Descriptor>, crashing: CrashingContext)

  ghost function TakenBy(config: Config): Taken
    reads config
  {
    Taken(config.memoryBlocks, config.crashing)
  }

  /** Where the streams of threads and of memory are, and what they show. */
  ghost predicate MemoryStreams(image: seq<byte>, entries: seq<Directory>, config: Config, taken: Taken, p: Dumper)
  {
    |entries| >= 3
    && ThreadsShown(image, entries[0], taken, config, p)
    && BlocksShown(image, entries[2], taken.blocks, ViewOf(config, p))
    && AppShown(image, taken.blocks, config, p)
  }

  /** The last blocks are the memory that the application asked for, region by region. */
  ghost predicate AppShown(image: seq<byte>, blocks: seq<Descriptor>, config: Config, p: Dumper) {
    |config.appMemory| <= |blocks|
    && RegionsShown(blocks, |blocks| - |config.appMemory|, config.appMemory, image, p)
  }

  lemma {:induction false} AppStays(image: seq<byte>, image': seq<byte>, blocks: seq<Descriptor>, config: Config,
                                    p: Dumper)
    requires Extends(image, image') && AppShown(image, blocks, config, p)
    requires forall i :: 0 <= i < |blocks| ==> STREAMS_START <= blocks[i].memory.rva
    ensures AppShown(image', blocks, config, p)
  {
    forall i | |blocks| - |config.appMemory| <= i < |blocks| ensures Plain(blocks[i], image', p) {
      var l := blocks[i].memory;
      assert Plain(blocks[i], image, p);
      SliceStays(image, image', l.rva, l.rva + l.dataSize);
    }
  }

  /** The bytes of the stream at d read back as the threads, whose stacks and context were taken. */
  ghost predicate ThreadsShown(image: seq<byte>, d: Directory, taken: Taken, config: Config, p: Dumper) {
    var lo, hi := d.location.rva, d.location.rva + d.location.dataSize;
    STREAMS_START <= lo && hi <= |image| && d.streamType == THREAD_LIST_STREAM
    && ListShown(image[lo..hi], hi, image, taken.blocks, 0, taken.crashing, NoContext, config, p)
  }

  ghost predicate BlocksShown(image: seq<byte>, d: Directory, blocks: seq<Descriptor>, v: View) {
    STREAMS_START <= d.location.rva
    && d.streamType == MEMORY_LIST_STREAM && d.location.dataSize == 4 + DESCRIPTOR_SIZE * |blocks|
    && Lists(image, d.location.rva, blocks) && Placed(blocks, image, v)
  }

  /** Every block is behind the directory and shows target memory. */
  ghost predicate Placed(blocks: seq<Descriptor>, image: seq<byte>, v: View) {
    BlocksFaithful(blocks, image, v) && forall i :: 0 <= i < |blocks| ==> STREAMS_START <= blocks[i].memory.rva
  }

  lemma {:induction false} ThreadStays(t: Thread, source: ThreadSource, image: seq<byte>, image': seq<byte>,
                                       config: Config, p: Dumper, from: nat)
    requires Extends(image, image') && STREAMS_START <= from && ThreadShown(t, source, image, config, p, from)
    ensures ThreadShown(t, source, image', config, p, from)
  {
    var l := t.stack.memory;
    SliceStays(image, image', l.rva, l.rva + l.dataSize);
    SliceStays(image, image', t.context.rva, t.context.rva + t.context.dataSize);
  }

  lemma {:induction false} ThreadsStay(image: seq<byte>, image': seq<byte>, d: Directory, taken: Taken,
                                       config: Config, p: Dumper)
    requires Extends(image, image') && ThreadsShown(image, d, taken, config, p)
    ensures ThreadsShown(image', d, taken, config, p)
  {
    var lo, hi := d.location.rva, d.location.rva + d.location.dataSize;
    var bytes := image[lo..hi];
    SliceStays(image, image', lo, hi);
    forall i | 0 <= i < |p.threads| ensures SlotShown(bytes, i, image', config, p, hi) {
      var t := ThreadAt(bytes, 4 + THREAD_SIZE * i);
      assert SlotShown(bytes, i, image, config, p, hi);
      ThreadStays(t, p.threads[i], image, image', config, p, hi);
    }
    assert ReadsBack(bytes, hi, image', config, p);
  }

  /** Blocks of the application are owned as well. */
  lemma {:induction false} ThreadsWithRegions(image: seq<byte>, d: Directory, taken: Taken, blocks: seq<Descriptor>,
                                              config: Config, p: Dumper)
    requires ThreadsShown(image, d, taken, config, p) && taken.blocks <= blocks
    requires forall i :: |taken.blocks| <= i < |blocks| ==> IsPlainStart(config, p, blocks[i].start)
    ensures ThreadsShown(image, d, taken.(blocks := blocks), config, p)
  {
    var records := RecordsAt(image[d.location.rva..d.location.rva + d.location.dataSize], |p.threads|);
    forall j | 0 <= j < |records| ensures InList(records[j], p.threads[j], blocks, config, p) {
      InLongerList(records[j], p.threads[j], taken.blocks, blocks, config, p);
    }
    forall i | 0 <= i < |blocks| ensures Owned(blocks[i], records, config, p) {
      if i < |taken.blocks| {
        assert Owned(taken.blocks[i], records, config, p);
      }
    }
  }

  lemma {:induction false} BlocksStay(image: seq<byte>, image': seq<byte>, blocks: seq<Descriptor>, v: View)
    requires Extends(image, image') && Placed(blocks, image, v)
    ensures Placed(blocks, image', v)
  {
    forall i | 0 <= i < |blocks| ensures Faithful(blocks[i], image', v) {
      var l := blocks[i].memory;
      SliceStays(image, image', l.rva, l.rva + l.dataSize);
    }
  }

  lemma {:induction false} BlockListStays(image: seq<byte>, image': seq<byte>, d: Directory, blocks: seq<Descriptor>,
                                          v: View)
    requires Extends(image, image') && BlocksShown(image, d, blocks, v)
    ensures BlocksShown(image', d, blocks, v)
  {
    var start := d.location.rva;
    SliceStays(image, image', start, start + 4);
    BlocksStay(image, image', blocks, v);
    forall i | 0 <= i < |blocks|
      ensures DescriptorAt(image', start + 4 + DESCRIPTOR_SIZE * i)
           == DescriptorAt(image, start + 4 + DESCRIPTOR_SIZE * i)
    {
      SliceStays(image, image', start + 4 + DESCRIPTOR_SIZE * i, start + 4 + DESCRIPTOR_SIZE * i + DESCRIPTOR_SIZE);
    }
  }

  /** Later flushes do not disturb the streams of threads and memory. */
  lemma {:induction false} MemoryStreamsStay(image: seq<byte>, image': seq<byte>, entries: seq<Directory>,
                                             entries': seq<Directory>, config: Config, taken: Taken, p: Dumper)
    requires MemoryStreams(image, entries, config, taken, p)
    requires Extends(image, image') && entries <= entries'
    ensures MemoryStreams(image', entries', config, taken, p)
  {
    ThreadsStay(image, image', entries[0], taken, config, p);
    BlockListStays(image, image', entries[2], taken.blocks, ViewOf(config, p));
    AppStays(image, image', taken.blocks, config, p);
  }

  /** The bytes of the stream at d are what the names writer leaves behind. */
  ghost predicate NamesShown(image: seq<byte>, d: Directory, threads: seq<ThreadSource>) {
    STREAMS_START <= d.location.rva && d.streamType == THREAD_NAMES_STREAM
    && d.location.dataSize == 4 + THREAD_NAME_SIZE * |Named(threads)|
    && NamesWritten(image, d.location.rva, threads)
  }

  lemma {:induction false} ShownNamesStay(image: seq<byte>, image': seq<byte>, d: Directory,
                                          threads: seq<ThreadSource>)
    requires NamesShown(image, d, threads) && Extends(image, image')
    ensures NamesShown(image', d, threads)
  {
    NamesStay(image, image', d.location.rva, threads);
  }

  // ---- The program ----

  const LINUX_CPU_INFO: u32 := 0x4767_0003
  const LINUX_PROC_STATUS: u32 := 0x4767_0004
  const LINUX_LSB_RELEASE: u32 := 0x4767_0005
  const LINUX_CMD_LINE: u32 := 0x4767_0006
  const LINUX_ENVIRON: u32 := 0x4767_0007
  const LINUX_AUXV: u32 := 0x4767_0008
  const LINUX_MAPS: u32 := 0x4767_0009
  const MOZ_LINUX_LIMITS: u32 := 0x4d7a_0003

  lemma {:induction false} HeaderInPlace(image: seq<byte>, head: seq<byte>)
    requires STREAMS_START <= |image| && SlotsHold(image, SECTION, []) && |head| == HEADER_SIZE
    ensures Sealed(Put(image, 0, head), [], head)
  {
    PutIsLocal(image, 0, head);
    forall k | 0 <= k < NUM_WRITERS ensures Stored(Put(image, 0, head), SECTION.SlotAt(k), Zeros(DIRECTORY_SIZE)) {
      PutKeepsStored(image, 0, head, SECTION.SlotAt(k), Zeros(DIRECTORY_SIZE));
    }
  }

  /** Header and empty directory, flushed at once; None when the destination does not say where it stands. */
  method Begin(buffer: Buffer, destination: Destination, time: u32, ghost frame: Frame)
    returns (ok: bool, dir: Option<DirSection>)
    requires buffer.inner == [] && frame.head == EncodeHeader(HeaderFor(time))
    modifies buffer, destination
    ensures dir.None? ==> !ok && destination.bytes == old(destination.bytes)
    ensures dir.None? ==> destination.failures > old(destination.failures)
    ensures dir.Some? ==> fresh(dir.value) && dir.value.destination == destination
    ensures dir.Some? ==> dir.value.initial == old(destination.bytes) && dir.value.startOffset == old(destination.pos)
    ensures dir.Some? ==> GoodLog(dir.value.log, dir.value.initial, dir.value.startOffset, frame)
    ensures dir.Some? ==> Intact(dir.value, old(destination.failures))
    ensures ok <==> destination.failures == old(destination.failures)
    ensures HeadKept(old(destination.bytes), destination.bytes, old(destination.pos))
    ensures ok ==> Going(dir.value, buffer.inner, frame)
    ensures ok ==> dir.value.entries == [] && |buffer.inner| == STREAMS_START
  {
    var headerSection := Alloc(buffer, HEADER_SIZE);
    dir := NewSection(buffer, NUM_WRITERS, destination);
    if dir.None? {
      return false, dir;
    }
    ghost var was := buffer.inner;
    var head := EncodeHeader(Header(SIGNATURE, VERSION, NUM_WRITERS, dir.value.section.position, 0, time, 0));
    SetValue(headerSection, buffer, head);
    HeaderInPlace(was, head);
    assert buffer.inner[..0] == was[..0];
    ok := Publish(dir.value, buffer, None, frame);
  }

  /** Every thread can be written, at the head of the dump. */
  ghost predicate ThreadsWritable(config: Config, p: Dumper) {
    AllWritable(config, p, STREAMS_START + 4 + THREAD_SIZE * |p.threads|)
  }

  /** The names of the threads can be written, if the dump is below 4 GiB. */
  predicate NamesWritable(threads: seq<ThreadSource>) {
    FateOf(threads, |Named(threads)|, |threads|).Reaches?
  }

  /** The required streams up to the names could be written. */
  ghost predicate AllWent(modules: Section, steps: seq<Step>, config: Config, p: Dumper) {
    modules.succeeds && NoneFailed(steps) && ThreadsWritable(config, p) && AllCopied(config, p)
  }

  /**
   * Where a run whose dump has grown to `size` gives up when the destination does not fail: at a
   * required stream that cannot be written.
   */
  ghost predicate GivesUpAt(e: nat, config: Config, p: Dumper, size: nat, modules: Section, steps: seq<Step>) {
    (e == 0 && !ThreadsWritable(config, p)) || (e == 1 && !modules.succeeds) || (e == 2 && !AllCopied(config, p))
    || FailedStep(steps, 3, e) || (e == 15 && (size < U32_LIMIT ==> !NamesWritable(p.threads)))
  }

  method ThreadListStream(dir: DirSection, buffer: Buffer, config: Config, p: Dumper, ghost frame: Frame)
    returns (ok: bool)
    requires Going(dir, buffer.inner, frame) && dir.entries == [] && |buffer.inner| == STREAMS_START
    requires p.page > 0 && (config.sanitize ==> Sanitizer.Sound(p.mappings))
    requires forall m :: m in p.mappings ==> m.End() < U64_LIMIT
    requires config.memoryBlocks == [] && config.crashing == NoContext
    modifies dir, dir.destination, buffer, config`memoryBlocks, config`crashing
    ensures GoodLog(dir.log, dir.initial, dir.startOffset, frame)
    ensures HeadKept(old(dir.destination.bytes), dir.destination.bytes, dir.startOffset)
    ensures Intact(dir, old(dir.destination.failures))
    ensures !ok && dir.destination.failures == old(dir.destination.failures) ==>
      dir.entries == [] && !ThreadsWritable(config, p)
    ensures ok ==> Going(dir, buffer.inner, frame) && Continues(old(buffer.inner), buffer.inner) && |dir.entries| == 1
    ensures ok ==> ThreadsWritable(config, p)
    ensures ok && |buffer.inner| < U32_LIMIT ==>
      ThreadsShown(buffer.inner, dir.entries[0], TakenBy(config), config, p)
      && Placed(config.memoryBlocks, buffer.inner, ViewOf(config, p))
  {
    ghost var was := buffer.inner;
    var st, dirent := WriteThreadList(config, buffer, p);
    ok := st.Success?;
    ghost var image, taken := buffer.inner, TakenBy(config);
    if ok {
      ReadyAfterStream(dir, was, image, frame);
      assert |image| < U32_LIMIT ==> ThreadsShown(image, dirent, taken, config, p);
      assert |image| < U32_LIMIT ==> Placed(taken.blocks, image, ViewOf(config, p));
      ok := Publish(dir, buffer, Some(dirent), frame);
      if ok {
        ContinuesOn(was, image, buffer.inner);
        if |image| < U32_LIMIT {
          assert ThreadsShown(buffer.inner, dirent, taken, config, p) by {
            ThreadsStay(image, buffer.inner, dirent, taken, config, p);
          }
          assert Placed(taken.blocks, buffer.inner, ViewOf(config, p)) by {
            BlocksStay(image, buffer.inner, taken.blocks, ViewOf(config, p));
          }
        }
      }
    } else {
      ReadyIsIntact(dir, was, frame);
    }
  }

  lemma {:induction false} PlacedGrows(image: seq<byte>, image': seq<byte>, blocks: seq<Descriptor>,
                                       blocks': seq<Descriptor>, v: View)
    requires STREAMS_START <= |image| && Placed(blocks, image, v)
    requires Grows(image, image', blocks, blocks', v) && |image'| < U32_LIMIT
    ensures Placed(blocks', image', v)
  {
    BlocksStay(image, image', blocks, v);
    forall i | 0 <= i < |blocks'| ensures Faithful(blocks'[i], image', v) && STREAMS_START <= blocks'[i].memory.rva {
      assert i < |blocks| ==> blocks'[i] == blocks[i];
    }
  }

  lemma {:induction false} RegionsArePlain(blocks: seq<Descriptor>, from: nat, image: seq<byte>, config: Config,
                                           p: Dumper)
    requires RegionsShown(blocks, from, config.appMemory, image, p)
    ensures forall i :: from <= i < |blocks| ==> IsPlainStart(config, p, blocks[i].start)
  {
  }

  /** Regions of the application, appended and flushed, are taken along with the threads. */
  lemma {:induction false} RegionsTaken(was: seq<byte>, image: seq<byte>, image': seq<byte>, d: Directory,
                                        taken: Taken, blocks: seq<Descriptor>, config: Config, p: Dumper)
    requires STREAMS_START <= |was| && |image'| < U32_LIMIT
    requires ThreadsShown(was, d, taken, config, p) && Placed(taken.blocks, was, ViewOf(config, p))
    requires Grows(was, image, taken.blocks, blocks, ViewOf(config, p)) && Extends(image, image')
    requires RegionsShown(blocks, |taken.blocks|, config.appMemory, image, p)
    requires |blocks| == |taken.blocks| + |config.appMemory|
    ensures ThreadsShown(image', d, taken.(blocks := blocks), config, p) && Placed(blocks, image', ViewOf(config, p))
    ensures AppShown(image', blocks, config, p)
  {
    assert Placed(blocks, image', ViewOf(config, p)) by {
      PlacedGrows(was, image, taken.blocks, blocks, ViewOf(config, p));
      BlocksStay(image, image', blocks, ViewOf(config, p));
    }
    assert ThreadsShown(was, d, taken.(blocks := blocks), config, p) by {
      RegionsArePlain(blocks, |taken.blocks|, image, config, p);
      ThreadsWithRegions(was, d, taken, blocks, config, p);
    }
    AppStays(image, image', blocks, config, p);
    AppendContinues(was, image);
    ContinuesOn(was, image, image');
    ThreadsStay(was, image', d, taken.(blocks := blocks), config, p);
  }

  /** Memory supplied by the application: flushed, but without an entry of its own. */
  method AppMemory(dir: DirSection, buffer: Buffer, config: Config, p: Dumper, ghost frame: Frame) returns (ok: bool)
    requires Going(dir, buffer.inner, frame) && |dir.entries| == 2
    requires |buffer.inner| < U32_LIMIT ==>
      ThreadsShown(buffer.inner, dir.entries[0], TakenBy(config), config, p)
      && Placed(config.memoryBlocks, buffer.inner, ViewOf(config, p))
    modifies dir, dir.destination, buffer, config`memoryBlocks
    ensures GoodLog(dir.log, dir.initial, dir.startOffset, frame)
    ensures HeadKept(old(dir.destination.bytes), dir.destination.bytes, dir.startOffset)
    ensures Intact(dir, old(dir.destination.failures))
    ensures dir.destination.failures == old(dir.destination.failures) ==> dir.entries == old(dir.entries)
    ensures !ok && dir.destination.failures == old(dir.destination.failures) ==> !AllCopied(config, p)
    ensures ok ==> Going(dir, buffer.inner, frame) && Continues(old(buffer.inner), buffer.inner)
    ensures ok ==> dir.entries == old(dir.entries) && AllCopied(config, p) && Flushed(dir, buffer.inner)
    ensures ok && |buffer.inner| < U32_LIMIT ==>
      ThreadsShown(buffer.inner, dir.entries[0], TakenBy(config), config, p)
      && Placed(config.memoryBlocks, buffer.inner, ViewOf(config, p))
      && AppShown(buffer.inner, config.memoryBlocks, config, p)
  {
    ghost var was, taken, v := buffer.inner, TakenBy(config), ViewOf(config, p);
    var st := WriteAppMemory(config, buffer, p);
    ok := st.Success?;
    ghost var image, blocks := buffer.inner, config.memoryBlocks;
    if ok {
      ReadyAfterStream(dir, was, image, frame);
      ok := Publish(dir, buffer, None, frame);
      if ok {
        ContinuesOn(was, image, buffer.inner);
        assert TakenBy(config) == taken.(blocks := blocks);
        if |image| < U32_LIMIT {
          RegionsTaken(was, image, buffer.inner, dir.entries[0], taken, blocks, config, p);
        }
      }
    } else {
      ReadyIsIntact(dir, was, frame);
    }
  }

  method MemoryListStream(dir: DirSection, buffer: Buffer, config: Config, p: Dumper, ghost frame: Frame)
    returns (ok: bool)
    requires Going(dir, buffer.inner, frame) && |dir.entries| == 2
    requires |buffer.inner| < U32_LIMIT ==> Placed(config.memoryBlocks, buffer.inner, ViewOf(config, p))
    modifies dir, dir.destination, buffer
    ensures GoodLog(dir.log, dir.initial, dir.startOffset, frame)
    ensures HeadKept(old(dir.destination.bytes), dir.destination.bytes, dir.startOffset)
    ensures Intact(dir, old(dir.destination.failures))
    ensures ok <==> dir.destination.failures == old(dir.destination.failures)
    ensures ok ==> Going(dir, buffer.inner, frame) && Continues(old(buffer.inner), buffer.inner)
    ensures ok ==> |dir.entries| == 3 && old(dir.entries) <= dir.entries
    ensures ok && |buffer.inner| < U32_LIMIT ==>
      BlocksShown(buffer.inner, dir.entries[2], config.memoryBlocks, ViewOf(config, p))
  {
    ghost var was, v := buffer.inner, ViewOf(config, p);
    var dirent := WriteMemoryList(config, buffer);
    ghost var image := buffer.inner;
    ReadyAfterStream(dir, was, image, frame);
    if |image| < U32_LIMIT {
      BlocksStay(was, image, config.memoryBlocks, v);
      assert BlocksShown(image, dirent, config.memoryBlocks, v);
    }
    ok := Publish(dir, buffer, Some(dirent), frame);
    if ok {
      ContinuesOn(was, image, buffer.inner);
      if |image| < U32_LIMIT {
        BlockListStays(image, buffer.inner, dirent, config.memoryBlocks, v);
      }
    }
  }

  method ThreadsAndModules(dir: DirSection, buffer: Buffer, config: Config, p: Dumper, modules: Section,
                           ghost frame: Frame)
    returns (ok: bool)
    requires Going(dir, buffer.inner, frame) && dir.entries == [] && |buffer.inner| == STREAMS_START
    requires p.page > 0 && (config.sanitize ==> Sanitizer.Sound(p.mappings))
    requires forall m :: m in p.mappings ==> m.End() < U64_LIMIT
    requires config.memoryBlocks == [] && config.crashing == NoContext && modules.Whole()
    modifies dir, dir.destination, buffer, config`memoryBlocks, config`crashing
    ensures GoodLog(dir.log, dir.initial, dir.startOffset, frame)
    ensures HeadKept(old(dir.destination.bytes), dir.destination.bytes, dir.startOffset)
    ensures Intact(dir, old(dir.destination.failures))
    ensures !ok && dir.destination.failures == old(dir.destination.failures) ==>
      GivesUpAt(|dir.entries|, config, p, |buffer.inner|, modules, [])
    ensures ok ==> Going(dir, buffer.inner, frame) && |dir.entries| == 2 && modules.succeeds
    ensures ok ==> ThreadsWritable(config, p)
    ensures ok ==> SectionsShown(buffer.inner, dir.entries, 1, [modules])
    ensures ok && |buffer.inner| < U32_LIMIT ==>
      ThreadsShown(buffer.inner, dir.entries[0], TakenBy(config), config, p)
      && Placed(config.memoryBlocks, buffer.inner, ViewOf(config, p))
  {
    ghost var file, failures := dir.destination.bytes, dir.destination.failures;
    ok := ThreadListStream(dir, buffer, config, p, frame);
    if ok {
      ghost var image, entry, taken := buffer.inner, dir.entries[0], TakenBy(config);
      ghost var mid, since := dir.destination.bytes, dir.destination.failures;
      ok := RequiredStream(dir, buffer, modules, frame, 1, []);
      HeadKeptOn(file, mid, dir.destination.bytes, dir.startOffset);
      IntactSince(dir, failures, since);
      if ok {
        if |buffer.inner| < U32_LIMIT {
          BlocksStay(image, buffer.inner, taken.blocks, ViewOf(config, p));
          ThreadsStay(image, buffer.inner, entry, taken, config, p);
        }
        assert [] + [modules] == [modules];
      }
    }
  }

  method MemoryBlocks(dir: DirSection, buffer: Buffer, config: Config, p: Dumper, ghost frame: Frame)
    returns (ok: bool)
    requires Going(dir, buffer.inner, frame) && |dir.entries| == 2
    requires |buffer.inner| < U32_LIMIT ==>
      ThreadsShown(buffer.inner, dir.entries[0], TakenBy(config), config, p)
      && Placed(config.memoryBlocks, buffer.inner, ViewOf(config, p))
    modifies dir, dir.destination, buffer, config`memoryBlocks
    ensures GoodLog(dir.log, dir.initial, dir.startOffset, frame)
    ensures HeadKept(old(dir.destination.bytes), dir.destination.bytes, dir.startOffset)
    ensures Intact(dir, old(dir.destination.failures))
    ensures !ok && dir.destination.failures == old(dir.destination.failures) ==>
      |dir.entries| == 2 && !AllCopied(config, p)
    ensures ok ==> AllCopied(config, p)
    ensures ok ==> Going(dir, buffer.inner, frame) && Continues(old(buffer.inner), buffer.inner)
    ensures ok ==> |dir.entries| == 3 && old(dir.entries) <= dir.entries
    ensures ok && |buffer.inner| < U32_LIMIT ==>
      MemoryStreams(buffer.inner, dir.entries, config, TakenBy(config), p)
  {
    ghost var file, failures := dir.destination.bytes, dir.destination.failures;
    ok := AppMemory(dir, buffer, config, p, frame);
    if ok {
      ghost var image, entry, taken := buffer.inner, dir.entries[0], TakenBy(config);
      ghost var mid, since := dir.destination.bytes, dir.destination.failures;
      ok := MemoryListStream(dir, buffer, config, p, frame);
      HeadKeptOn(file, mid, dir.destination.bytes, dir.startOffset);
      IntactSince(dir, failures, since);
      if ok {
        ContinuesOn(old(buffer.inner), image, buffer.inner);
        assert TakenBy(config) == taken && dir.entries[0] == entry;
        if |buffer.inner| < U32_LIMIT {
          assert ThreadsShown(buffer.inner, entry, taken, config, p) by {
            ThreadsStay(image, buffer.inner, entry, taken, config, p);
          }
          assert AppShown(buffer.inner, taken.blocks, config, p) by {
            AppStays(image, buffer.inner, taken.blocks, config, p);
          }
        }
      }
    }
  }

  /** Threads, modules, application memory and the list of memory: the first three entries. */
  method WriteMemoryStreams(dir: DirSection, buffer: Buffer, config: Config, p: Dumper, modules: Section,
                            ghost frame: Frame)
    returns (ok: bool)
    requires Going(dir, buffer.inner, frame) && dir.entries == [] && |buffer.inner| == STREAMS_START
    requires p.page > 0 && (config.sanitize ==> Sanitizer.Sound(p.mappings))
    requires forall m :: m in p.mappings ==> m.End() < U64_LIMIT
    requires config.memoryBlocks == [] && config.crashing == NoContext && modules.Whole()
    modifies dir, dir.destination, buffer, config`memoryBlocks, config`crashing
    ensures GoodLog(dir.log, dir.initial, dir.startOffset, frame)
    ensures HeadKept(old(dir.destination.bytes), dir.destination.bytes, dir.startOffset)
    ensures Intact(dir, old(dir.destination.failures))
    ensures !ok && dir.destination.failures == old(dir.destination.failures) ==>
      GivesUpAt(|dir.entries|, config, p, |buffer.inner|, modules, [])
    ensures ok ==> Going(dir, buffer.inner, frame) && |dir.entries| == 3 && modules.succeeds
    ensures ok ==> ThreadsWritable(config, p) && AllCopied(config, p)
    ensures ok ==> SectionsShown(buffer.inner, dir.entries, 1, [modules])
    ensures ok && |buffer.inner| < U32_LIMIT ==>
      MemoryStreams(buffer.inner, dir.entries, config, TakenBy(config), p)
  {
    ghost var file, failures := dir.destination.bytes, dir.destination.failures;
    ok := ThreadsAndModules(dir, buffer, config, p, modules, frame);
    if ok {
      ghost var image, entries := buffer.inner, dir.entries;
      ghost var mid, since := dir.destination.bytes, dir.destination.failures;
      ok := MemoryBlocks(dir, buffer, config, p, frame);
      HeadKeptOn(file, mid, dir.destination.bytes, dir.startOffset);
      IntactSince(dir, failures, since);
      if ok {
        SectionsStay(image, buffer.inner, entries, dir.entries, 1, [modules]);
      }
    }
  }

  // ---- The other streams ----

  /** The streams between the exception and the names of threads, in the order they are written. */
  function Program(inputs: Inputs): (steps: seq<Step>)
    requires inputs.Valid()
    ensures |steps| == 11
    ensures AllFit(steps, 4, FrameFor(inputs))
  {
    [Step(inputs.systemInfo, true), Step(inputs.memoryInfo, true),
     Step(FileSection(inputs.cpuInfo, LINUX_CPU_INFO), false),
     Step(FileSection(inputs.status, LINUX_PROC_STATUS), false),
     Step(FileSection(if inputs.lsbRelease.Some? then inputs.lsbRelease else inputs.osRelease, LINUX_LSB_RELEASE),
          false),
     Step(FileSection(inputs.cmdline, LINUX_CMD_LINE), false),
     Step(FileSection(inputs.environ, LINUX_ENVIRON), false),
     Step(FileSection(inputs.auxv, LINUX_AUXV), false),
     Step(FileSection(inputs.maps, LINUX_MAPS), false),
     Step(inputs.dsoDebug.AsSection(), false),
     Step(FileSection(inputs.limits, MOZ_LINUX_LIMITS), false)]
  }

  /** All steps behind the list of memory: the exception, with the context that was noted, comes first. */
  function AllSteps(exception: Section, steps: seq<Step>): (all: seq<Step>)
    ensures |all| == 1 + |steps|
  {
    [Step(exception, true)] + steps
  }

  lemma {:induction false} AllStepsFit(exception: Section, steps: seq<Step>, frame: Frame)
    requires exception.Whole() && AllFit(steps, 4, frame)
    ensures AllFit(AllSteps(exception, steps), 3, frame) && AllValid(SectionsOf(AllSteps(exception, steps)))
  {
    var all := AllSteps(exception, steps);
    forall i | 0 <= i < |all| ensures Fits(all[i].section, 3 + i, frame) {
      if i > 0 {
        assert Fits(steps[i - 1].section, 4 + (i - 1), frame);
      }
    }
  }

  /** The names of the threads: required, but its list may not read back. */
  method ThreadNamesStream(dir: DirSection, buffer: Buffer, threads: seq<ThreadSource>, ghost frame: Frame)
    returns (ok: bool)
    requires Going(dir, buffer.inner, frame) && |dir.entries| < NUM_WRITERS && |dir.entries| != DSO_ENTRY
    modifies dir, dir.destination, buffer
    ensures GoodLog(dir.log, dir.initial, dir.startOffset, frame)
    ensures HeadKept(old(dir.destination.bytes), dir.destination.bytes, dir.startOffset)
    ensures Intact(dir, old(dir.destination.failures))
    ensures !ok && dir.destination.failures == old(dir.destination.failures) ==>
      dir.entries == old(dir.entries) && (|buffer.inner| < U32_LIMIT ==> !NamesWritable(threads))
    ensures ok && |buffer.inner| < U32_LIMIT ==> NamesWritable(threads)
    ensures ok ==> Going(dir, buffer.inner, frame) && Continues(old(buffer.inner), buffer.inner)
    ensures ok ==> |dir.entries| == old(|dir.entries|) + 1 && old(dir.entries) <= dir.entries
    ensures ok ==> Flushed(dir, buffer.inner)
    ensures ok && |buffer.inner| < U32_LIMIT ==> NamesShown(buffer.inner, dir.entries[|dir.entries| - 1], threads)
  {
    ghost var was := buffer.inner;
    var st, dirent := WriteThreadNames(buffer, threads);
    ok := st.Success?;
    if ok {
      ghost var image := buffer.inner;
      ReadyAfterStream(dir, was, image, frame);
      ok := Publish(dir, buffer, Some(dirent), frame);
      if ok {
        ContinuesOn(was, image, buffer.inner);
        if |image| < U32_LIMIT {
          ShownNamesStay(image, buffer.inner, dirent, threads);
        }
      }
    } else {
      ReadyIsIntact(dir, was, frame);
    }
  }

  /** What a complete dump shows: threads, modules, memory, every stream of the program, and names. */
  ghost predicate Complete(image: seq<byte>, entries: seq<Directory>, config: Config, taken: Taken, p: Dumper,
                           modules: Section, sections: seq<Section>)
    requires modules.Valid() && AllValid(sections)
  {
    |entries| >= 16
    && SectionsShown(image, entries, 1, [modules])
    && SectionsShown(image, entries, 3, sections)
    && (|image| < U32_LIMIT ==>
          MemoryStreams(image, entries, config, taken, p) && NamesShown(image, entries[15], p.threads)
          && NamesWritable(p.threads))
  }

  lemma {:induction false} CompleteStays(image: seq<byte>, image': seq<byte>, entries: seq<Directory>,
                                         entries': seq<Directory>, config: Config, taken: Taken, p: Dumper,
                                         modules: Section, sections: seq<Section>)
    requires modules.Valid() && AllValid(sections) && Complete(image, entries, config, taken, p, modules, sections)
    requires Continues(image, image') && entries <= entries'
    ensures Complete(image', entries', config, taken, p, modules, sections)
  {
    if |image'| < U32_LIMIT {
      MemoryStreamsStay(image, image', entries, entries', config, taken, p);
      ShownNamesStay(image, image', entries[15], p.threads);
    }
    SectionsStay(image, image', entries, entries', 1, [modules]);
    SectionsStay(image, image', entries, entries', 3, sections);
  }

  /** Which streams a dump shows before the names of threads. */
  ghost predicate Streams(image: seq<byte>, entries: seq<Directory>, config: Config, taken: Taken, p: Dumper,
                          modules: Section, sections: seq<Section>)
    requires modules.Valid() && AllValid(sections)
  {
    |entries| == 15
    && SectionsShown(image, entries, 1, [modules])
    && SectionsShown(image, entries, 3, sections)
    && (|image| < U32_LIMIT ==> MemoryStreams(image, entries, config, taken, p))
  }

  /** The steps of the program add their streams to what the first three entries show. */
  lemma {:induction false} StepsAdd(image: seq<byte>, image': seq<byte>, entries: seq<Directory>,
                                    entries': seq<Directory>, config: Config, taken: Taken, p: Dumper,
                                    modules: Section, sections: seq<Section>)
    requires modules.Valid() && AllValid(sections)
    requires Continues(image, image') && entries <= entries' && |entries'| == 15
    requires |image| < U32_LIMIT ==> MemoryStreams(image, entries, config, taken, p)
    requires SectionsShown(image, entries, 1, [modules])
    requires SectionsShown(image', entries', 3, sections)
    ensures Streams(image', entries', config, taken, p, modules, sections)
  {
    SectionsStay(image, image', entries, entries', 1, [modules]);
    if |image'| < U32_LIMIT {
      MemoryStreamsStay(image, image', entries, entries', config, taken, p);
    }
  }

  /** The names complete the dump. */
  lemma {:induction false} NamesComplete(image: seq<byte>, image': seq<byte>, entries: seq<Directory>,
                                         entries': seq<Directory>, config: Config, taken: Taken, p: Dumper,
                                         modules: Section, sections: seq<Section>)
    requires modules.Valid() && AllValid(sections) && Streams(image, entries, config, taken, p, modules, sections)
    requires Continues(image, image') && entries <= entries' && |entries'| == 16
    requires |image'| < U32_LIMIT ==> NamesShown(image', entries'[15], p.threads) && NamesWritable(p.threads)
    ensures Complete(image', entries', config, taken, p, modules, sections)
  {
    if |image'| < U32_LIMIT {
      MemoryStreamsStay(image, image', entries, entries', config, taken, p);
    }
    SectionsStay(image, image', entries, entries', 1, [modules]);
    SectionsStay(image, image', entries, entries', 3, sections);
  }

  /** All streams up to the names of threads. */
  method WriteStreams(dir: DirSection, buffer: Buffer, config: Config, p: Dumper, modules: Section, siginfo: Siginfo,
                      steps: seq<Step>, ghost frame: Frame)
    returns (ok: bool, ghost taken: Taken, ghost all: seq<Step>)
    requires Going(dir, buffer.inner, frame) && dir.entries == [] && |buffer.inner| == STREAMS_START
    requires p.page > 0 && (config.sanitize ==> Sanitizer.Sound(p.mappings))
    requires forall m :: m in p.mappings ==> m.End() < U64_LIMIT
    requires config.memoryBlocks == [] && config.crashing == NoContext && modules.Whole()
    requires |steps| == 11 && AllFit(steps, 4, frame)
    modifies dir, dir.destination, buffer, config`memoryBlocks, config`crashing
    ensures GoodLog(dir.log, dir.initial, dir.startOffset, frame)
    ensures HeadKept(old(dir.destination.bytes), dir.destination.bytes, dir.startOffset)
    ensures Intact(dir, old(dir.destination.failures))
    ensures taken == TakenBy(config) && all == AllSteps(ExceptionSection(config, siginfo, taken.crashing), steps)
    ensures AllValid(SectionsOf(all))
    ensures !ok && dir.destination.failures == old(dir.destination.failures) ==>
      GivesUpAt(|dir.entries|, config, p, |buffer.inner|, modules, all)
    ensures ok ==> AllWent(modules, all, config, p)
    ensures ok ==> Streams(buffer.inner, dir.entries, config, taken, p, modules, SectionsOf(all))
    ensures ok ==> Going(dir, buffer.inner, frame)
  {
    ghost var file, failures := dir.destination.bytes, dir.destination.failures;
    ok := WriteMemoryStreams(dir, buffer, config, p, modules, frame);
    var exception := ExceptionSection(config, siginfo, config.crashing);
    AllStepsFit(exception, steps, frame);
    taken, all := TakenBy(config), AllSteps(exception, steps);
    if ok {
      ghost var image, entries := buffer.inner, dir.entries;
      ghost var mid, since := dir.destination.bytes, dir.destination.failures;
      ok := RunSteps(dir, buffer, AllSteps(exception, steps), frame);
      HeadKeptOn(file, mid, dir.destination.bytes, dir.startOffset);
      IntactSince(dir, failures, since);
      if ok {
        StepsAdd(image, buffer.inner, entries, dir.entries, config, taken, p, modules, SectionsOf(all));
      }
    }
  }

  /** The last entry of the last flush is that of the handles, or there is none. */
  predicate HandlesShown(log: seq<Snapshot>, handles: Section)
    requires handles.Valid()
  {
    |log| > 0 && var s := log[|log| - 1];
    if handles.succeeds then |s.entries| == 17 && SectionsShown(s.image, s.entries, 16, [handles])
    else |s.entries| == 16
  }

  /** The open handles: optional, and the only stream that leaves no entry when it fails. */
  method HandleDataStream(dir: DirSection, buffer: Buffer, handles: Section, ghost frame: Frame)
    requires handles.Whole() && Going(dir, buffer.inner, frame) && |dir.entries| == 16 && Flushed(dir, buffer.inner)
    modifies dir, dir.destination, buffer
    ensures GoodLog(dir.log, dir.initial, dir.startOffset, frame)
    ensures HeadKept(old(dir.destination.bytes), dir.destination.bytes, dir.startOffset)
    ensures Intact(dir, old(dir.destination.failures))
    ensures |dir.log| > 0
    ensures var s, s' := old(dir.log[|dir.log| - 1]), dir.log[|dir.log| - 1];
            Continues(s.image, s'.image) && s.entries <= s'.entries
    ensures dir.destination.failures > old(dir.destination.failures) ==> handles.succeeds && dir.log == old(dir.log)
    ensures dir.destination.failures == old(dir.destination.failures) ==> HandlesShown(dir.log, handles)
  {
    ghost var image := buffer.inner;
    var dirent := WriteSection(buffer, handles);
    if dirent.Some? {
      ghost var image' := buffer.inner;
      ReadyAfterStream(dir, image, image', frame);
      SectionFitsNext(dir.entries, handles, |image|, |image'|, frame);
      var written := Publish(dir, buffer, dirent, frame);
      if written {
        ContinuesOn(image, image', buffer.inner);
        assert SectionsShown(buffer.inner, dir.entries, 16, [handles]) by {
          SectionsSnoc(image, image', buffer.inner, old(dir.entries), 16, [], handles);
          assert [] + [handles] == [handles];
        }
      }
    } else {
      ReadyIsIntact(dir, image, frame);
    }
  }

  /** Every required stream, once header and directory are in place. */
  method WriteRequired(dir: DirSection, buffer: Buffer, config: Config, p: Dumper, modules: Section, siginfo: Siginfo,
                       steps: seq<Step>, ghost frame: Frame)
    returns (ok: bool, ghost taken: Taken, ghost all: seq<Step>)
    requires Going(dir, buffer.inner, frame) && dir.entries == [] && |buffer.inner| == STREAMS_START
    requires p.page > 0 && (config.sanitize ==> Sanitizer.Sound(p.mappings))
    requires forall m :: m in p.mappings ==> m.End() < U64_LIMIT
    requires config.memoryBlocks == [] && config.crashing == NoContext && modules.Whole()
    requires |steps| == 11 && AllFit(steps, 4, frame)
    modifies dir, dir.destination, buffer, config`memoryBlocks, config`crashing
    ensures GoodLog(dir.log, dir.initial, dir.startOffset, frame)
    ensures HeadKept(old(dir.destination.bytes), dir.destination.bytes, dir.startOffset)
    ensures Intact(dir, old(dir.destination.failures))
    ensures ok ==> Going(dir, buffer.inner, frame) && |dir.entries| == 16 && Flushed(dir, buffer.inner)
    ensures taken == TakenBy(config) && all == AllSteps(ExceptionSection(config, siginfo, taken.crashing), steps)
    ensures AllValid(SectionsOf(all))
    ensures !ok && dir.destination.failures == old(dir.destination.failures) ==>
      GivesUpAt(|dir.entries|, config, p, |buffer.inner|, modules, all)
    ensures ok ==> AllWent(modules, all, config, p)
    ensures ok ==> Complete(buffer.inner, dir.entries, config, taken, p, modules, SectionsOf(all))
  {
    ghost var file, failures := dir.destination.bytes, dir.destination.failures;
    ok, taken, all := WriteStreams(dir, buffer, config, p, modules, siginfo, steps, frame);
    if ok {
      ghost var image, entries := buffer.inner, dir.entries;
      ghost var mid, since := dir.destination.bytes, dir.destination.failures;
      ok := ThreadNamesStream(dir, buffer, p.threads, frame);
      HeadKeptOn(file, mid, dir.destination.bytes, dir.startOffset);
      IntactSince(dir, failures, since);
      if ok {
        NamesComplete(image, buffer.inner, entries, dir.entries, config, taken, p, modules, SectionsOf(all));
      }
    }
  }

  /** The last flush of the log is complete. */
  ghost predicate Ends(log: seq<Snapshot>, config: Config, taken: Taken, p: Dumper, modules: Section,
                       sections: seq<Section>)
    requires modules.Valid() && AllValid(sections)
  {
    |log| > 0
    && Complete(log[|log| - 1].image, log[|log| - 1].entries, config, taken, p, modules, sections)
  }

  /** The handles, behind a dump that is complete, leave it complete. */
  method HandlesLast(dir: DirSection, buffer: Buffer, handles: Section, ghost frame: Frame, ghost config: Config,
                     ghost taken: Taken, ghost p: Dumper, ghost modules: Section, ghost sections: seq<Section>)
    requires handles.Whole() && Going(dir, buffer.inner, frame) && |dir.entries| == 16 && Flushed(dir, buffer.inner)
    requires modules.Valid() && AllValid(sections)
    requires Complete(buffer.inner, dir.entries, config, taken, p, modules, sections)
    modifies dir, dir.destination, buffer
    ensures GoodLog(dir.log, dir.initial, dir.startOffset, frame)
    ensures HeadKept(old(dir.destination.bytes), dir.destination.bytes, dir.startOffset)
    ensures Intact(dir, old(dir.destination.failures))
    ensures dir.destination.failures == old(dir.destination.failures) ==> HandlesShown(dir.log, handles)
    ensures Ends(dir.log, config, taken, p, modules, sections)
  {
    ghost var image, entries := buffer.inner, dir.entries;
    HandleDataStream(dir, buffer, handles, frame);
    EndsComplete(dir.log, image, entries, config, taken, p, modules, sections);
  }

  lemma {:induction false} EndsComplete(log: seq<Snapshot>, image: seq<byte>, entries: seq<Directory>, config: Config,
                                        taken: Taken, p: Dumper, modules: Section, sections: seq<Section>)
    requires modules.Valid() && AllValid(sections) && Complete(image, entries, config, taken, p, modules, sections)
    requires |log| > 0 && Continues(image, log[|log| - 1].image) && entries <= log[|log| - 1].entries
    ensures Ends(log, config, taken, p, modules, sections)
  {
    CompleteStays(image, log[|log| - 1].image, entries, log[|log| - 1].entries, config, taken, p, modules, sections);
  }

  method WriteAllStreams(dir: DirSection, buffer: Buffer, config: Config, p: Dumper, modules: Section,
                         siginfo: Siginfo, steps: seq<Step>, handles: Section, ghost frame: Frame)
    returns (ok: bool, ghost taken: Taken, ghost all: seq<Step>)
    requires Going(dir, buffer.inner, frame) && dir.entries == [] && |buffer.inner| == STREAMS_START
    requires p.page > 0 && (config.sanitize ==> Sanitizer.Sound(p.mappings))
    requires forall m :: m in p.mappings ==> m.End() < U64_LIMIT
    requires config.memoryBlocks == [] && config.crashing == NoContext && modules.Whole() && handles.Whole()
    requires |steps| == 11 && AllFit(steps, 4, frame)
    modifies dir, dir.destination, buffer, config`memoryBlocks, config`crashing
    ensures GoodLog(dir.log, dir.initial, dir.startOffset, frame)
    ensures HeadKept(old(dir.destination.bytes), dir.destination.bytes, dir.startOffset)
    ensures Intact(dir, old(dir.destination.failures))
    ensures taken == TakenBy(config) && all == AllSteps(ExceptionSection(config, siginfo, taken.crashing), steps)
    ensures AllValid(SectionsOf(all))
    ensures !ok && dir.destination.failures == old(dir.destination.failures) ==>
      GivesUpAt(|dir.entries|, config, p, |buffer.inner|, modules, all)
    ensures ok ==> AllWent(modules, all, config, p)
    ensures ok ==> Ends(dir.log, config, taken, p, modules, SectionsOf(all))
    ensures ok && dir.destination.failures == old(dir.destination.failures) ==> HandlesShown(dir.log, handles)
  {
    ghost var failures := dir.destination.failures;
    ok, taken, all := WriteRequired(dir, buffer, config, p, modules, siginfo, steps, frame);
    if !ok {
      return;
    }
    ghost var file, since := dir.destination.bytes, dir.destination.failures;
    HandlesLast(dir, buffer, handles, frame, config, taken, p, modules, SectionsOf(all));
    HeadKeptOn(old(dir.destination.bytes), file, dir.destination.bytes, dir.startOffset);
    IntactSince(dir, failures, since);
  }

  /** The sections behind the list of memory, for a run that noted a context. */
  function SectionsFor(inputs: Inputs, config: Config, crashing: CrashingContext): (sections: seq<Section>)
    requires inputs.Valid()
    ensures AllValid(sections)
  {
    var exception := ExceptionSection(config, inputs.siginfo, crashing);
    AllStepsFit(exception, Program(inputs), FrameFor(inputs));
    SectionsOf(AllSteps(exception, Program(inputs)))
  }

  /**
   * A run that the destination does not end gives up at the threads, the modules, the memory, the system
   * information, the memory information or the names, each of which could not be written.
   */
  ghost predicate GivesUpIn(e: nat, config: Config, p: Dumper, size: nat, inputs: Inputs) {
    (e == 0 && !ThreadsWritable(config, p)) || (e == 1 && !inputs.modules.succeeds)
    || (e == 2 && !AllCopied(config, p)) || (e == 4 && !inputs.systemInfo.succeeds)
    || (e == 5 && !inputs.memoryInfo.succeeds) || (e == 15 && (size < U32_LIMIT ==> !NamesWritable(p.threads)))
  }

  /** Every required stream can be written. */
  ghost predicate Dumpable(config: Config, p: Dumper, inputs: Inputs) {
    ThreadsWritable(config, p) && inputs.modules.succeeds && AllCopied(config, p) && inputs.systemInfo.succeeds
    && inputs.memoryInfo.succeeds
  }

  lemma {:induction false} RequiredSteps(exception: Section, config: Config, p: Dumper, size: nat, inputs: Inputs,
                                         e: nat)
    requires inputs.Valid() && exception.succeeds
    ensures GivesUpAt(e, config, p, size, inputs.modules, AllSteps(exception, Program(inputs))) ==>
      GivesUpIn(e, config, p, size, inputs)
    ensures NoneFailed(AllSteps(exception, Program(inputs))) ==>
      inputs.systemInfo.succeeds && inputs.memoryInfo.succeeds
  {
    var all, steps := AllSteps(exception, Program(inputs)), Program(inputs);
    assert all[1] == steps[0] && all[2] == steps[1];
    assert forall i :: 3 <= i < |all| ==> all[i] == steps[i - 1];
  }

  /** All streams of the program, behind header and directory. */
  method WriteProgram(dir: DirSection, buffer: Buffer, config: Config, p: Dumper, inputs: Inputs, ghost frame: Frame)
    returns (ok: bool)
    requires Going(dir, buffer.inner, frame) && dir.entries == [] && |buffer.inner| == STREAMS_START
    requires p.page > 0 && (config.sanitize ==> Sanitizer.Sound(p.mappings))
    requires forall m :: m in p.mappings ==> m.End() < U64_LIMIT
    requires config.memoryBlocks == [] && config.crashing == NoContext && inputs.Valid() && frame == FrameFor(inputs)
    modifies dir, dir.destination, buffer, config`memoryBlocks, config`crashing
    ensures GoodLog(dir.log, dir.initial, dir.startOffset, frame)
    ensures HeadKept(old(dir.destination.bytes), dir.destination.bytes, dir.startOffset)
    ensures Intact(dir, old(dir.destination.failures))
    ensures !ok && dir.destination.failures == old(dir.destination.failures) ==>
      GivesUpIn(|dir.entries|, config, p, |buffer.inner|, inputs)
    ensures ok ==> Dumpable(config, p, inputs)
    ensures ok && dir.destination.failures == old(dir.destination.failures) ==> HandlesShown(dir.log, inputs.handleData)
    ensures ok ==>
      Ends(dir.log, config, TakenBy(config), p, inputs.modules, SectionsFor(inputs, config, config.crashing))
  {
    ghost var taken, all;
    ok, taken, all := WriteAllStreams(dir, buffer, config, p, inputs.modules, inputs.siginfo, Program(inputs),
                                      inputs.handleData, frame);
    assert SectionsFor(inputs, config, taken.crashing) == SectionsOf(all);
    RequiredSteps(ExceptionSection(config, inputs.siginfo, taken.crashing), config, p, |buffer.inner|, inputs,
                  |dir.entries|);
  }

  /**
   * The whole program. However it ends, every flush it completed below 4 GiB left a readable dump
   * behind what the destination held before, and the last one still stands there. Unless the
   * destination failed, it holds exactly the last flush, and the run was given up, if at all, at a
   * required stream. When it succeeds, the last flush is complete.
   */
  method GenerateDump(config: Config, buffer: Buffer, p: Dumper, destination: Destination, inputs: Inputs)
    returns (ok: bool, ghost log: seq<Snapshot>)
    requires buffer.inner == [] && config.memoryBlocks == [] && config.crashing == NoContext && inputs.Valid()
    requires p.page > 0 && (config.sanitize ==> Sanitizer.Sound(p.mappings))
    requires forall m :: m in p.mappings ==> m.End() < U64_LIMIT
    modifies config`memoryBlocks, config`crashing, buffer, destination
    ensures GoodLog(log, old(destination.bytes), old(destination.pos), FrameFor(inputs))
    ensures HeadKept(old(destination.bytes), destination.bytes, old(destination.pos))
    ensures Stands(destination.bytes, log, old(destination.pos))
    ensures destination.failures == old(destination.failures) ==>
      log != [] && destination.bytes == log[|log| - 1].file
    ensures !ok && destination.failures == old(destination.failures) ==>
      GivesUpIn(|log[|log| - 1].entries|, config, p, |buffer.inner|, inputs)
    ensures ok ==> Dumpable(config, p, inputs)
    ensures ok && destination.failures == old(destination.failures) ==> HandlesShown(log, inputs.handleData)
    ensures ok ==>
      Ends(log, config, TakenBy(config), p, inputs.modules, SectionsFor(inputs, config, config.crashing))
  {
    var dir;
    ghost var frame, failures := FrameFor(inputs), destination.failures;
    ok, dir := Begin(buffer, destination, inputs.time, frame);
    log := if dir.Some? then dir.value.log else [];
    if !ok {
      return;
    }
    ghost var file, since := destination.bytes, destination.failures;
    ok := WriteProgram(dir.value, buffer, config, p, inputs, frame);
    log := dir.value.log;
    HeadKeptOn(old(destination.bytes), file, destination.bytes, dir.value.startOffset);
    IntactSince(dir.value, failures, since);
  }
}
