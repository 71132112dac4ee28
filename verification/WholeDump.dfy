/**
 * Mapping pipeline and dump together: for every orderly target, what is left in the destination is
 * a readable dump, and a complete one shows each thread's stack with all addresses of code and stack
 * on it, whatever the sanitiser removed.
 */
module WholeDump {
  import opened Bytes
  import opened Format
  import opened DumpBuffer
  import opened DirSection
  import opened ThreadList
  import opened DumpLog
  import opened Sections
  import opened GenerateDump
  import opened Pipeline
  import opened DumpReader
  import opened Sanitizer
  import opened ThreadNames
  import opened Maps
  import opened Android
  import Aggregation
  import MemReader

  /** Target memory where a record says the stack of its thread is. */
  function StackMemory(p: Dumper, r: Thread): (s: seq<byte>)
    ensures |s| == r.stack.memory.dataSize
  {
    MemReader.Slice(p.memory, r.stack.start, r.stack.memory.dataSize)
  }

  /** Offset of the stack pointer in the stack that is shown. */
  function PointerOffset(r: Thread, sp: nat): nat { Max(sp - r.stack.start, 0) }

  /** Whole word b of the stack, counted from the stack pointer, stands unchanged in the dump. */
  predicate WordIsKept(image: seq<byte>, r: Thread, p: Dumper, b: nat)
    requires b + WORD <= r.stack.memory.dataSize
  {
    Stored(image, r.stack.memory.rva + b, StackMemory(p, r)[b..b + WORD])
  }

  /** The word is a code address of the target, or an address in the row that holds the stack pointer. */
  ghost predicate IsAddress(t: Target, sp: nat, word: nat) {
    InExecutableRow(t.Rows(), word) || InOneRow(t.Rows(), sp, word)
  }

  ghost predicate KeepsAddresses(image: seq<byte>, r: Thread, sp: nat, t: Target, p: Dumper) {
    forall b ::
      IsWord(StackMemory(p, r), PointerOffset(r, sp), b) && IsAddress(t, sp, Word(StackMemory(p, r), b)) ==>
        WordIsKept(image, r, p, b)
  }

  lemma {:induction false} AddressIsKept(t: Target, sp: nat, word: nat)
    requires t.Orderly() && IsAddress(t, sp, word)
    ensures PlainlyKept(t.Table(), sp, word)
  {
    if InExecutableRow(t.Rows(), word) {
      CodeAddressIsKept(t, sp, word);
    } else {
      TableIsSound(t);
      RowIsShared(t, sp, word);
      KeptIff(t.Table(), sp, word);
    }
  }

  lemma {:induction false} PartIsStored(image: seq<byte>, at: nat, s: seq<byte>, b: nat, w: nat)
    requires Stored(image, at, s) && b + w <= |s|
    ensures Stored(image, at + b, s[b..b + w])
  {
    SliceOfSlice(image, at, at + |s|, b, b + w);
  }

  /** What the dump shows of one word: the word, or the filler when stacks are sanitised. */
  lemma {:induction false} WordShown(image: seq<byte>, at: nat, sanitize: bool, p: Dumper, raw: seq<byte>, start: nat,
                                     sp: nat, b: nat)
    requires Stored(image, at, StackBytes(sanitize, p, raw, start, sp)) && IsWord(raw, Max(sp - start, 0), b)
    ensures Stored(image, at + b,
                   if !sanitize || PlainlyKept(p.mappings, sp, Word(raw, b)) then raw[b..b + WORD] else DEFACED)
  {
    PartIsStored(image, at, StackBytes(sanitize, p, raw, start, sp), b, WORD);
    if sanitize {
      WordOutcome(p.mappings, raw, sp, Max(sp - start, 0), b);
    }
  }

  lemma {:induction false} AddressShown(t: Target, image: seq<byte>, sanitize: bool, p: Dumper, r: Thread, sp: nat,
                                        b: nat)
    requires t.Orderly() && p.mappings == t.Table()
    requires Stored(image, r.stack.memory.rva, StackBytes(sanitize, p, StackMemory(p, r), r.stack.start, sp))
    requires IsWord(StackMemory(p, r), PointerOffset(r, sp), b) && IsAddress(t, sp, Word(StackMemory(p, r), b))
    ensures WordIsKept(image, r, p, b)
  {
    WordShown(image, r.stack.memory.rva, sanitize, p, StackMemory(p, r), r.stack.start, sp, b);
    AddressIsKept(t, sp, Word(StackMemory(p, r), b));
  }

  lemma {:induction false} OnlyAddressShown(t: Target, image: seq<byte>, p: Dumper, r: Thread, sp: nat, b: nat)
    requires t.Orderly() && p.mappings == t.Table()
    requires Stored(image, r.stack.memory.rva, StackBytes(true, p, StackMemory(p, r), r.stack.start, sp))
    requires IsWord(StackMemory(p, r), PointerOffset(r, sp), b)
    ensures var word := Word(StackMemory(p, r), b);
            Stored(image, r.stack.memory.rva + b, DEFACED)
            || (WordIsKept(image, r, p, b) && (word <= SMALL_INT_MAGNITUDE || Aggregation.InRows(t.Rows(), word)))
  {
    WordShown(image, r.stack.memory.rva, true, p, StackMemory(p, r), r.stack.start, sp, b);
    if PlainlyKept(p.mappings, sp, Word(StackMemory(p, r), b)) {
      KeptWordIsMapped(t, sp, Word(StackMemory(p, r), b));
    }
  }

  /** In the record of a thread the dump shows every address of code and of the stack that is on the stack. */
  lemma {:induction false} StackKeepsAddresses(t: Target, p: Dumper, config: Config, r: Thread, source: ThreadSource,
                                               image: seq<byte>, from: nat)
    requires t.Orderly() && p.mappings == t.Table() && ThreadShown(r, source, image, config, p, from)
    ensures KeepsAddresses(image, r, RegistersOf(config, source).value.sp, t, p)
  {
    var sp := RegistersOf(config, source).value.sp;
    assert Stored(image, r.stack.memory.rva, StackBytes(config.sanitize, p, StackMemory(p, r), r.stack.start, sp));
    var raw := StackMemory(p, r);
    forall b | IsWord(raw, PointerOffset(r, sp), b) && IsAddress(t, sp, Word(raw, b))
      ensures WordIsKept(image, r, p, b)
    {
      AddressShown(t, image, config.sanitize, p, r, sp, b);
    }
  }

  /** A sanitised stack shows nothing but small numbers, mapped addresses and the filler. */
  lemma {:induction false} StackShowsOnlyAddresses(t: Target, p: Dumper, config: Config, r: Thread,
                                                   source: ThreadSource, image: seq<byte>, from: nat, b: nat)
    requires t.Orderly() && p.mappings == t.Table() && ThreadShown(r, source, image, config, p, from) && config.sanitize
    requires IsWord(StackMemory(p, r), PointerOffset(r, RegistersOf(config, source).value.sp), b)
    ensures var word := Word(StackMemory(p, r), b);
            Stored(image, r.stack.memory.rva + b, DEFACED)
            || (WordIsKept(image, r, p, b) && (word <= SMALL_INT_MAGNITUDE || Aggregation.InRows(t.Rows(), word)))
  {
    OnlyAddressShown(t, image, p, r, RegistersOf(config, source).value.sp, b);
  }

  /** The record in slot i of the thread list keeps the addresses on its stack. */
  ghost predicate SlotKeeps(image: seq<byte>, bytes: seq<byte>, i: nat, config: Config, t: Target, p: Dumper)
    requires i < |p.threads| && 4 + THREAD_SIZE * |p.threads| <= |bytes|
  {
    var regs := RegistersOf(config, p.threads[i]);
    regs.Some? && KeepsAddresses(image, ThreadAt(bytes, 4 + THREAD_SIZE * i), regs.value.sp, t, p)
  }

  /** The list of threads at entry d keeps the addresses on every stack. */
  ghost predicate AllKeepAddresses(image: seq<byte>, d: Directory, taken: Taken, config: Config, t: Target, p: Dumper)
    requires ThreadsShown(image, d, taken, config, p)
  {
    var bytes := image[d.location.rva..d.location.rva + d.location.dataSize];
    forall i :: 0 <= i < |p.threads| ==> SlotKeeps(image, bytes, i, config, t, p)
  }

  lemma {:induction false} SlotKeepsAddresses(image: seq<byte>, bytes: seq<byte>, i: nat, config: Config, t: Target,
                                              p: Dumper, end: nat)
    requires t.Orderly() && p.mappings == t.Table()
    requires i < |p.threads| && 4 + THREAD_SIZE * |p.threads| <= |bytes| && SlotShown(bytes, i, image, config, p, end)
    ensures SlotKeeps(image, bytes, i, config, t, p)
  {
    var r := ThreadAt(bytes, 4 + THREAD_SIZE * i);
    assert ThreadShown(r, p.threads[i], image, config, p, end);
    StackKeepsAddresses(t, p, config, r, p.threads[i], image, end);
  }

  lemma {:induction false} ThreadsKeepAddresses(image: seq<byte>, d: Directory, taken: Taken, config: Config,
                                                t: Target, p: Dumper)
    requires t.Orderly() && p.mappings == t.Table() && ThreadsShown(image, d, taken, config, p)
    ensures AllKeepAddresses(image, d, taken, config, t, p)
  {
    var lo, hi := d.location.rva, d.location.rva + d.location.dataSize;
    assert ReadsBack(image[lo..hi], hi, image, config, p);
    forall i | 0 <= i < |p.threads| ensures SlotKeeps(image, image[lo..hi], i, config, t, p) {
      SlotKeepsAddresses(image, image[lo..hi], i, config, t, p, hi);
    }
  }

  // ---- The exception names the context of the blamed thread ----

  /** The context that a reader of the exception stream at d is led to. */
  function ExceptionContext(image: seq<byte>, d: Directory): Location
    requires d.location.rva + EXCEPTION_SIZE <= |image|
  {
    DecodeLocation(image[d.location.rva + 160..d.location.rva + 168])
  }

  lemma {:induction false} RegistersKnown(bytes: seq<byte>, end: nat, image: seq<byte>, config: Config, p: Dumper,
                                          i: nat)
    requires ReadsBack(bytes, end, image, config, p) && i < |p.threads|
    ensures RegistersOf(config, p.threads[i]).Some?
  {
    assert SlotShown(bytes, i, image, config, p, end);
  }

  lemma {:induction false} ExceptionLeads(image: seq<byte>, d: Directory, config: Config, siginfo: Siginfo,
                                          crashing: CrashingContext)
    requires SectionShown(image, d, ExceptionSection(config, siginfo, crashing))
    ensures d.location.rva + EXCEPTION_SIZE <= |image|
    ensures ExceptionContext(image, d) == if crashing.NoContext? then NO_LOCATION else crashing.location
  {
    var s := ExceptionSection(config, siginfo, crashing);
    assert s.Shown() == s.bytes;
    ExceptionReads(image, d.location.rva, ExceptionOf(config, siginfo, crashing));
  }

  lemma {:induction false} ListNotesBlamed(bytes: seq<byte>, end: nat, image: seq<byte>, taken: Taken, config: Config,
                                           p: Dumper, i: nat)
    requires ListShown(bytes, end, image, taken.blocks, 0, taken.crashing, NoContext, config, p)
    requires i <= |p.threads| && forall j :: i <= j < |p.threads| ==> !IsBlamed(config, p.threads[j])
    ensures i == 0 ==> taken.crashing == NoContext
    ensures i > 0 && IsBlamed(config, p.threads[i - 1]) ==>
      !taken.crashing.NoContext?
      && taken.crashing.location == ThreadAt(bytes, 4 + THREAD_SIZE * (i - 1)).context
  {
    forall j | 0 <= j < |p.threads| ensures RegistersOf(config, p.threads[j]).Some? {
      RegistersKnown(bytes, end, image, config, p, j);
    }
    BlamedIsNoted(config, p.threads, RecordsAt(bytes, |p.threads|), NoContext, i);
  }

  /**
   * In a dump that shows its threads and the exception, the exception leads to the context in the
   * record of the last blamed thread, and to none when no thread is blamed.
   */
  lemma {:induction false} ExceptionNamesBlamed(image: seq<byte>, threads: Directory, exception: Directory,
                                                config: Config, siginfo: Siginfo, taken: Taken, p: Dumper, i: nat)
    requires ThreadsShown(image, threads, taken, config, p)
    requires SectionShown(image, exception, ExceptionSection(config, siginfo, taken.crashing))
    requires i <= |p.threads| && forall j :: i <= j < |p.threads| ==> !IsBlamed(config, p.threads[j])
    ensures exception.location.rva + EXCEPTION_SIZE <= |image|
    ensures i == 0 ==> ExceptionContext(image, exception) == NO_LOCATION
    ensures i > 0 && IsBlamed(config, p.threads[i - 1]) ==>
      var bytes := image[threads.location.rva..threads.location.rva + threads.location.dataSize];
      |bytes| == 4 + THREAD_SIZE * |p.threads|
      && ExceptionContext(image, exception) == ThreadAt(bytes, 4 + THREAD_SIZE * (i - 1)).context
  {
    var lo, hi := threads.location.rva, threads.location.rva + threads.location.dataSize;
    ExceptionLeads(image, exception, config, siginfo, taken.crashing);
    ListNotesBlamed(image[lo..hi], hi, image, taken, config, p, i);
  }

  /** The exception of a complete dump is its fourth entry. */
  lemma {:induction false} ExceptionIsFourth(image: seq<byte>, entries: seq<Directory>, config: Config, taken: Taken,
                                             p: Dumper, inputs: Inputs)
    requires inputs.Valid() && |image| < U32_LIMIT
    requires Complete(image, entries, config, taken, p, inputs.modules, SectionsFor(inputs, config, taken.crashing))
    ensures ThreadsShown(image, entries[0], taken, config, p)
    ensures SectionShown(image, entries[3], ExceptionSection(config, inputs.siginfo, taken.crashing))
  {
    var sections := SectionsFor(inputs, config, taken.crashing);
    assert sections[0] == ExceptionSection(config, inputs.siginfo, taken.crashing);
    assert SectionShown(image, entries[3 + 0], sections[0]);
  }

  // ---- From the rows of the target to its dump ----

  /** The mappings as the program finds them: enumerated, and biased on Android. */
  method FindMappings(t: Target, checked: bool) returns (mappings: seq<MappingInfo>, faulted: bool)
    requires t.Orderly()
    ensures faulted <==> checked && t.android && AnyFaults(t.Modules(), t.probe)
    ensures !faulted ==> mappings == t.Table()
  {
    mappings := EnumerateMappings(t.raws, t.gate, t.entry);
    faulted := false;
    if t.android {
      AggregatedIsSound(t.Rows());
      EntryFirstSound(Aggregated(t.Rows()), t.entry);
      var table := new MappingInfo[|mappings|](i requires 0 <= i < |mappings| => mappings[i]);
      assert table[..] == mappings;
      faulted := LateProcessMappings(table, t.probe, checked);
      mappings := table[..];
    }
  }

  /** Which thread names can be read from a finished dump. */
  ghost predicate NamesReadable(image: seq<byte>, d: Directory, threads: seq<ThreadSource>) {
    ListsNames(image, d.location.rva, threads) <==> NamedFirst(threads)
  }

  /** A complete dump; below 4 GiB it keeps all addresses on the stacks, and a reader finds every stream. */
  ghost predicate ShowsTarget(log: seq<Snapshot>, config: Config, taken: Taken, t: Target, p: Dumper, inputs: Inputs)
    requires inputs.Valid()
  {
    Ends(log, config, taken, p, inputs.modules, SectionsFor(inputs, config, taken.crashing))
    && var s := log[|log| - 1];
    (|s.image| < U32_LIMIT ==>
       AllKeepAddresses(s.image, s.entries[0], taken, config, t, p) && NamesReadable(s.image, s.entries[15], p.threads)
       && DumpReads(s.image, config, p, inputs))
  }

  lemma {:induction false} CompleteShows(image: seq<byte>, entries: seq<Directory>, config: Config, taken: Taken,
                                         t: Target, p: Dumper, modules: Section, sections: seq<Section>)
    requires modules.Valid() && AllValid(sections) && |image| < U32_LIMIT
    requires Complete(image, entries, config, taken, p, modules, sections)
    requires t.Orderly() && p.mappings == t.Table()
    ensures AllKeepAddresses(image, entries[0], taken, config, t, p) && NamesReadable(image, entries[15], p.threads)
  {
    ThreadsKeepAddresses(image, entries[0], taken, config, t, p);
    NamesReadBackIff(image, entries[15].location.rva, p.threads);
  }

  lemma {:induction false} EndShowsTarget(log: seq<Snapshot>, config: Config, taken: Taken, t: Target, p: Dumper,
                                          inputs: Inputs)
    requires inputs.Valid() && t.Orderly() && p.mappings == t.Table()
    requires Ends(log, config, taken, p, inputs.modules, SectionsFor(inputs, config, taken.crashing))
    requires |log[|log| - 1].image| < U32_LIMIT ==>
      Sealed(log[|log| - 1].image, log[|log| - 1].entries, EncodeHeader(HeaderFor(inputs.time)))
    ensures ShowsTarget(log, config, taken, t, p, inputs)
  {
    var s := log[|log| - 1];
    if |s.image| < U32_LIMIT {
      TableIsSound(t);
      FinishedReads(s.image, s.entries, config, taken, p, inputs);
      CompleteShows(s.image, s.entries, config, taken, t, p, inputs.modules,
                    SectionsFor(inputs, config, taken.crashing));
    }
  }

  /**
   * From the rows of an orderly target to its dump, with no assumption about the mappings. However the
   * run ends, the last flush that it completed below 4 GiB stands in the destination; unless the
   * destination failed, it holds nothing else behind what was there before. When the run succeeds that
   * flush keeps the code and stack addresses on all stacks, a reader finds every stream in it, and its
   * thread names read back if and only if threads without a name come last.
   */
  method DumpTarget(t: Target, checked: bool, threads: seq<ThreadSource>, page: nat, memory: MemReader.Memory,
                    config: Config, buffer: Buffer, destination: Destination, inputs: Inputs)
    returns (ok: bool, p: Dumper, ghost log: seq<Snapshot>)
    requires t.Orderly() && page > 0
    requires buffer.inner == [] && config.memoryBlocks == [] && config.crashing == NoContext && inputs.Valid()
    modifies config`memoryBlocks, config`crashing, buffer, destination
    ensures GoodLog(log, old(destination.bytes), old(destination.pos), FrameFor(inputs))
    ensures HeadKept(old(destination.bytes), destination.bytes, old(destination.pos))
    ensures Stands(destination.bytes, log, old(destination.pos))
    ensures log == [] && destination.failures == old(destination.failures) ==>
      !ok && checked && t.android && AnyFaults(t.Modules(), t.probe) && destination.bytes == old(destination.bytes)
    ensures log != [] && destination.failures == old(destination.failures) ==>
      destination.bytes == log[|log| - 1].file
    ensures ok ==> log != [] && p == Dumper(threads, t.Table(), page, memory)
    ensures ok ==> ShowsTarget(log, config, TakenBy(config), t, p, inputs)
  {
    var mappings, faulted := FindMappings(t, checked);
    p, log := Dumper(threads, mappings, page, memory), [];
    if faulted {
      return false, p, log;
    }
    TableIsSound(t);
    ok, log := GenerateDump.GenerateDump(config, buffer, p, destination, inputs);
    if ok {
      EndShowsTarget(log, config, TakenBy(config), t, p, inputs);
    }
  }
}
