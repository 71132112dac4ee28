/**
 * The thread-list stream. The records of all threads are reserved first; stacks, code around the
 * crash and register contexts are appended while the records are filled in one by one.
 */
module ThreadList {
  import opened Bytes
  import opened Format
  import opened DumpBuffer
  import opened Maps
  import opened Sanitizer
  import StackInfo
  import MemReader

  /** Registers of a thread: instruction and stack pointer, and the image of its context record. */
  datatype Registers = Registers(ip: u64, sp: u64, cpu: seq<byte>)

  /** A suspended thread; its name may be unknown, and its registers could be read or not. */
  datatype ThreadSource = ThreadSource(tid: int, name: Option<string>, regs: Option<Registers>)

  datatype CrashingContext =
    | NoContext
    | CrashContext(location: Location)
    | CrashContextPlusAddress(location: Location, address: u64)

  /** Fault stands for an index or arithmetic check that fails in the program. */
  datatype Status = Success | Error | Fault

  const LIMIT_AVERAGE_THREAD_STACK_LENGTH := 8 * 1024
  const LIMIT_BASE_THREAD_COUNT := 20
  const LIMIT_MAX_EXTRA_THREAD_STACK_LEN := 2 * 1024
  const LIMIT_MINIDUMP_FUDGE_FACTOR := 64 * 1024
  const IP_MEMORY_SIZE := 256
  const THREAD_LIST_STREAM: u32 := 3

  /** The process that is dumped. */
  datatype Dumper = Dumper(threads: seq<ThreadSource>, mappings: seq<MappingInfo>, page: nat, memory: MemReader.Memory)

  class Config {
    const sizeLimit: Option<nat>
    const blamedThread: int
    const crashContext: Option<Registers>
    const skipUnreferenced: bool
    const principalMapping: Option<MappingInfo>
    const sanitize: bool
    const appMemory: seq<(u64, nat)>
    var memoryBlocks: seq<Descriptor>
    var crashing: CrashingContext

    constructor (sizeLimit: Option<nat>, blamedThread: int, crashContext: Option<Registers>, skipUnreferenced: bool,
                 principalMapping: Option<MappingInfo>, sanitize: bool, appMemory: seq<(u64, nat)>)
      ensures memoryBlocks == [] && crashing == NoContext
    {
      this.sizeLimit, this.blamedThread, this.crashContext := sizeLimit, blamedThread, crashContext;
      this.skipUnreferenced, this.principalMapping := skipUnreferenced, principalMapping;
      this.sanitize, this.appMemory := sanitize, appMemory;
      memoryBlocks, crashing := [], NoContext;
    }

    /** The thread whose registers come from the crash, not from the thread itself. */
    predicate HasCrashContext(t: ThreadSource) {
      crashContext.Some? && t.tid == blamedThread % U32_LIMIT
    }
  }

  // ---- Does a stack refer to the principal mapping? ----

  ghost predicate PointsInto(m: MappingInfo, copy: seq<byte>, spOffset: nat, at: nat) {
    Aligned(spOffset) <= at && (at - Aligned(spOffset)) % WORD == 0 && at + WORD <= |copy|
    && m.sys.start <= Word(copy, at) <= m.sys.end
  }

  /** A copy shorter than a word would underflow the loop bound. */
  method StackHasPointerToMapping(m: MappingInfo, copy: seq<byte>, spOffset: nat) returns (found: bool)
    requires |copy| >= WORD
    ensures found <==> exists at: nat :: PointsInto(m, copy, spOffset, at)
  {
    var offset := Aligned(spOffset);
    while offset <= |copy| - WORD
      invariant Aligned(spOffset) <= offset && (offset - Aligned(spOffset)) % WORD == 0
      invariant forall at: nat :: at < offset ==> !PointsInto(m, copy, spOffset, at)
      decreases |copy| - offset
    {
      var addr := Word(copy, offset);
      if m.sys.start <= addr <= m.sys.end {
        assert PointsInto(m, copy, spOffset, offset);
        return true;
      }
      offset := offset + WORD;
    }
    return false;
  }

  // ---- What a block of memory in the dump must show ----

  /** The registers a thread is shown with. */
  function RegistersOf(config: Config, source: ThreadSource): Option<Registers> {
    if config.HasCrashContext(source) then config.crashContext else source.regs
  }

  ghost predicate IsStackPointer(config: Config, p: Dumper, sp: nat) {
    exists i ::
      0 <= i < |p.threads| && RegistersOf(config, p.threads[i]).Some?
      && RegistersOf(config, p.threads[i]).value.sp == sp
  }

  /** Where the code around an instruction is copied from: its mapping bounds it. */
  function WindowStart(m: MappingInfo, ip: nat): int { Max(m.start, ip - IP_MEMORY_SIZE / 2) }

  function WindowEnd(m: MappingInfo, ip: nat): nat { Min(m.End(), ip + IP_MEMORY_SIZE / 2) }

  /** Addresses from which memory is copied as it is: around the crash, and for the application. */
  ghost predicate IsPlainStart(config: Config, p: Dumper, a: nat) {
    (exists i :: 0 <= i < |config.appMemory| && config.appMemory[i].0 == a)
    || (config.crashContext.Some?
        && var m := FindMapping(p.mappings, config.crashContext.value.ip);
        m.Some? && a == WindowStart(m.value, config.crashContext.value.ip))
  }

  /** The search from stack pointer sp finds a stack at `start`. */
  ghost predicate BeginsStack(p: Dumper, sp: nat, start: nat) {
    p.page > 0
    && exists info, k :: StackInfo.Locates(p.mappings, p.page, sp, info, k) && info.Found? && info.pointer == start
  }

  /** The target, whether its stacks are sanitised, its stack pointers, and where plain copies start. */
  datatype View = View(dumper: Dumper, sanitize: bool, pointers: iset<nat>, plain: iset<nat>)

  ghost function ViewOf(config: Config, p: Dumper): View {
    View(p, config.sanitize, iset sp: nat | IsStackPointer(config, p, sp), iset a: nat | IsPlainStart(config, p, a))
  }

  /** What is shown of memory copied from `start` for a thread whose stack pointer is sp. */
  function StackBytes(sanitize: bool, p: Dumper, raw: seq<byte>, start: nat, sp: nat): (s: seq<byte>)
    ensures |s| == |raw|
  {
    if sanitize then PlainlySanitized(p.mappings, raw, sp, Max(sp - start, 0)) else raw
  }

  /**
   * What was copied from address `start`: memory as it is, where that is called for; or the stack of
   * some thread, which is sanitised if stacks are.
   */
  ghost predicate Copied(bytes: seq<byte>, start: nat, v: View) {
    var raw := MemReader.Slice(v.dumper.memory, start, |bytes|);
    (start in v.plain && bytes == raw)
    || exists sp :: sp in v.pointers && BeginsStack(v.dumper, sp, start)
                    && bytes == StackBytes(v.sanitize, v.dumper, raw, start, sp)
  }

  /** The bytes at the descriptor were copied from the address it names. */
  ghost predicate Faithful(d: Descriptor, image: seq<byte>, v: View) {
    d.memory.rva + d.memory.dataSize <= |image|
    && Copied(image[d.memory.rva..d.memory.rva + d.memory.dataSize], d.start, v)
  }

  // ---- The layout invariant ----

  /** All blocks recorded so far show target memory. */
  ghost predicate BlocksFaithful(blocks: seq<Descriptor>, image: seq<byte>, v: View) {
    forall i :: 0 <= i < |blocks| ==> Faithful(blocks[i], image, v)
  }

  /** Slots hold the records filled so far, and every block lies clear of the slots. */
  ghost predicate Layout(image: seq<byte>, base: nat, n: nat, records: seq<Thread>, blocks: seq<Descriptor>, v: View)
  {
    && |records| <= n && base + THREAD_SIZE * n <= |image|
    && RecordsStored(image, base, records)
    && BlocksFaithful(blocks, image, v)
    && forall i :: 0 <= i < |blocks| ==> Clear(blocks[i].memory, base, base + THREAD_SIZE * n)
  }

  ghost predicate RecordsStored(image: seq<byte>, base: nat, records: seq<Thread>) {
    forall i :: 0 <= i < |records| ==> Stored(image, base + THREAD_SIZE * i, EncodeThread(records[i]))
  }

  predicate Clear(l: Location, lo: nat, hi: nat) {
    l.rva + l.dataSize <= lo || hi <= l.rva
  }

  lemma {:induction false} FaithfulAppend(d: Descriptor, image: seq<byte>, more: seq<byte>, v: View)
    requires Faithful(d, image, v)
    ensures Faithful(d, image + more, v)
  {
    var lo, hi := d.memory.rva, d.memory.rva + d.memory.dataSize;
    assert (image + more)[lo..hi] == image[lo..hi];
  }

  lemma {:induction false} FaithfulPut(d: Descriptor, image: seq<byte>, at: nat, w: seq<byte>, v: View)
    requires Faithful(d, image, v) && at <= |image| && Clear(d.memory, at, at + |w|)
    ensures Faithful(d, Put(image, at, w), v)
  {
    var lo, hi := d.memory.rva, d.memory.rva + d.memory.dataSize;
    PutKeepsStored(image, at, w, lo, image[lo..hi]);
  }

  /**
   * The dump grew by appending only, and every descriptor recorded meanwhile shows target memory
   * in the part that was added (as long as positions fit in 32 bits).
   */
  ghost predicate Grows(image: seq<byte>, image': seq<byte>, blocks: seq<Descriptor>, blocks': seq<Descriptor>,
                        v: View)
  {
    image <= image' && blocks <= blocks'
    && (|image'| < U32_LIMIT ==>
          forall i :: |blocks| <= i < |blocks'| ==>
            Faithful(blocks'[i], image', v) && |image| <= blocks'[i].memory.rva)
  }

  lemma {:induction false} BlockShown(image: seq<byte>, bytes: seq<byte>, d: Descriptor, v: View)
    requires Copied(bytes, d.start, v) && d.memory.rva == |image| && d.memory.dataSize == |bytes|
    ensures Faithful(d, image + bytes, v)
  {
    AppendedIsStored(image, bytes);
    StoredIsFaithful(image + bytes, bytes, d, v);
  }

  lemma {:induction false} StoredIsFaithful(image: seq<byte>, bytes: seq<byte>, d: Descriptor, v: View)
    requires Copied(bytes, d.start, v) && d.memory.dataSize == |bytes| && Stored(image, d.memory.rva, bytes)
    ensures Faithful(d, image, v)
  {
    var shown := image[d.memory.rva..d.memory.rva + d.memory.dataSize];
    assert shown == bytes;
  }

  lemma {:induction false} GrowsBy(image: seq<byte>, image': seq<byte>, d: Descriptor, blocks: seq<Descriptor>,
                                   v: View)
    requires image <= image' && (|image'| < U32_LIMIT ==> Faithful(d, image', v) && |image| <= d.memory.rva)
    ensures Grows(image, image', blocks, blocks + [d], v)
  {
  }

  lemma {:induction false} GrowsByBlock(image: seq<byte>, bytes: seq<byte>, d: Descriptor, blocks: seq<Descriptor>,
                                        v: View)
    requires Copied(bytes, d.start, v)
    requires d.memory == Location(U32(|bytes|), U32(|image|))
    ensures Grows(image, image + bytes, blocks, blocks + [d], v)
  {
    if |image + bytes| < U32_LIMIT {
      BlockShown(image, bytes, d, v);
    }
    GrowsBy(image, image + bytes, d, blocks, v);
  }

  lemma {:induction false} GrowsOn(a: seq<byte>, b: seq<byte>, c: seq<byte>, x: seq<Descriptor>, y: seq<Descriptor>,
                                   z: seq<Descriptor>, v: View)
    requires Grows(a, b, x, y, v) && Grows(b, c, y, z, v)
    ensures Grows(a, c, x, z, v)
  {
    if |c| < U32_LIMIT {
      forall i | |x| <= i < |z| ensures Faithful(z[i], c, v) && |a| <= z[i].memory.rva {
        if i < |y| {
          assert z[i] == y[i] && c == b + c[|b|..];
          FaithfulAppend(y[i], b, c[|b|..], v);
        }
      }
    }
  }

  lemma {:induction false} LayoutGrows(image: seq<byte>, image': seq<byte>, base: nat, n: nat, records: seq<Thread>,
                                       blocks: seq<Descriptor>, blocks': seq<Descriptor>, v: View)
    requires Layout(image, base, n, records, blocks, v) && |image'| < U32_LIMIT
    requires Grows(image, image', blocks, blocks', v)
    ensures Layout(image', base, n, records, blocks', v)
  {
    var more := image'[|image|..];
    assert image' == image + more;
    forall i | 0 <= i < |records|
      ensures Stored(image', base + THREAD_SIZE * i, EncodeThread(records[i]))
    {
      AppendKeepsStored(image, more, base + THREAD_SIZE * i, EncodeThread(records[i]));
    }
    forall i | 0 <= i < |blocks| ensures blocks'[i] == blocks[i] && Faithful(blocks[i], image', v) {
      FaithfulAppend(blocks[i], image, more, v);
    }
  }

  lemma {:induction false} SlotKeepsRecords(image: seq<byte>, w: seq<byte>, base: nat, n: nat, records: seq<Thread>,
                                            blocks: seq<Descriptor>, v: View)
    requires Layout(image, base, n, records, blocks, v)
    ensures forall i :: 0 <= i < |records| ==>
      Stored(Put(image, base + THREAD_SIZE * |records|, w), base + THREAD_SIZE * i, EncodeThread(records[i]))
  {
  }

  lemma {:induction false} SlotKeepsBlocks(image: seq<byte>, w: seq<byte>, base: nat, n: nat, records: seq<Thread>,
                                           blocks: seq<Descriptor>, v: View)
    requires Layout(image, base, n, records, blocks, v) && |records| < n && |w| == THREAD_SIZE
    ensures BlocksFaithful(blocks, Put(image, base + THREAD_SIZE * |records|, w), v)
  {
    forall i | 0 <= i < |blocks| ensures Faithful(blocks[i], Put(image, base + THREAD_SIZE * |records|, w), v) {
      FaithfulPut(blocks[i], image, base + THREAD_SIZE * |records|, w, v);
    }
  }

  /** Filling the next slot keeps the layout. */
  lemma {:induction false} LayoutSlot(image: seq<byte>, t: Thread, base: nat, n: nat, records: seq<Thread>,
                                      blocks: seq<Descriptor>, v: View)
    requires Layout(image, base, n, records, blocks, v) && |records| < n
    ensures Layout(Put(image, base + THREAD_SIZE * |records|, EncodeThread(t)), base, n, records + [t], blocks, v)
  {
    SlotKeepsRecords(image, EncodeThread(t), base, n, records, blocks, v);
    SlotKeepsBlocks(image, EncodeThread(t), base, n, records, blocks, v);
    PutIsLocal(image, base + THREAD_SIZE * |records|, EncodeThread(t));
  }

  // ---- One stack ----

  /** Sanitises a copy of a stack, unless the aligned stack pointer lies beyond its end. */
  method Sanitized(mappings: seq<MappingInfo>, bytes: seq<byte>, sp: nat, spOffset: nat)
    returns (r: Option<seq<byte>>)
    requires Sound(mappings)
    ensures r.None? <==> Aligned(spOffset) > |bytes|
    ensures r.Some? ==> r.value == PlainlySanitized(mappings, bytes, sp, spOffset)
  {
    if Aligned(spOffset) > |bytes| {
      return None;
    }
    var copy := new byte[|bytes|](i requires 0 <= i < |bytes| => bytes[i]);
    assert copy[..] == bytes;
    SanitizeStackCopy(mappings, copy, sp, spOffset);
    r := Some(copy[..]);
  }

  /** Stacks are filtered, the thread does not run in the principal mapping, nor does its stack refer to it. */
  ghost predicate Unreferenced(config: Config, ip: nat, raw: seq<byte>, spOffset: nat) {
    config.skipUnreferenced
    && (config.principalMapping.None?
        || (Outside(config, ip) && !exists at: nat :: PointsInto(config.principalMapping.value, raw, spOffset, at)))
  }

  predicate Outside(config: Config, ip: nat) {
    config.principalMapping.Some?
    && (ip < config.principalMapping.value.sys.start || ip > config.principalMapping.value.sys.end)
  }

  /** The decision to leave out a stack; looking for pointers faults on a copy shorter than a word. */
  method SkipsStack(config: Config, ip: nat, raw: seq<byte>, spOffset: nat) returns (st: Status, skip: bool)
    ensures st == if config.skipUnreferenced && Outside(config, ip) && |raw| < WORD then Fault else Success
    ensures st.Success? ==> skip == Unreferenced(config, ip, raw, spOffset)
  {
    if !config.skipUnreferenced {
      return Success, false;
    }
    if config.principalMapping.None? {
      return Success, true;
    }
    var m := config.principalMapping.value;
    if ip < m.sys.start || ip > m.sys.end {
      if |raw| < WORD {
        return Fault, false;
      }
      var found := StackHasPointerToMapping(m, raw, spOffset);
      return Success, !found;
    }
    return Success, false;
  }

  /** What becomes of a stack found at `pointer` of which `raw` could be copied. */
  ghost predicate StackDumped(st: Status, stack: Descriptor, config: Config, p: Dumper, ip: nat, sp: u64,
                              pointer: nat, raw: seq<byte>, image: seq<byte>, image': seq<byte>,
                              blocks: seq<Descriptor>, blocks': seq<Descriptor>)
  {
    var off := Max(sp - pointer, 0);
    var shown := StackBytes(config.sanitize, p, raw, pointer, sp);
    if config.skipUnreferenced && Outside(config, ip) && |raw| < WORD
    then st == Fault && image' == image && blocks' == blocks
    else if Unreferenced(config, ip, raw, off) then st == Success && Undumped(stack, sp, image, image', blocks, blocks')
    else if config.sanitize && Aligned(off) > |raw| then st == Fault && image' == image && blocks' == blocks
    else
      st == Success && image' == image + shown && blocks' == blocks + [stack]
      && stack.start == pointer && stack.memory == Location(U32(|raw|), U32(|image|))
  }

  ghost predicate Undumped(stack: Descriptor, sp: u64, image: seq<byte>, image': seq<byte>, blocks: seq<Descriptor>,
                           blocks': seq<Descriptor>)
  {
    image' == image && blocks' == blocks && stack == Descriptor(sp, Location(0, U32(|image|)))
  }

  method DumpStackCopy(config: Config, buffer: Buffer, p: Dumper, ip: u64, sp: u64, pointer: u64, raw: seq<byte>)
    returns (st: Status, stack: Descriptor)
    requires config.sanitize ==> Sound(p.mappings)
    modifies config`memoryBlocks, buffer
    ensures StackDumped(st, stack, config, p, ip, sp, pointer, raw, old(buffer.inner), buffer.inner,
                        old(config.memoryBlocks), config.memoryBlocks)
  {
    stack := Descriptor(sp, Location(0, U32(|buffer.inner|)));
    var bytes, spOffset := raw, Max(sp - pointer, 0);
    var skip;
    st, skip := SkipsStack(config, ip, bytes, spOffset);
    if st.Fault? || skip {
      return;
    }
    if config.sanitize {
      var clean := Sanitized(p.mappings, bytes, sp, spOffset);
      if clean.None? {
        return Fault, stack;
      }
      bytes := clean.value;
    }
    var location := Location(U32(|bytes|), U32(|buffer.inner|));
    buffer.WriteAll(bytes);
    stack := Descriptor(pointer, location);
    config.memoryBlocks := config.memoryBlocks + [stack];
  }

  lemma {:induction false} ShownIsCopied(raw: seq<byte>, start: nat, sp: nat, v: View)
    requires raw == MemReader.Slice(v.dumper.memory, start, |raw|)
    requires sp in v.pointers && BeginsStack(v.dumper, sp, start)
    ensures Copied(StackBytes(v.sanitize, v.dumper, raw, start, sp), start, v)
  {
  }

  lemma {:induction false} AppendedStackIsShown(d: Descriptor, sp: nat, image: seq<byte>, raw: seq<byte>,
                                                config: Config, p: Dumper)
    requires raw == MemReader.Slice(p.memory, d.start, |raw|)
    requires d.memory.rva == |image| && d.memory.dataSize == |raw|
    ensures StackShown(d, sp, image + StackBytes(config.sanitize, p, raw, d.start, sp), config, p)
  {
  }

  /** What a dumped stack adds to the dump, whichever way its bytes were chosen. */
  lemma {:induction false} DumpedStackGrows(st: Status, stack: Descriptor, config: Config, p: Dumper, ip: nat,
                                            sp: u64, pointer: nat, raw: seq<byte>, image: seq<byte>,
                                            image': seq<byte>, blocks: seq<Descriptor>, blocks': seq<Descriptor>)
    requires StackDumped(st, stack, config, p, ip, sp, pointer, raw, image, image', blocks, blocks')
    requires raw == MemReader.Slice(p.memory, pointer, |raw|)
    requires sp in ViewOf(config, p).pointers && BeginsStack(p, sp, pointer)
    ensures (image' == image && blocks' == blocks)
            || (Grows(image, image', blocks, blocks', ViewOf(config, p))
                && (|image'| < U32_LIMIT ==> StackShown(stack, sp, image', config, p)))
  {
    if image' != image || blocks' != blocks {
      var shown := StackBytes(config.sanitize, p, raw, pointer, sp);
      ShownIsCopied(raw, pointer, sp, ViewOf(config, p));
      assert image' == image + shown && blocks' == blocks + [stack];
      GrowsByBlock(image, shown, stack, blocks, ViewOf(config, p));
      if |image'| < U32_LIMIT {
        AppendedStackIsShown(stack, sp, image, raw, config, p);
      }
    }
  }

  /** The descriptor of a dumped stack: what was copied, or nothing when it is filtered out. */
  lemma {:induction false} DumpedStackShape(st: Status, stack: Descriptor, config: Config, p: Dumper, ip: nat,
                                            sp: u64, pointer: nat, raw: seq<byte>, image: seq<byte>,
                                            image': seq<byte>, blocks: seq<Descriptor>, blocks': seq<Descriptor>)
    requires StackDumped(st, stack, config, p, ip, sp, pointer, raw, image, image', blocks, blocks') && st.Success?
    ensures stack.memory.rva == U32(|image|)
    ensures if Unreferenced(config, ip, raw, Max(sp - pointer, 0)) then stack.start == sp && stack.memory.dataSize == 0
            else stack.start == pointer && stack.memory.dataSize == U32(|raw|)
    ensures |image'| < U32_LIMIT && stack.memory.dataSize > 0 ==> U32(|raw|) == |raw|
    ensures blocks' == blocks + [stack] || (blocks' == blocks && stack.memory.dataSize == 0)
  {
  }

  /** How much of a stack is asked for: all that was found, or no more than a limit. */
  function Requested(length: nat, max: Option<nat>): nat {
    if max.Some? then Min(length, max.value) else length
  }

  /**
   * The stack of a thread with these registers: what could be copied of the stack that the search from
   * its stack pointer found. None is shown when the search found nothing, or when it is filtered out.
   */
  ghost predicate StackTaken(d: Descriptor, regs: Registers, max: Option<nat>, config: Config, p: Dumper) {
    p.page > 0 && exists info, k :: StackAsFound(d, regs, max, config, p, info, k)
  }

  ghost predicate StackAsFound(d: Descriptor, regs: Registers, max: Option<nat>, config: Config, p: Dumper,
                               info: StackInfo.Outcome, k: nat)
    requires p.page > 0
  {
    StackInfo.Locates(p.mappings, p.page, regs.sp, info, k) && !info.Overflow?
    && if !info.Found? then d.start == regs.sp && d.memory.dataSize == 0 else
         var raw := MemReader.Copy(p.memory, info.pointer, Requested(info.length, max));
         raw.Some?
         && if Unreferenced(config, regs.ip, raw.value, Max(regs.sp - info.pointer, 0))
            then d.start == regs.sp && d.memory.dataSize == 0
            else d.start == info.pointer && d.memory.dataSize == |raw.value|
  }

  /** The bytes at the descriptor are what is to be shown of the stack. */
  ghost predicate StackShown(d: Descriptor, sp: nat, image: seq<byte>, config: Config, p: Dumper) {
    var raw := MemReader.Slice(p.memory, d.start, d.memory.dataSize);
    Stored(image, d.memory.rva, StackBytes(config.sanitize, p, raw, d.start, sp))
  }

  /** The whole of filling in a stack: what was found, what could be copied of it, and what became of that. */
  ghost predicate StackFilled(st: Status, stack: Descriptor, info: StackInfo.Outcome, raw: Option<seq<byte>>,
                              config: Config, p: Dumper, ip: nat, sp: u64, maxStackLen: Option<nat>, image: seq<byte>,
                              image': seq<byte>, blocks: seq<Descriptor>, blocks': seq<Descriptor>)
  {
    if !info.Found? then
      raw.None? && st == (if info.Overflow? then Fault else Success)
      && Undumped(stack, sp, image, image', blocks, blocks')
    else if raw != MemReader.Copy(p.memory, info.pointer, Requested(info.length, maxStackLen)) then false
    else if raw.None? then st == Error && Undumped(stack, sp, image, image', blocks, blocks')
    else
      StackDumped(st, stack, config, p, ip, sp, info.pointer, raw.value, image, image', blocks, blocks')
  }

  method FillThreadStack(config: Config, buffer: Buffer, p: Dumper, ip: u64, sp: u64, maxStackLen: Option<nat>)
    returns (st: Status, stack: Descriptor, ghost info: StackInfo.Outcome, ghost k: nat, ghost raw: Option<seq<byte>>)
    requires p.page > 0 && (config.sanitize ==> Sound(p.mappings))
    requires forall m :: m in p.mappings ==> m.End() < U64_LIMIT
    modifies config`memoryBlocks, buffer
    ensures StackInfo.Locates(p.mappings, p.page, sp, info, k)
    ensures StackFilled(st, stack, info, raw, config, p, ip, sp, maxStackLen, old(buffer.inner), buffer.inner,
                        old(config.memoryBlocks), config.memoryBlocks)
  {
    stack, raw := Descriptor(sp, Location(0, U32(|buffer.inner|))), None;
    var found := StackInfo.GetStackInfo(p.mappings, p.page, sp);
    info := found;
    k :| StackInfo.Locates(p.mappings, p.page, sp, info, k);
    if found.Overflow? {
      return Fault, stack, info, k, raw;
    }
    if found.NoStackPointerMapping? {
      return Success, stack, info, k, raw;
    }
    var stackLen := if maxStackLen.Some? then Min(found.length, maxStackLen.value) else found.length;
    assert stackLen == Requested(found.length, maxStackLen);
    var copied := MemReader.CopyFromProcess(p.memory, found.pointer, stackLen);
    raw := copied;
    if copied.None? {
      return Error, stack, info, k, raw;
    }
    st, stack := DumpStackCopy(config, buffer, p, ip, sp, found.pointer, copied.value);
  }

  /** How filling in the stack that was found ends. */
  ghost function StackStatus(info: StackInfo.Outcome, ip: nat, sp: nat, max: Option<nat>, config: Config, p: Dumper)
    : Status
  {
    match info
    case Overflow => Fault
    case NoStackPointerMapping => Success
    case Found(pointer, length) =>
      var raw, off := MemReader.Copy(p.memory, pointer, Requested(length, max)), Max(sp - pointer, 0);
      if raw.None? then Error
      else if config.skipUnreferenced && Outside(config, ip) && |raw.value| < WORD then Fault
      else if Unreferenced(config, ip, raw.value, off) then Success
      else if config.sanitize && Aligned(off) > |raw.value| then Fault
      else Success
  }

  lemma {:induction false} FilledStackStatus(st: Status, stack: Descriptor, info: StackInfo.Outcome,
                                             raw: Option<seq<byte>>, config: Config, p: Dumper, ip: nat, sp: u64,
                                             maxStackLen: Option<nat>, image: seq<byte>, image': seq<byte>,
                                             blocks: seq<Descriptor>, blocks': seq<Descriptor>)
    requires StackFilled(st, stack, info, raw, config, p, ip, sp, maxStackLen, image, image', blocks, blocks')
    ensures st == StackStatus(info, ip, sp, maxStackLen, config, p)
  {
  }

  lemma {:induction false} NothingGrows(stack: Descriptor, sp: nat, image: seq<byte>, blocks: seq<Descriptor>,
                                        config: Config, p: Dumper)
    ensures Grows(image, image, blocks, blocks, ViewOf(config, p))
    ensures |image| < U32_LIMIT && stack.memory == Location(0, U32(|image|)) ==> StackShown(stack, sp, image, config, p)
  {
  }

  lemma {:induction false} FilledStackGrows(st: Status, stack: Descriptor, info: StackInfo.Outcome, k: nat,
                                            raw: Option<seq<byte>>, config: Config, p: Dumper, ip: nat, sp: u64,
                                            maxStackLen: Option<nat>, image: seq<byte>, image': seq<byte>,
                                            blocks: seq<Descriptor>, blocks': seq<Descriptor>)
    requires StackFilled(st, stack, info, raw, config, p, ip, sp, maxStackLen, image, image', blocks, blocks')
    requires p.page > 0 && StackInfo.Locates(p.mappings, p.page, sp, info, k) && sp in ViewOf(config, p).pointers
    ensures Grows(image, image', blocks, blocks', ViewOf(config, p))
    ensures st.Success? && |image'| < U32_LIMIT ==> StackShown(stack, sp, image', config, p)
  {
    NothingGrows(stack, sp, image, blocks, config, p);
    if info.Found? && raw.Some? {
      DumpedStackGrows(st, stack, config, p, ip, sp, info.pointer, raw.value, image, image', blocks, blocks');
    }
  }

  lemma {:induction false} FilledStackShape(st: Status, stack: Descriptor, info: StackInfo.Outcome, k: nat,
                                            raw: Option<seq<byte>>, config: Config, p: Dumper, ip: u64, sp: u64,
                                            maxStackLen: Option<nat>, image: seq<byte>, image': seq<byte>,
                                            blocks: seq<Descriptor>, blocks': seq<Descriptor>, cpu: seq<byte>)
    requires p.page > 0 && StackInfo.Locates(p.mappings, p.page, sp, info, k) && st.Success?
    requires StackFilled(st, stack, info, raw, config, p, ip, sp, maxStackLen, image, image', blocks, blocks')
    ensures stack.memory.rva == U32(|image|)
    ensures |image'| < U32_LIMIT ==> StackTaken(stack, Registers(ip, sp, cpu), maxStackLen, config, p)
    ensures blocks' == blocks + [stack] || (blocks' == blocks && stack.memory.dataSize == 0)
  {
    if info.Found? && raw.Some? {
      DumpedStackShape(st, stack, config, p, ip, sp, info.pointer, raw.value, image, image', blocks, blocks');
    }
    if |image'| < U32_LIMIT {
      assert StackAsFound(stack, Registers(ip, sp, cpu), maxStackLen, config, p, info, k);
    }
  }

  lemma {:induction false} LimitsOfAligned(off: nat, n: nat)
    ensures Aligned(off) <= n <==> off <= n - n % WORD
  {
  }

  /** A copy of any size is too short for the sanitiser exactly when its whole words end below the pointer. */
  lemma {:induction false} CopyTooShortIff(sp: nat, pointer: nat, size: nat)
    ensures Aligned(Max(sp - pointer, 0)) > size <==> sp - pointer > size - size % WORD
  {
    LimitsOfAligned(Max(sp - pointer, 0), size);
  }

  /**
   * A stack read in full always reaches the aligned stack pointer; one cut at the limit fails to
   * exactly when the pointer lies beyond the limit.
   */
  lemma {:induction false} CutTooShortIff(p: Dumper, sp: nat, info: StackInfo.Outcome, k: nat, cap: Option<nat>,
                                          size: nat)
    requires p.page > 0 && StackInfo.Locates(p.mappings, p.page, sp, info, k) && info.Found?
    requires info.length % WORD == 0 && forall m :: m in p.mappings ==> m.End() % p.page == 0
    requires cap.Some? ==> cap.value % WORD == 0
    requires size == if cap.Some? then Min(info.length, cap.value) else info.length
    ensures Aligned(Max(sp - info.pointer, 0)) > size <==> cap.Some? && sp - info.pointer > cap.value
  {
    StackInfo.StackReachesPointer(p.mappings, p.page, sp, info, k);
    CopyTooShortIff(sp, info.pointer, size);
  }

  /**
   * Filling in a stack fails exactly when nothing of it can be copied; it faults exactly when the search
   * for it overflows, when pointers are looked for in less than a word, or when a stack that is sanitised
   * does not reach its stack pointer in whole words.
   */
  lemma {:induction false} StackStatusIff(info: StackInfo.Outcome, ip: nat, sp: nat, max: Option<nat>, config: Config,
                                          p: Dumper)
    ensures StackStatus(info, ip, sp, max, config, p).Error?
       <==> info.Found? && MemReader.Copy(p.memory, info.pointer, Requested(info.length, max)).None?
    ensures StackStatus(info, ip, sp, max, config, p).Fault?
       <==> info.Overflow?
            || (info.Found?
                && var raw := MemReader.Copy(p.memory, info.pointer, Requested(info.length, max));
                raw.Some?
                && ((config.skipUnreferenced && Outside(config, ip) && |raw.value| < 8)
                    || (config.sanitize && !Unreferenced(config, ip, raw.value, Max(sp - info.pointer, 0))
                        && sp > info.pointer + |raw.value| / 8 * 8)))
  {
    if info.Found? {
      var raw := MemReader.Copy(p.memory, info.pointer, Requested(info.length, max));
      if raw.Some? {
        CopyTooShortIff(sp, info.pointer, |raw.value|);
      }
    }
  }

  /** A stack of one page, and a pointer 3000 bytes into it: cut at the limit, the copy is too short. */
  lemma {:induction false} PointerBeyondCut()
    ensures StackInfo.Locates([StackInfo.PAGE], 0x1000, 3000, StackInfo.Found(0, 0x1000), 0)
    ensures Aligned(3000) > LIMIT_MAX_EXTRA_THREAD_STACK_LEN
  {
    StackInfo.PageIsFound();
  }

  // ---- The code around the crash ----

  /** The block holds plain memory from the address it names. */
  ghost predicate Plain(d: Descriptor, image: seq<byte>, p: Dumper) {
    Stored(image, d.memory.rva, MemReader.Slice(p.memory, d.start, d.memory.dataSize))
  }

  /** Appends what was copied around the crash, and records it. */
  method WriteWindow(config: Config, buffer: Buffer, p: Dumper, start: u64, copied: seq<byte>)
    returns (window: Descriptor)
    requires IsPlainStart(config, p, start) && copied == MemReader.Slice(p.memory, start, |copied|)
    modifies config`memoryBlocks, buffer
    ensures buffer.inner == old(buffer.inner) + copied && window.start == start
    ensures window.memory == Location(U32(|copied|), U32(old(|buffer.inner|)))
    ensures config.memoryBlocks == old(config.memoryBlocks) + [window]
    ensures Grows(old(buffer.inner), buffer.inner, old(config.memoryBlocks), config.memoryBlocks, ViewOf(config, p))
    ensures |buffer.inner| < U32_LIMIT ==> Plain(window, buffer.inner, p)
  {
    ghost var was := buffer.inner;
    var section := WriteBytes(buffer, copied);
    window := Descriptor(start, section.ToLocation());
    AppendedIsStored(was, copied);
    assert Copied(copied, start, ViewOf(config, p));
    GrowsByBlock(was, copied, window, config.memoryBlocks, ViewOf(config, p));
    config.memoryBlocks := config.memoryBlocks + [window];
  }

  /** How copying the code around the crash ends. */
  function WindowStatus(ip: nat, p: Dumper): Status {
    var m := FindMapping(p.mappings, ip);
    if m.None? then Success
    else if ip < IP_MEMORY_SIZE / 2 || ip + IP_MEMORY_SIZE / 2 >= U64_LIMIT then Fault
    else if MemReader.Copy(p.memory, WindowStart(m.value, ip), WindowEnd(m.value, ip) - WindowStart(m.value, ip)).None?
    then Error else Success
  }

  method WriteInstructionWindow(config: Config, buffer: Buffer, p: Dumper, ip: u64)
    returns (st: Status, window: Descriptor)
    requires forall m :: m in p.mappings ==> m.End() < U64_LIMIT
    requires config.crashContext.Some? && config.crashContext.value.ip == ip
    modifies config`memoryBlocks, buffer
    ensures Grows(old(buffer.inner), buffer.inner, old(config.memoryBlocks), config.memoryBlocks, ViewOf(config, p))
    ensures st.Success? ==>
      config.memoryBlocks == old(config.memoryBlocks) + if FindMapping(p.mappings, ip).None? then [] else [window]
    ensures st == WindowStatus(ip, p)
    ensures st.Success? && FindMapping(p.mappings, ip).Some? ==>
      var m := FindMapping(p.mappings, ip).value;
      IsWindow(window, m, ip, p)
      && buffer.inner == old(buffer.inner) + MemReader.Slice(p.memory, window.start, window.memory.dataSize)
      && (|buffer.inner| < U32_LIMIT ==> Plain(window, buffer.inner, p))
    ensures st.Success? ==> WindowListed(config.memoryBlocks, config, p)
  {
    window := NO_DESCRIPTOR;
    var found := FindMapping(p.mappings, ip);
    if found.None? {
      return Success, window;
    }
    if ip < IP_MEMORY_SIZE / 2 || ip + IP_MEMORY_SIZE / 2 >= U64_LIMIT {
      return Fault, window;
    }
    var start := WindowStart(found.value, ip);
    var end := WindowEnd(found.value, ip);
    var copied := MemReader.CopyFromProcess(p.memory, start, U32(end - start));
    if copied.None? {
      return Error, window;
    }
    window := WriteWindow(config, buffer, p, start, copied.value);
    assert window in config.memoryBlocks && IsWindow(window, found.value, ip, p);
    st := Success;
  }

  // ---- Whose block, and whose context ----

  /** Every block recorded since is the stack of a record, or plain memory. */
  ghost predicate OwnedBlocks(blocks: seq<Descriptor>, from: nat, records: seq<Thread>, config: Config, p: Dumper) {
    forall i :: from <= i < |blocks| ==> Owned(blocks[i], records, config, p)
  }

  ghost predicate Owned(d: Descriptor, records: seq<Thread>, config: Config, p: Dumper) {
    IsPlainStart(config, p, d.start) || exists j :: 0 <= j < |records| && records[j].stack == d
  }

  /** The code around the crash is listed, if it is mapped, with as much of it as could be copied. */
  ghost predicate WindowListed(blocks: seq<Descriptor>, config: Config, p: Dumper) {
    config.crashContext.Some?
    && var ip := config.crashContext.value.ip;
    var m := FindMapping(p.mappings, ip);
    m.Some? ==> exists d :: d in blocks && IsWindow(d, m.value, ip, p)
  }

  ghost predicate IsWindow(d: Descriptor, m: MappingInfo, ip: nat, p: Dumper) {
    WindowStart(m, ip) >= 0 && WindowEnd(m, ip) >= WindowStart(m, ip)
    && var copied := MemReader.Copy(p.memory, WindowStart(m, ip), WindowEnd(m, ip) - WindowStart(m, ip));
    copied.Some? && d.start == WindowStart(m, ip) && d.memory.dataSize == |copied.value|
  }

  /** The blocks that one thread added: its stack, and for the crashing one what lies around the crash. */
  ghost predicate AddedBy(blocks: seq<Descriptor>, blocks': seq<Descriptor>, stack: Descriptor, fromCrash: bool,
                          config: Config, p: Dumper)
  {
    blocks <= blocks' && (stack.memory.dataSize > 0 ==> stack in blocks')
    && (fromCrash ==> WindowListed(blocks', config, p))
    && forall i :: |blocks| <= i < |blocks'| ==> blocks'[i] == stack || IsPlainStart(config, p, blocks'[i].start)
  }

  /** The thread that is blamed: it has the crash context, or its id is the blamed one. */
  predicate IsBlamed(config: Config, source: ThreadSource) {
    config.HasCrashContext(source) || source.tid == config.blamedThread
  }

  /** What is remembered of the crash after a thread whose context was written. */
  function Noted(config: Config, source: ThreadSource, context: Location, was: CrashingContext): CrashingContext {
    if config.HasCrashContext(source) then CrashContext(context)
    else if source.tid == config.blamedThread && source.regs.Some?
    then CrashContextPlusAddress(context, source.regs.value.ip)
    else was
  }

  /** What is remembered after the first |records| threads. */
  function NotedAfter(config: Config, threads: seq<ThreadSource>, records: seq<Thread>, was: CrashingContext)
    : CrashingContext
    requires |records| <= |threads|
  {
    if records == [] then was else
      var n := |records| - 1;
      Noted(config, threads[n], records[n].context, NotedAfter(config, threads, records[..n], was))
  }

  /**
   * The context that is remembered is that of the last blamed thread, as its record shows it; and none
   * when no thread is blamed.
   */
  lemma {:induction false} BlamedIsNoted(config: Config, threads: seq<ThreadSource>, records: seq<Thread>,
                                         was: CrashingContext, i: nat)
    requires |records| <= |threads| && forall j :: 0 <= j < |records| ==> RegistersOf(config, threads[j]).Some?
    requires i <= |records| && forall j :: i <= j < |records| ==> !IsBlamed(config, threads[j])
    ensures i == 0 ==> NotedAfter(config, threads, records, was) == was
    ensures i > 0 && IsBlamed(config, threads[i - 1]) ==>
      var c := NotedAfter(config, threads, records, was);
      !c.NoContext? && c.location == records[i - 1].context
  {
    if i < |records| {
      BlamedIsNoted(config, threads, records[..|records| - 1], was, i);
    }
  }

  /** The list of blocks has the stack of the record and, if the thread crashed, the code around it. */
  ghost predicate InList(t: Thread, source: ThreadSource, blocks: seq<Descriptor>, config: Config, p: Dumper) {
    (t.stack.memory.dataSize > 0 ==> t.stack in blocks)
    && (config.HasCrashContext(source) ==> WindowListed(blocks, config, p))
  }

  lemma {:induction false} InLongerList(t: Thread, source: ThreadSource, blocks: seq<Descriptor>,
                                        blocks': seq<Descriptor>, config: Config, p: Dumper)
    requires InList(t, source, blocks, config, p) && blocks <= blocks'
    ensures InList(t, source, blocks', config, p)
  {
    assert forall d :: d in blocks ==> d in blocks';
  }

  ghost predicate Linked(records: seq<Thread>, blocks: seq<Descriptor>, from: nat, crashing: CrashingContext,
                         was: CrashingContext, config: Config, p: Dumper)
  {
    |records| <= |p.threads| && from <= |blocks| && OwnedBlocks(blocks, from, records, config, p)
    && (forall j :: 0 <= j < |records| ==> InList(records[j], p.threads[j], blocks, config, p))
    && crashing == NotedAfter(config, p.threads, records, was)
  }

  lemma {:induction false} LinkedStep(records: seq<Thread>, t: Thread, blocks: seq<Descriptor>,
                                      blocks': seq<Descriptor>, from: nat, crashing: CrashingContext,
                                      was: CrashingContext, config: Config, p: Dumper)
    requires Linked(records, blocks, from, crashing, was, config, p) && |records| < |p.threads|
    requires AddedBy(blocks, blocks', t.stack, config.HasCrashContext(p.threads[|records|]), config, p)
    ensures Linked(records + [t], blocks', from, Noted(config, p.threads[|records|], t.context, crashing), was,
                   config, p)
  {
    var records' := records + [t];
    assert records'[..|records|] == records && records'[|records|] == t;
    forall j | 0 <= j < |records'| ensures InList(records'[j], p.threads[j], blocks', config, p) {
      if j < |records| {
        InLongerList(records[j], p.threads[j], blocks, blocks', config, p);
      }
    }
    forall i | from <= i < |blocks'| ensures Owned(blocks'[i], records', config, p) {
      if i < |blocks| && !IsPlainStart(config, p, blocks[i].start) {
        assert Owned(blocks[i], records, config, p);
        var j :| 0 <= j < |records| && records[j].stack == blocks[i];
        assert records'[j].stack == blocks'[i];
      }
    }
  }

  lemma {:induction false} WindowAdded(blocks: seq<Descriptor>, mid: seq<Descriptor>, blocks': seq<Descriptor>,
                                       stack: Descriptor, config: Config, p: Dumper)
    requires AddedBy(blocks, mid, stack, false, config, p) && mid <= blocks' && WindowListed(blocks', config, p)
    requires forall i :: |mid| <= i < |blocks'| ==> IsPlainStart(config, p, blocks'[i].start)
    ensures AddedBy(blocks, blocks', stack, true, config, p)
  {
  }

  lemma {:induction false} StackAdded(blocks: seq<Descriptor>, blocks': seq<Descriptor>, stack: Descriptor,
                                      config: Config, p: Dumper)
    requires blocks' == blocks + [stack] || (blocks' == blocks && stack.memory.dataSize == 0)
    ensures AddedBy(blocks, blocks', stack, false, config, p)
  {
  }

  /** The records as a reader finds them in the stream. */
  function RecordsAt(bytes: seq<byte>, n: nat): (records: seq<Thread>)
    requires 4 + THREAD_SIZE * n <= |bytes|
    ensures |records| == n
  {
    seq(n, i requires 0 <= i < n => ThreadAt(bytes, 4 + THREAD_SIZE * i))
  }

  // ---- The records ----

  /** The slots of all threads, reserved at `base`. */
  ghost predicate Reserved(list: MemoryArrayWriter, base: nat, n: nat, image: seq<byte>) {
    list == MemoryArrayWriter(U32(base), n, THREAD_SIZE) && base + THREAD_SIZE * n <= |image|
  }

  /**
   * Record t shows a thread: its id, a stack with bytes that were copied from where the record says,
   * and the image of its registers; both lie behind `from`.
   */
  ghost predicate ThreadShown(t: Thread, source: ThreadSource, image: seq<byte>, config: Config, p: Dumper, from: nat) {
    var regs := RegistersOf(config, source);
    regs.Some? && t.threadId == source.tid
    && t.suspendCount == 0 && t.priorityClass == 0 && t.priority == 0 && t.teb == 0
    && from <= t.stack.memory.rva && StackShown(t.stack, regs.value.sp, image, config, p)
    && from <= t.context.rva && t.context.dataSize == |regs.value.cpu| && Stored(image, t.context.rva, regs.value.cpu)
  }

  lemma {:induction false} StackShownAppend(d: Descriptor, sp: nat, image: seq<byte>, more: seq<byte>, config: Config,
                                            p: Dumper)
    requires StackShown(d, sp, image, config, p)
    ensures StackShown(d, sp, image + more, config, p)
  {
  }

  lemma {:induction false} ThreadShownAppend(t: Thread, source: ThreadSource, image: seq<byte>, image': seq<byte>,
                                             config: Config, p: Dumper, from: nat)
    requires ThreadShown(t, source, image, config, p, from) && image <= image'
    ensures ThreadShown(t, source, image', config, p, from)
  {
    var more := image'[|image|..];
    assert image' == image + more;
    StackShownAppend(t.stack, RegistersOf(config, source).value.sp, image, more, config, p);
    AppendKeepsStored(image, more, t.context.rva, RegistersOf(config, source).value.cpu);
  }

  lemma {:induction false} StackShownPut(d: Descriptor, sp: nat, image: seq<byte>, at: nat, w: seq<byte>,
                                         config: Config, p: Dumper)
    requires StackShown(d, sp, image, config, p) && at <= |image| && at + |w| <= d.memory.rva
    ensures StackShown(d, sp, Put(image, at, w), config, p)
  {
    var raw := MemReader.Slice(p.memory, d.start, d.memory.dataSize);
    PutKeepsStored(image, at, w, d.memory.rva, StackBytes(config.sanitize, p, raw, d.start, sp));
  }

  lemma {:induction false} ThreadShownPut(t: Thread, source: ThreadSource, image: seq<byte>, at: nat, w: seq<byte>,
                                          config: Config, p: Dumper, from: nat)
    requires ThreadShown(t, source, image, config, p, from) && at <= |image| && at + |w| <= from
    ensures ThreadShown(t, source, Put(image, at, w), config, p, from)
  {
    StackShownPut(t.stack, RegistersOf(config, source).value.sp, image, at, w, config, p);
    PutKeepsStored(image, at, w, t.context.rva, RegistersOf(config, source).value.cpu);
  }

  /** How the stack of a thread and, for the crashing one, the code around the crash end. */
  ghost predicate StackEnds(st: Status, regs: Registers, fromCrash: bool, max: Option<nat>, config: Config, p: Dumper) {
    p.page > 0
    && exists info, k :: StackInfo.Locates(p.mappings, p.page, regs.sp, info, k)
                         && st == EndOf(info, regs, fromCrash, max, config, p)
  }

  ghost function EndOf(info: StackInfo.Outcome, regs: Registers, fromCrash: bool, max: Option<nat>, config: Config,
                       p: Dumper): Status
  {
    var s := StackStatus(info, regs.ip, regs.sp, if fromCrash then None else max, config, p);
    if s.Success? && fromCrash then WindowStatus(regs.ip, p) else s
  }

  lemma {:induction false} OneEnd(regs: Registers, fromCrash: bool, max: Option<nat>, config: Config, p: Dumper,
                                  st: Status, st': Status)
    requires StackEnds(st, regs, fromCrash, max, config, p) && StackEnds(st', regs, fromCrash, max, config, p)
    ensures st == st'
  {
    var info, k :| StackInfo.Locates(p.mappings, p.page, regs.sp, info, k)
                   && st == EndOf(info, regs, fromCrash, max, config, p);
    var info', k' :| StackInfo.Locates(p.mappings, p.page, regs.sp, info', k')
                     && st' == EndOf(info', regs, fromCrash, max, config, p);
    StackInfo.OneOutcome(p.mappings, p.page, regs.sp, info, k, info', k');
  }

  /** How a thread ends: its id may not fit, its registers may be unknown, or its stack decides. */
  ghost predicate ThreadEnds(st: Status, source: ThreadSource, max: Option<nat>, config: Config, p: Dumper) {
    var regs := RegistersOf(config, source);
    if !(0 <= source.tid < U32_LIMIT) || regs.None? then st == Error
    else StackEnds(st, regs.value, config.HasCrashContext(source), max, config, p)
  }

  /** Appends the stack of a thread. */
  method DumpFoundStack(config: Config, buffer: Buffer, p: Dumper, regs: Registers, max: Option<nat>)
    returns (st: Status, stack: Descriptor, ghost info: StackInfo.Outcome, ghost k: nat)
    requires p.page > 0 && (config.sanitize ==> Sound(p.mappings))
    requires forall m :: m in p.mappings ==> m.End() < U64_LIMIT
    requires IsStackPointer(config, p, regs.sp)
    modifies config`memoryBlocks, buffer
    ensures Grows(old(buffer.inner), buffer.inner, old(config.memoryBlocks), config.memoryBlocks, ViewOf(config, p))
    ensures st.Success? ==> stack.memory.rva == U32(old(|buffer.inner|))
    ensures st.Success? && |buffer.inner| < U32_LIMIT ==>
      StackShown(stack, regs.sp, buffer.inner, config, p) && StackTaken(stack, regs, max, config, p)
    ensures st.Success? ==> AddedBy(old(config.memoryBlocks), config.memoryBlocks, stack, false, config, p)
    ensures StackInfo.Locates(p.mappings, p.page, regs.sp, info, k)
    ensures st == StackStatus(info, regs.ip, regs.sp, max, config, p)
  {
    ghost var image, blocks, raw := buffer.inner, config.memoryBlocks, None;
    st, stack, info, k, raw := FillThreadStack(config, buffer, p, regs.ip, regs.sp, max);
    ghost var image', blocks' := buffer.inner, config.memoryBlocks;
    FilledStackStatus(st, stack, info, raw, config, p, regs.ip, regs.sp, max, image, image', blocks, blocks');
    FilledStackGrows(st, stack, info, k, raw, config, p, regs.ip, regs.sp, max, image, image', blocks, blocks');
    if st.Success? {
      FilledStackShape(st, stack, info, k, raw, config, p, regs.ip, regs.sp, max, image, image', blocks, blocks',
                       regs.cpu);
      StackAdded(blocks, blocks', stack, config, p);
    }
  }

  /** Appends the stack of a thread and, for the crashing one, the code around the crash. */
  method DumpStack(config: Config, buffer: Buffer, p: Dumper, regs: Registers, fromCrash: bool,
                   maxStackLen: Option<nat>)
    returns (st: Status, stack: Descriptor)
    requires p.page > 0 && (config.sanitize ==> Sound(p.mappings))
    requires forall m :: m in p.mappings ==> m.End() < U64_LIMIT
    requires IsStackPointer(config, p, regs.sp)
    requires fromCrash ==> config.crashContext == Some(regs)
    modifies config`memoryBlocks, buffer
    ensures Grows(old(buffer.inner), buffer.inner, old(config.memoryBlocks), config.memoryBlocks, ViewOf(config, p))
    ensures st.Success? ==> stack.memory.rva == U32(old(|buffer.inner|))
    ensures st.Success? && |buffer.inner| < U32_LIMIT ==>
      StackShown(stack, regs.sp, buffer.inner, config, p)
      && StackTaken(stack, regs, if fromCrash then None else maxStackLen, config, p)
    ensures st.Success? ==> AddedBy(old(config.memoryBlocks), config.memoryBlocks, stack, fromCrash, config, p)
    ensures StackEnds(st, regs, fromCrash, maxStackLen, config, p)
  {
    var max := if fromCrash then None else maxStackLen;
    ghost var info, k;
    st, stack, info, k := DumpFoundStack(config, buffer, p, regs, max);
    if st.Success? && fromCrash {
      ghost var image, blocks := buffer.inner, config.memoryBlocks;
      var window;
      st, window := WriteInstructionWindow(config, buffer, p, regs.ip);
      if st.Success? {
        WindowAdded(old(config.memoryBlocks), blocks, config.memoryBlocks, stack, config, p);
      }
      GrowsOn(old(buffer.inner), image, buffer.inner, old(config.memoryBlocks), blocks, config.memoryBlocks,
              ViewOf(config, p));
      if |buffer.inner| < U32_LIMIT {
        assert buffer.inner == image + buffer.inner[|image|..];
        StackShownAppend(stack, regs.sp, image, buffer.inner[|image|..], config, p);
      }
    }
    assert st == EndOf(info, regs, fromCrash, maxStackLen, config, p);
  }

  lemma {:induction false} ThreadIsShown(t: Thread, source: ThreadSource, image: seq<byte>, regs: Registers,
                                         config: Config, p: Dumper, from: nat)
    requires RegistersOf(config, source) == Some(regs) && t.threadId == source.tid
    requires t.suspendCount == 0 && t.priorityClass == 0 && t.priority == 0 && t.teb == 0
    requires from <= t.stack.memory.rva && StackShown(t.stack, regs.sp, image, config, p)
    requires from <= t.context.rva && t.context.dataSize == |regs.cpu| && Stored(image, t.context.rva, regs.cpu)
    ensures ThreadShown(t, source, image, config, p, from)
  {
  }

  lemma {:induction false} ContextAppended(t: Thread, source: ThreadSource, image: seq<byte>, regs: Registers,
                                           config: Config, p: Dumper, from: nat)
    requires RegistersOf(config, source) == Some(regs) && |image + regs.cpu| < U32_LIMIT && from <= |image|
    requires t == Thread(t.threadId, 0, 0, 0, 0, t.stack, Location(U32(|regs.cpu|), U32(|image|)))
    requires t.threadId == source.tid
    requires from <= t.stack.memory.rva && StackShown(t.stack, regs.sp, image, config, p)
    ensures ThreadShown(t, source, image + regs.cpu, config, p, from)
  {
    StackShownAppend(t.stack, regs.sp, image, regs.cpu, config, p);
    AppendedIsStored(image, regs.cpu);
    assert t.context.rva == |image| && t.context.dataSize == |regs.cpu|;
    ThreadIsShown(t, source, image + regs.cpu, regs, config, p, from);
  }

  /** Appends the image of the registers and completes the record of the thread. */
  method WriteContext(config: Config, buffer: Buffer, p: Dumper, source: ThreadSource, regs: Registers,
                      stack: Descriptor, ghost from: nat) returns (thread: Thread)
    requires RegistersOf(config, source) == Some(regs) && 0 <= source.tid < U32_LIMIT && from <= |buffer.inner|
    requires |buffer.inner| < U32_LIMIT ==>
      from <= stack.memory.rva && StackShown(stack, regs.sp, buffer.inner, config, p)
    modifies buffer
    ensures buffer.inner == old(buffer.inner) + regs.cpu && thread.stack == stack
    ensures |buffer.inner| < U32_LIMIT ==> ThreadShown(thread, source, buffer.inner, config, p, from)
  {
    ghost var image := buffer.inner;
    var cpuSection := AllocWithVal(buffer, regs.cpu);
    thread := Thread(source.tid, 0, 0, 0, 0, stack, cpuSection.ToLocation());
    if |buffer.inner| < U32_LIMIT {
      ContextAppended(thread, source, image, regs, config, p, from);
    }
  }

  /** Remembers the context of the thread that is blamed. */
  method NoteContext(config: Config, source: ThreadSource, context: Location, ip: u64)
    requires config.HasCrashContext(source) || (source.regs.Some? && source.regs.value.ip == ip)
    modifies config`crashing
    ensures config.crashing == Noted(config, source, context, old(config.crashing))
  {
    if config.HasCrashContext(source) {
      config.crashing := CrashContext(context);
    } else if source.tid == config.blamedThread {
      config.crashing := CrashContextPlusAddress(context, ip);
    }
  }

  /** Appends the stack and the context of one thread; its record is returned, not yet in its slot. */
  method DumpThread(config: Config, buffer: Buffer, p: Dumper, source: ThreadSource, maxStackLen: Option<nat>)
    returns (st: Status, thread: Thread)
    requires p.page > 0 && (config.sanitize ==> Sound(p.mappings))
    requires forall m :: m in p.mappings ==> m.End() < U64_LIMIT
    requires source in p.threads
    modifies config`memoryBlocks, config`crashing, buffer
    ensures Grows(old(buffer.inner), buffer.inner, old(config.memoryBlocks), config.memoryBlocks, ViewOf(config, p))
    ensures st.Success? && |buffer.inner| < U32_LIMIT ==>
      ThreadShown(thread, source, buffer.inner, config, p, old(|buffer.inner|))
    ensures st.Success? && |buffer.inner| < U32_LIMIT ==>
      var fromCrash := config.HasCrashContext(source);
      StackTaken(thread.stack, RegistersOf(config, source).value, if fromCrash then None else maxStackLen, config, p)
    ensures config.crashing
         == if st.Success? then Noted(config, source, thread.context, old(config.crashing)) else old(config.crashing)
    ensures st.Success? ==>
      AddedBy(old(config.memoryBlocks), config.memoryBlocks, thread.stack, config.HasCrashContext(source), config, p)
    ensures ThreadEnds(st, source, maxStackLen, config, p)
  {
    thread := Thread(0, 0, 0, 0, 0, NO_DESCRIPTOR, NO_LOCATION);
    if !(0 <= source.tid < U32_LIMIT) {
      return Error, thread;
    }
    var fromCrash := config.HasCrashContext(source);
    if !fromCrash && source.regs.None? {
      return Error, thread;
    }
    var regs := if fromCrash then config.crashContext.value else source.regs.value;
    var stack;
    st, stack := DumpStack(config, buffer, p, regs, fromCrash, maxStackLen);
    if !st.Success? {
      return;
    }
    ghost var image, blocks := buffer.inner, config.memoryBlocks;
    thread := WriteContext(config, buffer, p, source, regs, stack, old(|buffer.inner|));
    GrowsOn(old(buffer.inner), image, buffer.inner, old(config.memoryBlocks), blocks, blocks, ViewOf(config, p));
    NoteContext(config, source, thread.context, regs.ip);
  }

  /** The limit on the stack of this thread. */
  function LimitFor(config: Config, p: Dumper, idx: nat, position: nat): Option<nat>
    requires idx < |p.threads|
  {
    if Exceeds(config, |p.threads|, position) && idx >= LIMIT_BASE_THREAD_COUNT
       && !config.HasCrashContext(p.threads[idx])
    then Some(LIMIT_MAX_EXTRA_THREAD_STACK_LEN) else None
  }

  /** How thread i ends, behind a list that ends at `position`. */
  ghost predicate ThreadFate(st: Status, i: nat, config: Config, p: Dumper, position: nat)
    requires i < |p.threads|
  {
    ThreadEnds(st, p.threads[i], LimitFor(config, p, i, position), config, p)
  }

  /** Every thread can be written. */
  ghost predicate AllWritable(config: Config, p: Dumper, position: nat) {
    Writable(config, p, position, |p.threads|)
  }

  /** The first n threads can be written. */
  ghost predicate Writable(config: Config, p: Dumper, position: nat, n: nat)
    requires n <= |p.threads|
  {
    forall i :: 0 <= i < n ==> ThreadFate(Success, i, config, p, position)
  }

  lemma {:induction false} FateDecides(st: Status, n: nat, config: Config, p: Dumper, position: nat)
    requires n < |p.threads| && Writable(config, p, position, n) && ThreadFate(st, n, config, p, position)
    ensures st.Success? ==> Writable(config, p, position, n + 1)
    ensures !st.Success? ==> !AllWritable(config, p, position)
  {
    if AllWritable(config, p, position) {
      OneFate(st, Success, n, config, p, position);
    }
  }

  lemma {:induction false} OneFate(st: Status, st': Status, i: nat, config: Config, p: Dumper, position: nat)
    requires i < |p.threads| && ThreadFate(st, i, config, p, position) && ThreadFate(st', i, config, p, position)
    ensures st == st'
  {
    var source := p.threads[i];
    var regs := RegistersOf(config, source);
    if 0 <= source.tid < U32_LIMIT && regs.Some? {
      OneEnd(regs.value, config.HasCrashContext(source), LimitFor(config, p, i, position), config, p, st, st');
    }
  }

  /** A limit does not matter to the thread that crashed. */
  lemma {:induction false} LimitInForce(st: Status, idx: nat, max: Option<nat>, config: Config, p: Dumper,
                                        position: nat)
    requires idx < |p.threads| && ThreadEnds(st, p.threads[idx], max, config, p)
    requires config.HasCrashContext(p.threads[idx]) || max == LimitFor(config, p, idx, position)
    ensures ThreadFate(st, idx, config, p, position)
  {
    var source, regs := p.threads[idx], RegistersOf(config, p.threads[idx]);
    if 0 <= source.tid < U32_LIMIT && regs.Some? && config.HasCrashContext(source) {
      var info, k :| StackInfo.Locates(p.mappings, p.page, regs.value.sp, info, k)
                     && st == EndOf(info, regs.value, true, max, config, p);
      assert st == EndOf(info, regs.value, true, LimitFor(config, p, idx, position), config, p);
    }
  }

  /** The estimate made before the first stack is written. */
  predicate Exceeds(config: Config, n: nat, position: nat) {
    config.sizeLimit.Some?
    && position + n * LIMIT_AVERAGE_THREAD_STACK_LENGTH + LIMIT_MINIDUMP_FUDGE_FACTOR > config.sizeLimit.value
  }

  /** The stream reads back, its records own the blocks, and one of them has the context of the crash. */
  ghost predicate ListShown(bytes: seq<byte>, end: nat, image: seq<byte>, blocks: seq<Descriptor>, from: nat,
                            crashing: CrashingContext, was: CrashingContext, config: Config, p: Dumper)
  {
    ReadsBack(bytes, end, image, config, p)
    && Linked(RecordsAt(bytes, |p.threads|), blocks, from, crashing, was, config, p)
  }

  /**
   * The bytes of the stream, which ends at `end` of the dump, are the count and the record of
   * thread i in slot i.
   */
  ghost predicate ReadsBack(bytes: seq<byte>, end: nat, image: seq<byte>, config: Config, p: Dumper) {
    |bytes| == 4 + THREAD_SIZE * |p.threads| && GetU32(bytes, 0) == |p.threads|
    && forall i :: 0 <= i < |p.threads| ==> SlotShown(bytes, i, image, config, p, end)
  }

  /** Slot i of the stream reads as the record of thread i. */
  ghost predicate SlotShown(bytes: seq<byte>, i: nat, image: seq<byte>, config: Config, p: Dumper, end: nat)
    requires i < |p.threads| && 4 + THREAD_SIZE * |p.threads| <= |bytes|
  {
    RecordShown(ThreadAt(bytes, 4 + THREAD_SIZE * i), i, image, config, p, end)
  }

  ghost predicate RecordShown(t: Thread, i: nat, image: seq<byte>, config: Config, p: Dumper, position: nat)
    requires i < |p.threads|
  {
    ThreadShown(t, p.threads[i], image, config, p, position)
    && StackTaken(t.stack, RegistersOf(config, p.threads[i]).value, LimitFor(config, p, i, position), config, p)
  }

  /** The records kept so far are those of the first threads, within their limits. */
  ghost predicate RecordsFit(records: seq<Thread>, config: Config, p: Dumper, image: seq<byte>, position: nat) {
    |records| <= |p.threads|
    && forall i :: 0 <= i < |records| ==> RecordShown(records[i], i, image, config, p, position)
  }

  lemma {:induction false} RecordsFitAppend(records: seq<Thread>, config: Config, p: Dumper, image: seq<byte>,
                                            image': seq<byte>, position: nat)
    requires RecordsFit(records, config, p, image, position) && image <= image'
    ensures RecordsFit(records, config, p, image', position)
  {
    forall i | 0 <= i < |records| ensures RecordShown(records[i], i, image', config, p, position) {
      ThreadShownAppend(records[i], p.threads[i], image, image', config, p, position);
    }
  }

  lemma {:induction false} RecordsFitPut(records: seq<Thread>, config: Config, p: Dumper, image: seq<byte>, at: nat,
                                         w: seq<byte>, position: nat)
    requires RecordsFit(records, config, p, image, position) && at <= |image| && at + |w| <= position
    ensures RecordsFit(records, config, p, Put(image, at, w), position)
  {
    forall i | 0 <= i < |records| ensures RecordShown(records[i], i, Put(image, at, w), config, p, position) {
      ThreadShownPut(records[i], p.threads[i], image, at, w, config, p, position);
    }
  }

  lemma {:induction false} SlotReadsBack(image: seq<byte>, start: nat, end: nat, at: nat, t: Thread)
    requires start + at + THREAD_SIZE <= end <= |image| && Stored(image, start + at, EncodeThread(t))
    ensures ThreadAt(image[start..end], at) == t
  {
    SliceOfSlice(image, start, end, at, at + THREAD_SIZE);
    ThreadRoundTrip(t);
  }

  lemma {:induction false} SlotIsShown(bytes: seq<byte>, i: nat, t: Thread, image: seq<byte>, config: Config,
                                       p: Dumper, end: nat)
    requires i < |p.threads| && 4 + THREAD_SIZE * |p.threads| <= |bytes|
    requires ThreadAt(bytes, 4 + THREAD_SIZE * i) == t && RecordShown(t, i, image, config, p, end)
    ensures SlotShown(bytes, i, image, config, p, end)
  {
  }

  lemma {:induction false} RecordReadsBack(image: seq<byte>, start: nat, end: nat, i: nat, t: Thread, config: Config,
                                           p: Dumper)
    requires i < |p.threads| && start + 4 + THREAD_SIZE * |p.threads| <= end <= |image|
    requires Stored(image, start + 4 + THREAD_SIZE * i, EncodeThread(t)) && RecordShown(t, i, image, config, p, end)
    ensures SlotShown(image[start..end], i, image, config, p, end)
  {
    SlotReadsBack(image, start, end, 4 + THREAD_SIZE * i, t);
    SlotIsShown(image[start..end], i, t, image, config, p, end);
  }

  lemma {:induction false} LayoutReadsBack(image: seq<byte>, start: nat, end: nat, records: seq<Thread>,
                                           blocks: seq<Descriptor>, config: Config, p: Dumper)
    requires Layout(image, start + 4, |p.threads|, records, blocks, ViewOf(config, p))
    requires end == start + 4 + THREAD_SIZE * |p.threads| && GetU32(image[start..end], 0) == |p.threads|
    requires RecordsFit(records, config, p, image, end) && |records| == |p.threads|
    ensures ReadsBack(image[start..end], end, image, config, p)
  {
    forall i | 0 <= i < |p.threads| ensures SlotShown(image[start..end], i, image, config, p, end) {
      RecordReadsBack(image, start, end, i, records[i], config, p);
    }
  }

  /** Descriptors were added, none of them for bytes before `from`. */
  predicate BlocksAdded(blocks: seq<Descriptor>, blocks': seq<Descriptor>, from: nat) {
    blocks <= blocks' && forall i :: |blocks| <= i < |blocks'| ==> from <= blocks'[i].memory.rva
  }

  /** Slots, blocks and records after the first |records| threads. */
  ghost predicate Progress(image: seq<byte>, base: nat, records: seq<Thread>, blocks: seq<Descriptor>, config: Config,
                           p: Dumper, position: nat)
  {
    |image| < U32_LIMIT ==>
      Layout(image, base, |p.threads|, records, blocks, ViewOf(config, p))
      && RecordsFit(records, config, p, image, position) && position == base + THREAD_SIZE * |p.threads|
  }

  lemma {:induction false} PutKeepsPrefix(image: seq<byte>, at: nat, w: seq<byte>, base: nat)
    requires base <= at <= |image|
    ensures Put(image, at, w)[..base] == image[..base]
  {
  }

  lemma {:induction false} LayoutStep(image: seq<byte>, image': seq<byte>, base: nat, n: nat, records: seq<Thread>,
                                      t: Thread, at: nat, w: seq<byte>, blocks: seq<Descriptor>,
                                      blocks': seq<Descriptor>, v: View)
    requires Layout(image, base, n, records, blocks, v) && |records| < n
    requires Grows(image, image', blocks, blocks', v) && |image'| < U32_LIMIT
    requires at == base + THREAD_SIZE * |records| <= |image'| && w == EncodeThread(t)
    ensures Layout(Put(image', at, w), base, n, records + [t], blocks', v)
  {
    LayoutGrows(image, image', base, n, records, blocks, blocks', v);
    LayoutSlot(image', t, base, n, records, blocks', v);
  }

  lemma {:induction false} RecordsStep(image: seq<byte>, image': seq<byte>, records: seq<Thread>, t: Thread, at: nat,
                                       w: seq<byte>, config: Config, p: Dumper, position: nat)
    requires RecordsFit(records, config, p, image, position) && image <= image' && |records| < |p.threads|
    requires RecordShown(t, |records|, image', config, p, position)
    requires at <= |image'| && at + |w| <= position
    ensures RecordsFit(records + [t], config, p, Put(image', at, w), position)
  {
    assert RecordsFit(records + [t], config, p, image', position) by {
      RecordsFitAppend(records, config, p, image, image', position);
    }
    RecordsFitPut(records + [t], config, p, image', at, w, position);
  }

  /** One more thread: its data appended, then its record put in the next slot. */
  lemma {:induction false} ProgressStep(image: seq<byte>, image': seq<byte>, base: nat, records: seq<Thread>,
                                        t: Thread, at: nat, w: seq<byte>, blocks: seq<Descriptor>,
                                        blocks': seq<Descriptor>, config: Config, p: Dumper, position: nat)
    requires Progress(image, base, records, blocks, config, p, position)
    requires Grows(image, image', blocks, blocks', ViewOf(config, p))
    requires |image'| < U32_LIMIT && |records| < |p.threads|
    requires RecordShown(t, |records|, image', config, p, position)
    requires at == base + THREAD_SIZE * |records| <= |image'| && w == EncodeThread(t)
    ensures Put(image', at, w)[..base] == image'[..base]
    ensures Progress(Put(image', at, w), base, records + [t], blocks', config, p, position)
  {
    var filled := Put(image', at, w);
    assert RecordsFit(records + [t], config, p, filled, position) by {
      RecordsStep(image, image', records, t, at, w, config, p, position);
    }
    assert Layout(filled, base, |p.threads|, records + [t], blocks', ViewOf(config, p)) by {
      LayoutStep(image, image', base, |p.threads|, records, t, at, w, blocks, blocks', ViewOf(config, p));
    }
    assert filled[..base] == image'[..base] by { PutKeepsPrefix(image', at, w, base); }
  }

  /** The array writer keeps its position in 32 bits, which is exact while the dump is that small. */
  lemma {:induction false} SlotIsExact(list: MemoryArrayWriter, base: nat, n: nat, k: nat, image: seq<byte>)
    requires Reserved(list, base, n, image) && k < n
    ensures list.SlotAt(k) + THREAD_SIZE <= |image|
    ensures |image| < U32_LIMIT ==> list.SlotAt(k) == base + THREAD_SIZE * k
  {
  }

  /** The record of a thread goes to its slot, after the thread's data was appended. */
  method FillSlot(config: Config, buffer: Buffer, p: Dumper, list: MemoryArrayWriter, thread: Thread, idx: nat,
                  ghost base: nat, ghost records: seq<Thread>, ghost image: seq<byte>, ghost blocks: seq<Descriptor>,
                  ghost position: nat)
    requires Reserved(list, base, |p.threads|, buffer.inner) && idx == |records| < |p.threads|
    requires Progress(image, base, records, blocks, config, p, position)
    requires Grows(image, buffer.inner, blocks, config.memoryBlocks, ViewOf(config, p))
    requires |buffer.inner| < U32_LIMIT ==> RecordShown(thread, |records|, buffer.inner, config, p, position)
    modifies buffer
    ensures |buffer.inner| == old(|buffer.inner|)
    ensures |buffer.inner| < U32_LIMIT ==> buffer.inner[..base] == old(buffer.inner)[..base]
    ensures Progress(buffer.inner, base, records + [thread], config.memoryBlocks, config, p, position)
  {
    SlotIsExact(list, base, |p.threads|, idx, buffer.inner);
    var w := EncodeThread(thread);
    if |buffer.inner| < U32_LIMIT {
      ProgressStep(image, buffer.inner, base, records, thread, list.SlotAt(idx), w,
                   blocks, config.memoryBlocks, config, p, position);
    }
    SetValueAt(list, buffer, w, idx);
  }

  /** One turn of the loop over the threads. */
  method WriteThread(config: Config, buffer: Buffer, p: Dumper, list: MemoryArrayWriter, idx: nat, exceeded: bool,
                     ghost base: nat, ghost records: seq<Thread>, ghost position: nat)
    returns (st: Status, ghost records': seq<Thread>)
    requires p.page > 0 && (config.sanitize ==> Sound(p.mappings))
    requires forall m :: m in p.mappings ==> m.End() < U64_LIMIT
    requires Reserved(list, base, |p.threads|, buffer.inner) && idx == |records| < |p.threads|
    requires exceeded == Exceeds(config, |p.threads|, position) && position <= |buffer.inner|
    requires Progress(buffer.inner, base, records, config.memoryBlocks, config, p, position)
    modifies config`memoryBlocks, config`crashing, buffer
    ensures |buffer.inner| >= old(|buffer.inner|)
    ensures |buffer.inner| < U32_LIMIT ==> buffer.inner[..base] == old(buffer.inner)[..base]
    ensures |buffer.inner| < U32_LIMIT ==> BlocksFaithful(config.memoryBlocks, buffer.inner, ViewOf(config, p))
    ensures |buffer.inner| < U32_LIMIT ==>
      BlocksAdded(old(config.memoryBlocks), config.memoryBlocks, old(|buffer.inner|))
    ensures st.Success? ==> |records'| == idx + 1 && records' == records + [records'[idx]]
    ensures st.Success? ==> Progress(buffer.inner, base, records', config.memoryBlocks, config, p, position)
    ensures st.Success? ==>
      AddedBy(old(config.memoryBlocks), config.memoryBlocks, records'[idx].stack,
              config.HasCrashContext(p.threads[idx]), config, p)
    ensures st.Success? ==>
      config.crashing == Noted(config, p.threads[idx], records'[idx].context, old(config.crashing))
    ensures ThreadFate(st, idx, config, p, position)
  {
    ghost var image, blocks := buffer.inner, config.memoryBlocks;
    var max := if config.sizeLimit.Some? && idx >= LIMIT_BASE_THREAD_COUNT && exceeded
               then Some(LIMIT_MAX_EXTRA_THREAD_STACK_LEN) else None;
    var thread;
    st, thread := DumpThread(config, buffer, p, p.threads[idx], max);
    LimitInForce(st, idx, max, config, p, position);
    ghost var image' := buffer.inner;
    assert image'[..base] == image[..base];
    records' := records + [thread];
    if |image'| < U32_LIMIT {
      LayoutGrows(image, image', base, |p.threads|, records, blocks, config.memoryBlocks, ViewOf(config, p));
    }
    if !st.Success? {
      return;
    }
    assert |image'| < U32_LIMIT ==> RecordShown(thread, idx, image', config, p, position);
    FillSlot(config, buffer, p, list, thread, idx, base, records, image, blocks, position);
  }

  /** The loop over the threads. */
  method WriteThreads(config: Config, buffer: Buffer, p: Dumper, list: MemoryArrayWriter, exceeded: bool,
                      ghost base: nat, ghost position: nat)
    returns (st: Status, ghost records: seq<Thread>)
    requires p.page > 0 && (config.sanitize ==> Sound(p.mappings))
    requires forall m :: m in p.mappings ==> m.End() < U64_LIMIT
    requires Reserved(list, base, |p.threads|, buffer.inner)
    requires exceeded == Exceeds(config, |p.threads|, position) && position == |buffer.inner|
    requires Progress(buffer.inner, base, [], config.memoryBlocks, config, p, position)
    modifies config`memoryBlocks, config`crashing, buffer
    ensures |buffer.inner| >= old(|buffer.inner|)
    ensures |buffer.inner| < U32_LIMIT ==> buffer.inner[..base] == old(buffer.inner)[..base]
    ensures |buffer.inner| < U32_LIMIT ==> BlocksFaithful(config.memoryBlocks, buffer.inner, ViewOf(config, p))
    ensures |buffer.inner| < U32_LIMIT ==>
      BlocksAdded(old(config.memoryBlocks), config.memoryBlocks, old(|buffer.inner|))
    ensures st.Success? ==> |records| == |p.threads|
    ensures st.Success? ==> Progress(buffer.inner, base, records, config.memoryBlocks, config, p, position)
    ensures st.Success? ==> Linked(records, config.memoryBlocks, old(|config.memoryBlocks|), config.crashing,
                                   old(config.crashing), config, p)
    ensures st.Success? <==> AllWritable(config, p, position)
  {
    ghost var from, crashing := |config.memoryBlocks|, config.crashing;
    records, st := [], Success;
    for idx := 0 to |p.threads|
      invariant |records| == idx && |buffer.inner| >= position
      invariant |buffer.inner| < U32_LIMIT ==> buffer.inner[..base] == old(buffer.inner)[..base]
      invariant |buffer.inner| < U32_LIMIT ==>
        BlocksAdded(old(config.memoryBlocks), config.memoryBlocks, old(|buffer.inner|))
      invariant Progress(buffer.inner, base, records, config.memoryBlocks, config, p, position)
      invariant Linked(records, config.memoryBlocks, from, config.crashing, crashing, config, p)
      invariant st.Success? && Writable(config, p, position, idx)
    {
      ghost var blocks, before, noted := config.memoryBlocks, records, config.crashing;
      st, records := WriteThread(config, buffer, p, list, idx, exceeded, base, records, position);
      FateDecides(st, idx, config, p, position);
      if !st.Success? {
        return;
      }
      LinkedStep(before, records[idx], blocks, config.memoryBlocks, from, noted, crashing, config, p);
    }
  }

  lemma {:induction false} StartLayout(was: seq<byte>, more: seq<byte>, n: nat, blocks: seq<Descriptor>, v: View)
    requires forall i :: 0 <= i < |blocks| ==> Faithful(blocks[i], was, v)
    requires |more| == 4 + n * THREAD_SIZE
    ensures Layout(was + more, |was| + 4, n, [], blocks, v)
    ensures forall i :: 0 <= i < |blocks| ==> Faithful(blocks[i], was + more, v)
  {
    forall i | 0 <= i < |blocks| ensures Faithful(blocks[i], was + more, v) {
      FaithfulAppend(blocks[i], was, more, v);
    }
  }

  lemma {:induction false} HeadStays(image: seq<byte>, was: seq<byte>, head: seq<byte>)
    requires was <= head && |head| <= |image| && image[..|head|] == head
    ensures was <= image
  {
  }

  lemma {:induction false} CountStays(image: seq<byte>, was: seq<byte>, count: seq<byte>, end: nat)
    requires |count| == 4 && |was| + 4 <= end <= |image|
    requires image[..|was| + 4] == was + count
    ensures GetU32(image[|was|..end], 0) == GetU32(count, 0)
  {
    SliceOfSlice(image, |was|, end, 0, 4);
    SliceOfSlice(image, 0, |was| + 4, |was|, |was| + 4);
    assert count == count[0..4];
  }

  /** The count of the stream and, behind it, an empty slot for each thread. */
  method ReserveThreads(buffer: Buffer, n: nat)
    returns (dirent: Directory, list: MemoryArrayWriter, ghost count: seq<byte>)
    modifies buffer
    ensures |count| == 4 && buffer.inner == old(buffer.inner) + (count + Zeros(n * THREAD_SIZE))
    ensures list == MemoryArrayWriter(U32(old(|buffer.inner|) + 4), n, THREAD_SIZE)
    ensures |buffer.inner| < U32_LIMIT ==>
      GetU32(count, 0) == n
      && dirent == Directory(THREAD_LIST_STREAM, Location(4 + THREAD_SIZE * n, old(|buffer.inner|)))
  {
    count := ToLE(U32(n), 4);
    var header := AllocWithVal(buffer, ToLE(U32(n), 4));
    list := AllocArray(buffer, n, THREAD_SIZE);
    dirent := Directory(THREAD_LIST_STREAM,
                        Location(U32(header.ToLocation().dataSize + list.ToLocation().dataSize), header.position));
    GetU32Of(count, 0, U32(n));
    CountedRange(old(|buffer.inner|), n * THREAD_SIZE);
  }

  lemma {:induction false} ListFromParts(bytes: seq<byte>, end: nat, image: seq<byte>, records: seq<Thread>,
                                         blocks: seq<Descriptor>, from: nat, crashing: CrashingContext,
                                         noted: CrashingContext, config: Config, p: Dumper)
    requires ReadsBack(bytes, end, image, config, p) && RecordsAt(bytes, |p.threads|) == records
    requires Linked(records, blocks, from, crashing, noted, config, p)
    ensures ListShown(bytes, end, image, blocks, from, crashing, noted, config, p)
  {
  }

  /** With a record in every slot, the stream reads back. */
  lemma {:induction false} ListIsWritten(image: seq<byte>, was: seq<byte>, count: seq<byte>, end: nat,
                                         records: seq<Thread>, blocks: seq<Descriptor>, from: nat,
                                         crashing: CrashingContext, noted: CrashingContext, config: Config, p: Dumper)
    requires |count| == 4 && GetU32(count, 0) == |p.threads| && |image| < U32_LIMIT
    requires |was| + 4 <= |image| && image[..|was| + 4] == was + count && |records| == |p.threads|
    requires end == |was| + 4 + THREAD_SIZE * |p.threads|
    requires Progress(image, |was| + 4, records, blocks, config, p, end)
    requires Linked(records, blocks, from, crashing, noted, config, p)
    ensures end <= |image| && ListShown(image[|was|..end], end, image, blocks, from, crashing, noted, config, p)
  {
    CountStays(image, was, count, end);
    LayoutReadsBack(image, |was|, end, records, blocks, config, p);
    RecordsReadBack(image, |was|, end, records);
    ListFromParts(image[|was|..end], end, image, records, blocks, from, crashing, noted, config, p);
  }

  lemma {:induction false} RecordsReadBack(image: seq<byte>, start: nat, end: nat, records: seq<Thread>)
    requires start + 4 + THREAD_SIZE * |records| <= end <= |image| && RecordsStored(image, start + 4, records)
    ensures RecordsAt(image[start..end], |records|) == records
  {
    var found := RecordsAt(image[start..end], |records|);
    forall i | 0 <= i < |records| ensures found[i] == records[i] {
      SlotReadsBack(image, start, end, 4 + THREAD_SIZE * i, records[i]);
    }
  }

  /** The stream: a count, then one record per thread. */
  method WriteThreadList(config: Config, buffer: Buffer, p: Dumper) returns (st: Status, dirent: Directory)
    requires p.page > 0 && (config.sanitize ==> Sound(p.mappings))
    requires forall m :: m in p.mappings ==> m.End() < U64_LIMIT
    requires BlocksFaithful(config.memoryBlocks, buffer.inner, ViewOf(config, p))
    modifies config`memoryBlocks, config`crashing, buffer
    ensures |buffer.inner| >= old(|buffer.inner|)
    ensures |buffer.inner| < U32_LIMIT ==> old(buffer.inner) <= buffer.inner
    ensures |buffer.inner| < U32_LIMIT ==> BlocksFaithful(config.memoryBlocks, buffer.inner, ViewOf(config, p))
    ensures |buffer.inner| < U32_LIMIT ==>
      BlocksAdded(old(config.memoryBlocks), config.memoryBlocks, old(|buffer.inner|))
    ensures st.Success? && |buffer.inner| < U32_LIMIT ==>
      var start, end := old(|buffer.inner|), old(|buffer.inner|) + 4 + THREAD_SIZE * |p.threads|;
      end <= |buffer.inner|
      && dirent == Directory(THREAD_LIST_STREAM, Location(end - start, start))
      && ListShown(buffer.inner[start..end], end, buffer.inner, config.memoryBlocks, old(|config.memoryBlocks|),
                   config.crashing, old(config.crashing), config, p)
    ensures st.Success? <==> AllWritable(config, p, old(|buffer.inner|) + 4 + THREAD_SIZE * |p.threads|)
  {
    ghost var was, v, from, noted := buffer.inner, ViewOf(config, p), |config.memoryBlocks|, config.crashing;
    var n := |p.threads|;
    var list;
    ghost var count;
    dirent, list, count := ReserveThreads(buffer, n);
    var exceeded := Exceeds(config, n, |buffer.inner|);
    ghost var base, head, position := |was| + 4, was + count, |buffer.inner|;
    StartLayout(was, count + Zeros(n * THREAD_SIZE), n, config.memoryBlocks, v);
    assert buffer.inner[..base] == head;
    ghost var records;
    st, records := WriteThreads(config, buffer, p, list, exceeded, base, position);
    if |buffer.inner| < U32_LIMIT {
      assert was <= buffer.inner by { HeadStays(buffer.inner, was, head); }
      if st.Success? {
        ListIsWritten(buffer.inner, was, count, position, records, config.memoryBlocks, from, config.crashing, noted,
                      config, p);
      }
    }
  }
}
