/**
 * Streams that come in one piece: what their writers append, the entries that name them, and the
 * steps of the program that write and flush them one after the other.
 */
module Sections {
  import opened Bytes
  import opened Format
  import opened DumpBuffer
  import opened DirSection
  import opened DumpLog
  import opened ThreadList

  const EXCEPTION_STREAM: u32 := 6
  const LINUX_DSO_DEBUG: u32 := 0x4767_000a

  /**
   * The bytes a writer appends, and the part of them its entry names, which may reach beyond them.
   * That it only appends is assumed while the dump stays below 4 GiB.
   */
  datatype Section = Section(bytes: seq<byte>, succeeds: bool, streamType: u32, offset: nat, size: nat)
  {
    predicate Valid() { offset <= |bytes| }

    /** The entry names appended bytes only. */
    predicate Whole() { offset + size <= |bytes| }

    /** So it does for a reader, who finds the size in 32 bits. */
    predicate Covered() { offset + U32(size) <= |bytes| }

    /** The bytes that the entry names, as far as they were appended. */
    function Shown(): seq<byte>
      requires Valid()
    {
      bytes[offset..Min(offset + size, |bytes|)]
    }
  }

  predicate AllValid(sections: seq<Section>) {
    forall k :: 0 <= k < |sections| ==> sections[k].Valid()
  }

  /** The section may become entry `at`: only that of dso debug may name more than was appended. */
  predicate Fits(s: Section, at: nat, frame: Frame) {
    s.Valid() && if at == DSO_ENTRY then frame.covered <==> (s.succeeds ==> s.Covered()) else s.Whole()
  }

  // ---- The content of a file, dso debug, and the exception ----

  type FileContent = Option<seq<byte>>

  /** A stream that is the content of a file, or nothing. */
  function FileSection(content: FileContent, streamType: u32): (s: Section)
    ensures s.Whole()
  {
    if content.Some? then Section(content.value, true, streamType, 0, |content.value|)
    else Section([], false, streamType, 0, 0)
  }

  /**
   * The dso-debug stream: link maps and names, then a record and a copy of the dynamic section. The
   * entry counts the record and the length of the section; the copy may come short.
   */
  datatype DsoDebug = DsoDebug(front: seq<byte>, record: seq<byte>, length: nat, copied: seq<byte>, succeeds: bool)
  {
    predicate Valid() { |copied| <= length }

    function AsSection(): (s: Section)
      ensures s.Valid()
    {
      Section(front + record + copied, succeeds, LINUX_DSO_DEBUG, |front|, |record| + length)
    }
  }

  /** Its entry names bytes of its own only, if and only if the dynamic section was copied in full. */
  lemma {:induction false} DsoCoveredIff(d: DsoDebug)
    requires d.Valid() && |d.record| + d.length < U32_LIMIT
    ensures d.AsSection().Covered() <==> |d.copied| == d.length
  {
  }

  /** At its own flush the entry lies inside the dump if and only if it is covered. */
  lemma {:induction false} EntryInFileIff(s: Section, start: nat)
    requires s.Valid() && start + |s.bytes| < U32_LIMIT
    ensures InFile(EntryFor(s, start), start + |s.bytes|) <==> s.Covered()
  {
  }

  /** Half of a dynamic section of sixteen bytes was copied: the entry ends eight bytes behind the dump. */
  lemma {:induction false} ShortDsoLeavesFile(start: nat, record: seq<byte>, copied: seq<byte>)
    requires |copied| == 8 && start + |record| + 16 < U32_LIMIT
    ensures var s := DsoDebug([], record, 16, copied, true).AsSection();
            var d := EntryFor(s, start);
            d.location.rva + d.location.dataSize == start + |s.bytes| + 8 && !InFile(d, start + |s.bytes|)
  {
    var s := DsoDebug([], record, 16, copied, true).AsSection();
    assert U32(s.size) == |record| + 16 && U32(start + s.offset) == start;
  }

  /** What the signal that killed the target says. */
  datatype Siginfo = Siginfo(code: u32, flags: u32, address: u64)

  datatype Exception = Exception(threadId: u32, code: u32, flags: u32, address: u64, context: Location)

  const EXCEPTION_SIZE := 168
  const DUMP_REQUESTED: u32 := 0xffff_ffff

  /** The exception: the signal if there is a crash context, else the request for a dump. */
  function ExceptionOf(config: Config, siginfo: Siginfo, crashing: CrashingContext): Exception {
    var context := if crashing.NoContext? then NO_LOCATION else crashing.location;
    var tid := config.blamedThread % U32_LIMIT;
    if config.crashContext.Some? then Exception(tid, siginfo.code, siginfo.flags, siginfo.address, context)
    else
      Exception(tid, DUMP_REQUESTED, 0, if crashing.CrashContextPlusAddress? then crashing.address else 0, context)
  }

  function EncodeException(e: Exception): (s: seq<byte>)
    ensures |s| == EXCEPTION_SIZE
  {
    (ToLE(e.threadId, 4) + Zeros(4)) + (ToLE(e.code, 4) + ToLE(e.flags, 4)) + (Zeros(8) + ToLE(e.address, 8))
    + Zeros(128) + EncodeLocation(e.context)
  }

  function ExceptionSection(config: Config, siginfo: Siginfo, crashing: CrashingContext): (s: Section)
    ensures s.Whole() && s.succeeds
  {
    Section(EncodeException(ExceptionOf(config, siginfo, crashing)), true, EXCEPTION_STREAM, 0, EXCEPTION_SIZE)
  }

  /** A reader of the stream finds the thread, the signal, the address, and where the context is. */
  lemma {:induction false} ExceptionReads(image: seq<byte>, at: nat, e: Exception)
    requires Stored(image, at, EncodeException(e))
    ensures GetU32(image, at) == e.threadId && DecodeLocation(image[at + 160..at + 168]) == e.context
    ensures GetU32(image, at + 8) == e.code && GetU32(image, at + 12) == e.flags && GetU64(image, at + 24) == e.address
  {
    var id, code, address := ToLE(e.threadId, 4) + Zeros(4), ToLE(e.code, 4) + ToLE(e.flags, 4), ToLE(e.address, 8);
    StoredParts(image, at, id + code + (Zeros(8) + address) + Zeros(128), EncodeLocation(e.context));
    StoredParts(image, at, id + code + (Zeros(8) + address), Zeros(128));
    StoredParts(image, at, id + code, Zeros(8) + address);
    StoredParts(image, at, id, code);
    StoredParts(image, at, ToLE(e.threadId, 4), Zeros(4));
    StoredParts(image, at + 16, Zeros(8), address);
    GetU32Of(image, at, e.threadId);
    TwoWordsRead(image, at + 8, e.code, e.flags);
    GetU64Of(image, at + 24, e.address);
    LocationRoundTrip(e.context);
  }

  // ---- Writing a section and its entry ----

  /** The entry for part of what was appended at `start`. */
  function EntryFor(s: Section, start: nat): Directory {
    Directory(s.streamType, Location(U32(s.size), U32(start + s.offset)))
  }

  /** From 4 GiB on the writer may do anything to the buffer but shrink it. */
  method WriteSection(buffer: Buffer, s: Section) returns (dirent: Option<Directory>)
    requires s.Valid()
    modifies buffer
    ensures |buffer.inner| >= old(|buffer.inner|) + |s.bytes|
    ensures |buffer.inner| < U32_LIMIT ==> buffer.inner == old(buffer.inner) + s.bytes
    ensures dirent == if s.succeeds then Some(EntryFor(s, old(|buffer.inner|))) else None
  {
    var start := |buffer.inner|;
    buffer.WriteAll(s.bytes);
    var astray: seq<byte> := *;
    if |buffer.inner| >= U32_LIMIT && |astray| >= |buffer.inner| {
      buffer.inner := astray;
    }
    dirent := if s.succeeds then Some(EntryFor(s, start)) else None;
  }

  /** Entry d is that of section s: empty when s failed, else it names what was appended for it. */
  predicate SectionShown(image: seq<byte>, d: Directory, s: Section)
    requires s.Valid()
  {
    if !s.succeeds then d == NO_DIRECTORY else
      d.streamType == s.streamType && d.location.dataSize == U32(s.size) && STREAMS_START <= d.location.rva
      && Stored(image, d.location.rva, s.Shown())
  }

  /** The entries from index `at` on are those of the sections (while positions fit in 32 bits). */
  predicate SectionsShown(image: seq<byte>, entries: seq<Directory>, at: nat, sections: seq<Section>)
    requires AllValid(sections)
  {
    at + |sections| <= |entries|
    && (|image| < U32_LIMIT ==>
          forall k :: 0 <= k < |sections| ==> SectionShown(image, entries[at + k], sections[k]))
  }

  lemma {:induction false} SliceStays(image: seq<byte>, image': seq<byte>, lo: nat, hi: nat)
    requires Extends(image, image') && STREAMS_START <= lo <= hi <= |image|
    ensures image'[lo..hi] == image[lo..hi]
  {
  }

  lemma {:induction false} SectionsStay(image: seq<byte>, image': seq<byte>, entries: seq<Directory>,
                                        entries': seq<Directory>, at: nat, sections: seq<Section>)
    requires AllValid(sections)
    requires SectionsShown(image, entries, at, sections) && Continues(image, image') && entries <= entries'
    ensures SectionsShown(image', entries', at, sections)
  {
    if |image'| < U32_LIMIT {
      forall k | 0 <= k < |sections| ensures SectionShown(image', entries'[at + k], sections[k]) {
        var rva := entries[at + k].location.rva;
        assert SectionShown(image, entries[at + k], sections[k]);
        if sections[k].succeeds {
          SliceStays(image, image', rva, rva + |sections[k].Shown()|);
        }
      }
    }
  }

  lemma {:induction false} SectionAppended(was: seq<byte>, s: Section)
    requires s.Valid() && s.succeeds && STREAMS_START <= |was| && |was + s.bytes| < U32_LIMIT
    ensures SectionShown(was + s.bytes, EntryFor(s, |was|), s)
  {
    var lo, hi := s.offset, Min(s.offset + s.size, |s.bytes|);
    assert (was + s.bytes)[|was| + lo..|was| + hi] == s.bytes[lo..hi];
  }

  /** Entry of a section written behind `start` bytes. */
  function EntryOf(s: Section, start: nat): Directory {
    if s.succeeds then EntryFor(s, start) else NO_DIRECTORY
  }

  /** One more section was appended to the buffer, and its entry put into the directory. */
  lemma {:induction false} SectionsSnoc(was: seq<byte>, mid: seq<byte>, image: seq<byte>, entries: seq<Directory>,
                                        at: nat, sections: seq<Section>, s: Section)
    requires s.Valid() && AllValid(sections)
    requires SectionsShown(was, entries, at, sections) && at + |sections| == |entries|
    requires STREAMS_START <= |was| <= |mid|
    requires (|mid| < U32_LIMIT ==> mid == was + s.bytes) && Continues(mid, image)
    ensures SectionsShown(image, entries + [EntryOf(s, |was|)], at, sections + [s])
  {
    var d := EntryOf(s, |was|);
    AppendContinues(was, mid);
    ContinuesOn(was, mid, image);
    SectionsStay(was, image, entries, entries + [d], at, sections);
    if |image| < U32_LIMIT && s.succeeds {
      SectionAppended(was, s);
      SliceStays(mid, image, d.location.rva, d.location.rva + |s.Shown()|);
    }
  }

  /** The entry of a section that fits may be written next. */
  lemma {:induction false} SectionFitsNext(entries: seq<Directory>, s: Section, start: nat, size: nat, frame: Frame)
    requires |entries| < NUM_WRITERS && Fits(s, |entries|, frame)
    requires size >= start + |s.bytes| && (size < U32_LIMIT ==> size == start + |s.bytes|)
    ensures FitsNext(entries, Some(EntryOf(s, start)), size, frame)
  {
    if size < U32_LIMIT && s.succeeds {
      EntryInFileIff(s, start);
    }
  }

  /** Between two streams of a run whose first flush is complete. */
  ghost predicate Going(dir: DirSection, image: seq<byte>, frame: Frame)
    reads dir, dir.destination
  {
    Ready(dir, image, frame) && dir.log != []
  }

  /** A stream without which the dump is given up. */
  method RequiredStream(dir: DirSection, buffer: Buffer, s: Section, ghost frame: Frame, ghost at: nat,
                        ghost sections: seq<Section>)
    returns (ok: bool)
    requires Going(dir, buffer.inner, frame) && |dir.entries| < NUM_WRITERS && Fits(s, |dir.entries|, frame)
    requires AllValid(sections)
    requires SectionsShown(buffer.inner, dir.entries, at, sections) && at + |sections| == |dir.entries|
    modifies dir, dir.destination, buffer
    ensures GoodLog(dir.log, dir.initial, dir.startOffset, frame)
    ensures HeadKept(old(dir.destination.bytes), dir.destination.bytes, dir.startOffset)
    ensures Intact(dir, old(dir.destination.failures))
    ensures !ok && dir.destination.failures == old(dir.destination.failures) ==>
      !s.succeeds && dir.entries == old(dir.entries)
    ensures ok ==> Going(dir, buffer.inner, frame) && Continues(old(buffer.inner), buffer.inner)
    ensures ok ==> s.succeeds && |dir.entries| == old(|dir.entries|) + 1 && old(dir.entries) <= dir.entries
    ensures ok ==> Flushed(dir, buffer.inner) && SectionsShown(buffer.inner, dir.entries, at, sections + [s])
  {
    ghost var was := buffer.inner;
    var dirent := WriteSection(buffer, s);
    ok := dirent.Some?;
    if ok {
      ghost var mid := buffer.inner;
      ReadyAfterStream(dir, was, mid, frame);
      SectionFitsNext(dir.entries, s, |was|, |mid|, frame);
      ok := Publish(dir, buffer, dirent, frame);
      if ok {
        ContinuesOn(was, mid, buffer.inner);
        SectionsSnoc(was, mid, buffer.inner, old(dir.entries), at, sections, s);
      }
    } else {
      ReadyIsIntact(dir, was, frame);
    }
  }

  /** A stream whose failure leaves an empty entry; only the destination can end the run here. */
  method OptionalStream(dir: DirSection, buffer: Buffer, s: Section, ghost frame: Frame, ghost at: nat,
                        ghost sections: seq<Section>)
    returns (ok: bool)
    requires Going(dir, buffer.inner, frame) && |dir.entries| < NUM_WRITERS && Fits(s, |dir.entries|, frame)
    requires AllValid(sections)
    requires SectionsShown(buffer.inner, dir.entries, at, sections) && at + |sections| == |dir.entries|
    modifies dir, dir.destination, buffer
    ensures GoodLog(dir.log, dir.initial, dir.startOffset, frame)
    ensures HeadKept(old(dir.destination.bytes), dir.destination.bytes, dir.startOffset)
    ensures Intact(dir, old(dir.destination.failures))
    ensures ok <==> dir.destination.failures == old(dir.destination.failures)
    ensures ok ==> Going(dir, buffer.inner, frame) && Continues(old(buffer.inner), buffer.inner)
    ensures ok ==> |dir.entries| == old(|dir.entries|) + 1 && old(dir.entries) <= dir.entries
    ensures ok ==> Flushed(dir, buffer.inner) && SectionsShown(buffer.inner, dir.entries, at, sections + [s])
  {
    ghost var was := buffer.inner;
    var dirent := WriteSection(buffer, s);
    ghost var mid := buffer.inner;
    ReadyAfterStream(dir, was, mid, frame);
    SectionFitsNext(dir.entries, s, |was|, |mid|, frame);
    ok := Publish(dir, buffer, Some(if dirent.Some? then dirent.value else NO_DIRECTORY), frame);
    if ok {
      ContinuesOn(was, mid, buffer.inner);
      SectionsSnoc(was, mid, buffer.inner, old(dir.entries), at, sections, s);
    }
  }

  // ---- Steps ----

  /** A stream and whether the dump is given up without it. */
  datatype Step = Step(section: Section, required: bool)

  function SectionsOf(steps: seq<Step>): (sections: seq<Section>)
    ensures |sections| == |steps|
  {
    seq(|steps|, i requires 0 <= i < |steps| => steps[i].section)
  }

  /** The steps may follow behind `at` entries. */
  predicate AllFit(steps: seq<Step>, at: nat, frame: Frame) {
    forall i :: 0 <= i < |steps| ==> Fits(steps[i].section, at + i, frame)
  }

  /** Entry e, counted from `at`, is that of a required step that failed. */
  predicate FailedStep(steps: seq<Step>, at: nat, e: nat) {
    at <= e < at + |steps| && steps[e - at].required && !steps[e - at].section.succeeds
  }

  /** No required step failed. */
  predicate NoneFailed(steps: seq<Step>) {
    forall i :: 0 <= i < |steps| && steps[i].required ==> steps[i].section.succeeds
  }

  method RunStep(dir: DirSection, buffer: Buffer, step: Step, ghost frame: Frame, ghost at: nat,
                 ghost sections: seq<Section>)
    returns (ok: bool)
    requires Going(dir, buffer.inner, frame) && |dir.entries| < NUM_WRITERS
    requires Fits(step.section, |dir.entries|, frame) && AllValid(sections)
    requires SectionsShown(buffer.inner, dir.entries, at, sections) && at + |sections| == |dir.entries|
    modifies dir, dir.destination, buffer
    ensures GoodLog(dir.log, dir.initial, dir.startOffset, frame)
    ensures HeadKept(old(dir.destination.bytes), dir.destination.bytes, dir.startOffset)
    ensures Intact(dir, old(dir.destination.failures))
    ensures !ok && dir.destination.failures == old(dir.destination.failures) ==>
      step.required && !step.section.succeeds && dir.entries == old(dir.entries)
    ensures ok ==> Going(dir, buffer.inner, frame) && Continues(old(buffer.inner), buffer.inner)
    ensures ok ==> |dir.entries| == old(|dir.entries|) + 1 && old(dir.entries) <= dir.entries
    ensures ok ==> Flushed(dir, buffer.inner) && (step.required ==> step.section.succeeds)
    ensures ok ==> SectionsShown(buffer.inner, dir.entries, at, sections + [step.section])
  {
    if step.required {
      ok := RequiredStream(dir, buffer, step.section, frame, at, sections);
    } else {
      ok := OptionalStream(dir, buffer, step.section, frame, at, sections);
    }
  }

  lemma {:induction false} IntactSince(dir: DirSection, before: nat, since: nat)
    requires Intact(dir, since) && before <= since
    ensures Intact(dir, before)
  {
  }

  /** Streams one after the other; only a required one that fails, or the destination, ends the run. */
  method RunSteps(dir: DirSection, buffer: Buffer, steps: seq<Step>, ghost frame: Frame) returns (ok: bool)
    requires Going(dir, buffer.inner, frame) && AllFit(steps, |dir.entries|, frame)
    requires |dir.entries| + |steps| <= NUM_WRITERS
    modifies dir, dir.destination, buffer
    ensures GoodLog(dir.log, dir.initial, dir.startOffset, frame)
    ensures HeadKept(old(dir.destination.bytes), dir.destination.bytes, dir.startOffset)
    ensures Intact(dir, old(dir.destination.failures))
    ensures !ok && dir.destination.failures == old(dir.destination.failures) ==>
      FailedStep(steps, old(|dir.entries|), |dir.entries|)
    ensures ok ==> Going(dir, buffer.inner, frame) && Continues(old(buffer.inner), buffer.inner)
    ensures ok ==> |dir.entries| == old(|dir.entries|) + |steps| && old(dir.entries) <= dir.entries
    ensures AllValid(SectionsOf(steps))
    ensures ok ==> NoneFailed(steps)
    ensures ok ==> SectionsShown(buffer.inner, dir.entries, old(|dir.entries|), SectionsOf(steps))
  {
    ghost var at, was, entries := |dir.entries|, buffer.inner, dir.entries;
    ghost var file, failures := dir.destination.bytes, dir.destination.failures;
    ok := true;
    ReadyIsIntact(dir, buffer.inner, frame);
    for i := 0 to |steps|
      invariant Going(dir, buffer.inner, frame) && Continues(was, buffer.inner)
      invariant |dir.entries| == at + i && entries <= dir.entries
      invariant HeadKept(file, dir.destination.bytes, dir.startOffset) && Intact(dir, failures)
      invariant AllValid(SectionsOf(steps[..i])) && NoneFailed(steps[..i])
      invariant SectionsShown(buffer.inner, dir.entries, at, SectionsOf(steps[..i]))
    {
      ghost var image, mid, since := buffer.inner, dir.destination.bytes, dir.destination.failures;
      assert SectionsOf(steps[..i + 1]) == SectionsOf(steps[..i]) + [steps[i].section];
      ok := RunStep(dir, buffer, steps[i], frame, at, SectionsOf(steps[..i]));
      HeadKeptOn(file, mid, dir.destination.bytes, dir.startOffset);
      IntactSince(dir, failures, since);
      if !ok { return; }
      ContinuesOn(was, image, buffer.inner);
    }
    assert steps[..|steps|] == steps;
  }
}
