/**
 * What the destination holds while a dump is written: header, directory, then streams, each flushed
 * before the next is built. Whenever the run ends, what was flushed last is a readable dump, as long
 * as the dump stays below 4 GiB; from there on positions are cut to 32 bits and writes go astray.
 */
module DumpLog {
  import opened Bytes
  import opened Format
  import opened DumpBuffer
  import opened DirSection

  const NUM_WRITERS := 17
  const STREAMS_START := HEADER_SIZE + NUM_WRITERS * DIRECTORY_SIZE
  const SECTION := MemoryArrayWriter(HEADER_SIZE, NUM_WRITERS, DIRECTORY_SIZE)

  /** Index of the entry of the dso-debug stream, whose range may reach beyond what was appended for it. */
  const DSO_ENTRY := 13

  /** What stays the same over a run: the image of the header, and whether the dso-debug range is covered. */
  datatype Frame = Frame(head: seq<byte>, covered: bool)

  function HeaderFor(time: u32): Header {
    Header(SIGNATURE, VERSION, NUM_WRITERS, HEADER_SIZE, 0, time, 0)
  }

  // ---- What a reader finds at a flush ----

  function EntryAt(entries: seq<Directory>, k: nat): Directory {
    if k < |entries| then entries[k] else NO_DIRECTORY
  }

  predicate EntriesInFile(entries: seq<Directory>, size: nat) {
    forall k :: 0 <= k < |entries| && k != DSO_ENTRY ==> InFile(entries[k], size)
  }

  /**
   * The image has the header; slot k of the directory is the k-th entry written, or zero when
   * fewer were; and every entry but that of dso debug names a range inside the image.
   */
  predicate Sealed(image: seq<byte>, entries: seq<Directory>, head: seq<byte>) {
    |entries| <= NUM_WRITERS && STREAMS_START <= |image|
    && Stored(image, 0, head) && SlotsHold(image, SECTION, entries)
    && EntriesInFile(entries, |image|)
  }

  /** Behind the directory, what was written stays as it was. */
  predicate Extends(image: seq<byte>, image': seq<byte>) {
    |image| <= |image'| && forall i :: STREAMS_START <= i < |image| ==> image'[i] == image[i]
  }

  /** The dump grew, and while it is below 4 GiB what was written stays. */
  predicate Continues(image: seq<byte>, image': seq<byte>) {
    |image| <= |image'| && (|image'| < U32_LIMIT ==> Extends(image, image'))
  }

  lemma {:induction false} ContinuesOn(a: seq<byte>, b: seq<byte>, c: seq<byte>)
    requires Continues(a, b) && Continues(b, c)
    ensures Continues(a, c)
  {
  }

  lemma {:induction false} AppendContinues(image: seq<byte>, image': seq<byte>)
    requires |image| <= |image'| && (|image'| < U32_LIMIT ==> image <= image')
    ensures Continues(image, image')
  {
  }

  /** At its own flush, the entry of dso debug names a range inside the image exactly when it is covered. */
  predicate RangeKnown(s: Snapshot, covered: bool) {
    |s.entries| == DSO_ENTRY + 1 ==> (InFile(s.entries[DSO_ENTRY], |s.image|) <==> covered)
  }

  /** Every flush below 4 GiB left a readable dump in the file, and later ones only added to it. */
  predicate GoodLog(log: seq<Snapshot>, initial: seq<byte>, start: nat, frame: Frame) {
    (forall i :: 0 <= i < |log| && |log[i].image| < U32_LIMIT ==>
       log[i].file == Overlay(initial, start, log[i].image) && Sealed(log[i].image, log[i].entries, frame.head)
       && RangeKnown(log[i], frame.covered))
    && forall i, j :: 0 <= i < j < |log| ==>
         Continues(log[i].image, log[j].image) && log[i].entries <= log[j].entries
  }

  predicate LogLeadsTo(log: seq<Snapshot>, image: seq<byte>, entries: seq<Directory>) {
    forall i :: 0 <= i < |log| ==> Continues(log[i].image, image) && log[i].entries <= entries
  }

  lemma {:induction false} ZeroEntry()
    ensures EncodeDirectory(NO_DIRECTORY) == Zeros(DIRECTORY_SIZE)
  {
  }

  lemma {:induction false} SlotReadsBack(image: seq<byte>, entries: seq<Directory>, k: nat)
    requires STREAMS_START <= |image| && SlotsHold(image, SECTION, entries) && k < NUM_WRITERS
    ensures DirectoryAt(image, HEADER_SIZE + DIRECTORY_SIZE * k) == EntryAt(entries, k)
  {
    ZeroEntry();
    DirectoryRoundTrip(EntryAt(entries, k));
    assert Stored(image, SECTION.SlotAt(k), EncodeDirectory(EntryAt(entries, k)));
  }

  lemma {:induction false} SealedHeader(image: seq<byte>, entries: seq<Directory>, time: u32)
    requires Sealed(image, entries, EncodeHeader(HeaderFor(time)))
    ensures HeaderAt(image, 0) == HeaderFor(time)
  {
    HeaderRoundTrip(HeaderFor(time));
  }

  /** Reading a sealed image gives the header and the entries back, and zeros behind them. */
  lemma {:induction false} SealedReadsBack(image: seq<byte>, entries: seq<Directory>, time: u32, k: nat)
    requires Sealed(image, entries, EncodeHeader(HeaderFor(time))) && k < NUM_WRITERS
    ensures HeaderAt(image, 0) == HeaderFor(time)
    ensures DirectoryAt(image, HEADER_SIZE + DIRECTORY_SIZE * k) == EntryAt(entries, k)
  {
    SealedHeader(image, entries, time);
    assert DirectoryAt(image, HEADER_SIZE + DIRECTORY_SIZE * k) == EntryAt(entries, k) by {
      SlotReadsBack(image, entries, k);
    }
  }

  /** What a reader finds of a snapshot in the file: header, entry k or zeros, and the stream it names. */
  predicate Readable(s: Snapshot, initial: seq<byte>, start: nat, time: u32, k: nat)
    requires k < NUM_WRITERS
  {
    start + |s.image| <= |s.file| && s.file[start..start + |s.image|] == s.image
    && (forall j :: 0 <= j < start && j < |initial| ==> s.file[j] == initial[j])
    && STREAMS_START <= |s.image| && HeaderAt(s.image, 0) == HeaderFor(time)
    && DirectoryAt(s.image, HEADER_SIZE + DIRECTORY_SIZE * k) == EntryAt(s.entries, k)
    && (k != DSO_ENTRY ==> InFile(EntryAt(s.entries, k), |s.image|)) && |s.entries| <= NUM_WRITERS
  }

  lemma {:induction false} SnapshotReadsBack(s: Snapshot, initial: seq<byte>, start: nat, time: u32, k: nat)
    requires s.file == Overlay(initial, start, s.image) && k < NUM_WRITERS
    requires Sealed(s.image, s.entries, EncodeHeader(HeaderFor(time)))
    ensures Readable(s, initial, start, time, k)
  {
    assert start + |s.image| <= |s.file| && s.file[start..start + |s.image|] == s.image
           && forall j :: 0 <= j < start && j < |initial| ==> s.file[j] == initial[j] by {
      OverlayShows(initial, start, s.image);
    }
    SealedReadsBack(s.image, s.entries, time, k);
  }

  /**
   * Truncation safety at flushes: whichever flush of a run was the last to complete, the file then
   * held, from where the dump starts, a valid header, the entries written so far with ranges inside
   * what was flushed, and zeros in the other slots; what later flushes add leaves its streams alone.
   * The range of dso debug lies inside what its own flush wrote exactly when it is covered.
   */
  lemma {:induction false} TruncationSafety(log: seq<Snapshot>, initial: seq<byte>, start: nat, time: u32,
                                            covered: bool, i: nat, k: nat)
    requires GoodLog(log, initial, start, Frame(EncodeHeader(HeaderFor(time)), covered))
    requires i < |log| && k < NUM_WRITERS && |log[i].image| < U32_LIMIT
    ensures Readable(log[i], initial, start, time, k) && RangeKnown(log[i], covered)
    ensures forall j :: i < j < |log| ==> Continues(log[i].image, log[j].image) && log[i].entries <= log[j].entries
  {
    SnapshotReadsBack(log[i], initial, start, time, k);
  }

  // ---- What is left when a flush does not complete ----

  /** The slot that the next entry would be written to. */
  predicate InNextSlot(entries: seq<Directory>, j: nat) {
    |entries| < NUM_WRITERS && SECTION.SlotAt(|entries|) <= j < SECTION.SlotAt(|entries|) + DIRECTORY_SIZE
  }

  /** The file still shows the snapshot, but for the slot of the next entry. */
  predicate Survives(file: seq<byte>, start: nat, s: Snapshot) {
    start + |s.image| <= |file|
    && forall j :: 0 <= j < |s.image| && !InNextSlot(s.entries, j) ==> file[start + j] == s.image[j]
  }

  /** The last completed flush, if it was below 4 GiB, is still there. */
  predicate Stands(file: seq<byte>, log: seq<Snapshot>, start: nat) {
    log != [] && |log[|log| - 1].image| < U32_LIMIT ==> Survives(file, start, log[|log| - 1])
  }

  lemma {:induction false} SurvivingSlice(file: seq<byte>, start: nat, s: Snapshot, lo: nat, hi: nat)
    requires Survives(file, start, s) && lo <= hi <= |s.image|
    requires |s.entries| < NUM_WRITERS ==>
      hi <= SECTION.SlotAt(|s.entries|) || SECTION.SlotAt(|s.entries|) + DIRECTORY_SIZE <= lo
    ensures file[start + lo..start + hi] == s.image[lo..hi]
  {
  }

  lemma {:induction false} SurvivingHeader(file: seq<byte>, start: nat, s: Snapshot, head: seq<byte>)
    requires Survives(file, start, s) && STREAMS_START <= |s.image| && |head| == HEADER_SIZE && Stored(s.image, 0, head)
    ensures HeaderAt(file, start) == DecodeHeader(head)
  {
    SurvivingSlice(file, start, s, 0, HEADER_SIZE);
    assert file[start..start + HEADER_SIZE] == head;
  }

  lemma {:induction false} SurvivingEntry(file: seq<byte>, start: nat, s: Snapshot, k: nat)
    requires Survives(file, start, s) && STREAMS_START <= |s.image| && SlotsHold(s.image, SECTION, s.entries)
    requires k < NUM_WRITERS && k != |s.entries|
    ensures DirectoryAt(file, start + HEADER_SIZE + DIRECTORY_SIZE * k) == EntryAt(s.entries, k)
  {
    var at := HEADER_SIZE + DIRECTORY_SIZE * k;
    assert DirectoryAt(s.image, at) == EntryAt(s.entries, k) by { SlotReadsBack(s.image, s.entries, k); }
    SurvivingSlice(file, start, s, at, at + DIRECTORY_SIZE);
  }

  /**
   * Truncation safety at any moment: a reader of the file that is left, even by a flush that broke off
   * half-way, finds the header, every entry of the last completed flush, zeros in the slots behind the
   * next one, and every byte of its streams.
   */
  lemma {:induction false} SurvivorReadsBack(file: seq<byte>, start: nat, s: Snapshot, head: seq<byte>, h: Header,
                                             k: nat)
    requires Survives(file, start, s) && Sealed(s.image, s.entries, head)
    requires |head| == HEADER_SIZE && DecodeHeader(head) == h
    requires k < NUM_WRITERS && k != |s.entries|
    ensures HeaderAt(file, start) == h
    ensures DirectoryAt(file, start + HEADER_SIZE + DIRECTORY_SIZE * k) == EntryAt(s.entries, k)
    ensures file[start + STREAMS_START..start + |s.image|] == s.image[STREAMS_START..]
  {
    SurvivingHeader(file, start, s, head);
    SurvivingEntry(file, start, s, k);
    SurvivingSlice(file, start, s, STREAMS_START, |s.image|);
  }

  // ---- The state between two steps ----

  /** The destination is what the last flush left, and so are the entries. */
  ghost predicate Current(dir: DirSection)
    reads dir, dir.destination
  {
    if dir.log == [] then dir.lastPosition == 0 else
      var s := dir.log[|dir.log| - 1];
      dir.lastPosition == |s.image| && dir.destination.bytes == s.file && dir.entries == s.entries
  }

  ghost predicate Ready(dir: DirSection, image: seq<byte>, frame: Frame)
    reads dir, dir.destination
  {
    && dir.Steady(image) && dir.section == SECTION && |frame.head| == HEADER_SIZE && Current(dir)
    && GoodLog(dir.log, dir.initial, dir.startOffset, frame)
    && LogLeadsTo(dir.log, image, dir.entries)
    && (|image| < U32_LIMIT ==> dir.Valid(image) && Sealed(image, dir.entries, frame.head))
  }

  /**
   * How a run may leave things: the last completed flush stands; and unless an operation of the
   * destination failed since there were `failures`, the destination is exactly what it left.
   */
  ghost predicate Intact(dir: DirSection, failures: nat)
    reads dir, dir.destination
  {
    Stands(dir.destination.bytes, dir.log, dir.startOffset) && failures <= dir.destination.failures
    && (dir.destination.failures == failures ==> dir.log != [] && Current(dir))
  }

  lemma {:induction false} SnapshotSurvives(initial: seq<byte>, start: nat, s: Snapshot)
    requires s.file == Overlay(initial, start, s.image) && s.image != []
    ensures Survives(s.file, start, s)
  {
    OverlayShows(initial, start, s.image);
    forall j | 0 <= j < |s.image| ensures s.file[start + j] == s.image[j] {
      assert s.file[start..start + |s.image|][j] == s.image[j];
    }
  }

  lemma {:induction false} ReadyIsIntact(dir: DirSection, image: seq<byte>, frame: Frame)
    requires Ready(dir, image, frame) && dir.log != []
    ensures Intact(dir, dir.destination.failures)
  {
    var s := dir.log[|dir.log| - 1];
    if |s.image| < U32_LIMIT {
      SnapshotSurvives(dir.initial, dir.startOffset, s);
    }
  }

  lemma {:induction false} SlotIsExact(k: nat)
    requires k <= NUM_WRITERS
    ensures U32(SECTION.SlotAt(k)) == SECTION.SlotAt(k)
  {
  }

  /** A flush that broke off touched the next slot and what lies behind the last flush. */
  lemma {:induction false} BrokenFlushStands(was: seq<byte>, now: seq<byte>, initial: seq<byte>, start: nat,
                                             log: seq<Snapshot>, entry: bool, frame: Frame)
    requires GoodLog(log, initial, start, frame) && log != [] && was == log[|log| - 1].file
    requires var s := log[|log| - 1];
             |s.entries| + (if entry then 1 else 0) <= NUM_WRITERS
             && var slot := start + U32(SECTION.SlotAt(|s.entries|));
             Unchanged(was, now, start + |s.image|, slot, if entry then slot + DIRECTORY_SIZE else slot)
    ensures Stands(now, log, start)
  {
    var s := log[|log| - 1];
    if |s.image| < U32_LIMIT {
      SlotIsExact(|s.entries|);
      SnapshotSurvives(initial, start, s);
    }
  }

  lemma {:induction false} LogLeadsOn(log: seq<Snapshot>, image: seq<byte>, image': seq<byte>,
                                      entries: seq<Directory>, entries': seq<Directory>)
    requires LogLeadsTo(log, image, entries) && Continues(image, image') && entries <= entries'
    ensures LogLeadsTo(log, image', entries')
  {
    forall i | 0 <= i < |log| ensures Continues(log[i].image, image') {
      ContinuesOn(log[i].image, image, image');
    }
  }

  lemma {:induction false} SealedAppend(image: seq<byte>, image': seq<byte>, entries: seq<Directory>, head: seq<byte>)
    requires Sealed(image, entries, head) && image <= image'
    ensures Sealed(image', entries, head)
  {
    SlotsAppended(image, image', SECTION, entries);
    assert image' == image + image'[|image|..];
    AppendKeepsStored(image, image'[|image|..], 0, head);
  }

  /** A stream that was written behind the others leaves the program ready for the next flush. */
  lemma {:induction false} ReadyAfterStream(dir: DirSection, image: seq<byte>, image': seq<byte>, frame: Frame)
    requires Ready(dir, image, frame) && |image| <= |image'| && (|image'| < U32_LIMIT ==> image <= image')
    ensures Ready(dir, image', frame) && Continues(image, image')
  {
    AppendContinues(image, image');
    LogLeadsOn(dir.log, image, image', dir.entries, dir.entries);
    if |image'| < U32_LIMIT {
      SealedAppend(image, image', dir.entries, frame.head);
      assert image'[..dir.lastPosition] == image[..dir.lastPosition];
    }
  }

  lemma {:induction false} GoodLogSnoc(log: seq<Snapshot>, s: Snapshot, initial: seq<byte>, start: nat, frame: Frame)
    requires GoodLog(log, initial, start, frame) && LogLeadsTo(log, s.image, s.entries)
    requires |s.image| < U32_LIMIT ==>
      s.file == Overlay(initial, start, s.image) && Sealed(s.image, s.entries, frame.head)
      && RangeKnown(s, frame.covered)
    ensures GoodLog(log + [s], initial, start, frame)
    ensures LogLeadsTo(log + [s], s.image, s.entries)
  {
  }

  /** Putting an entry into the directory touches neither the header nor the streams. */
  lemma {:induction false} EntryIsLocal(image: seq<byte>, k: nat, d: Directory, head: seq<byte>)
    requires k < NUM_WRITERS && STREAMS_START <= |image|
    requires |head| == HEADER_SIZE && Stored(image, 0, head)
    ensures var image' := Put(image, SECTION.SlotAt(k), EncodeDirectory(d));
            |image'| == |image| && Extends(image, image') && Stored(image', 0, head)
  {
    PutKeepsStored(image, SECTION.SlotAt(k), EncodeDirectory(d), 0, head);
    PutIsLocal(image, SECTION.SlotAt(k), EncodeDirectory(d));
  }

  function AfterEntry(image: seq<byte>, entries: seq<Directory>, dirent: Option<Directory>): (r: seq<byte>)
    requires |entries| <= NUM_WRITERS && STREAMS_START <= |image|
  {
    if dirent.None? then image else Put(image, SECTION.SlotAt(|entries|), EncodeDirectory(dirent.value))
  }

  function Entered(entries: seq<Directory>, dirent: Option<Directory>): seq<Directory> {
    if dirent.None? then entries else entries + [dirent.value]
  }

  /** An entry keeps the image sealed, and the streams behind the directory. */
  lemma {:induction false} EntryKeepsSealed(image: seq<byte>, entries: seq<Directory>, dirent: Option<Directory>,
                                            head: seq<byte>)
    requires |entries| + (if dirent.Some? then 1 else 0) <= NUM_WRITERS
    requires |head| == HEADER_SIZE && Sealed(image, entries, head)
    requires dirent.Some? && |entries| != DSO_ENTRY ==> InFile(dirent.value, |image|)
    ensures var image', entries' := AfterEntry(image, entries, dirent), Entered(entries, dirent);
            |image'| == |image| && Extends(image, image') && Sealed(image', entries', head)
  {
    if dirent.Some? {
      EntryIsLocal(image, |entries|, dirent.value, head);
      SlotsAfterEntry(image, SECTION, entries, dirent.value);
    }
  }

  /** The last completed flush wrote all of the image and its entries, and the destination holds them. */
  ghost predicate Flushed(dir: DirSection, image: seq<byte>)
    reads dir, dir.destination
  {
    |dir.log| > 0 && dir.log[|dir.log| - 1].image == image && Current(dir)
  }

  /** An entry that may be written next: its range lies in the image, or is that of dso debug. */
  predicate FitsNext(entries: seq<Directory>, dirent: Option<Directory>, size: nat, frame: Frame) {
    if dirent.None? then |entries| <= DSO_ENTRY
    else
      |entries| < NUM_WRITERS
      && (size < U32_LIMIT ==>
            if |entries| == DSO_ENTRY then InFile(dirent.value, size) <==> frame.covered
            else InFile(dirent.value, size))
  }

  lemma {:induction false} PublishedIsGood(dir: DirSection, was: seq<byte>, image: seq<byte>, entries: seq<Directory>,
                                           dirent: Option<Directory>, log: seq<Snapshot>, s: Snapshot, frame: Frame)
    requires |frame.head| == HEADER_SIZE && |entries| <= NUM_WRITERS && STREAMS_START <= |was| == |image|
    requires FitsNext(entries, dirent, |was|, frame)
    requires image == AfterEntry(was, entries, dirent) && s.image == image && s.entries == Entered(entries, dirent)
    requires GoodLog(log, dir.initial, dir.startOffset, frame) && LogLeadsTo(log, was, entries)
    requires |was| < U32_LIMIT ==>
      Sealed(was, entries, frame.head) && s.file == Overlay(dir.initial, dir.startOffset, image)
    ensures Continues(was, image) && GoodLog(log + [s], dir.initial, dir.startOffset, frame)
    ensures LogLeadsTo(log + [s], image, s.entries)
    ensures |image| < U32_LIMIT ==> Sealed(image, s.entries, frame.head)
  {
    if |image| < U32_LIMIT {
      EntryKeepsSealed(was, entries, dirent, frame.head);
    }
    LogLeadsOn(log, was, image, entries, s.entries);
    GoodLogSnoc(log, s, dir.initial, dir.startOffset, frame);
  }

  /** The state after a completed flush. */
  lemma {:induction false} AfterFlush(dir: DirSection, was: seq<byte>, image: seq<byte>, entries: seq<Directory>,
                                      dirent: Option<Directory>, log: seq<Snapshot>, frame: Frame)
    requires |frame.head| == HEADER_SIZE && |entries| <= NUM_WRITERS && STREAMS_START <= |was| == |image|
    requires FitsNext(entries, dirent, |was|, frame) && image == AfterEntry(was, entries, dirent)
    requires GoodLog(log, dir.initial, dir.startOffset, frame) && LogLeadsTo(log, was, entries)
    requires |was| < U32_LIMIT ==> Sealed(was, entries, frame.head)
    requires dir.Steady(image) && dir.section == SECTION && dir.lastPosition == |image|
    requires dir.entries == Entered(entries, dirent)
    requires dir.log == log + [Snapshot(dir.destination.bytes, image, dir.entries)]
    requires |was| < U32_LIMIT ==>
      dir.Valid(image) && dir.destination.bytes == Overlay(dir.initial, dir.startOffset, image)
    ensures Ready(dir, image, frame) && Flushed(dir, image) && Continues(was, image)
    ensures Intact(dir, dir.destination.failures)
  {
    PublishedIsGood(dir, was, image, entries, dirent, log, dir.log[|dir.log| - 1], frame);
    ReadyIsIntact(dir, image, frame);
  }

  /** Flushes what the buffer holds, with an entry for the stream that was just built. */
  method Publish(dir: DirSection, buffer: Buffer, dirent: Option<Directory>, ghost frame: Frame) returns (ok: bool)
    requires Ready(dir, buffer.inner, frame) && FitsNext(dir.entries, dirent, |buffer.inner|, frame)
    modifies dir, dir.destination, buffer
    ensures GoodLog(dir.log, dir.initial, dir.startOffset, frame)
    ensures HeadKept(old(dir.destination.bytes), dir.destination.bytes, dir.startOffset)
    ensures Intact(dir, old(dir.destination.failures))
    ensures ok <==> dir.destination.failures == old(dir.destination.failures)
    ensures ok ==> Ready(dir, buffer.inner, frame) && Continues(old(buffer.inner), buffer.inner)
    ensures ok ==> |buffer.inner| == old(|buffer.inner|)
    ensures ok ==> dir.entries == Entered(old(dir.entries), dirent)
    ensures ok ==> Flushed(dir, buffer.inner)
    ensures !ok ==> dir.log == old(dir.log)
  {
    ghost var was, entries, log, file := buffer.inner, dir.entries, dir.log, dir.destination.bytes;
    ok := dir.WriteToFile(buffer, dirent);
    if ok {
      assert buffer.inner == AfterEntry(was, entries, dirent) && dir.entries == Entered(entries, dirent);
      AfterFlush(dir, was, buffer.inner, entries, dirent, log, frame);
    } else if log != [] {
      BrokenFlushStands(file, dir.destination.bytes, dir.initial, dir.startOffset, log, dirent.Some?, frame);
    }
  }
}
