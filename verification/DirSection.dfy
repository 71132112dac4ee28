/**
 * The directory of a dump and the copy of the dump in a seekable destination. Each flush
 * writes one directory entry in place, then everything appended since the last flush.
 */
module DirSection {
  import opened Bytes
  import opened Format
  import opened DumpBuffer

  /** The contents of file f after writing data at position `at`; a gap reads as zeros. */
  function Overlay(f: seq<byte>, at: nat, data: seq<byte>): (r: seq<byte>)
    ensures |r| == if data == [] then |f| else Max(|f|, at + |data|)
  {
    seq(if data == [] then |f| else Max(|f|, at + |data|),
        i requires 0 <= i => if at <= i < at + |data| then data[i - at] else if i < |f| then f[i] else 0)
  }

  /** What was written is found where it was written, behind what the file held there. */
  lemma {:induction false} OverlayShows(f: seq<byte>, at: nat, data: seq<byte>)
    requires data != []
    ensures var r := Overlay(f, at, data);
            at + |data| <= |r| && r[at..at + |data|] == data && forall j :: 0 <= j < at && j < |f| ==> r[j] == f[j]
  {
  }

  lemma {:induction false} OverlayAppend(f: seq<byte>, at: nat, d: seq<byte>, e: seq<byte>)
    ensures Overlay(Overlay(f, at, d), at + |d|, e) == Overlay(f, at, d + e)
  {
  }

  /** Writing an entry in place and then the unwritten rest leaves the updated buffer in the file. */
  lemma {:induction false} OverlayPatchAndFlush(f: seq<byte>, at: nat, b: seq<byte>, last: nat, off: nat,
                                                e: seq<byte>)
    requires last <= |b| && off + |e| <= |b| && e != []
    ensures var b' := Put(b, off, e);
            Overlay(Overlay(Overlay(f, at, b[..last]), at + off, e), at + last, b'[last..]) == Overlay(f, at, b')
  {
    var b' := Put(b, off, e);
    PutIsLocal(b, off, e);
    var f1 := Overlay(f, at, b[..last]);
    var f2 := Overlay(f1, at + off, e);
    var f3 := Overlay(f2, at + last, b'[last..]);
    var r := Overlay(f, at, b');
    assert |f3| == |r|;
    forall i | 0 <= i < |r| ensures f3[i] == r[i] {
      if at <= i < at + last {
        if off <= i - at < off + |e| {
          assert b'[off..off + |e|][i - at - off] == e[i - at - off];
        } else {
          assert b'[i - at] == b[i - at];
        }
      }
    }
  }

  /** The file between the two writes of a flush: the part flushed before, and the new entry. */
  function Patched(f: seq<byte>, at: nat, b: seq<byte>, last: nat, off: nat, dirent: Option<Directory>): seq<byte>
    requires last <= |b|
  {
    var flushed := Overlay(f, at, b[..last]);
    if dirent.None? then flushed else Overlay(flushed, at + off, EncodeDirectory(dirent.value))
  }

  function WithEntry(b: seq<byte>, off: nat, dirent: Option<Directory>): seq<byte>
    requires dirent.Some? ==> off + DIRECTORY_SIZE <= |b|
  {
    if dirent.None? then b else Put(b, off, EncodeDirectory(dirent.value))
  }

  /** The file after a flush: the buffer as it then is, over what the file held at first. */
  lemma {:induction false} FlushMirrors(f: seq<byte>, at: nat, b: seq<byte>, last: nat, off: nat,
                                        dirent: Option<Directory>)
    requires last <= |b| && (dirent.Some? ==> off + DIRECTORY_SIZE <= |b|)
    ensures var b' := WithEntry(b, off, dirent);
            |b'| == |b| && b'[..|b'|] == b'
            && Overlay(Patched(f, at, b, last, off, dirent), at + last, b'[last..]) == Overlay(f, at, b')
  {
    if dirent.Some? {
      OverlayPatchAndFlush(f, at, b, last, off, EncodeDirectory(dirent.value));
    } else {
      OverlayAppend(f, at, b[..last], b[last..]);
      assert b[..last] + b[last..] == b;
    }
  }

  /** A seekable destination that may fail at any operation, even half-way through a write. */
  class Destination {
    var bytes: seq<byte>
    var pos: nat
    ghost var failures: nat  // operations that failed so far

    method StreamPosition() returns (ok: bool, p: nat)
      modifies `failures
      ensures ok ==> p == pos
      ensures failures == old(failures) + if ok then 0 else 1
    {
      ok, p := *, pos;
      failures := failures + if ok then 0 else 1;
    }

    method Seek(p: nat) returns (ok: bool)
      modifies this
      ensures bytes == old(bytes)
      ensures pos == if ok then p else old(pos)
      ensures failures == old(failures) + if ok then 0 else 1
    {
      ok := *;
      if ok {
        pos := p;
      }
      failures := failures + if ok then 0 else 1;
    }

    method WriteAll(data: seq<byte>) returns (ok: bool, ghost written: nat)
      modifies this
      ensures written <= |data| && (ok <==> written == |data|)
      ensures bytes == Overlay(old(bytes), old(pos), data[..written])
      ensures pos == old(pos) + written
      ensures failures == old(failures) + if ok then 0 else 1
    {
      var n: nat :| n <= |data|;
      bytes := Overlay(bytes, pos, data[..n]);
      pos := pos + n;
      ok, written := n == |data|, n;
      failures := failures + if ok then 0 else 1;
    }
  }

  /** Below `end` the file has changed in the range from lo to hi at most. */
  predicate Unchanged(was: seq<byte>, now: seq<byte>, end: nat, lo: nat, hi: nat) {
    |was| <= |now| && forall i :: 0 <= i < |was| && i < end && !(lo <= i < hi) ==> now[i] == was[i]
  }

  /** What a reader of the destination sees at the end of a flush. */
  datatype Snapshot = Snapshot(file: seq<byte>, image: seq<byte>, entries: seq<Directory>)

  /** Slot k of the directory holds the k-th entry written, or zeros when there is none yet. */
  predicate SlotsHold(image: seq<byte>, section: MemoryArrayWriter, entries: seq<Directory>) {
    forall k :: 0 <= k < section.count ==>
      Stored(image, section.SlotAt(k), if k < |entries| then EncodeDirectory(entries[k]) else Zeros(DIRECTORY_SIZE))
  }

  class DirSection {
    var currIdx: nat
    const section: MemoryArrayWriter
    const startOffset: nat
    const destination: Destination
    var lastPosition: nat

    ghost const initial: seq<byte>        // the destination when the section was created
    ghost var entries: seq<Directory>     // entries written so far
    ghost var log: seq<Snapshot>          // one per completed flush

    /** What holds whatever was done to the buffer, as long as it did not shrink. */
    ghost predicate Steady(image: seq<byte>)
      reads this, destination
    {
      && lastPosition <= |image| && destination.pos == startOffset + lastPosition
      && section.size == DIRECTORY_SIZE && section.SlotAt(section.count) <= |image|
      && |entries| == currIdx <= section.count
    }

    /** The destination holds exactly the flushed part of the buffer, and the directory its entries. */
    ghost predicate Valid(image: seq<byte>)
      reads this, destination
    {
      && Steady(image)
      && destination.bytes == Overlay(initial, startOffset, image[..lastPosition])
      && section.SlotAt(section.count) < U32_LIMIT
      && SlotsHold(image, section, entries)
    }

    constructor (section: MemoryArrayWriter, startOffset: nat, destination: Destination)
      ensures this.section == section && this.startOffset == startOffset && this.destination == destination
      ensures currIdx == 0 && lastPosition == 0 && entries == [] && log == [] && initial == destination.bytes
    {
      currIdx, lastPosition := 0, 0;
      this.section, this.startOffset, this.destination := section, startOffset, destination;
      initial, entries, log := destination.bytes, [], [];
    }

    /** Puts the entry into its slot of the buffer; what is to be written to the file, and where. */
    method PutEntry(buffer: Buffer, dirent: Directory) returns (at: nat, data: seq<byte>)
      requires section.size == DIRECTORY_SIZE && currIdx < section.count
      requires section.SlotAt(section.count) <= |buffer.inner|
      modifies buffer
      ensures buffer.inner == Put(old(buffer.inner), section.SlotAt(currIdx), EncodeDirectory(dirent))
      ensures at == U32(section.SlotAt(currIdx)) && |data| == DIRECTORY_SIZE
      ensures section.SlotAt(section.count) < U32_LIMIT ==>
        at == section.SlotAt(currIdx) && data == EncodeDirectory(dirent)
    {
      SlotFits(section, currIdx);
      SetValueAt(section, buffer, EncodeDirectory(dirent), currIdx);
      PutIsLocal(old(buffer.inner), section.SlotAt(currIdx), EncodeDirectory(dirent));
      var idxPos := section.LocationOfIndex(currIdx);
      at, data := idxPos.rva, buffer.inner[idxPos.rva..idxPos.rva + idxPos.dataSize];
    }

    /** Puts the entry into the buffer, then over its place in the destination, and returns there. */
    method DumpDirEntry(buffer: Buffer, dirent: Directory) returns (ok: bool)
      requires Steady(buffer.inner) && currIdx < section.count
      modifies `currIdx, destination, buffer
      ensures buffer.inner == Put(old(buffer.inner), section.SlotAt(old(currIdx)), EncodeDirectory(dirent))
      ensures ok ==> currIdx == old(currIdx) + 1 && destination.pos == old(destination.pos)
      ensures ok && old(Valid(buffer.inner)) ==>
        destination.bytes == Patched(initial, startOffset, old(buffer.inner), lastPosition,
                                     section.SlotAt(old(currIdx)), Some(dirent))
      ensures HeadKept(old(destination.bytes), destination.bytes, startOffset)
      ensures var slot := startOffset + U32(section.SlotAt(old(currIdx)));
              Unchanged(old(destination.bytes), destination.bytes, old(|destination.bytes|),
                        slot, slot + DIRECTORY_SIZE)
      ensures if ok then destination.failures == old(destination.failures)
              else destination.failures > old(destination.failures)
    {
      ghost var was, valid, file := buffer.inner, Valid(buffer.inner), destination.bytes;
      ghost var slot := section.SlotAt(currIdx);
      var at, data := PutEntry(buffer, dirent);
      assert at == U32(slot) && |data| == DIRECTORY_SIZE && (valid ==> at == slot && data == EncodeDirectory(dirent));
      var currFilePos;
      ok, currFilePos := destination.StreamPosition();
      if !ok { return; }
      currIdx := currIdx + 1;
      ok := WriteThere(at, data, currFilePos);
      if ok && valid {
        assert destination.bytes == Overlay(file, startOffset + slot, EncodeDirectory(dirent));
        assert file == Overlay(initial, startOffset, was[..lastPosition]);
      }
    }

    /** Writes over an earlier place of the destination and returns to where it stood. */
    method WriteThere(offset: nat, data: seq<byte>, currFilePos: nat) returns (ok: bool)
      modifies destination
      ensures ok ==> destination.pos == currFilePos
      ensures ok ==> destination.bytes == Overlay(old(destination.bytes), startOffset + offset, data)
      ensures HeadKept(old(destination.bytes), destination.bytes, startOffset)
      ensures Unchanged(old(destination.bytes), destination.bytes, old(|destination.bytes|),
                        startOffset + offset, startOffset + offset + |data|)
      ensures if ok then destination.failures == old(destination.failures)
              else destination.failures > old(destination.failures)
    {
      ok := destination.Seek(startOffset + offset);
      if !ok { return; }
      ghost var written;
      ok, written := destination.WriteAll(data);
      if !ok { return; }
      assert data[..written] == data;
      ok := destination.Seek(currFilePos);
    }

    /** Writes everything that was added to the buffer since the last flush. */
    method WriteRest(buffer: Buffer) returns (ok: bool)
      requires lastPosition <= |buffer.inner| && destination.pos == startOffset + lastPosition
      modifies `lastPosition, destination
      ensures HeadKept(old(destination.bytes), destination.bytes, startOffset)
      ensures Unchanged(old(destination.bytes), destination.bytes, startOffset + old(lastPosition), 0, 0)
      ensures if ok then destination.failures == old(destination.failures)
              else destination.failures > old(destination.failures)
      ensures ok ==> lastPosition == |buffer.inner| && destination.pos == startOffset + lastPosition
      ensures ok ==>
        destination.bytes
        == Overlay(old(destination.bytes), startOffset + old(lastPosition), buffer.inner[old(lastPosition)..])
    {
      ghost var rest := buffer.inner[lastPosition..];
      ghost var written;
      ok, written := destination.WriteAll(buffer.inner[lastPosition..]);
      if ok {
        assert rest[..written] == rest;
        lastPosition := |buffer.inner|;
      }
    }

    /** The entry of a flush, if there is one. */
    method WriteEntry(buffer: Buffer, dirent: Option<Directory>) returns (ok: bool)
      requires Steady(buffer.inner)
      requires dirent.Some? ==> currIdx < section.count
      modifies `currIdx, `entries, destination, buffer
      ensures buffer.inner == if dirent.None? then old(buffer.inner)
                else Put(old(buffer.inner), section.SlotAt(old(currIdx)), EncodeDirectory(dirent.value))
      ensures |buffer.inner| == old(|buffer.inner|)
      ensures HeadKept(old(destination.bytes), destination.bytes, startOffset)
      ensures var slot := startOffset + U32(section.SlotAt(old(currIdx)));
              Unchanged(old(destination.bytes), destination.bytes, old(|destination.bytes|),
                        slot, if dirent.Some? then slot + DIRECTORY_SIZE else slot)
      ensures if ok then destination.failures == old(destination.failures)
              else destination.failures > old(destination.failures)
      ensures ok ==> Steady(buffer.inner)
      ensures ok ==> entries == if dirent.None? then old(entries) else old(entries) + [dirent.value]
      ensures ok && old(Valid(buffer.inner)) ==>
        SlotsHold(buffer.inner, section, entries)
        && destination.bytes == Patched(initial, startOffset, old(buffer.inner), lastPosition,
                                        section.SlotAt(old(currIdx)), dirent)
    {
      ok := true;
      if dirent.Some? {
        ghost var was, valid := buffer.inner, Valid(buffer.inner);
        SlotFits(section, currIdx);
        if valid {
          SlotsAfterEntry(was, section, entries, dirent.value);
        }
        ok := DumpDirEntry(buffer, dirent.value);
        if ok {
          entries := entries + [dirent.value];
        }
      }
    }

    /** Writes the entry, if any, and everything that was added to the buffer since the last call. */
    method WriteToFile(buffer: Buffer, dirent: Option<Directory>) returns (ok: bool)
      requires Steady(buffer.inner)
      requires dirent.Some? ==> currIdx < section.count
      modifies this, destination, buffer
      ensures buffer.inner == if dirent.None? then old(buffer.inner)
                else Put(old(buffer.inner), section.SlotAt(old(currIdx)), EncodeDirectory(dirent.value))
      ensures |buffer.inner| == old(|buffer.inner|)
      ensures HeadKept(old(destination.bytes), destination.bytes, startOffset)
      ensures var slot := startOffset + U32(section.SlotAt(old(currIdx)));
              Unchanged(old(destination.bytes), destination.bytes, startOffset + old(lastPosition),
                        slot, if dirent.Some? then slot + DIRECTORY_SIZE else slot)
      ensures if ok then destination.failures == old(destination.failures)
              else destination.failures > old(destination.failures)
      ensures ok ==> Steady(buffer.inner) && lastPosition == |buffer.inner|
      ensures ok ==> entries == if dirent.None? then old(entries) else old(entries) + [dirent.value]
      ensures ok && old(Valid(buffer.inner)) ==>
        Valid(buffer.inner) && destination.bytes == Overlay(initial, startOffset, buffer.inner)
      ensures log == if !ok then old(log) else old(log) + [Snapshot(destination.bytes, buffer.inner, entries)]
    {
      ghost var was, last, slot, valid := buffer.inner, lastPosition, section.SlotAt(currIdx), Valid(buffer.inner);
      ghost var file, end, lo := destination.bytes, startOffset + lastPosition, startOffset + U32(slot);
      ghost var hi := if dirent.Some? then lo + DIRECTORY_SIZE else lo;
      ok := WriteEntry(buffer, dirent);
      UnchangedBelow(file, destination.bytes, end, lo, hi);
      if !ok { return; }
      ghost var mid, image := destination.bytes, buffer.inner;
      ok := WriteRest(buffer);
      if ok && valid {
        RestMirrors(initial, startOffset, was, last, slot, dirent, mid, image, destination.bytes);
      }
      UnchangedOn(file, mid, destination.bytes, end, lo, hi);
      HeadKeptOn(file, mid, destination.bytes, startOffset);
      if ok {
        log := log + [Snapshot(destination.bytes, buffer.inner, entries)];
      }
    }
  }

  lemma {:induction false} RestMirrors(f: seq<byte>, at: nat, b: seq<byte>, last: nat, off: nat,
                                       dirent: Option<Directory>, mid: seq<byte>, image: seq<byte>, now: seq<byte>)
    requires last <= |b| && (dirent.Some? ==> off + DIRECTORY_SIZE <= |b|)
    requires mid == Patched(f, at, b, last, off, dirent) && image == WithEntry(b, off, dirent)
    requires |image| == |b| && now == Overlay(mid, at + last, image[last..])
    ensures now == Overlay(f, at, image) && image[..|image|] == image
  {
    FlushMirrors(f, at, b, last, off, dirent);
  }

  lemma {:induction false} UnchangedBelow(was: seq<byte>, now: seq<byte>, end: nat, lo: nat, hi: nat)
    requires Unchanged(was, now, |was|, lo, hi)
    ensures Unchanged(was, now, end, lo, hi)
  {
  }

  lemma {:induction false} UnchangedOn(a: seq<byte>, b: seq<byte>, c: seq<byte>, end: nat, lo: nat, hi: nat)
    requires Unchanged(a, b, end, lo, hi) && Unchanged(b, c, end, 0, 0)
    ensures Unchanged(a, c, end, lo, hi)
  {
  }

  lemma {:induction false} HeadKeptOn(a: seq<byte>, b: seq<byte>, c: seq<byte>, start: nat)
    requires HeadKept(a, b, start) && HeadKept(b, c, start)
    ensures HeadKept(a, c, start)
  {
  }

  lemma {:induction false} ZeroedSlots(was: seq<byte>, n: nat)
    ensures SlotsHold(was + Zeros(n * DIRECTORY_SIZE), MemoryArrayWriter(U32(|was|), n, DIRECTORY_SIZE), [])
         || |was| >= U32_LIMIT
  {
    if |was| < U32_LIMIT {
      var image, section := was + Zeros(n * DIRECTORY_SIZE), MemoryArrayWriter(|was|, n, DIRECTORY_SIZE);
      forall k | 0 <= k < n ensures Stored(image, section.SlotAt(k), Zeros(DIRECTORY_SIZE)) {
        assert image[section.SlotAt(k)..section.SlotAt(k) + DIRECTORY_SIZE] == Zeros(DIRECTORY_SIZE);
      }
    }
  }

  /** Reserves the directory and asks the destination where it stands, which may fail. */
  method NewSection(buffer: Buffer, indexLength: nat, destination: Destination) returns (r: Option<DirSection>)
    modifies buffer, destination`failures
    ensures buffer.inner == old(buffer.inner) + Zeros(indexLength * DIRECTORY_SIZE)
    ensures destination.failures == old(destination.failures) + if r.Some? then 0 else 1
    ensures r.Some? ==> fresh(r.value) && r.value.Steady(buffer.inner)
    ensures r.Some? && |buffer.inner| < U32_LIMIT ==> r.value.Valid(buffer.inner)
    ensures r.Some? ==> r.value.currIdx == 0 && r.value.lastPosition == 0 && r.value.entries == [] && r.value.log == []
    ensures r.Some? ==> r.value.destination == destination
    ensures r.Some? ==> r.value.startOffset == destination.pos && r.value.initial == destination.bytes
    ensures r.Some? ==> r.value.section == MemoryArrayWriter(U32(old(|buffer.inner|)), indexLength, DIRECTORY_SIZE)
  {
    ghost var was := buffer.inner;
    var section := AllocArray(buffer, indexLength, DIRECTORY_SIZE);
    var ok, startOffset := destination.StreamPosition();
    if !ok {
      return None;
    }
    var dir := new DirSection(section, startOffset, destination);
    ZeroedSlots(was, indexLength);
    assert Overlay(dir.initial, dir.startOffset, []) == dir.initial;
    r := Some(dir);
  }

  /** What the destination held before the dump is not touched. */
  predicate HeadKept(was: seq<byte>, now: seq<byte>, start: nat) {
    |was| <= |now| && forall i :: 0 <= i < start && i < |was| ==> now[i] == was[i]
  }

  lemma {:induction false} SlotFits(section: MemoryArrayWriter, k: nat)
    requires section.size == DIRECTORY_SIZE && k < section.count
    ensures section.LocationOfIndex(k) == Location(DIRECTORY_SIZE, U32(section.SlotAt(k)))
    ensures section.SlotAt(k) + DIRECTORY_SIZE <= section.SlotAt(section.count)
    ensures section.SlotAt(section.count) < U32_LIMIT ==> U32(section.SlotAt(k)) == section.SlotAt(k)
  {
  }

  lemma {:induction false} SlotsAfterEntry(image: seq<byte>, section: MemoryArrayWriter, entries: seq<Directory>,
                                           d: Directory)
    requires section.size == DIRECTORY_SIZE && |entries| < section.count
    requires section.SlotAt(section.count) <= |image|
    requires SlotsHold(image, section, entries)
    ensures SlotsHold(Put(image, section.SlotAt(|entries|), EncodeDirectory(d)), section, entries + [d])
  {
    var e := |entries|;
    var image' := Put(image, section.SlotAt(e), EncodeDirectory(d));
    forall k | 0 <= k < section.count
      ensures Stored(image', section.SlotAt(k),
                     if k < |entries + [d]| then EncodeDirectory((entries + [d])[k]) else Zeros(DIRECTORY_SIZE))
    {
      if k == e {
        PutIsLocal(image, section.SlotAt(e), EncodeDirectory(d));
      } else {
        PutKeepsStored(image, section.SlotAt(e), EncodeDirectory(d), section.SlotAt(k),
                       if k < e then EncodeDirectory(entries[k]) else Zeros(DIRECTORY_SIZE));
      }
    }
  }

  predicate InFile(d: Directory, size: nat) {
    d.location.rva + d.location.dataSize <= size
  }

  // ---- Between the two writes of a flush ----

  /**
   * With the directory itself flushed, the new entry is in the file and what was not flushed before
   * is not: behind the flushed part the file holds what it held at first, or nothing.
   */
  lemma {:induction false} EntryPrecedesItsData(initial: seq<byte>, start: nat, b: seq<byte>, last: nat, slot: nat,
                                                d: Directory)
    requires slot + DIRECTORY_SIZE <= last <= |b|
    ensures var mid := Patched(initial, start, b, last, slot, Some(d));
            |mid| == Max(|initial|, start + last) && Stored(mid, start + slot, EncodeDirectory(d))
            && forall j :: start + last <= j < |mid| ==> mid[j] == initial[j]
  {
    var flushed := Overlay(initial, start, b[..last]);
    assert |flushed| == Max(|initial|, start + last);
    OverlayShows(flushed, start + slot, EncodeDirectory(d));
  }

  /**
   * A flush that ends after its first write, for a stream of positive size appended to a buffer that
   * was flushed. The entry lies outside the file, unless the destination was that long already; and
   * then it shows what the destination held before, not the stream.
   */
  method InterruptedFlush(dir: DirSection, buffer: Buffer, stream: seq<byte>, streamType: u32)
    returns (ok: bool, dirent: Directory)
    requires dir.Valid(buffer.inner) && dir.currIdx < dir.section.count && dir.lastPosition == |buffer.inner|
    requires stream != [] && |buffer.inner| + |stream| < U32_LIMIT
    modifies dir`currIdx, dir.destination, buffer
    ensures dirent == Directory(streamType, Location(|stream|, old(|buffer.inner|)))
    ensures ok ==> dir.startOffset <= |dir.destination.bytes|
    ensures ok ==>
      (InFile(dirent, |dir.destination.bytes| - dir.startOffset) <==>
       dir.startOffset + |buffer.inner| <= |dir.initial|)
    ensures ok ==>
      forall j :: dir.startOffset + old(|buffer.inner|) <= j < |dir.destination.bytes| ==>
        j < |dir.initial| && dir.destination.bytes[j] == dir.initial[j]
  {
    ghost var was, slot := buffer.inner, dir.section.SlotAt(dir.currIdx);
    dirent := Directory(streamType, Location(|stream|, |buffer.inner|));
    buffer.WriteAll(stream);
    ghost var image := buffer.inner;
    assert image[..|was|] == was[..|was|];
    SlotFits(dir.section, dir.currIdx);
    SlotsAppended(was, image, dir.section, dir.entries);
    ok := dir.DumpDirEntry(buffer, dirent);
    EntryPrecedesItsData(dir.initial, dir.startOffset, image, |was|, slot, dirent);
  }

  lemma {:induction false} SlotsAppended(image: seq<byte>, image': seq<byte>, section: MemoryArrayWriter,
                                         entries: seq<Directory>)
    requires SlotsHold(image, section, entries) && image <= image'
    ensures SlotsHold(image', section, entries)
  {
    assert image' == image + image'[|image|..];
    forall k | 0 <= k < section.count
      ensures Stored(image', section.SlotAt(k),
                     if k < |entries| then EncodeDirectory(entries[k]) else Zeros(DIRECTORY_SIZE))
    {
      AppendKeepsStored(image, image'[|image|..], section.SlotAt(k),
                        if k < |entries| then EncodeDirectory(entries[k]) else Zeros(DIRECTORY_SIZE));
    }
  }

  /** The first entry of an empty destination, whose one slot is flushed: it names bytes 12 to 16 of a file of 12. */
  lemma {:induction false} EntryOutsideFile(stream: seq<byte>)
    requires |stream| == 4
    ensures var d := Directory(3, Location(4, 12));
            var mid := Patched([], 0, Zeros(DIRECTORY_SIZE) + stream, 12, 0, Some(d));
            |mid| == 12 && Stored(mid, 0, EncodeDirectory(d)) && !InFile(d, |mid|)
  {
    EntryPrecedesItsData([], 0, Zeros(DIRECTORY_SIZE) + stream, 12, 0, Directory(3, Location(4, 12)));
  }
}
