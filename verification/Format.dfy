/** The records of the minidump format that the writer lays out, and how they are read back. */
module Format {
  import opened Bytes

  datatype Location = Location(dataSize: u32, rva: u32)
  datatype Directory = Directory(streamType: u32, location: Location)
  datatype Descriptor = Descriptor(start: u64, memory: Location)
  datatype Header = Header(signature: u32, version: u32, streamCount: u32, directoryRva: u32,
                           checksum: u32, timeDateStamp: u32, flags: u64)
  datatype Thread = Thread(threadId: u32, suspendCount: u32, priorityClass: u32, priority: u32,
                           teb: u64, stack: Descriptor, context: Location)

  const SIGNATURE: u32 := 0x504d_444d
  const VERSION: u32 := 0xa793
  const LOCATION_SIZE := 8
  const DIRECTORY_SIZE := 12
  const DESCRIPTOR_SIZE := 16
  const HEADER_SIZE := 32
  const THREAD_SIZE := 48

  const NO_LOCATION := Location(0, 0)
  const NO_DIRECTORY := Directory(0, NO_LOCATION)
  const NO_DESCRIPTOR := Descriptor(0, NO_LOCATION)

  function EncodeLocation(l: Location): (s: seq<byte>)
    ensures |s| == LOCATION_SIZE
  {
    ToLE(l.dataSize, 4) + ToLE(l.rva, 4)
  }

  function DecodeLocation(s: seq<byte>): Location
    requires |s| == LOCATION_SIZE
  {
    Location(GetU32(s, 0), GetU32(s, 4))
  }

  function EncodeDirectory(d: Directory): (s: seq<byte>)
    ensures |s| == DIRECTORY_SIZE
  {
    ToLE(d.streamType, 4) + EncodeLocation(d.location)
  }

  function DecodeDirectory(s: seq<byte>): Directory
    requires |s| == DIRECTORY_SIZE
  {
    Directory(GetU32(s, 0), DecodeLocation(s[4..]))
  }

  function EncodeDescriptor(d: Descriptor): (s: seq<byte>)
    ensures |s| == DESCRIPTOR_SIZE
  {
    ToLE(d.start, 8) + EncodeLocation(d.memory)
  }

  function DecodeDescriptor(s: seq<byte>): Descriptor
    requires |s| == DESCRIPTOR_SIZE
  {
    Descriptor(GetU64(s, 0), DecodeLocation(s[8..]))
  }

  function FourWords(a: u32, b: u32, c: u32, d: u32): (s: seq<byte>)
    ensures |s| == 16
  {
    ToLE(a, 4) + ToLE(b, 4) + (ToLE(c, 4) + ToLE(d, 4))
  }

  function EncodeHeader(h: Header): (s: seq<byte>)
    ensures |s| == HEADER_SIZE
  {
    FourWords(h.signature, h.version, h.streamCount, h.directoryRva)
    + (ToLE(h.checksum, 4) + ToLE(h.timeDateStamp, 4) + ToLE(h.flags, 8))
  }

  function DecodeHeader(s: seq<byte>): Header
    requires |s| == HEADER_SIZE
  {
    Header(GetU32(s, 0), GetU32(s, 4), GetU32(s, 8), GetU32(s, 12), GetU32(s, 16), GetU32(s, 20), GetU64(s, 24))
  }

  function EncodeThread(t: Thread): (s: seq<byte>)
    ensures |s| == THREAD_SIZE
  {
    FourWords(t.threadId, t.suspendCount, t.priorityClass, t.priority)
    + (ToLE(t.teb, 8) + EncodeDescriptor(t.stack) + EncodeLocation(t.context))
  }

  function DecodeThread(s: seq<byte>): Thread
    requires |s| == THREAD_SIZE
  {
    Thread(GetU32(s, 0), GetU32(s, 4), GetU32(s, 8), GetU32(s, 12),
           GetU64(s, 16), DecodeDescriptor(s[24..40]), DecodeLocation(s[40..]))
  }

  // ---- A record is read back from its image ----

  predicate Stored(s: seq<byte>, at: nat, v: seq<byte>) {
    at + |v| <= |s| && s[at..at + |v|] == v
  }

  lemma {:induction false} StoredParts(s: seq<byte>, at: nat, v: seq<byte>, w: seq<byte>)
    requires Stored(s, at, v + w)
    ensures Stored(s, at, v) && Stored(s, at + |v|, w)
  {
    var all := s[at..at + |v + w|];
    assert s[at..at + |v|] == all[..|v|];
    assert s[at + |v|..at + |v| + |w|] == all[|v|..];
  }

  lemma {:induction false} TwoWordsRead(s: seq<byte>, at: nat, a: u32, b: u32)
    requires Stored(s, at, ToLE(a, 4) + ToLE(b, 4))
    ensures GetU32(s, at) == a && GetU32(s, at + 4) == b
  {
    StoredParts(s, at, ToLE(a, 4), ToLE(b, 4));
    GetU32Of(s, at, a);
    GetU32Of(s, at + 4, b);
  }

  lemma {:induction false} FourWordsRead(s: seq<byte>, at: nat, a: u32, b: u32, c: u32, d: u32)
    requires Stored(s, at, FourWords(a, b, c, d))
    ensures GetU32(s, at) == a && GetU32(s, at + 4) == b && GetU32(s, at + 8) == c && GetU32(s, at + 12) == d
  {
    StoredParts(s, at, ToLE(a, 4) + ToLE(b, 4), ToLE(c, 4) + ToLE(d, 4));
    TwoWordsRead(s, at, a, b);
    TwoWordsRead(s, at + 8, c, d);
  }

  lemma {:induction false} LocationRoundTrip(l: Location)
    ensures DecodeLocation(EncodeLocation(l)) == l
  {
    var s := EncodeLocation(l);
    StoredParts(s, 0, ToLE(l.dataSize, 4), ToLE(l.rva, 4));
    GetU32Of(s, 0, l.dataSize);
    GetU32Of(s, 4, l.rva);
  }

  lemma {:induction false} DirectoryRoundTrip(d: Directory)
    ensures DecodeDirectory(EncodeDirectory(d)) == d
  {
    var s := EncodeDirectory(d);
    StoredParts(s, 0, ToLE(d.streamType, 4), EncodeLocation(d.location));
    GetU32Of(s, 0, d.streamType);
    LocationRoundTrip(d.location);
    assert s[4..] == EncodeLocation(d.location);
  }

  lemma {:induction false} DescriptorRoundTrip(d: Descriptor)
    ensures DecodeDescriptor(EncodeDescriptor(d)) == d
  {
    var s := EncodeDescriptor(d);
    StoredParts(s, 0, ToLE(d.start, 8), EncodeLocation(d.memory));
    GetU64Of(s, 0, d.start);
    LocationRoundTrip(d.memory);
    assert s[8..] == EncodeLocation(d.memory);
  }

  lemma {:induction false} HeaderRoundTrip(h: Header)
    ensures DecodeHeader(EncodeHeader(h)) == h
  {
    var s := EncodeHeader(h);
    var lo := FourWords(h.signature, h.version, h.streamCount, h.directoryRva);
    var mid := ToLE(h.checksum, 4) + ToLE(h.timeDateStamp, 4);
    StoredParts(s, 0, lo, mid + ToLE(h.flags, 8));
    StoredParts(s, 16, mid, ToLE(h.flags, 8));
    StoredParts(s, 16, ToLE(h.checksum, 4), ToLE(h.timeDateStamp, 4));
    FourWordsRead(s, 0, h.signature, h.version, h.streamCount, h.directoryRva);
    GetU32Of(s, 16, h.checksum);
    GetU32Of(s, 20, h.timeDateStamp);
    GetU64Of(s, 24, h.flags);
  }

  lemma {:induction false} ThreadRoundTrip(t: Thread)
    ensures DecodeThread(EncodeThread(t)) == t
  {
    var s := EncodeThread(t);
    var lo := FourWords(t.threadId, t.suspendCount, t.priorityClass, t.priority);
    var mid := ToLE(t.teb, 8) + EncodeDescriptor(t.stack);
    StoredParts(s, 0, lo, mid + EncodeLocation(t.context));
    StoredParts(s, 16, mid, EncodeLocation(t.context));
    StoredParts(s, 16, ToLE(t.teb, 8), EncodeDescriptor(t.stack));
    FourWordsRead(s, 0, t.threadId, t.suspendCount, t.priorityClass, t.priority);
    GetU64Of(s, 16, t.teb);
    DescriptorRoundTrip(t.stack);
    LocationRoundTrip(t.context);
    assert s[24..40] == EncodeDescriptor(t.stack) && s[40..] == EncodeLocation(t.context);
  }

  /** A count of four bytes, read behind what precedes it. */
  lemma {:induction false} CountRead(was: seq<byte>, n: u32, rest: seq<byte>)
    ensures GetU32((was + ToLE(n, 4)) + rest, |was|) == n
  {
    var image := (was + ToLE(n, 4)) + rest;
    assert image[|was|..|was| + 4] == ToLE(n, 4);
    GetU32Of(image, |was|, n);
  }

  // ---- Reading a record at a position of a dump ----

  function DirectoryAt(s: seq<byte>, at: nat): Directory
    requires at + DIRECTORY_SIZE <= |s|
  {
    DecodeDirectory(s[at..at + DIRECTORY_SIZE])
  }

  function DescriptorAt(s: seq<byte>, at: nat): Descriptor
    requires at + DESCRIPTOR_SIZE <= |s|
  {
    DecodeDescriptor(s[at..at + DESCRIPTOR_SIZE])
  }

  function HeaderAt(s: seq<byte>, at: nat): Header
    requires at + HEADER_SIZE <= |s|
  {
    DecodeHeader(s[at..at + HEADER_SIZE])
  }

  function ThreadAt(s: seq<byte>, at: nat): Thread
    requires at + THREAD_SIZE <= |s|
  {
    DecodeThread(s[at..at + THREAD_SIZE])
  }

  // ---- Where the fields are ----

  lemma {:induction false} WordInSlice(s: seq<byte>, at: nat, end: nat, k: nat, w: nat)
    requires at + k + w <= end <= |s|
    ensures Read(s[at..end], k, w) == Read(s, at + k, w)
  {
    SliceOfSlice(s, at, end, k, k + w);
  }

  lemma {:induction false} FourInSlice(s: seq<byte>, at: nat, end: nat)
    requires at + 16 <= end <= |s|
    ensures GetU32(s[at..end], 0) == GetU32(s, at) && GetU32(s[at..end], 4) == GetU32(s, at + 4)
    ensures GetU32(s[at..end], 8) == GetU32(s, at + 8) && GetU32(s[at..end], 12) == GetU32(s, at + 12)
  {
    WordInSlice(s, at, end, 0, 4);
    WordInSlice(s, at, end, 4, 4);
    WordInSlice(s, at, end, 8, 4);
    WordInSlice(s, at, end, 12, 4);
  }

  lemma {:induction false} LocationFields(s: seq<byte>, at: nat)
    requires at + 8 <= |s|
    ensures DecodeLocation(s[at..at + 8]) == Location(GetU32(s, at), GetU32(s, at + 4))
  {
    WordInSlice(s, at, at + 8, 0, 4);
    WordInSlice(s, at, at + 8, 4, 4);
  }

  /** An entry: stream type, size, position. */
  lemma {:induction false} DirectoryFields(s: seq<byte>, at: nat)
    requires at + 12 <= |s|
    ensures DirectoryAt(s, at) == Directory(GetU32(s, at), Location(GetU32(s, at + 4), GetU32(s, at + 8)))
  {
    WordInSlice(s, at, at + 12, 0, 4);
    SliceOfSlice(s, at, at + 12, 4, 12);
    assert s[at..at + 12][4..] == s[at..at + 12][4..12];
    LocationFields(s, at + 4);
  }

  /** A block of memory: address in the target, size, position. */
  lemma {:induction false} DescriptorFields(s: seq<byte>, at: nat)
    requires at + 16 <= |s|
    ensures DescriptorAt(s, at) == Descriptor(GetU64(s, at), Location(GetU32(s, at + 8), GetU32(s, at + 12)))
  {
    WordInSlice(s, at, at + 16, 0, 8);
    SliceOfSlice(s, at, at + 16, 8, 16);
    assert s[at..at + 16][8..] == s[at..at + 16][8..16];
    LocationFields(s, at + 8);
  }

  lemma {:induction false} HeaderFields(s: seq<byte>, at: nat)
    requires at + 32 <= |s|
    ensures HeaderAt(s, at) == Header(GetU32(s, at), GetU32(s, at + 4), GetU32(s, at + 8), GetU32(s, at + 12),
                                      GetU32(s, at + 16), GetU32(s, at + 20), GetU64(s, at + 24))
  {
    FourInSlice(s, at, at + 32);
    WordInSlice(s, at, at + 32, 16, 4);
    WordInSlice(s, at, at + 32, 20, 4);
    WordInSlice(s, at, at + 32, 24, 8);
  }

  /** The record of a thread: id, three words, a word of 8 bytes, the stack, the context. */
  lemma {:induction false} ThreadFields(s: seq<byte>, at: nat)
    requires at + 48 <= |s|
    ensures var t := ThreadAt(s, at);
            t.threadId == GetU32(s, at) && t.suspendCount == GetU32(s, at + 4)
            && t.priorityClass == GetU32(s, at + 8) && t.priority == GetU32(s, at + 12)
            && t.teb == GetU64(s, at + 16) && t.stack == DescriptorAt(s, at + 24)
            && t.context == Location(GetU32(s, at + 40), GetU32(s, at + 44))
  {
    FourInSlice(s, at, at + 48);
    WordInSlice(s, at, at + 48, 16, 8);
    SliceOfSlice(s, at, at + 48, 24, 40);
    SliceOfSlice(s, at, at + 48, 40, 48);
    assert s[at..at + 48][40..] == s[at..at + 48][40..48];
    LocationFields(s, at + 40);
  }
}
