/** Walking the load commands of a Mach-O image. */
module LoadCommands {
  import opened Bytes
  import opened Format

  datatype LoadCommand =
    | Segment(cmdSize: u32, name: seq<byte>, vmAddr: u64, vmSize: u64, fileOff: u64, fileSize: u64,
              maxProt: u32, initProt: u32, numSections: u32, flags: u32)
    | Dylib(cmdSize: u32, name32: u32, timestamp: u32, currentVersion: u32, compatibilityVersion: u32)
    | Uuid(cmdSize: u32, uuid: seq<byte>)
    | Dylinker(cmd: u32, cmdSize: u32, nameOffset: u32, path: seq<byte>)

  datatype Kind = SegmentKind | IdDylibKind | UuidKind | LoadDylinkerKind | IdDylinkerKind

  const LC_SEGMENT_64: u32 := 0x19
  const LC_ID_DYLIB: u32 := 0xd
  const LC_UUID: u32 := 0x1b
  const LC_LOAD_DYLINKER: u32 := 0xe
  const LC_ID_DYLINKER: u32 := 0xf

  const BASE_SIZE := 8
  const SEGMENT_SIZE := 72
  const DYLIB_SIZE := 24
  const UUID_SIZE := 24
  const DYLINKER_SIZE := 12

  function KindOf(cmd: u32): Option<Kind> {
    if cmd == LC_SEGMENT_64 then Some(SegmentKind)
    else if cmd == LC_ID_DYLIB then Some(IdDylibKind)
    else if cmd == LC_UUID then Some(UuidKind)
    else if cmd == LC_LOAD_DYLINKER then Some(LoadDylinkerKind)
    else if cmd == LC_ID_DYLINKER then Some(IdDylinkerKind)
    else None
  }

  /** The size of the structure that is read for a command. */
  function StructSize(cmd: u32): nat {
    match KindOf(cmd)
    case Some(SegmentKind) => SEGMENT_SIZE
    case Some(IdDylibKind) => DYLIB_SIZE
    case Some(UuidKind) => UUID_SIZE
    case Some(_) => DYLINKER_SIZE
    case None => BASE_SIZE
  }

  function DecodeSegment(s: seq<byte>): LoadCommand
    requires |s| == SEGMENT_SIZE
  {
    Segment(GetU32(s, 4), s[8..24], GetU64(s, 24), GetU64(s, 32), GetU64(s, 40), GetU64(s, 48),
            GetU32(s, 56), GetU32(s, 60), GetU32(s, 64), GetU32(s, 68))
  }

  function DecodeDylib(s: seq<byte>): LoadCommand
    requires |s| == DYLIB_SIZE
  {
    Dylib(GetU32(s, 4), GetU32(s, 8), GetU32(s, 12), GetU32(s, 16), GetU32(s, 20))
  }

  type Utf8 = seq<byte> -> bool

  /** One command: recognised, passed over, or read beyond the bytes that are there. */
  datatype Decoded = Recognised(c: LoadCommand) | Ignored | Fault

  /** The command at the front of the buffer, whose size field is `size`. */
  function Decode(buffer: seq<byte>, size: nat, utf8: Utf8): Decoded
    requires BASE_SIZE <= |buffer| && size <= |buffer|
  {
    var cmd := GetU32(buffer, 0);
    if KindOf(cmd).None? then Ignored
    else if |buffer| < StructSize(cmd) then Fault
    else
      match KindOf(cmd).value
      case SegmentKind => Recognised(DecodeSegment(buffer[..SEGMENT_SIZE]))
      case IdDylibKind => Recognised(DecodeDylib(buffer[..DYLIB_SIZE]))
      case UuidKind => Recognised(Uuid(GetU32(buffer, 4), buffer[8..24]))
      case _ => DecodeDylinker(buffer, size, utf8)
  }

  /** The path is what lies between the name offset and the first zero inside the command. */
  function DecodeDylinker(buffer: seq<byte>, size: nat, utf8: Utf8): Decoded
    requires DYLINKER_SIZE <= |buffer| && size <= |buffer|
  {
    var name := GetU32(buffer, 8);
    if name > size then Fault else
      var nul := FirstNul(buffer[name..size]);
      if nul == size - name || !utf8(buffer[name..name + nul]) then Ignored
      else Recognised(Dylinker(GetU32(buffer, 0), GetU32(buffer, 4), name, buffer[name..name + nul]))
  }

  /** Where the fields of a segment command are. */
  lemma {:induction false} SegmentFields(b: seq<byte>, size: nat, utf8: Utf8)
    requires 72 <= |b| && size <= |b| && GetU32(b, 0) == 0x19
    ensures Decode(b, size, utf8)
         == Recognised(Segment(GetU32(b, 4), b[8..24], GetU64(b, 24), GetU64(b, 32), GetU64(b, 40), GetU64(b, 48),
                               GetU32(b, 56), GetU32(b, 60), GetU32(b, 64), GetU32(b, 68)))
  {
    SegmentWords(b);
  }

  /** Where the fields of the library's own name, and of its UUID, are. */
  lemma {:induction false} DylibFields(b: seq<byte>, size: nat, utf8: Utf8)
    requires 24 <= |b| && size <= |b|
    ensures GetU32(b, 0) == 0xd ==>
      Decode(b, size, utf8)
      == Recognised(Dylib(GetU32(b, 4), GetU32(b, 8), GetU32(b, 12), GetU32(b, 16), GetU32(b, 20)))
    ensures GetU32(b, 0) == 0x1b ==> Decode(b, size, utf8) == Recognised(Uuid(GetU32(b, 4), b[8..24]))
  {
    DylibWords(b);
  }

  /** Where the path of a dynamic linker is: from its offset to the first zero inside the command. */
  lemma {:induction false} DylinkerFields(b: seq<byte>, size: nat, utf8: Utf8)
    requires 12 <= |b| && size <= |b| && GetU32(b, 8) <= size && (GetU32(b, 0) == 0xe || GetU32(b, 0) == 0xf)
    ensures var text := b[GetU32(b, 8)..size];
            var path := text[..FirstNul(text)];
            Decode(b, size, utf8)
            == if path == text || !utf8(path) then Ignored
               else Recognised(Dylinker(GetU32(b, 0), GetU32(b, 4), GetU32(b, 8), path))
  {
    var at := GetU32(b, 8);
    SliceOfSlice(b, at, size, 0, FirstNul(b[at..size]));
  }

  lemma {:induction false} SegmentWords(b: seq<byte>)
    requires |b| >= 72
    ensures DecodeSegment(b[..72])
         == Segment(GetU32(b, 4), b[8..24], GetU64(b, 24), GetU64(b, 32), GetU64(b, 40), GetU64(b, 48),
                    GetU32(b, 56), GetU32(b, 60), GetU32(b, 64), GetU32(b, 68))
  {
    var s := b[0..72];
    assert b[..72] == s;
    SliceOfSlice(b, 0, 72, 8, 24);
    WordInSlice(b, 0, 72, 4, 4);
    WordInSlice(b, 0, 72, 24, 8);
    WordInSlice(b, 0, 72, 32, 8);
    WordInSlice(b, 0, 72, 40, 8);
    WordInSlice(b, 0, 72, 48, 8);
    WordInSlice(b, 0, 72, 56, 4);
    WordInSlice(b, 0, 72, 60, 4);
    WordInSlice(b, 0, 72, 64, 4);
    WordInSlice(b, 0, 72, 68, 4);
  }

  lemma {:induction false} DylibWords(b: seq<byte>)
    requires |b| >= 24
    ensures DecodeDylib(b[..24]) == Dylib(GetU32(b, 4), GetU32(b, 8), GetU32(b, 12), GetU32(b, 16), GetU32(b, 20))
  {
    assert b[..24] == b[0..24];
    WordInSlice(b, 0, 24, 4, 4);
    WordInSlice(b, 0, 24, 8, 4);
    WordInSlice(b, 0, 24, 12, 4);
    WordInSlice(b, 0, 24, 16, 4);
    WordInSlice(b, 0, 24, 20, 4);
  }

  // ---- The iterator ----

  /** The commands an iteration yields, and whether it ends in a fault. */
  datatype Listing = Listing(cmds: seq<LoadCommand>, faulted: bool)

  function List(buffer: seq<byte>, count: nat, utf8: Utf8): (l: Listing)
    ensures |l.cmds| <= count
  {
    if count == 0 || |buffer| < BASE_SIZE || GetU32(buffer, 4) > |buffer| then Listing([], false)
    else
      var size := GetU32(buffer, 4);
      match Decode(buffer, size, utf8)
      case Fault => Listing([], true)
      case Ignored => List(buffer[size..], count - 1, utf8)
      case Recognised(c) =>
        var rest := List(buffer[size..], count - 1, utf8);
        Listing([c] + rest.cmds, rest.faulted)
  }

  datatype Item = Command(c: LoadCommand) | End | Faulted

  class LoadCommandsIter {
    const utf8: Utf8
    var buffer: seq<byte>
    var count: nat

    constructor (buffer: seq<byte>, count: nat, utf8: Utf8)
      ensures this.buffer == buffer && this.count == count && this.utf8 == utf8
    {
      this.buffer, this.count, this.utf8 := buffer, count, utf8;
    }

    /** Each turn uses up one of `count`, even for a command of size zero. */
    method Next() returns (r: Item)
      modifies this
      ensures match r
              case Command(c) =>
                count < old(count)
                && List(old(buffer), old(count), utf8)
                   == Listing([c] + List(buffer, count, utf8).cmds, List(buffer, count, utf8).faulted)
              case End => List(old(buffer), old(count), utf8) == Listing([], false)
              case Faulted => List(old(buffer), old(count), utf8) == Listing([], true)
    {
      while true
        invariant count <= old(count)
        invariant List(buffer, count, utf8) == List(old(buffer), old(count), utf8)
        decreases count
      {
        if count == 0 || |buffer| < BASE_SIZE {
          return End;
        }
        var size := GetU32(buffer, 4);
        if size > |buffer| {
          return End;
        }
        var cmd := Decode(buffer, size, utf8);
        if cmd.Fault? {
          return Faulted;
        }
        count := count - 1;
        buffer := buffer[size..];
        if cmd.Recognised? {
          return Command(cmd.c);
        }
      }
    }
  }

  // ---- Well-formed images ----

  /** A command that is complete in itself. */
  predicate WellFormed(b: seq<byte>, utf8: Utf8) {
    BASE_SIZE <= |b| < U32_LIMIT && GetU32(b, 4) == |b|
    && StructSize(GetU32(b, 0)) <= |b| && !Decode(b, |b|, utf8).Fault?
  }

  lemma {:induction false} WordOfPrefix(b: seq<byte>, rest: seq<byte>, at: nat)
    requires at + 4 <= |b|
    ensures GetU32(b + rest, at) == GetU32(b, at)
  {
    assert (b + rest)[at..at + 4] == b[at..at + 4];
  }

  lemma {:induction false} SliceOfPrefix(b: seq<byte>, rest: seq<byte>, lo: nat, hi: nat)
    requires lo <= hi <= |b|
    ensures (b + rest)[lo..hi] == b[lo..hi]
  {
  }

  lemma {:induction false} DylinkerIsLocal(b: seq<byte>, rest: seq<byte>, utf8: Utf8)
    requires DYLINKER_SIZE <= |b|
    ensures DecodeDylinker(b + rest, |b|, utf8) == DecodeDylinker(b, |b|, utf8)
  {
    WordOfPrefix(b, rest, 0);
    WordOfPrefix(b, rest, 4);
    WordOfPrefix(b, rest, 8);
    var name := GetU32(b, 8);
    if name <= |b| {
      SliceOfPrefix(b, rest, name, |b|);
      SliceOfPrefix(b, rest, name, name + FirstNul(b[name..|b|]));
    }
  }

  /** What follows a complete command does not change how it is read. */
  lemma {:induction false} DecodeIsLocal(b: seq<byte>, rest: seq<byte>, utf8: Utf8)
    requires WellFormed(b, utf8)
    ensures Decode(b + rest, |b|, utf8) == Decode(b, |b|, utf8)
  {
    WordOfPrefix(b, rest, 0);
    WordOfPrefix(b, rest, 4);
    var n := StructSize(GetU32(b, 0));
    SliceOfPrefix(b, rest, 0, n);
    if n >= 24 {
      SliceOfPrefix(b, rest, 8, 24);
    }
    if n == DYLINKER_SIZE {
      DylinkerIsLocal(b, rest, utf8);
    }
  }

  function Join(bs: seq<seq<byte>>): seq<byte> {
    if bs == [] then [] else bs[0] + Join(bs[1..])
  }

  function RecognisedIn(bs: seq<seq<byte>>, utf8: Utf8): seq<LoadCommand>
    requires forall i :: 0 <= i < |bs| ==> WellFormed(bs[i], utf8)
  {
    if bs == [] then [] else
      assert WellFormed(bs[0], utf8);
      var d := Decode(bs[0], |bs[0]|, utf8);
      (if d.Recognised? then [d.c] else []) + RecognisedIn(bs[1..], utf8)
  }

  /** On commands laid end to end the iterator yields exactly the recognised ones, in order. */
  lemma {:induction false} ListsWellFormed(bs: seq<seq<byte>>, utf8: Utf8)
    requires forall i :: 0 <= i < |bs| ==> WellFormed(bs[i], utf8)
    ensures List(Join(bs), |bs|, utf8) == Listing(RecognisedIn(bs, utf8), false)
  {
    if bs != [] {
      var b, rest := bs[0], Join(bs[1..]);
      ListsWellFormed(bs[1..], utf8);
      DecodeIsLocal(b, rest, utf8);
      WordOfPrefix(b, rest, 4);
      assert (b + rest)[|b|..] == rest;
    }
  }

  // ---- Encoded commands ----

  /**
   * A command with the bytes that fill it up: sections or padding; for a dynamic-linker command, what
   * precedes the path, and what pads it behind the NUL.
   */
  datatype Source = Source(c: LoadCommand, extra: seq<byte>, padding: seq<byte>)
  {
    predicate Valid(utf8: Utf8) {
      match c
      case Segment(size, name, _, _, _, _, _, _, _, _) => |name| == 16 && size == SEGMENT_SIZE + |extra|
      case Dylib(size, _, _, _, _) => size == DYLIB_SIZE + |extra|
      case Uuid(size, uuid) => |uuid| == 16 && size == UUID_SIZE + |extra|
      case Dylinker(cmd, size, at, path) =>
        (cmd == LC_LOAD_DYLINKER || cmd == LC_ID_DYLINKER) && at == DYLINKER_SIZE + |extra|
        && size == at + |path| + 1 + |padding| && 0 !in path && utf8(path)
    }
  }

  function Front(cmd: u32, size: u32): (s: seq<byte>)
    ensures |s| == BASE_SIZE
  {
    ToLE(cmd, 4) + ToLE(size, 4)
  }

  function Encode(s: Source): seq<byte> {
    match s.c
    case Segment(size, name, a, b, c, d, e, f, g, h) =>
      Front(LC_SEGMENT_64, size) + (name + (FourLongs(a, b, c, d) + (FourWords(e, f, g, h) + s.extra)))
    case Dylib(size, a, b, c, d) => Front(LC_ID_DYLIB, size) + (FourWords(a, b, c, d) + s.extra)
    case Uuid(size, uuid) => Front(LC_UUID, size) + (uuid + s.extra)
    case Dylinker(cmd, size, at, path) => Front(cmd, size) + (ToLE(at, 4) + (s.extra + (path + ([0] + s.padding))))
  }

  function FourLongs(a: u64, b: u64, c: u64, d: u64): (s: seq<byte>)
    ensures |s| == 32
  {
    ToLE(a, 8) + ToLE(b, 8) + (ToLE(c, 8) + ToLE(d, 8))
  }

  lemma {:induction false} TwoLongsRead(s: seq<byte>, at: nat, a: u64, b: u64)
    requires Stored(s, at, ToLE(a, 8) + ToLE(b, 8))
    ensures GetU64(s, at) == a && GetU64(s, at + 8) == b
  {
    StoredParts(s, at, ToLE(a, 8), ToLE(b, 8));
    GetU64Of(s, at, a);
    GetU64Of(s, at + 8, b);
  }

  lemma {:induction false} FourLongsRead(s: seq<byte>, at: nat, a: u64, b: u64, c: u64, d: u64)
    requires Stored(s, at, FourLongs(a, b, c, d))
    ensures GetU64(s, at) == a && GetU64(s, at + 8) == b && GetU64(s, at + 16) == c && GetU64(s, at + 24) == d
  {
    StoredParts(s, at, ToLE(a, 8) + ToLE(b, 8), ToLE(c, 8) + ToLE(d, 8));
    TwoLongsRead(s, at, a, b);
    TwoLongsRead(s, at + 16, c, d);
  }

  /** Front and the part behind it, in a buffer that begins with both. */
  lemma {:induction false} FrontReads(b: seq<byte>, cmd: u32, size: u32, rest: seq<byte>)
    requires b == Front(cmd, size) + rest
    ensures GetU32(b, 0) == cmd && GetU32(b, 4) == size && Stored(b, 8, rest)
  {
    assert Stored(b, 0, Front(cmd, size) + rest);
    StoredParts(b, 0, Front(cmd, size), rest);
    TwoWordsRead(b, 0, cmd, size);
  }

  lemma {:induction false} StoredInPrefix(b: seq<byte>, n: nat, at: nat, w: seq<byte>)
    requires Stored(b, at, w) && at + |w| <= n <= |b|
    ensures Stored(b[..n], at, w)
  {
  }

  lemma {:induction false} SegmentReads(s: Source, b: seq<byte>, utf8: Utf8)
    requires s.c.Segment? && s.Valid(utf8) && b == Encode(s)
    ensures |b| == s.c.cmdSize && GetU32(b, 0) == LC_SEGMENT_64 && GetU32(b, 4) == s.c.cmdSize
    ensures DecodeSegment(b[..SEGMENT_SIZE]) == s.c
  {
    var c := s.c;
    var longs := FourLongs(c.vmAddr, c.vmSize, c.fileOff, c.fileSize);
    var words := FourWords(c.maxProt, c.initProt, c.numSections, c.flags);
    FrontReads(b, LC_SEGMENT_64, c.cmdSize, c.name + (longs + (words + s.extra)));
    StoredParts(b, 8, c.name, longs + (words + s.extra));
    StoredParts(b, 24, longs, words + s.extra);
    StoredParts(b, 56, words, s.extra);
    var p := b[..SEGMENT_SIZE];
    StoredInPrefix(b, SEGMENT_SIZE, 8, c.name);
    StoredInPrefix(b, SEGMENT_SIZE, 24, longs);
    StoredInPrefix(b, SEGMENT_SIZE, 56, words);
    FourLongsRead(p, 24, c.vmAddr, c.vmSize, c.fileOff, c.fileSize);
    FourWordsRead(p, 56, c.maxProt, c.initProt, c.numSections, c.flags);
    SliceOfSlice(b, 0, SEGMENT_SIZE, 4, 8);
  }

  lemma {:induction false} DylibReads(s: Source, b: seq<byte>, utf8: Utf8)
    requires s.c.Dylib? && s.Valid(utf8) && b == Encode(s)
    ensures |b| == s.c.cmdSize && GetU32(b, 0) == LC_ID_DYLIB && GetU32(b, 4) == s.c.cmdSize
    ensures DecodeDylib(b[..DYLIB_SIZE]) == s.c
  {
    var c := s.c;
    var words := FourWords(c.name32, c.timestamp, c.currentVersion, c.compatibilityVersion);
    FrontReads(b, LC_ID_DYLIB, c.cmdSize, words + s.extra);
    StoredParts(b, 8, words, s.extra);
    StoredInPrefix(b, DYLIB_SIZE, 8, words);
    FourWordsRead(b[..DYLIB_SIZE], 8, c.name32, c.timestamp, c.currentVersion, c.compatibilityVersion);
    SliceOfSlice(b, 0, DYLIB_SIZE, 4, 8);
  }

  lemma {:induction false} NulEnds(path: seq<byte>, padding: seq<byte>)
    requires 0 !in path
    ensures FirstNul(path + ([0] + padding)) == |path|
  {
    var t := path + ([0] + padding);
    assert t[|path|] == 0;
    assert forall k :: 0 <= k < |path| ==> t[k] == path[k] && path[k] in path;
    var i := FirstNul(t);
  }

  /** The path of a dynamic-linker command, up to its NUL. */
  lemma {:induction false} PathReads(b: seq<byte>, name: u32, path: seq<byte>, padding: seq<byte>, utf8: Utf8)
    requires DYLINKER_SIZE <= name && |b| == name + |path| + 1 + |padding| && GetU32(b, 8) == name
    requires Stored(b, name, path + ([0] + padding)) && 0 !in path && utf8(path)
    ensures DecodeDylinker(b, |b|, utf8) == Recognised(Dylinker(GetU32(b, 0), GetU32(b, 4), name, path))
  {
    NulEnds(path, padding);
    StoredParts(b, name, path, [0] + padding);
    assert b[name..|b|] == path + ([0] + padding);
  }

  lemma {:induction false} DylinkerReads(s: Source, b: seq<byte>, utf8: Utf8)
    requires s.c.Dylinker? && s.Valid(utf8) && b == Encode(s)
    ensures |b| == s.c.cmdSize && GetU32(b, 0) == s.c.cmd && GetU32(b, 4) == s.c.cmdSize
    ensures DecodeDylinker(b, |b|, utf8) == Recognised(s.c)
  {
    var c := s.c;
    var tail := c.path + ([0] + s.padding);
    FrontReads(b, c.cmd, c.cmdSize, ToLE(c.nameOffset, 4) + (s.extra + tail));
    StoredParts(b, 8, ToLE(c.nameOffset, 4), s.extra + tail);
    GetU32Of(b, 8, c.nameOffset);
    StoredParts(b, 12, s.extra, tail);
    PathReads(b, c.nameOffset, c.path, s.padding, utf8);
  }

  lemma {:induction false} UuidReads(s: Source, b: seq<byte>, utf8: Utf8)
    requires s.c.Uuid? && s.Valid(utf8) && b == Encode(s)
    ensures |b| == s.c.cmdSize && GetU32(b, 0) == LC_UUID && GetU32(b, 4) == s.c.cmdSize && b[8..24] == s.c.uuid
  {
    FrontReads(b, LC_UUID, s.c.cmdSize, s.c.uuid + s.extra);
    StoredParts(b, 8, s.c.uuid, s.extra);
  }

  /** The bytes are a complete command, and it is c. */
  predicate ReadsAs(b: seq<byte>, c: LoadCommand, utf8: Utf8) {
    WellFormed(b, utf8) && Decode(b, |b|, utf8) == Recognised(c)
  }

  /** An encoded command is well formed, and is read back with its fields. */
  lemma {:induction false} EncodedReadsBack(s: Source, utf8: Utf8)
    requires s.Valid(utf8)
    ensures ReadsAs(Encode(s), s.c, utf8)
  {
    var b := Encode(s);
    match s.c {
      case Segment(_, _, _, _, _, _, _, _, _, _) => SegmentReads(s, b, utf8);
      case Dylib(_, _, _, _, _) => DylibReads(s, b, utf8);
      case Uuid(_, _) => UuidReads(s, b, utf8);
      case Dylinker(_, _, _, _) => DylinkerReads(s, b, utf8);
    }
  }

  /** A command of an image: one of the recognised kinds, or another, with any body. */
  datatype Entry = Known(s: Source) | Foreign(cmd: u32, body: seq<byte>)
  {
    predicate Valid(utf8: Utf8) {
      if Known? then s.Valid(utf8) else KindOf(cmd).None? && BASE_SIZE + |body| < U32_LIMIT
    }

    function Image(utf8: Utf8): seq<byte>
      requires Valid(utf8)
    {
      if Known? then Encode(s) else Front(cmd, BASE_SIZE + |body|) + body
    }
  }

  predicate AllValid(items: seq<Entry>, utf8: Utf8) {
    forall i :: 0 <= i < |items| ==> items[i].Valid(utf8)
  }

  function Images(items: seq<Entry>, utf8: Utf8): (bs: seq<seq<byte>>)
    requires AllValid(items, utf8)
    ensures |bs| == |items|
  {
    seq(|items|, i requires 0 <= i < |items| => items[i].Image(utf8))
  }

  /** The commands of recognised kinds, in order. */
  function CommandsOf(items: seq<Entry>): seq<LoadCommand> {
    if items == [] then [] else (if items[0].Known? then [items[0].s.c] else []) + CommandsOf(items[1..])
  }

  lemma {:induction false} ForeignIsIgnored(cmd: u32, body: seq<byte>, utf8: Utf8)
    requires KindOf(cmd).None? && BASE_SIZE + |body| < U32_LIMIT
    ensures var b := Front(cmd, BASE_SIZE + |body|) + body;
            WellFormed(b, utf8) && Decode(b, |b|, utf8) == Ignored
  {
    FrontReads(Front(cmd, BASE_SIZE + |body|) + body, cmd, BASE_SIZE + |body|, body);
  }

  lemma {:induction false} ImageIsWellFormed(item: Entry, utf8: Utf8)
    requires item.Valid(utf8)
    ensures var b := item.Image(utf8);
            WellFormed(b, utf8) && Decode(b, |b|, utf8) == if item.Known? then Recognised(item.s.c) else Ignored
  {
    match item {
      case Known(s) => EncodedReadsBack(s, utf8);
      case Foreign(cmd, body) => ForeignIsIgnored(cmd, body, utf8);
    }
  }

  lemma {:induction false} RecognisedAre(items: seq<Entry>, utf8: Utf8)
    requires AllValid(items, utf8)
    ensures forall i :: 0 <= i < |items| ==> WellFormed(Images(items, utf8)[i], utf8)
    ensures RecognisedIn(Images(items, utf8), utf8) == CommandsOf(items)
  {
    var bs := Images(items, utf8);
    forall i | 0 <= i < |items| ensures WellFormed(bs[i], utf8) {
      ImageIsWellFormed(items[i], utf8);
    }
    if items != [] {
      ImageIsWellFormed(items[0], utf8);
      assert bs[1..] == Images(items[1..], utf8);
      RecognisedAre(items[1..], utf8);
    }
  }

  /**
   * Round trip: iterating over encoded commands, with others in between, gives exactly those of
   * recognised kinds, in order, with their fields.
   */
  lemma {:induction false} IterationReadsBack(items: seq<Entry>, utf8: Utf8)
    requires AllValid(items, utf8)
    ensures List(Join(Images(items, utf8)), |items|, utf8) == Listing(CommandsOf(items), false)
  {
    RecognisedAre(items, utf8);
    ListsWellFormed(Images(items, utf8), utf8);
  }
}
