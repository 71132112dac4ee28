/**
 * The SONAME of a shared object, found through its program headers or through its sections
 * (dynamic section of the System V gABI, chapter 5). Headers are taken as already decoded.
 */
module SoName {
  import opened Bytes

  datatype Segment = Segment(kind: u32, offset: u64, filesz: u64, vaddr: u64, memsz: u64)
  datatype Section = Section(name: u32, kind: u32, addr: u64, offset: u64, size: u64, link: u32)
  datatype Dyn = Dyn(tag: u64, val: u64)

  /** What a read of the target at an address and of a length gives: nothing, or bytes, perhaps too few. */
  type Reads = (nat, nat) -> Option<seq<byte>>

  /** Where a module is read from: a file image, or a live process in which it starts at an address. */
  datatype ModuleMemory = Slice(bytes: seq<byte>) | Process(start: u64, answers: Reads)

  /** A module; header tables that cannot be read are None. */
  datatype Module = Module(memory: ModuleMemory, segments: Option<seq<Segment>>, sections: Option<seq<Section>>,
                           shstrndx: nat)

  /** Fault is an address addition that overflows. */
  datatype Result = Ok(name: seq<byte>) | Err | Fault

  const PT_DYNAMIC: u32 := 2
  const SHT_STRTAB: u32 := 3
  const SHT_DYNAMIC: u32 := 6
  const DT_NULL: u64 := 0
  const DT_STRTAB: u64 := 5
  const DT_STRSZ: u64 := 10
  const DT_SONAME: u64 := 14
  const SIZEOF_DYN := 16
  const DYNSTR_NAME: seq<byte> := [0x2e, 0x64, 0x79, 0x6e, 0x73, 0x74, 0x72, 0]

  // ---- Reading ----

  function ReadAt(memory: ModuleMemory, offset: nat, length: nat): Option<seq<byte>> {
    match memory
    case Slice(bytes) =>
      if offset + length >= U64_LIMIT || offset + length > |bytes| then None
      else Some(bytes[offset..offset + length])
    case Process(start, answers) =>
      if length == 0 || start + offset >= U64_LIMIT then None else answers(start + offset, length)
  }

  /** An address of the dynamic section as an offset: in a process it may be absolute. */
  function Absolute(memory: ModuleMemory, addr: u64): u64 {
    if memory.Process? && memory.start <= addr then addr - memory.start else addr
  }

  function SectionOffset(memory: ModuleMemory, s: Section): u64 {
    if memory.Process? then s.addr else s.offset
  }

  function ReadSegment(memory: ModuleMemory, p: Segment): Option<seq<byte>> {
    if memory.Process? then ReadAt(memory, p.vaddr, p.memsz) else ReadAt(memory, p.offset, p.filesz)
  }

  /** The bytes before the first NUL. */
  function UntilNul(s: seq<byte>): (r: Option<seq<byte>>)
    ensures r.Some? ==> r.value < s && s[|r.value|] == 0 && 0 !in r.value
    ensures r.None? ==> 0 !in s
  {
    var i := FirstNul(s);
    if i < |s| then Some(s[..i]) else None
  }

  function NameAt(memory: ModuleMemory, strtab: nat, size: nat, name: nat): Result
    requires name < size
  {
    if strtab + name >= U64_LIMIT then Fault else
      var s := ReadAt(memory, strtab + name, size - name);
      if s.None? then Err else
        var n := UntilNul(s.value);
        if n.Some? then Ok(n.value) else Err
  }

  // ---- The dynamic section ----

  datatype Item = Done | Bad | Next(d: Dyn)

  function ItemAt(data: seq<byte>, offset: nat): Item {
    if offset + SIZEOF_DYN > |data| then Bad else
      var d := Dyn(GetU64(data, offset), GetU64(data, offset + 8));
      if d.tag == DT_NULL then Done else Next(d)
  }

  class DynIter {
    const data: seq<byte>
    var offset: nat

    constructor (data: seq<byte>)
      ensures this.data == data && offset == 0
    {
      this.data := data;
      offset := 0;
    }

    method Step() returns (item: Item)
      modifies this
      ensures item == ItemAt(data, old(offset))
      ensures offset == if item.Bad? then old(offset) else old(offset) + SIZEOF_DYN
    {
      if offset + SIZEOF_DYN > |data| {
        return Bad;
      }
      var d := Dyn(GetU64(data, offset), GetU64(data, offset + 8));
      offset := offset + SIZEOF_DYN;
      item := if d.tag == DT_NULL then Done else Next(d);
    }
  }

  // ---- Through the program headers ----

  /** What the scan of the whole dynamic section collects; later entries win. */
  datatype Found = Found(soname: Option<u64>, strtab: Option<u64>, strsz: Option<u64>)

  function Note(f: Found, d: Dyn): Found {
    if d.tag == DT_SONAME then f.(soname := Some(d.val))
    else if d.tag == DT_STRTAB then f.(strtab := Some(d.val))
    else if d.tag == DT_STRSZ then f.(strsz := Some(d.val))
    else f
  }

  /** The scan from an offset on; None when the data ends before a null entry. */
  function Scan(data: seq<byte>, offset: nat, f: Found): Option<Found>
    decreases |data| - offset
  {
    match ItemAt(data, offset)
    case Done => Some(f)
    case Bad => None
    case Next(d) => Scan(data, offset + SIZEOF_DYN, Note(f, d))
  }

  function FirstSegment(segments: seq<Segment>, kind: u32): Option<Segment> {
    if segments == [] then None
    else if segments[0].kind == kind then Some(segments[0]) else FirstSegment(segments[1..], kind)
  }

  const NOTHING := Found(None, None, None)

  function NameOf(memory: ModuleMemory, f: Found): Result {
    if f.strtab.None? || f.strsz.None? || f.soname.None? then Err
    else if f.soname.value < f.strsz.value
    then NameAt(memory, Absolute(memory, f.strtab.value), f.strsz.value, f.soname.value)
    else Err
  }

  function ProgramSoname(m: Module): Result {
    if m.segments.None? then Err else
      var p := FirstSegment(m.segments.value, PT_DYNAMIC);
      if p.None? then Err else
        var data := ReadSegment(m.memory, p.value);
        if data.None? then Err else
          var f := Scan(data.value, 0, NOTHING);
          if f.None? then Err else NameOf(m.memory, f.value)
  }

  method SonameFromProgramHeaders(m: Module) returns (r: Result)
    ensures r == ProgramSoname(m)
  {
    if m.segments.None? {
      return Err;
    }
    var p := FirstSegment(m.segments.value, PT_DYNAMIC);
    if p.None? {
      return Err;
    }
    var data := ReadSegment(m.memory, p.value);
    if data.None? {
      return Err;
    }
    var soname: Option<u64>, strtab: Option<u64>, strsz: Option<u64> := None, None, None;
    var iter := new DynIter(data.value);
    while true
      invariant iter.data == data.value
      invariant Scan(data.value, 0, NOTHING) == Scan(data.value, iter.offset, Found(soname, strtab, strsz))
      decreases |iter.data| - iter.offset
    {
      var item := iter.Step();
      match item {
        case Bad => return Err;
        case Done => break;
        case Next(d) =>
          if d.tag == DT_SONAME {
            soname := Some(d.val);
          } else if d.tag == DT_STRTAB {
            strtab := Some(d.val);
          } else if d.tag == DT_STRSZ {
            strsz := Some(d.val);
          }
      }
    }
    if strtab.None? || strsz.None? || soname.None? {
      return Err;
    }
    if soname.value < strsz.value {
      return NameAt(m.memory, Absolute(m.memory, strtab.value), strsz.value, soname.value);
    }
    return Err;
  }

  // ---- Through the sections ----

  function FirstSection(sections: seq<Section>, kind: u32): Option<Section> {
    if sections == [] then None
    else if sections[0].kind == kind then Some(sections[0]) else FirstSection(sections[1..], kind)
  }

  /** A search for a section; Overflows is an address addition that does. */
  datatype Search = Hit(s: Section) | Miss | ReadFails | Overflows

  /** The first section called `name`, which includes its NUL. */
  function SectionNamed(memory: ModuleMemory, sections: seq<Section>, strtab: Section, name: seq<byte>): Search {
    if sections == [] then Miss else
      var s := sections[0];
      if s.name + |name| >= strtab.size then SectionNamed(memory, sections[1..], strtab, name)
      else if strtab.offset + s.name >= U64_LIMIT then Overflows else
        var n := ReadAt(memory, strtab.offset + s.name, |name|);
        if n.None? then ReadFails
        else if n.value == name then Hit(s)
        else SectionNamed(memory, sections[1..], strtab, name)
  }

  /** The string table linked from the dynamic section, or else the one called ".dynstr". */
  function StringTable(m: Module, sections: seq<Section>, dynamic: Section): Search {
    if dynamic.link < |sections| && sections[dynamic.link].kind == SHT_STRTAB then Hit(sections[dynamic.link])
    else if m.shstrndx < |sections| && sections[m.shstrndx].kind == SHT_STRTAB
    then SectionNamed(m.memory, sections, sections[m.shstrndx], DYNSTR_NAME)
    else Miss
  }

  /** The first SONAME entry whose offset lies in the string table; None when the data ends first. */
  function FirstInRange(data: seq<byte>, offset: nat, size: u64): Option<Option<u64>>
    decreases |data| - offset
  {
    match ItemAt(data, offset)
    case Done => Some(None)
    case Bad => None
    case Next(d) =>
      if d.tag == DT_SONAME && d.val < size then Some(Some(d.val)) else FirstInRange(data, offset + SIZEOF_DYN, size)
  }

  function SectionSoname(m: Module): Result {
    if m.sections.None? then Err else
      var dynamic := FirstSection(m.sections.value, SHT_DYNAMIC);
      if dynamic.None? then Err else
        var table := StringTable(m, m.sections.value, dynamic.value);
        if table.Overflows? then Fault else if !table.Hit? then Err else
          var data := ReadAt(m.memory, SectionOffset(m.memory, dynamic.value), dynamic.value.size);
          if data.None? then Err else
            var hit := FirstInRange(data.value, 0, table.s.size);
            if hit.None? || hit.value.None? then Err
            else if hit.value.value < table.s.size
            then NameAt(m.memory, SectionOffset(m.memory, table.s), table.s.size, hit.value.value) else Err
  }

  method SonameFromSections(m: Module) returns (r: Result)
    ensures r == SectionSoname(m)
  {
    if m.sections.None? {
      return Err;
    }
    var dynamic := FirstSection(m.sections.value, SHT_DYNAMIC);
    if dynamic.None? {
      return Err;
    }
    var table := StringTable(m, m.sections.value, dynamic.value);
    if table.Overflows? {
      return Fault;
    }
    if !table.Hit? {
      return Err;
    }
    var dynstr := table.s;
    var data := ReadAt(m.memory, SectionOffset(m.memory, dynamic.value), dynamic.value.size);
    if data.None? {
      return Err;
    }
    var iter := new DynIter(data.value);
    while true
      invariant iter.data == data.value
      invariant FirstInRange(data.value, 0, dynstr.size) == FirstInRange(data.value, iter.offset, dynstr.size)
      decreases |iter.data| - iter.offset
    {
      var item := iter.Step();
      match item {
        case Bad => return Err;
        case Done => return Err;
        case Next(d) =>
          if d.tag == DT_SONAME && d.val < dynstr.size {
            return NameAt(m.memory, SectionOffset(m.memory, dynstr), dynstr.size, d.val);
          }
      }
    }
  }

  // ---- When the two ways agree ----

  /** The values of the entries with a tag, from an offset on, in order. */
  function ValuesOf(data: seq<byte>, offset: nat, tag: u64): seq<u64>
    decreases |data| - offset
  {
    match ItemAt(data, offset)
    case Next(d) => (if d.tag == tag then [d.val] else []) + ValuesOf(data, offset + SIZEOF_DYN, tag)
    case _ => []
  }

  /** The values of the SONAME entries from an offset on. */
  function Sonames(data: seq<byte>, offset: nat): seq<u64> { ValuesOf(data, offset, DT_SONAME) }

  predicate Terminated(data: seq<byte>) { Scan(data, 0, NOTHING).Some? }

  function LastOf(vals: seq<u64>): Option<u64> {
    if vals == [] then None else Some(vals[|vals| - 1])
  }

  /** Index of the first value that lies in a string table of the given size, or the length. */
  function FirstBelow(vals: seq<u64>, size: u64): (r: nat)
    ensures r <= |vals| && (forall j :: 0 <= j < r ==> vals[j] >= size) && (r < |vals| ==> vals[r] < size)
  {
    if vals == [] || vals[0] < size then 0 else 1 + FirstBelow(vals[1..], size)
  }

  function FirstOf(vals: seq<u64>, size: u64): Option<u64> {
    var i := FirstBelow(vals, size);
    if i < |vals| then Some(vals[i]) else None
  }

  lemma {:induction false} FirstOfLonger(v: u64, rest: seq<u64>, size: u64)
    ensures FirstOf([v] + rest, size) == if v < size then Some(v) else FirstOf(rest, size)
  {
    assert ([v] + rest)[1..] == rest;
  }

  /** Of each kind of entry the scan keeps the last: tag 14 for the name, 5 and 10 for the string table. */
  lemma {:induction false} ScanKeepsLast(data: seq<byte>, offset: nat, f: Found)
    requires Scan(data, offset, f).Some?
    ensures var g := Scan(data, offset, f).value;
            g.soname == (if ValuesOf(data, offset, 14) == [] then f.soname else LastOf(ValuesOf(data, offset, 14)))
            && g.strtab == (if ValuesOf(data, offset, 5) == [] then f.strtab else LastOf(ValuesOf(data, offset, 5)))
            && g.strsz == (if ValuesOf(data, offset, 10) == [] then f.strsz else LastOf(ValuesOf(data, offset, 10)))
    decreases |data| - offset
  {
    match ItemAt(data, offset) {
      case Next(d) => ScanKeepsLast(data, offset + SIZEOF_DYN, Note(f, d));
      case _ =>
    }
  }

  /** Segments and sections are searched for the first of a kind. */
  lemma {:induction false} FirstOfKind(segments: seq<Segment>, sections: seq<Section>, kind: u32, i: nat)
    ensures i < |segments| && segments[i].kind == kind && (forall j :: 0 <= j < i ==> segments[j].kind != kind) ==>
      FirstSegment(segments, kind) == Some(segments[i])
    ensures i < |sections| && sections[i].kind == kind && (forall j :: 0 <= j < i ==> sections[j].kind != kind) ==>
      FirstSection(sections, kind) == Some(sections[i])
  {
    if i > 0 {
      var a, b := if segments == [] then [] else segments[1..], if sections == [] then [] else sections[1..];
      FirstOfKind(a, b, kind, i - 1);
    }
  }

  /** The section's name in a file, NUL included, is the given one. */
  predicate IsNamed(bytes: seq<byte>, strtab: Section, s: Section, name: seq<byte>)
    requires strtab.offset + strtab.size <= |bytes|
  {
    s.name + |name| < strtab.size && bytes[strtab.offset + s.name..strtab.offset + s.name + |name|] == name
  }

  /** In a file, the search by name hits the first section that has it, and misses if none has. */
  lemma {:induction false} SearchHitsFirst(bytes: seq<byte>, sections: seq<Section>, strtab: Section, name: seq<byte>,
                                           i: nat)
    requires |bytes| < U64_LIMIT && strtab.offset + strtab.size <= |bytes| && i <= |sections|
    requires forall j :: 0 <= j < i ==> !IsNamed(bytes, strtab, sections[j], name)
    ensures i < |sections| && IsNamed(bytes, strtab, sections[i], name) ==>
      SectionNamed(Slice(bytes), sections, strtab, name) == Hit(sections[i])
    ensures i == |sections| ==> SectionNamed(Slice(bytes), sections, strtab, name) == Miss
  {
    if i > 0 {
      assert !IsNamed(bytes, strtab, sections[0], name);
      SearchHitsFirst(bytes, sections[1..], strtab, name, i - 1);
    }
  }

  /** The string table is the section that is linked; if that is no such table, the one named ".dynstr". */
  lemma {:induction false} TableIsLinkedOrNamed(m: Module, sections: seq<Section>, dynamic: Section)
    ensures dynamic.link < |sections| && sections[dynamic.link].kind == 3 ==>
      StringTable(m, sections, dynamic) == Hit(sections[dynamic.link])
    ensures !(dynamic.link < |sections| && sections[dynamic.link].kind == 3)
            && m.shstrndx < |sections| && sections[m.shstrndx].kind == 3 ==>
      StringTable(m, sections, dynamic)
      == SectionNamed(m.memory, sections, sections[m.shstrndx], ['.' as int, 'd' as int, 'y' as int, 'n' as int,
                                                                's' as int, 't' as int, 'r' as int, 0])
  {
  }

  /** The scan of the sections finds the first value in range; it fails if the data ends before any. */
  lemma {:induction false} FirstInRangeIsFirst(data: seq<byte>, offset: nat, size: u64)
    ensures var first := FirstOf(Sonames(data, offset), size);
            FirstInRange(data, offset, size) == Some(first)
            || (FirstInRange(data, offset, size) == None && first == None)
    decreases |data| - offset
  {
    match ItemAt(data, offset) {
      case Next(d) =>
        FirstInRangeIsFirst(data, offset + SIZEOF_DYN, size);
        var rest := Sonames(data, offset + SIZEOF_DYN);
        FirstOfLonger(d.val, rest, size);
        assert Sonames(data, offset) == if d.tag == DT_SONAME then [d.val] + rest else rest;
      case _ =>
    }
  }

  /**
   * Program headers and sections name the same dynamic section, and its entries name the same
   * string table as the sections do.
   */
  ghost predicate SameTables(m: Module, data: seq<byte>, dynstr: Section) {
    m.segments.Some? && m.sections.Some?
    && var p, s := FirstSegment(m.segments.value, PT_DYNAMIC), FirstSection(m.sections.value, SHT_DYNAMIC);
    p.Some? && s.Some? && ReadSegment(m.memory, p.value) == Some(data)
    && ReadAt(m.memory, SectionOffset(m.memory, s.value), s.value.size) == Some(data)
    && StringTable(m, m.sections.value, s.value) == Hit(dynstr)
    && var f := Scan(data, 0, NOTHING);
    f.Some? ==>
      f.value.strtab.Some? && Absolute(m.memory, f.value.strtab.value) == SectionOffset(m.memory, dynstr)
      && f.value.strsz == Some(dynstr.size)
  }

  /** The name at a value of the string table; no value, or one outside of it, is an error. */
  function Named(m: Module, dynstr: Section, v: Option<u64>): Result {
    if v.Some? && v.value < dynstr.size
    then NameAt(m.memory, SectionOffset(m.memory, dynstr), dynstr.size, v.value) else Err
  }

  /** The program headers yield the name at the last SONAME value, if that is in range. */
  lemma {:induction false} ProgramTakesLast(m: Module, data: seq<byte>, dynstr: Section)
    requires SameTables(m, data, dynstr) && Terminated(data)
    ensures ProgramSoname(m) == Named(m, dynstr, LastOf(Sonames(data, 0)))
  {
    ScanKeepsLast(data, 0, NOTHING);
  }

  /** The sections yield the name at the first SONAME value that is in range, terminated or not. */
  lemma {:induction false} SectionTakesFirst(m: Module, data: seq<byte>, dynstr: Section)
    requires SameTables(m, data, dynstr)
    ensures SectionSoname(m) == Named(m, dynstr, FirstOf(Sonames(data, 0), dynstr.size))
  {
    FirstInRangeIsFirst(data, 0, dynstr.size);
  }

  /**
   * On a module whose headers name the same tables, the two ways agree if and only if the last SONAME
   * value, or on an unterminated section none, has the same name or error as the first one in range.
   */
  lemma {:induction false} SonamesAgreeIff(m: Module, data: seq<byte>, dynstr: Section)
    requires SameTables(m, data, dynstr)
    ensures !Terminated(data) ==> ProgramSoname(m) == Err
    ensures var vals := Sonames(data, 0);
            var last := if Terminated(data) then LastOf(vals) else None;
            (ProgramSoname(m) == SectionSoname(m) <==>
             Named(m, dynstr, last) == Named(m, dynstr, FirstOf(vals, dynstr.size)))
  {
    SectionTakesFirst(m, data, dynstr);
    if Terminated(data) {
      ProgramTakesLast(m, data, dynstr);
    }
  }

  lemma {:induction false} OneValue(vals: seq<u64>, v: u64, size: u64)
    requires forall i :: 0 <= i < |vals| ==> vals[i] == v
    ensures FirstOf(vals, size) == if vals != [] && v < size then Some(v) else None
    ensures LastOf(vals) == if vals != [] then Some(v) else None
  {
  }

  /**
   * With one SONAME value, however often it is given, both ways give the same result on a terminated
   * section; so whenever the program headers yield a name, the sections yield the same.
   */
  lemma {:induction false} SonamesAgree(m: Module, data: seq<byte>, dynstr: Section, v: u64)
    requires SameTables(m, data, dynstr) && forall i :: 0 <= i < |Sonames(data, 0)| ==> Sonames(data, 0)[i] == v
    ensures Terminated(data) ==> ProgramSoname(m) == SectionSoname(m)
    ensures ProgramSoname(m).Ok? ==> SectionSoname(m) == ProgramSoname(m)
  {
    SonamesAgreeIff(m, data, dynstr);
    OneValue(Sonames(data, 0), v, dynstr.size);
  }

  // ---- Which fields of the headers are read ----

  /** In a file: offsets and file sizes, and addresses of the dynamic section as they are. */
  lemma {:induction false} FileFields(bytes: seq<byte>, p: Segment, s: Section, addr: u64)
    requires |bytes| < U64_LIMIT && p.offset + p.filesz <= |bytes| && s.offset + s.size <= |bytes|
    ensures var m := Slice(bytes);
            ReadSegment(m, p) == Some(bytes[p.offset..p.offset + p.filesz])
            && ReadAt(m, SectionOffset(m, s), s.size) == Some(bytes[s.offset..s.offset + s.size])
            && Absolute(m, addr) == addr
  {
  }

  /** In a process: addresses and memory sizes, counted from the start of the module. */
  lemma {:induction false} ProcessFields(start: u64, answers: Reads, p: Segment, s: Section, addr: u64)
    requires start + p.vaddr < U64_LIMIT && start + s.addr < U64_LIMIT && p.memsz > 0 && s.size > 0
    ensures var m := Process(start, answers);
            ReadSegment(m, p) == answers(start + p.vaddr, p.memsz)
            && ReadAt(m, SectionOffset(m, s), s.size) == answers(start + s.addr, s.size)
            && start + Absolute(m, addr) == if start <= addr then addr else start + addr
  {
  }

  /** The entries the scan found lead to text t, which holds the name and its NUL. */
  lemma {:induction false} NameFromTable(memory: ModuleMemory, f: Found, t: seq<byte>)
    requires f.strtab.Some? && f.strsz.Some? && f.soname.Some? && f.soname.value < f.strsz.value && 0 in t
    requires Absolute(memory, f.strtab.value) + f.soname.value < U64_LIMIT
    requires ReadAt(memory, Absolute(memory, f.strtab.value) + f.soname.value, f.strsz.value - f.soname.value)
          == Some(t)
    ensures NameOf(memory, f) == Ok(t[..FirstNul(t)])
  {
    assert UntilNul(t).Some?;
  }

  /** The name of a module in a process, from what reads of the process answer. */
  lemma {:induction false} ProcessSoname(m: Module, p: Segment, data: seq<byte>, f: Found, t: seq<byte>)
    requires m.memory.Process? && m.segments.Some? && FirstSegment(m.segments.value, PT_DYNAMIC) == Some(p)
    requires m.memory.start + p.vaddr < U64_LIMIT && p.memsz > 0
    requires m.memory.answers(m.memory.start + p.vaddr, p.memsz) == Some(data) && Scan(data, 0, NOTHING) == Some(f)
    requires f.strtab.Some? && f.strsz.Some? && f.soname.Some? && f.soname.value < f.strsz.value && 0 in t
    requires var table := f.strtab.value + if m.memory.start <= f.strtab.value then 0 else m.memory.start;
             table + f.soname.value < U64_LIMIT
             && m.memory.answers(table + f.soname.value, f.strsz.value - f.soname.value) == Some(t)
    ensures ProgramSoname(m) == Ok(t[..FirstNul(t)])
  {
    NameFromTable(m.memory, f, t);
  }

  lemma {:induction false} TextInFile(bytes: seq<byte>, f: Found)
    requires f.strtab.Some? && f.strsz.Some? && f.soname.Some? && f.soname.value < f.strsz.value
    requires |bytes| < U64_LIMIT && f.strtab.value + f.strsz.value <= |bytes|
    requires 0 in bytes[f.strtab.value + f.soname.value..f.strtab.value + f.strsz.value]
    ensures var t := bytes[f.strtab.value + f.soname.value..f.strtab.value + f.strsz.value];
            NameOf(Slice(bytes), f) == Ok(t[..FirstNul(t)])
  {
    NameFromTable(Slice(bytes), f, bytes[f.strtab.value + f.soname.value..f.strtab.value + f.strsz.value]);
  }

  /** The name of a module in a file, from the bytes of the file. */
  lemma {:induction false} FileSoname(m: Module, bytes: seq<byte>, p: Segment, f: Found)
    requires m.memory == Slice(bytes) && |bytes| < U64_LIMIT
    requires m.segments.Some? && FirstSegment(m.segments.value, PT_DYNAMIC) == Some(p)
    requires p.offset + p.filesz <= |bytes| && Scan(bytes[p.offset..p.offset + p.filesz], 0, NOTHING) == Some(f)
    requires f.strtab.Some? && f.strsz.Some? && f.soname.Some? && f.soname.value < f.strsz.value
    requires f.strtab.value + f.strsz.value <= |bytes|
    requires 0 in bytes[f.strtab.value + f.soname.value..f.strtab.value + f.strsz.value]
    ensures var t := bytes[f.strtab.value + f.soname.value..f.strtab.value + f.strsz.value];
            ProgramSoname(m) == Ok(t[..FirstNul(t)])
  {
    assert ReadSegment(m.memory, p) == Some(bytes[p.offset..p.offset + p.filesz]);
    assert ProgramSoname(m) == NameOf(m.memory, f);
    TextInFile(bytes, f);
  }

  // ---- A module for which they differ ----

  function EncodeDyns(ds: seq<Dyn>): (s: seq<byte>)
    ensures |s| == SIZEOF_DYN * |ds|
  {
    if ds == [] then [] else
      EncodeDyns(ds[..|ds| - 1]) + (ToLE(ds[|ds| - 1].tag, 8) + ToLE(ds[|ds| - 1].val, 8))
  }

  lemma {:induction false} DynAppended(head: seq<byte>, tag: u64, val: u64)
    ensures var s := head + (ToLE(tag, 8) + ToLE(val, 8));
            ItemAt(s, |head|) == if tag == DT_NULL then Done else Next(Dyn(tag, val))
  {
    var a, b := ToLE(tag, 8), ToLE(val, 8);
    var s := head + (a + b);
    assert s[|head|..|head| + 8] == a && s[|head| + 8..|head| + 16] == b;
    GetU64Of(s, |head|, tag);
    GetU64Of(s, |head| + 8, val);
  }

  lemma {:induction false} ItemOfPrefix(s: seq<byte>, more: seq<byte>, at: nat)
    requires at + SIZEOF_DYN <= |s|
    ensures ItemAt(s + more, at) == ItemAt(s, at)
  {
    assert (s + more)[at..at + 8] == s[at..at + 8] && (s + more)[at + 8..at + 16] == s[at + 8..at + 16];
  }

  /** An encoded dynamic section is read back entry by entry. */
  lemma {:induction false} DynReadsBack(ds: seq<Dyn>, i: nat)
    requires i < |ds|
    ensures ItemAt(EncodeDyns(ds), SIZEOF_DYN * i) == if ds[i].tag == DT_NULL then Done else Next(ds[i])
  {
    var front, last := ds[..|ds| - 1], ds[|ds| - 1];
    if i < |front| {
      DynReadsBack(front, i);
      ItemOfPrefix(EncodeDyns(front), ToLE(last.tag, 8) + ToLE(last.val, 8), SIZEOF_DYN * i);
    } else {
      DynAppended(EncodeDyns(front), last.tag, last.val);
    }
  }

  const TWO_NAMES: seq<Dyn> :=
    [Dyn(14, 1), Dyn(14, 3), Dyn(5, 80), Dyn(10, 5), Dyn(0, 0)]

  /** A file: a dynamic section with two SONAME entries, and behind it a table of the names "a" and "b". */
  const TWO_NAMED := Module(
    Slice(EncodeDyns(TWO_NAMES) + [0, 0x61, 0, 0x62, 0]),
    Some([Segment(2, 0, 80, 0, 80)]),
    Some([Section(0, 6, 0, 0, 80, 1), Section(0, 3, 80, 80, 5, 0)]), 0)

  lemma {:induction false} TwoNamesItems()
    ensures var data := EncodeDyns(TWO_NAMES);
            ItemAt(data, 0) == Next(Dyn(14, 1)) && ItemAt(data, 16) == Next(Dyn(14, 3))
            && ItemAt(data, 32) == Next(Dyn(5, 80)) && ItemAt(data, 48) == Next(Dyn(10, 5)) && ItemAt(data, 64) == Done
  {
    DynReadsBack(TWO_NAMES, 0);
    DynReadsBack(TWO_NAMES, 1);
    DynReadsBack(TWO_NAMES, 2);
    DynReadsBack(TWO_NAMES, 3);
    DynReadsBack(TWO_NAMES, 4);
  }

  lemma {:induction false} TwoNamesScanned(data: seq<byte>)
    requires ItemAt(data, 0) == Next(Dyn(14, 1)) && ItemAt(data, 16) == Next(Dyn(14, 3))
    requires ItemAt(data, 32) == Next(Dyn(5, 80)) && ItemAt(data, 48) == Next(Dyn(10, 5)) && ItemAt(data, 64) == Done
    ensures Scan(data, 0, NOTHING) == Some(Found(Some(3), Some(80), Some(5))) && Sonames(data, 0) == [1, 3]
  {
    assert Scan(data, 48, Found(Some(3), Some(80), None)) == Some(Found(Some(3), Some(80), Some(5)));
    assert Scan(data, 16, Found(Some(1), None, None)) == Some(Found(Some(3), Some(80), Some(5)));
    assert ValuesOf(data, 64, 14) == [];
    assert ValuesOf(data, 48, 14) == [];
    assert ValuesOf(data, 32, 14) == [];
    assert ValuesOf(data, 16, 14) == [3];
  }

  lemma {:induction false} NulBehind(a: byte, rest: seq<byte>)
    requires a != 0
    ensures UntilNul([a, 0] + rest) == Some([a])
  {
    var s := [a, 0] + rest;
    var r := UntilNul(s);
    assert s[0] == a && s[1] == 0;
    assert r.Some? && r.value == [a];
  }

  /** Both names, read from the table behind 80 bytes of anything. */
  lemma {:induction false} NamesInTable(data: seq<byte>)
    requires |data| == 80
    ensures var memory := Slice(data + [0, 0x61, 0, 0x62, 0]);
            ReadAt(memory, 0, 80) == Some(data)
            && NameAt(memory, 80, 5, 1) == Ok([0x61]) && NameAt(memory, 80, 5, 3) == Ok([0x62])
  {
    var bytes := data + [0, 0x61, 0, 0x62, 0];
    assert bytes[0..80] == data;
    assert bytes[81..85] == [0x61, 0] + [0x62, 0] && bytes[83..85] == [0x62, 0] + [];
    NulBehind(0x61, [0x62, 0]);
    NulBehind(0x62, []);
  }

  lemma {:induction false} TwoNamedTables()
    ensures SameTables(TWO_NAMED, EncodeDyns(TWO_NAMES), TWO_NAMED.sections.value[1])
  {
    TwoNamesItems();
    TwoNamesScanned(EncodeDyns(TWO_NAMES));
    NamesInTable(EncodeDyns(TWO_NAMES));
  }

  /** The program headers name this module "b", the sections name it "a". */
  lemma {:induction false} DifferentSonamesDisagree()
    ensures ProgramSoname(TWO_NAMED) == Ok([0x62]) && SectionSoname(TWO_NAMED) == Ok([0x61])
  {
    var data, dynstr := EncodeDyns(TWO_NAMES), TWO_NAMED.sections.value[1];
    TwoNamedTables();
    TwoNamesItems();
    TwoNamesScanned(EncodeDyns(TWO_NAMES));
    ProgramTakesLast(TWO_NAMED, data, dynstr);
    SectionTakesFirst(TWO_NAMED, data, dynstr);
    NamesInTable(data);
    assert FirstOf([1, 3], 5) == Some(1);
  }
}
