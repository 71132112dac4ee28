/** Android: modules with packed relocations are moved down to their effective load bias. */
module Android {
  import opened Bytes
  import opened Maps

  datatype SegmentKind = Load | Dynamic | OtherSegment
  datatype Segment = Segment(kind: SegmentKind, vaddr: nat, memsz: nat)

  /**
   * What reading the target shows at the start of a module: the ELF type, the program headers at `phoff`
   * (none when they could not be read), and the tag of the dynamic entry at an address.
   */
  datatype Image = Image(isDyn: bool, phoff: nat, segments: seq<Segment>, tagAt: nat -> Option<nat>)

  const SIZEOF_DYN := 16
  const DT_ANDROID_REL := 0x6000_000f
  const DT_ANDROID_RELA := 0x6000_0011

  /** v is the lowest address of a loadable segment, or the highest number when there is none. */
  ghost predicate IsMinVaddr(segments: seq<Segment>, v: nat) {
    (forall i :: 0 <= i < |segments| && segments[i].kind.Load? ==> v <= segments[i].vaddr)
    && (v == USIZE_MAX || exists i :: 0 <= i < |segments| && segments[i].kind.Load? && segments[i].vaddr == v)
  }

  function MinVaddr(segments: seq<Segment>): nat {
    if segments == [] then USIZE_MAX else
      var s, m := segments[|segments| - 1], MinVaddr(segments[..|segments| - 1]);
      if s.kind.Load? && s.vaddr < m then s.vaddr else m
  }

  /** The last dynamic segment: its address and number of entries. */
  function DynamicOf(segments: seq<Segment>): (nat, nat) {
    if segments == [] then (0, 0) else
      var s := segments[|segments| - 1];
      if s.kind.Dynamic? then (s.vaddr, s.memsz / SIZEOF_DYN) else DynamicOf(segments[..|segments| - 1])
  }

  lemma {:induction false} MinVaddrIsMin(segments: seq<Segment>)
    requires forall i :: 0 <= i < |segments| ==> segments[i].vaddr <= USIZE_MAX
    ensures IsMinVaddr(segments, MinVaddr(segments))
  {
    if segments != [] {
      var front := segments[..|segments| - 1];
      MinVaddrIsMin(front);
      if i :| 0 <= i < |front| && front[i].kind.Load? && front[i].vaddr == MinVaddr(front) {
        assert segments[i] == front[i];
      }
    }
  }

  method ParseProgramHeaders(segments: seq<Segment>) returns (minVaddr: nat, dynVaddr: nat, dynCount: nat)
    ensures minVaddr == MinVaddr(segments)
    ensures (dynVaddr, dynCount) == DynamicOf(segments)
  {
    minVaddr, dynVaddr, dynCount := USIZE_MAX, 0, 0;
    for i := 0 to |segments|
      invariant minVaddr == MinVaddr(segments[..i])
      invariant (dynVaddr, dynCount) == DynamicOf(segments[..i])
    {
      assert segments[..i + 1][..i] == segments[..i];
      var s := segments[i];
      if s.kind.Load? && s.vaddr < minVaddr {
        minVaddr := s.vaddr;
      }
      if s.kind.Dynamic? {
        dynVaddr, dynCount := s.vaddr, s.memsz / SIZEOF_DYN;
      }
    }
    assert segments[..|segments|] == segments;
  }

  // ---- Packed relocations ----

  /** A result of 64-bit arithmetic without overflow checks. */
  function Wrap(n: int): nat { n % U64_LIMIT }

  predicate IsPacked(tag: Option<nat>) {
    tag in {Some(DT_ANDROID_REL), Some(DT_ANDROID_RELA)}
  }

  function TagOf(tagAt: nat -> Option<nat>, addr: nat, idx: nat): Option<nat> {
    tagAt(Wrap(addr + SIZEOF_DYN * idx))
  }

  /** The scan gets to entry idx: all before it could be read, and none of them has a tag in question. */
  predicate Reaches(tagAt: nat -> Option<nat>, addr: nat, idx: nat) {
    forall j :: 0 <= j < idx ==> TagOf(tagAt, addr, j).Some? && !IsPacked(TagOf(tagAt, addr, j))
  }

  predicate HasPackedRelocations(tagAt: nat -> Option<nat>, addr: nat, count: nat) {
    exists idx :: 0 <= idx < count && Reaches(tagAt, addr, idx) && IsPacked(TagOf(tagAt, addr, idx))
  }

  predicate ScanOverflows(tagAt: nat -> Option<nat>, addr: nat, count: nat) {
    exists idx :: 0 <= idx < count && Reaches(tagAt, addr, idx) && addr + SIZEOF_DYN * idx >= U64_LIMIT
  }

  /** In a build with overflow checks (`checked`) an address that wraps around is a fault. */
  method FindPackedRelocations(tagAt: nat -> Option<nat>, addr: nat, count: nat, checked: bool)
    returns (found: bool, faulted: bool)
    ensures faulted <==> checked && ScanOverflows(tagAt, addr, count)
    ensures !faulted ==> found == HasPackedRelocations(tagAt, addr, count)
  {
    for idx := 0 to count
      invariant Reaches(tagAt, addr, idx)
      invariant checked ==> forall j :: 0 <= j < idx ==> addr + SIZEOF_DYN * j < U64_LIMIT
    {
      if checked && addr + SIZEOF_DYN * idx >= U64_LIMIT {
        return false, true;
      }
      var tag := tagAt(Wrap(addr + SIZEOF_DYN * idx));
      assert tag == TagOf(tagAt, addr, idx);
      if tag.None? {
        return false, false;
      }
      if tag.value == DT_ANDROID_REL || tag.value == DT_ANDROID_RELA {
        return true, false;
      }
    }
    return false, false;
  }

  // ---- The load bias ----

  /** The module has a lowest address, and a packed-relocation tag in its dynamic section. */
  predicate IsBiased(image: Image, address: nat) {
    var (vaddr, count) := DynamicOf(image.segments);
    MinVaddr(image.segments) != 0
    && HasPackedRelocations(image.tagAt, Wrap(address - MinVaddr(image.segments) + vaddr), count)
  }

  function LoadBias(image: Image, address: nat): nat {
    if IsBiased(image, address) then Wrap(address - MinVaddr(image.segments)) else address
  }

  predicate BiasOverflows(image: Image, address: nat) {
    var min, (vaddr, count) := MinVaddr(image.segments), DynamicOf(image.segments);
    address + image.phoff >= U64_LIMIT
    || (min != 0
        && (min > address || address - min + vaddr >= U64_LIMIT
            || ScanOverflows(image.tagAt, address - min + vaddr, count)))
  }

  method EffectiveLoadBias(image: Image, address: nat, checked: bool) returns (bias: nat, faulted: bool)
    requires address < U64_LIMIT
    ensures faulted <==> checked && BiasOverflows(image, address)
    ensures !faulted ==> bias == LoadBias(image, address)
  {
    if checked && address + image.phoff >= U64_LIMIT {
      return 0, true;
    }
    var minVaddr, dynVaddr, dynCount := ParseProgramHeaders(image.segments);
    if minVaddr != 0 {
      if checked && (minVaddr > address || address - minVaddr + dynVaddr >= U64_LIMIT) {
        return 0, true;
      }
      var found;
      found, faulted := FindPackedRelocations(image.tagAt, Wrap(address - minVaddr + dynVaddr), dynCount, checked);
      if faulted {
        return 0, true;
      }
      if found {
        return Wrap(address - minVaddr), false;
      }
    }
    return address, false;
  }

  /**
   * The bias differs from the address exactly when the module is biased; then it lies below it by the
   * lowest address of a segment, if and only if that does not exceed the address.
   */
  lemma {:induction false} LoadBiasIff(image: Image, address: nat)
    requires address < U64_LIMIT && MinVaddr(image.segments) < U64_LIMIT
    ensures LoadBias(image, address) != address <==> IsBiased(image, address)
    ensures IsBiased(image, address) ==>
      (LoadBias(image, address) + MinVaddr(image.segments) == address <==> MinVaddr(image.segments) <= address)
  {
    var min := MinVaddr(image.segments);
    if min <= address {
      assert Wrap(address - min) == address - min;
    } else {
      assert Wrap(address - min) == address - min + U64_LIMIT;
    }
  }

  // ---- The pass over the mappings ----

  type Probe = nat -> Option<Image>

  /** Modules that are looked at: executable, named after a file, with a shared-object header. */
  predicate IsLibrary(m: MappingInfo, probe: Probe) {
    m.IsExecutable() && m.NameIsPath() && probe(m.start).Some? && probe(m.start).value.isDyn
  }

  function Biased(m: MappingInfo, probe: Probe): MappingInfo {
    if !IsLibrary(m, probe) then m else
      var bias := LoadBias(probe(m.start).value, m.start);
      m.(start := bias, size := Wrap(m.size + m.start - bias))
  }

  function AllBiased(infos: seq<MappingInfo>, probe: Probe): (out: seq<MappingInfo>)
    ensures |out| == |infos|
  {
    seq(|infos|, i requires 0 <= i < |infos| => Biased(infos[i], probe))
  }

  /** Computing the bias of a module overflows. */
  predicate Faults(m: MappingInfo, probe: Probe) {
    IsLibrary(m, probe) && BiasOverflows(probe(m.start).value, m.start)
  }

  predicate AnyFaults(infos: seq<MappingInfo>, probe: Probe) {
    exists i :: 0 <= i < |infos| && Faults(infos[i], probe)
  }

  method ProcessMapping(m: MappingInfo, probe: Probe, checked: bool) returns (out: MappingInfo, faulted: bool)
    requires m.End() < U64_LIMIT
    ensures faulted <==> checked && Faults(m, probe)
    ensures !faulted ==> out == Biased(m, probe)
  {
    if m.IsExecutable() && m.NameIsPath() {
      var image := probe(m.start);
      if image.Some? && image.value.isDyn {
        var loadBias;
        loadBias, faulted := EffectiveLoadBias(image.value, m.start, checked);
        if faulted {
          return m, true;
        }
        return m.(size := Wrap(m.size + m.start - loadBias), start := loadBias), false;
      }
    }
    return m, false;
  }

  method LateProcessMappings(mappings: array<MappingInfo>, probe: Probe, checked: bool) returns (faulted: bool)
    requires forall i :: 0 <= i < mappings.Length ==> mappings[i].End() < U64_LIMIT
    modifies mappings
    ensures faulted <==> checked && AnyFaults(old(mappings[..]), probe)
    ensures !faulted ==> mappings[..] == AllBiased(old(mappings[..]), probe)
  {
    ghost var was := mappings[..];
    for i := 0 to mappings.Length
      invariant forall j :: 0 <= j < i ==> mappings[j] == Biased(was[j], probe)
      invariant checked ==> forall j :: 0 <= j < i ==> !Faults(was[j], probe)
      invariant forall j :: i <= j < mappings.Length ==> mappings[j] == was[j]
    {
      var biased;
      biased, faulted := ProcessMapping(mappings[i], probe, checked);
      if faulted {
        return;
      }
      mappings[i] := biased;
    }
    faulted := false;
  }

  /** No module is moved up by its bias. */
  ghost predicate ProbeFits(infos: seq<MappingInfo>, probe: Probe) {
    forall i ::
      0 <= i < |infos| && IsLibrary(infos[i], probe) && IsBiased(probe(infos[i].start).value, infos[i].start) ==>
        MinVaddr(probe(infos[i].start).value.segments) <= infos[i].start
  }

  /** The bias moves the start down and nothing else: the end and the kernel range stay. */
  lemma {:induction false} BiasOnlyLowersStart(infos: seq<MappingInfo>, probe: Probe, i: nat)
    requires ProbeFits(infos, probe) && i < |infos| && infos[i].End() < U64_LIMIT
    ensures var m, b := infos[i], AllBiased(infos, probe)[i];
            b.start <= m.start && b.End() == m.End() && b.sys == m.sys
            && b.perms == m.perms && b.name == m.name && b.offset == m.offset
  {
    var m := infos[i];
    if IsLibrary(m, probe) && IsBiased(probe(m.start).value, m.start) {
      var min := MinVaddr(probe(m.start).value.segments);
      assert Wrap(m.start - min) == m.start - min && Wrap(m.size + min) == m.size + min;
    } else {
      assert Wrap(m.size) == m.size;
    }
  }

  // ---- Which modules move ----

  /** The address and the number of entries of the last dynamic segment, d. */
  lemma {:induction false} DynamicIsLast(segments: seq<Segment>, d: nat)
    requires d < |segments| && segments[d].kind.Dynamic?
    requires forall j :: d < j < |segments| ==> !segments[j].kind.Dynamic?
    ensures DynamicOf(segments) == (segments[d].vaddr, segments[d].memsz / 16)
  {
    if d < |segments| - 1 {
      DynamicIsLast(segments[..|segments| - 1], d);
    }
  }

  lemma {:induction false} NoDynamic(segments: seq<Segment>)
    requires forall j :: 0 <= j < |segments| ==> !segments[j].kind.Dynamic?
    ensures DynamicOf(segments) == (0, 0)
  {
    if segments != [] {
      NoDynamic(segments[..|segments| - 1]);
    }
  }

  predicate RelTag(tagAt: nat -> Option<nat>, base: nat, idx: nat) {
    tagAt(base + 16 * idx) == Some(0x6000_000f) || tagAt(base + 16 * idx) == Some(0x6000_0011)
  }

  predicate OtherTag(tagAt: nat -> Option<nat>, base: nat, idx: nat) {
    tagAt(base + 16 * idx).Some? && !RelTag(tagAt, base, idx)
  }

  /** One of n dynamic entries from a base on has such a tag, and those before it can be read. */
  predicate FindsTag(tagAt: nat -> Option<nat>, base: nat, n: nat) {
    exists idx :: 0 <= idx < n && RelTag(tagAt, base, idx) && forall j :: 0 <= j < idx ==> OtherTag(tagAt, base, j)
  }

  lemma {:induction false} FindsTagIff(tagAt: nat -> Option<nat>, base: nat, n: nat)
    requires base + 16 * n < U64_LIMIT
    ensures HasPackedRelocations(tagAt, base, n) <==> FindsTag(tagAt, base, n)
  {
    forall j | 0 <= j < n
      ensures TagOf(tagAt, base, j) == tagAt(base + 16 * j)
      ensures IsPacked(TagOf(tagAt, base, j)) <==> RelTag(tagAt, base, j)
      ensures OtherTag(tagAt, base, j) <==> TagOf(tagAt, base, j).Some? && !IsPacked(TagOf(tagAt, base, j))
    {
    }
    if HasPackedRelocations(tagAt, base, n) {
      var idx :| 0 <= idx < n && Reaches(tagAt, base, idx) && IsPacked(TagOf(tagAt, base, idx));
      assert RelTag(tagAt, base, idx);
    }
    if FindsTag(tagAt, base, n) {
      var idx :| 0 <= idx < n && RelTag(tagAt, base, idx) && forall j :: 0 <= j < idx ==> OtherTag(tagAt, base, j);
      assert Reaches(tagAt, base, idx) && IsPacked(TagOf(tagAt, base, idx));
    }
  }

  /**
   * A shared object with its lowest segment at min moves down by min, its end fixed, exactly when the
   * scan of its last dynamic segment finds one of the two tags.
   */
  lemma {:induction false} LibraryMovesIff(m: MappingInfo, probe: Probe, min: nat, d: nat)
    requires ExecuteFlag in m.perms && m.name.Some? && '/' in m.name.value && m.End() < U64_LIMIT
    requires probe(m.start).Some? && probe(m.start).value.isDyn
    requires var s := probe(m.start).value.segments;
             IsMinVaddr(s, min) && 0 < min <= m.start && min < USIZE_MAX && d < |s| && s[d].kind.Dynamic?
             && (forall j :: d < j < |s| ==> !s[j].kind.Dynamic?)
             && (forall j :: 0 <= j < |s| ==> s[j].vaddr <= USIZE_MAX)
             && m.start - min + s[d].vaddr + s[d].memsz < U64_LIMIT
    ensures var image := probe(m.start).value;
            var d := image.segments[d];
            Biased(m, probe)
            == if FindsTag(image.tagAt, m.start - min + d.vaddr, d.memsz / 16)
               then m.(start := m.start - min, size := m.size + min) else m
  {
    var image := probe(m.start).value;
    var dyn := image.segments[d];
    MinVaddrIsMin(image.segments);
    assert MinVaddr(image.segments) == min;
    DynamicIsLast(image.segments, d);
    var base := m.start - min + dyn.vaddr;
    FindsTagIff(image.tagAt, base, dyn.memsz / 16);
    assert Wrap(base) == base && Wrap(m.start - min) == m.start - min;
    assert Wrap(m.size + min) == m.size + min && Wrap(m.size) == m.size;
  }

  /** Nothing else moves: data, unnamed memory, what is no shared object, and what has lowest address 0. */
  lemma {:induction false} OthersStay(m: MappingInfo, probe: Probe)
    requires m.End() < U64_LIMIT
    requires ExecuteFlag !in m.perms || m.name.None? || '/' !in m.name.value || probe(m.start).None?
             || !probe(m.start).value.isDyn || MinVaddr(probe(m.start).value.segments) == 0
    ensures Biased(m, probe) == m
  {
    assert Wrap(m.size) == m.size;
  }
}
