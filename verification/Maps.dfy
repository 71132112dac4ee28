/**
 * The table of mappings: raw rows of /proc/pid/maps are folded into modules,
 * the module of the entry point is moved to the front, and on Android the
 * range of a module with packed relocations is extended downwards.
 */
module Maps {
  import opened Bytes

  datatype Flag = ReadFlag | WriteFlag | ExecuteFlag | SharedFlag | PrivateFlag
  type Perms = set<Flag>
  type Name = Option<string>

  /** The range a row had in the kernel's table. */
  datatype SystemRange = SystemRange(start: nat, end: nat)

  datatype MappingInfo = MappingInfo(
    start: nat, size: nat, sys: SystemRange, offset: nat, perms: Perms, name: Name)
  {
    function End(): nat { start + size }
    predicate IsExecutable() { ExecuteFlag in perms }
    predicate NameIsPath() { name.Some? && '/' in name.value }
    predicate IsEmptyPage() { offset == 0 && perms == {PrivateFlag} && name.None? }
    /** Membership in the kernel's range. */
    predicate ContainsAddress(a: nat) { sys.start <= a < sys.end }
    /** Membership in the (possibly biased) range. */
    predicate Spans(a: nat) { start <= a < End() }
  }

  /** A row of the table once its name has been resolved. */
  datatype Row = Row(start: nat, end: nat, offset: nat, perms: Perms, name: Name)
  {
    predicate Contains(a: nat) { start <= a < end }
    predicate IsExecutable() { ExecuteFlag in perms }
    function Fresh(): MappingInfo
      requires start <= end
    {
      MappingInfo(start, end - start, SystemRange(start, end), offset, perms, name)
    }
  }

  // ---- Resolving the name of a raw row ----

  datatype MapPath =
    | Path(p: string) | Heap | Stack | TStack(tid: nat) | Vdso | Vvar | Vsyscall | Rollup
    | Vsys(key: nat) | Other(tag: string) | Anonymous

  /** A row as the kernel's table shows it. */
  datatype RawRow = RawRow(start: nat, end: nat, offset: nat, perms: Perms, path: MapPath)

  const DELETED_SUFFIX := " (deleted)"
  const LINUX_GATE_LIBRARY_NAME := "linux-gate.so"

  function Digit(d: nat): char
    requires d < 16
  {
    "0123456789abcdef"[d]
  }

  function Print(n: nat, base: nat): (s: string)
    requires 2 <= base <= 16
    ensures |s| > 0
  {
    if n < base then [Digit(n)] else Print(n / base, base) + [Digit(n % base)]
  }

  predicate EndsWith(s: string, suffix: string) {
    |suffix| <= |s| && s[|s| - |suffix|..] == suffix
  }

  function SanitizePath(p: string): string {
    if EndsWith(p, DELETED_SUFFIX) then p[..|p| - |DELETED_SUFFIX|] else p
  }

  function NameOf(path: MapPath): Name {
    match path
    case Path(p) => Some(SanitizePath(p))
    case Heap => Some("[heap]")
    case Stack => Some("[stack]")
    case TStack(i) => Some("[stack:" + Print(i, 10) + "]")
    case Vdso => Some("[vdso]")
    case Vvar => Some("[vvar]")
    case Vsyscall => Some("[vsyscall]")
    case Rollup => Some("[rollup]")
    case Vsys(i) => Some("/SYSV" + Print(i, 16))
    case Other(n) => Some("[" + n + "]")
    case Anonymous => None
  }

  /** The row that the merge rules see; the vDSO is renamed and its offset dropped. */
  function Resolve(raw: RawRow, linuxGate: nat): Row {
    var name := NameOf(raw.path);
    if !(name.Some? && '/' in name.value) && linuxGate != 0 && raw.start == linuxGate then
      Row(raw.start, raw.end, 0, raw.perms, Some(LINUX_GATE_LIBRARY_NAME))
    else
      Row(raw.start, raw.end, raw.offset, raw.perms, name)
  }

  function ResolveAll(raws: seq<RawRow>, linuxGate: nat): (rows: seq<Row>)
    ensures |rows| == |raws|
  {
    seq(|raws|, i requires 0 <= i < |raws| => Resolve(raws[i], linuxGate))
  }

  // ---- The merge rules ----

  /** Rule 1: a row that continues the last module under the same name. */
  predicate SameModule(infos: seq<MappingInfo>, r: Row) {
    infos != [] && var p := infos[|infos| - 1];
    r.start == p.End() && r.name.Some? && r.name == p.name
  }

  /** Rule 2: address space reserved behind an executable module but not used by it. */
  predicate Reserved(infos: seq<MappingInfo>, r: Row) {
    infos != [] && var p := infos[|infos| - 1];
    r.start == p.End() && p.IsExecutable() && p.NameIsPath()
    && (r.offset == 0 || r.offset == p.End()) && r.perms == {PrivateFlag}
  }

  /** Rule 3: a row that continues the module before the last, over an empty page. */
  predicate BridgesEmptyPage(infos: seq<MappingInfo>, r: Row) {
    |infos| >= 2 &&
    var pp, p := infos[|infos| - 2], infos[|infos| - 1];
    pp.NameIsPath() && pp.End() == p.start && p.IsEmptyPage() && p.End() == r.start
    && r.name == pp.name
  }

  /** Module p extended over row r, taking over its permissions. */
  function Absorb(p: MappingInfo, r: Row): MappingInfo
    requires p.start <= r.end
  {
    p.(size := r.end - p.start, sys := p.sys.(end := r.end), perms := p.perms + r.perms)
  }

  /** What one row does to the modules collected so far. */
  function Step(infos: seq<MappingInfo>, r: Row): seq<MappingInfo>
    requires r.start <= r.end
  {
    var n := |infos|;
    if SameModule(infos, r) then infos[n - 1 := Absorb(infos[n - 1], r)]
    else if Reserved(infos, r) then
      infos[n - 1 := infos[n - 1].(size := r.end - infos[n - 1].start)]
    else if BridgesEmptyPage(infos, r) then infos[..n - 2] + [Absorb(infos[n - 2], r)]
    else infos + [r.Fresh()]
  }

  /** Rows as the kernel lists them: no row ends before it starts. */
  predicate Forward(rows: seq<Row>) {
    forall i :: 0 <= i < |rows| ==> rows[i].start <= rows[i].end
  }

  function Aggregated(rows: seq<Row>): seq<MappingInfo>
    requires Forward(rows)
  {
    if rows == [] then [] else Step(Aggregated(rows[..|rows| - 1]), rows[|rows| - 1])
  }

  /** One turn of the fold: edits, drops or pushes at the end of the collected modules. */
  method AddRow(infos: seq<MappingInfo>, r: Row) returns (out: seq<MappingInfo>)
    requires r.start <= r.end
    ensures out == Step(infos, r)
  {
    var n := |infos|;
    if n > 0 {
      var p := infos[n - 1];
      if r.start == p.End() && r.name.Some? && r.name == p.name {
        p := p.(sys := p.sys.(end := r.end), size := r.end - p.start, perms := p.perms + r.perms);
        return infos[n - 1 := p];
      } else if r.start == p.End() && p.IsExecutable() && p.NameIsPath()
             && (r.offset == 0 || r.offset == p.End()) && r.perms == {PrivateFlag} {
        return infos[n - 1 := p.(size := r.end - p.start)];
      }
    }
    if n >= 2 {
      var pp, p := infos[n - 2], infos[n - 1];
      if pp.NameIsPath() && pp.End() == p.start && p.IsEmptyPage() && p.End() == r.start {
        if r.name == pp.name {
          pp := pp.(sys := pp.sys.(end := r.end), size := r.end - pp.start,
                    perms := pp.perms + r.perms);
          out := infos[n - 2 := pp];
          return out[..n - 1];
        }
      }
    }
    out := infos + [MappingInfo(r.start, r.end - r.start, SystemRange(r.start, r.end),
                                r.offset, r.perms, r.name)];
  }

  /** The fold over the rows of the table. */
  method Aggregate(raws: seq<RawRow>, linuxGate: nat) returns (infos: seq<MappingInfo>)
    requires Forward(ResolveAll(raws, linuxGate))
    ensures infos == Aggregated(ResolveAll(raws, linuxGate))
  {
    ghost var rows := ResolveAll(raws, linuxGate);
    infos := [];
    for i := 0 to |raws|
      invariant infos == Aggregated(rows[..i])
    {
      var r := Resolve(raws[i], linuxGate);
      assert rows[..i + 1][..i] == rows[..i] && rows[i] == r;
      infos := AddRow(infos, r);
    }
    assert rows[..|raws|] == rows;
  }
}
