/**
 * What the merge rules of `Maps` keep: no address is gained or lost, executable
 * rows stay inside the kernel range of executable modules, and aggregating the
 * modules a second time merges nothing more.
 */
module Aggregation {
  import opened Bytes
  import opened Maps

  // ---- Address space ----

  /** Rows in address order that do not overlap. */
  predicate Sorted(rows: seq<Row>) {
    Forward(rows) && forall i, j :: 0 <= i < j < |rows| ==> rows[i].end <= rows[j].start
  }

  /** Modules in address order that do not overlap. */
  predicate Separated(infos: seq<MappingInfo>) {
    forall i, j :: 0 <= i < j < |infos| ==> infos[i].End() <= infos[j].start
  }

  /** The kernel range of a module starts with it and does not outlast it. */
  predicate Anchored(m: MappingInfo) {
    m.sys.start == m.start && m.sys.start <= m.sys.end <= m.End()
  }

  predicate AllAnchored(infos: seq<MappingInfo>) {
    forall i :: 0 <= i < |infos| ==> Anchored(infos[i])
  }

  ghost predicate InRows(rows: seq<Row>, a: nat) {
    exists i :: 0 <= i < |rows| && rows[i].Contains(a)
  }

  ghost predicate InModules(infos: seq<MappingInfo>, a: nat) {
    exists i :: 0 <= i < |infos| && infos[i].Spans(a)
  }

  predicate Holds(m: MappingInfo, r: Row) {
    m.IsExecutable() && m.sys.start <= r.start && r.end <= m.sys.end
  }

  /** Some executable module has row r inside its kernel range. */
  ghost predicate Kept(infos: seq<MappingInfo>, r: Row) {
    exists k :: 0 <= k < |infos| && Holds(infos[k], r)
  }

  /** Module m is executable because of one of the rows. */
  ghost predicate Backed(m: MappingInfo, rows: seq<Row>) {
    exists i :: 0 <= i < |rows| && rows[i].IsExecutable() && Holds(m, rows[i])
  }

  /** No module reaches beyond address b. */
  predicate Below(infos: seq<MappingInfo>, b: nat) {
    forall i :: 0 <= i < |infos| ==> infos[i].End() <= b
  }

  lemma {:induction false} StepLayout(infos: seq<MappingInfo>, r: Row)
    requires Separated(infos) && AllAnchored(infos)
    requires r.start <= r.end && Below(infos, r.start)
    ensures Separated(Step(infos, r)) && AllAnchored(Step(infos, r)) && Below(Step(infos, r), r.end)
  {
  }

  lemma {:induction false} SplitModules(xs: seq<MappingInfo>, ys: seq<MappingInfo>, a: nat)
    ensures InModules(xs + ys, a) <==> InModules(xs, a) || InModules(ys, a)
  {
    if InModules(xs, a) {
      var i :| 0 <= i < |xs| && xs[i].Spans(a);
      assert (xs + ys)[i].Spans(a);
    }
    if InModules(ys, a) {
      var i :| 0 <= i < |ys| && ys[i].Spans(a);
      assert (xs + ys)[|xs| + i].Spans(a);
    }
  }

  lemma {:induction false} OneModule(m: MappingInfo, a: nat)
    ensures InModules([m], a) <==> m.Spans(a)
  {
    assert [m][0] == m;
  }

  lemma {:induction false} StepAddresses(infos: seq<MappingInfo>, r: Row, a: nat)
    requires r.start <= r.end
    ensures InModules(Step(infos, r), a) <==> InModules(infos, a) || r.Contains(a)
  {
    var n := |infos|;
    if SameModule(infos, r) || Reserved(infos, r) {
      var init, p := infos[..n - 1], infos[n - 1];
      var p' := Step(infos, r)[n - 1];
      assert infos == init + [p] && Step(infos, r) == init + [p'];
      SplitModules(init, [p], a);
      SplitModules(init, [p'], a);
      OneModule(p, a);
      OneModule(p', a);
    } else if BridgesEmptyPage(infos, r) {
      var init, pp, p := infos[..n - 2], infos[n - 2], infos[n - 1];
      assert infos == init + ([pp] + [p]);
      SplitModules(init, [pp] + [p], a);
      SplitModules([pp], [p], a);
      SplitModules(init, [Absorb(pp, r)], a);
      OneModule(pp, a);
      OneModule(p, a);
      OneModule(Absorb(pp, r), a);
    } else {
      SplitModules(infos, [r.Fresh()], a);
      OneModule(r.Fresh(), a);
    }
  }

  lemma {:induction false} StepKeeps(infos: seq<MappingInfo>, r: Row, q: Row)
    requires AllAnchored(infos) && r.start <= r.end
    requires Kept(infos, q)
    ensures Kept(Step(infos, r), q)
  {
    var k :| 0 <= k < |infos| && Holds(infos[k], q);
    assert BridgesEmptyPage(infos, r) && !SameModule(infos, r) ==> k != |infos| - 1;
    assert Holds(Step(infos, r)[k], q);
  }

  lemma {:induction false} StepKeepsNew(infos: seq<MappingInfo>, r: Row)
    requires AllAnchored(infos) && r.start <= r.end && r.IsExecutable()
    ensures Kept(Step(infos, r), r)
  {
    var out := Step(infos, r);
    assert Holds(out[|out| - 1], r);
  }

  lemma {:induction false} StepBacked(infos: seq<MappingInfo>, r: Row, rows: seq<Row>)
    requires AllAnchored(infos) && r.start <= r.end
    requires forall k :: 0 <= k < |infos| && infos[k].IsExecutable() ==> Backed(infos[k], rows)
    ensures forall k :: 0 <= k < |Step(infos, r)| && Step(infos, r)[k].IsExecutable()
              ==> Backed(Step(infos, r)[k], rows + [r])
  {
    var out := Step(infos, r);
    forall k | 0 <= k < |out| && out[k].IsExecutable()
      ensures Backed(out[k], rows + [r])
    {
      if k < |infos| && infos[k].IsExecutable() {
        var i :| 0 <= i < |rows| && rows[i].IsExecutable() && Holds(infos[k], rows[i]);
        assert (rows + [r])[i] == rows[i] && Holds(out[k], rows[i]);
      } else {
        assert (rows + [r])[|rows|] == r && Holds(out[k], r);
      }
    }
  }

  lemma {:induction false} SplitRows(rows: seq<Row>, r: Row, a: nat)
    ensures InRows(rows + [r], a) <==> InRows(rows, a) || r.Contains(a)
  {
    if InRows(rows, a) {
      var i :| 0 <= i < |rows| && rows[i].Contains(a);
      assert (rows + [r])[i].Contains(a);
    }
    if r.Contains(a) {
      assert (rows + [r])[|rows|].Contains(a);
    }
  }

  /**
   * Aggregation conserves the address space: modules come out sorted and disjoint, they
   * cover exactly the addresses of the rows, kernel ranges stay inside modules, and a row
   * is executable only inside the kernel range of an executable module, and conversely.
   */
  lemma {:induction false} Conservation(rows: seq<Row>)
    requires Sorted(rows)
    ensures Separated(Aggregated(rows)) && AllAnchored(Aggregated(rows))
    ensures forall a: nat :: InRows(rows, a) <==> InModules(Aggregated(rows), a)
    ensures forall i :: 0 <= i < |rows| && rows[i].IsExecutable() ==> Kept(Aggregated(rows), rows[i])
    ensures forall k :: 0 <= k < |Aggregated(rows)| && Aggregated(rows)[k].IsExecutable()
              ==> Backed(Aggregated(rows)[k], rows)
    ensures rows != [] ==> Below(Aggregated(rows), rows[|rows| - 1].end)
  {
    if rows != [] {
      var n := |rows| - 1;
      var front, r := rows[..n], rows[n];
      assert rows == front + [r];
      Conservation(front);
      var infos := Aggregated(front);
      StepLayout(infos, r);
      StepBacked(infos, r, front);
      forall a: nat ensures InRows(rows, a) <==> InModules(Step(infos, r), a) {
        SplitRows(front, r, a);
        StepAddresses(infos, r, a);
      }
      forall i | 0 <= i < |rows| && rows[i].IsExecutable() ensures Kept(Step(infos, r), rows[i]) {
        if i < n {
          assert front[i] == rows[i];
          StepKeeps(infos, r, rows[i]);
        } else {
          StepKeepsNew(infos, r);
        }
      }
    }
  }

  // ---- Fixpoint ----

  /** The module shown as one row of the table. */
  function AsRow(m: MappingInfo): Row {
    Row(m.start, m.End(), m.offset, m.perms, m.name)
  }

  function AsRows(infos: seq<MappingInfo>): (rows: seq<Row>)
    ensures |rows| == |infos| && Forward(rows)
  {
    seq(|infos|, i requires 0 <= i < |infos| => AsRow(infos[i]))
  }

  /** The module with its kernel range spread over all of it; nothing else changes. */
  function Whole(m: MappingInfo): MappingInfo {
    m.(sys := SystemRange(m.start, m.End()))
  }

  function AllWhole(infos: seq<MappingInfo>): (out: seq<MappingInfo>)
    ensures |out| == |infos|
  {
    seq(|infos|, i requires 0 <= i < |infos| => Whole(infos[i]))
  }

  /** No merge rule applies to row r. */
  predicate NoMerge(infos: seq<MappingInfo>, r: Row) {
    !SameModule(infos, r) && !Reserved(infos, r) && !BridgesEmptyPage(infos, r)
  }

  predicate Irreducible(infos: seq<MappingInfo>, k: nat)
    requires k < |infos|
  {
    NoMerge(infos[..k], AsRow(infos[k]))
  }

  predicate Stable(infos: seq<MappingInfo>) {
    forall k :: 0 <= k < |infos| ==> Irreducible(infos, k)
  }

  /** Every row of the kernel's table is either shared or private. */
  predicate Tagged(perms: Perms) { SharedFlag in perms || PrivateFlag in perms }

  predicate AllTagged(infos: seq<MappingInfo>) {
    forall k :: 0 <= k < |infos| ==> Tagged(infos[k].perms)
  }

  /** A module pushed as irreducible stays so when it absorbs rows. */
  lemma {:induction false} AbsorbIrreducible(init: seq<MappingInfo>, p: MappingInfo, r: Row)
    requires Tagged(p.perms) && p.start <= r.end
    requires NoMerge(init, AsRow(p))
    ensures NoMerge(init, AsRow(Absorb(p, r)))
  {
  }

  lemma {:induction false} StepStable(infos: seq<MappingInfo>, r: Row)
    requires Stable(infos) && AllTagged(infos)
    requires r.start <= r.end && Tagged(r.perms)
    ensures Stable(Step(infos, r)) && AllTagged(Step(infos, r))
  {
    var out := Step(infos, r);
    var last := |out| - 1;
    assert out[..last] == infos[..last];
    forall k | 0 <= k < |out| ensures Irreducible(out, k) {
      if k < last {
        assert out[..k] == infos[..k] && out[k] == infos[k] && Irreducible(infos, k);
      } else if SameModule(infos, r) || (BridgesEmptyPage(infos, r) && !Reserved(infos, r)) {
        assert Irreducible(infos, k);
        AbsorbIrreducible(infos[..k], infos[k], r);
      } else if Reserved(infos, r) {
        assert Irreducible(infos, k);
      } else {
        assert infos[..last] == infos;
      }
    }
  }

  lemma {:induction false} AggregatedIsStable(rows: seq<Row>)
    requires Forward(rows) && forall i :: 0 <= i < |rows| ==> Tagged(rows[i].perms)
    ensures Stable(Aggregated(rows)) && AllTagged(Aggregated(rows))
  {
    if rows != [] {
      AggregatedIsStable(rows[..|rows| - 1]);
      StepStable(Aggregated(rows[..|rows| - 1]), rows[|rows| - 1]);
    }
  }

  /** The rules do not look at kernel ranges. */
  lemma {:induction false} WholeNoMerge(front: seq<MappingInfo>, m: MappingInfo)
    requires NoMerge(front, AsRow(m))
    ensures Step(AllWhole(front), AsRow(m)) == AllWhole(front) + [Whole(m)]
  {
    assert NoMerge(AllWhole(front), AsRow(m));
  }

  lemma {:induction false} StableIsFixpoint(infos: seq<MappingInfo>)
    requires Stable(infos)
    ensures Aggregated(AsRows(infos)) == AllWhole(infos)
  {
    if infos != [] {
      var n := |infos| - 1;
      var front := infos[..n];
      forall k | 0 <= k < n ensures Irreducible(front, k) {
        assert Irreducible(infos, k) && front[..k] == infos[..k];
      }
      StableIsFixpoint(front);
      assert AsRows(infos)[..n] == AsRows(front);
      assert Irreducible(infos, n);
      WholeNoMerge(front, infos[n]);
      assert AllWhole(infos) == AllWhole(front) + [Whole(infos[n])];
    }
  }

  /** Two modules that touch never carry the same name. */
  lemma {:induction false} NeighboursDiffer(rows: seq<Row>, k: nat)
    requires Forward(rows) && k + 1 < |Aggregated(rows)|
    ensures var m, m' := Aggregated(rows)[k], Aggregated(rows)[k + 1];
            m'.start == m.End() && m'.name.Some? ==> m'.name != m.name
  {
    var front := rows[..|rows| - 1];
    if k + 1 < |Aggregated(front)| {
      NeighboursDiffer(front, k);
    }
  }

  // ---- Fixpoint, through the naming of raw rows ----

  /** The module as a row of the kernel's table, its name as a path. */
  function AsRaw(m: MappingInfo): RawRow {
    RawRow(m.start, m.End(), m.offset, m.perms, if m.name.Some? then Path(m.name.value) else Anonymous)
  }

  function AsRaws(infos: seq<MappingInfo>): (raws: seq<RawRow>)
    ensures |raws| == |infos|
  {
    seq(|infos|, i requires 0 <= i < |infos| => AsRaw(infos[i]))
  }

  /** A module at the vDSO's address that is not a file carries the vDSO's name. */
  predicate GateNamed(m: MappingInfo, gate: nat) {
    (gate != 0 && m.start == gate && !m.NameIsPath()) ==>
      (m.offset == 0 && m.name == Some(LINUX_GATE_LIBRARY_NAME))
  }

  lemma {:induction false} AllGateNamed(raws: seq<RawRow>, gate: nat)
    requires Forward(ResolveAll(raws, gate))
    ensures forall k :: 0 <= k < |Aggregated(ResolveAll(raws, gate))|
              ==> GateNamed(Aggregated(ResolveAll(raws, gate))[k], gate)
  {
    if raws != [] {
      var n := |raws| - 1;
      var rows := ResolveAll(raws, gate);
      assert rows[..n] == ResolveAll(raws[..n], gate);
      AllGateNamed(raws[..n], gate);
    }
  }

  predicate NormalNames(infos: seq<MappingInfo>) {
    forall k :: 0 <= k < |infos| && infos[k].name.Some? ==> !EndsWith(infos[k].name.value, DELETED_SUFFIX)
  }

  /** Every row adds at most one module; when each adds one, row k became module k. */
  lemma {:induction false} AtMostOneEach(rows: seq<Row>)
    requires Forward(rows)
    ensures |Aggregated(rows)| <= |rows|
    ensures |Aggregated(rows)| == |rows| ==>
      Aggregated(rows) == seq(|rows|, k requires 0 <= k < |rows| => rows[k].Fresh())
  {
    if rows != [] {
      AtMostOneEach(rows[..|rows| - 1]);
    }
  }

  /**
   * Aggregation is a fixpoint: feeding the modules back as rows of the table gives the same
   * modules with the same start, size, offset, permissions and name, exactly when no module's
   * name still ends in the marker of a deleted file (which is stripped once per pass).
   */
  lemma {:induction false} ReaggregationIsIdentity(raws: seq<RawRow>, gate: nat)
    requires Forward(ResolveAll(raws, gate))
    requires forall i :: 0 <= i < |raws| ==> Tagged(raws[i].perms)
    ensures var out := Aggregated(ResolveAll(raws, gate));
            var again := ResolveAll(AsRaws(out), gate);
            Forward(again) && (Aggregated(again) == AllWhole(out) <==> NormalNames(out))
  {
    var rows := ResolveAll(raws, gate);
    var out := Aggregated(rows);
    var again := ResolveAll(AsRaws(out), gate);
    if NormalNames(out) {
      AggregatedIsStable(rows);
      AllGateNamed(raws, gate);
      forall k | 0 <= k < |out| ensures Resolve(AsRaw(out[k]), gate) == AsRow(out[k]) {
        assert GateNamed(out[k], gate);
      }
      assert again == AsRows(out);
      StableIsFixpoint(out);
    } else {
      var k :| 0 <= k < |out| && out[k].name.Some? && EndsWith(out[k].name.value, DELETED_SUFFIX);
      AtMostOneEach(again);
      AllGateNamed(raws, gate);
      assert GateNamed(out[k], gate) && again[k].name != out[k].name;
      assert AllWhole(out)[k].name == out[k].name;
    }
  }

  lemma {:induction false} StripOnce(name: string)
    ensures SanitizePath(name + DELETED_SUFFIX) == name
  {
    var s := name + DELETED_SUFFIX;
    assert s[|s| - |DELETED_SUFFIX|..] == DELETED_SUFFIX && s[..|s| - |DELETED_SUFFIX|] == name;
  }

  /**
   * A file keeps its path, without the marker of a deleted file, and its offset; an unnamed row or
   * the vDSO at the vDSO's address becomes the gate library at offset 0. Range and permissions stay.
   */
  lemma {:induction false} ResolvedNames(raw: RawRow, gate: nat, file: string)
    requires '/' in file
    ensures var r := Resolve(raw, gate); r.start == raw.start && r.end == raw.end && r.perms == raw.perms
    ensures raw.path == Path(file) && !EndsWith(file, " (deleted)") ==>
      Resolve(raw, gate).name == Some(file) && Resolve(raw, gate).offset == raw.offset
    ensures raw.path == Path(file + " (deleted)") ==>
      Resolve(raw, gate).name == Some(file) && Resolve(raw, gate).offset == raw.offset
    ensures (raw.path.Vdso? || raw.path.Anonymous?) && gate != 0 && raw.start == gate ==>
      Resolve(raw, gate).name == Some("linux-gate.so") && Resolve(raw, gate).offset == 0
    ensures raw.path.Anonymous? && (gate == 0 || raw.start != gate) ==>
      Resolve(raw, gate).name == None && Resolve(raw, gate).offset == raw.offset
  {
    assert DELETED_SUFFIX == " (deleted)";
    StripOnce(file);
  }

  /** Names that carry a number: the stack of a thread in decimal, shared memory in hexadecimal. */
  lemma {:induction false} NumberedNames(d: nat)
    requires d < 16
    ensures d < 10 ==> NameOf(TStack(10 + d)) == Some("[stack:1" + [('0' as int + d) as char] + "]")
    ensures d < 10 ==> NameOf(Vsys(16 + d)) == Some("/SYSV1" + [('0' as int + d) as char])
    ensures d >= 10 ==> NameOf(Vsys(16 + d)) == Some("/SYSV1" + [('a' as int + d - 10) as char])
  {
    assert Print(1, 10) == "1" && Print(1, 16) == "1";
    assert d < 10 ==> Digit(d) == ('0' as int + d) as char;
    assert d >= 10 ==> Digit(d) == ('a' as int + d - 10) as char;
    if d < 10 {
      assert Print(10 + d, 10) == "1" + [Digit(d)];
      assert "[stack:" + ("1" + [Digit(d)]) + "]" == "[stack:1" + [Digit(d)] + "]";
    }
    assert Print(16 + d, 16) == "1" + [Digit(d)];
    assert "/SYSV" + ("1" + [Digit(d)]) == "/SYSV1" + [Digit(d)];
  }

  lemma {:induction false} OneRow(r: Row)
    requires r.start <= r.end
    ensures Forward([r]) && Aggregated([r]) == [r.Fresh()]
  {
    assert [r][..0] == [];
    assert Aggregated([r][..0]) == [];
  }

  lemma {:induction false} OneRowResolved(raw: RawRow)
    requires raw.start <= raw.end
    ensures ResolveAll([raw], 0) == [Resolve(raw, 0)] && Forward([Resolve(raw, 0)])
    ensures Aggregated(ResolveAll([raw], 0)) == [Resolve(raw, 0).Fresh()]
  {
    assert ResolveAll([raw], 0) == [Resolve(raw, 0)];
    OneRow(Resolve(raw, 0));
  }

  /** A file whose name carries the marker twice, mapped alone: the next pass renames its module. */
  lemma {:induction false} TwiceDeletedIsRenamed(file: string, perms: Perms)
    ensures var raw := RawRow(0, 0x1000, 0, perms, Path(file + DELETED_SUFFIX + DELETED_SUFFIX));
            var out := [Resolve(raw, 0).Fresh()];
            Aggregated(ResolveAll([raw], 0)) == out && out[0].name == Some(file + DELETED_SUFFIX)
            && AsRaws(out) == [AsRaw(out[0])] && Aggregated(ResolveAll(AsRaws(out), 0))[0].name == Some(file)
  {
    var raw := RawRow(0, 0x1000, 0, perms, Path(file + DELETED_SUFFIX + DELETED_SUFFIX));
    StripOnce(file + DELETED_SUFFIX);
    StripOnce(file);
    OneRowResolved(raw);
    var out := [Resolve(raw, 0).Fresh()];
    assert AsRaws(out) == [AsRaw(out[0])];
    OneRowResolved(AsRaw(out[0]));
  }
}
