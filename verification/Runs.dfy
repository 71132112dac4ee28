/**
 * What the modules are in terms of the rows: the table falls into consecutive runs of touching
 * rows, one run for each module, and each module is described by its run. Rows of one file stay
 * together, over an empty page and with the address space reserved behind their code.
 */
module Runs {
  import opened Bytes
  import opened Maps
  import opened Aggregation

  // ---- Runs of rows ----

  function Joined(runs: seq<seq<Row>>): seq<Row> {
    if runs == [] then [] else Joined(runs[..|runs| - 1]) + runs[|runs| - 1]
  }

  predicate IsPath(name: Name) { name.Some? && '/' in name.value }

  /** A row without any access whose offset is 0 or its own address. */
  predicate LooksReserved(r: Row) {
    r.perms == {PrivateFlag} && (r.offset == 0 || r.offset == r.start)
  }

  predicate LooksEmpty(r: Row) {
    r.perms == {PrivateFlag} && r.offset == 0 && r.name.None?
  }

  ghost predicate CodeBefore(g: seq<Row>, i: nat, name: Name)
    requires i <= |g|
  {
    exists j :: 0 <= j < i && g[j].name == name && ExecuteFlag in g[j].perms
  }

  /**
   * Why row i is in a run behind its first row: it has the run's own name, or it is reserved behind
   * a file's code, or it is an empty page in front of another row of the file.
   */
  ghost predicate Joins(g: seq<Row>, i: nat, name: Name)
    requires 0 < i < |g|
  {
    (name.Some? && g[i].name == name)
    || (IsPath(name) && LooksReserved(g[i]) && CodeBefore(g, i, name))
    || (IsPath(name) && LooksEmpty(g[i]) && i + 1 < |g| && g[i + 1].name == name)
  }

  ghost predicate Grants(g: seq<Row>, name: Name, f: Flag) {
    exists i :: 0 <= i < |g| && g[i].name == name && f in g[i].perms
  }

  /** Row l is the last of the run that has the name. */
  ghost predicate LastNamed(g: seq<Row>, name: Name, l: nat) {
    l < |g| && g[l].name == name && forall j :: l < j < |g| ==> g[j].name != name
  }

  /**
   * Name, offset and start come from the first row and the end from the last one; the permissions
   * are those of the rows with the module's name, and the last of these ends the kernel range.
   */
  ghost predicate Describes(g: seq<Row>, m: MappingInfo) {
    g != []
    && (forall i :: 0 < i < |g| ==> g[i].start == g[i - 1].end && Joins(g, i, m.name))
    && m.start == g[0].start && m.End() == g[|g| - 1].end
    && m.name == g[0].name && m.offset == g[0].offset
    && (forall f :: f in m.perms <==> Grants(g, m.name, f))
    && m.sys.start == g[0].start && (exists l: nat :: LastNamed(g, m.name, l) && m.sys.end == g[l].end)
  }

  ghost predicate DescribeAll(runs: seq<seq<Row>>, infos: seq<MappingInfo>) {
    |runs| == |infos| && forall k :: 0 <= k < |infos| ==> Describes(runs[k], infos[k])
  }

  lemma {:induction false} JoinedSnoc(runs: seq<seq<Row>>, g: seq<Row>)
    ensures Joined(runs + [g]) == Joined(runs) + g
  {
    assert (runs + [g])[..|runs|] == runs;
  }

  lemma {:induction false} GrantsSnoc(g: seq<Row>, r: Row, name: Name, f: Flag)
    ensures Grants(g + [r], name, f) <==> Grants(g, name, f) || (r.name == name && f in r.perms)
  {
    if Grants(g, name, f) {
      var i :| 0 <= i < |g| && g[i].name == name && f in g[i].perms;
      assert (g + [r])[i] == g[i];
    }
    if r.name == name && f in r.perms {
      assert (g + [r])[|g|] == r;
    }
  }

  lemma {:induction false} JoinsLonger(g: seq<Row>, r: Row, i: nat, name: Name)
    requires 0 < i < |g| && Joins(g, i, name)
    ensures Joins(g + [r], i, name)
  {
    var h := g + [r];
    if CodeBefore(g, i, name) {
      var j :| 0 <= j < i && g[j].name == name && ExecuteFlag in g[j].perms;
      assert h[j] == g[j];
    }
  }

  /** A run takes in a touching row of its own name. */
  lemma {:induction false} TakesOwn(g: seq<Row>, m: MappingInfo, r: Row)
    requires Describes(g, m) && r.start <= r.end && r.start == m.End() && m.name.Some? && r.name == m.name
    ensures Describes(g + [r], Absorb(m, r))
  {
    var h, m' := g + [r], Absorb(m, r);
    forall i | 0 < i < |h| ensures h[i].start == h[i - 1].end && Joins(h, i, m.name) {
      if i < |g| {
        JoinsLonger(g, r, i, m.name);
      }
    }
    forall f ensures f in m'.perms <==> Grants(h, m.name, f) {
      GrantsSnoc(g, r, m.name, f);
    }
    assert LastNamed(h, m.name, |g|);
  }

  /** A run with code takes in a touching row that looks reserved. */
  lemma {:induction false} TakesReserved(g: seq<Row>, m: MappingInfo, r: Row)
    requires Describes(g, m) && r.start <= r.end && r.start == m.End() && r.name != m.name
    requires IsPath(m.name) && ExecuteFlag in m.perms && LooksReserved(r)
    ensures Describes(g + [r], m.(size := r.end - m.start))
  {
    var h, m' := g + [r], m.(size := r.end - m.start);
    forall i | 0 < i < |h| ensures h[i].start == h[i - 1].end && Joins(h, i, m.name) {
      if i < |g| {
        JoinsLonger(g, r, i, m.name);
      } else {
        assert Grants(g, m.name, ExecuteFlag);
        var j :| 0 <= j < |g| && g[j].name == m.name && ExecuteFlag in g[j].perms;
        assert h[j] == g[j];
        assert CodeBefore(h, i, m.name);
      }
    }
    forall f ensures f in m'.perms <==> Grants(h, m.name, f) {
      GrantsSnoc(g, r, m.name, f);
    }
    var l: nat :| LastNamed(g, m.name, l) && m.sys.end == g[l].end;
    assert h[l] == g[l] && LastNamed(h, m.name, l);
  }

  /** A run of a file takes in an empty page together with the row of the file behind it. */
  lemma {:induction false} TakesOverPage(g: seq<Row>, m: MappingInfo, e: Row, r: Row)
    requires Describes(g, m) && e.start == m.End() && LooksEmpty(e) && e.end == r.start
    requires e.start <= e.end && r.start <= r.end && IsPath(m.name) && r.name == m.name
    ensures Describes(g + [e] + [r], Absorb(m, r))
  {
    var h, m' := g + [e] + [r], Absorb(m, r);
    forall i | 0 < i < |h| ensures h[i].start == h[i - 1].end && Joins(h, i, m.name) {
      if i < |g| {
        JoinsLonger(g, e, i, m.name);
        JoinsLonger(g + [e], r, i, m.name);
      }
    }
    forall f ensures f in m'.perms <==> Grants(h, m.name, f) {
      GrantsSnoc(g, e, m.name, f);
      GrantsSnoc(g + [e], r, m.name, f);
    }
    assert LastNamed(h, m.name, |g| + 1);
  }

  lemma {:induction false} OneRowRun(r: Row)
    requires r.start <= r.end
    ensures Describes([r], r.Fresh())
  {
    var g := [r];
    forall f ensures f in r.perms <==> Grants(g, r.name, f) {
      assert g[0] == r;
    }
    assert LastNamed(g, r.name, 0);
  }

  /** A module without a name is a single row. */
  lemma {:induction false} AnonymousIsAlone(g: seq<Row>, m: MappingInfo)
    requires Describes(g, m) && m.name.None?
    ensures g == [Row(m.start, m.End(), m.offset, m.perms, None)]
  {
    assert |g| > 1 ==> Joins(g, 1, m.name);
    forall f ensures f in m.perms <==> f in g[0].perms {
      assert Grants(g, m.name, f) <==> f in g[0].perms;
    }
    assert m.perms == g[0].perms && g == [g[0]];
  }

  /** The last n runs give way to one run g of module m. */
  lemma {:induction false} Replaced(runs: seq<seq<Row>>, infos: seq<MappingInfo>, i: nat, g: seq<Row>, m: MappingInfo)
    requires DescribeAll(runs, infos) && i <= |runs| && Describes(g, m)
    ensures DescribeAll(runs[..i] + [g], infos[..i] + [m])
    ensures Joined(runs[..i] + [g]) == Joined(runs[..i]) + g
  {
    JoinedSnoc(runs[..i], g);
  }

  /** A row is added to what the last run, the last two, or a new one hold. */
  lemma {:induction false} LastRuns(runs: seq<seq<Row>>, r: Row)
    ensures Joined(runs[..|runs|]) + [r] == Joined(runs) + [r]
    ensures |runs| >= 1 ==> Joined(runs[..|runs| - 1]) + (runs[|runs| - 1] + [r]) == Joined(runs) + [r]
    ensures |runs| >= 2 ==>
      Joined(runs[..|runs| - 2]) + (runs[|runs| - 2] + runs[|runs| - 1] + [r]) == Joined(runs) + [r]
  {
    assert runs[..|runs|] == runs;
    if |runs| >= 2 {
      assert runs[..|runs| - 1][..|runs| - 2] == runs[..|runs| - 2];
    }
  }

  lemma {:induction false} RunTakesRow(runs: seq<seq<Row>>, infos: seq<MappingInfo>, r: Row)
    requires DescribeAll(runs, infos) && r.start <= r.end && (SameModule(infos, r) || Reserved(infos, r))
    ensures Describes(runs[|runs| - 1] + [r], Step(infos, r)[|runs| - 1])
  {
    var n := |infos| - 1;
    if SameModule(infos, r) {
      TakesOwn(runs[n], infos[n], r);
    } else {
      TakesReserved(runs[n], infos[n], r);
    }
  }

  lemma {:induction false} RunTakesPage(runs: seq<seq<Row>>, infos: seq<MappingInfo>, r: Row)
    requires DescribeAll(runs, infos) && r.start <= r.end && BridgesEmptyPage(infos, r)
    ensures Describes(runs[|runs| - 2] + runs[|runs| - 1] + [r], Absorb(infos[|runs| - 2], r))
  {
    var n := |infos| - 2;
    AnonymousIsAlone(runs[n + 1], infos[n + 1]);
    var e := runs[n + 1][0];
    assert Describes(runs[n], infos[n]);
    TakesOverPage(runs[n], infos[n], e, r);
    assert runs[n + 1] == [e];
  }

  /** How many modules a step leaves alone. */
  lemma {:induction false} StepKeepsFirst(infos: seq<MappingInfo>, r: Row) returns (i: nat)
    requires r.start <= r.end
    ensures i <= |infos| && |Step(infos, r)| == i + 1 && Step(infos, r) == infos[..i] + [Step(infos, r)[i]]
    ensures SameModule(infos, r) || Reserved(infos, r) ==> i == |infos| - 1
    ensures !SameModule(infos, r) && !Reserved(infos, r) && BridgesEmptyPage(infos, r) ==>
      i == |infos| - 2 && Step(infos, r)[i] == Absorb(infos[i], r)
    ensures NoMerge(infos, r) ==> i == |infos| && Step(infos, r)[i] == r.Fresh()
  {
    i := |Step(infos, r)| - 1;
  }

  /** The runs behind the first i become one that ends with the new row. */
  lemma {:induction false} StepRun(runs: seq<seq<Row>>, infos: seq<MappingInfo>, r: Row) returns (i: nat, g: seq<Row>)
    requires DescribeAll(runs, infos) && r.start <= r.end
    ensures i <= |infos| && Joined(runs[..i]) + g == Joined(runs) + [r]
    ensures |Step(infos, r)| == i + 1 && Step(infos, r) == infos[..i] + [Step(infos, r)[i]]
    ensures Describes(g, Step(infos, r)[i])
  {
    i := StepKeepsFirst(infos, r);
    LastRuns(runs, r);
    if SameModule(infos, r) || Reserved(infos, r) {
      RunTakesRow(runs, infos, r);
      g := runs[i] + [r];
    } else if BridgesEmptyPage(infos, r) {
      RunTakesPage(runs, infos, r);
      g := runs[i] + runs[i + 1] + [r];
    } else {
      OneRowRun(r);
      g := [r];
    }
  }

  lemma {:induction false} StepRuns(runs: seq<seq<Row>>, infos: seq<MappingInfo>, r: Row) returns (out: seq<seq<Row>>)
    requires DescribeAll(runs, infos) && r.start <= r.end
    ensures DescribeAll(out, Step(infos, r)) && Joined(out) == Joined(runs) + [r]
  {
    var i, g := StepRun(runs, infos, r);
    Replaced(runs, infos, i, g, Step(infos, r)[i]);
    out := runs[..i] + [g];
  }

  /** The table is the modules' runs, one after the other. */
  lemma {:induction false} RowsFallIntoRuns(rows: seq<Row>) returns (runs: seq<seq<Row>>)
    requires Forward(rows)
    ensures Joined(runs) == rows && DescribeAll(runs, Aggregated(rows))
  {
    if rows == [] {
      runs := [];
    } else {
      var front, r := rows[..|rows| - 1], rows[|rows| - 1];
      runs := RowsFallIntoRuns(front);
      runs := StepRuns(runs, Aggregated(front), r);
      assert rows == front + [r];
    }
  }

  // ---- Rows lie in modules of their own name ----

  predicate Within(m: MappingInfo, r: Row) { m.start <= r.start && r.end <= m.End() }

  /** The module has the row's name and permissions, and its kernel range holds the row. */
  predicate Houses(m: MappingInfo, r: Row) {
    m.name == r.name && r.perms <= m.perms && m.sys.start <= r.start && r.end <= m.sys.end
  }

  ghost predicate Housed(infos: seq<MappingInfo>, r: Row) {
    exists k :: 0 <= k < |infos| && Houses(infos[k], r)
  }

  /** No access, and so not more than being private. */
  predicate OnlyPrivate(r: Row) { r.perms <= {PrivateFlag} }

  lemma {:induction false} StepHouses(infos: seq<MappingInfo>, r: Row, q: Row)
    requires AllAnchored(infos) && r.start <= r.end && Housed(infos, q) && !OnlyPrivate(q)
    ensures Housed(Step(infos, r), q)
  {
    var k :| 0 <= k < |infos| && Houses(infos[k], q);
    assert BridgesEmptyPage(infos, r) && !SameModule(infos, r) ==> k != |infos| - 1;
    assert Houses(Step(infos, r)[k], q);
  }

  /** Every row with more than the private flag lies in the kernel range of a module of its own name. */
  lemma {:induction false} RowsAreHoused(rows: seq<Row>, i: nat)
    requires Sorted(rows) && i < |rows| && !OnlyPrivate(rows[i])
    ensures Housed(Aggregated(rows), rows[i])
  {
    var n := |rows| - 1;
    var front, r := rows[..n], rows[n];
    var infos := Aggregated(front);
    Conservation(front);
    if i < n {
      RowsAreHoused(front, i);
      StepHouses(infos, r, rows[i]);
    } else {
      var out := Step(infos, r);
      assert Houses(out[|out| - 1], r);
    }
  }

  // ---- Rows that stay together ----

  ghost predicate Together(infos: seq<MappingInfo>, q: Row, r: Row) {
    exists k :: 0 <= k < |infos| && Within(infos[k], q) && Within(infos[k], r)
  }

  /** The row lies in a module that has its name. */
  ghost predicate UnderItsName(infos: seq<MappingInfo>, r: Row) {
    exists k :: 0 <= k < |infos| && Within(infos[k], r) && infos[k].name == r.name
  }

  /** The same module or a longer one: its name, start and offset stay. */
  predicate Extends(m: MappingInfo, m': MappingInfo) {
    m'.name == m.name && m'.start == m.start && m'.offset == m.offset && m'.End() >= m.End()
  }

  lemma {:induction false} StepExtends(infos: seq<MappingInfo>, r: Row, k: nat)
    requires r.start <= r.end && k < |infos| && infos[k].name.Some?
    ensures k < |Step(infos, r)| && Extends(infos[k], Step(infos, r)[k])
  {
  }

  /** A named module of the first i rows is still there, and at least as long. */
  lemma {:induction false} NamedModuleStays(rows: seq<Row>, i: nat, k: nat)
    requires Forward(rows) && i <= |rows|
    requires k < |Aggregated(rows[..i])| && Aggregated(rows[..i])[k].name.Some?
    ensures k < |Aggregated(rows)| && Extends(Aggregated(rows[..i])[k], Aggregated(rows)[k])
  {
    if i == |rows| {
      assert rows[..i] == rows;
    } else {
      var front := rows[..|rows| - 1];
      assert front[..i] == rows[..i];
      NamedModuleStays(front, i, k);
      StepExtends(Aggregated(front), rows[|rows| - 1], k);
    }
  }

  /** A row that is not empty lies in one module only. */
  lemma {:induction false} OneHome(rows: seq<Row>, r: Row, k: nat)
    requires Sorted(rows) && k < |Aggregated(rows)| && r.start < r.end && Within(Aggregated(rows)[k], r)
    ensures Home(Aggregated(rows), r, k)
  {
    Conservation(rows);
  }

  /** Module k is the one module the row lies in. */
  predicate Home(infos: seq<MappingInfo>, r: Row, k: nat) {
    k < |infos| && Within(infos[k], r) && forall j :: 0 <= j < |infos| && Within(infos[j], r) ==> j == k
  }

  lemma {:induction false} HomesDecide(infos: seq<MappingInfo>, q: Row, r: Row, j: nat, k: nat)
    requires Home(infos, q, j) && Home(infos, r, k)
    ensures Together(infos, q, r) <==> j == k
    ensures UnderItsName(infos, q) <==> infos[j].name == q.name
  {
  }

  /** The module the last row went to: one of its name, or a file's code in front of it. */
  predicate LastHome(infos: seq<MappingInfo>, r: Row) {
    infos != [] && var m := infos[|infos| - 1];
    Within(m, r) && m.End() == r.end
    && (m.name == r.name || (IsPath(m.name) && ExecuteFlag in m.perms && LooksReserved(r)))
    && (m.name == r.name ==> r.perms <= m.perms)
  }

  lemma {:induction false} StepLastHome(infos: seq<MappingInfo>, r: Row)
    requires r.start <= r.end && AllAnchored(infos) && Below(infos, r.start)
    ensures LastHome(Step(infos, r), r)
  {
  }

  /** The modules of the first i + 1 rows, from those of the first i. */
  lemma {:induction false} NextModules(rows: seq<Row>, i: nat)
    requires Sorted(rows) && i < |rows|
    ensures Aggregated(rows[..i + 1]) == Step(Aggregated(rows[..i]), rows[i])
    ensures LastHome(Aggregated(rows[..i + 1]), rows[i])
  {
    var front := rows[..i];
    assert rows[..i + 1][..i] == front;
    Conservation(front);
    StepLastHome(Aggregated(front), rows[i]);
  }

  /** A named row's home among the first i + 1 rows is its home for good. */
  lemma {:induction false} HomeOf(rows: seq<Row>, i: nat) returns (k: nat)
    requires Sorted(rows) && i < |rows| && rows[i].name.Some? && rows[i].start < rows[i].end
    ensures k + 1 == |Aggregated(rows[..i + 1])| && LastHome(Aggregated(rows[..i + 1]), rows[i])
    ensures k < |Aggregated(rows)| && Extends(Aggregated(rows[..i + 1])[k], Aggregated(rows)[k])
    ensures Home(Aggregated(rows), rows[i], k)
  {
    NextModules(rows, i);
    k := |Aggregated(rows[..i + 1])| - 1;
    NamedModuleStays(rows, i + 1, k);
    OneHome(rows, rows[i], k);
  }

  /**
   * Two touching rows of one name lie in one module, unless the first was taken as reserved behind
   * another file's code and the second does not look reserved. Then they lie in two.
   */
  lemma {:induction false} TogetherIff(rows: seq<Row>, i: nat)
    requires Sorted(rows) && i + 1 < |rows| && rows[i].start < rows[i].end == rows[i + 1].start < rows[i + 1].end
    requires rows[i].name.Some? && rows[i + 1].name == rows[i].name
    ensures Together(Aggregated(rows), rows[i], rows[i + 1])
      <==> UnderItsName(Aggregated(rows), rows[i]) || LooksReserved(rows[i + 1])
    ensures !OnlyPrivate(rows[i]) ==> UnderItsName(Aggregated(rows), rows[i])
  {
    var k := HomeOf(rows, i);
    var k' := HomeOf(rows, i + 1);
    NextModules(rows, i + 1);
    var infos, out := Aggregated(rows[..i + 1]), Aggregated(rows);
    HomesDecide(out, rows[i], rows[i + 1], k, k');
  }

  /** What an empty page and the next row of the file do to the file's module. */
  lemma {:induction false} PageThenRow(infos: seq<MappingInfo>, q: Row, e: Row, r: Row)
    requires LastHome(infos, q) && LooksEmpty(e) && q.end == e.start <= e.end == r.start <= r.end
    requires IsPath(q.name) && r.name == q.name
    ensures var k, out := |infos| - 1, Step(Step(infos, e), r);
            k < |out| <= k + 2 && Extends(infos[k], out[k]) && out[k].End() >= e.end
            && (|out| == k + 1 <==> infos[k].name == q.name || LooksReserved(r))
  {
    var k, next := |infos| - 1, Step(infos, e);
    var m := infos[k];
    assert m.End() == q.end && IsPath(m.name);
    if ExecuteFlag in m.perms {
      assert next == infos[k := m.(size := e.end - m.start)];
    } else {
      assert next == infos + [e.Fresh()] && m.name == q.name;
    }
  }

  /** The same on the modules of the whole table, behind row i. */
  lemma {:induction false} PageInTable(rows: seq<Row>, i: nat) returns (j: nat, k: nat)
    requires Sorted(rows) && i + 2 < |rows| && LooksEmpty(rows[i + 1])
    requires rows[i].start < rows[i].end == rows[i + 1].start
    requires rows[i + 1].end == rows[i + 2].start < rows[i + 2].end
    requires IsPath(rows[i].name) && rows[i + 2].name == rows[i].name
    ensures Home(Aggregated(rows), rows[i], j) && Home(Aggregated(rows), rows[i + 2], k)
    ensures j == k <==> Aggregated(rows)[j].name == rows[i].name || LooksReserved(rows[i + 2])
    ensures !OnlyPrivate(rows[i]) ==> Aggregated(rows)[j].name == rows[i].name
    ensures Within(Aggregated(rows)[j], rows[i + 1])
  {
    j := HomeOf(rows, i);
    k := HomeOf(rows, i + 2);
    NextModules(rows, i + 1);
    NextModules(rows, i + 2);
    PageThenRow(Aggregated(rows[..i + 1]), rows[i], rows[i + 1], rows[i + 2]);
    NamedModuleStays(rows, i + 3, j);
  }

  /** The same for two rows of a file with an empty page between them, which stays with the first. */
  lemma {:induction false} TogetherOverPageIff(rows: seq<Row>, i: nat)
    requires Sorted(rows) && i + 2 < |rows| && LooksEmpty(rows[i + 1])
    requires rows[i].start < rows[i].end == rows[i + 1].start
    requires rows[i + 1].end == rows[i + 2].start < rows[i + 2].end
    requires IsPath(rows[i].name) && rows[i + 2].name == rows[i].name
    ensures Together(Aggregated(rows), rows[i], rows[i + 2])
      <==> UnderItsName(Aggregated(rows), rows[i]) || LooksReserved(rows[i + 2])
    ensures !OnlyPrivate(rows[i]) ==> UnderItsName(Aggregated(rows), rows[i])
    ensures Together(Aggregated(rows), rows[i], rows[i + 1])
  {
    var j, k := PageInTable(rows, i);
    HomesDecide(Aggregated(rows), rows[i], rows[i + 2], j, k);
  }

  /** Address space reserved behind a file's code lies in the module of the code. */
  lemma {:induction false} ReservedStaysWithCode(rows: seq<Row>, i: nat)
    requires Sorted(rows) && i + 1 < |rows| && rows[i].start < rows[i].end == rows[i + 1].start
    requires IsPath(rows[i].name) && ExecuteFlag in rows[i].perms && LooksReserved(rows[i + 1])
    ensures Together(Aggregated(rows), rows[i], rows[i + 1])
  {
    var k := HomeOf(rows, i);
    NextModules(rows, i + 1);
    NamedModuleStays(rows, i + 2, k);
    assert Within(Aggregated(rows)[k], rows[i]) && Within(Aggregated(rows)[k], rows[i + 1]);
  }

  /** A file's first row can be taken as reserved behind another file's code. */
  lemma {:induction false} TakenByOtherCode(rows: seq<Row>, i: nat)
    requires Sorted(rows) && i + 1 < |rows|
    requires rows[i].start < rows[i].end == rows[i + 1].start < rows[i + 1].end
    requires IsPath(rows[i].name) && ExecuteFlag in rows[i].perms
    requires LooksReserved(rows[i + 1]) && rows[i + 1].name.Some? && rows[i + 1].name != rows[i].name
    ensures !UnderItsName(Aggregated(rows), rows[i + 1])
  {
    var k := HomeOf(rows, i);
    var k' := HomeOf(rows, i + 1);
    NextModules(rows, i + 1);
    HomesDecide(Aggregated(rows), rows[i + 1], rows[i], k', k);
  }

  /** Then the file is split: code of g, a row of f without access, an empty page, and a row of f with access. */
  lemma {:induction false} FileIsSplit(g: Name, f: Name)
    requires IsPath(g) && IsPath(f) && g != f
    ensures var rows := [Row(0, 0x1000, 0, {ReadFlag, ExecuteFlag, PrivateFlag}, g),
                         Row(0x1000, 0x2000, 0, {PrivateFlag}, f), Row(0x2000, 0x3000, 0, {PrivateFlag}, None),
                         Row(0x3000, 0x4000, 0, {ReadFlag, PrivateFlag}, f)];
            Sorted(rows) && !Together(Aggregated(rows), rows[1], rows[3])
  {
    var code, data := {ReadFlag, ExecuteFlag, PrivateFlag}, {ReadFlag, PrivateFlag};
    assert ExecuteFlag in code && ReadFlag in data;
    var rows := [Row(0, 0x1000, 0, code, g), Row(0x1000, 0x2000, 0, {PrivateFlag}, f),
                 Row(0x2000, 0x3000, 0, {PrivateFlag}, None), Row(0x3000, 0x4000, 0, data, f)];
    assert Sorted(rows);
    TakenByOtherCode(rows, 0);
    TogetherOverPageIff(rows, 1);
  }
}
