/**
 * From the kernel's table to the sanitised stack: aggregation, entry point first, Android
 * bias, sanitiser. The table the sanitiser sees is always sound, so code addresses survive.
 */
module Pipeline {
  import opened Bytes
  import opened Maps
  import opened Aggregation
  import opened Runs
  import opened Android
  import opened Sanitizer

  // ---- The entry point's module goes first ----

  /** The first module at index i or later that spans a; the length when there is none. */
  function FirstIndex(infos: seq<MappingInfo>, a: nat, i: nat): (r: nat)
    requires i <= |infos|
    ensures i <= r <= |infos|
    ensures forall j :: i <= j < r ==> !infos[j].Spans(a)
    ensures r < |infos| ==> infos[r].Spans(a)
    decreases |infos| - i
  {
    if i == |infos| || infos[i].Spans(a) then i else FirstIndex(infos, a, i + 1)
  }

  function Swapped(infos: seq<MappingInfo>, i: nat): (out: seq<MappingInfo>)
    requires i < |infos|
    ensures |out| == |infos|
  {
    infos[0 := infos[i]][i := infos[0]]
  }

  function EntryFirst(infos: seq<MappingInfo>, entry: nat): (out: seq<MappingInfo>)
    ensures |out| == |infos|
  {
    var i := FirstIndex(infos, entry, 0);
    if entry != 0 && i < |infos| then Swapped(infos, i) else infos
  }

  method EnumerateMappings(raws: seq<RawRow>, linuxGate: nat, entry: nat) returns (infos: seq<MappingInfo>)
    requires Forward(ResolveAll(raws, linuxGate))
    ensures infos == EntryFirst(Aggregated(ResolveAll(raws, linuxGate)), entry)
  {
    infos := Aggregate(raws, linuxGate);
    if entry != 0 {
      var swapIdx: Option<nat> := None;
      for idx := 0 to |infos|
        invariant swapIdx.None? && FirstIndex(infos, entry, 0) == FirstIndex(infos, entry, idx)
      {
        if entry >= infos[idx].start && entry < infos[idx].start + infos[idx].size {
          swapIdx := Some(idx);
          break;
        }
      }
      if swapIdx.Some? {
        infos := infos[0 := infos[swapIdx.value]][swapIdx.value := infos[0]];
      }
    }
  }

  /** Moving the entry point's module loses no module, and puts one that spans it first. */
  lemma {:induction false} EntryFirstPermutes(infos: seq<MappingInfo>, entry: nat)
    ensures multiset(EntryFirst(infos, entry)) == multiset(infos)
    ensures entry != 0 && InModules(infos, entry) ==> EntryFirst(infos, entry)[0].Spans(entry)
    ensures entry == 0 || !InModules(infos, entry) ==> EntryFirst(infos, entry) == infos
  {
  }

  /** At most the first module and the one that spans the entry point change places. */
  lemma {:induction false} OnlyEntryMoves(infos: seq<MappingInfo>, entry: nat, k: nat)
    requires 0 < k < |infos|
    ensures !infos[k].Spans(entry) ==> EntryFirst(infos, entry)[k] == infos[k]
    ensures entry != 0 && infos[k].Spans(entry) && (forall j :: 0 <= j < k ==> !infos[j].Spans(entry)) ==>
      EntryFirst(infos, entry)[k] == infos[0] && EntryFirst(infos, entry)[0] == infos[k]
  {
  }

  lemma {:induction false} EntryFirstSound(infos: seq<MappingInfo>, entry: nat)
    requires Sound(infos)
    ensures Sound(EntryFirst(infos, entry))
  {
  }

  // ---- The whole pipeline ----

  /** What swap and bias make of the aggregated modules. */
  function Finished(infos: seq<MappingInfo>, entry: nat, android: bool, probe: Probe): (out: seq<MappingInfo>)
    ensures |out| == |infos|
  {
    if android then AllBiased(EntryFirst(infos, entry), probe) else EntryFirst(infos, entry)
  }

  /** A target process: its rows, auxiliary-vector values, and what its images look like. */
  datatype Target = Target(raws: seq<RawRow>, gate: nat, entry: nat, android: bool, probe: Probe)
  {
    function Rows(): seq<Row> { ResolveAll(raws, gate) }

    /** Rows are sorted and disjoint, end below the top, and no bias moves a module up. */
    ghost predicate Orderly() {
      Sorted(Rows())
      && (forall i :: 0 <= i < |Rows()| ==> Rows()[i].end < U64_LIMIT)
      && (android ==> ProbeFits(EntryFirst(Aggregated(Rows()), entry), probe))
    }

    /** The modules of the target, that of the entry point first. */
    function Modules(): seq<MappingInfo>
      requires Forward(Rows())
    {
      EntryFirst(Aggregated(Rows()), entry)
    }

    /** The mappings a dump works with. */
    function Table(): seq<MappingInfo>
      requires Forward(Rows())
    {
      Finished(Aggregated(Rows()), entry, android, probe)
    }
  }

  lemma {:induction false} BiasSound(infos: seq<MappingInfo>, probe: Probe)
    requires Sound(infos) && ProbeFits(infos, probe)
    ensures Sound(AllBiased(infos, probe))
  {
    var out := AllBiased(infos, probe);
    forall i | 0 <= i < |out| ensures SystemInside(out[i]) && out[i].sys == infos[i].sys {
      assert SystemInside(infos[i]);
      BiasOnlyLowersStart(infos, probe, i);
    }
  }

  lemma {:induction false} AggregatedIsSound(rows: seq<Row>)
    requires Sorted(rows) && forall i :: 0 <= i < |rows| ==> rows[i].end < U64_LIMIT
    ensures Sound(Aggregated(rows))
  {
    Conservation(rows);
    var infos := Aggregated(rows);
    forall i | 0 <= i < |infos| ensures SystemInside(infos[i]) {
      assert Anchored(infos[i]);
    }
    forall i, j | 0 <= i < j < |infos| ensures infos[i].sys.end <= infos[j].sys.start {
      assert Anchored(infos[i]) && Anchored(infos[j]);
    }
  }

  /** Every table the pipeline can produce satisfies what the sanitiser relies on. */
  lemma {:induction false} TableIsSound(t: Target)
    requires t.Orderly()
    ensures Sound(t.Table())
  {
    var infos := Aggregated(t.Rows());
    AggregatedIsSound(t.Rows());
    EntryFirstSound(infos, t.entry);
    if t.android {
      BiasSound(EntryFirst(infos, t.entry), t.probe);
    }
  }

  /** Module k of the aggregated list is still in the table, with its kernel range and permissions. */
  lemma {:induction false} ModuleSurvives(infos: seq<MappingInfo>, entry: nat, android: bool, probe: Probe, k: nat)
    returns (b: MappingInfo)
    requires k < |infos|
    ensures b in Finished(infos, entry, android, probe)
    ensures b.sys == infos[k].sys && b.perms == infos[k].perms
  {
    var first, out := EntryFirst(infos, entry), Finished(infos, entry, android, probe);
    var e := FirstIndex(infos, entry, 0);
    var j := if first == infos then k else if k == e then 0 else if k == 0 then e else k;
    assert first[j] == infos[k];
    b := out[j];
  }

  /** Conversely, mapping j of the table comes from a module with its kernel range and permissions. */
  lemma {:induction false} MappingHasSource(infos: seq<MappingInfo>, entry: nat, android: bool, probe: Probe, j: nat)
    returns (k: nat)
    requires j < |infos|
    ensures k < |infos|
    ensures var b := Finished(infos, entry, android, probe)[j]; b.sys == infos[k].sys && b.perms == infos[k].perms
  {
    var first := EntryFirst(infos, entry);
    var e := FirstIndex(infos, entry, 0);
    k := if first == infos then j else if j == 0 then e else if j == e then 0 else j;
    assert first[j] == infos[k];
  }

  ghost predicate InExecutableRow(rows: seq<Row>, a: nat) {
    exists i :: 0 <= i < |rows| && rows[i].IsExecutable() && rows[i].Contains(a)
  }

  lemma {:induction false} ExecutableModuleOf(rows: seq<Row>, a: nat) returns (k: nat)
    requires Sorted(rows) && InExecutableRow(rows, a)
    ensures k < |Aggregated(rows)|
    ensures Aggregated(rows)[k].IsExecutable() && Aggregated(rows)[k].ContainsAddress(a)
  {
    Conservation(rows);
    var i :| 0 <= i < |rows| && rows[i].IsExecutable() && rows[i].Contains(a);
    assert Kept(Aggregated(rows), rows[i]);
    k :| 0 <= k < |Aggregated(rows)| && Holds(Aggregated(rows)[k], rows[i]);
  }

  /** A code address of the target is kept, whatever aggregation, swap and bias did to its module. */
  lemma {:induction false} CodeAddressIsKept(t: Target, sp: nat, a: nat)
    requires t.Orderly() && InExecutableRow(t.Rows(), a)
    ensures PlainlyKept(t.Table(), sp, a)
  {
    var k := ExecutableModuleOf(t.Rows(), a);
    var b := ModuleSurvives(Aggregated(t.Rows()), t.entry, t.android, t.probe, k);
    TableIsSound(t);
    FindIsUnique(t.Table(), b, a);
  }

  lemma {:induction false} ModuleAddressIsMapped(rows: seq<Row>, k: nat, a: nat)
    requires Sorted(rows) && k < |Aggregated(rows)| && Aggregated(rows)[k].ContainsAddress(a)
    ensures InRows(rows, a)
  {
    Conservation(rows);
    assert Anchored(Aggregated(rows)[k]) && Aggregated(rows)[k].Spans(a);
    assert InModules(Aggregated(rows), a);
  }

  /** A kept word is a small number or an address that is mapped in the target. */
  lemma {:induction false} KeptWordIsMapped(t: Target, sp: nat, a: nat)
    requires t.Orderly() && PlainlyKept(t.Table(), sp, a)
    ensures a <= SMALL_INT_MAGNITUDE || InRows(t.Rows(), a)
  {
    if a > SMALL_INT_MAGNITUDE {
      var table := t.Table();
      var stack, hit := FindMappingNoBias(table, sp), FindMappingNoBias(table, a);
      var b := if stack.Some? && stack.value.ContainsAddress(a) then stack.value else hit.value;
      var j :| 0 <= j < |table| && table[j] == b;
      var k := MappingHasSource(Aggregated(t.Rows()), t.entry, t.android, t.probe, j);
      ModuleAddressIsMapped(t.Rows(), k, a);
    }
  }

  // ---- What sanitising does to the words of a copy ----

  lemma {:induction false} WordStartIsWord(s: seq<byte>, spOffset: nat, i: nat)
    requires Aligned(spOffset) <= i < |s| && WordStart(Aligned(spOffset), i) + WORD <= |s|
    ensures IsWord(s, spOffset, WordStart(Aligned(spOffset), i))
  {
  }

  /** The outcome for a word is a word that is kept, or the same again. */
  lemma {:induction false} WordStays(infos: seq<MappingInfo>, s: seq<byte>, sp: nat, spOffset: nat, b: nat)
    requires IsWord(s, spOffset, b)
    ensures var r := PlainlySanitized(infos, s, sp, spOffset);
            PlainlyKept(infos, sp, Word(r, b)) || r[b..b + WORD] == DEFACED
  {
    WordOutcome(infos, s, sp, spOffset, b);
  }

  lemma {:induction false} ByteStays(infos: seq<MappingInfo>, s: seq<byte>, sp: nat, spOffset: nat, i: nat)
    requires i < |s|
    ensures var r := PlainlySanitized(infos, s, sp, spOffset);
            PlainByte(infos, r, sp, Aligned(spOffset), i) == r[i]
  {
    var from := Aligned(spOffset);
    if from <= i && WordStart(from, i) + WORD <= |s| {
      var r, b := PlainlySanitized(infos, s, sp, spOffset), WordStart(from, i);
      WordStartIsWord(s, spOffset, i);
      WordStays(infos, s, sp, spOffset, b);
      assert r[i] == r[b..b + WORD][i - b];
    }
  }

  /** Sanitising twice is sanitising once. */
  lemma {:induction false} Idempotent(infos: seq<MappingInfo>, s: seq<byte>, sp: nat, spOffset: nat)
    ensures var r := PlainlySanitized(infos, s, sp, spOffset);
            PlainlySanitized(infos, r, sp, spOffset) == r
  {
    var r := PlainlySanitized(infos, s, sp, spOffset);
    forall i | 0 <= i < |r| ensures PlainByte(infos, r, sp, Aligned(spOffset), i) == r[i] {
      ByteStays(infos, s, sp, spOffset, i);
    }
  }

  lemma {:induction false} SameWordSameBytes(s: seq<byte>, t: seq<byte>, b: nat, i: nat)
    requires |s| == |t| && b <= i < b + WORD <= |s| && Word(s, b) == Word(t, b)
    ensures s[i] == t[i]
  {
    ToFromLE(s[b..b + WORD]);
    ToFromLE(t[b..b + WORD]);
    assert s[i] == s[b..b + WORD][i - b] && t[i] == t[b..b + WORD][i - b];
  }

  /** Two copies cannot be told apart once sanitised unless they differ in a kept word. */
  lemma {:induction false} OnlyKeptWordsShow(infos: seq<MappingInfo>, s: seq<byte>, t: seq<byte>, sp: nat,
                                             spOffset: nat)
    requires |s| == |t|
    requires forall b :: IsWord(s, spOffset, b) ==>
      (PlainlyKept(infos, sp, Word(s, b)) || PlainlyKept(infos, sp, Word(t, b)) ==> Word(s, b) == Word(t, b))
    ensures PlainlySanitized(infos, s, sp, spOffset) == PlainlySanitized(infos, t, sp, spOffset)
  {
    var from := Aligned(spOffset);
    forall i | 0 <= i < |s|
      ensures PlainByte(infos, s, sp, from, i) == PlainByte(infos, t, sp, from, i)
    {
      if from <= i && WordStart(from, i) + WORD <= |s| {
        var b := WordStart(from, i);
        WordStartIsWord(s, spOffset, i);
        if Word(s, b) == Word(t, b) {
          SameWordSameBytes(s, t, b, i);
        }
      }
    }
  }

  /** End to end: a stack word that is a code address of the target is never defaced. */
  lemma {:induction false} CodeWordsSurvive(t: Target, s: seq<byte>, sp: nat, spOffset: nat, b: nat)
    requires t.Orderly() && IsWord(s, spOffset, b) && InExecutableRow(t.Rows(), Word(s, b))
    ensures PlainlySanitized(t.Table(), s, sp, spOffset)[b..b + WORD] == s[b..b + WORD]
  {
    CodeAddressIsKept(t, sp, Word(s, b));
    WordOutcome(t.Table(), s, sp, spOffset, b);
  }

  /** One row that can be read or written holds both addresses. */
  ghost predicate InOneRow(rows: seq<Row>, sp: nat, a: nat) {
    exists i :: 0 <= i < |rows| && rows[i].start <= sp < rows[i].end && rows[i].start <= a < rows[i].end
                && (ReadFlag in rows[i].perms || WriteFlag in rows[i].perms)
  }

  lemma {:induction false} RowIsShared(t: Target, sp: nat, a: nat)
    requires t.Orderly() && InOneRow(t.Rows(), sp, a)
    ensures ShareMapping(t.Table(), sp, a)
  {
    var rows := t.Rows();
    var i :| 0 <= i < |rows| && rows[i].start <= sp < rows[i].end && rows[i].start <= a < rows[i].end
             && (ReadFlag in rows[i].perms || WriteFlag in rows[i].perms);
    RowsAreHoused(rows, i);
    var k :| 0 <= k < |Aggregated(rows)| && Houses(Aggregated(rows)[k], rows[i]);
    var b := ModuleSurvives(Aggregated(rows), t.entry, t.android, t.probe, k);
  }

  /** End to end: a stack word that points into the row of the stack pointer is never defaced. */
  lemma {:induction false} StackWordsSurvive(t: Target, s: seq<byte>, sp: nat, spOffset: nat, b: nat)
    requires t.Orderly() && IsWord(s, spOffset, b) && InOneRow(t.Rows(), sp, Word(s, b))
    ensures PlainlySanitized(t.Table(), s, sp, spOffset)[b..b + WORD] == s[b..b + WORD]
  {
    TableIsSound(t);
    RowIsShared(t, sp, Word(s, b));
    KeptIff(t.Table(), sp, Word(s, b));
    WordOutcome(t.Table(), s, sp, spOffset, b);
  }
}
