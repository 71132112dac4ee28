/**
 * The thread-names stream. It reserves one slot per thread that has a name, but fills the slot
 * with the thread's index among all threads; so the list reads back exactly when the threads
 * without a name come last.
 */
module ThreadNames {
  import opened Bytes
  import opened Format
  import opened DumpBuffer
  import opened Strings
  import opened ThreadList

  const THREAD_NAMES_STREAM: u32 := 24
  const THREAD_NAME_SIZE := 12

  /** The threads that have a name, in order. */
  function Named(threads: seq<ThreadSource>): (r: seq<ThreadSource>)
    ensures |r| <= |threads|
  {
    if threads == [] then [] else
      var front, t := threads[..|threads| - 1], threads[|threads| - 1];
      if t.name.Some? then Named(front) + [t] else Named(front)
  }

  /** No thread with a name comes behind one without. */
  predicate NamedFirst(threads: seq<ThreadSource>) {
    forall i, j :: 0 <= i < j < |threads| && threads[j].name.Some? ==> threads[i].name.Some?
  }

  lemma {:induction false} NamedFirstIsPrefix(threads: seq<ThreadSource>)
    requires NamedFirst(threads)
    ensures Named(threads) == threads[..|Named(threads)|]
    ensures forall i :: 0 <= i < |threads| ==> (threads[i].name.Some? <==> i < |Named(threads)|)
  {
    if threads != [] {
      var front, t := threads[..|threads| - 1], threads[|threads| - 1];
      NamedFirstIsPrefix(front);
      if t.name.Some? {
        assert front == [] || front[|front| - 1].name.Some?;
        assert front + [t] == threads;
      }
    }
  }

  /** Otherwise one of the reserved slots belongs to a thread without a name. */
  lemma {:induction false} GapInSlots(threads: seq<ThreadSource>) returns (u: nat)
    requires !NamedFirst(threads)
    ensures u < |Named(threads)| && threads[u].name.None?
  {
    var front, t := threads[..|threads| - 1], threads[|threads| - 1];
    if NamedFirst(front) {
      NamedFirstIsPrefix(front);
      u := |Named(front)|;
      assert t.name.Some?;
    } else {
      u := GapInSlots(front);
    }
  }

  /** A worker that has a name behind one that has none. */
  lemma {:induction false} NameBehindUnnamed()
    ensures var threads := [ThreadSource(7, None, None), ThreadSource(8, Some("worker"), None)];
            Named(threads) == [threads[1]] && !NamedFirst(threads)
  {
  }

  // ---- Reading a record back ----

  function EncodeName(tid: u32, rva: u64): (s: seq<byte>)
    ensures |s| == THREAD_NAME_SIZE
  {
    ToLE(tid, 4) + ToLE(rva, 8)
  }

  /** The record at `at` gives the thread's id and leads to its name, behind all the slots. */
  predicate NameShown(image: seq<byte>, at: nat, t: ThreadSource, from: nat) {
    at + THREAD_NAME_SIZE <= |image| && t.name.Some?
    && GetU32(image, at) == t.tid && from <= GetU64(image, at + 4) < U32_LIMIT
    && ReadString(image, Location(0, GetU64(image, at + 4))) == t.name
  }

  /** A count, and slot k names the k-th of the threads that have a name. */
  predicate ListsNames(image: seq<byte>, start: nat, threads: seq<ThreadSource>) {
    var named := Named(threads);
    start + 4 + THREAD_NAME_SIZE * |named| <= |image| && GetU32(image, start) == |named|
    && forall k :: 0 <= k < |named| ==>
         NameShown(image, start + 4 + THREAD_NAME_SIZE * k, named[k], start + 4 + THREAD_NAME_SIZE * |named|)
  }

  /** What lies behind `from` is unchanged, and there may be more of it. */
  predicate KeptFrom(image: seq<byte>, image': seq<byte>, from: nat) {
    |image| <= |image'| && forall i :: from <= i < |image| ==> image'[i] == image[i]
  }

  lemma {:induction false} SliceKept(image: seq<byte>, image': seq<byte>, from: nat, lo: nat, hi: nat)
    requires KeptFrom(image, image', from) && from <= lo <= hi <= |image|
    ensures image'[lo..hi] == image[lo..hi]
  {
  }

  lemma {:induction false} UnitsStay(image: seq<byte>, image': seq<byte>, from: nat, at: nat, n: nat)
    requires KeptFrom(image, image', from) && from <= at && at + 2 * n <= |image|
    ensures UnitsAt(image', at, n) == UnitsAt(image, at, n)
  {
    forall i | 0 <= i < n ensures UnitAt(image', at + 2 * i) == UnitAt(image, at + 2 * i) {
      SliceKept(image, image', from, at + 2 * i, at + 2 * i + 2);
    }
  }

  lemma {:induction false} StringStays(image: seq<byte>, image': seq<byte>, from: nat, l: Location)
    requires KeptFrom(image, image', from) && from <= l.rva && ReadString(image, l).Some?
    ensures ReadString(image', l) == ReadString(image, l)
  {
    SliceKept(image, image', from, l.rva, l.rva + 4);
    UnitsStay(image, image', from, l.rva + 4, GetU32(image, l.rva) / 2);
  }

  lemma {:induction false} NameStays(image: seq<byte>, image': seq<byte>, at: nat, t: ThreadSource, from: nat)
    requires NameShown(image, at, t, from) && KeptFrom(image, image', from)
    requires image'[at..at + THREAD_NAME_SIZE] == image[at..at + THREAD_NAME_SIZE]
    ensures NameShown(image', at, t, from)
  {
    SliceOfSlice(image, at, at + THREAD_NAME_SIZE, 0, 4);
    SliceOfSlice(image', at, at + THREAD_NAME_SIZE, 0, 4);
    SliceOfSlice(image, at, at + THREAD_NAME_SIZE, 4, 12);
    SliceOfSlice(image', at, at + THREAD_NAME_SIZE, 4, 12);
    StringStays(image, image', from, Location(0, GetU64(image, at + 4)));
  }

  lemma {:induction false} RecordReads(image: seq<byte>, at: nat, tid: u32, rva: u32)
    requires Stored(image, at, EncodeName(tid, rva))
    ensures GetU32(image, at) == tid && GetU64(image, at + 4) == rva
  {
    StoredParts(image, at, ToLE(tid, 4), ToLE(rva, 8));
    GetU32Of(image, at, tid);
    GetU64Of(image, at + 4, rva);
  }

  lemma {:induction false} PutKeepsFrom(image: seq<byte>, at: nat, w: seq<byte>, from: nat)
    requires at + |w| <= from <= |image|
    ensures KeptFrom(image, Put(image, at, w), from)
  {
  }

  lemma {:induction false} NameWritten(image: seq<byte>, at: nat, t: ThreadSource, l: Location, from: nat)
    requires at + THREAD_NAME_SIZE <= from <= l.rva && from <= |image| && 0 <= t.tid < U32_LIMIT
    requires t.name.Some? && ReadString(image, l) == t.name
    ensures NameShown(Put(image, at, EncodeName(t.tid, l.rva)), at, t, from)
  {
    var image' := Put(image, at, EncodeName(t.tid, l.rva));
    PutIsLocal(image, at, EncodeName(t.tid, l.rva));
    RecordReads(image', at, t.tid, l.rva);
    PutKeepsFrom(image, at, EncodeName(t.tid, l.rva), from);
    StringStays(image, image', from, l);
    assert ReadString(image', Location(0, l.rva)) == ReadString(image', l);
  }

  // ---- The loop ----

  /** The first `idx` threads are named in their slots. */
  predicate NamesSoFar(image: seq<byte>, base: nat, m: nat, threads: seq<ThreadSource>, idx: nat)
    requires idx <= |threads|
  {
    forall k :: 0 <= k < idx && k < m ==>
      NameShown(image, base + THREAD_NAME_SIZE * k, threads[k], base + THREAD_NAME_SIZE * m)
  }

  /** The slots of threads without a name stay as they were reserved. */
  predicate GapsStayZero(image: seq<byte>, base: nat, m: nat, threads: seq<ThreadSource>)
  {
    forall u :: 0 <= u < m && u < |threads| && threads[u].name.None? ==>
      Stored(image, base + THREAD_NAME_SIZE * u, Zeros(THREAD_NAME_SIZE))
  }

  lemma {:induction false} AppendKeepsNames(image: seq<byte>, image': seq<byte>, base: nat, m: nat,
                                            threads: seq<ThreadSource>, idx: nat)
    requires idx <= |threads| && image <= image' && NamesSoFar(image, base, m, threads, idx)
    ensures NamesSoFar(image', base, m, threads, idx)
  {
    forall k | 0 <= k < idx && k < m
      ensures NameShown(image', base + THREAD_NAME_SIZE * k, threads[k], base + THREAD_NAME_SIZE * m)
    {
      NameStays(image, image', base + THREAD_NAME_SIZE * k, threads[k], base + THREAD_NAME_SIZE * m);
    }
  }

  lemma {:induction false} AppendKeepsGaps(image: seq<byte>, image': seq<byte>, base: nat, m: nat,
                                           threads: seq<ThreadSource>)
    requires image <= image' && GapsStayZero(image, base, m, threads)
    ensures GapsStayZero(image', base, m, threads)
  {
  }

  lemma {:induction false} SlotKeepsName(image: seq<byte>, at: nat, w: seq<byte>, lo: nat, t: ThreadSource, from: nat)
    requires at + |w| <= from <= |image| && NameShown(image, lo, t, from)
    requires lo + THREAD_NAME_SIZE <= at
    ensures NameShown(Put(image, at, w), lo, t, from)
  {
    PutKeepsFrom(image, at, w, from);
    PutKeepsStored(image, at, w, lo, image[lo..lo + THREAD_NAME_SIZE]);
    NameStays(image, Put(image, at, w), lo, t, from);
  }

  lemma {:induction false} SlotKeepsGaps(image: seq<byte>, base: nat, m: nat, threads: seq<ThreadSource>, idx: nat,
                                         at: nat, w: seq<byte>)
    requires idx < |threads| && threads[idx].name.Some? && |w| == THREAD_NAME_SIZE
    requires at == base + THREAD_NAME_SIZE * idx <= |image| && GapsStayZero(image, base, m, threads)
    ensures GapsStayZero(Put(image, at, w), base, m, threads)
  {
    forall u | 0 <= u < m && u < |threads| && threads[u].name.None?
      ensures Stored(Put(image, at, w), base + THREAD_NAME_SIZE * u, Zeros(THREAD_NAME_SIZE))
    {
      assert u < idx || u > idx;
      PutKeepsStored(image, at, w, base + THREAD_NAME_SIZE * u, Zeros(THREAD_NAME_SIZE));
    }
  }

  /** The named threads are the first m. */
  predicate Fills(threads: seq<ThreadSource>, m: nat) {
    forall i :: 0 <= i < |threads| ==> (threads[i].name.Some? <==> i < m)
  }

  /** State of the loop before thread `idx`, as long as positions fit in 32 bits. */
  ghost predicate Progress(image: seq<byte>, head: seq<byte>, m: nat, threads: seq<ThreadSource>, idx: nat)
    requires idx <= |threads|
  {
    |image| < U32_LIMIT ==>
      |head| + THREAD_NAME_SIZE * m <= |image| && head <= image
      && GapsStayZero(image, |head|, m, threads)
      && (Fills(threads, m) ==> NamesSoFar(image, |head|, m, threads, idx))
  }

  lemma {:induction false} StepAppend(image: seq<byte>, image': seq<byte>, head: seq<byte>, m: nat,
                                      threads: seq<ThreadSource>, idx: nat)
    requires idx <= |threads| && image <= image' && |image'| < U32_LIMIT && Progress(image, head, m, threads, idx)
    ensures Progress(image', head, m, threads, idx)
  {
    AppendKeepsGaps(image, image', |head|, m, threads);
    if Fills(threads, m) {
      AppendKeepsNames(image, image', |head|, m, threads, idx);
    }
  }

  lemma {:induction false} StepUnnamed(image: seq<byte>, head: seq<byte>, m: nat, threads: seq<ThreadSource>,
                                       idx: nat)
    requires idx < |threads| && threads[idx].name.None? && Progress(image, head, m, threads, idx)
    ensures Progress(image, head, m, threads, idx + 1)
  {
  }

  lemma {:induction false} SlotAddsName(image: seq<byte>, base: nat, m: nat, threads: seq<ThreadSource>, idx: nat,
                                        at: nat, w: seq<byte>)
    requires idx < |threads| && idx < m && |w| == THREAD_NAME_SIZE && base + THREAD_NAME_SIZE * m <= |image|
    requires at == base + THREAD_NAME_SIZE * idx && NamesSoFar(image, base, m, threads, idx)
    requires NameShown(Put(image, at, w), at, threads[idx], base + THREAD_NAME_SIZE * m)
    ensures NamesSoFar(Put(image, at, w), base, m, threads, idx + 1)
  {
    var image', from := Put(image, at, w), base + THREAD_NAME_SIZE * m;
    forall k | 0 <= k < idx + 1 ensures NameShown(image', base + THREAD_NAME_SIZE * k, threads[k], from) {
      if k < idx {
        SlotKeepsName(image, at, w, base + THREAD_NAME_SIZE * k, threads[k], from);
      }
    }
  }

  lemma {:induction false} PutKeepsHead(image: seq<byte>, head: seq<byte>, at: nat, w: seq<byte>)
    requires head <= image && |head| <= at <= |image|
    ensures head <= Put(image, at, w) && |Put(image, at, w)| >= |image|
  {
  }

  /** The name is in place behind the slots; now its record w is put into slot `idx`. */
  lemma {:induction false} StepNamed(image: seq<byte>, head: seq<byte>, m: nat, threads: seq<ThreadSource>, idx: nat,
                                     w: seq<byte>, at: nat)
    requires idx < |threads| && threads[idx].name.Some? && |image| < U32_LIMIT && Progress(image, head, m, threads, idx)
    requires at == |head| + THREAD_NAME_SIZE * idx <= |image| && |w| == THREAD_NAME_SIZE
    requires idx < m ==> NameShown(Put(image, at, w), at, threads[idx], |head| + THREAD_NAME_SIZE * m)
    ensures Progress(Put(image, at, w), head, m, threads, idx + 1)
  {
    var base, image' := |head|, Put(image, at, w);
    assert head <= image' && |image'| >= |image| by { PutKeepsHead(image, head, at, w); }
    assert GapsStayZero(image', base, m, threads) by { SlotKeepsGaps(image, base, m, threads, idx, at, w); }
    if Fills(threads, m) {
      assert NamesSoFar(image', base, m, threads, idx + 1) by { SlotAddsName(image, base, m, threads, idx, at, w); }
    }
  }

  /** What the stream leaves behind: the list, or zeros in the slots of threads without a name. */
  ghost predicate NamesWritten(image: seq<byte>, start: nat, threads: seq<ThreadSource>) {
    start + 4 + THREAD_NAME_SIZE * |Named(threads)| <= |image| && GetU32(image, start) == |Named(threads)|
    && GapsStayZero(image, start + 4, |Named(threads)|, threads)
    && (NamedFirst(threads) ==> ListsNames(image, start, threads))
  }

  lemma {:induction false} GapSpoilsTheList(image: seq<byte>, start: nat, threads: seq<ThreadSource>)
    requires GapsStayZero(image, start + 4, |Named(threads)|, threads) && !NamedFirst(threads)
    ensures !ListsNames(image, start, threads)
  {
    var u := GapInSlots(threads);
    var at := start + 4 + THREAD_NAME_SIZE * u;
    assert Stored(image, at, Zeros(THREAD_NAME_SIZE));
    ZeroRecord(image, at);
    assert !NameShown(image, at, Named(threads)[u], start + 4 + THREAD_NAME_SIZE * |Named(threads)|);
  }

  /** The list reads back if and only if no named thread follows an unnamed one. */
  lemma {:induction false} NamesReadBackIff(image: seq<byte>, start: nat, threads: seq<ThreadSource>)
    requires NamesWritten(image, start, threads)
    ensures ListsNames(image, start, threads) <==> NamedFirst(threads)
  {
    if !NamedFirst(threads) {
      GapSpoilsTheList(image, start, threads);
    }
  }

  lemma {:induction false} ListIsFilled(image: seq<byte>, start: nat, threads: seq<ThreadSource>)
    requires NamedFirst(threads) && NamesSoFar(image, start + 4, |Named(threads)|, threads, |threads|)
    requires start + 4 + THREAD_NAME_SIZE * |Named(threads)| <= |image| && GetU32(image, start) == |Named(threads)|
    ensures ListsNames(image, start, threads)
  {
    NamedFirstIsPrefix(threads);
    var named, from := Named(threads), start + 4 + THREAD_NAME_SIZE * |Named(threads)|;
    forall k | 0 <= k < |named| ensures NameShown(image, start + 4 + THREAD_NAME_SIZE * k, named[k], from) {
      assert named[k] == threads[k];
    }
  }

  /** After the loop over the threads. */
  lemma {:induction false} NamesAreWritten(image: seq<byte>, start: nat, head: seq<byte>, threads: seq<ThreadSource>)
    requires Progress(image, head, |Named(threads)|, threads, |threads|) && |image| < U32_LIMIT
    requires |head| == start + 4 && GetU32(head, start) == |Named(threads)|
    ensures NamesWritten(image, start, threads)
  {
    assert image[start..start + 4] == head[start..start + 4];
    FirstNamesFill(threads);
    if NamedFirst(threads) {
      ListIsFilled(image, start, threads);
    }
  }

  lemma {:induction false} ListStays(image: seq<byte>, image': seq<byte>, start: nat, threads: seq<ThreadSource>)
    requires ListsNames(image, start, threads) && KeptFrom(image, image', start)
    ensures ListsNames(image', start, threads)
  {
    var named, from := Named(threads), start + 4 + THREAD_NAME_SIZE * |Named(threads)|;
    SliceKept(image, image', start, start, start + 4);
    forall k | 0 <= k < |named| ensures NameShown(image', start + 4 + THREAD_NAME_SIZE * k, named[k], from) {
      var at := start + 4 + THREAD_NAME_SIZE * k;
      assert NameShown(image, at, named[k], from);
      SliceKept(image, image', start, at, at + THREAD_NAME_SIZE);
      NameStays(image, image', at, named[k], from);
    }
  }

  /** What was written stays while the dump only grows behind it. */
  lemma {:induction false} NamesStay(image: seq<byte>, image': seq<byte>, start: nat, threads: seq<ThreadSource>)
    requires NamesWritten(image, start, threads) && KeptFrom(image, image', start)
    ensures NamesWritten(image', start, threads)
  {
    SliceKept(image, image', start, start, start + 4);
    forall u | 0 <= u < |Named(threads)| && u < |threads| && threads[u].name.None?
      ensures Stored(image', start + 4 + THREAD_NAME_SIZE * u, Zeros(THREAD_NAME_SIZE))
    {
      var at := start + 4 + THREAD_NAME_SIZE * u;
      SliceKept(image, image', start, at, at + THREAD_NAME_SIZE);
    }
    if NamedFirst(threads) {
      ListStays(image, image', start, threads);
    }
  }

  lemma {:induction false} ZeroRecord(image: seq<byte>, at: nat)
    requires Stored(image, at, Zeros(THREAD_NAME_SIZE))
    ensures GetU64(image, at + 4) == 0
  {
    assert Zeros(THREAD_NAME_SIZE) == Zeros(4) + Zeros(8);
    StoredParts(image, at, Zeros(4), Zeros(8));
    ZerosAre(8);
    GetU64Of(image, at + 4, 0);
  }

  lemma {:induction false} ZerosAre(w: nat)
    ensures ToLE(0, w) == Zeros(w)
  {
    if w > 0 {
      ZerosAre(w - 1);
    }
  }

  lemma {:induction false} StartOfNames(head: seq<byte>, m: nat, threads: seq<ThreadSource>)
    ensures Progress(head + Zeros(m * THREAD_NAME_SIZE), head, m, threads, 0)
  {
  }

  lemma {:induction false} NameSlotIsExact(list: MemoryArrayWriter, base: nat, m: nat, idx: nat, size: nat)
    requires list == MemoryArrayWriter(U32(base), m, THREAD_NAME_SIZE) && base <= size
    ensures size < U32_LIMIT ==> list.SlotAt(idx) == base + THREAD_NAME_SIZE * idx
  {
  }

  // ---- When a slot lies beyond the end ----

  /** How far the stream gets: its length behind the count so far, or how it ended. */
  datatype Fate = Reaches(length: nat) | Errs | Faults

  /** Writing the name of thread `idx`, and then its record, `length` bytes behind the first slot. */
  function NameFate(t: ThreadSource, idx: nat, length: nat): Fate
    requires t.name.Some?
  {
    var size := 2 * |EncodeUtf16(t.name.value)|;
    if size >= U32_LIMIT || !(0 <= t.tid < U32_LIMIT) then Errs
    else if THREAD_NAME_SIZE * idx > length + 4 + size then Faults
    else Reaches(Max(length + 4 + size, THREAD_NAME_SIZE * idx + THREAD_NAME_SIZE))
  }

  /** The fate of the first `idx` threads when m slots were reserved; it depends on the threads alone. */
  function FateOf(threads: seq<ThreadSource>, m: nat, idx: nat): Fate
    requires idx <= |threads|
  {
    if idx == 0 then Reaches(THREAD_NAME_SIZE * m) else
      var f, t := FateOf(threads, m, idx - 1), threads[idx - 1];
      if !f.Reaches? || t.name.None? then f else NameFate(t, idx - 1, f.length)
  }

  lemma {:induction false} FateStays(threads: seq<ThreadSource>, m: nat, idx: nat, n: nat)
    requires idx <= n <= |threads| && !FateOf(threads, m, idx).Reaches?
    ensures FateOf(threads, m, n) == FateOf(threads, m, idx)
  {
    if idx < n {
      FateStays(threads, m, idx, n - 1);
    }
  }

  /** Two threads without a name before one called "ab": its record would start 24 bytes into 20. */
  lemma {:induction false} SlotBeyondEnd()
    ensures var threads := [ThreadSource(7, None, None), ThreadSource(8, None, None),
                            ThreadSource(9, Some("ab"), None)];
            |Named(threads)| == 1 && FateOf(threads, 1, 3) == Faults
  {
    var threads := [ThreadSource(7, None, None), ThreadSource(8, None, None), ThreadSource(9, Some("ab"), None)];
    assert threads[..2][..1][..0] == [] && Named(threads[..2][..1]) == [] && Named(threads[..2]) == [];
    assert EncodeUtf16("ab"[1..][1..]) == [];
    assert |EncodeUtf16("ab"[1..])| == 1;
    assert |EncodeUtf16("ab")| == 2;
    assert FateOf(threads, 1, 1) == Reaches(12);
    assert FateOf(threads, 1, 2) == Reaches(12);
  }

  /** What a status says about the fate of the threads up to `idx`, below 4 GiB. */
  predicate Foretold(st: Status, size: nat, base: nat, threads: seq<ThreadSource>, m: nat, idx: nat)
    requires idx <= |threads|
  {
    base <= size
    && (size < U32_LIMIT ==>
          FateOf(threads, m, idx)
          == match st
             case Success => Reaches(size - base)
             case Error => Errs
             case Fault => Faults)
  }

  lemma {:induction false} FateIsKnown(st: Status, size: nat, base: nat, threads: seq<ThreadSource>, m: nat, idx: nat)
    requires idx <= |threads| && Foretold(st, size, base, threads, m, idx) && (st.Success? ==> idx == |threads|)
    ensures size < U32_LIMIT ==>
      var f := FateOf(threads, m, |threads|);
      (st.Success? <==> f.Reaches?) && (st.Error? <==> f.Errs?) && (st.Fault? <==> f.Faults?)
  {
    if size < U32_LIMIT && !st.Success? {
      FateStays(threads, m, idx, |threads|);
    }
  }

  /** One turn of the loop. Writing to a slot that lies beyond the end of the dump faults. */
  method WriteName(buffer: Buffer, list: MemoryArrayWriter, threads: seq<ThreadSource>, idx: nat,
                   ghost head: seq<byte>, ghost m: nat)
    returns (st: Status)
    requires idx < |threads| && |head| + THREAD_NAME_SIZE * m <= |buffer.inner|
    requires list == MemoryArrayWriter(U32(|head|), m, THREAD_NAME_SIZE)
    requires Progress(buffer.inner, head, m, threads, idx)
    requires Foretold(Success, |buffer.inner|, |head|, threads, m, idx)
    modifies buffer
    ensures |buffer.inner| >= old(|buffer.inner|)
    ensures Foretold(st, |buffer.inner|, |head|, threads, m, idx + 1)
    ensures |buffer.inner| < U32_LIMIT ==> head <= buffer.inner
    ensures st.Success? ==> Progress(buffer.inner, head, m, threads, idx + 1)
    ensures st.Fault? && |buffer.inner| < U32_LIMIT ==> !Fills(threads, m)
  {
    var t := threads[idx];
    if t.name.None? {
      StepUnnamed(buffer.inner, head, m, threads, idx);
      return Success;
    }
    ghost var was := buffer.inner;
    var pos := WriteStringToLocation(buffer, t.name.value);
    ghost var image := buffer.inner;
    if |image| < U32_LIMIT {
      StepAppend(was, image, head, m, threads, idx);
    }
    if pos.None? || !(0 <= t.tid < U32_LIMIT) {
      return Error;
    }
    NameSlotIsExact(list, |head|, m, idx, |image|);
    var at, w := list.SlotAt(idx), EncodeName(t.tid, pos.value.rva);
    if at > |buffer.inner| {
      return Fault;
    }
    if |image| < U32_LIMIT {
      assert Progress(Put(image, at, w), head, m, threads, idx + 1) by {
        if idx < m {
          NameWritten(image, at, t, pos.value, |head| + THREAD_NAME_SIZE * m);
        }
        StepNamed(image, head, m, threads, idx, w, at);
      }
    }
    SetValueAt(list, buffer, w, idx);
    st := Success;
  }

  lemma {:induction false} FirstNamesFill(threads: seq<ThreadSource>)
    ensures NamedFirst(threads) ==> Fills(threads, |Named(threads)|)
  {
    if NamedFirst(threads) {
      NamedFirstIsPrefix(threads);
    }
  }

  /** The count of the stream and, behind it, an empty slot for each name. */
  method ReserveNames(buffer: Buffer, n: nat)
    returns (dirent: Directory, list: MemoryArrayWriter, ghost head: seq<byte>)
    modifies buffer
    ensures |head| == old(|buffer.inner|) + 4 && old(buffer.inner) <= head
    ensures buffer.inner == head + Zeros(n * THREAD_NAME_SIZE)
    ensures list == MemoryArrayWriter(U32(|head|), n, THREAD_NAME_SIZE)
    ensures |buffer.inner| < U32_LIMIT ==>
      GetU32(head, old(|buffer.inner|)) == n
      && dirent == Directory(THREAD_NAMES_STREAM, Location(4 + THREAD_NAME_SIZE * n, old(|buffer.inner|)))
  {
    ghost var was, count := buffer.inner, ToLE(U32(n), 4);
    var header := AllocWithVal(buffer, ToLE(U32(n), 4));
    list := AllocArray(buffer, n, THREAD_NAME_SIZE);
    dirent := Directory(THREAD_NAMES_STREAM,
                        Location(U32(header.ToLocation().dataSize + list.ToLocation().dataSize), header.position));
    CountedRange(|was|, n * THREAD_NAME_SIZE);
    assert GetU32(was + count, |was|) == U32(n) by {
      CountRead(was, U32(n), []);
      assert (was + count) + [] == was + count;
    }
    head := was + count;
  }

  /** The stream. Its list reads back, and no slot is missed, if and only if unnamed threads come last. */
  method WriteThreadNames(buffer: Buffer, threads: seq<ThreadSource>) returns (st: Status, dirent: Directory)
    modifies buffer
    ensures |buffer.inner| >= old(|buffer.inner|)
    ensures |buffer.inner| < U32_LIMIT ==> old(buffer.inner) <= buffer.inner
    ensures st.Success? && |buffer.inner| < U32_LIMIT ==>
      NamesWritten(buffer.inner, old(|buffer.inner|), threads)
      && dirent.streamType == THREAD_NAMES_STREAM
      && dirent.location == Location(4 + THREAD_NAME_SIZE * |Named(threads)|, old(|buffer.inner|))
      && (ListsNames(buffer.inner, old(|buffer.inner|), threads) <==> NamedFirst(threads))
    ensures st.Fault? && |buffer.inner| < U32_LIMIT ==> !NamedFirst(threads)
    ensures |buffer.inner| < U32_LIMIT ==>
      var f := FateOf(threads, |Named(threads)|, |threads|);
      (st.Success? <==> f.Reaches?) && (st.Error? <==> f.Errs?) && (st.Fault? <==> f.Faults?)
  {
    ghost var start, n := |buffer.inner|, |Named(threads)|;
    var list;
    ghost var head;
    dirent, list, head := ReserveNames(buffer, |Named(threads)|);
    StartOfNames(head, n, threads);
    st := Success;
    for idx := 0 to |threads|
      invariant st.Success? && |buffer.inner| >= |head| + THREAD_NAME_SIZE * n
      invariant |buffer.inner| < U32_LIMIT ==> head <= buffer.inner
      invariant Progress(buffer.inner, head, n, threads, idx)
      invariant Foretold(Success, |buffer.inner|, |head|, threads, n, idx)
    {
      st := WriteName(buffer, list, threads, idx, head, n);
      if !st.Success? {
        FirstNamesFill(threads);
        FateIsKnown(st, |buffer.inner|, |head|, threads, n, idx + 1);
        return;
      }
    }
    FateIsKnown(st, |buffer.inner|, |head|, threads, n, |threads|);
    if |buffer.inner| < U32_LIMIT {
      NamesAreWritten(buffer.inner, start, head, threads);
      NamesReadBackIff(buffer.inner, start, threads);
    }
  }
}
