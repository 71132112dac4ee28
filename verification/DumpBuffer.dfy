/**
 * The growing buffer a dump is built in. Slots are reserved first and filled later, while
 * other data is appended behind them.
 */
module DumpBuffer {
  import opened Bytes
  import opened Format

  /** s with the bytes v written over position `at`, growing at the end if v does not fit. */
  function Put(s: seq<byte>, at: nat, v: seq<byte>): (r: seq<byte>)
    requires at <= |s|
    ensures |r| == Max(|s|, at + |v|)
  {
    if at + |v| <= |s| then s[..at] + v + s[at + |v|..] else s[..at] + v
  }

  function Zeros(n: nat): (s: seq<byte>)
    ensures |s| == n
  {
    seq(n, _ => 0)
  }

  /** Writing changes its own range and nothing else. */
  lemma {:induction false} PutIsLocal(s: seq<byte>, at: nat, v: seq<byte>)
    requires at <= |s|
    ensures Stored(Put(s, at, v), at, v)
    ensures forall i :: 0 <= i < |s| && !(at <= i < at + |v|) ==> Put(s, at, v)[i] == s[i]
  {
  }

  /** What is stored elsewhere stays stored. */
  lemma {:induction false} PutKeepsStored(s: seq<byte>, at: nat, v: seq<byte>, at': nat, w: seq<byte>)
    requires at <= |s| && Stored(s, at', w)
    requires at' + |w| <= at || at + |v| <= at'
    ensures Stored(Put(s, at, v), at', w)
  {
  }

  lemma {:induction false} AppendKeepsStored(s: seq<byte>, more: seq<byte>, at: nat, w: seq<byte>)
    requires Stored(s, at, w)
    ensures Stored(s + more, at, w)
  {
  }

  lemma {:induction false} AppendedIsStored(s: seq<byte>, w: seq<byte>)
    ensures Stored(s + w, |s|, w)
  {
  }

  lemma {:induction false} PrependShiftsStored(prefix: seq<byte>, s: seq<byte>, at: nat, w: seq<byte>)
    requires Stored(s, at, w)
    ensures Stored(prefix + s, |prefix| + at, w)
  {
  }

  class Buffer {
    var inner: seq<byte>

    constructor ()
      ensures inner == []
    {
      inner := [];
    }

    method Reserve(len: nat) returns (mark: nat)
      modifies this
      ensures mark == old(|inner|)
      ensures inner == old(inner) + Zeros(len)
    {
      mark := |inner|;
      inner := inner + Zeros(len);
    }

    /** Writing at an offset beyond the end would underflow `len - offset`. */
    method WriteAt(offset: nat, val: seq<byte>)
      requires offset <= |inner|
      modifies this
      ensures inner == Put(old(inner), offset, val)
    {
      var remainder := |inner| - offset;
      if remainder < |val| {
        inner := inner + Zeros(|val| - remainder);
      }
      inner := inner[..offset] + val + inner[offset + |val|..];
    }

    method Write(val: seq<byte>)
      modifies this
      ensures inner == old(inner) + val
    {
      WriteAt(|inner|, val);
    }

    method WriteAll(bytes: seq<byte>)
      modifies this
      ensures inner == old(inner) + bytes
    {
      inner := inner + bytes;
    }
  }

  /** A slot for one record of `size` bytes. Its position is kept in 32 bits. */
  datatype MemoryWriter = MemoryWriter(position: u32, size: nat)
  {
    function ToLocation(): Location { Location(U32(size), position) }
  }

  method AllocWithVal(buffer: Buffer, val: seq<byte>) returns (w: MemoryWriter)
    modifies buffer
    ensures buffer.inner == old(buffer.inner) + val
    ensures w == MemoryWriter(U32(old(|buffer.inner|)), |val|)
  {
    var position := |buffer.inner|;
    buffer.Write(val);
    w := MemoryWriter(U32(position), |val|);
  }

  method Alloc(buffer: Buffer, size: nat) returns (w: MemoryWriter)
    modifies buffer
    ensures buffer.inner == old(buffer.inner) + Zeros(size)
    ensures w == MemoryWriter(U32(old(|buffer.inner|)), size)
  {
    var position := buffer.Reserve(size);
    w := MemoryWriter(U32(position), size);
  }

  method SetValue(w: MemoryWriter, buffer: Buffer, val: seq<byte>)
    requires w.position <= |buffer.inner|
    modifies buffer
    ensures buffer.inner == Put(old(buffer.inner), w.position, val)
  {
    buffer.WriteAt(w.position, val);
  }

  /** A slot for `count` records of `size` bytes each. */
  datatype MemoryArrayWriter = MemoryArrayWriter(position: u32, count: nat, size: nat)
  {
    function ToLocation(): Location { Location(U32(count * size), position) }
    function SlotAt(i: nat): nat { position + size * i }
    function LocationOfIndex(i: nat): Location { Location(U32(size), U32(SlotAt(i))) }
  }

  method WriteBytes(buffer: Buffer, bytes: seq<byte>) returns (w: MemoryArrayWriter)
    modifies buffer
    ensures buffer.inner == old(buffer.inner) + bytes
    ensures w == MemoryArrayWriter(U32(old(|buffer.inner|)), |bytes|, 1)
  {
    var position := |buffer.inner|;
    buffer.WriteAll(bytes);
    w := MemoryArrayWriter(U32(position), |bytes|, 1);
  }

  method AllocArray(buffer: Buffer, count: nat, size: nat) returns (w: MemoryArrayWriter)
    modifies buffer
    ensures buffer.inner == old(buffer.inner) + Zeros(count * size)
    ensures w == MemoryArrayWriter(U32(old(|buffer.inner|)), count, size)
  {
    var position := buffer.Reserve(count * size);
    w := MemoryArrayWriter(U32(position), count, size);
  }

  method SetValueAt(w: MemoryArrayWriter, buffer: Buffer, val: seq<byte>, index: nat)
    requires w.SlotAt(index) <= |buffer.inner|
    modifies buffer
    ensures buffer.inner == Put(old(buffer.inner), w.SlotAt(index), val)
  {
    buffer.WriteAt(w.position + w.size * index, val);
  }

  /** The images of an array, one after the other. */
  function Concat(vals: seq<seq<byte>>): (s: seq<byte>)
  {
    if vals == [] then [] else Concat(vals[..|vals| - 1]) + vals[|vals| - 1]
  }

  predicate Uniform(vals: seq<seq<byte>>, size: nat) {
    forall i :: 0 <= i < |vals| ==> |vals[i]| == size
  }

  lemma {:induction false} ConcatLength(vals: seq<seq<byte>>, size: nat)
    requires Uniform(vals, size)
    ensures |Concat(vals)| == |vals| * size
  {
    if vals != [] {
      ConcatLength(vals[..|vals| - 1], size);
      assert (|vals| - 1) * size + size == |vals| * size;
    }
  }

  lemma {:induction false} ConcatStores(vals: seq<seq<byte>>, size: nat, i: nat)
    requires Uniform(vals, size) && i < |vals|
    ensures Stored(Concat(vals), i * size, vals[i])
  {
    var front, last := vals[..|vals| - 1], vals[|vals| - 1];
    if i < |front| {
      ConcatStores(front, size, i);
      AppendKeepsStored(Concat(front), last, i * size, vals[i]);
    } else {
      ConcatLength(front, size);
      AppendedIsStored(Concat(front), last);
      assert i * size == |Concat(front)|;
    }
  }

  /** Reserves the whole array, then fills slot after slot. */
  method AllocFromArray(buffer: Buffer, vals: seq<seq<byte>>, size: nat) returns (w: MemoryArrayWriter)
    requires Uniform(vals, size)
    modifies buffer
    ensures buffer.inner == old(buffer.inner) + Concat(vals)
    ensures w == MemoryArrayWriter(U32(old(|buffer.inner|)), |vals|, size)
  {
    ghost var was := buffer.inner;
    var position := buffer.Reserve(|vals| * size);
    for idx := 0 to |vals|
      invariant idx * size <= |vals| * size
      invariant buffer.inner == was + (Concat(vals[..idx]) + Zeros(|vals| * size - idx * size))
    {
      FillNext(was, vals, size, idx);
      assert position + idx * size <= |buffer.inner|;
      buffer.WriteAt(position + idx * size, vals[idx]);
    }
    assert vals[..|vals|] == vals;
    w := MemoryArrayWriter(U32(position), |vals|, size);
  }

  lemma {:induction false} PutOverZeros(was: seq<byte>, done: seq<byte>, rest: nat, v: seq<byte>)
    requires |v| <= rest
    ensures Put(was + (done + Zeros(rest)), |was| + |done|, v) == was + ((done + v) + Zeros(rest - |v|))
  {
  }

  lemma {:induction false} NextSlot(idx: nat, n: nat, size: nat)
    requires idx < n
    ensures (idx + 1) * size == idx * size + size <= n * size
  {
  }

  lemma {:induction false} FillNext(was: seq<byte>, vals: seq<seq<byte>>, size: nat, idx: nat)
    requires Uniform(vals, size) && idx < |vals|
    ensures (idx + 1) * size == idx * size + size <= |vals| * size
    ensures |Concat(vals[..idx])| == idx * size
    ensures Put(was + (Concat(vals[..idx]) + Zeros(|vals| * size - idx * size)), |was| + idx * size, vals[idx])
         == was + (Concat(vals[..idx + 1]) + Zeros(|vals| * size - (idx + 1) * size))
  {
    NextSlot(idx, |vals|, size);
    ConcatLength(vals[..idx], size);
    assert vals[..idx + 1][..idx] == vals[..idx];
    assert Concat(vals[..idx + 1]) == Concat(vals[..idx]) + vals[idx];
    PutOverZeros(was, Concat(vals[..idx]), |vals| * size - idx * size, vals[idx]);
  }

  /**
   * The range of a stream made of a count and m bytes of records. Truncation to 32 bits shortens
   * it, and does nothing while the dump is small enough.
   */
  lemma {:induction false} CountedRange(start: nat, m: nat)
    ensures U32(start) + U32(U32(4) + U32(m)) <= start + 4 + m
    ensures start + 4 + m < U32_LIMIT ==> U32(start) == start && U32(U32(4) + U32(m)) == 4 + m
  {
  }
}
