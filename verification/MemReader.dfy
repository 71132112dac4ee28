/** Reading the memory of another process by whichever of three ways works first. */
module MemReader {
  import opened Bytes

  type Errno = nat

  /** The answer to a request for many bytes: how many were read, or an error. */
  datatype Answer = Reads(n: nat) | Fails(errno: Errno)

  /**
   * The memory of a stopped target: the byte at each address, and what the system answers to each way
   * of reading it. A file that cannot be opened, a read of the file, and a read of a word fail with
   * an error.
   */
  datatype Memory = Memory(at: nat -> byte, vmem: (nat, nat) -> Answer, open: Option<Errno>,
                           file: (nat, nat) -> Option<Errno>, peek: nat -> Option<Errno>)

  function Slice(mem: Memory, src: nat, len: nat): (s: seq<byte>)
    ensures |s| == len
  {
    seq<byte>(len, i requires 0 <= i => mem.at(src + i))
  }

  datatype Style = VirtualMem | File | Ptrace | Unavailable(vmem: Errno, file: Errno, ptrace: Errno)
  datatype Outcome = Ok(len: nat) | Err(errno: Errno, offset: nat)

  // ---- What a read gives ----

  function VirtualMemOutcome(mem: Memory, src: nat, len: nat): (r: Outcome)
    ensures r.Ok? ==> r.len <= len
  {
    match mem.vmem(src, len)
    case Reads(n) => Ok(Min(n, len))
    case Fails(errno) => Err(errno, 0)
  }

  function FileOutcome(mem: Memory, src: nat, len: nat): Outcome {
    match mem.file(src, len)
    case None => Ok(len)
    case Some(errno) => Err(errno, 0)
  }

  /** Word by word from an offset on: the first word that cannot be read ends the read there. */
  function PtraceOutcome(mem: Memory, src: nat, len: nat, offset: nat): (r: Outcome)
    ensures r.Ok? ==> r.len == len
    decreases len - offset
  {
    if offset >= len then Ok(len)
    else match mem.peek(src + offset)
         case Some(errno) => Err(errno, offset)
         case None => PtraceOutcome(mem, src, len, offset + WORD)
  }

  /** The first read: the style that works first, and its outcome. */
  function FirstRead(mem: Memory, src: nat, len: nat): (Style, Outcome) {
    var vmem := VirtualMemOutcome(mem, src, len);
    if vmem.Ok? then (VirtualMem, vmem) else
      var file := if mem.open.Some? then Err(mem.open.value, 0) else FileOutcome(mem, src, len);
      if file.Ok? then (File, file) else
        var ptrace := PtraceOutcome(mem, src, len, 0);
        if ptrace.Ok? then (Ptrace, ptrace)
        else (Unavailable(vmem.errno, file.errno, ptrace.errno), Err(ptrace.errno, 0))
  }

  /** A read in a style that was chosen before, or the first one. */
  function ReadOutcome(mem: Memory, style: Option<Style>, src: nat, len: nat): (Style, Outcome) {
    match style
    case None => FirstRead(mem, src, len)
    case Some(VirtualMem) => (VirtualMem, VirtualMemOutcome(mem, src, len))
    case Some(File) => (File, FileOutcome(mem, src, len))
    case Some(Ptrace) => (Ptrace, PtraceOutcome(mem, src, len, 0))
    case Some(Unavailable(v, f, errno)) => (Unavailable(v, f, errno), Err(errno, 0))
  }

  /** A copy of target memory, shorter than asked for when the read stopped short. */
  function Copy(mem: Memory, src: nat, len: nat): (r: Option<seq<byte>>)
    ensures r.Some? ==> len > 0 && |r.value| <= len && r.value == Slice(mem, src, |r.value|)
  {
    if len == 0 || !FirstRead(mem, src, len).1.Ok? then None
    else Some(Slice(mem, src, FirstRead(mem, src, len).1.len))
  }

  /** Every word of the range can be read by itself. */
  ghost predicate AllWords(mem: Memory, src: nat, len: nat) {
    forall k: nat :: WORD * k < len ==> mem.peek(src + WORD * k).None?
  }

  lemma {:induction false} PtraceIff(mem: Memory, src: nat, len: nat, i: nat)
    requires forall k: nat :: k < i && WORD * k < len ==> mem.peek(src + WORD * k).None?
    ensures PtraceOutcome(mem, src, len, WORD * i).Ok? <==> AllWords(mem, src, len)
    decreases len - WORD * i
  {
    if WORD * i < len && mem.peek(src + WORD * i).None? {
      PtraceIff(mem, src, len, i + 1);
    }
  }

  /**
   * A copy is made exactly when one of the three ways works. It is target memory from its start: as
   * many bytes as the system call read, and otherwise all of them.
   */
  lemma {:induction false} CopyIff(mem: Memory, src: nat, len: nat)
    ensures Copy(mem, src, len).Some? <==>
      len > 0
      && (mem.vmem(src, len).Reads? || (mem.open.None? && mem.file(src, len).None?) || AllWords(mem, src, len))
    ensures Copy(mem, src, len).Some? ==>
      Copy(mem, src, len).value
      == Slice(mem, src, if mem.vmem(src, len).Reads? then Min(mem.vmem(src, len).n, len) else len)
  {
    PtraceIff(mem, src, len, 0);
  }

  /** The first word that cannot be read by itself ends a word-by-word read, with its error. */
  lemma {:induction false} FirstBadWord(mem: Memory, src: nat, len: nat, i: nat, k: nat)
    requires i <= k && WORD * k < len && mem.peek(src + WORD * k).Some?
    requires forall j: nat :: j < k ==> mem.peek(src + WORD * j).None?
    ensures PtraceOutcome(mem, src, len, WORD * i) == Err(mem.peek(src + WORD * k).value, WORD * k)
    decreases k - i
  {
    if i < k {
      FirstBadWord(mem, src, len, i + 1, k);
    }
  }

  /** The style is the first of system call, file and single words that works; each failure is kept. */
  lemma {:induction false} FirstStyle(mem: Memory, src: nat, len: nat)
    ensures var style := FirstRead(mem, src, len).0;
            if mem.vmem(src, len).Reads? then style == VirtualMem
            else if mem.open.None? && mem.file(src, len).None? then style == File
            else if AllWords(mem, src, len) then style == Ptrace
            else style.Unavailable? && style.vmem == mem.vmem(src, len).errno
                 && style.file == (if mem.open.Some? then mem.open.value else mem.file(src, len).value)
                 && PtraceOutcome(mem, src, len, 0).Err? && style.ptrace == PtraceOutcome(mem, src, len, 0).errno
  {
    PtraceIff(mem, src, len, 0);
  }

  /** Later reads work exactly when the chosen way does. */
  lemma {:induction false} LaterRead(mem: Memory, style: Style, src: nat, len: nat)
    ensures ReadOutcome(mem, Some(style), src, len).0 == style
    ensures ReadOutcome(mem, Some(style), src, len).1.Ok?
       <==> (match style
             case VirtualMem => mem.vmem(src, len).Reads?
             case File => mem.file(src, len).None?
             case Ptrace => AllWords(mem, src, len)
             case Unavailable(_, _, _) => false)
  {
    PtraceIff(mem, src, len, 0);
  }

  // ---- The three ways ----

  /** The first n bytes of dst are target memory; the rest is as it was. */
  ghost predicate Filled(mem: Memory, src: nat, now: seq<byte>, was: seq<byte>, n: nat) {
    n <= |now| == |was| && now == Slice(mem, src, n) + was[n..]
  }

  /** Reads one word of the target, or fails. */
  method Peek(mem: Memory, addr: nat) returns (w: Option<nat>, errno: Errno)
    ensures w == if mem.peek(addr).Some? then None else Some(FromLE(Slice(mem, addr, WORD)))
    ensures mem.peek(addr).Some? ==> errno == mem.peek(addr).value
  {
    match mem.peek(addr) {
      case Some(e) => return None, e;
      case None => return Some(FromLE(Slice(mem, addr, WORD))), 0;
    }
  }

  method CopyInto(dst: array<byte>, at: nat, bytes: seq<byte>)
    requires at + |bytes| <= dst.Length
    modifies dst
    ensures dst[..] == old(dst[..at]) + bytes + old(dst[at + |bytes|..])
  {
    forall i | 0 <= i < |bytes| {
      dst[at + i] := bytes[i];
    }
  }

  lemma {:induction false} FilledMore(mem: Memory, src: nat, now: seq<byte>, was: seq<byte>, n: nat, k: nat)
    requires Filled(mem, src, now, was, n) && n + k <= |was|
    ensures Filled(mem, src, now[..n] + Slice(mem, src + n, k) + now[n + k..], was, n + k)
  {
  }

  /** Reads one word and copies its first n bytes behind those already there. */
  method PeekInto(mem: Memory, src: nat, dst: array<byte>, offset: nat, n: nat, ghost was: seq<byte>)
    returns (failed: Option<Errno>)
    requires offset + n <= dst.Length && n <= WORD && Filled(mem, src, dst[..], was, offset)
    modifies dst
    ensures failed == mem.peek(src + offset)
    ensures Filled(mem, src, dst[..], was, if failed.None? then offset + n else offset)
  {
    var word, errno := Peek(mem, src + offset);
    if word.None? {
      return Some(errno);
    }
    ToFromLE(Slice(mem, src + offset, WORD));
    FilledMore(mem, src, dst[..], was, offset, n);
    var bytes := ToLE(word.value, WORD)[..n];
    assert bytes == Slice(mem, src + offset, n);
    CopyInto(dst, offset, bytes);
    failed := None;
  }

  /** Word by word; the last word is read whole and cut. */
  method ReadByPtrace(mem: Memory, src: nat, dst: array<byte>) returns (r: Outcome)
    modifies dst
    ensures r == PtraceOutcome(mem, src, dst.Length, 0)
    ensures r.Ok? ==> r.len == dst.Length && dst[..] == Slice(mem, src, dst.Length)
    ensures r.Err? ==> r.offset < dst.Length && r.offset % WORD == 0
    ensures r.Err? ==> Filled(mem, src, dst[..], old(dst[..]), r.offset)
  {
    var offset := 0;
    ghost var was := dst[..];
    while offset + WORD <= dst.Length
      invariant offset <= dst.Length && offset % WORD == 0
      invariant Filled(mem, src, dst[..], was, offset)
      invariant PtraceOutcome(mem, src, dst.Length, 0) == PtraceOutcome(mem, src, dst.Length, offset)
    {
      var failed := PeekInto(mem, src, dst, offset, WORD, was);
      if failed.Some? {
        return Err(failed.value, offset);
      }
      offset := offset + WORD;
    }
    var last := dst.Length - offset;
    if last != 0 {
      var failed := PeekInto(mem, src, dst, offset, last, was);
      if failed.Some? {
        return Err(failed.value, offset);
      }
    }
    r := Ok(dst.Length);
  }

  /** The system call that reads many bytes: it may stop short, or fail. */
  method ReadByVirtualMem(mem: Memory, src: nat, dst: array<byte>) returns (r: Outcome)
    modifies dst
    ensures r == VirtualMemOutcome(mem, src, dst.Length)
    ensures r.Ok? ==> r.len <= dst.Length && dst[..r.len] == Slice(mem, src, r.len)
  {
    match mem.vmem(src, dst.Length) {
      case Reads(n) =>
        CopyInto(dst, 0, Slice(mem, src, Min(n, dst.Length)));
        r := Ok(Min(n, dst.Length));
      case Fails(errno) =>
        r := Err(errno, 0);
    }
  }

  /** Reading the memory file: all of the bytes, or an error, with any part of them read. */
  method ReadByFile(mem: Memory, src: nat, dst: array<byte>) returns (r: Outcome)
    modifies dst
    ensures r == FileOutcome(mem, src, dst.Length)
    ensures r.Ok? ==> dst[..] == Slice(mem, src, dst.Length)
  {
    match mem.file(src, dst.Length) {
      case None =>
        CopyInto(dst, 0, Slice(mem, src, dst.Length));
        r := Ok(dst.Length);
      case Some(errno) =>
        var n: nat :| n <= dst.Length;
        CopyInto(dst, 0, Slice(mem, src, n));
        r := Err(errno, 0);
    }
  }

  /** What one read does to the chosen style. */
  predicate StyleStep(was: Option<Style>, now: Option<Style>, r: Outcome) {
    if was.Some? then now == was && (was.value.Unavailable? ==> r == Err(was.value.ptrace, 0))
    else now.Some? && (r.Err? <==> now.value.Unavailable?)
  }

  class MemReader {
    const mem: Memory
    var style: Option<Style>

    constructor (mem: Memory)
      ensures this.mem == mem && style.None?
    {
      this.mem := mem;
      style := None;
    }

    method Read(src: nat, dst: array<byte>) returns (r: Outcome)
      modifies `style, dst
      ensures var o := ReadOutcome(mem, old(style), src, dst.Length);
              style == Some(o.0) && r == o.1
      ensures StyleStep(old(style), style, r)
      ensures r.Ok? ==> r.len <= dst.Length && dst[..r.len] == Slice(mem, src, r.len)
      ensures r.Ok? && !style.value.VirtualMem? ==> r.len == dst.Length
      ensures r.Err? ==> r.offset <= dst.Length && dst[..r.offset] == Slice(mem, src, r.offset)
    {
      if style.Some? {
        match style.value {
          case VirtualMem => r := ReadByVirtualMem(mem, src, dst);
          case File => r := ReadByFile(mem, src, dst);
          case Ptrace => r := ReadByPtrace(mem, src, dst);
          case Unavailable(_, _, ptrace) => r := Err(ptrace, 0);
        }
        return;
      }
      r := ReadByVirtualMem(mem, src, dst);
      if r.Ok? {
        style := Some(VirtualMem);
        return;
      }
      var vmem := r.errno;
      var file: Errno;
      if mem.open.Some? {
        file := mem.open.value;
      } else {
        r := ReadByFile(mem, src, dst);
        if r.Ok? {
          style := Some(File);
          return;
        }
        file := r.errno;
      }
      r := ReadByPtrace(mem, src, dst);
      if r.Ok? {
        style := Some(Ptrace);
        return;
      }
      style := Some(Unavailable(vmem, file, r.errno));
      r := Err(r.errno, 0);
    }

    /** A copy of target memory, shorter than asked for when the read stopped short. */
    method ReadToVec(src: nat, length: nat) returns (r: Option<seq<byte>>)
      requires length > 0
      modifies `style
      ensures var o := ReadOutcome(mem, old(style), src, length);
              style == Some(o.0) && r == if o.1.Ok? then Some(Slice(mem, src, o.1.len)) else None
    {
      var output := new byte[length](_ => 0);
      var res := Read(src, output);
      r := if res.Ok? then Some(output[..res.len]) else None;
    }
  }

  method CopyFromProcess(mem: Memory, src: nat, length: nat) returns (r: Option<seq<byte>>)
    ensures r == Copy(mem, src, length)
  {
    if length == 0 {
      return None;
    }
    var reader := new MemReader(mem);
    r := reader.ReadToVec(src, length);
  }

  /** A run of reads: the style before the first, and after each. */
  ghost predicate Run(styles: seq<Option<Style>>, results: seq<Outcome>) {
    |styles| == |results| + 1
    && forall i :: 0 <= i < |results| ==> StyleStep(styles[i], styles[i + 1], results[i])
  }

  /**
   * Over any run of reads the style is chosen by the first one and never changes again; when
   * no way worked at first, every later read fails with the same error.
   */
  lemma {:induction false} StyleIsChosenOnce(styles: seq<Option<Style>>, results: seq<Outcome>, i: nat)
    requires Run(styles, results) && 1 <= i < |styles|
    ensures styles[i].Some? && styles[i] == styles[1]
    ensures styles[1].value.Unavailable? && i > 1 ==> results[i - 1] == Err(styles[1].value.ptrace, 0)
  {
    if i > 1 {
      StyleIsChosenOnce(styles, results, i - 1);
      assert StyleStep(styles[i - 1], styles[i], results[i - 1]);
    } else {
      assert StyleStep(styles[0], styles[1], results[0]);
    }
  }
}
