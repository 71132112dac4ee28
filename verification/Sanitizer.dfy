/**
 * Sanitising a stack copy. Words that could carry private data are overwritten. The
 * search for the mapping of a word is sped up by a cached stack range, a last-hit cache and a
 * 2048-bit modular bitmap; `PlainlySanitized` is the rule without them.
 */
module Sanitizer {
  import opened Bytes
  import opened Maps

  // ---- Searching the table ----

  function FindMapping(infos: seq<MappingInfo>, a: nat): (r: Option<MappingInfo>)
    ensures r.Some? ==> r.value in infos && r.value.Spans(a)
    ensures r.None? ==> forall m :: m in infos ==> !m.Spans(a)
  {
    if infos == [] then None
    else if infos[0].Spans(a) then Some(infos[0])
    else FindMapping(infos[1..], a)
  }

  function FindMappingNoBias(infos: seq<MappingInfo>, a: nat): (r: Option<MappingInfo>)
    ensures r.Some? ==> r.value in infos && r.value.ContainsAddress(a)
    ensures r.None? ==> forall m :: m in infos ==> !m.ContainsAddress(a)
  {
    if infos == [] then None
    else if infos[0].ContainsAddress(a) then Some(infos[0])
    else FindMappingNoBias(infos[1..], a)
  }

  // ---- What the table must look like ----

  /** Kernel ranges are pairwise disjoint. */
  predicate DisjointSystem(infos: seq<MappingInfo>) {
    forall i, j :: 0 <= i < j < |infos| ==>
      infos[i].sys.end <= infos[j].sys.start || infos[j].sys.end <= infos[i].sys.start
  }

  /** Each kernel range lies inside the module, which ends below the top of the address space. */
  predicate SystemInside(m: MappingInfo) {
    m.start <= m.sys.start && m.sys.end <= m.End() < U64_LIMIT
  }

  predicate Sound(infos: seq<MappingInfo>) {
    DisjointSystem(infos) && forall i :: 0 <= i < |infos| ==> SystemInside(infos[i])
  }

  /** In a sound table the first mapping that contains an address is the only one. */
  lemma {:induction false} FindIsUnique(infos: seq<MappingInfo>, m: MappingInfo, a: nat)
    requires DisjointSystem(infos)
    requires m in infos && m.ContainsAddress(a)
    ensures FindMappingNoBias(infos, a) == Some(m)
  {
  }

  // ---- The bitmap ----

  const SHIFT := 0x20_0000  // addresses are shifted right by 21 bits
  const BITMAP_BYTES := 256

  function Mask(b: nat): bv8
    requires b < 8
  {
    1 << b
  }

  lemma {:induction false} MaskBits(x: bv8, b: nat, c: nat)
    requires b < 8 && c < 8
    ensures (x | Mask(b)) & Mask(c) != 0 <==> b == c || x & Mask(c) != 0
    ensures (0 as bv8) & Mask(c) == 0
  {
  }

  predicate BitSet(bits: seq<bv8>, k: nat)
    requires |bits| == BITMAP_BYTES
  {
    bits[(k / 8) % BITMAP_BYTES] & Mask(k % 8) != 0
  }

  function WithBit(bits: seq<bv8>, k: nat): seq<bv8>
    requires |bits| == BITMAP_BYTES
  {
    var at := (k / 8) % BITMAP_BYTES;
    bits[at := bits[at] | Mask(k % 8)]
  }

  lemma {:induction false} SamePlace(j: nat, k: nat)
    ensures j % 2048 == k % 2048 <==> (j / 8) % 256 == (k / 8) % 256 && j % 8 == k % 8
  {
    assert j % 2048 == (j / 8) % 256 * 8 + j % 8;
    assert k % 2048 == (k / 8) % 256 * 8 + k % 8;
  }

  lemma {:induction false} SettingABit(bits: seq<bv8>, k: nat, j: nat)
    requires |bits| == BITMAP_BYTES
    ensures BitSet(WithBit(bits, k), j) <==> BitSet(bits, j) || j % 2048 == k % 2048
  {
    SamePlace(j, k);
    MaskBits(bits[(k / 8) % BITMAP_BYTES], k % 8, j % 8);
  }

  /** Some address block of m falls on bit k of the bitmap. */
  ghost predicate Marks(m: MappingInfo, k: nat) {
    m.IsExecutable() && MarksUpTo(m, m.End() / SHIFT + 1, k)
  }

  ghost predicate MarksUpTo(m: MappingInfo, hi: nat, k: nat) {
    exists bit: nat :: m.start / SHIFT <= bit < hi && SameBit(bit, k)
  }

  predicate SameBit(j: nat, k: nat) { j % 2048 == k % 2048 }

  ghost predicate CouldHit(infos: seq<MappingInfo>, k: nat) {
    exists i :: 0 <= i < |infos| && Marks(infos[i], k)
  }

  method MarkMapping(bits: array<bv8>, m: MappingInfo)
    requires bits.Length == BITMAP_BYTES && m.IsExecutable()
    modifies bits
    ensures forall k: nat :: BitSet(bits[..], k) <==> old(BitSet(bits[..], k)) || Marks(m, k)
  {
    var start, end := m.start / SHIFT, m.End() / SHIFT;
    var bit := start;
    ghost var was := bits[..];
    while bit <= end
      invariant start <= bit <= end + 1
      invariant forall k: nat :: BitSet(bits[..], k) <==> BitSet(was, k) || MarksUpTo(m, bit, k)
    {
      ghost var before := bits[..];
      bits[(bit / 8) % BITMAP_BYTES] := bits[(bit / 8) % BITMAP_BYTES] | Mask(bit % 8);
      assert bits[..] == WithBit(before, bit);
      forall k: nat
        ensures BitSet(bits[..], k) <==> BitSet(was, k) || MarksUpTo(m, bit + 1, k)
      {
        SettingABit(before, bit, k);
        assert MarksUpTo(m, bit + 1, k) <==> MarksUpTo(m, bit, k) || SameBit(bit, k);
      }
      bit := bit + 1;
    }
  }

  /** Bit k is set exactly when an executable mapping has an address block at k modulo 2048. */
  method BuildBitmap(infos: seq<MappingInfo>) returns (bits: array<bv8>)
    ensures fresh(bits) && bits.Length == BITMAP_BYTES
    ensures forall k: nat :: BitSet(bits[..], k) <==> CouldHit(infos, k)
  {
    bits := new bv8[BITMAP_BYTES](_ => 0);
    forall k: nat ensures !BitSet(bits[..], k) {
      MaskBits(0, 0, k % 8);
    }
    for i := 0 to |infos|
      invariant forall k: nat :: BitSet(bits[..], k) <==> CouldHit(infos[..i], k)
    {
      label L:
      if infos[i].IsExecutable() {
        MarkMapping(bits, infos[i]);
      }
      forall k: nat ensures BitSet(bits[..], k) <==> CouldHit(infos[..i + 1], k) {
        CouldHitSnoc(infos, i, k);
        assert old@L(BitSet(bits[..], k)) <==> CouldHit(infos[..i], k);
      }
    }
    assert infos[..|infos|] == infos;
  }

  lemma {:induction false} CouldHitSnoc(infos: seq<MappingInfo>, i: nat, k: nat)
    requires i < |infos|
    ensures CouldHit(infos[..i + 1], k) <==> CouldHit(infos[..i], k) || Marks(infos[i], k)
  {
  }

  /** The bitmap has no false negatives on a sound table. */
  lemma {:induction false} NoFalseNegatives(infos: seq<MappingInfo>, m: MappingInfo, a: nat)
    requires m in infos && SystemInside(m)
    requires m.IsExecutable() && m.ContainsAddress(a)
    ensures CouldHit(infos, a / SHIFT)
  {
    assert m.start / SHIFT <= a / SHIFT <= m.End() / SHIFT;
    assert SameBit(a / SHIFT, a / SHIFT);
    assert Marks(m, a / SHIFT);
  }

  // ---- The plain rule ----

  const SMALL_INT_MAGNITUDE := 4096
  const DEFACED: seq<byte> := [0xed, 0xac, 0xef, 0x0d, 0xed, 0xac, 0xef, 0x0d]

  function Aligned(n: nat): nat { (n + WORD - 1) / WORD * WORD }

  /** A word as a signed number. */
  function Signed(a: nat): int { if a < U64_LIMIT / 2 then a else a - U64_LIMIT }

  function Word(s: seq<byte>, at: nat): nat
    requires at + WORD <= |s|
  {
    Read(s, at, WORD)
  }

  /** The plain rule: small numbers, stack addresses and code addresses are kept. */
  predicate PlainlyKept(infos: seq<MappingInfo>, sp: nat, a: nat) {
    var stack, hit := FindMappingNoBias(infos, sp), FindMappingNoBias(infos, a);
    a <= SMALL_INT_MAGNITUDE
    || (stack.Some? && stack.value.ContainsAddress(a))
    || (hit.Some? && hit.value.IsExecutable())
  }

  /** Offset of the word that byte i belongs to, words starting at `from`. */
  function WordStart(from: nat, i: nat): (b: nat)
    requires from <= i
    ensures from <= b <= i < b + WORD
  {
    from + (i - from) / WORD * WORD
  }

  function PlainByte(infos: seq<MappingInfo>, s: seq<byte>, sp: nat, from: nat, i: nat): byte
    requires i < |s|
  {
    if i < from then 0 else
      var b := WordStart(from, i);
      if b + WORD > |s| then 0
      else if PlainlyKept(infos, sp, Word(s, b)) then s[i]
      else DEFACED[i - b]
  }

  function PlainlySanitized(infos: seq<MappingInfo>, s: seq<byte>, sp: nat, spOffset: nat): (r: seq<byte>)
    ensures |r| == |s|
  {
    seq(|s|, i requires 0 <= i < |s| => PlainByte(infos, s, sp, Aligned(spOffset), i))
  }

  predicate IsWord(s: seq<byte>, spOffset: nat, b: nat) {
    Aligned(spOffset) <= b && (b - Aligned(spOffset)) % WORD == 0 && b + WORD <= |s|
  }

  lemma {:induction false} ByteOfWord(infos: seq<MappingInfo>, s: seq<byte>, sp: nat, spOffset: nat, b: nat, i: nat)
    requires IsWord(s, spOffset, b) && i < WORD
    ensures PlainlySanitized(infos, s, sp, spOffset)[b + i]
         == if PlainlyKept(infos, sp, Word(s, b)) then s[b + i] else DEFACED[i]
  {
    assert WordStart(Aligned(spOffset), b + i) == b;
  }

  /** Every whole word at or above the stack pointer is either left alone or defaced. */
  lemma {:induction false} WordOutcome(infos: seq<MappingInfo>, s: seq<byte>, sp: nat, spOffset: nat, b: nat)
    requires IsWord(s, spOffset, b)
    ensures PlainlySanitized(infos, s, sp, spOffset)[b..b + WORD]
         == if PlainlyKept(infos, sp, Word(s, b)) then s[b..b + WORD] else DEFACED
  {
    var r := PlainlySanitized(infos, s, sp, spOffset);
    var expected := if PlainlyKept(infos, sp, Word(s, b)) then s[b..b + WORD] else DEFACED;
    forall i | 0 <= i < WORD ensures r[b + i] == expected[i] {
      ByteOfWord(infos, s, sp, spOffset, b, i);
    }
  }

  // ---- The plain rule, from the ranges of the table ----

  /** Some mapping's kernel range holds the stack pointer and the address. */
  ghost predicate ShareMapping(infos: seq<MappingInfo>, sp: nat, a: nat) {
    exists m :: m in infos && m.sys.start <= sp < m.sys.end && m.sys.start <= a < m.sys.end
  }

  /** The kernel range of a mapping with code holds the address. */
  ghost predicate IsCode(infos: seq<MappingInfo>, a: nat) {
    exists m :: m in infos && ExecuteFlag in m.perms && m.sys.start <= a < m.sys.end
  }

  lemma {:induction false} KeptIff(infos: seq<MappingInfo>, sp: nat, a: nat)
    requires DisjointSystem(infos)
    ensures PlainlyKept(infos, sp, a) <==> a <= 4096 || ShareMapping(infos, sp, a) || IsCode(infos, a)
  {
    if ShareMapping(infos, sp, a) {
      var m :| m in infos && m.sys.start <= sp < m.sys.end && m.sys.start <= a < m.sys.end;
      FindIsUnique(infos, m, sp);
    }
    if IsCode(infos, a) {
      var m :| m in infos && ExecuteFlag in m.perms && m.sys.start <= a < m.sys.end;
      FindIsUnique(infos, m, a);
    }
  }

  /** What a word of a stack copy becomes. */
  ghost function Shown(infos: seq<MappingInfo>, sp: nat, word: seq<byte>): seq<byte> {
    var a := FromLE(word);
    if a <= 4096 || ShareMapping(infos, sp, a) || IsCode(infos, a) then word else ToLE(0x0def_aced_0def_aced, 8)
  }

  /** Byte i is below the stack pointer's word or behind the last whole word. */
  predicate IsMargin(n: nat, spOffset: nat, i: nat) {
    i / 8 < (spOffset + 7) / 8 || i / 8 == n / 8
  }

  /**
   * A stack copy s as it is shown: zeros up to the first multiple of 8 at or above the stack
   * pointer's offset and behind the last whole word, and each word between kept or overwritten.
   */
  ghost predicate Censored(infos: seq<MappingInfo>, s: seq<byte>, r: seq<byte>, sp: nat, spOffset: nat) {
    |r| == |s|
    && (forall i :: 0 <= i < |s| && IsMargin(|s|, spOffset, i) ==> r[i] == 0)
    && forall k :: spOffset <= 8 * k && 8 * k + 8 <= |s| ==>
         r[8 * k..8 * k + 8] == Shown(infos, sp, s[8 * k..8 * k + 8])
  }

  lemma {:induction false} FillerBytes()
    ensures ToLE(0x0def_aced_0def_aced, 8) == DEFACED
  {
    var half: seq<byte> := [0xed, 0xac, 0xef, 0x0d];
    assert FromLE(half) == 0x0def_aced by {
      assert half[1..] == [0xac, 0xef, 0x0d] && half[1..][1..] == [0xef, 0x0d] && half[1..][1..][1..] == [0x0d];
    }
    LowBytesFirst(half, half);
    ValuesOfWords();
    assert DEFACED == half + half;
    ToFromLE(DEFACED);
  }

  lemma {:induction false} MarginIsZero(infos: seq<MappingInfo>, s: seq<byte>, sp: nat, spOffset: nat, i: nat)
    requires i < |s| && IsMargin(|s|, spOffset, i)
    ensures PlainlySanitized(infos, s, sp, spOffset)[i] == 0
  {
  }

  /** The plain rule does what the ranges of a sound table say. */
  lemma {:induction false} SanitizedIsCensored(infos: seq<MappingInfo>, s: seq<byte>, sp: nat, spOffset: nat)
    requires DisjointSystem(infos)
    ensures Censored(infos, s, PlainlySanitized(infos, s, sp, spOffset), sp, spOffset)
  {
    var r := PlainlySanitized(infos, s, sp, spOffset);
    forall i | 0 <= i < |s| && IsMargin(|s|, spOffset, i) ensures r[i] == 0 {
      MarginIsZero(infos, s, sp, spOffset, i);
    }
    forall k | spOffset <= 8 * k && 8 * k + 8 <= |s|
      ensures r[8 * k..8 * k + 8] == Shown(infos, sp, s[8 * k..8 * k + 8])
    {
      assert IsWord(s, spOffset, 8 * k);
      WordOutcome(infos, s, sp, spOffset, 8 * k);
      KeptIff(infos, sp, Word(s, 8 * k));
      FillerBytes();
    }
  }

  lemma {:induction false} NothingMapped(sp: nat, a: nat)
    ensures PlainlyKept([], sp, a) <==> a <= SMALL_INT_MAGNITUDE
  {
  }

  /** Small negative numbers are not kept as small positive ones are: here -1, with nothing mapped. */
  lemma {:induction false} SmallNegativeIsDefaced()
    ensures Signed(U64_LIMIT - 1) == -1
    ensures PlainlySanitized([], ToLE(U64_LIMIT - 1, WORD), 0, 0) == DEFACED
  {
    var s := ToLE(U64_LIMIT - 1, WORD);
    ValuesOfWords();
    FromToLE(U64_LIMIT - 1, WORD);
    assert s[0..WORD] == s && Word(s, 0) == U64_LIMIT - 1;
    NothingMapped(0, U64_LIMIT - 1);
    var r := PlainlySanitized([], s, 0, 0);
    forall i | 0 <= i < WORD ensures r[i] == DEFACED[i] {
      assert Aligned(0) == 0 && WordStart(0, i) == 0;
      assert r[i] == PlainByte([], s, 0, 0, i);
    }
  }

  // ---- The fast rule ----

  /** The last-hit cache holds nothing but executable mappings of the table. */
  predicate CacheOk(infos: seq<MappingInfo>, lastHit: Option<MappingInfo>) {
    lastHit.Some? ==> lastHit.value in infos && lastHit.value.IsExecutable()
  }

  method KeepWord(infos: seq<MappingInfo>, ghost sp: nat, stack: Option<MappingInfo>, bits: array<bv8>,
                  lastHit: Option<MappingInfo>, a: nat)
    returns (keep: bool, hit: Option<MappingInfo>)
    requires Sound(infos) && bits.Length == BITMAP_BYTES && a < U64_LIMIT
    requires forall k: nat :: BitSet(bits[..], k) <==> CouldHit(infos, k)
    requires stack == FindMappingNoBias(infos, sp) && CacheOk(infos, lastHit)
    ensures keep == PlainlyKept(infos, sp, a) && CacheOk(infos, hit)
  {
    hit := lastHit;
    if a <= SMALL_INT_MAGNITUDE && Signed(a) >= -SMALL_INT_MAGNITUDE {
      return true, hit;
    }
    if stack.Some? && stack.value.ContainsAddress(a) {
      return true, hit;
    }
    if lastHit.Some? && lastHit.value.ContainsAddress(a) {
      FindIsUnique(infos, lastHit.value, a);
      return true, hit;
    }
    var test := a / SHIFT;
    ghost var found := FindMappingNoBias(infos, a);
    if found.Some? && found.value.IsExecutable() {
      NoFalseNegatives(infos, found.value, a);
      assert BitSet(bits[..], test);
    }
    if bits[(test / 8) % BITMAP_BYTES] & Mask(test % 8) != 0 {
      var h := FindMappingNoBias(infos, a);
      if h.Some? && h.value.IsExecutable() {
        return true, h;
      }
    }
    return false, hit;
  }

  method ZeroRange(copy: array<byte>, lo: nat, hi: nat)
    requires lo <= hi <= copy.Length
    modifies copy
    ensures forall j :: 0 <= j < copy.Length ==> copy[j] == if lo <= j < hi then 0 else old(copy[j])
  {
    for i := lo to hi
      invariant forall j :: 0 <= j < copy.Length ==> copy[j] == if lo <= j < i then 0 else old(copy[j])
    {
      copy[i] := 0;
    }
  }

  /**
   * The sanitiser as coded. On a sound table it writes, byte for byte, what the plain rule says.
   * The copy must reach up to the aligned stack pointer, or slicing it faults.
   */
  method SanitizeStackCopy(infos: seq<MappingInfo>, copy: array<byte>, sp: nat, spOffset: nat)
    requires Sound(infos)
    requires Aligned(spOffset) <= copy.Length
    modifies copy
    ensures copy[..] == PlainlySanitized(infos, old(copy[..]), sp, spOffset)
    ensures Censored(infos, old(copy[..]), copy[..], sp, spOffset)
  {
    ghost var was := copy[..];
    SanitizedIsCensored(infos, was, sp, spOffset);
    var from := Aligned(spOffset);
    ZeroRange(copy, 0, from);
    var b := SanitizeWords(infos, copy, sp, from, was);
    forall i | b <= i < copy.Length ensures PlainByte(infos, was, sp, from, i) == 0 {
      LastWord(from, b, i, copy.Length);
    }
    ZeroRange(copy, b, copy.Length);
    assert copy[..] == PlainlySanitized(infos, was, sp, spOffset);
  }

  /** The loop over the whole words; the index behind the last one is returned. */
  method SanitizeWords(infos: seq<MappingInfo>, copy: array<byte>, sp: nat, from: nat, ghost was: seq<byte>)
    returns (b: nat)
    requires Sound(infos) && from <= copy.Length == |was|
    requires forall j :: 0 <= j < copy.Length ==> copy[j] == if j < from then 0 else was[j]
    modifies copy
    ensures from <= b <= copy.Length < b + WORD && (b - from) % WORD == 0
    ensures forall j :: 0 <= j < b ==> copy[j] == PlainByte(infos, was, sp, from, j)
  {
    var stack := FindMappingNoBias(infos, sp);
    var lastHit: Option<MappingInfo> := None;
    var bits := BuildBitmap(infos);
    ghost var bitmap := bits[..];
    b := from;
    while b + WORD <= copy.Length
      invariant from <= b <= copy.Length && (b - from) % WORD == 0
      invariant CacheOk(infos, lastHit)
      invariant bits[..] == bitmap
      invariant forall j :: 0 <= j < b ==> copy[j] == PlainByte(infos, was, sp, from, j)
      invariant forall j :: b <= j < copy.Length ==> copy[j] == was[j]
    {
      lastHit := SanitizeWord(infos, sp, stack, bits, lastHit, copy, from, b, was);
      b := b + WORD;
    }
  }

  lemma {:induction false} LastWord(from: nat, b: nat, i: nat, n: nat)
    requires from <= b <= i < n < b + WORD && (b - from) % WORD == 0
    ensures WordStart(from, i) == b
  {
  }

  /** One turn of the word loop. */
  method SanitizeWord(infos: seq<MappingInfo>, ghost sp: nat, stack: Option<MappingInfo>, bits: array<bv8>,
                      lastHit: Option<MappingInfo>, copy: array<byte>, ghost from: nat, b: nat, ghost was: seq<byte>)
    returns (hit: Option<MappingInfo>)
    requires Sound(infos) && bits.Length == BITMAP_BYTES
    requires forall k: nat :: BitSet(bits[..], k) <==> CouldHit(infos, k)
    requires stack == FindMappingNoBias(infos, sp) && CacheOk(infos, lastHit)
    requires from <= b && b + WORD <= copy.Length == |was| && (b - from) % WORD == 0
    requires forall j :: b <= j < copy.Length ==> copy[j] == was[j]
    modifies copy
    ensures CacheOk(infos, hit)
    ensures forall j :: b <= j < b + WORD ==> copy[j] == PlainByte(infos, was, sp, from, j)
    ensures forall j :: 0 <= j < copy.Length && !(b <= j < b + WORD) ==> copy[j] == old(copy[j])
  {
    assert copy[b..b + WORD] == was[b..b + WORD];
    var a := FromLE(copy[b..b + WORD]);
    ValuesOfWords();
    var keep;
    keep, hit := KeepWord(infos, sp, stack, bits, lastHit, a);
    if !keep {
      for i := 0 to WORD
        invariant forall j :: 0 <= j < i ==> copy[b + j] == DEFACED[j]
        invariant forall j :: 0 <= j < copy.Length && !(b <= j < b + i) ==> copy[j] == old(copy[j])
      {
        copy[b + i] := DEFACED[i];
      }
    }
    forall j | b <= j < b + WORD ensures copy[j] == PlainByte(infos, was, sp, from, j) {
      assert WordStart(from, j) == b;
      assert copy[j] == copy[b + (j - b)];
    }
  }
}
