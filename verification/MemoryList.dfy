/** Memory supplied by the application, and the stream that lists every block of memory. */
module MemoryList {
  import opened Bytes
  import opened Format
  import opened DumpBuffer
  import opened ThreadList
  import MemReader

  const MEMORY_LIST_STREAM: u32 := 5

  /** The block is as much of a region as could be copied. */
  predicate IsRegion(d: Descriptor, region: (u64, nat), p: Dumper) {
    var copied := MemReader.Copy(p.memory, region.0, region.1);
    copied.Some? && d.start == region.0 && d.memory.dataSize == |copied.value|
  }

  /** The blocks from index `from` on hold plain memory of the first regions, one each, in order. */
  ghost predicate RegionsShown(blocks: seq<Descriptor>, from: nat, regions: seq<(u64, nat)>, image: seq<byte>,
                               p: Dumper) {
    |blocks| - from <= |regions|
    && forall i :: from <= i < |blocks| ==> IsRegion(blocks[i], regions[i - from], p) && Plain(blocks[i], image, p)
  }

  lemma {:induction false} RegionAdded(blocks: seq<Descriptor>, d: Descriptor, from: nat, regions: seq<(u64, nat)>,
                                       image: seq<byte>, bytes: seq<byte>, p: Dumper)
    requires RegionsShown(blocks, from, regions, image, p) && from <= |blocks| < from + |regions|
    requires Some(bytes) == MemReader.Copy(p.memory, regions[|blocks| - from].0, regions[|blocks| - from].1)
    requires d.start == regions[|blocks| - from].0
    requires d.memory.rva == |image| && d.memory.dataSize == |bytes|
    ensures RegionsShown(blocks + [d], from, regions, image + bytes, p)
  {
    AppendedIsStored(image, bytes);
    forall i | from <= i < |blocks| ensures Plain(blocks[i], image + bytes, p) {
      AppendKeepsStored(image, bytes, blocks[i].memory.rva,
                        MemReader.Slice(p.memory, blocks[i].start, blocks[i].memory.dataSize));
    }
  }

  /** Something can be copied of every region that the application asked for. */
  predicate AllCopied(config: Config, p: Dumper) {
    forall k :: 0 <= k < |config.appMemory| ==> Copies(config.appMemory[k], p)
  }

  predicate Copies(region: (u64, nat), p: Dumper) {
    MemReader.Copy(p.memory, region.0, region.1).Some?
  }

  method WriteAppMemory(config: Config, buffer: Buffer, p: Dumper) returns (st: Status)
    modifies config`memoryBlocks, buffer
    ensures Grows(old(buffer.inner), buffer.inner, old(config.memoryBlocks), config.memoryBlocks, ViewOf(config, p))
    ensures st.Success? ==> |config.memoryBlocks| == old(|config.memoryBlocks|) + |config.appMemory|
    ensures st.Success? <==> AllCopied(config, p)
    ensures st.Success? && |buffer.inner| < U32_LIMIT ==>
      RegionsShown(config.memoryBlocks, old(|config.memoryBlocks|), config.appMemory, buffer.inner, p)
  {
    ghost var image, blocks := buffer.inner, config.memoryBlocks;
    for k := 0 to |config.appMemory|
      invariant Grows(image, buffer.inner, blocks, config.memoryBlocks, ViewOf(config, p))
      invariant |config.memoryBlocks| == |blocks| + k
      invariant forall i :: 0 <= i < k ==> Copies(config.appMemory[i], p)
      invariant |buffer.inner| < U32_LIMIT ==>
        RegionsShown(config.memoryBlocks, |blocks|, config.appMemory, buffer.inner, p)
    {
      var (ptr, length) := config.appMemory[k];
      var copied := MemReader.CopyFromProcess(p.memory, ptr, length);
      if copied.None? {
        assert !Copies(config.appMemory[k], p);
        return Error;
      }
      WriteRegion(config, buffer, p, k, copied.value, image, blocks);
    }
    st := Success;
  }

  /** Appends one region that was copied, and records it. */
  method WriteRegion(config: Config, buffer: Buffer, p: Dumper, k: nat, copied: seq<byte>, ghost image: seq<byte>,
                     ghost blocks: seq<Descriptor>)
    requires k < |config.appMemory| && |config.memoryBlocks| == |blocks| + k
    requires Some(copied) == MemReader.Copy(p.memory, config.appMemory[k].0, config.appMemory[k].1)
    requires Grows(image, buffer.inner, blocks, config.memoryBlocks, ViewOf(config, p))
    requires |buffer.inner| < U32_LIMIT ==>
      RegionsShown(config.memoryBlocks, |blocks|, config.appMemory, buffer.inner, p)
    modifies config`memoryBlocks, buffer
    ensures Grows(image, buffer.inner, blocks, config.memoryBlocks, ViewOf(config, p))
    ensures |config.memoryBlocks| == |blocks| + k + 1
    ensures |buffer.inner| < U32_LIMIT ==>
      RegionsShown(config.memoryBlocks, |blocks|, config.appMemory, buffer.inner, p)
  {
    ghost var image', blocks', v := buffer.inner, config.memoryBlocks, ViewOf(config, p);
    var section := WriteBytes(buffer, copied);
    var d := Descriptor(config.appMemory[k].0, section.ToLocation());
    config.memoryBlocks := config.memoryBlocks + [d];
    assert d.start in v.plain;
    GrowsByBlock(image', copied, d, blocks', v);
    GrowsOn(image, image', buffer.inner, blocks, blocks', config.memoryBlocks, v);
    if |buffer.inner| < U32_LIMIT {
      RegionAdded(blocks', d, |blocks|, config.appMemory, image', copied, p);
    }
  }

  function Images(blocks: seq<Descriptor>): (r: seq<seq<byte>>)
    ensures |r| == |blocks| && Uniform(r, DESCRIPTOR_SIZE)
  {
    seq(|blocks|, i requires 0 <= i < |blocks| => EncodeDescriptor(blocks[i]))
  }

  /** The stream at `start` reads back as the given descriptors. */
  ghost predicate Lists(image: seq<byte>, start: nat, blocks: seq<Descriptor>) {
    start + 4 + DESCRIPTOR_SIZE * |blocks| <= |image|
    && GetU32(image, start) == |blocks|
    && forall i :: 0 <= i < |blocks| ==> DescriptorAt(image, start + 4 + DESCRIPTOR_SIZE * i) == blocks[i]
  }

  lemma {:induction false} ListedAt(head: seq<byte>, blocks: seq<Descriptor>, i: nat)
    requires i < |blocks|
    ensures |head| + DESCRIPTOR_SIZE * i + DESCRIPTOR_SIZE <= |head + Concat(Images(blocks))|
    ensures DescriptorAt(head + Concat(Images(blocks)), |head| + DESCRIPTOR_SIZE * i) == blocks[i]
  {
    var all, w := Concat(Images(blocks)), EncodeDescriptor(blocks[i]);
    assert |all| == |blocks| * DESCRIPTOR_SIZE by { ConcatLength(Images(blocks), DESCRIPTOR_SIZE); }
    assert Stored(all, i * DESCRIPTOR_SIZE, w) by { ConcatStores(Images(blocks), DESCRIPTOR_SIZE, i); }
    PrependShiftsStored(head, all, i * DESCRIPTOR_SIZE, w);
    DescriptorRoundTrip(blocks[i]);
  }

  lemma {:induction false} ImagesList(head: seq<byte>, start: nat, blocks: seq<Descriptor>, image: seq<byte>)
    requires |head| == start + 4 && image == head + Concat(Images(blocks))
    requires GetU32(image, start) == |blocks|
    ensures Lists(image, start, blocks)
  {
    ConcatLength(Images(blocks), DESCRIPTOR_SIZE);
    forall i | 0 <= i < |blocks| ensures DescriptorAt(image, start + 4 + DESCRIPTOR_SIZE * i) == blocks[i] {
      ListedAt(head, blocks, i);
    }
  }

  method WriteMemoryList(config: Config, buffer: Buffer) returns (dirent: Directory)
    modifies buffer
    ensures old(buffer.inner) <= buffer.inner
    ensures dirent.location.rva + dirent.location.dataSize <= |buffer.inner|
    ensures |buffer.inner| < U32_LIMIT ==>
      var start, n := old(|buffer.inner|), |config.memoryBlocks|;
      |buffer.inner| == start + 4 + DESCRIPTOR_SIZE * n
      && dirent == Directory(MEMORY_LIST_STREAM, Location(4 + DESCRIPTOR_SIZE * n, start))
      && Lists(buffer.inner, start, config.memoryBlocks)
  {
    ghost var was, n := buffer.inner, |config.memoryBlocks|;
    var count := ToLE(U32(|config.memoryBlocks|), 4);
    var location := WriteCounted(buffer, count, Images(config.memoryBlocks), DESCRIPTOR_SIZE);
    dirent := Directory(MEMORY_LIST_STREAM, location);
    if |buffer.inner| < U32_LIMIT {
      ListedBehind(was, was + count, config.memoryBlocks);
    }
  }

  /** A count and the images of an array behind it; the location covers both. */
  method WriteCounted(buffer: Buffer, count: seq<byte>, images: seq<seq<byte>>, size: nat) returns (l: Location)
    requires |count| == 4 && Uniform(images, size)
    modifies buffer
    ensures buffer.inner == (old(buffer.inner) + count) + Concat(images)
    ensures |buffer.inner| == old(|buffer.inner|) + 4 + |images| * size
    ensures l.rva + l.dataSize <= |buffer.inner|
    ensures |buffer.inner| < U32_LIMIT ==> l.rva == old(|buffer.inner|) && l.dataSize == 4 + |images| * size
  {
    ghost var was := buffer.inner;
    var header := AllocWithVal(buffer, count);
    var list := AllocFromArray(buffer, images, size);
    l := Location(U32(header.ToLocation().dataSize + list.ToLocation().dataSize), header.position);
    ConcatLength(images, size);
    CountedRange(|was|, |images| * size);
  }

  lemma {:induction false} ListedBehind(was: seq<byte>, head: seq<byte>, blocks: seq<Descriptor>)
    requires |blocks| < U32_LIMIT && head == was + ToLE(U32(|blocks|), 4)
    ensures Lists(head + Concat(Images(blocks)), |was|, blocks)
  {
    assert U32(|blocks|) == |blocks|;
    CountRead(was, |blocks|, Concat(Images(blocks)));
    ImagesList(head, |was|, blocks, head + Concat(Images(blocks)));
  }
}
