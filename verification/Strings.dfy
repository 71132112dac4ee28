/** Strings in a dump: a byte count, then the text in UTF-16 (section 2 of RFC 2781). */
module Strings {
  import opened Bytes
  import opened Format
  import opened DumpBuffer

  type u16 = x: int | 0 <= x < 0x1_0000

  // ---- UTF-16 ----

  /** One or two units for a character. */
  function Units(c: char): (u: seq<u16>)
    ensures 1 <= |u| <= 2
  {
    var n := c as int;
    if n < 0x1_0000 then [n]
    else [0xD800 + (n - 0x1_0000) / 0x400, 0xDC00 + (n - 0x1_0000) % 0x400]
  }

  function EncodeUtf16(text: string): seq<u16> {
    if text == [] then [] else Units(text[0]) + EncodeUtf16(text[1..])
  }

  predicate IsHigh(u: u16) { 0xD800 <= u < 0xDC00 }
  predicate IsLow(u: u16) { 0xDC00 <= u < 0xE000 }

  /** The text that the units stand for; None when a surrogate has no partner. */
  function DecodeUtf16(units: seq<u16>): Option<string> {
    if units == [] then Some([])
    else if IsHigh(units[0]) then
      if |units| < 2 || !IsLow(units[1]) then None else
        var hi: int, lo: int := units[0], units[1];
        var c := (0x1_0000 + (hi - 0xD800) * 0x400 + (lo - 0xDC00)) as char;
        var rest := DecodeUtf16(units[2..]);
        if rest.Some? then Some([c] + rest.value) else None
    else if IsLow(units[0]) then None
    else
      var rest := DecodeUtf16(units[1..]);
      if rest.Some? then Some([units[0] as char] + rest.value) else None
  }

  lemma {:induction false} Utf16RoundTrip(text: string)
    ensures DecodeUtf16(EncodeUtf16(text)) == Some(text)
  {
    if text != [] {
      var u, rest := Units(text[0]), EncodeUtf16(text[1..]);
      Utf16RoundTrip(text[1..]);
      assert (u + rest)[|u|..] == rest;
      assert [text[0]] + text[1..] == text;
    }
  }

  /** The example of section 2 of RFC 2781: U+12345 is the pair D808 DF45. */
  lemma {:induction false} SurrogateExample()
    ensures EncodeUtf16(['\U{12345}']) == [0xD808, 0xDF45] && EncodeUtf16(['a']) == [0x61]
  {
    assert EncodeUtf16([]) == [];
  }

  // ---- Reading a string back ----

  function UnitAt(s: seq<byte>, at: nat): u16
    requires at + 2 <= |s|
  {
    ValuesOfWords();
    Read(s, at, 2)
  }

  function UnitsAt(s: seq<byte>, at: nat, n: nat): seq<u16>
    requires at + 2 * n <= |s|
  {
    seq(n, i requires 0 <= i < n => UnitAt(s, at + 2 * i))
  }

  /** A reader of the dump: the count at the location, and the text behind it. */
  function ReadString(image: seq<byte>, l: Location): Option<string> {
    if l.rva + 4 > |image| then None else
      var count := GetU32(image, l.rva);
      if l.rva + 4 + count > |image| || count % 2 != 0 then None
      else DecodeUtf16(UnitsAt(image, l.rva + 4, count / 2))
  }

  // ---- Writing ----

  function Images(units: seq<u16>): (r: seq<seq<byte>>)
    ensures |r| == |units| && Uniform(r, 2)
  {
    seq(|units|, i requires 0 <= i < |units| => ToLE(units[i], 2))
  }

  lemma {:induction false} UnitsStored(head: seq<byte>, units: seq<u16>)
    ensures |Concat(Images(units))| == 2 * |units|
    ensures UnitsAt(head + Concat(Images(units)), |head|, |units|) == units
  {
    var text := Concat(Images(units));
    ConcatLength(Images(units), 2);
    forall i | 0 <= i < |units| ensures UnitAt(head + text, |head| + 2 * i) == units[i] {
      ConcatStores(Images(units), 2, i);
      PrependShiftsStored(head, text, i * 2, ToLE(units[i], 2));
      ValuesOfWords();
      FromToLE(units[i], 2);
    }
  }

  lemma {:induction false} UnitSlot(section: MemoryArrayWriter, start: nat, i: nat)
    requires section.position == U32(start) && section.size == 2
    ensures section.SlotAt(i) <= start + i * 2
    ensures start < U32_LIMIT ==> section.SlotAt(i) == start + i * 2
  {
  }

  /** The text section: a slot for the image of each unit, filled in order. */
  method WriteUnits(buffer: Buffer, images: seq<seq<byte>>) returns (section: MemoryArrayWriter)
    requires Uniform(images, 2)
    modifies buffer
    ensures |buffer.inner| == old(|buffer.inner|) + |images| * 2
    ensures |buffer.inner| < U32_LIMIT ==> buffer.inner == old(buffer.inner) + Concat(images)
    ensures section == MemoryArrayWriter(U32(old(|buffer.inner|)), |images|, 2)
  {
    ghost var was, total := buffer.inner, |images| * 2;
    section := AllocArray(buffer, |images|, 2);
    for i := 0 to |images|
      invariant |buffer.inner| == |was| + total
      invariant |buffer.inner| < U32_LIMIT ==> buffer.inner == was + (Concat(images[..i]) + Zeros(total - i * 2))
    {
      FillNext(was, images, 2, i);
      UnitSlot(section, |was|, i);
      SetValueAt(section, buffer, images[i], i);
    }
    assert images[..|images|] == images;
  }

  lemma {:induction false} ReadsUnits(image: seq<byte>, l: Location, n: nat)
    requires l.rva + 4 + 2 * n <= |image| && GetU32(image, l.rva) == 2 * n
    ensures ReadString(image, l) == DecodeUtf16(UnitsAt(image, l.rva + 4, n))
  {
    assert 2 * n / 2 == n && 2 * n % 2 == 0;
  }

  lemma {:induction false} StringReadsBack(head: seq<byte>, units: seq<u16>, image: seq<byte>, l: Location)
    requires |head| == l.rva + 4 && image == head + Concat(Images(units))
    requires GetU32(image, l.rva) == 2 * |units|
    ensures ReadString(image, l) == DecodeUtf16(units)
  {
    UnitsStored(head, units);
    ReadsUnits(image, l, |units|);
  }

  /** A count and the text behind it are read back as the text. */
  lemma {:induction false} TextReadsBack(was: seq<byte>, text: string, image: seq<byte>, l: Location)
    requires 2 * |EncodeUtf16(text)| < U32_LIMIT && l.rva == |was|
    requires image == (was + ToLE(2 * |EncodeUtf16(text)|, 4)) + Concat(Images(EncodeUtf16(text)))
    ensures GetU32(image, l.rva) == 2 * |EncodeUtf16(text)| && ReadString(image, l) == Some(text)
  {
    var units := EncodeUtf16(text);
    CountRead(was, 2 * |units|, Concat(Images(units)));
    Utf16RoundTrip(text);
    StringReadsBack(was + ToLE(2 * |units|, 4), units, image, l);
  }

  /**
   * The location covers the count and the text, reads back as the text, and nothing written before
   * has changed. A text whose byte count does not fit in 32 bits is refused, and nothing is written.
   */
  method WriteStringToLocation(buffer: Buffer, text: string) returns (r: Option<Location>)
    modifies buffer
    ensures r.None? <==> 2 * |EncodeUtf16(text)| >= U32_LIMIT
    ensures r.None? ==> buffer.inner == old(buffer.inner)
    ensures r.Some? ==> |buffer.inner| == old(|buffer.inner|) + 4 + 2 * |EncodeUtf16(text)|
    ensures r.Some? && |buffer.inner| < U32_LIMIT ==>
      old(buffer.inner) <= buffer.inner
      && r.value.rva == old(|buffer.inner|) && r.value.rva + r.value.dataSize == |buffer.inner|
      && r.value.dataSize == 4 + 2 * |EncodeUtf16(text)|
      && GetU32(buffer.inner, r.value.rva) == 2 * |EncodeUtf16(text)|
      && ReadString(buffer.inner, r.value) == Some(text)
  {
    var letters := EncodeUtf16(text);
    var size := 2 * |letters|;
    if size >= U32_LIMIT {
      return None;
    }
    ghost var was := buffer.inner;
    var header := AllocWithVal(buffer, ToLE(size, 4));
    var section := WriteUnits(buffer, Images(letters));
    var location := header.ToLocation();
    r := Some(location.(dataSize := U32(location.dataSize + section.ToLocation().dataSize)));
    CountedRange(|was|, |letters| * 2);
    if |buffer.inner| < U32_LIMIT {
      TextReadsBack(was, text, buffer.inner, r.value);
    }
  }
}
