/** Bytes, machine words and their little-endian images. */
module Bytes {
  type byte = x: int | 0 <= x < 256

  datatype Option<+T> = None | Some(value: T)

  const U32_LIMIT: nat := 0x1_0000_0000
  const U64_LIMIT: nat := 0x1_0000_0000_0000_0000
  const USIZE_MAX: nat := U64_LIMIT - 1
  const WORD := 8

  type u32 = x: int | 0 <= x < U32_LIMIT
  type u64 = x: int | 0 <= x < U64_LIMIT

  /** A number truncated to 32 bits, as Rust's `as u32`. */
  function U32(n: nat): u32 { n % U32_LIMIT }

  function Min(a: int, b: int): int { if a <= b then a else b }

  function Max(a: int, b: int): int { if a <= b then b else a }

  /** 256 to the power w: the number of values that fit in w bytes. */
  function Values(w: nat): (v: nat)
    ensures v > 0
  {
    if w == 0 then 1 else 256 * Values(w - 1)
  }

  /** The w low-order bytes of n, least significant first. */
  function ToLE(n: nat, w: nat): (s: seq<byte>)
    ensures |s| == w
  {
    if w == 0 then [] else [n % 256] + ToLE(n / 256, w - 1)
  }

  function FromLE(s: seq<byte>): (n: nat)
    ensures n < Values(|s|)
  {
    if s == [] then 0 else s[0] + 256 * FromLE(s[1..])
  }

  lemma {:induction false} FromToLE(n: nat, w: nat)
    requires n < Values(w)
    ensures FromLE(ToLE(n, w)) == n
  {
    if w > 0 {
      FromToLE(n / 256, w - 1);
      assert ToLE(n, w)[1..] == ToLE(n / 256, w - 1);
    }
  }

  lemma {:induction false} ToFromLE(s: seq<byte>)
    ensures ToLE(FromLE(s), |s|) == s
  {
    if s != [] {
      ToFromLE(s[1..]);
      assert FromLE(s) / 256 == FromLE(s[1..]) && FromLE(s) % 256 == s[0];
      assert s == [s[0]] + s[1..];
    }
  }

  lemma {:induction false} Scaled(v: nat, x: nat)
    ensures (256 * v) * x == 256 * (v * x)
  {
  }

  /** The bytes of low weight come first. */
  lemma {:induction false} LowBytesFirst(s: seq<byte>, t: seq<byte>)
    ensures FromLE(s + t) == FromLE(s) + Values(|s|) * FromLE(t)
  {
    if s == [] {
      assert s + t == t;
    } else {
      LowBytesFirst(s[1..], t);
      assert (s + t)[1..] == s[1..] + t;
      Scaled(Values(|s| - 1), FromLE(t));
    }
  }

  lemma {:induction false} ValuesOfWords()
    ensures Values(2) == 0x1_0000 && Values(4) == U32_LIMIT && Values(8) == U64_LIMIT
  {
  }

  /** The w-byte number stored at offset `at`. */
  function Read(s: seq<byte>, at: nat, w: nat): (n: nat)
    requires at + w <= |s|
    ensures n < Values(w)
  {
    FromLE(s[at..at + w])
  }

  function GetU32(s: seq<byte>, at: nat): u32
    requires at + 4 <= |s|
  {
    ValuesOfWords();
    Read(s, at, 4)
  }

  function GetU64(s: seq<byte>, at: nat): u64
    requires at + 8 <= |s|
  {
    ValuesOfWords();
    Read(s, at, 8)
  }

  lemma {:induction false} GetU32Of(s: seq<byte>, at: nat, n: u32)
    requires at + 4 <= |s| && s[at..at + 4] == ToLE(n, 4)
    ensures GetU32(s, at) == n
  {
    ValuesOfWords();
    FromToLE(n, 4);
  }

  lemma {:induction false} GetU64Of(s: seq<byte>, at: nat, n: u64)
    requires at + 8 <= |s| && s[at..at + 8] == ToLE(n, 8)
    ensures GetU64(s, at) == n
  {
    ValuesOfWords();
    FromToLE(n, 8);
  }

  /** The index of the first zero byte; the length when there is none. */
  function FirstNul(s: seq<byte>): (i: nat)
    ensures i <= |s| && (forall j :: 0 <= j < i ==> s[j] != 0) && (i < |s| ==> s[i] == 0)
  {
    if s == [] || s[0] == 0 then 0 else 1 + FirstNul(s[1..])
  }

  lemma {:induction false} SliceOfSlice<T>(s: seq<T>, lo: nat, hi: nat, a: nat, b: nat)
    requires lo <= hi <= |s| && a <= b <= hi - lo
    ensures s[lo..hi][a..b] == s[lo + a..lo + b]
  {
    var l, r := s[lo..hi][a..b], s[lo + a..lo + b];
    assert |l| == |r| && forall i :: 0 <= i < |l| ==> l[i] == r[i];
  }
}
