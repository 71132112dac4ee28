/** The version in the file name of a shared object, such as libx.so.3.34.2rc5. */
module SoVersion {
  import opened Bytes
  import Maps

  datatype Version = Version(major: u32, minor: u32, patch: u32, prerelease: u32)

  // ---- Text ----

  predicate IsDigit(c: char) { '0' <= c <= '9' }

  function Value(c: char): nat
    requires IsDigit(c)
  {
    c as int - '0' as int
  }

  /** The number a string of digits stands for. */
  function Number(s: string): nat
    requires forall i :: 0 <= i < |s| ==> IsDigit(s[i])
  {
    if s == [] then 0 else 10 * Number(s[..|s| - 1]) + Value(s[|s| - 1])
  }

  /** Parsing as an unsigned 32-bit number: digits, with an optional plus sign in front. */
  function ParseU32(s: string): Option<u32> {
    var digits := if s != [] && s[0] == '+' then s[1..] else s;
    if digits == [] || exists i :: 0 <= i < |digits| && !IsDigit(digits[i]) then None
    else if Number(digits) < U32_LIMIT then Some(Number(digits)) else None
  }

  function OrZero(v: Option<u32>): u32 { if v.Some? then v.value else 0 }

  /** The index of the first character that is not a digit; the length when there is none. */
  function FirstNonDigit(s: string): (i: nat)
    ensures i <= |s| && (forall j :: 0 <= j < i ==> IsDigit(s[j])) && (i < |s| ==> !IsDigit(s[i]))
  {
    if s == [] || !IsDigit(s[0]) then 0 else 1 + FirstNonDigit(s[1..])
  }

  /** The index behind the last character that is not a digit; zero when there is none. */
  function BehindLastNonDigit(s: string): (i: nat)
    ensures i <= |s| && (forall j :: i <= j < |s| ==> IsDigit(s[j])) && (i > 0 ==> !IsDigit(s[i - 1]))
  {
    if s == [] then 0 else if !IsDigit(s[|s| - 1]) then |s| else BehindLastNonDigit(s[..|s| - 1])
  }

  const SO := ".so."

  /** What follows the first ".so." of a file name. */
  function AfterSo(s: string): Option<string> {
    if |s| < |SO| then None
    else if s[..|SO|] == SO then Some(s[|SO|..])
    else AfterSo(s[1..])
  }

  /** The parts between dots; there is always at least one. */
  function SplitDots(s: string): (parts: seq<string>)
    ensures |parts| > 0
  {
    if s == [] then [[]]
    else
      var rest := SplitDots(s[1..]);
      if s[0] == '.' then [[]] + rest else [[s[0]] + rest[0]] + rest[1..]
  }

  // ---- The version ----

  /** Component i of a version takes the value v. */
  function With(n: Version, i: nat, v: u32): Version {
    match i
    case 0 => n.(major := v)
    case 1 => n.(minor := v)
    case 2 => n.(patch := v)
    case _ => n.(prerelease := v)
  }

  /** What the parts from index i on add to a version. */
  function Fill(parts: seq<string>, i: nat, n: Version): Version
    decreases |parts| - i
  {
    if i >= |parts| || i >= 4 then n
    else
      var comp := parts[i];
      var pend := FirstNonDigit(comp);
      if i <= 1 || pend == |comp| then Fill(parts, i + 1, With(n, i, OrZero(ParseU32(comp))))
      else
        var lead := ParseU32(comp[..pend]);
        var n1 := if lead.Some? then With(n, i, lead.value) else n;
        var tail := ParseU32(comp[BehindLastNonDigit(comp)..]);
        if i == 3 then n1
        else if tail.Some? then With(n1, 3, tail.value)
        else Fill(parts, i + 1, n1)
  }

  const ZERO := Version(0, 0, 0, 0)

  /** Fault stands for cutting a text inside a character of more than one byte. */
  datatype Outcome = NoVersion | Parses(v: Version) | Fault

  /** The third part is cut one byte behind the start of its last non-digit, which is not ASCII. */
  predicate CutsCharacter(parts: seq<string>) {
    |parts| > 2 && FirstNonDigit(parts[2]) < |parts[2]|
    && parts[2][BehindLastNonDigit(parts[2]) - 1] >= '\U{80}'
  }

  function Parsed(filename: string): Outcome {
    var v := AfterSo(filename);
    if v.None? then NoVersion
    else if CutsCharacter(SplitDots(v.value)) then Fault
    else Parses(Fill(SplitDots(v.value), 0, ZERO))
  }

  method Parse(filename: string) returns (r: Outcome)
    ensures r == Parsed(filename)
  {
    var version := AfterSo(filename);
    if version.None? {
      return NoVersion;
    }
    r := FillParts(SplitDots(version.value));
  }

  method FillParts(parts: seq<string>) returns (r: Outcome)
    ensures r == if CutsCharacter(parts) then Fault else Parses(Fill(parts, 0, ZERO))
  {
    var comps: seq<u32> := [0, 0, 0, 0];
    var i := 0;
    ghost var target, cuts := Fill(parts, 0, ZERO), CutsCharacter(parts);
    while i < |parts|
      invariant 0 <= i <= |parts| && |comps| == 4
      invariant Fill(parts, i, Version(comps[0], comps[1], comps[2], comps[3])) == target
      invariant i > 2 ==> !cuts
    {
      var comp := parts[i];
      if i <= 1 {
        comps := comps[i := OrZero(ParseU32(comp))];
      } else if i >= 4 {
        break;
      } else {
        var pend := FirstNonDigit(comp);
        if pend < |comp| {
          var patch := ParseU32(comp[..pend]);
          if patch.Some? {
            comps := comps[i := patch.value];
          }
          if i >= 3 {
            break;
          }
          var cut := BehindLastNonDigit(comp);
          if comp[cut - 1] >= '\U{80}' {
            return Fault;
          }
          var pre := ParseU32(comp[cut..]);
          if pre.Some? {
            comps := comps[i + 1 := pre.value];
            break;
          }
        } else {
          comps := comps[i := OrZero(ParseU32(comp))];
        }
      }
      i := i + 1;
    }
    r := Parses(Version(comps[0], comps[1], comps[2], comps[3]));
  }

  // ---- Round trip ----

  function Decimal(n: nat): string { Maps.Print(n, 10) }

  predicate AllDigits(s: string) { forall i :: 0 <= i < |s| ==> IsDigit(s[i]) }

  predicate NoDots(s: string) { forall i :: 0 <= i < |s| ==> s[i] != '.' }

  lemma {:induction false} DigitValue(d: nat)
    requires d < 10
    ensures IsDigit(Maps.Digit(d)) && Value(Maps.Digit(d)) == d
  {
  }

  lemma {:induction false} DecimalReads(n: nat)
    ensures AllDigits(Decimal(n)) && Number(Decimal(n)) == n
  {
    if n < 10 {
      DigitValue(n);
      assert Decimal(n)[..0] == [];
    } else {
      DecimalReads(n / 10);
      DigitValue(n % 10);
      var s := Decimal(n);
      assert s[..|s| - 1] == Decimal(n / 10);
    }
  }

  lemma {:induction false} ParseDecimal(n: u32)
    ensures ParseU32(Decimal(n)) == Some(n) && AllDigits(Decimal(n)) && NoDots(Decimal(n))
  {
    DecimalReads(n);
    var s := Decimal(n);
    assert IsDigit(s[0]) && s[0] != '+';
  }

  lemma {:induction false} SplitFirst(a: string, rest: string)
    requires NoDots(a)
    ensures SplitDots(a + "." + rest) == [a] + SplitDots(rest)
  {
    var s := a + "." + rest;
    if a == [] {
      assert s[0] == '.' && s[1..] == rest;
    } else {
      assert s[1..] == a[1..] + "." + rest && s[0] == a[0];
      SplitFirst(a[1..], rest);
      var parts := SplitDots(s[1..]);
      assert parts[0] == a[1..] && parts[1..] == SplitDots(rest);
      assert [a[0]] + a[1..] == a;
    }
  }

  lemma {:induction false} SplitOnly(a: string)
    requires NoDots(a)
    ensures SplitDots(a) == [a]
  {
    if a != [] {
      SplitOnly(a[1..]);
      assert [a[0]] + a[1..] == a;
    }
  }

  /** Nothing, or further parts that begin with a dot. */
  predicate More(more: string) { more == [] || more[0] == '.' }

  lemma {:induction false} SplitLast(a: string, more: string)
    requires NoDots(a) && More(more)
    ensures SplitDots(a + more)[0] == a
    ensures |SplitDots(a + more)| > 0
  {
    if more == [] {
      assert a + more == a;
      SplitOnly(a);
    } else {
      assert a + more == a + "." + more[1..];
      SplitFirst(a, more[1..]);
    }
  }

  lemma {:induction false} AllDigitsHasNone(s: string)
    requires AllDigits(s)
    ensures FirstNonDigit(s) == |s|
  {
  }

  /** The first ".so." of prefix + ".so." + rest is the one behind the prefix. */
  predicate NoEarlierSo(prefix: string, rest: string) {
    forall i :: 0 <= i < |prefix| ==> !SoAt(prefix + SO + rest, i)
  }

  predicate SoAt(s: string, i: nat) {
    i + |SO| <= |s| && s[i..i + |SO|] == SO
  }

  lemma {:induction false} AfterSoFinds(prefix: string, rest: string)
    requires NoEarlierSo(prefix, rest)
    ensures AfterSo(prefix + SO + rest) == Some(rest)
  {
    var s := prefix + SO + rest;
    if prefix == [] {
      assert s[..|SO|] == SO && s[|SO|..] == rest;
    } else {
      var tail := prefix[1..] + SO + rest;
      assert s[1..] == tail;
      assert !SoAt(s, 0);
      forall i | 0 <= i < |prefix[1..]| ensures !SoAt(tail, i) {
        assert !SoAt(s, i + 1);
        assert tail[i..i + |SO|] == s[i + 1..i + 1 + |SO|];
      }
      AfterSoFinds(prefix[1..], rest);
    }
  }

  /** A name has no version exactly when ".so." does not occur in it. */
  lemma {:induction false} NoVersionIff(filename: string)
    ensures Parsed(filename).NoVersion? <==> forall i: nat :: !SoAt(filename, i)
  {
    if AfterSo(filename).Some? {
      var i := SoIsThere(filename);
    } else {
      forall i: nat ensures !SoAt(filename, i) {
        NoSoThere(filename, i);
      }
    }
  }

  lemma {:induction false} SoIsThere(s: string) returns (i: nat)
    requires AfterSo(s).Some?
    ensures SoAt(s, i)
  {
    if s[..|SO|] == SO {
      i := 0;
      assert s[0..0 + |SO|] == s[..|SO|];
    } else {
      i := SoIsThere(s[1..]);
      assert s[1..][i..i + |SO|] == s[i + 1..i + 1 + |SO|];
      i := i + 1;
    }
  }

  lemma {:induction false} NoSoThere(s: string, i: nat)
    requires AfterSo(s).None?
    ensures !SoAt(s, i)
  {
    if i + |SO| <= |s| {
      if i == 0 {
        assert s[0..0 + |SO|] == s[..|SO|];
      } else {
        NoSoThere(s[1..], i - 1);
        assert s[1..][i - 1..i - 1 + |SO|] == s[i..i + |SO|];
      }
    }
  }

  lemma {:induction false} SplitNext(a: string, rest: string, parts: seq<string>)
    requires NoDots(a) && SplitDots(rest) == parts
    ensures SplitDots(a + "." + rest) == [a] + parts
  {
    SplitFirst(a, rest);
  }

  lemma {:induction false} Nested<T>(a: T, b: T, c: T, s: seq<T>)
    ensures [a] + ([b] + ([c] + s)) == [a, b, c] + s
  {
  }

  /** Three numbers, then the component in which the fourth may be joined to the third. */
  lemma {:induction false} SplitFour(a: string, b: string, c: string, rest: string)
    requires NoDots(a) && NoDots(b) && NoDots(c)
    ensures SplitDots(a + "." + (b + "." + (c + "." + rest))) == [a, b, c] + SplitDots(rest)
  {
    var parts := SplitDots(rest);
    SplitNext(c, rest, parts);
    SplitNext(b, c + "." + rest, [c] + parts);
    SplitNext(a, b + "." + (c + "." + rest), [b] + ([c] + parts));
    Nested(a, b, c, parts);
  }

  lemma {:induction false} FillFour(parts: seq<string>, a: u32, b: u32, c: u32, d: u32)
    requires |parts| >= 4 && parts[..4] == [Decimal(a), Decimal(b), Decimal(c), Decimal(d)]
    ensures Fill(parts, 0, ZERO) == Version(a, b, c, d)
  {
    assert parts[0] == parts[..4][0] && parts[1] == parts[..4][1];
    assert parts[2] == parts[..4][2] && parts[3] == parts[..4][3];
    ParseDecimal(a);
    ParseDecimal(b);
    ParseDecimal(c);
    ParseDecimal(d);
    AllDigitsHasNone(parts[2]);
    AllDigitsHasNone(parts[3]);
    assert Fill(parts, 4, Version(a, b, c, d)) == Version(a, b, c, d);
    assert Fill(parts, 3, Version(a, b, c, 0)) == Version(a, b, c, d);
    assert Fill(parts, 2, Version(a, b, 0, 0)) == Version(a, b, c, d);
    assert Fill(parts, 1, Version(a, 0, 0, 0)) == Version(a, b, c, d);
  }

  /** Four numbers printed with dots are read back, whatever follows them. */
  lemma {:induction false} DottedRoundTrip(prefix: string, a: u32, b: u32, c: u32, d: u32, more: string)
    requires More(more)
    requires NoEarlierSo(prefix, Decimal(a) + "." + (Decimal(b) + "." + (Decimal(c) + "." + (Decimal(d) + more))))
    ensures Parsed(prefix + SO + (Decimal(a) + "." + (Decimal(b) + "." + (Decimal(c) + "." + (Decimal(d) + more)))))
         == Parses(Version(a, b, c, d))
  {
    var last := Decimal(d) + more;
    AfterSoFinds(prefix, Decimal(a) + "." + (Decimal(b) + "." + (Decimal(c) + "." + last)));
    ParseDecimal(a);
    ParseDecimal(b);
    ParseDecimal(c);
    ParseDecimal(d);
    SplitFour(Decimal(a), Decimal(b), Decimal(c), last);
    SplitLast(Decimal(d), more);
    FillFour([Decimal(a), Decimal(b), Decimal(c)] + SplitDots(last), a, b, c, d);
  }

  /** A tag between two numbers: not empty, and no digit at either end. */
  predicate IsTag(tag: string) {
    tag != [] && NoDots(tag) && !IsDigit(tag[0]) && !IsDigit(tag[|tag| - 1])
  }

  lemma {:induction false} TaggedComponent(c: string, tag: string, d: string)
    requires AllDigits(c) && AllDigits(d) && IsTag(tag)
    ensures FirstNonDigit(c + tag + d) == |c| && BehindLastNonDigit(c + tag + d) == |c| + |tag|
    ensures (c + tag + d)[..|c|] == c && (c + tag + d)[|c| + |tag|..] == d
  {
    var s := c + tag + d;
    assert s[|c|] == tag[0] && s[|c| + |tag| - 1] == tag[|tag| - 1];
    assert forall k :: 0 <= k < |c| ==> s[k] == c[k];
    assert forall k :: |c| + |tag| <= k < |s| ==> s[k] == d[k - |c| - |tag|];
  }

  lemma {:induction false} FillTagged(parts: seq<string>, a: u32, b: u32, c: u32, tag: string, d: u32)
    requires |parts| >= 3 && IsTag(tag)
    requires parts[0] == Decimal(a) && parts[1] == Decimal(b) && parts[2] == Decimal(c) + tag + Decimal(d)
    ensures Fill(parts, 0, ZERO) == Version(a, b, c, d)
  {
    ParseDecimal(a);
    ParseDecimal(b);
    ParseDecimal(c);
    ParseDecimal(d);
    TaggedComponent(Decimal(c), tag, Decimal(d));
    assert Fill(parts, 2, Version(a, b, 0, 0)) == Version(a, b, c, d);
    assert Fill(parts, 1, Version(a, 0, 0, 0)) == Version(a, b, c, d);
  }

  lemma {:induction false} TaggedCut(parts: seq<string>, c: u32, tag: string, d: u32)
    requires |parts| >= 3 && IsTag(tag) && parts[2] == Decimal(c) + tag + Decimal(d)
    ensures CutsCharacter(parts) <==> tag[|tag| - 1] >= '\U{80}'
  {
    ParseDecimal(c);
    ParseDecimal(d);
    TaggedComponent(Decimal(c), tag, Decimal(d));
  }

  lemma {:induction false} TaggedParts(a: u32, b: u32, comp: string, more: string)
    requires NoDots(comp) && More(more)
    ensures var parts := SplitDots(Decimal(a) + "." + (Decimal(b) + "." + (comp + more)));
            |parts| >= 3 && parts[0] == Decimal(a) && parts[1] == Decimal(b) && parts[2] == comp
  {
    ParseDecimal(a);
    ParseDecimal(b);
    SplitFirst(Decimal(a), Decimal(b) + "." + (comp + more));
    SplitFirst(Decimal(b), comp + more);
    SplitLast(comp, more);
  }

  /**
   * A third number with a tag and a fourth number joined to it is read back, whatever follows;
   * unless the tag ends in a character of more than one byte, which faults.
   */
  lemma {:induction false} TaggedRoundTrip(prefix: string, a: u32, b: u32, c: u32, tag: string, d: u32, more: string)
    requires IsTag(tag) && More(more)
    requires NoEarlierSo(prefix, Decimal(a) + "." + (Decimal(b) + "." + (Decimal(c) + tag + Decimal(d) + more)))
    ensures Parsed(prefix + SO + (Decimal(a) + "." + (Decimal(b) + "." + (Decimal(c) + tag + Decimal(d) + more))))
         == if tag[|tag| - 1] < '\U{80}' then Parses(Version(a, b, c, d)) else Fault
  {
    var comp := Decimal(c) + tag + Decimal(d);
    var version := Decimal(a) + "." + (Decimal(b) + "." + (comp + more));
    AfterSoFinds(prefix, version);
    assert NoDots(comp) by {
      ParseDecimal(c);
      ParseDecimal(d);
    }
    TaggedParts(a, b, comp, more);
    var parts := SplitDots(version);
    assert Fill(parts, 0, ZERO) == Version(a, b, c, d) by { FillTagged(parts, a, b, c, tag, d); }
    TaggedCut(parts, c, tag, d);
  }

  // ---- Fewer numbers ----

  /** The first two parts are the first two numbers, or 0 where a part is no number. */
  lemma {:induction false} FirstTwoNumbers(parts: seq<string>)
    requires parts != []
    ensures Fill(parts, 0, ZERO).major == OrZero(ParseU32(parts[0]))
    ensures Fill(parts, 0, ZERO).minor == if |parts| > 1 then OrZero(ParseU32(parts[1])) else 0
  {
    var a := OrZero(ParseU32(parts[0]));
    if |parts| > 1 {
      LaterParts(parts, 2, Version(a, OrZero(ParseU32(parts[1])), 0, 0));
      assert Fill(parts, 0, ZERO) == Fill(parts, 1, Version(a, 0, 0, 0));
    } else {
      assert Fill(parts, 1, Version(a, 0, 0, 0)) == Version(a, 0, 0, 0);
    }
  }

  lemma {:induction false} LaterParts(parts: seq<string>, i: nat, n: Version)
    requires i >= 2
    ensures Fill(parts, i, n).major == n.major && Fill(parts, i, n).minor == n.minor
    decreases |parts| - i
  {
    if i < |parts| && i < 4 {
      var comp := parts[i];
      var lead := ParseU32(comp[..FirstNonDigit(comp)]);
      LaterParts(parts, i + 1, With(n, i, OrZero(ParseU32(comp))));
      LaterParts(parts, i + 1, if lead.Some? then With(n, i, lead.value) else n);
    }
  }

  lemma {:induction false} FillThree(parts: seq<string>, a: u32, b: u32, c: u32)
    requires parts == [Decimal(a), Decimal(b), Decimal(c)]
    ensures Fill(parts, 0, ZERO) == Version(a, b, c, 0) && !CutsCharacter(parts)
  {
    ParseDecimal(a);
    ParseDecimal(b);
    ParseDecimal(c);
    AllDigitsHasNone(parts[2]);
    assert Fill(parts, 3, Version(a, b, c, 0)) == Version(a, b, c, 0);
    assert Fill(parts, 2, Version(a, b, 0, 0)) == Version(a, b, c, 0);
    assert Fill(parts, 1, Version(a, 0, 0, 0)) == Version(a, b, c, 0);
  }

  /** One number is read back, the others being 0. */
  lemma {:induction false} OneNumber(prefix: string, a: u32)
    requires NoEarlierSo(prefix, Decimal(a))
    ensures Parsed(prefix + SO + Decimal(a)) == Parses(Version(a, 0, 0, 0))
  {
    AfterSoFinds(prefix, Decimal(a));
    ParseDecimal(a);
    SplitOnly(Decimal(a));
    assert Fill([Decimal(a)], 1, Version(a, 0, 0, 0)) == Version(a, 0, 0, 0);
  }

  /** The name "l.so.7" has version 7. */
  lemma {:induction false} SmallName()
    ensures Parsed("l" + ".so." + "7") == Parses(Version(7, 0, 0, 0))
  {
    assert Decimal(7) == "7";
    var s := "l" + SO + "7";
    assert s[0] == 'l' && SO[0] == '.';
    assert !SoAt(s, 0);
    OneNumber("l", 7);
  }

  lemma {:induction false} TwoNumbers(prefix: string, a: u32, b: u32)
    requires NoEarlierSo(prefix, Decimal(a) + "." + Decimal(b))
    ensures Parsed(prefix + SO + (Decimal(a) + "." + Decimal(b))) == Parses(Version(a, b, 0, 0))
  {
    AfterSoFinds(prefix, Decimal(a) + "." + Decimal(b));
    ParseDecimal(a);
    ParseDecimal(b);
    SplitOnly(Decimal(b));
    SplitFirst(Decimal(a), Decimal(b));
    var parts := [Decimal(a)] + [Decimal(b)];
    assert Fill(parts, 2, Version(a, b, 0, 0)) == Version(a, b, 0, 0);
    assert Fill(parts, 1, Version(a, 0, 0, 0)) == Version(a, b, 0, 0);
  }

  lemma {:induction false} ThreeNumbers(prefix: string, a: u32, b: u32, c: u32)
    requires NoEarlierSo(prefix, Decimal(a) + "." + (Decimal(b) + "." + Decimal(c)))
    ensures Parsed(prefix + SO + (Decimal(a) + "." + (Decimal(b) + "." + Decimal(c)))) == Parses(Version(a, b, c, 0))
  {
    var version := Decimal(a) + "." + (Decimal(b) + "." + Decimal(c));
    AfterSoFinds(prefix, version);
    assert SplitDots(version) == [Decimal(a), Decimal(b), Decimal(c)] by {
      ParseDecimal(a);
      ParseDecimal(b);
      ParseDecimal(c);
      SplitOnly(Decimal(c));
      SplitNext(Decimal(b), Decimal(c), [Decimal(c)]);
      SplitNext(Decimal(a), Decimal(b) + "." + Decimal(c), [Decimal(b)] + [Decimal(c)]);
    }
    FillThree(SplitDots(version), a, b, c);
  }

  /** The third part is a number and a tag: it gives the third number only. */
  lemma {:induction false} BareTagPart(parts: seq<string>, n: Version, c: u32, tag: string)
    requires IsTag(tag) && |parts| > 2 && parts[2] == Decimal(c) + tag
    ensures Fill(parts, 2, n) == Fill(parts, 3, n.(patch := c))
    ensures CutsCharacter(parts) <==> tag[|tag| - 1] >= '\U{80}'
  {
    var comp := parts[2];
    ParseDecimal(c);
    BareComponent(Decimal(c), tag);
    assert ParseU32(comp[BehindLastNonDigit(comp)..]).None?;
  }

  lemma {:induction false} BareComponent(c: string, tag: string)
    requires AllDigits(c) && IsTag(tag)
    ensures FirstNonDigit(c + tag) == |c| < |c + tag| == BehindLastNonDigit(c + tag)
    ensures (c + tag)[..|c|] == c && (c + tag)[|c + tag|..] == "" && (c + tag)[|c + tag| - 1] == tag[|tag| - 1]
  {
    TaggedComponent(c, tag, "");
    assert c + tag + "" == c + tag;
  }

  /** A tag with no number behind it: the fourth number is that of the next part, or 0 without one. */
  lemma {:induction false} FillBareTag(parts: seq<string>, a: u32, b: u32, c: u32, tag: string, d: Option<u32>)
    requires IsTag(tag) && |parts| == (if d.Some? then 4 else 3)
    requires parts[0] == Decimal(a) && parts[1] == Decimal(b) && parts[2] == Decimal(c) + tag
    requires d.Some? ==> parts[3] == Decimal(d.value)
    ensures Fill(parts, 0, ZERO) == Version(a, b, c, OrZero(d))
    ensures CutsCharacter(parts) <==> tag[|tag| - 1] >= '\U{80}'
  {
    assert Fill(parts, 3, Version(a, b, c, 0)) == Version(a, b, c, OrZero(d)) by {
      if d.Some? {
        ParseDecimal(d.value);
        AllDigitsHasNone(parts[3]);
        assert Fill(parts, 4, Version(a, b, c, d.value)) == Version(a, b, c, d.value);
      }
    }
    BareTagPart(parts, Version(a, b, 0, 0), c, tag);
    assert Fill(parts, 0, ZERO) == Fill(parts, 2, Version(a, b, 0, 0)) by {
      ParseDecimal(a);
      ParseDecimal(b);
      assert Fill(parts, 1, Version(a, 0, 0, 0)) == Fill(parts, 2, Version(a, b, 0, 0));
    }
  }

  /** A third number with a tag and nothing else is read back with a fourth number of 0. */
  lemma {:induction false} BareTag(prefix: string, a: u32, b: u32, c: u32, tag: string)
    requires IsTag(tag) && NoEarlierSo(prefix, Decimal(a) + "." + (Decimal(b) + "." + (Decimal(c) + tag)))
    ensures Parsed(prefix + SO + (Decimal(a) + "." + (Decimal(b) + "." + (Decimal(c) + tag))))
         == if tag[|tag| - 1] < '\U{80}' then Parses(Version(a, b, c, 0)) else Fault
  {
    var comp := Decimal(c) + tag;
    var version := Decimal(a) + "." + (Decimal(b) + "." + comp);
    AfterSoFinds(prefix, version);
    assert SplitDots(version) == [Decimal(a), Decimal(b), comp] by {
      ParseDecimal(a);
      ParseDecimal(b);
      ParseDecimal(c);
      SplitOnly(comp);
      SplitNext(Decimal(b), comp, [comp]);
      SplitNext(Decimal(a), Decimal(b) + "." + comp, [Decimal(b)] + [comp]);
    }
    FillBareTag(SplitDots(version), a, b, c, tag, None);
  }
}
