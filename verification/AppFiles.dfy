/** The virtual files of app.c: contents made up on request, at any offset. */
module AppFiles {
  import opened CTypes

  const README_SIZE: nat := 256
  const INDEX_SIZE: nat := 256
  const TEST_SIZE: nat := 1367
  const PREFIX: string := "Firmware version "
  const MAX_DIGITS: nat := 7

  /** What a read of size bytes at offset yields of a file. */
  function Chunk(file: string, offset: nat, size: nat): string {
    if offset > |file| then []
    else if offset + size > |file| then file[offset..]
    else file[offset..offset + size]
  }

  /** Consecutive reads of the given sizes, one after the other. */
  function ReadAll(file: string, offset: nat, sizes: seq<nat>): string
    decreases |sizes|
  {
    if sizes == [] then []
    else Chunk(file, offset, sizes[0]) + ReadAll(file, offset + sizes[0], sizes[1..])
  }

  function Sum(sizes: seq<nat>): nat {
    if sizes == [] then 0 else sizes[0] + Sum(sizes[1..])
  }

  lemma ChunkSplit(file: string, offset: nat, a: nat, b: nat)
    ensures Chunk(file, offset, a) + Chunk(file, offset + a, b) == Chunk(file, offset, a + b)
  {
  }

  /** A read yields what the file has of the range. */
  lemma ChunkExactly(file: string, offset: nat, size: nat)
    ensures var c := Chunk(file, offset, size);
      && (offset + size <= |file| ==> |c| == size)
      && (offset <= |file| < offset + size ==> |c| == |file| - offset)
      && (|file| < offset ==> c == [])
      && forall k | 0 <= k < |c| :: offset + k < |file| && c[k] == file[offset + k]
  {
  }

  /** However a host splits a range into reads, it gets the same bytes. */
  lemma {:induction false} ChunkIndependence(file: string, offset: nat, sizes: seq<nat>)
    ensures ReadAll(file, offset, sizes) == Chunk(file, offset, Sum(sizes))
    decreases |sizes|
  {
    if sizes == [] {
    } else {
      var a, b := sizes[0], Sum(sizes[1..]);
      ChunkIndependence(file, offset + a, sizes[1..]);
      calc {
        ReadAll(file, offset, sizes);
        Chunk(file, offset, a) + Chunk(file, offset + a, b);
        { ChunkSplit(file, offset, a, b); }
        Chunk(file, offset, a + b);
      }
    }
  }

  /** And a range that covers the file yields the file. */
  lemma WholeFile(file: string, sizes: seq<nat>)
    requires Sum(sizes) >= |file|
    ensures ReadAll(file, 0, sizes) == file
  {
    ChunkIndependence(file, 0, sizes);
  }

  // The files.

  function Spaces(n: nat): (s: string)
    ensures |s| == n
  {
    seq(n, i => ' ')
  }

  function Digit(d: nat): char
    requires d < 10
  {
    "0123456789"[d]
  }

  /** Decimal digits without leading zeros, as __itoa writes them. */
  function Digits(v: nat): (s: string)
    ensures |s| >= 1
  {
    if v < 10 then [Digit(v)] else Digits(v / 10) + [Digit(v % 10)]
  }

  lemma {:induction false} DigitsFit(v: nat, n: nat, bound: nat)
    requires n >= 1 && v < bound && bound == Power10(n)
    ensures |Digits(v)| <= n
    decreases n
  {
    if v < 10 {
    } else {
      DigitsFit(v / 10, n - 1, Power10(n - 1));
    }
  }

  function Power10(n: nat): nat {
    if n == 0 then 1 else 10 * Power10(n - 1)
  }

  /** A dot after the first digit. */
  function Dotted(digits: string): string
    requires |digits| >= 1
  {
    digits[..1] + "." + digits[1..]
  }

  /** readme.txt: the prefix, the dotted version, then spaces. */
  function ReadmeFile(version: nat): (f: string)
    requires version < 10000000
    ensures |f| == 256
  {
    DigitsFit(version, MAX_DIGITS, 10000000);
    var text := PREFIX + Dotted(Digits(version));
    text + Spaces(README_SIZE - |text|)
  }

  /** For the version of the firmware. */
  lemma ReadmeOfFirmware()
    ensures ReadmeFile(101)[..22] == "Firmware version 1.01 "
  {
    assert Digits(1) == "1" && Digits(10) == "10" && Digits(101) == "101";
    var text := PREFIX + Dotted(Digits(101));
    assert text == "Firmware version 1.01" && |text| == 21;
    assert ReadmeFile(101)[..22] == text + " ";
  }

  /** index.htm: a text, then spaces. */
  function IndexFile(text: string): (f: string)
    requires |text| <= INDEX_SIZE
    ensures |f| == 256
  {
    text + Spaces(INDEX_SIZE - |text|)
  }

  /** The text comes first, then only spaces. */
  lemma IndexText(text: string)
    requires |text| <= INDEX_SIZE
    ensures text <= IndexFile(text)
    ensures forall k | |text| <= k < 256 :: IndexFile(text)[k] == ' '
  {
  }

  // Reading the version back.

  function DigitValue(c: char): nat {
    if '0' <= c <= '9' then (c - '0') as nat else 0
  }

  function Value(digits: string): nat {
    if digits == [] then 0
    else 10 * Value(digits[..|digits| - 1]) + DigitValue(digits[|digits| - 1])
  }

  /** The characters before the first space. */
  function Word(s: string): string {
    if s == [] || s[0] == ' ' then [] else [s[0]] + Word(s[1..])
  }

  /** What a reader of readme.txt makes of it: the word after the prefix, without the dot. */
  function ParseVersion(f: string): nat
    requires |f| == README_SIZE
  {
    var w := Word(f[|PREFIX|..]);
    Value(if |w| >= 2 then w[..1] + w[2..] else w)
  }

  lemma DigitReadsBack(d: nat)
    requires d < 10
    ensures '0' <= Digit(d) <= '9' && DigitValue(Digit(d)) == d
  {
  }

  lemma ValueSnoc(s: string, c: char)
    ensures Value(s + [c]) == 10 * Value(s) + DigitValue(c)
  {
  }

  lemma {:induction false} ValueOfDigits(v: nat)
    ensures Value(Digits(v)) == v
    ensures forall i | 0 <= i < |Digits(v)| :: '0' <= Digits(v)[i] <= '9'
  {
    DigitReadsBack(v % 10);
    if v >= 10 {
      ValueOfDigits(v / 10);
      ValueSnoc(Digits(v / 10), Digit(v % 10));
    } else {
      ValueSnoc([], Digit(v));
      assert [] + [Digit(v)] == [Digit(v)];
    }
  }

  lemma {:induction false} WordStops(w: string, n: nat)
    requires n >= 1 && forall i | 0 <= i < |w| :: w[i] != ' '
    ensures Word(w + Spaces(n)) == w
    decreases |w|
  {
    if w == [] {
    } else {
      assert (w + Spaces(n))[1..] == w[1..] + Spaces(n);
      WordStops(w[1..], n);
    }
  }

  /** The version can be read back from readme.txt, for every version of up to seven
      digits. */
  lemma ReadmeRoundTrip(version: nat)
    requires version < 10000000
    ensures ParseVersion(ReadmeFile(version)) == version
  {
    var d := Digits(version);
    var w := Dotted(d);
    DigitsFit(version, MAX_DIGITS, 10000000);
    ValueOfDigits(version);
    var n := README_SIZE - |PREFIX + w|;
    assert ReadmeFile(version)[|PREFIX|..] == w + Spaces(n);
    WordStops(w, n);
    assert w[..1] + w[2..] == d;
  }

  // The read procedures.

  /** How many bytes a read procedure writes. */
  function Clamped(fileSize: nat, size: nat, offset: nat): (len: nat)
    ensures len <= size
  {
    if offset > fileSize then 0
    else if offset + size > fileSize then fileSize - offset
    else size
  }

  /** The version part of readme.txt, place by place, as the read procedure computes it. */
  lemma ReadmeAt(version: nat, p: nat)
    requires version < 10000000 && p < README_SIZE
    ensures var d, cur := Digits(version), p - |PREFIX|;
      ReadmeFile(version)[p] ==
        if cur < 0 then PREFIX[p]
        else if cur == 0 then d[0]
        else if cur == 1 then '.'
        else if cur < 1 + |d| then d[cur - 1]
        else ' '
  {
  }

  /** readme_read_proc.  The offset and size are 32 bits wide, the size not negative. */
  method ReadmeReadProc(dest: array<char>, size: nat, offset: uint32, version: nat)
    requires version < 10000000 && size < 0x8000_0000
    requires dest.Length >= Clamped(README_SIZE, size, offset)
    modifies dest
    ensures dest[..Clamped(README_SIZE, size, offset)] == Chunk(ReadmeFile(version), offset, size)
    ensures dest[Clamped(README_SIZE, size, offset)..] == old(dest[Clamped(README_SIZE, size, offset)..])
  {
    if offset > README_SIZE {
      return;
    }
    var len := if (offset + size) % 0x1_0000_0000 > README_SIZE then README_SIZE - offset else size;
    var verS := Digits(version);
    var end := |verS|;
    var i := 0;
    while i < len
      invariant 0 <= i <= len
      invariant forall k | 0 <= k < i :: dest[k] == ReadmeFile(version)[offset + k]
      invariant forall k | i <= k < dest.Length :: dest[k] == old(dest[k])
    {
      dest[i] := ReadmeChar(version, verS, end, offset + i);
      i := i + 1;
    }
  }

  /** The loop body: the character at place p. */
  method ReadmeChar(version: nat, verS: string, end: nat, p: nat) returns (c: char)
    requires version < 10000000 && verS == Digits(version) && end == |verS| && p < README_SIZE
    ensures c == ReadmeFile(version)[p]
  {
    ReadmeAt(version, p);
    if p < |PREFIX| {
      c := PREFIX[p];
    } else {
      var cur := p - |PREFIX|;
      if cur < 1 + end {
        if cur == 1 {
          c := '.';
        } else if cur > 1 {
          c := verS[cur - 1];
        } else {
          c := verS[cur];
        }
      } else {
        c := ' ';
      }
    }
  }

  /** index_read_proc */
  method IndexReadProc(dest: array<char>, size: nat, offset: uint32, text: string)
    requires |text| <= INDEX_SIZE && size < 0x8000_0000 && dest.Length >= Clamped(INDEX_SIZE, size, offset)
    modifies dest
    ensures dest[..Clamped(INDEX_SIZE, size, offset)] == Chunk(IndexFile(text), offset, size)
    ensures dest[Clamped(INDEX_SIZE, size, offset)..] == old(dest[Clamped(INDEX_SIZE, size, offset)..])
  {
    if offset > INDEX_SIZE {
      return;
    }
    var len := if (offset + size) % 0x1_0000_0000 > INDEX_SIZE then INDEX_SIZE - offset else size;
    var i := 0;
    while i < len
      invariant 0 <= i <= len
      invariant forall k | 0 <= k < i :: dest[k] == IndexFile(text)[offset + k]
      invariant forall k | i <= k < dest.Length :: dest[k] == old(dest[k])
    {
      dest[i] := if offset + i < |text| then text[offset + i] else ' ';
      i := i + 1;
    }
  }

  /** test_read_proc: memcpy of the clamped range. */
  method TestReadProc(dest: array<char>, size: nat, offset: uint32, file: string)
    requires |file| == 1367 && size < 0x8000_0000 && dest.Length >= Clamped(TEST_SIZE, size, offset)
    modifies dest
    ensures dest[..Clamped(TEST_SIZE, size, offset)] == Chunk(file, offset, size)
    ensures dest[Clamped(TEST_SIZE, size, offset)..] == old(dest[Clamped(TEST_SIZE, size, offset)..])
  {
    if offset > TEST_SIZE {
      return;
    }
    var len := if (offset + size) % 0x1_0000_0000 > TEST_SIZE then TEST_SIZE - offset else size;
    forall i | 0 <= i < len {
      dest[i] := file[offset + i];
    }
  }
}
