/** Where the bytes of a file are, in numbers, and which texts are records. */
module IntelHexAddresses {
  import opened Bytes
  import opened Wrappers
  import opened IntelHex
  import opened IntelHexPatch
  import opened Sequences

  // ----- texts

  /** Digits are read in both cases, and nothing else is a digit. */
  lemma DigitsOfBothCases(c: char)
    ensures Digit(c) >= 0 <==> c in "0123456789ABCDEFabcdef"
    ensures Digit(c) >= 0 ==> c == "0123456789ABCDEF"[Digit(c)] || c == "0123456789abcdef"[Digit(c)]
  {
    if Digit(c) < 0 {
      var all := "0123456789ABCDEFabcdef";
      assert forall i | 0 <= i < |all| :: Digit(all[i]) >= 0;
    } else if Digit(c) < 10 {
      assert c == "0123456789ABCDEFabcdef"[Digit(c)];
    } else if c < 'a' {
      assert c == "0123456789ABCDEFabcdef"[Digit(c)];
    } else {
      assert c == "0123456789ABCDEFabcdef"[Digit(c) + 6];
    }
  }

  lemma LastSummand(bytes: seq<Byte>)
    requires bytes != [] && Sum(bytes) % 256 == 0
    ensures bytes[|bytes| - 1] == Checksum(bytes[..|bytes| - 1])
  {
    var sum, last := Sum(bytes[..|bytes| - 1]), bytes[|bytes| - 1];
    assert (sum + last) % 256 == 0;
    assert (sum % 256 + last) % 256 == 0;
  }

  lemma BodyOf(bytes: seq<Byte>, r: Record)
    requires RecordOf(bytes) == Some(r)
    ensures |r.data| < 256 && bytes == Body(r) + [Checksum(Body(r))]
  {
    var body := bytes[..|bytes| - 1];
    assert body == Body(r);
    LastSummand(bytes);
  }

  /** Formatting inverts parsing, so that no other text of capital digits than the formatted one is the record. */
  lemma FormatInvertsParse(bytes: seq<Byte>, r: Record)
    requires Parsed(":" + HexText(bytes)) == Some(r)
    ensures |r.data| < 256 && Formatted(r) == ":" + HexText(bytes)
  {
    BytesOfHexText(bytes, 0);
    assert bytes[0..] == bytes;
    BodyOf(bytes, r);
  }

  /** Any other last byte than the checksum makes a line of a file no record. */
  lemma OtherChecksumIsRefused(r: Record, c: Byte)
    requires |r.data| < 256
    ensures Parsed(":" + HexText(Body(r) + [c])).Some? <==> c == Checksum(Body(r))
  {
    var bytes := Body(r) + [c];
    BytesOfHexText(bytes, 0);
    assert bytes[0..] == bytes;
    OnlyChecksumFits(r, c);
  }

  lemma OnlyChecksumFits(r: Record, c: Byte)
    requires |r.data| < 256
    ensures RecordOf(Body(r) + [c]).Some? <==> c == Checksum(Body(r))
  {
    var bytes := Body(r) + [c];
    if RecordOf(bytes).Some? {
      LastSummand(bytes);
      assert bytes[..|bytes| - 1] == Body(r);
    }
    RecordOfBody(r);
  }

  lemma SumOnwards(bytes: seq<Byte>, n: nat, sum: nat)
    requires n < |bytes| && Sum(bytes[..n]) == sum
    ensures Sum(bytes[..n + 1]) == sum + bytes[n]
  {
    assert bytes[..n + 1][..n] == bytes[..n];
  }

  /** The digits of a byte in a text. */
  predicate ShowsByte(line: string, i: nat, byte: Byte)
    requires 2 * i + 2 < |line|
  {
    line[2 * i + 1] == "0123456789ABCDEF"[byte / 16] && line[2 * i + 2] == "0123456789ABCDEF"[byte % 16]
  }

  lemma ShownAt(line: string, bytes: seq<Byte>, i: nat)
    requires i < |bytes| && 2 * i + 2 < |line| && ShowsByte(line, i, bytes[i])
    ensures line[2 * i + 1] == HexText(bytes)[2 * i] && line[2 * i + 2] == HexText(bytes)[2 * i + 1]
  {
    HexTextAt(bytes, i);
  }

  predicate ShowsBytes(line: string, bytes: seq<Byte>) {
    && |line| == 2 * |bytes| + 1 && line[0] == ':'
    && forall i | 0 <= i < |bytes| :: ShowsByte(line, i, bytes[i])
  }

  lemma ShownText(line: string, bytes: seq<Byte>)
    requires ShowsBytes(line, bytes)
    ensures line == ":" + HexText(bytes)
  {
    var text := HexText(bytes);
    forall k | 0 < k < |line|
      ensures line[k] == text[k - 1]
    {
      ShownAt(line, bytes, (k - 1) / 2);
      assert k == 2 * ((k - 1) / 2) + 1 || k == 2 * ((k - 1) / 2) + 2;
    }
  }

  /** The text of a record shows its length, its address, its kind, its data and a byte that brings the sum to zero. */
  lemma ShownRecord(line: string, r: Record, bytes: seq<Byte>)
    requires |r.data| < 256 && |bytes| == |r.data| + 5 && Sum(bytes) % 256 == 0 && ShowsBytes(line, bytes)
    requires bytes[..4] == [|r.data|, r.address / 256, r.address % 256, r.kind] && bytes[4..|bytes| - 1] == r.data
    ensures Parsed(line) == Some(r) && Formatted(r) == line
  {
    assert bytes[..|bytes| - 1] == Body(r);
    LastSummand(bytes);
    ShownText(line, bytes);
    ParseInvertsFormat(r);
  }

  const LINEAR_ADDRESS: seq<Byte> := [2, 0, 0, 4, 8, 0, 0xf2]
  const THREE_BYTES: seq<Byte> := [3, 1, 0xfe, 0, 1, 0xa2, 0xff, 0x5c]

  lemma LinearAddressSum()
    ensures Sum(LINEAR_ADDRESS) == 256
  {
    SumOnwards(LINEAR_ADDRESS, 0, 0);
    SumOnwards(LINEAR_ADDRESS, 1, 2);
    SumOnwards(LINEAR_ADDRESS, 2, 2);
    SumOnwards(LINEAR_ADDRESS, 3, 2);
    SumOnwards(LINEAR_ADDRESS, 4, 6);
    SumOnwards(LINEAR_ADDRESS, 5, 14);
    SumOnwards(LINEAR_ADDRESS, 6, 14);
    assert LINEAR_ADDRESS[..7] == LINEAR_ADDRESS;
  }

  lemma ThreeBytesSum()
    ensures Sum(THREE_BYTES) == 768
  {
    SumOnwards(THREE_BYTES, 0, 0);
    SumOnwards(THREE_BYTES, 1, 3);
    SumOnwards(THREE_BYTES, 2, 4);
    SumOnwards(THREE_BYTES, 3, 258);
    SumOnwards(THREE_BYTES, 4, 258);
    SumOnwards(THREE_BYTES, 5, 259);
    SumOnwards(THREE_BYTES, 6, 421);
    SumOnwards(THREE_BYTES, 7, 676);
    assert THREE_BYTES[..8] == THREE_BYTES;
  }

  lemma LinearAddressText()
    ensures ShowsBytes(":020000040800F2", LINEAR_ADDRESS)
  {
    var line := ":020000040800F2";
    assert ShowsByte(line, 0, 2) && ShowsByte(line, 1, 0) && ShowsByte(line, 2, 0) && ShowsByte(line, 3, 4);
    assert ShowsByte(line, 4, 8) && ShowsByte(line, 5, 0) && ShowsByte(line, 6, 0xf2);
  }

  lemma ThreeBytesText()
    ensures ShowsBytes(":0301FE0001A2FF5C", THREE_BYTES)
  {
    var line := ":0301FE0001A2FF5C";
    assert ShowsByte(line, 0, 3) && ShowsByte(line, 1, 1) && ShowsByte(line, 2, 0xfe) && ShowsByte(line, 3, 0);
    assert ShowsByte(line, 4, 1) && ShowsByte(line, 5, 0xa2) && ShowsByte(line, 6, 0xff) && ShowsByte(line, 7, 0x5c);
  }

  /** A record that sets the upper half of the addresses to 0x0800. */
  lemma LinearAddressRecord()
    ensures Parsed(":020000040800F2") == Some(Record(0, 4, [8, 0]))
    ensures Formatted(Record(0, 4, [8, 0])) == ":020000040800F2"
  {
    LinearAddressSum();
    LinearAddressText();
    ShownRecord(":020000040800F2", Record(0, 4, [8, 0]), LINEAR_ADDRESS);
  }

  /** A data record: three bytes at 0x01fe. */
  lemma DataRecord()
    ensures Parsed(":0301FE0001A2FF5C") == Some(Record(0x1fe, 0, [0x01, 0xa2, 0xff]))
    ensures Formatted(Record(0x1fe, 0, [0x01, 0xa2, 0xff])) == ":0301FE0001A2FF5C"
  {
    ThreeBytesSum();
    ThreeBytesText();
    ShownRecord(":0301FE0001A2FF5C", Record(0x1fe, 0, [0x01, 0xa2, 0xff]), THREE_BYTES);
  }

  // ----- addresses

  predicate SetsBaseTo(r: Record, base: Word) {
    |r.data| < 256 && SetsBase(r) && BaseAddress(r) == base
  }

  /** A base of 16 times the two bytes, or of 65536 times the two bytes. */
  lemma BaseOf(kind: Byte, high: Byte, low: Byte, unused: HalfWord, base: Word)
    requires kind == 2 || kind == 4
    requires base == (high * 256 + low) * (if kind == 2 then 16 else 65536)
    ensures SetsBaseTo(Record(unused, kind, [high, low]), base)
  {
  }

  /** A record that sets the base, and a data record that is relative to it. */
  function Pair(first: Record, second: Record): (lines: seq<string>)
    requires |first.data| < 256 && |second.data| < 256
    ensures |lines| == 2
  {
    [Formatted(first), Formatted(second)]
  }

  lemma FormattedLine(image: Image, r: Record)
    requires |r.data| < 256
    ensures LineParses(Formatted(r)) && AfterLine(image, Formatted(r)) == AfterRecord(image, r)
    ensures LineAddresses(Formatted(r), image.base) == RecordAddresses(r, image.base)
  {
    ParseInvertsFormat(r);
    TrimmedReturn(Formatted(r));
  }

  lemma AfterTwo(image: Image, a: string, b: string)
    ensures AfterLines(image, [a, b]) == AfterLine(AfterLine(image, a), b)
  {
    AfterLast(image, [], a);
    AfterLast(image, [a], b);
    assert [] + [a] == [a] && [a] + [b] == [a, b];
  }

  lemma StoredByBoth(image: Image, first: Record, second: Record, base: Word)
    requires SetsBaseTo(first, base) && |second.data| < 256 && second.kind == 0
    ensures AfterLines(image, Pair(first, second)).memory == Stored(image.memory, base + second.address, second.data)
  {
    AfterTwo(image, Formatted(first), Formatted(second));
    SetsOnlyBase(image, first, base);
    StoresData(Image(base, image.memory), second);
  }

  lemma SetsOnlyBase(image: Image, first: Record, base: Word)
    requires SetsBaseTo(first, base)
    ensures AfterLine(image, Formatted(first)) == Image(base, image.memory)
  {
    FormattedLine(image, first);
  }

  lemma StoresData(image: Image, second: Record)
    requires |second.data| < 256 && second.kind == 0
    ensures AfterLine(image, Formatted(second)).memory == Stored(image.memory, image.base + second.address, second.data)
  {
    FormattedLine(image, second);
  }

  /**
   Behind any file, byte i of the data is at (high * 256 + low) * 65536 + offset + i after an extended linear address,
   at (high * 256 + low) * 16 + offset + i after an extended segment address, and everything else stays.
   */
  lemma DataIsAt(before: seq<string>, kind: Byte, high: Byte, low: Byte, unused: HalfWord, offset: HalfWord, data: seq<Byte>, k: nat)
    requires (kind == 2 || kind == 4) && |data| < 256
    ensures
      var lines := [Formatted(Record(unused, kind, [high, low])), Formatted(Record(offset, 0, data))];
      var at := (high * 256 + low) * (if kind == 2 then 16 else 65536) + offset;
      var was, now := AfterLines(EMPTY, before).memory, AfterLines(EMPTY, before + lines).memory;
      && (at <= k < at + |data| ==> k in now && now[k] == data[k - at])
      && (!(at <= k < at + |data|) ==> (k in now <==> k in was) && (k in now ==> now[k] == was[k]))
  {
    var first, second := Record(unused, kind, [high, low]), Record(offset, 0, data);
    var base: Word := (high * 256 + low) * (if kind == 2 then 16 else 65536);
    BaseOf(kind, high, low, unused, base);
    StoredBehind(before, first, second, base, k);
  }

  lemma StoredBehind(before: seq<string>, first: Record, second: Record, base: Word, k: nat)
    requires SetsBaseTo(first, base) && |second.data| < 256 && second.kind == 0
    ensures
      var at := base + second.address;
      var was, now := AfterLines(EMPTY, before).memory, AfterLines(EMPTY, before + Pair(first, second)).memory;
      && (at <= k < at + |second.data| ==> k in now && now[k] == second.data[k - at])
      && (!(at <= k < at + |second.data|) ==> (k in now <==> k in was) && (k in now ==> now[k] == was[k]))
  {
    AfterMoreLines(EMPTY, before, Pair(first, second));
    StoredByBoth(AfterLines(EMPTY, before), first, second, base);
    StoredAt(AfterLines(EMPTY, before).memory, base + second.address, second.data, k);
  }

  lemma OneLine(a: string)
    ensures Addresses([a]) == LineAddresses(a, 0) && AfterLines(EMPTY, [a]).base == AfterLine(EMPTY, a).base
  {
    AddressesOfLast([], a);
    AfterLast(EMPTY, [], a);
    assert [] + [a] == [a];
  }

  lemma TwoLines(lines: seq<string>, base: nat)
    requires |lines| == 2 && AfterLine(EMPTY, lines[0]).base == base
    ensures Addresses(lines) == LineAddresses(lines[0], 0) + LineAddresses(lines[1], base)
    ensures AfterLines(EMPTY, lines[..1]).base == base
  {
    assert lines[..1] == [lines[0]] && lines == lines[..1] + [lines[1]];
    OneLine(lines[0]);
    AddressesOfLast(lines[..1], lines[1]);
  }

  lemma LineSetsBase(first: Record, base: Word)
    requires SetsBaseTo(first, base)
    ensures var a := Formatted(first);
            LineParses(a) && LineAddresses(a, 0) == [] && AfterLine(EMPTY, a).base == base
  {
    FormattedLine(EMPTY, first);
  }

  lemma LineHasData(second: Record, base: Word)
    requires |second.data| < 256 && second.kind == 0
    ensures var b := Formatted(second);
            LineParses(b) && LineAddresses(b, base) == Consecutive(base + second.address, |second.data|)
  {
    FormattedLine(Image(base, map[]), second);
  }

  /** A file of one row of bytes. */
  ghost predicate IsRow(lines: seq<string>, base: nat, start: nat, length: nat) {
    && |lines| == 2 && AllParse(lines)
    && Addresses(lines) == Consecutive(start, length)
    && AfterLines(EMPTY, lines[..1]).base == base
  }

  lemma RowOfLines(lines: seq<string>, base: nat, start: nat, length: nat)
    requires |lines| == 2 && LineParses(lines[0]) && LineParses(lines[1])
    requires AfterLine(EMPTY, lines[0]).base == base && LineAddresses(lines[0], 0) == []
    requires LineAddresses(lines[1], base) == Consecutive(start, length)
    ensures IsRow(lines, base, start, length)
  {
    TwoLines(lines, base);
    assert [] + Consecutive(start, length) == Consecutive(start, length);
  }

  lemma AddressesOfTwo(first: Record, second: Record, base: Word)
    requires SetsBaseTo(first, base) && |second.data| < 256 && second.kind == 0
    ensures IsRow(Pair(first, second), base, base + second.address, |second.data|)
  {
    LineSetsBase(first, base);
    LineHasData(second, base);
    RowOfLines(Pair(first, second), base, base + second.address, |second.data|);
  }

  lemma CountInRow(start: nat, length: nat, address: nat, size: nat)
    requires size > 0
    ensures CountIn(Consecutive(start, length), address, size) == size
       <==> start <= address && address + size <= start + length
  {
    var row := Consecutive(start, length);
    CountsRepeats(row, address, size);
    assert NoTargetRepeats(row, address, size);
    AllFound(row, address, size);
    forall k: nat
      ensures k in row <==> start <= k < start + length
    {
      ConsecutiveHas(start, length, k);
    }
    assert InTarget(address, address, size) && InTarget(address + size - 1, address, size);
  }

  lemma ReplacedIsOverwritten(data: seq<Byte>, start: nat, address: nat, bytes: seq<Byte>)
    requires start <= address && address + |bytes| <= start + |data|
    ensures OverwrittenData(data, start, address, bytes) == Replaced(data, address - start, bytes)
  {
    forall k | 0 <= k < |data|
      ensures OverwrittenData(data, start, address, bytes)[k] == Replaced(data, address - start, bytes)[k]
    {
      ReplacedAt(data, address - start, bytes, k);
      assert InTarget(start + k, address, |bytes|) <==> address - start <= k < address - start + |bytes|;
    }
  }

  lemma PatchedFirst(r: Record, base: Word, address: nat, bytes: seq<Byte>)
    requires |r.data| < 256 && SetsBase(r)
    ensures PatchedLine(Formatted(r), base, address, bytes) == Formatted(r)
  {
    ParseInvertsFormat(r);
    TrimmedReturn(Formatted(r));
  }

  lemma PatchedFormatted(r: Record, base: Word, address: nat, bytes: seq<Byte>)
    requires |r.data| < 256 && CountIn(RecordAddresses(r, base), address, |bytes|) != 0
    ensures PatchedLine(Formatted(r), base, address, bytes) == Formatted(Overwritten(r, base, address, bytes))
  {
    var line, text := Formatted(r), Formatted(Overwritten(r, base, address, bytes));
    ParseInvertsFormat(r);
    TrimmedReturn(line);
    assert !EndsWithReturn(line);
    assert PatchedLine(line, base, address, bytes) == PatchedRecord(line, r, base, address, bytes);
    assert text + "" == text;
  }

  predicate IsInside(r: Record, base: Word, address: nat, size: nat) {
    base + r.address <= address && address + size <= base + r.address + |r.data|
  }

  /** The record with the bytes at their place. */
  function WithBytes(r: Record, base: Word, address: nat, bytes: seq<Byte>): (w: Record)
    requires IsInside(r, base, address, |bytes|)
    ensures |w.data| == |r.data|
  {
    r.(data := Replaced(r.data, address - base - r.address, bytes))
  }

  lemma PatchedSecond(r: Record, base: Word, address: nat, bytes: seq<Byte>)
    requires |r.data| < 256 && r.kind == 0 && bytes != [] && IsInside(r, base, address, |bytes|)
    ensures PatchedLine(Formatted(r), base, address, bytes) == Formatted(WithBytes(r, base, address, bytes))
  {
    CountInRow(base + r.address, |r.data|, address, |bytes|);
    PatchedFormatted(r, base, address, bytes);
    ReplacedIsOverwritten(r.data, base + r.address, address, bytes);
  }

  lemma PatchedTwo(first: Record, second: Record, base: Word, address: nat, bytes: seq<Byte>)
    requires SetsBaseTo(first, base) && |second.data| < 256 && second.kind == 0
    requires bytes != [] && IsInside(second, base, address, |bytes|)
    ensures PatchedLines(Pair(first, second), address, bytes) == Pair(first, WithBytes(second, base, address, bytes))
  {
    var lines := Pair(first, second);
    AddressesOfTwo(first, second, base);
    PatchedAt(lines, address, bytes, 0);
    PatchedAt(lines, address, bytes, 1);
    PatchedFirst(first, 0, address, bytes);
    PatchedSecond(second, base, address, bytes);
  }

  /** A file that has one row of bytes is patched if the range is a part of the row. */
  method PatchRow(lines: array<string>, ghost start: nat, ghost length: nat, ghost becomes: seq<string>, address: Word, bytes: seq<Byte>)
    returns (ok: bool)
    requires (exists base :: IsRow(lines[..], base, start, length)) && bytes != []
    requires start <= address && address + |bytes| <= start + length ==> PatchedLines(lines[..], address, bytes) == becomes
    modifies lines
    ensures ok <==> start <= address && address + |bytes| <= start + length
    ensures lines[..] == if ok then becomes else old(lines[..])
  {
    CountInRow(start, length, address, |bytes|);
    ok := PatchHex(lines, address, bytes);
  }

  method LinesOf(first: Record, second: Record) returns (lines: array<string>)
    requires |first.data| < 256 && |second.data| < 256
    ensures fresh(lines) && lines[..] == Pair(first, second)
  {
    var a := Format(first);
    var b := Format(second);
    lines := new string[2] [a, b];
  }

  method PatchRecords(first: Record, second: Record, ghost base: Word, address: Word, bytes: seq<Byte>)
    returns (ok: bool, patched: seq<string>)
    requires SetsBaseTo(first, base) && |second.data| < 256 && second.kind == 0 && bytes != []
    ensures ok <==> IsInside(second, base, address, |bytes|)
    ensures patched == Pair(first, if ok then WithBytes(second, base, address, bytes) else second)
  {
    var lines := LinesOf(first, second);
    ghost var becomes := WhatBecomes(first, second, base, address, bytes);
    ok := PatchRow(lines, base + second.address, |second.data|, becomes, address, bytes);
    patched := lines[..];
  }

  lemma WhatBecomes(first: Record, second: Record, base: Word, address: nat, bytes: seq<Byte>) returns (becomes: seq<string>)
    requires SetsBaseTo(first, base) && |second.data| < 256 && second.kind == 0 && bytes != []
    ensures IsRow(Pair(first, second), base, base + second.address, |second.data|)
    ensures IsInside(second, base, address, |bytes|) ==>
      PatchedLines(Pair(first, second), address, bytes) == becomes == Pair(first, WithBytes(second, base, address, bytes))
  {
    AddressesOfTwo(first, second, base);
    becomes := Pair(first, second);
    if IsInside(second, base, address, |bytes|) {
      PatchedTwo(first, second, base, address, bytes);
      becomes := Pair(first, WithBytes(second, base, address, bytes));
    }
  }

  lemma {:induction false} NoneInEmptyTarget(addresses: seq<nat>, address: nat)
    ensures CountIn(addresses, address, 0) == 0
  {
    if addresses != [] {
      NoneInEmptyTarget(addresses[..|addresses| - 1], address);
    }
  }

  lemma NothingToPatchInLine(line: string, base: Word, address: nat)
    ensures PatchedLine(line, base, address, []) == line
  {
    match Parsed(Trimmed(line))
    case Some(r) => NoneInEmptyTarget(RecordAddresses(r, base), address);
    case None =>
  }

  /** An empty range is in every file, and leaves it as it is. */
  lemma NothingToPatch(lines: seq<string>, address: nat)
    ensures CountIn(Addresses(lines), address, 0) == 0 && PatchedLines(lines, address, []) == lines
  {
    NoneInEmptyTarget(Addresses(lines), address);
    forall i | 0 <= i < |lines|
      ensures PatchedLines(lines, address, [])[i] == lines[i]
    {
      PatchedAt(lines, address, [], i);
      NothingToPatchInLine(lines[i], AfterLines(EMPTY, lines[..i]).base, address);
    }
  }

  method PatchNothing(first: Record, second: Record, ghost base: Word, address: Word) returns (ok: bool, patched: seq<string>)
    requires SetsBaseTo(first, base) && |second.data| < 256 && second.kind == 0
    ensures ok && patched == Pair(first, second)
  {
    var lines := LinesOf(first, second);
    AddressesOfTwo(first, second, base);
    NothingToPatch(lines[..], address);
    ok := PatchHex(lines, address, []);
    patched := lines[..];
  }

  /** Patching the bytes of a data record behind an address record: which ranges are there, and what the file says then. */
  method PatchTwoRecords(kind: Byte, high: Byte, low: Byte, unused: HalfWord, offset: HalfWord, data: seq<Byte>, address: Word, bytes: seq<Byte>)
    returns (ok: bool, patched: seq<string>)
    requires (kind == 2 || kind == 4) && |data| < 256
    ensures
      var start := (high * 256 + low) * (if kind == 2 then 16 else 65536) + offset;
      && (ok <==> bytes == [] || (start <= address && address + |bytes| <= start + |data|))
      && |patched| == 2
      && patched[0] == Formatted(Record(unused, kind, [high, low]))
      && patched[1] == Formatted(Record(offset, 0, if ok && bytes != [] then Replaced(data, address - start, bytes) else data))
  {
    ghost var base: Word := (high * 256 + low) * (if kind == 2 then 16 else 65536);
    BaseOf(kind, high, low, unused, base);
    if bytes == [] {
      ok, patched := PatchNothing(Record(unused, kind, [high, low]), Record(offset, 0, data), base, address);
    } else {
      ok, patched := PatchRecords(Record(unused, kind, [high, low]), Record(offset, 0, data), base, address, bytes);
    }
  }
}
