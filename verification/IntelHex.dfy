/**
 Records of the Intel HEX format (Hexadecimal Object File Format Specification, Revision A): parsing a line,
 formatting a record, and the memory a sequence of lines stands for.
 */
module IntelHex {
  import opened Bytes
  import opened Wrappers

  const KIND_DATA: Byte := 0
  const KIND_END_OF_FILE: Byte := 1
  const KIND_EXTENDED_SEGMENT_ADDRESS: Byte := 2
  const KIND_START_SEGMENT_ADDRESS: Byte := 3
  const KIND_EXTENDED_LINEAR_ADDRESS: Byte := 4
  const KIND_START_LINEAR_ADDRESS: Byte := 5

  /** The length of the shortest record, which is that of the end of a file. */
  const SHORTEST: nat := 11

  type HalfWord = w: int | 0 <= w < 0x1_0000

  datatype Record = Record(address: HalfWord, kind: Byte, data: seq<Byte>)

  // ----- lines

  predicate IsBlank(c: char) {
    c == ' ' || c == '\t' || c == '\r' || c == '\n'
  }

  function WithoutLeading(line: string): string {
    if line != [] && IsBlank(line[0]) then WithoutLeading(line[1..]) else line
  }

  function WithoutTrailing(line: string): string {
    if line != [] && IsBlank(line[|line| - 1]) then WithoutTrailing(line[..|line| - 1]) else line
  }

  function Trimmed(line: string): string {
    WithoutTrailing(WithoutLeading(line))
  }

  predicate IsTrimmed(line: string) {
    line != [] ==> !IsBlank(line[0]) && !IsBlank(line[|line| - 1])
  }

  lemma {:induction false} LeadingGone(line: string)
    ensures var t := WithoutLeading(line); t != [] ==> !IsBlank(t[0])
  {
    if line != [] && IsBlank(line[0]) { LeadingGone(line[1..]); }
  }

  lemma {:induction false} TrailingGone(line: string)
    ensures var t := WithoutTrailing(line);
            t <= line && (t != [] ==> !IsBlank(t[|t| - 1]))
  {
    if line != [] && IsBlank(line[|line| - 1]) { TrailingGone(line[..|line| - 1]); }
  }

  lemma TrimmedIsTrimmed(line: string)
    ensures IsTrimmed(Trimmed(line)) && Trimmed(Trimmed(line)) == Trimmed(line)
  {
    LeadingGone(line);
    TrailingGone(WithoutLeading(line));
  }

  /** Trimming undoes the addition of a carriage return. */
  lemma TrimmedReturn(line: string)
    requires line != [] && IsTrimmed(line)
    ensures Trimmed(line) == line && Trimmed(line + "\r") == line
  {
    assert (line + "\r")[..|line|] == line;
  }

  predicate IsRecord(line: string) {
    |line| >= SHORTEST && line[0] == ':'
  }

  // ----- hexadecimal digits

  function Digit(c: char): (d: int)
    ensures -1 <= d < 16
  {
    if '0' <= c <= '9' then c as int - '0' as int
    else if 'A' <= c <= 'F' then c as int - 'A' as int + 10
    else if 'a' <= c <= 'f' then c as int - 'a' as int + 10
    else -1
  }

  function Character(d: nat): (c: char)
    requires d < 16
    ensures Digit(c) == d && !IsBlank(c)
  {
    "0123456789ABCDEF"[d]
  }

  function ByteAt(line: string, index: nat): Option<Byte>
    requires 2 + 2 * index < |line|
  {
    var high, low := Digit(line[1 + 2 * index]), Digit(line[2 + 2 * index]);
    if high < 0 || low < 0 then None else Some(high * 16 + low)
  }

  /** The bytes of the digit pairs from the given index on. */
  function BytesFrom(line: string, index: nat): Option<seq<Byte>>
    requires index <= (|line| - 1) / 2
    decreases |line| - index
  {
    if index == (|line| - 1) / 2 then Some([])
    else
      match (ByteAt(line, index), BytesFrom(line, index + 1))
      case (Some(byte), Some(rest)) => Some([byte] + rest)
      case _ => None
  }

  function BytesOf(line: string): Option<seq<Byte>> {
    if !IsRecord(line) || |line| % 2 == 0 then None else BytesFrom(line, 0)
  }

  function Sum(bytes: seq<Byte>): nat {
    if bytes == [] then 0 else Sum(bytes[..|bytes| - 1]) + bytes[|bytes| - 1]
  }

  /** The record the bytes of a line make up, if their number and their sum are right. */
  function RecordOf(bytes: seq<Byte>): Option<Record> {
    if |bytes| < 5 || |bytes| != bytes[0] as int + 5 || Sum(bytes) % 256 != 0 then None
    else Some(Record(bytes[1] as int * 256 + bytes[2], bytes[3], bytes[4..|bytes| - 1]))
  }

  /** What a line says, if it is a record. */
  function Parsed(line: string): Option<Record> {
    match BytesOf(line)
    case Some(bytes) => RecordOf(bytes)
    case None => None
  }

  // ----- formatting

  /** The bytes of a record up to its checksum. */
  function Body(r: Record): seq<Byte>
    requires |r.data| < 256
  {
    [|r.data|, r.address / 256, r.address % 256, r.kind] + r.data
  }

  function Checksum(bytes: seq<Byte>): Byte {
    (0x100 - Sum(bytes) % 256) % 256
  }

  function HexText(bytes: seq<Byte>): (text: string)
    ensures |text| == 2 * |bytes|
  {
    if bytes == [] then ""
    else HexText(bytes[..|bytes| - 1]) + [Character(bytes[|bytes| - 1] / 16), Character(bytes[|bytes| - 1] % 16)]
  }

  function Formatted(r: Record): string
    requires |r.data| < 256
  {
    ":" + HexText(Body(r) + [Checksum(Body(r))])
  }

  lemma {:induction false} HexTextAt(bytes: seq<Byte>, i: nat)
    requires i < |bytes|
    ensures HexText(bytes)[2 * i] == Character(bytes[i] / 16) && HexText(bytes)[2 * i + 1] == Character(bytes[i] % 16)
  {
    if i < |bytes| - 1 { HexTextAt(bytes[..|bytes| - 1], i); }
  }

  lemma {:induction false} BytesOfHexText(bytes: seq<Byte>, index: nat)
    requires index <= |bytes|
    ensures BytesFrom(":" + HexText(bytes), index) == Some(bytes[index..])
    decreases |bytes| - index
  {
    var line := ":" + HexText(bytes);
    assert (|line| - 1) / 2 == |bytes|;
    if index == |bytes| {
      assert bytes[index..] == [];
    } else {
      HexTextAt(bytes, index);
      assert line[1 + 2 * index] == HexText(bytes)[2 * index] && line[2 + 2 * index] == HexText(bytes)[2 * index + 1];
      assert ByteAt(line, index) == Some(bytes[index]);
      BytesOfHexText(bytes, index + 1);
      assert bytes[index..] == [bytes[index]] + bytes[index + 1..];
    }
  }

  lemma ChecksumFits(body: seq<Byte>)
    ensures Sum(body + [Checksum(body)]) % 256 == 0
  {
    var c := Checksum(body);
    assert (body + [c])[..|body|] == body;
    assert Sum(body + [c]) == Sum(body) + c;
    assert (Sum(body) % 256 + c) % 256 == 0;
  }

  lemma RecordOfBody(r: Record)
    requires |r.data| < 256
    ensures RecordOf(Body(r) + [Checksum(Body(r))]) == Some(r)
  {
    var bytes := Body(r) + [Checksum(Body(r))];
    ChecksumFits(Body(r));
    assert bytes[4..|bytes| - 1] == r.data;
  }

  lemma TextIsTrimmed(bytes: seq<Byte>)
    requires bytes != []
    ensures IsTrimmed(":" + HexText(bytes))
  {
    HexTextAt(bytes, |bytes| - 1);
    assert (":" + HexText(bytes))[2 * |bytes|] == HexText(bytes)[2 * |bytes| - 1];
  }

  /** Parsing inverts formatting. */
  lemma ParseInvertsFormat(r: Record)
    requires |r.data| < 256
    ensures Parsed(Formatted(r)) == Some(r) && IsTrimmed(Formatted(r)) && Formatted(r) != []
  {
    var bytes := Body(r) + [Checksum(Body(r))];
    BytesOfHexText(bytes, 0);
    assert bytes[0..] == bytes;
    RecordOfBody(r);
    TextIsTrimmed(bytes);
  }

  lemma ParsedIsShort(line: string)
    requires Parsed(line).Some?
    ensures |Parsed(line).value.data| < 256 && IsRecord(line)
  {}

  // ----- the loops of the program

  function Prepended(bytes: seq<Byte>, rest: Option<seq<Byte>>): Option<seq<Byte>> {
    match rest
    case Some(r) => Some(bytes + r)
    case None => None
  }

  lemma PrependedOnwards(bytes: seq<Byte>, byte: Byte, rest: Option<seq<Byte>>)
    ensures Prepended(bytes + [byte], rest) == Prepended(bytes, Prepended([byte], rest))
    ensures Prepended([], rest) == rest
  {
    if rest.Some? {
      assert bytes + ([byte] + rest.value) == bytes + [byte] + rest.value;
      assert [] + rest.value == rest.value;
    }
  }

  method RecordBytes(line: string) returns (result: Option<seq<Byte>>)
    ensures result == BytesOf(line)
  {
    if !IsRecord(line) || |line| % 2 == 0 {
      return None;
    }
    var bytes: seq<Byte> := [];
    PrependedOnwards([], 0, BytesFrom(line, 0));
    for index := 0 to (|line| - 1) / 2
      invariant BytesFrom(line, 0) == Prepended(bytes, BytesFrom(line, index))
    {
      var byte := ByteAt(line, index);
      if byte.None? {
        return None;
      }
      PrependedOnwards(bytes, byte.value, BytesFrom(line, index + 1));
      bytes := bytes + [byte.value];
    }
    assert bytes + [] == bytes;
    return Some(bytes);
  }

  /** The checksum loops add in eight bits. */
  method SumOf(bytes: seq<Byte>) returns (sum: Byte)
    ensures sum == Sum(bytes) % 256
  {
    sum := 0;
    for i := 0 to |bytes|
      invariant sum == Sum(bytes[..i]) % 256
    {
      assert bytes[..i + 1][..i] == bytes[..i];
      sum := (sum + bytes[i]) % 256;
    }
    assert bytes[..|bytes|] == bytes;
  }

  method ParseRecord(line: string) returns (record: Option<Record>)
    ensures record == Parsed(line)
  {
    var bytes := RecordBytes(line);
    if bytes.None? || |bytes.value| != bytes.value[0] as int + 5 {
      return None;
    }
    var sum := SumOf(bytes.value);
    if sum != 0 {
      return None;
    }
    var b := bytes.value;
    return Some(Record(b[1] as int * 256 + b[2], b[3], b[4..|b| - 1]));
  }

  lemma TextOnwards(bytes: seq<Byte>, i: nat)
    requires i < |bytes|
    ensures ":" + HexText(bytes[..i]) + [Character(bytes[i] / 16), Character(bytes[i] % 16)] == ":" + HexText(bytes[..i + 1])
  {
    assert bytes[..i + 1][..i] == bytes[..i];
  }

  method Format(r: Record) returns (line: string)
    requires |r.data| < 256
    ensures line == Formatted(r)
  {
    var bytes: seq<Byte> := [|r.data|, r.address / 256, r.address % 256, r.kind];
    bytes := bytes + r.data;
    var sum := SumOf(bytes);
    bytes := bytes + [(0x100 - sum as int) % 256];
    line := ":";
    for i := 0 to |bytes|
      invariant line == ":" + HexText(bytes[..i])
    {
      TextOnwards(bytes, i);
      line := line + [Character(bytes[i] / 16), Character(bytes[i] % 16)];
    }
    assert bytes[..|bytes|] == bytes;
  }

  // ----- what lines mean

  /** A memory, and the address that following data records are relative to. */
  datatype Image = Image(base: Word, memory: map<nat, Byte>)

  const EMPTY: Image := Image(0, map[])

  function BaseAddress(r: Record): Word {
    if |r.data| != 2 then 0
    else
      var value := r.data[0] as int * 256 + r.data[1];
      if r.kind == KIND_EXTENDED_LINEAR_ADDRESS then value * 0x1_0000 else value * 0x10
  }

  predicate SetsBase(r: Record) {
    r.kind == KIND_EXTENDED_SEGMENT_ADDRESS || r.kind == KIND_EXTENDED_LINEAR_ADDRESS
  }

  /** The memory with consecutive bytes written from an address on. */
  function Stored(memory: map<nat, Byte>, at: nat, data: seq<Byte>): map<nat, Byte> {
    if data == [] then memory
    else Stored(memory, at, data[..|data| - 1])[at + |data| - 1 := data[|data| - 1]]
  }

  lemma {:induction false} StoredAt(memory: map<nat, Byte>, at: nat, data: seq<Byte>, k: nat)
    ensures k in Stored(memory, at, data) <==> at <= k < at + |data| || k in memory
    ensures at <= k < at + |data| ==> Stored(memory, at, data)[k] == data[k - at]
    ensures !(at <= k < at + |data|) && k in memory ==> Stored(memory, at, data)[k] == memory[k]
  {
    if data != [] { StoredAt(memory, at, data[..|data| - 1], k); }
  }

  lemma {:induction false} StoredOverlay(memory: map<nat, Byte>, at: nat, data: seq<Byte>)
    ensures Stored(memory, at, data) == memory + Stored(map[], at, data)
  {
    if data != [] { StoredOverlay(memory, at, data[..|data| - 1]); }
  }

  function AfterRecord(image: Image, r: Record): Image {
    if SetsBase(r) then Image(BaseAddress(r), image.memory)
    else if r.kind == KIND_DATA then Image(image.base, Stored(image.memory, image.base + r.address, r.data))
    else image
  }

  function AfterLine(image: Image, line: string): Image {
    match Parsed(Trimmed(line))
    case Some(r) => AfterRecord(image, r)
    case None => image
  }

  /** The effect of lines one after the other; the program pays no attention to an end of file among them. */
  function AfterLines(image: Image, lines: seq<string>): Image {
    if lines == [] then image
    else AfterLine(AfterLines(image, lines[..|lines| - 1]), lines[|lines| - 1])
  }

  predicate LineParses(line: string) {
    Trimmed(line) == [] || Parsed(Trimmed(line)).Some?
  }

  predicate AllParse(lines: seq<string>) {
    forall i | 0 <= i < |lines| :: LineParses(lines[i])
  }

  lemma {:induction false} AfterMoreLines(image: Image, a: seq<string>, b: seq<string>)
    ensures AfterLines(image, a + b) == AfterLines(AfterLines(image, a), b)
  {
    if b == [] {
      assert a + b == a;
    } else {
      AfterMoreLines(image, a, b[..|b| - 1]);
      assert (a + b)[..|a + b| - 1] == a + b[..|b| - 1];
    }
  }

  /** What was in memory before only shows where lines do not write. */
  lemma {:induction false} AfterLinesOverlay(image: Image, lines: seq<string>)
    ensures AfterLines(image, lines).base == AfterLines(Image(image.base, map[]), lines).base
    ensures AfterLines(image, lines).memory == image.memory + AfterLines(Image(image.base, map[]), lines).memory
  {
    if lines != [] {
      var before := AfterLines(image, lines[..|lines| - 1]);
      var before' := AfterLines(Image(image.base, map[]), lines[..|lines| - 1]);
      AfterLinesOverlay(image, lines[..|lines| - 1]);
      match Parsed(Trimmed(lines[|lines| - 1]))
      case Some(r) =>
        StoredOverlay(before.memory, before.base + r.address, r.data);
        StoredOverlay(before'.memory, before.base + r.address, r.data);
      case None =>
    }
  }
}
