/** Combining the Intel HEX files of a bootloader and an application into one. */
module IntelHexCombine {
  import opened Bytes
  import opened Wrappers
  import opened IntelHex

  const END_OF_FILE: string := ":00000001FF"
  const SEGMENT_FROM_ZERO: string := ":020000020000FC"
  const LINEAR_FROM_ZERO: string := ":020000040000FA"

  datatype Source = Bootloader | Application

  datatype CombineResult = Combined(lines: seq<string>) | CombineError(source: Source, line: nat)

  predicate IsStartAddress(kind: string) {
    kind == "03" || kind == "05"
  }

  function KindText(line: string): string
    requires IsRecord(line)
  {
    line[7..9]
  }

  predicate Keeps(line: string, keepStartAddress: bool)
    requires IsRecord(line)
  {
    !(KindText(line) == "01" || (IsStartAddress(KindText(line)) && !keepStartAddress))
  }

  predicate IsAcceptable(line: string) {
    Trimmed(line) == [] || IsRecord(Trimmed(line))
  }

  function KeptLine(line: string, keepStartAddress: bool): seq<string>
    requires IsAcceptable(line)
  {
    if Trimmed(line) != [] && Keeps(Trimmed(line), keepStartAddress) then [Trimmed(line)] else []
  }

  /** The records taken over from a file. */
  function Kept(lines: seq<string>, keepStartAddress: bool): seq<string>
    requires forall i | 0 <= i < |lines| :: IsAcceptable(lines[i])
  {
    if lines == [] then []
    else Kept(lines[..|lines| - 1], keepStartAddress) + KeptLine(lines[|lines| - 1], keepStartAddress)
  }

  /** The first line from i on that is neither blank nor a record. */
  function FirstStranger(lines: seq<string>, i: nat): (r: Option<nat>)
    requires i <= |lines|
    ensures r.None? ==> forall k | i <= k < |lines| :: IsAcceptable(lines[k])
    ensures r.Some? ==> i <= r.value < |lines| && !IsAcceptable(lines[r.value]) && forall k | i <= k < r.value :: IsAcceptable(lines[k])
    decreases |lines| - i
  {
    if i == |lines| then None
    else if !IsAcceptable(lines[i]) then Some(i)
    else FirstStranger(lines, i + 1)
  }

  method Append(combined: seq<string>, lines: seq<string>, keepStartAddress: bool) returns (result: seq<string>, error: Option<nat>)
    ensures error.None? <==> FirstStranger(lines, 0).None?
    ensures error.Some? ==> error.value == FirstStranger(lines, 0).value + 1
    ensures error.None? ==> result == combined + Kept(lines, keepStartAddress)
  {
    result := combined;
    for index := 0 to |lines|
      invariant FirstStranger(lines, 0) == FirstStranger(lines, index)
      invariant forall k | 0 <= k < index :: IsAcceptable(lines[k])
      invariant result == combined + Kept(lines[..index], keepStartAddress)
    {
      var line := Trimmed(lines[index]);
      if line != [] && !IsRecord(line) {
        return result, Some(index + 1);
      }
      KeptOnwards(combined, lines, index, keepStartAddress);
      if line != [] {
        var kind := KindText(line);
        if !(kind == "01" || (IsStartAddress(kind) && !keepStartAddress)) {
          result := result + [line];
        }
      }
    }
    assert lines[..|lines|] == lines;
    return result, None;
  }

  lemma KeptOnwards(combined: seq<string>, lines: seq<string>, i: nat, keepStartAddress: bool)
    requires i < |lines| && forall k | 0 <= k <= i :: IsAcceptable(lines[k])
    ensures combined + Kept(lines[..i + 1], keepStartAddress)
         == combined + Kept(lines[..i], keepStartAddress) + KeptLine(lines[i], keepStartAddress)
  {
    assert lines[..i + 1][..i] == lines[..i];
  }

  function CombinedLines(bootloader: seq<string>, application: seq<string>): seq<string>
    requires FirstStranger(bootloader, 0).None? && FirstStranger(application, 0).None?
  {
    Kept(bootloader, true) + [SEGMENT_FROM_ZERO, LINEAR_FROM_ZERO] + Kept(application, false) + [END_OF_FILE]
  }

  method Combine(bootloader: seq<string>, application: seq<string>) returns (result: CombineResult)
    ensures result ==
      if FirstStranger(bootloader, 0).Some? then CombineError(Bootloader, FirstStranger(bootloader, 0).value + 1)
      else if FirstStranger(application, 0).Some? then CombineError(Application, FirstStranger(application, 0).value + 1)
      else Combined(CombinedLines(bootloader, application))
  {
    var combined, error := Append([], bootloader, true);
    if error.Some? {
      return CombineError(Bootloader, error.value);
    }
    assert combined == Kept(bootloader, true);
    combined := combined + [SEGMENT_FROM_ZERO, LINEAR_FROM_ZERO];
    combined, error := Append(combined, application, false);
    if error.Some? {
      return CombineError(Application, error.value);
    }
    return Combined(combined + [END_OF_FILE]);
  }

  // ----- kinds of records in text and in number

  lemma {:induction false} ByteOfParsed(line: string, index: nat, i: nat)
    requires index <= i < (|line| - 1) / 2 && BytesFrom(line, index).Some?
    ensures |BytesFrom(line, index).value| == (|line| - 1) / 2 - index
    ensures ByteAt(line, i) == Some(BytesFrom(line, index).value[i - index])
    decreases i
  {
    BytesLength(line, index);
    if index < i {
      ByteOfParsedFrom(line, index, i);
    }
  }

  lemma {:induction false} BytesLength(line: string, index: nat)
    requires index <= (|line| - 1) / 2 && BytesFrom(line, index).Some?
    ensures |BytesFrom(line, index).value| == (|line| - 1) / 2 - index
    decreases |line| - index
  {
    if index < (|line| - 1) / 2 { BytesLength(line, index + 1); }
  }

  lemma {:induction false} ByteOfParsedFrom(line: string, index: nat, i: nat)
    requires index <= i < (|line| - 1) / 2 && BytesFrom(line, index).Some?
    requires |BytesFrom(line, index).value| == (|line| - 1) / 2 - index
    ensures ByteAt(line, i) == Some(BytesFrom(line, index).value[i - index])
    decreases i - index
  {
    if index < i {
      ByteOfParsedFrom(line, index + 1, i);
    }
  }

  /** For a line that parses, the two characters of the kind say which kind it is. */
  lemma KindIsText(line: string)
    requires Parsed(line).Some?
    ensures IsRecord(line)
    ensures KindText(line) == "01" <==> Parsed(line).value.kind == KIND_END_OF_FILE
    ensures KindText(line) == "03" <==> Parsed(line).value.kind == KIND_START_SEGMENT_ADDRESS
    ensures KindText(line) == "05" <==> Parsed(line).value.kind == KIND_START_LINEAR_ADDRESS
  {
    ByteOfParsed(line, 0, 3);
    assert line[7..9] == [line[7], line[8]];
  }

  /** Which records are taken over: not the ends of files, and start addresses only if so told. */
  lemma WhatIsKept(line: string, keepStartAddress: bool)
    requires Parsed(Trimmed(line)).Some?
    ensures IsAcceptable(line)
    ensures
      var kind := Parsed(Trimmed(line)).value.kind;
      KeptLine(line, keepStartAddress) ==
        if kind == 1 || (kind == 3 && !keepStartAddress) || (kind == 5 && !keepStartAddress) then [] else [Trimmed(line)]
  {
    KindIsText(Trimmed(line));
  }

  // ----- the meaning of the combination

  predicate IsStart(r: Record) {
    r.kind == KIND_START_SEGMENT_ADDRESS || r.kind == KIND_START_LINEAR_ADDRESS
  }

  /** The start addresses of a file, in order. */
  function StartRecords(lines: seq<string>): seq<Record> {
    if lines == [] then [] else StartRecords(lines[..|lines| - 1]) + StartRecordsIn(lines[|lines| - 1])
  }

  function StartRecordsIn(line: string): seq<Record> {
    match Parsed(Trimmed(line))
    case Some(r) => if IsStart(r) then [r] else []
    case None => []
  }

  predicate IsEnd(line: string) {
    Parsed(Trimmed(line)).Some? && Parsed(Trimmed(line)).value.kind == KIND_END_OF_FILE
  }

  predicate NoEnd(lines: seq<string>) {
    forall i | 0 <= i < |lines| :: !IsEnd(lines[i])
  }

  lemma ParsingIsAcceptable(lines: seq<string>)
    requires AllParse(lines)
    ensures forall i | 0 <= i < |lines| :: IsAcceptable(lines[i])
    ensures FirstStranger(lines, 0).None?
  {
    forall i | 0 <= i < |lines|
      ensures IsAcceptable(lines[i])
    {
      assert LineParses(lines[i]);
    }
  }

  lemma {:induction false} StartRecordsBoth(a: seq<string>, b: seq<string>)
    ensures StartRecords(a + b) == StartRecords(a) + StartRecords(b)
  {
    if b == [] {
      assert a + b == a;
    } else {
      StartRecordsBoth(a, b[..|b| - 1]);
      assert (a + b)[..|a + b| - 1] == a + b[..|b| - 1];
    }
  }

  /** What taking over one line does. */
  lemma KeptLineMeaning(image: Image, line: string, keep: bool)
    requires LineParses(line) && IsAcceptable(line)
    ensures AllParse(KeptLine(line, keep)) && NoEnd(KeptLine(line, keep))
    ensures AfterLines(image, KeptLine(line, keep)) == AfterLine(image, line)
    ensures StartRecords(KeptLine(line, keep)) == if keep then StartRecordsIn(line) else []
  {
    TrimmedIsTrimmed(line);
    var t := Trimmed(line);
    if t != [] {
      KindIsText(t);
      OneLine(image, t);
    }
  }

  /** Taking over a file keeps its meaning, drops its ends, and drops start addresses if so told. */
  lemma {:induction false} KeptMeaning(image: Image, lines: seq<string>, keep: bool)
    requires AllParse(lines) && forall i | 0 <= i < |lines| :: IsAcceptable(lines[i])
    ensures AllParse(Kept(lines, keep)) && NoEnd(Kept(lines, keep))
    ensures AfterLines(image, Kept(lines, keep)) == AfterLines(image, lines)
    ensures StartRecords(Kept(lines, keep)) == if keep then StartRecords(lines) else []
  {
    if lines != [] {
      var before, last := lines[..|lines| - 1], lines[|lines| - 1];
      KeptMeaning(image, before, keep);
      KeptLineMeaning(AfterLines(image, before), last, keep);
      AfterMoreLines(image, Kept(before, keep), KeptLine(last, keep));
      Joined(Kept(before, keep), KeptLine(last, keep));
      StartRecordsBoth(Kept(before, keep), KeptLine(last, keep));
    }
  }

  lemma LiteralRecord(r: Record, line: string)
    requires |r.data| < 256 && Formatted(r) == line
    ensures LineParses(line) && Parsed(Trimmed(line)) == Some(r)
  {
    ParseInvertsFormat(r);
    TrimmedReturn(line);
  }

  lemma EndOfFileText()
    ensures ":" + HexText([0, 0, 0, 1, 0xff]) == END_OF_FILE
  {
    TextOfList([0, 0, 0, 1, 0xff]);
  }

  lemma EndOfFileRecord()
    ensures LineParses(END_OF_FILE) && Parsed(Trimmed(END_OF_FILE)) == Some(Record(0, KIND_END_OF_FILE, []))
  {
    var r := Record(0, KIND_END_OF_FILE, []);
    SumOfList([0, 0, 0, 1]);
    EndOfFileText();
    assert Body(r) == [0, 0, 0, 1];
    assert Body(r) + [Checksum(Body(r))] == [0, 0, 0, 1, 0xff];
    LiteralRecord(r, END_OF_FILE);
  }

  lemma FromZeroText(kind: Byte, check: Byte)
    requires 0 < kind < 15 && check == 0xfe - kind
    ensures ":" + HexText([2, 0, 0, kind, 0, 0, check]) == ":0200000" + [Character(kind)] + "0000F" + [Character(check % 16)]
  {
    TextOfList([2, 0, 0, kind, 0, 0, check]);
    PairsOfFromZero(kind, check);
    PairsJoined([Character(kind)], [Character(check % 16)]);
  }

  lemma PairsJoined(k: string, c: string)
    ensures ":" + ("02" + "00" + "00" + ("0" + k) + "00" + "00" + ("F" + c)) == ":0200000" + k + "0000F" + c
  {
  }

  lemma PairsOfFromZero(kind: Byte, check: Byte)
    requires 0 < kind < 15 && check == 0xfe - kind
    ensures Pair(2) == "02" && Pair(0) == "00" && Pair(kind) == "0" + [Character(kind)] && Pair(check) == "F" + [Character(check % 16)]
  {
  }

  lemma FromZeroRecord(kind: Byte, check: Byte, line: string)
    requires 0 < kind < 15 && check == 0xfe - kind
    requires line == ":0200000" + [Character(kind)] + "0000F" + [Character(check % 16)]
    ensures LineParses(line) && Parsed(Trimmed(line)) == Some(Record(0, kind, [0, 0]))
  {
    var r := Record(0, kind, [0, 0]);
    FromZeroBytes(r, kind, check);
    FromZeroText(kind, check);
    LiteralRecord(r, line);
  }

  lemma FromZeroBytes(r: Record, kind: Byte, check: Byte)
    requires 0 < kind < 15 && check == 0xfe - kind && r == Record(0, kind, [0, 0])
    ensures Body(r) + [Checksum(Body(r))] == [2, 0, 0, kind, 0, 0, check]
  {
    SumOfList([2, 0, 0, kind, 0, 0]);
    assert Body(r) == [2, 0, 0, kind, 0, 0];
  }

  lemma SumOfList(b: seq<Byte>)
    requires |b| == 4 || |b| == 6
    ensures |b| == 4 ==> Sum(b) == b[0] as int + b[1] as int + b[2] as int + b[3] as int
    ensures |b| == 6 ==> Sum(b) == b[0] as int + b[1] as int + b[2] as int + b[3] as int + b[4] as int + b[5] as int
  {
    assert b[..1][..0] == [] && b[..2][..1] == b[..1] && b[..3][..2] == b[..2] && b[..4][..3] == b[..3];
    assert Sum(b[..1]) == Sum([]) + b[0];
    assert Sum(b[..2]) == Sum(b[..1]) + b[1];
    assert Sum(b[..3]) == Sum(b[..2]) + b[2];
    assert Sum(b[..4]) == Sum(b[..3]) + b[3];
    if |b| == 4 {
      assert b[..4] == b;
    } else {
      assert b[..5][..4] == b[..4] && b[..6][..5] == b[..5] && b[..6] == b;
      assert Sum(b[..5]) == Sum(b[..4]) + b[4];
    }
  }

  function Pair(b: Byte): string {
    [Character(b / 16), Character(b % 16)]
  }

  lemma TextOfList(b: seq<Byte>)
    requires |b| == 5 || |b| == 7
    ensures |b| == 5 ==> HexText(b) == Pair(b[0]) + Pair(b[1]) + Pair(b[2]) + Pair(b[3]) + Pair(b[4])
    ensures |b| == 7 ==> HexText(b) == Pair(b[0]) + Pair(b[1]) + Pair(b[2]) + Pair(b[3]) + Pair(b[4]) + Pair(b[5]) + Pair(b[6])
  {
    assert b[..1][..0] == [] && b[..2][..1] == b[..1] && b[..3][..2] == b[..2] && b[..4][..3] == b[..3] && b[..5][..4] == b[..4];
    assert HexText(b[..1]) == Pair(b[0]);
    assert HexText(b[..3]) == Pair(b[0]) + Pair(b[1]) + Pair(b[2]);
    assert HexText(b[..5]) == Pair(b[0]) + Pair(b[1]) + Pair(b[2]) + Pair(b[3]) + Pair(b[4]);
    if |b| == 5 {
      assert b[..5] == b;
    } else {
      assert b[..6][..5] == b[..5] && b[..7][..6] == b[..6] && b[..7] == b;
    }
  }

  lemma FromZeroRecords()
    ensures LineParses(SEGMENT_FROM_ZERO) && Parsed(Trimmed(SEGMENT_FROM_ZERO)) == Some(Record(0, KIND_EXTENDED_SEGMENT_ADDRESS, [0, 0]))
    ensures LineParses(LINEAR_FROM_ZERO) && Parsed(Trimmed(LINEAR_FROM_ZERO)) == Some(Record(0, KIND_EXTENDED_LINEAR_ADDRESS, [0, 0]))
  {
    SegmentFromZero();
    LinearFromZero();
  }

  lemma SegmentFromZero()
    ensures LineParses(SEGMENT_FROM_ZERO) && Parsed(Trimmed(SEGMENT_FROM_ZERO)) == Some(Record(0, KIND_EXTENDED_SEGMENT_ADDRESS, [0, 0]))
  {
    FromZeroRecord(2, 0xfc, SEGMENT_FROM_ZERO);
  }

  lemma LinearFromZero()
    ensures LineParses(LINEAR_FROM_ZERO) && Parsed(Trimmed(LINEAR_FROM_ZERO)) == Some(Record(0, KIND_EXTENDED_LINEAR_ADDRESS, [0, 0]))
  {
    FromZeroRecord(4, 0xfa, LINEAR_FROM_ZERO);
  }

  lemma OneLine(image: Image, line: string)
    ensures AfterLines(image, [line]) == AfterLine(image, line) && StartRecords([line]) == StartRecordsIn(line)
  {
    assert [line][..0] == [];
    assert AfterLines(image, [line]) == AfterLine(AfterLines(image, []), line);
    assert StartRecords([line]) == StartRecords([]) + StartRecordsIn(line);
  }

  /** The two address records bring the base back to 0, whatever it was. */
  lemma FromZeroMeaning(image: Image)
    ensures AfterLines(image, [SEGMENT_FROM_ZERO] + [LINEAR_FROM_ZERO]) == Image(0, image.memory)
    ensures StartRecords([SEGMENT_FROM_ZERO] + [LINEAR_FROM_ZERO]) == []
  {
    FromZeroRecords();
    ZeroBases(image, SEGMENT_FROM_ZERO, LINEAR_FROM_ZERO);
  }

  predicate SaysZero(line: string) {
    || Parsed(Trimmed(line)) == Some(Record(0, KIND_EXTENDED_SEGMENT_ADDRESS, [0, 0]))
    || Parsed(Trimmed(line)) == Some(Record(0, KIND_EXTENDED_LINEAR_ADDRESS, [0, 0]))
  }

  lemma ZeroBase(image: Image, line: string)
    requires SaysZero(line)
    ensures AfterLines(image, [line]) == Image(0, image.memory) && StartRecords([line]) == []
  {
    OneLine(image, line);
  }

  lemma ZeroBases(image: Image, a: string, b: string)
    requires SaysZero(a) && SaysZero(b)
    ensures AfterLines(image, [a] + [b]) == Image(0, image.memory) && StartRecords([a] + [b]) == []
  {
    AfterMoreLines(image, [a], [b]);
    ZeroBase(image, a);
    ZeroBase(Image(0, image.memory), b);
    StartRecordsBoth([a], [b]);
  }

  lemma EndMeaning(image: Image)
    ensures AfterLines(image, [END_OF_FILE]) == image && StartRecords([END_OF_FILE]) == []
  {
    EndOfFileRecord();
    OneLine(image, END_OF_FILE);
  }

  /**
   The main result: for files whose lines all parse, the combination stands for the memory of the bootloader
   overlaid by that of the application read from base 0, whatever base the bootloader ended on, and its start
   addresses are those of the bootloader.
   */
  lemma CombinePreservesMeaning(bootloader: seq<string>, application: seq<string>)
    requires AllParse(bootloader) && AllParse(application)
    ensures FirstStranger(bootloader, 0).None? && FirstStranger(application, 0).None?
    ensures AfterLines(EMPTY, CombinedLines(bootloader, application)).memory
         == AfterLines(EMPTY, bootloader).memory + AfterLines(EMPTY, application).memory
    ensures StartRecords(CombinedLines(bootloader, application)) == StartRecords(bootloader)
  {
    ParsingIsAcceptable(bootloader);
    ParsingIsAcceptable(application);
    var a, z, b, e := Kept(bootloader, true), [SEGMENT_FROM_ZERO] + [LINEAR_FROM_ZERO], Kept(application, false), [END_OF_FILE];
    assert z == [SEGMENT_FROM_ZERO, LINEAR_FROM_ZERO];
    var first := AfterLines(EMPTY, bootloader);
    var second := AfterLines(Image(0, first.memory), application);
    KeptMeaning(EMPTY, bootloader, true);
    FromZeroMeaning(first);
    KeptMeaning(Image(0, first.memory), application, false);
    EndMeaning(second);
    AfterMoreLines(EMPTY, a, z);
    AfterMoreLines(EMPTY, a + z, b);
    AfterMoreLines(EMPTY, a + z + b, e);
    AfterLinesOverlay(Image(0, first.memory), application);
    StartRecordsBoth(a, z);
    StartRecordsBoth(a + z, b);
    StartRecordsBoth(a + z + b, e);
  }

  lemma Joined(a: seq<string>, b: seq<string>)
    requires AllParse(a) && AllParse(b) && NoEnd(a) && NoEnd(b)
    ensures AllParse(a + b) && NoEnd(a + b)
  {}

  /** Every line of the combination parses, and the last one is the only end of file. */
  lemma CombineEndsOnce(bootloader: seq<string>, application: seq<string>)
    requires AllParse(bootloader) && AllParse(application)
    ensures FirstStranger(bootloader, 0).None? && FirstStranger(application, 0).None?
    ensures var lines := CombinedLines(bootloader, application);
      AllParse(lines) && forall i | 0 <= i < |lines| :: IsEnd(lines[i]) <==> i == |lines| - 1
  {
    ParsingIsAcceptable(bootloader);
    ParsingIsAcceptable(application);
    KeptMeaning(EMPTY, bootloader, true);
    KeptMeaning(EMPTY, application, false);
    FromZeroIsNoEnd();
    EndIsEnd();
    PartsEndOnce(Kept(bootloader, true), [SEGMENT_FROM_ZERO, LINEAR_FROM_ZERO], Kept(application, false), END_OF_FILE);
  }

  lemma FromZeroIsNoEnd()
    ensures AllParse([SEGMENT_FROM_ZERO, LINEAR_FROM_ZERO]) && NoEnd([SEGMENT_FROM_ZERO, LINEAR_FROM_ZERO])
  {
    FromZeroRecords();
    ZerosAreNoEnd(SEGMENT_FROM_ZERO, LINEAR_FROM_ZERO);
  }

  lemma ZerosAreNoEnd(a: string, b: string)
    requires SaysZero(a) && SaysZero(b)
    ensures AllParse([a, b]) && NoEnd([a, b])
  {
  }

  lemma EndIsEnd()
    ensures LineParses(END_OF_FILE) && IsEnd(END_OF_FILE)
  {
    EndOfFileRecord();
  }

  lemma PartsEndOnce(a: seq<string>, z: seq<string>, b: seq<string>, end: string)
    requires AllParse(a) && AllParse(z) && AllParse(b) && LineParses(end)
    requires NoEnd(a) && NoEnd(z) && NoEnd(b) && IsEnd(end)
    ensures var lines := a + z + b + [end];
      AllParse(lines) && forall i | 0 <= i < |lines| :: IsEnd(lines[i]) <==> i == |lines| - 1
  {
    Joined(a, z);
    Joined(a + z, b);
    EndLast(a + z + b, end);
  }

  lemma EndLast(lines: seq<string>, end: string)
    requires AllParse(lines) && NoEnd(lines) && LineParses(end) && IsEnd(end)
    ensures AllParse(lines + [end])
    ensures forall i | 0 <= i < |lines + [end]| :: IsEnd((lines + [end])[i]) <==> i == |lines + [end]| - 1
  {
  }
}
