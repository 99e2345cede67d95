/** Replacing a range of bytes inside the data records of an Intel HEX file. */
module IntelHexPatch {
  import opened Bytes
  import opened Wrappers
  import opened IntelHex

  predicate InTarget(at: int, address: nat, size: nat) {
    address <= at < address + size
  }

  /** The record with the bytes that lie in the target replaced. */
  function Overwritten(r: Record, base: nat, address: nat, bytes: seq<Byte>): Record {
    r.(data := OverwrittenData(r.data, base + r.address, address, bytes))
  }

  function OverwrittenData(data: seq<Byte>, at: nat, address: nat, bytes: seq<Byte>): (d: seq<Byte>)
    ensures |d| == |data|
  {
    seq(|data|, i requires 0 <= i < |data| =>
      if InTarget(at + i, address, |bytes|) then bytes[at + i - address] else data[i])
  }

  /** The addresses of consecutive bytes. */
  function Consecutive(at: nat, size: nat): (a: seq<nat>)
    ensures |a| == size && forall i | 0 <= i < size :: a[i] == at + i
  {
    if size == 0 then [] else Consecutive(at, size - 1) + [at + size - 1]
  }

  /** How many of the addresses lie in the target, counting repeated ones again. */
  function CountIn(addresses: seq<nat>, address: nat, size: nat): nat {
    if addresses == [] then 0
    else
      CountIn(addresses[..|addresses| - 1], address, size)
      + (if InTarget(addresses[|addresses| - 1], address, size) then 1 else 0)
  }

  /** How many of consecutive addresses lie in the target. */
  function Hits(at: nat, length: nat, address: nat, size: nat): nat {
    if length == 0 then 0
    else Hits(at, length - 1, address, size) + (if InTarget(at + length - 1, address, size) then 1 else 0)
  }

  lemma {:induction false} HitsAreCounted(at: nat, length: nat, address: nat, size: nat)
    ensures CountIn(Consecutive(at, length), address, size) == Hits(at, length, address, size)
  {
    if length > 0 {
      HitsAreCounted(at, length - 1, address, size);
      assert Consecutive(at, length)[..length - 1] == Consecutive(at, length - 1);
    }
  }

  lemma {:induction false} CountInBoth(a: seq<nat>, b: seq<nat>, address: nat, size: nat)
    ensures CountIn(a + b, address, size) == CountIn(a, address, size) + CountIn(b, address, size)
  {
    if b == [] {
      assert a + b == a;
    } else {
      CountInBoth(a, b[..|b| - 1], address, size);
      assert (a + b)[..|a + b| - 1] == a + b[..|b| - 1];
    }
  }

  lemma {:induction false} NoneCounted(data: seq<Byte>, at: nat, address: nat, bytes: seq<Byte>)
    requires Hits(at, |data|, address, |bytes|) == 0
    ensures OverwrittenData(data, at, address, bytes) == data
  {
    if data != [] {
      var n := |data| - 1;
      NoneCounted(data[..n], at, address, bytes);
      assert OverwrittenData(data, at, address, bytes)[..n] == OverwrittenData(data[..n], at, address, bytes);
    }
  }

  method Overwrite(record: Record, base: Word, address: Word, bytes: seq<Byte>, counted: nat)
    returns (overwritten: Record, replaced: nat, changed: bool)
    ensures overwritten == Overwritten(record, base, address, bytes)
    ensures replaced == counted + Hits(base + record.address, |record.data|, address, |bytes|)
    ensures changed <==> replaced > counted
  {
    var first := base + record.address;
    var data;
    data, replaced := OverwriteData(record.data, first, address, bytes);
    overwritten, changed, replaced := record.(data := data), replaced > 0, counted + replaced;
  }

  method OverwriteData(data: seq<Byte>, first: nat, address: nat, bytes: seq<Byte>) returns (result: seq<Byte>, replaced: nat)
    ensures result == OverwrittenData(data, first, address, bytes)
    ensures replaced == Hits(first, |data|, address, |bytes|)
  {
    result, replaced := data, 0;
    ghost var target := OverwrittenData(data, first, address, bytes);
    for index := 0 to |data|
      invariant |result| == |data|
      invariant forall k | 0 <= k < index :: result[k] == target[k]
      invariant forall k | index <= k < |data| :: result[k] == data[k]
      invariant replaced == Hits(first, index, address, |bytes|)
    {
      var at := first + index;
      assert target[index] == if InTarget(at, address, |bytes|) then bytes[at - address] else data[index];
      if at >= address && at < address + |bytes| {
        result := result[index := bytes[at - address]];
        replaced := replaced + 1;
      }
    }
    assert result == target;
  }

  // ----- lines

  function RecordAddresses(r: Record, base: Word): seq<nat> {
    if r.kind == KIND_DATA then Consecutive(base + r.address, |r.data|) else []
  }

  /** The addresses the data of a line is written to. */
  function LineAddresses(line: string, base: Word): seq<nat> {
    match Parsed(Trimmed(line))
    case Some(r) => RecordAddresses(r, base)
    case None => []
  }

  function Addresses(lines: seq<string>): seq<nat> {
    if lines == [] then []
    else
      var before := lines[..|lines| - 1];
      Addresses(before) + LineAddresses(lines[|lines| - 1], AfterLines(EMPTY, before).base)
  }

  predicate EndsWithReturn(line: string) {
    line != [] && line[|line| - 1] == '\r'
  }

  function PatchedRecord(line: string, r: Record, base: Word, address: nat, bytes: seq<Byte>): string
    requires |r.data| < 256
  {
    if CountIn(RecordAddresses(r, base), address, |bytes|) == 0 then line
    else Formatted(Overwritten(r, base, address, bytes)) + (if EndsWithReturn(line) then "\r" else "")
  }

  function PatchedLine(line: string, base: Word, address: nat, bytes: seq<Byte>): string {
    match Parsed(Trimmed(line))
    case Some(r) => ParsedIsShort(Trimmed(line)); PatchedRecord(line, r, base, address, bytes)
    case None => line
  }

  function PatchedLines(lines: seq<string>, address: nat, bytes: seq<Byte>): (patched: seq<string>)
    ensures |patched| == |lines|
  {
    if lines == [] then []
    else
      var before := lines[..|lines| - 1];
      PatchedLines(before, address, bytes)
      + [PatchedLine(lines[|lines| - 1], AfterLines(EMPTY, before).base, address, bytes)]
  }

  lemma {:induction false} PatchedAt(lines: seq<string>, address: nat, bytes: seq<Byte>, i: nat)
    requires i < |lines|
    ensures PatchedLines(lines, address, bytes)[i] == PatchedLine(lines[i], AfterLines(EMPTY, lines[..i]).base, address, bytes)
  {
    var before := lines[..|lines| - 1];
    if i < |before| {
      PatchedAt(before, address, bytes, i);
      assert before[..i] == lines[..i] && before[i] == lines[i];
    } else {
      assert before == lines[..i];
    }
  }

  method PatchHex(lines: array<string>, address: Word, bytes: seq<Byte>) returns (ok: bool)
    modifies lines
    ensures ok <==> AllParse(old(lines[..])) && CountIn(Addresses(old(lines[..])), address, |bytes|) == |bytes|
    ensures lines[..] == if ok then PatchedLines(old(lines[..]), address, bytes) else old(lines[..])
  {
    ghost var was := lines[..];
    ghost var target := PatchedLines(was, address, bytes);
    var patched := lines[..];
    var base: Word := 0;
    var replaced := 0;
    for i := 0 to lines.Length
      invariant |patched| == |was|
      invariant forall k | 0 <= k < |was| :: patched[k] == if k < i then target[k] else was[k]
      invariant base == AfterLines(EMPTY, was[..i]).base
      invariant replaced == CountIn(Addresses(was[..i]), address, |bytes|)
      invariant AllParse(was[..i]) && lines[..] == was
    {
      assert patched[i] == was[i];
      PatchOnwards(was, i, address, bytes);
      PatchedAt(was, address, bytes, i);
      var parsed, line, newBase, count := PatchOne(patched[i], base, address, bytes, replaced);
      if !parsed {
        return false;
      }
      base, replaced := newBase, count;
      patched := patched[i := line];
    }
    assert was[..|was|] == was;
    if replaced != |bytes| {
      return false;
    }
    assert patched == target;
    PutLines(lines, patched);
    return true;
  }

  method PutLines(lines: array<string>, patched: seq<string>)
    requires |patched| == lines.Length
    modifies lines
    ensures lines[..] == patched
  {
    forall i | 0 <= i < lines.Length {
      lines[i] := patched[i];
    }
  }

  /** One turn of the loop over the lines. */
  method PatchOne(line: string, base: Word, address: Word, bytes: seq<Byte>, counted: nat)
    returns (parsed: bool, patched: string, newBase: Word, replaced: nat)
    ensures parsed <==> LineParses(line)
    ensures parsed ==>
      && patched == PatchedLine(line, base, address, bytes)
      && newBase == AfterLine(Image(base, map[]), line).base
      && replaced == counted + CountIn(LineAddresses(line, base), address, |bytes|)
  {
    parsed, patched, newBase, replaced := true, line, base, counted;
    var trimmed := Trimmed(line);
    if trimmed == [] {
      return;
    }
    var record := ParseRecord(trimmed);
    if record.None? {
      parsed := false;
    } else if record.value.kind == KIND_EXTENDED_SEGMENT_ADDRESS || record.value.kind == KIND_EXTENDED_LINEAR_ADDRESS {
      newBase := BaseAddress(record.value);
    } else if record.value.kind == KIND_DATA {
      ParsedIsShort(trimmed);
      patched, replaced := PatchData(line, record.value, base, address, bytes, counted);
    }
  }

  method PatchData(line: string, r: Record, base: Word, address: Word, bytes: seq<Byte>, counted: nat)
    returns (patched: string, replaced: nat)
    requires |r.data| < 256 && r.kind == KIND_DATA
    ensures patched == PatchedRecord(line, r, base, address, bytes)
    ensures replaced == counted + CountIn(RecordAddresses(r, base), address, |bytes|)
  {
    patched := line;
    HitsAreCounted(base + r.address, |r.data|, address, |bytes|);
    var overwritten, count, changed := Overwrite(r, base, address, bytes, counted);
    replaced := count;
    if changed {
      var text := Format(overwritten);
      patched := text + (if EndsWithReturn(line) then "\r" else "");
    }
  }

  lemma {:induction false} BaseIgnoresMemory(image: Image, line: string)
    ensures AfterLine(image, line).base == AfterLine(Image(image.base, map[]), line).base
  {}

  lemma PatchOnwards(lines: seq<string>, i: nat, address: nat, bytes: seq<Byte>)
    requires i < |lines|
    ensures
      var base := AfterLines(EMPTY, lines[..i]).base;
      && AfterLines(EMPTY, lines[..i + 1]).base == AfterLine(Image(base, map[]), lines[i]).base
      && CountIn(Addresses(lines[..i + 1]), address, |bytes|)
         == CountIn(Addresses(lines[..i]), address, |bytes|) + CountIn(LineAddresses(lines[i], base), address, |bytes|)
  {
    assert lines[..i + 1][..i] == lines[..i];
    BaseIgnoresMemory(AfterLines(EMPTY, lines[..i]), lines[i]);
    CountInBoth(Addresses(lines[..i]), LineAddresses(lines[i], AfterLines(EMPTY, lines[..i]).base), address, |bytes|);
  }

  // ----- what patching does to the meaning

  /** The memory with the target replaced wherever it is present. */
  function Overlaid(memory: map<nat, Byte>, address: nat, bytes: seq<Byte>): (m: map<nat, Byte>)
    ensures m.Keys == memory.Keys
  {
    map k | k in memory :: if InTarget(k, address, |bytes|) then bytes[k - address] else memory[k]
  }

  lemma StoredOverwritten(memory: map<nat, Byte>, at: nat, data: seq<Byte>, address: nat, bytes: seq<Byte>)
    ensures Stored(Overlaid(memory, address, bytes), at, OverwrittenData(data, at, address, bytes))
         == Overlaid(Stored(memory, at, data), address, bytes)
  {
    var a := Stored(Overlaid(memory, address, bytes), at, OverwrittenData(data, at, address, bytes));
    var b := Overlaid(Stored(memory, at, data), address, bytes);
    forall k: nat
      ensures k in a <==> k in b
      ensures k in a ==> a[k] == b[k]
    {
      StoredAt(memory, at, data, k);
      StoredAt(Overlaid(memory, address, bytes), at, OverwrittenData(data, at, address, bytes), k);
    }
  }

  /** A patched line still parses, to the record with the target replaced. */
  lemma PatchedLineParses(line: string, base: Word, address: nat, bytes: seq<Byte>)
    requires LineParses(line)
    ensures LineParses(PatchedLine(line, base, address, bytes))
    ensures Parsed(Trimmed(line)).Some? ==>
      var r := Parsed(Trimmed(line)).value;
      Parsed(Trimmed(PatchedLine(line, base, address, bytes))) ==
      Some(if r.kind == KIND_DATA then Overwritten(r, base, address, bytes) else r)
    ensures Parsed(Trimmed(line)).None? ==> PatchedLine(line, base, address, bytes) == line
  {
    if Parsed(Trimmed(line)).Some? {
      var r := Parsed(Trimmed(line)).value;
      ParsedIsShort(Trimmed(line));
      HitsAreCounted(base + r.address, |r.data|, address, |bytes|);
      if CountIn(RecordAddresses(r, base), address, |bytes|) == 0 {
        if r.kind == KIND_DATA {
          NoneCounted(r.data, base + r.address, address, bytes);
        }
      } else {
        var r' := Overwritten(r, base, address, bytes);
        ParseInvertsFormat(r');
        TrimmedReturn(Formatted(r'));
        assert Formatted(r') + "" == Formatted(r');
      }
    }
  }

  function OverlaidImage(image: Image, address: nat, bytes: seq<Byte>): Image {
    Image(image.base, Overlaid(image.memory, address, bytes))
  }

  lemma PatchedRecordMeaning(image: Image, r: Record, address: nat, bytes: seq<Byte>)
    ensures AfterRecord(OverlaidImage(image, address, bytes), if r.kind == KIND_DATA then Overwritten(r, image.base, address, bytes) else r)
         == OverlaidImage(AfterRecord(image, r), address, bytes)
  {
    if r.kind == KIND_DATA {
      StoredOverwritten(image.memory, image.base + r.address, r.data, address, bytes);
    }
  }

  lemma PatchedLineMeaning(image: Image, line: string, address: nat, bytes: seq<Byte>)
    requires LineParses(line)
    ensures LineParses(PatchedLine(line, image.base, address, bytes))
    ensures AfterLine(OverlaidImage(image, address, bytes), PatchedLine(line, image.base, address, bytes))
         == OverlaidImage(AfterLine(image, line), address, bytes)
  {
    PatchedLineParses(line, image.base, address, bytes);
    var parsed := Parsed(Trimmed(line));
    if parsed.Some? {
      PatchedRecordMeaning(image, parsed.value, address, bytes);
    }
  }

  lemma AfterLast(image: Image, before: seq<string>, last: string)
    ensures AfterLines(image, before + [last]) == AfterLine(AfterLines(image, before), last)
  {
    assert (before + [last])[..|before|] == before;
  }

  /**
   Patching keeps every line a record and overwrites the memory the lines stand for on exactly the part of the
   target that is present, and nowhere else.
   */
  lemma {:induction false} PatchPreservesMeaning(lines: seq<string>, address: nat, bytes: seq<Byte>)
    requires AllParse(lines)
    ensures AllParse(PatchedLines(lines, address, bytes))
    ensures AfterLines(EMPTY, PatchedLines(lines, address, bytes)) == OverlaidImage(AfterLines(EMPTY, lines), address, bytes)
  {
    if lines == [] {
      assert Overlaid(map[], address, bytes) == map[];
    } else {
      var before, last := lines[..|lines| - 1], lines[|lines| - 1];
      var line := PatchedLine(last, AfterLines(EMPTY, before).base, address, bytes);
      PatchPreservesMeaning(before, address, bytes);
      PatchedLineMeaning(AfterLines(EMPTY, before), last, address, bytes);
      AfterLast(EMPTY, PatchedLines(before, address, bytes), line);
    }
  }

  // ----- when patching succeeds

  /** No address of the target is written twice. */
  predicate NoTargetRepeats(addresses: seq<nat>, address: nat, size: nat) {
    forall i, j | 0 <= i < j < |addresses| && addresses[i] == addresses[j] :: !InTarget(addresses[i], address, size)
  }

  function Found(addresses: seq<nat>, address: nat, size: nat): set<nat> {
    set k | k in addresses && InTarget(k, address, size)
  }

  lemma NoRepeatsOnwards(before: seq<nat>, last: nat, address: nat, size: nat)
    ensures NoTargetRepeats(before + [last], address, size)
       <==> NoTargetRepeats(before, address, size) && last !in Found(before, address, size)
  {
    var all := before + [last];
    if NoTargetRepeats(all, address, size) {
      forall i, j | 0 <= i < j < |before| && before[i] == before[j]
        ensures !InTarget(before[i], address, size)
      {
        assert all[i] == all[j];
      }
      forall i | 0 <= i < |before| && before[i] == last
        ensures !InTarget(last, address, size)
      {
        assert all[i] == all[|before|];
      }
    }
  }

  lemma FoundOnwards(before: seq<nat>, last: nat, address: nat, size: nat)
    ensures Found(before + [last], address, size)
         == Found(before, address, size) + if InTarget(last, address, size) then {last} else {}
  {
  }

  /** The counter is never less than the number of places that were found, and more exactly if one is written twice. */
  lemma {:induction false} CountsRepeats(addresses: seq<nat>, address: nat, size: nat)
    ensures |Found(addresses, address, size)| <= CountIn(addresses, address, size)
    ensures |Found(addresses, address, size)| == CountIn(addresses, address, size) <==> NoTargetRepeats(addresses, address, size)
  {
    if addresses != [] {
      var before, last := addresses[..|addresses| - 1], addresses[|addresses| - 1];
      CountsRepeats(before, address, size);
      assert addresses == before + [last];
      FoundOnwards(before, last, address, size);
      NoRepeatsOnwards(before, last, address, size);
      if last in Found(before, address, size) {
        assert Found(addresses, address, size) == Found(before, address, size);
      }
    }
  }

  function Target(address: nat, size: nat): (t: set<nat>)
    ensures forall k :: k in t <==> InTarget(k, address, size)
    ensures |t| == size
  {
    if size == 0 then {} else Target(address, size - 1) + {address + size - 1}
  }

  lemma SameSizeSubset(a: set<nat>, b: set<nat>)
    requires a <= b && |a| == |b|
    ensures a == b
  {
    assert b == a + (b - a);
    assert |b - a| == 0;
  }

  lemma LineKeys(image: Image, line: string, k: nat)
    ensures k in AfterLine(image, line).memory <==> k in image.memory || k in LineAddresses(line, image.base)
  {
    var parsed := Parsed(Trimmed(line));
    if parsed.Some? {
      var r := parsed.value;
      StoredAt(image.memory, image.base + r.address, r.data, k);
      ConsecutiveHas(image.base + r.address, |r.data|, k);
    }
  }

  /** The memory has a byte exactly where some data record writes one. */
  lemma {:induction false} WrittenKeys(lines: seq<string>, k: nat)
    ensures k in AfterLines(EMPTY, lines).memory <==> k in Addresses(lines)
  {
    if lines != [] {
      var before := lines[..|lines| - 1];
      WrittenKeys(before, k);
      LineKeys(AfterLines(EMPTY, before), lines[|lines| - 1], k);
    }
  }

  lemma ConsecutiveHas(at: nat, size: nat, k: nat)
    ensures k in Consecutive(at, size) <==> at <= k < at + size
  {
    if at <= k < at + size {
      assert Consecutive(at, size)[k - at] == k;
    }
  }

  /** Every byte of the target is there. */
  ghost predicate Covered(lines: seq<string>, address: nat, size: nat) {
    forall k: nat | InTarget(k, address, size) :: k in AfterLines(EMPTY, lines).memory
  }

  lemma AllFound(addresses: seq<nat>, address: nat, size: nat)
    ensures |Found(addresses, address, size)| <= size
    ensures |Found(addresses, address, size)| == size <==> forall k: nat | InTarget(k, address, size) :: k in addresses
  {
    var found, target := Found(addresses, address, size), Target(address, size);
    SubsetIsNotLarger(found, target);
    if |found| == size {
      SameSizeSubset(found, target);
    }
    if forall k: nat | InTarget(k, address, size) :: k in addresses {
      assert found == target;
    }
  }

  /** The whole target is there exactly if as many of its places were found as it has. */
  lemma CoveredIsFound(lines: seq<string>, address: nat, size: nat)
    ensures Covered(lines, address, size) <==> |Found(Addresses(lines), address, size)| == size
    ensures |Found(Addresses(lines), address, size)| <= size
  {
    AllFound(Addresses(lines), address, size);
    forall k: nat
      ensures k in AfterLines(EMPTY, lines).memory <==> k in Addresses(lines)
    {
      WrittenKeys(lines, k);
    }
  }

  lemma SubsetIsNotLarger(a: set<nat>, b: set<nat>)
    requires a <= b
    ensures |a| <= |b|
  {
    assert b == a + (b - a);
  }

  /**
   PatchHex succeeds if every line parses and the counter of replaced bytes is the size of the target. Of the counter,
   the target being there, and no address of it being written twice, any two imply the third: the counter is right for
   a target that is there, and a target is there for which the counter is reached, exactly if nothing repeats in it.
   */
  lemma CounterTellsCoverage(lines: seq<string>, address: nat, bytes: seq<Byte>)
    ensures CountIn(Addresses(lines), address, |bytes|) == |bytes| ==>
      (Covered(lines, address, |bytes|) <==> NoTargetRepeats(Addresses(lines), address, |bytes|))
    ensures Covered(lines, address, |bytes|) ==>
      (CountIn(Addresses(lines), address, |bytes|) == |bytes| <==> NoTargetRepeats(Addresses(lines), address, |bytes|))
    ensures NoTargetRepeats(Addresses(lines), address, |bytes|) ==>
      (CountIn(Addresses(lines), address, |bytes|) == |bytes| <==> Covered(lines, address, |bytes|))
  {
    CountsRepeats(Addresses(lines), address, |bytes|);
    CoveredIsFound(lines, address, |bytes|);
  }

  lemma AddressesOfLast(before: seq<string>, last: string)
    ensures Addresses(before + [last]) == Addresses(before) + LineAddresses(last, AfterLines(EMPTY, before).base)
  {
    assert (before + [last])[..|before|] == before;
  }

  /** A line that writes one byte at address 0. */
  lemma OneByteLine() returns (line: string)
    ensures LineParses(line) && LineAddresses(line, 0) == [0] && AfterLine(EMPTY, line).base == 0
  {
    var r := Record(0, KIND_DATA, [0]);
    line := Formatted(r);
    ParseInvertsFormat(r);
    TrimmedReturn(line);
    assert Consecutive(0, 1) == [0];
  }

  lemma AddressesTwice(line: string)
    requires LineAddresses(line, 0) == [0] && AfterLine(EMPTY, line).base == 0
    ensures Addresses([line] + [line]) == [0] + [0]
  {
    AfterLast(EMPTY, [], line);
    AddressesOfLast([], line);
    assert [] + [line] == [line];
    AddressesOfLast([line], line);
  }

  lemma CountOne(k: nat, size: nat)
    requires k < size
    ensures CountIn([k], 0, size) == 1
  {
    assert [k][..0] == [];
  }

  /** With a repeated address the counter is satisfied by a target of which half is missing. */
  lemma RepeatedAddressFoolsTheCounter() returns (lines: seq<string>)
    ensures AllParse(lines) && CountIn(Addresses(lines), 0, 2) == 2
    ensures 1 !in AfterLines(EMPTY, lines).memory
  {
    var line := OneByteLine();
    lines := [line] + [line];
    AddressesTwice(line);
    WrittenKeys(lines, 1);
    CountInBoth([0], [0], 0, 2);
    CountOne(0, 2);
  }

  /** With a repeated address a target that is there is refused. */
  lemma RepeatedAddressIsRefused() returns (lines: seq<string>)
    ensures AllParse(lines) && Covered(lines, 0, 1) && CountIn(Addresses(lines), 0, 1) == 2
  {
    var line := OneByteLine();
    lines := [line] + [line];
    AddressesTwice(line);
    WrittenKeys(lines, 0);
    CountInBoth([0], [0], 0, 1);
    CountOne(0, 1);
  }
}
