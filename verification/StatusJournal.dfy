/** The append-only status journal of the bootloader, and what it says after a power cut in any write. */
module StatusJournal {
  import opened Bytes
  import opened Flash
  import opened Wrappers

  const ENTRY_SIZE: nat := 16
  const VALID_MARKER: Word := 0x314a4d45
  const STATUS_EMPTY: Byte := 0xff

  /** An entry as it lies in flash: marker, status, three reserved bytes, error code, check. */
  type Entry = e: seq<Byte> | |e| == 16 witness seq(16, _ => 0xff)

  /** What the journal reports. */
  datatype Report = Report(status: Byte, errorCode: Word)

  const NOTHING: Report := Report(STATUS_EMPTY, 0)

  function Check(marker: Word, status: Byte, errorCode: Word): Word {
    NotWord(XorWord(XorWord(marker, status), errorCode))
  }

  function MakeStatusJournalEntry(r: Report): Entry {
    LittleEndian(VALID_MARKER, 4) + [r.status, 0xff, 0xff, 0xff] + LittleEndian(r.errorCode, 4)
    + LittleEndian(Check(VALID_MARKER, r.status, r.errorCode), 4)
  }

  predicate IsErasedEntry(e: Entry) {
    forall i | 0 <= i < |e| :: e[i] == ERASED
  }

  predicate IsValid(e: Entry) {
    ReadWord(e, 0) == VALID_MARKER && ReadWord(e, 12) == Check(ReadWord(e, 0), e[4], ReadWord(e, 8))
  }

  function ReportOf(e: Entry): Report {
    Report(e[4], ReadWord(e, 8))
  }

  /** An entry of which only the first bytes have been programmed. */
  function Torn(e: Entry, count: nat): Entry
    requires count <= ENTRY_SIZE
  {
    e[..count] + seq(ENTRY_SIZE - count, _ => ERASED)
  }

  // ----- one entry

  lemma WordRoundTrip(value: Word, bytes: seq<Byte>, offset: nat)
    requires offset + 4 <= |bytes| && bytes[offset..offset + 4] == LittleEndian(value, 4)
    ensures ReadWord(bytes, offset) == value
  {
    WordRange();
    LittleEndianRoundTrip(value, 4);
  }

  lemma EntryFields(r: Report)
    ensures var e := MakeStatusJournalEntry(r);
            && e[0..4] == LittleEndian(VALID_MARKER, 4) && e[4] == r.status && e[8..12] == LittleEndian(r.errorCode, 4)
            && e[12..16] == LittleEndian(Check(VALID_MARKER, r.status, r.errorCode), 4)
            && ReadWord(e, 0) == VALID_MARKER && ReadWord(e, 8) == r.errorCode
            && ReadWord(e, 12) == Check(VALID_MARKER, r.status, r.errorCode)
  {
    var e := MakeStatusJournalEntry(r);
    WordRoundTrip(VALID_MARKER, e, 0);
    WordRoundTrip(r.errorCode, e, 8);
    WordRoundTrip(Check(VALID_MARKER, r.status, r.errorCode), e, 12);
  }

  /** Each bit of the check is set exactly if an even number of those of marker, status and error code are. */
  lemma CheckBits(marker: Word, status: Byte, errorCode: Word, place: nat)
    requires place < 32
    ensures Bit(Check(marker, status, errorCode), place)
       <==> ((Bit(marker, place) != Bit(status, place)) == Bit(errorCode, place))
  {
    NotWordBits(XorWord(XorWord(marker, status), errorCode), place);
    XorWordBits(XorWord(marker, status), errorCode, place);
    XorWordBits(marker, status, place);
  }

  lemma XorTells(x: Word, x': Word, y: Word)
    requires XorWord(x, y) == XorWord(x', y)
    ensures x == x'
  {
    XorWordTwice(x, y);
    XorWordTwice(x', y);
  }

  /** The same check means the same status, and the same error code. */
  lemma CheckTells(marker: Word, r: Report, r': Report)
    requires Check(marker, r.status, r.errorCode) == Check(marker, r'.status, r'.errorCode)
    ensures r.status == r'.status <==> r.errorCode == r'.errorCode
  {
    if r.errorCode == r'.errorCode {
      XorTells(XorWord(marker, r.status), XorWord(marker, r'.status), r.errorCode);
      XorSymmetric(marker, r.status);
      XorSymmetric(marker, r'.status);
      XorTells(r.status, r'.status, marker);
    }
    if r.status == r'.status {
      XorSymmetric(XorWord(marker, r.status), r.errorCode);
      XorSymmetric(XorWord(marker, r.status), r'.errorCode);
      XorTells(r.errorCode, r'.errorCode, XorWord(marker, r.status));
    }
  }

  lemma {:induction false} XorCommutes(x: nat, y: nat, width: nat)
    ensures Xor(x, y, width) == Xor(y, x, width)
  {
    if width > 0 { XorCommutes(x / 2, y / 2, width - 1); }
  }

  lemma XorSymmetric(x: Word, y: Word)
    ensures XorWord(x, y) == XorWord(y, x)
  {
    XorCommutes(x, y, WORD_WIDTH);
  }

  /** An entry with another status, or with another error code, than the one its check was made for is not valid. */
  lemma ChangedEntryIsInvalid(r: Report, e: Entry)
    requires
      var whole := MakeStatusJournalEntry(r);
      e[0..4] == whole[0..4] && e[12..16] == whole[12..16] && (e[4] != r.status) != (e[8..12] != whole[8..12])
    ensures !IsValid(e)
  {
    EntryFields(r);
    WordRoundTrip(VALID_MARKER, e, 0);
    WordRoundTrip(Check(VALID_MARKER, r.status, r.errorCode), e, 12);
    if IsValid(e) {
      CheckTells(VALID_MARKER, r, ReportOf(e));
      FromLittleEndianInjective(e[8..12], MakeStatusJournalEntry(r)[8..12]);
    }
  }

  lemma MarkerBytes()
    ensures LittleEndian(VALID_MARKER, 4) == [0x45, 0x4d, 0x4a, 0x31]
  {}

  /** A whole entry is valid, does not look erased, and reports what it was made of. */
  lemma WholeEntry(r: Report)
    ensures IsValid(MakeStatusJournalEntry(r)) && ReportOf(MakeStatusJournalEntry(r)) == r
    ensures !IsErasedEntry(MakeStatusJournalEntry(r))
  {
    EntryFields(r);
    MarkerBytes();
    assert MakeStatusJournalEntry(r)[0..4][0] == MakeStatusJournalEntry(r)[0];
  }

  lemma StartedEntryIsNotErased(r: Report, count: nat)
    requires 0 < count <= ENTRY_SIZE
    ensures !IsErasedEntry(Torn(MakeStatusJournalEntry(r), count))
  {
    MarkerBytes();
    assert Torn(MakeStatusJournalEntry(r), count)[0] == 0x45;
  }

  lemma MarkerTop()
    ensures Upper(VALID_MARKER, 24) == 0x31
  {
    MarkerBytes();
    WordRange();
    LittleEndianRoundTrip(VALID_MARKER, 4);
    TopByte(LittleEndian(VALID_MARKER, 4));
  }

  lemma SmallTop(b: Byte)
    ensures Upper(b, 24) == 0
  {
    UpperByte(b, 0, 16);
    UpperOfZero(16);
  }

  /** While the error code is incomplete, an erased check cannot fit: the top bytes of marker and error code differ. */
  lemma ErasedCheckDoesNotFit(status: Byte, errorCode: Word)
    requires Upper(errorCode, 24) == 0xff
    ensures Check(VALID_MARKER, status, errorCode) != 0xffff_ffff
  {
    InnerTop(status);
    TopsDiffer(XorWord(VALID_MARKER, status), errorCode);
  }

  lemma InnerTop(status: Byte)
    ensures Upper(XorWord(VALID_MARKER, status), 24) == 0x31
  {
    MarkerTop();
    SmallTop(status);
    XorUpper(VALID_MARKER, status, WORD_WIDTH, 24);
    XorNothing(Upper(VALID_MARKER, 24));
  }

  lemma XorNothing(b: Byte)
    ensures Xor(b, 0, BYTE_WIDTH) == b
  {
    ByteRange();
    XorZero(b, BYTE_WIDTH);
  }

  lemma TopsDiffer(inner: Word, errorCode: Word)
    requires Upper(inner, 24) == 0x31 && Upper(errorCode, 24) == 0xff
    ensures NotWord(XorWord(inner, errorCode)) != 0xffff_ffff
  {
    UpperOfZero(24);
    XorUpper(inner, errorCode, WORD_WIDTH, 24);
    XorOfTops();
  }

  lemma XorOfTops()
    ensures Xor(0x31, 0xff, BYTE_WIDTH) != 0
  {
    ByteRange();
    XorOnes(0x31, BYTE_WIDTH);
  }

  lemma {:induction false} UpperOfZero(shift: nat)
    ensures Upper(0, shift) == 0
  {
    if shift > 0 { UpperOfZero(shift - 1); }
  }

  lemma TornMarkerIsInvalid(r: Report, count: nat)
    requires count < 4
    ensures !IsValid(Torn(MakeStatusJournalEntry(r), count))
  {
    var t := Torn(MakeStatusJournalEntry(r), count);
    assert t[0..4][3] == ERASED;
    TopByte(t[0..4]);
    MarkerTop();
  }

  lemma TornErrorCodeIsInvalid(r: Report, count: nat)
    requires 4 <= count < 12
    ensures !IsValid(Torn(MakeStatusJournalEntry(r), count))
  {
    var e := MakeStatusJournalEntry(r);
    var t := Torn(e, count);
    EntryFields(r);
    assert t[0..4] == e[0..4];
    TopByte(t[8..12]);
    assert t[8..12][3] == ERASED;
    ErasedWord(t[12..16]);
    ErasedCheckDoesNotFit(t[4], ReadWord(t, 8));
  }

  /** A torn entry is valid only if it is the whole entry, byte for byte. */
  lemma TornEntryIsInvalidOrWhole(r: Report, count: nat)
    requires count <= ENTRY_SIZE && IsValid(Torn(MakeStatusJournalEntry(r), count))
    ensures Torn(MakeStatusJournalEntry(r), count) == MakeStatusJournalEntry(r)
  {
    if count < 4 {
      TornMarkerIsInvalid(r, count);
    } else if count < 12 {
      TornErrorCodeIsInvalid(r, count);
    } else {
      TornCheckIsWhole(r, count);
    }
  }

  lemma TornCheckIsWhole(r: Report, count: nat)
    requires 12 <= count <= ENTRY_SIZE && IsValid(Torn(MakeStatusJournalEntry(r), count))
    ensures Torn(MakeStatusJournalEntry(r), count) == MakeStatusJournalEntry(r)
  {
    var e := MakeStatusJournalEntry(r);
    var t := Torn(e, count);
    EntryFields(r);
    assert t[0..4] == e[0..4] && t[8..12] == e[8..12] && t[4] == e[4];
    FromLittleEndianInjective(t[12..16], e[12..16]);
    assert t == t[0..12] + t[12..16] && e == e[0..12] + e[12..16];
  }

  lemma ErasedWord(bytes: seq<Byte>)
    requires |bytes| == 4 && forall i | 0 <= i < 4 :: bytes[i] == ERASED
    ensures FromLittleEndian(bytes) == 0xffff_ffff
  {
    assert bytes[1..][1..][1..][1..] == [];
    assert FromLittleEndian(bytes[1..][1..][1..]) == 0xff;
    assert FromLittleEndian(bytes[1..][1..]) == 0xffff;
    assert FromLittleEndian(bytes[1..]) == 0xff_ffff;
  }

  // ----- the journal as a sequence of entries

  function Capacity(m: Memory): nat {
    |m| / ENTRY_SIZE
  }

  function EntryAt(m: Memory, i: nat): Entry
    requires i < Capacity(m)
  {
    m[ENTRY_SIZE * i..ENTRY_SIZE * (i + 1)]
  }

  /** The first entry from i on that looks erased, or the end. */
  function Used(m: Memory, i: nat): (u: nat)
    requires i <= Capacity(m)
    ensures i <= u <= Capacity(m)
    ensures forall k | i <= k < u :: !IsErasedEntry(EntryAt(m, k))
    ensures u < Capacity(m) ==> IsErasedEntry(EntryAt(m, u))
    decreases Capacity(m) - i
  {
    if i == Capacity(m) || IsErasedEntry(EntryAt(m, i)) then i else Used(m, i + 1)
  }

  /** The last valid one among the first i entries. */
  function Latest(m: Memory, i: nat): (latest: Option<Entry>)
    requires i <= Capacity(m)
  {
    if i == 0 then None
    else if IsValid(EntryAt(m, i - 1)) then Some(EntryAt(m, i - 1))
    else Latest(m, i - 1)
  }

  function LatestIn(m: Memory): Option<Entry> {
    Latest(m, Used(m, 0))
  }

  function ReportIn(m: Memory): Report {
    match LatestIn(m)
    case Some(e) => ReportOf(e)
    case None => NOTHING
  }

  predicate HasRoom(m: Memory) {
    Used(m, 0) < Capacity(m)
  }

  predicate AlreadyRecorded(m: Memory, r: Report) {
    LatestIn(m).Some? && ReportOf(LatestIn(m).value) == r
  }

  /** The memory an entry is written to: erased entirely first if no erased entry remains. */
  function Base(m: Memory): Memory {
    if HasRoom(m) then m else Erased(m, 0, |m|)
  }

  function Place(m: Memory): nat {
    if HasRoom(m) then Used(m, 0) else 0
  }

  /** The memory when the first bytes of a new entry have been programmed. */
  function Written(m: Memory, r: Report, count: nat): Memory
    requires |m| >= ENTRY_SIZE && count <= ENTRY_SIZE
  {
    Programmed(Base(m), MakeStatusJournalEntry(r)[..count], ENTRY_SIZE * Place(m))
  }

  function Recorded(m: Memory, r: Report): Memory
    requires |m| >= ENTRY_SIZE
  {
    if AlreadyRecorded(m, r) then m else Written(m, r, ENTRY_SIZE)
  }

  /** No entry before this one is erased, and the latest valid one among them was found. */
  predicate Scanned(m: Memory, i: nat, latest: Option<Entry>) {
    i <= Capacity(m) && Used(m, 0) == Used(m, i) && latest == Latest(m, i)
  }

  lemma ScanStep(m: Memory, i: nat, latest: Option<Entry>, address: nat, entry: Entry)
    requires Scanned(m, i, latest) && address == ENTRY_SIZE * i && address + ENTRY_SIZE <= |m|
    requires entry == m[address..address + ENTRY_SIZE]
    ensures if IsErasedEntry(entry) then latest == LatestIn(m) && HasRoom(m) && Used(m, 0) == i
            else Scanned(m, i + 1, if IsValid(entry) then Some(entry) else latest)
  {
    assert i < Capacity(m) && EntryAt(m, i) == entry;
  }

  lemma ScanEnds(m: Memory, i: nat, latest: Option<Entry>)
    requires Scanned(m, i, latest) && ENTRY_SIZE * i + ENTRY_SIZE > |m|
    ensures latest == LatestIn(m) && !HasRoom(m)
  {
    assert i == Capacity(m);
  }

  class StatusJournal {
    const flash: SynchronousFlash

    constructor (flash: SynchronousFlash)
      ensures this.flash == flash
    {
      this.flash := flash;
    }

    method ReadEntry(address: nat) returns (entry: Entry)
      requires flash.Valid() && address + ENTRY_SIZE <= |flash.memory|
      ensures entry == flash.memory[address..address + ENTRY_SIZE]
    {
      entry := flash.ReadBuffer(address, ENTRY_SIZE);
    }

    /** One turn of the loop over the entries. */
    method ReadNext(address: nat, found: Option<Entry>, ghost i: nat) returns (erased: bool, latest: Option<Entry>)
      requires flash.Valid() && Scanned(flash.memory, i, found)
      requires address == ENTRY_SIZE * i && address + ENTRY_SIZE <= |flash.memory|
      ensures erased ==> latest == LatestIn(flash.memory) && HasRoom(flash.memory) && Used(flash.memory, 0) == i
      ensures !erased ==> Scanned(flash.memory, i + 1, latest)
    {
      var entry := ReadEntry(address);
      ScanStep(flash.memory, i, found, address, entry);
      erased := IsErasedEntry(entry);
      latest := if !erased && IsValid(entry) then Some(entry) else found;
    }

    method Read() returns (latest: Option<Entry>, firstErased: Option<nat>)
      requires flash.Valid()
      ensures latest == LatestIn(flash.memory)
      ensures firstErased == if HasRoom(flash.memory) then Some(ENTRY_SIZE * Used(flash.memory, 0)) else None
    {
      latest, firstErased := None, None;
      var address := 0;
      ghost var m, i := flash.memory, 0;
      while address + ENTRY_SIZE <= flash.TotalSize()
        invariant address == ENTRY_SIZE * i && Scanned(m, i, latest) && firstErased == None
        modifies {}
        decreases flash.TotalSize() - address
      {
        var erased;
        erased, latest := ReadNext(address, latest, i);
        if erased {
          firstErased := Some(address);
          return;
        }
        address := address + ENTRY_SIZE;
        i := i + 1;
      }
      ScanEnds(m, i, latest);
    }

    method Status() returns (status: Byte)
      requires flash.Valid()
      ensures status == ReportIn(flash.memory).status
    {
      var latest, _ := Read();
      status := if latest.Some? then latest.value[4] else STATUS_EMPTY;
    }

    method ErrorCode() returns (errorCode: Word)
      requires flash.Valid()
      ensures errorCode == ReportIn(flash.memory).errorCode
    {
      var latest, _ := Read();
      errorCode := if latest.Some? then ReadWord(latest.value, 8) else 0;
    }

    method Clear()
      requires flash.Valid()
      modifies flash`memory, flash`history
      ensures flash.Valid() && flash.memory == Erased(old(flash.memory), 0, |old(flash.memory)|)
      ensures flash.history == old(flash.history) + EraseStates(flash.sectorSizes, old(flash.memory), 0, |flash.sectorSizes|)
    {
      flash.EraseSectors(0, |flash.sectorSizes|);
    }

    /** Every write lands on erased bytes, and the states it goes through are those of one torn entry. */
    method Record(r: Report)
      requires flash.Valid() && |flash.memory| >= ENTRY_SIZE
      modifies flash
      ensures flash.Valid() && flash.memory == Recorded(old(flash.memory), r)
      ensures flash.clean == old(flash.clean)
      ensures !AlreadyRecorded(old(flash.memory), r) ==>
        flash.history == old(flash.history)
          + (if HasRoom(old(flash.memory)) then [] else EraseStates(flash.sectorSizes, old(flash.memory), 0, |flash.sectorSizes|))
          + ProgramStates(Base(old(flash.memory)), MakeStatusJournalEntry(r), ENTRY_SIZE * Place(old(flash.memory)))
      ensures AlreadyRecorded(old(flash.memory), r) ==> flash.history == old(flash.history)
    {
      var latest, address := Read();
      if latest.Some? && latest.value[4] == r.status && ReadWord(latest.value, 8) == r.errorCode {
        return;
      }
      var place := MakeRoom(address);
      WriteEntry(r, place, old(flash.memory));
    }

    method MakeRoom(address: Option<nat>) returns (place: nat)
      requires flash.Valid() && |flash.memory| >= ENTRY_SIZE
      requires address == if HasRoom(flash.memory) then Some(ENTRY_SIZE * Used(flash.memory, 0)) else None
      modifies flash`memory, flash`history
      ensures flash.Valid() && flash.memory == Base(old(flash.memory)) && place == ENTRY_SIZE * Place(old(flash.memory))
      ensures flash.history == old(flash.history)
        + if HasRoom(old(flash.memory)) then [] else EraseStates(flash.sectorSizes, old(flash.memory), 0, |flash.sectorSizes|)
    {
      if address.None? {
        Clear();
        place := 0;
      } else {
        place := address.value;
      }
    }

    /** Writes the entry at the place that is erased or was found erased. */
    method WriteEntry(r: Report, address: nat, ghost m: Memory)
      requires flash.Valid() && |m| >= ENTRY_SIZE && flash.memory == Base(m) && address == ENTRY_SIZE * Place(m)
      modifies flash
      ensures flash.Valid() && flash.memory == Written(m, r, ENTRY_SIZE) && flash.clean == old(flash.clean)
      ensures flash.history == old(flash.history) + ProgramStates(Base(m), MakeStatusJournalEntry(r), address)
    {
      var entry := MakeStatusJournalEntry(r);
      assert entry[..ENTRY_SIZE] == entry;
      ErasedPlace(m);
      flash.WriteBuffer(entry, address);
    }
  }

  lemma ErasedPlace(m: Memory)
    requires |m| >= ENTRY_SIZE
    ensures IsErased(Base(m), ENTRY_SIZE * Place(m), ENTRY_SIZE * Place(m) + ENTRY_SIZE)
  {
    var e := EntryAt(Base(m), Place(m));
    forall i | ENTRY_SIZE * Place(m) <= i < ENTRY_SIZE * Place(m) + ENTRY_SIZE
      ensures Base(m)[i] == ERASED
    {
      assert Base(m)[i] == e[i - ENTRY_SIZE * Place(m)];
    }
  }

  // ----- any sequence of records and power cuts

  /** A call of Record that completes, or one in which the power fails after some bytes of the entry. */
  datatype Event = Completes(report: Report) | Cut(report: Report, count: nat)

  predicate IsEvent(event: Event) {
    event.Cut? ==> event.count <= ENTRY_SIZE
  }

  function BytesWritten(event: Event): nat {
    if event.Cut? then event.count else ENTRY_SIZE
  }

  function AfterEvent(m: Memory, event: Event): Memory
    requires |m| >= ENTRY_SIZE && IsEvent(event)
  {
    if AlreadyRecorded(m, event.report) then m else Written(m, event.report, BytesWritten(event))
  }

  /** The states the flash goes through while Record programs its entry are exactly the cuts considered here. */
  lemma CutsAreProgramStates(m: Memory, r: Report, state: Memory)
    requires IsJournal(m) && !AlreadyRecorded(m, r)
    ensures state in ProgramStates(Base(m), MakeStatusJournalEntry(r), ENTRY_SIZE * Place(m))
       <==> exists count | 0 < count <= ENTRY_SIZE :: state == AfterEvent(m, Cut(r, count))
  {
    var e, at := MakeStatusJournalEntry(r), ENTRY_SIZE * Place(m);
    if state in ProgramStates(Base(m), e, at) {
      var count := ProgramStateIsPrefix(Base(m), e, at, state);
      assert state == AfterEvent(m, Cut(r, count));
    }
    forall count | 0 < count <= ENTRY_SIZE
      ensures AfterEvent(m, Cut(r, count)) in ProgramStates(Base(m), e, at)
    {
      PrefixIsProgramState(Base(m), e, at, count);
    }
  }

  function AfterEvents(m: Memory, events: seq<Event>): Memory
    requires |m| >= ENTRY_SIZE && forall event | event in events :: IsEvent(event)
    decreases |events|
  {
    if events == [] then m else
      AfterEvents(AfterEvent(m, events[0]), events[1..])
  }

  /** Nothing but erased entries after the first erased one. */
  predicate IsJournal(m: Memory) {
    |m| >= ENTRY_SIZE && forall i | Used(m, 0) <= i < Capacity(m) :: IsErasedEntry(EntryAt(m, i))
  }

  /** The entry cannot be told from the complete one. */
  predicate IsWhole(event: Event)
    requires IsEvent(event)
  {
    Torn(MakeStatusJournalEntry(event.report), BytesWritten(event)) == MakeStatusJournalEntry(event.report)
  }

  lemma BaseIsJournal(m: Memory)
    requires IsJournal(m)
    ensures |Base(m)| == |m| && IsJournal(Base(m)) && Used(Base(m), 0) == Place(m) < Capacity(m)
  {
    if !HasRoom(m) {
      assert IsErasedEntry(EntryAt(Base(m), 0));
    }
  }

  lemma SplicedEntry(base: Memory, m': Memory, place: nat, e: Entry, count: nat)
    requires place < Capacity(base) && count <= ENTRY_SIZE && IsErasedEntry(EntryAt(base, place))
    requires ENTRY_SIZE * place + count <= |base|
    requires m' == base[..ENTRY_SIZE * place] + e[..count] + base[ENTRY_SIZE * place + count..]
    ensures |m'| == |base| && EntryAt(m', place) == Torn(e, count)
    ensures forall i | 0 <= i < Capacity(base) && i != place :: EntryAt(m', i) == EntryAt(base, i)
  {
    var a := ENTRY_SIZE * place;
    forall k | 0 <= k < ENTRY_SIZE
      ensures EntryAt(m', place)[k] == Torn(e, count)[k]
    {
      assert EntryAt(base, place)[k] == base[a + k];
    }
    forall i | 0 <= i < Capacity(base) && i != place
      ensures EntryAt(m', i) == EntryAt(base, i)
    {
      assert ENTRY_SIZE * (i + 1) <= a || a + ENTRY_SIZE <= ENTRY_SIZE * i;
    }
  }

  lemma WrittenEntries(m: Memory, r: Report, count: nat)
    requires IsJournal(m) && count <= ENTRY_SIZE
    ensures |Written(m, r, count)| == |m| && IsJournal(Base(m)) && Used(Base(m), 0) == Place(m)
    ensures EntryAt(Written(m, r, count), Place(m)) == Torn(MakeStatusJournalEntry(r), count)
    ensures forall i | 0 <= i < Capacity(m) && i != Place(m) :: EntryAt(Written(m, r, count), i) == EntryAt(Base(m), i)
  {
    BaseIsJournal(m);
    WrittenIsSpliced(m, r, count);
    SplicedEntry(Base(m), Written(m, r, count), Place(m), MakeStatusJournalEntry(r), count);
  }

  lemma WrittenIsSpliced(m: Memory, r: Report, count: nat)
    requires |m| >= ENTRY_SIZE && count <= ENTRY_SIZE
    ensures var base, at := Base(m), ENTRY_SIZE * Place(m);
      at + count <= |base| && Written(m, r, count) == base[..at] + MakeStatusJournalEntry(r)[..count] + base[at + count..]
  {
    ErasedPlace(m);
    ProgrammingErasedStores(Base(m), MakeStatusJournalEntry(r)[..count], ENTRY_SIZE * Place(m));
  }

  lemma {:induction false} SameEntriesSameUse(m: Memory, m': Memory, i: nat, u: nat)
    requires |m'| == |m| && i <= u <= Capacity(m)
    requires forall k | i <= k < u :: EntryAt(m', k) == EntryAt(m, k) && !IsErasedEntry(EntryAt(m, k))
    ensures Used(m', i) == Used(m', u)
    decreases u - i
  {
    if i < u {
      SameEntriesSameUse(m, m', i + 1, u);
    }
  }

  lemma {:induction false} SameEntriesSameLatest(m: Memory, m': Memory, u: nat)
    requires |m'| == |m| && u <= Capacity(m)
    requires forall k | 0 <= k < u :: EntryAt(m', k) == EntryAt(m, k)
    ensures Latest(m', u) == Latest(m, u)
  {
    if u > 0 {
      SameEntriesSameLatest(m, m', u - 1);
    }
  }

  /** A partly written entry takes its place for good; it changes the report only if it is whole. */
  lemma WrittenJournal(m: Memory, event: Event)
    requires IsJournal(m) && IsEvent(event) && BytesWritten(event) > 0
    ensures IsJournal(Written(m, event.report, BytesWritten(event)))
    ensures Used(Written(m, event.report, BytesWritten(event)), 0) == Place(m) + 1
    ensures LatestIn(Written(m, event.report, BytesWritten(event))) ==
            if IsWhole(event) then Some(MakeStatusJournalEntry(event.report)) else Latest(Base(m), Place(m))
  {
    WrittenUse(m, event.report, BytesWritten(event));
    WrittenEntries(m, event.report, BytesWritten(event));
    SameEntriesSameLatest(Base(m), Written(m, event.report, BytesWritten(event)), Place(m));
    WholeEntry(event.report);
    if IsValid(Torn(MakeStatusJournalEntry(event.report), BytesWritten(event))) {
      TornEntryIsInvalidOrWhole(event.report, BytesWritten(event));
    }
  }

  /** The place of the entry is used from its first byte on, and no place behind it is. */
  lemma WrittenUse(m: Memory, r: Report, count: nat)
    requires IsJournal(m) && 0 < count <= ENTRY_SIZE
    ensures IsJournal(Written(m, r, count)) && Used(Written(m, r, count), 0) == Place(m) + 1
  {
    var m', u := Written(m, r, count), Place(m);
    WrittenEntries(m, r, count);
    StartedEntryIsNotErased(r, count);
    SameEntriesSameUse(Base(m), m', 0, u);
    assert Used(m', u) == Used(m', u + 1) == u + 1;
  }

  /** What one event does to the report of a journal. */
  lemma EventReport(m: Memory, event: Event)
    requires IsJournal(m) && IsEvent(event)
    ensures IsJournal(AfterEvent(m, event)) && |AfterEvent(m, event)| == |m|
    ensures ReportIn(AfterEvent(m, event)) ==
            if AlreadyRecorded(m, event.report) || IsWhole(event) then event.report
            else if HasRoom(m) then ReportIn(m)
            else NOTHING
  {
    if !AlreadyRecorded(m, event.report) {
      WrittenEntries(m, event.report, BytesWritten(event));
      WholeEntry(event.report);
      if BytesWritten(event) > 0 {
        WrittenJournal(m, event);
      } else {
        assert Written(m, event.report, 0) == Base(m);
        assert Torn(MakeStatusJournalEntry(event.report), 0)[0] == ERASED;
        MarkerBytes();
      }
    }
  }

  /** Every power cut of the run hits a record that finds an erased entry. */
  predicate CutsHaveRoom(m: Memory, events: seq<Event>)
    requires |m| >= ENTRY_SIZE && forall event | event in events :: IsEvent(event)
    decreases |events|
  {
    events != [] ==>
      && (events[0].Cut? ==> HasRoom(m))
      && CutsHaveRoom(AfterEvent(m, events[0]), events[1..])
  }

  /** The last record that completed or was cut only after its last distinguishable byte, told from the events alone. */
  function LastRecorded(events: seq<Event>, before: Report): Report
    requires forall event | event in events :: IsEvent(event)
    decreases |events|
  {
    if events == [] then before
    else LastRecorded(events[1..], if IsWhole(events[0]) then events[0].report else before)
  }

  lemma CompletedIsWhole(r: Report)
    ensures IsWhole(Completes(r))
  {
    assert MakeStatusJournalEntry(r)[..ENTRY_SIZE] == MakeStatusJournalEntry(r);
  }

  /**
   The main result: over any sequence of records and power cuts during the write of an entry into free space,
   the journal reports the last completed record, or a fully written interrupted one, and stays a journal.
   */
  lemma {:induction false} RunSafety(m: Memory, events: seq<Event>)
    requires IsJournal(m) && (forall event | event in events :: IsEvent(event)) && CutsHaveRoom(m, events)
    ensures IsJournal(AfterEvents(m, events))
    ensures ReportIn(AfterEvents(m, events)) == LastRecorded(events, ReportIn(m))
    decreases |events|
  {
    if events != [] {
      EventReport(m, events[0]);
      if events[0].Completes? {
        CompletedIsWhole(events[0].report);
      }
      RunSafety(AfterEvent(m, events[0]), events[1..]);
    }
  }

  /**
   Without room the journal is erased first, and a cut before the entry is whole loses the old report.  A cut
   record is atomic exactly if there is room, or nothing was missing from the entry, or the old or the new
   report is that of an empty journal.
   */
  lemma CutIsAtomicExactly(m: Memory, event: Event)
    requires IsJournal(m) && IsEvent(event) && event.Cut? && !AlreadyRecorded(m, event.report)
    ensures ReportIn(AfterEvent(m, event)) in {ReportIn(m), event.report}
       <==> HasRoom(m) || IsWhole(event) || NOTHING in {ReportIn(m), event.report}
  {
    EventReport(m, event);
  }

  lemma OneEntryJournal(r: Report)
    ensures var m: Memory := MakeStatusJournalEntry(r);
      IsJournal(m) && !HasRoom(m) && LatestIn(m) == Some(MakeStatusJournalEntry(r)) && ReportIn(m) == r
  {
    var m: Memory := MakeStatusJournalEntry(r);
    WholeEntry(r);
    assert EntryAt(m, 0) == m;
    assert Used(m, 1) == 1 && Latest(m, 1) == Some(m);
  }

  lemma OneByteIsTorn(r: Report)
    ensures Torn(MakeStatusJournalEntry(r), 1) != MakeStatusJournalEntry(r)
  {
    MarkerBytes();
    assert MakeStatusJournalEntry(r)[1] == 0x4d && Torn(MakeStatusJournalEntry(r), 1)[1] == ERASED;
  }

  /** A full journal, and a record that is cut after the first byte of its entry: neither report is left. */
  lemma CutInFullJournalLosesBoth() returns (m: Memory, event: Event)
    ensures IsJournal(m) && ReportIn(m) == Report(1, 7) && event == Cut(Report(2, 9), 1)
    ensures !AlreadyRecorded(m, event.report) && ReportIn(AfterEvent(m, event)) == NOTHING
  {
    m, event := MakeStatusJournalEntry(Report(1, 7)), Cut(Report(2, 9), 1);
    OneEntryJournal(Report(1, 7));
    OneByteIsTorn(event.report);
    EventReport(m, event);
  }
}
