/**
 * The driver of an EEPROM on an I2C bus: a state machine that is stepped by the results of bus transfers and by a
 * deadline, next to the device that takes what goes over the bus.
 */
module Eeprom24xx {
  import opened Arithmetic
  import opened Bytes
  import opened Copying
  import opened Sequences

  const BLOCK_SIZE := 256
  const MAX_PAGE_SIZE := 16
  const MAX_SIZE := 8 * BLOCK_SIZE
  const BLOCK_BITS := 3

  datatype Result = Complete | PartialComplete | BusError

  /** What is sent to the bus address of a device; the first byte is the word address. */
  datatype Frame = Frame(device: nat, bytes: seq<Byte>)

  // ---------------------------------------------------------------------------------------------------- the device

  /** The low three bits of the bus address select the block. */
  function Decode(device: nat, word: Byte): nat {
    device % 8 * BLOCK_SIZE + word
  }

  /** Writing goes on at the start of the page when it reaches the end of the page. */
  function Rolled(pageSize: nat, at: nat, k: nat): nat
    requires pageSize > 0
  {
    at - at % pageSize + (at % pageSize + k) % pageSize
  }

  /** The memory after the device took some bytes of a payload. */
  function DeviceWrite(memory: seq<Byte>, pageSize: nat, at: nat, payload: seq<Byte>, taken: nat): (r: seq<Byte>)
    requires pageSize > 0 && taken <= |payload|
    ensures |r| == |memory|
  {
    if taken == 0 then memory
    else
      var index := Rolled(pageSize, at, taken - 1);
      var last := DeviceWrite(memory, pageSize, at, payload, taken - 1);
      if index < |last| then last[index := payload[taken - 1]] else last
  }

  lemma NotRolled(pageSize: nat, at: nat, k: nat)
    requires pageSize > 0 && at % pageSize + k < pageSize
    ensures Rolled(pageSize, at, k) == at + k
  {
  }

  /** A payload that does not cross a page ends up where it is addressed to. */
  lemma {:induction false} WithinPage(memory: seq<Byte>, pageSize: nat, at: nat, payload: seq<Byte>, taken: nat)
    requires pageSize > 0 && taken <= |payload| && at + |payload| <= |memory|
    requires at % pageSize + |payload| <= pageSize
    ensures DeviceWrite(memory, pageSize, at, payload, taken) == Replaced(memory, at, payload[..taken])
  {
    if taken > 0 {
      WithinPage(memory, pageSize, at, payload, taken - 1);
      NotRolled(pageSize, at, taken - 1);
      ReplacedOnwards(memory, at, payload, taken - 1);
    }
  }

  lemma RolledOnce(pageSize: nat, at: nat, k: nat)
    requires k < pageSize
    ensures Rolled(pageSize, at, k) == if at % pageSize + k < pageSize then at + k else at + k - pageSize
  {
    var r := at % pageSize + k;
    if r < pageSize {
      Residue(r, pageSize, 0, r);
    } else {
      Residue(r, pageSize, 1, r - pageSize);
    }
  }

  /** A payload of no more than a page, at any address: what crosses the end of the page is at the start of that page. */
  lemma {:induction false} AcrossPage(memory: seq<Byte>, pageSize: nat, at: nat, payload: seq<Byte>, taken: nat, k: nat)
    requires k < taken <= |payload| <= pageSize && at - at % pageSize + pageSize <= |memory|
    ensures DeviceWrite(memory, pageSize, at, payload, taken)[Rolled(pageSize, at, k)] == payload[k]
    ensures at % pageSize + k >= pageSize ==> at - at % pageSize <= Rolled(pageSize, at, k) == at + k - pageSize < at
  {
    RolledOnce(pageSize, at, k);
    RolledOnce(pageSize, at, taken - 1);
    if k < taken - 1 {
      AcrossPage(memory, pageSize, at, payload, taken - 1, k);
    }
  }

  function DeviceAddress(deviceAddress: nat, address: nat): nat {
    Or(deviceAddress, address / BLOCK_SIZE)
  }

  /** The device finds the address that the driver means. */
  lemma AddressIsDecoded(deviceAddress: nat, address: nat)
    requires deviceAddress < 256 && deviceAddress % 8 == 0 && address < MAX_SIZE
    ensures DeviceAddress(deviceAddress, address) == deviceAddress + address / 256
    ensures Decode(DeviceAddress(deviceAddress, address), address % BLOCK_SIZE) == address
  {
    OrBlock(deviceAddress / 8, address / BLOCK_SIZE, BLOCK_BITS);
    DecodeBlock(deviceAddress / 8, address / BLOCK_SIZE, address % BLOCK_SIZE);
  }

  lemma DecodeBlock(q: nat, block: nat, low: Byte)
    requires block < 8
    ensures Decode(8 * q + block, low) == block * BLOCK_SIZE + low
  {
  }

  lemma OrBlock(q: nat, block: nat, bits: nat)
    requires bits == BLOCK_BITS && block < 8
    ensures Or(8 * q, block) == 8 * q + block
  {
    assert Power2(bits) == 8 by {
      assert Power2(0) == 1 && Power2(1) == 2 && Power2(2) == 4;
    }
    OrAbove(q, block, bits);
  }

  // ---------------------------------------------------------------------------------------------- what a write does

  function Repeated<T>(x: T, n: nat): (r: seq<T>)
    ensures |r| == n && forall i | 0 <= i < n :: r[i] == x
  {
    seq(n, _ => x)
  }

  /** Frames that each lie in one page, each start where the ones before them end, and together carry the data. */
  ghost predicate Tiling(pages: seq<Frame>, pageSize: nat, start: nat, data: seq<Byte>)
    requires pageSize > 0
    decreases |pages|
  {
    if pages == [] then data == []
    else
      var last := pages[|pages| - 1];
      var n := |last.bytes| - 1;
      && 0 < n <= |data| && n <= pageSize
      && last.bytes[1..] == data[|data| - n..]
      && Decode(last.device, last.bytes[0]) == start + |data| - n
      && (start + |data| - n) % pageSize + n <= pageSize
      && Tiling(pages[..|pages| - 1], pageSize, start, data[..|data| - n])
  }

  lemma TilingOnwards(pages: seq<Frame>, pageSize: nat, start: nat, data: seq<Byte>, page: Frame, payload: seq<Byte>)
    requires pageSize > 0 && Tiling(pages, pageSize, start, data)
    requires |page.bytes| > 1 && page.bytes[1..] == payload
    requires Decode(page.device, page.bytes[0]) == start + |data| && (start + |data|) % pageSize + |payload| <= pageSize
    ensures Tiling(pages + [page], pageSize, start, data + payload)
  {
    assert (pages + [page])[..|pages|] == pages;
    assert (data + payload)[..|data|] == data;
  }

  function Payloads(pages: seq<Frame>): seq<Byte> {
    if pages == [] then []
    else Payloads(pages[..|pages| - 1]) + if pages[|pages| - 1].bytes == [] then [] else pages[|pages| - 1].bytes[1..]
  }

  lemma {:induction false} TilesCarry(pages: seq<Frame>, pageSize: nat, start: nat, data: seq<Byte>)
    requires pageSize > 0 && Tiling(pages, pageSize, start, data)
    ensures Payloads(pages) == data
    decreases |pages|
  {
    if pages != [] {
      var n := |pages[|pages| - 1].bytes| - 1;
      TilesCarry(pages[..|pages| - 1], pageSize, start, data[..|data| - n]);
      assert data == data[..|data| - n] + data[|data| - n..];
    }
  }

  /** Every frame of a tiling goes to the device right behind the frames before it, and none crosses a page. */
  lemma {:induction false} TilesInOrder(pages: seq<Frame>, pageSize: nat, start: nat, data: seq<Byte>, i: nat)
    requires pageSize > 0 && Tiling(pages, pageSize, start, data) && i <= |pages|
    ensures Payloads(pages) == data
    ensures i < |pages| ==> FollowsUp(pages[i], pageSize, start + |Payloads(pages[..i])|)
    decreases |pages|
  {
    TilesCarry(pages, pageSize, start, data);
    if i < |pages| {
      var before := pages[..|pages| - 1];
      if i < |before| {
        TilesInOrder(before, pageSize, start, data[..|data| - (|pages[|pages| - 1].bytes| - 1)], i);
        assert pages[..i] == before[..i] && pages[i] == before[i];
      } else {
        LastFollowsUp(pages, pageSize, start, data);
        assert pages[..i] == before;
      }
    }
  }

  lemma LastFollowsUp(pages: seq<Frame>, pageSize: nat, start: nat, data: seq<Byte>)
    requires pageSize > 0 && Tiling(pages, pageSize, start, data) && pages != []
    ensures FollowsUp(pages[|pages| - 1], pageSize, start + |Payloads(pages[..|pages| - 1])|)
  {
    var n := |pages[|pages| - 1].bytes| - 1;
    TilesCarry(pages[..|pages| - 1], pageSize, start, data[..|data| - n]);
    SamePage(start + |data| - n, n, pageSize);
  }

  /** The frame is addressed to this place of the device, and its first and its last byte belong to the same page. */
  ghost predicate FollowsUp(page: Frame, pageSize: nat, at: nat)
    requires pageSize > 0
  {
    && |page.bytes| > 1 && Decode(page.device, page.bytes[0]) == at
    && at / pageSize == (at + |page.bytes| - 2) / pageSize
  }

  lemma SamePage(at: nat, n: nat, pageSize: nat)
    requires pageSize > 0 && n > 0 && at % pageSize + n <= pageSize
    ensures at / pageSize == (at + n - 1) / pageSize
  {
    Residue(at + n - 1, pageSize, at / pageSize, at % pageSize + n - 1);
  }

  function WordOf(page: Frame): Frame {
    Frame(page.device, if page.bytes == [] then [] else page.bytes[..1])
  }

  /**
   * What goes over the bus for pages: the frame of each page, again as long as it is not taken, and then polls with
   * its word address. Says whether the last page was polled yet.
   */
  ghost predicate Sends(sent: seq<Frame>, pages: seq<Frame>, polled: bool)
    decreases |sent|
  {
    if sent == [] || pages == [] then sent == [] && pages == [] && !polled
    else
      var before, page := sent[..|sent| - 1], pages[|pages| - 1];
      if polled then
        sent[|sent| - 1] == WordOf(page) && (Sends(before, pages, true) || Sends(before, pages, false))
      else
        && sent[|sent| - 1] == page
        && (Sends(before, pages, false)
            || Sends(before, pages[..|pages| - 1], true) || Sends(before, pages[..|pages| - 1], false))
  }

  lemma SendsPage(sent: seq<Frame>, pages: seq<Frame>, polled: bool, page: Frame)
    requires Sends(sent, pages, polled)
    ensures Sends(sent + [page], pages + [page], false)
  {
    assert (sent + [page])[..|sent|] == sent && (pages + [page])[..|pages|] == pages;
  }

  lemma SendsAgain(sent: seq<Frame>, pages: seq<Frame>, polled: bool)
    requires sent != [] && Sends(sent, pages, polled)
    ensures Sends(sent + [sent[|sent| - 1]], pages, polled)
  {
    assert (sent + [sent[|sent| - 1]])[..|sent|] == sent;
  }

  lemma SendsPoll(sent: seq<Frame>, pages: seq<Frame>)
    requires sent != [] && Sends(sent, pages, false)
    ensures Sends(sent + [WordOf(sent[|sent| - 1])], pages, true)
  {
    assert (sent + [WordOf(sent[|sent| - 1])])[..|sent|] == sent;
  }

  /** How often the frame of a page was sent, and how often the device was polled after that. */
  datatype Round = Round(sends: nat, polls: nat)

  /** Pages one after the other, each sent a number of times and then polled a number of times with its word address. */
  function Expanded(pages: seq<Frame>, rounds: seq<Round>): seq<Frame>
    requires |pages| == |rounds|
  {
    if pages == [] then []
    else
      var last := |pages| - 1;
      Expanded(pages[..last], rounds[..last]) + RoundOf(pages[last], rounds[last])
  }

  function RoundOf(page: Frame, round: Round): seq<Frame> {
    Repeated(page, round.sends) + Repeated(WordOf(page), round.polls)
  }

  /** The frames that were sent are those of the pages, each at least once and polled only behind that. */
  ghost predicate Expansion(sent: seq<Frame>, pages: seq<Frame>, rounds: seq<Round>, polled: bool) {
    && |rounds| == |pages| && sent == Expanded(pages, rounds)
    && (forall i | 0 <= i < |rounds| :: rounds[i].sends > 0)
    && (rounds != [] ==> (polled <==> rounds[|rounds| - 1].polls > 0))
  }

  lemma {:induction false} SendsIsExpanded(sent: seq<Frame>, pages: seq<Frame>, polled: bool) returns (rounds: seq<Round>)
    requires Sends(sent, pages, polled)
    ensures Expansion(sent, pages, rounds, polled)
    decreases |sent|
  {
    if sent == [] {
      return [];
    }
    var before, last := sent[..|sent| - 1], |pages| - 1;
    var sending, polling, next := SendsEnds(sent, pages, polled);
    if sending || polling {
      rounds := SendsIsExpanded(before, pages, polling);
      rounds := SentOnceMore(before, pages, rounds, polling, polled);
    } else {
      rounds := SendsIsExpanded(before, pages[..last], next);
      rounds := SentFirst(before, pages, rounds, next);
    }
  }

  /** What was done last: a frame again, a poll again, or the first frame of a page. */
  lemma SendsEnds(sent: seq<Frame>, pages: seq<Frame>, polled: bool) returns (sending: bool, polling: bool, next: bool)
    requires sent != [] && Sends(sent, pages, polled)
    ensures pages != [] && !(sending && polling) && (polling ==> polled)
    ensures sending || polling ==> Sends(sent[..|sent| - 1], pages, polling)
    ensures !(sending || polling) ==> !polled && Sends(sent[..|sent| - 1], pages[..|pages| - 1], next)
    ensures sent == sent[..|sent| - 1] + [if polled then WordOf(pages[|pages| - 1]) else pages[|pages| - 1]]
  {
    var before := sent[..|sent| - 1];
    polling := polled && Sends(before, pages, true);
    sending := !polling && Sends(before, pages, false);
    next := Sends(before, pages[..|pages| - 1], true);
  }

  lemma SentFirst(sent: seq<Frame>, pages: seq<Frame>, rounds: seq<Round>, polled: bool) returns (now: seq<Round>)
    requires pages != [] && Expansion(sent, pages[..|pages| - 1], rounds, polled)
    ensures Expansion(sent + [pages[|pages| - 1]], pages, now, false)
  {
    now := rounds + [Round(1, 0)];
    assert now[..|rounds|] == rounds;
    var page := pages[|rounds|];
    assert RoundOf(page, Round(1, 0)) == [page];
  }

  lemma SentOnceMore(sent: seq<Frame>, pages: seq<Frame>, rounds: seq<Round>, polled: bool, poll: bool) returns (now: seq<Round>)
    requires pages != [] && Expansion(sent, pages, rounds, polled) && (polled ==> poll)
    ensures Expansion(sent + [if poll then WordOf(pages[|pages| - 1]) else pages[|pages| - 1]], pages, now, poll)
  {
    var last := |pages| - 1;
    var page, round := pages[last], rounds[last];
    now := rounds[last := if poll then round.(polls := round.polls + 1) else round.(sends := round.sends + 1)];
    RepeatedOnceMore(page, round, poll);
    Reassociated(Expanded(pages[..last], rounds[..last]), RoundOf(page, round), [if poll then WordOf(page) else page]);
    assert now[..last] == rounds[..last];
  }

  lemma RepeatedOnceMore(page: Frame, round: Round, poll: bool)
    requires poll || round.polls == 0
    ensures RoundOf(page, if poll then round.(polls := round.polls + 1) else round.(sends := round.sends + 1))
         == RoundOf(page, round) + [if poll then WordOf(page) else page]
  {
  }

  /** Every page was sent, and in a tiling no frame of a page looks like a poll. */
  lemma PollsAreApart(pages: seq<Frame>, pageSize: nat, start: nat, data: seq<Byte>, i: nat, j: nat)
    requires pageSize > 0 && Tiling(pages, pageSize, start, data) && i < |pages| && j < |pages|
    ensures pages[i] != WordOf(pages[j])
  {
    PagesCarry(pages, pageSize, start, data, i);
    PagesCarry(pages, pageSize, start, data, j);
  }

  lemma {:induction false} PagesCarry(pages: seq<Frame>, pageSize: nat, start: nat, data: seq<Byte>, i: nat)
    requires pageSize > 0 && Tiling(pages, pageSize, start, data) && i < |pages|
    ensures |pages[i].bytes| > 1
    decreases |pages|
  {
    if i < |pages| - 1 {
      PagesCarry(pages[..|pages| - 1], pageSize, start, data[..|data| - (|pages[|pages| - 1].bytes| - 1)], i);
    }
  }

  /**
   * A write of data to an address: the memory before it and now, the frames that were sent, how much of the data
   * they cover, and for each byte that the driver is done with whether the device acknowledged it.
   */
  datatype Progress = Progress(before: seq<Byte>, memory: seq<Byte>, start: nat, data: seq<Byte>,
                               pages: seq<Frame>, covered: nat, acked: seq<bool>) {

    /** Each byte that was sent is old or new, and new where the device acknowledged it; everything else is old. */
    ghost predicate Valid(pageSize: nat) {
      Mixed() && pageSize > 0 && Tiling(pages, pageSize, start, data[..covered])
    }

    ghost predicate Mixed() {
      && |memory| == |before| && start + |data| <= |before|
      && |acked| <= covered <= |data|
      && (forall k | 0 <= k < start || start + covered <= k < |before| :: memory[k] == before[k])
      && (forall k | start <= k < start + covered :: memory[k] == before[k] || memory[k] == data[k - start])
      && (forall k | start <= k < start + |acked| && acked[k - start] :: memory[k] == data[k - start])
    }

    /** Whether the device has the bytes that the driver is waiting for. */
    ghost predicate Holds()
      requires Mixed()
    {
      forall k | start + |acked| <= k < start + covered :: memory[k] == data[k - start]
    }

    function Transferred(pageSize: nat, at: nat, payload: seq<Byte>, taken: nat): Progress
      requires pageSize > 0 && taken <= |payload|
    {
      this.(memory := DeviceWrite(memory, pageSize, at, payload, taken))
    }

    function Acknowledged(ack: bool): Progress
      requires |acked| <= covered
    {
      this.(acked := acked + Repeated(ack, covered - |acked|))
    }

    function Appended(page: Frame, n: nat): Progress {
      this.(pages := pages + [page], covered := covered + n)
    }

    /** A frame within a page is on the bus, and the device takes some of it. */
    lemma TransferIsValid(pageSize: nat, payload: seq<Byte>, taken: nat)
      requires Valid(pageSize) && payload == data[|acked|..covered] && taken <= |payload|
      requires (start + |acked|) % pageSize + |payload| <= pageSize
      ensures var now := Transferred(pageSize, start + |acked|, payload, taken);
        now.Valid(pageSize) && (taken == |payload| ==> now.Holds())
    {
      WithinPage(memory, pageSize, start + |acked|, payload, taken);
      ReplacedIsMixed(payload, taken);
    }

    lemma ReplacedIsMixed(payload: seq<Byte>, taken: nat)
      requires Mixed() && payload == data[|acked|..covered] && taken <= |payload|
      ensures var now := this.(memory := Replaced(memory, start + |acked|, payload[..taken]));
        now.Mixed() && (taken == |payload| ==> now.Holds())
    {
      var now := Replaced(memory, start + |acked|, payload[..taken]);
      forall k | 0 <= k < |memory|
        ensures now[k] == if start + |acked| <= k < start + |acked| + taken then data[k - start] else memory[k]
      {
        ReplacedByData(payload, taken, k);
      }
    }

    lemma ReplacedByData(payload: seq<Byte>, taken: nat, k: nat)
      requires |acked| <= covered <= |data| && start + |data| <= |memory|
      requires payload == data[|acked|..covered] && taken <= |payload| && k < |memory|
      ensures Replaced(memory, start + |acked|, payload[..taken])[k]
           == if start + |acked| <= k < start + |acked| + taken then data[k - start] else memory[k]
    {
      ReplacedAt(memory, start + |acked|, payload[..taken], k);
    }

    lemma AcknowledgedAt(ack: bool, k: nat)
      requires |acked| <= covered && k < covered
      ensures |Acknowledged(ack).acked| == covered && Acknowledged(ack).acked[k] == if k < |acked| then acked[k] else ack
    {
    }

    lemma AcknowledgeIsMixed(ack: bool)
      requires Mixed() && (ack ==> Holds())
      ensures Acknowledged(ack).Mixed()
    {
      var now := Acknowledged(ack);
      forall k | start <= k < start + |now.acked| && now.acked[k - start]
        ensures memory[k] == data[k - start]
      {
        AcknowledgedAt(ack, k - start);
      }
    }

    lemma AcknowledgeIsValid(pageSize: nat, ack: bool)
      requires Valid(pageSize) && (ack ==> Holds())
      ensures Acknowledged(ack).Valid(pageSize)
    {
      AcknowledgeIsMixed(ack);
    }

    lemma AppendIsValid(pageSize: nat, page: Frame, n: nat)
      requires Valid(pageSize) && 0 < n && covered + n <= |data| && (start + covered) % pageSize + n <= pageSize
      requires |page.bytes| == n + 1 && page.bytes[1..] == data[covered..covered + n]
      requires Decode(page.device, page.bytes[0]) == start + covered
      ensures Appended(page, n).Valid(pageSize)
    {
      AppendIsMixed(page, n);
      AppendIsTiling(pageSize, page, data[covered..covered + n]);
      Joined(data, 0, covered, covered + n);
    }

    lemma AppendIsMixed(page: Frame, n: nat)
      requires Mixed() && covered + n <= |data|
      ensures Appended(page, n).Mixed()
    {
    }

    lemma AppendIsTiling(pageSize: nat, page: Frame, payload: seq<Byte>)
      requires Valid(pageSize) && payload != [] && (start + covered) % pageSize + |payload| <= pageSize
      requires page.bytes != [] && page.bytes[1..] == payload && Decode(page.device, page.bytes[0]) == start + covered
      ensures Tiling(pages + [page], pageSize, start, data[..covered] + payload)
    {
      TilingOnwards(pages, pageSize, start, data[..covered], page, payload);
    }

    /** If every page was acknowledged, the memory is the old one with the data in place. */
    lemma AllWritten(pageSize: nat)
      requires Valid(pageSize) && |acked| == |data| && forall k | 0 <= k < |acked| :: acked[k]
      ensures memory == Replaced(before, start, data)
    {
      forall k | 0 <= k < |memory|
        ensures memory[k] == Replaced(before, start, data)[k]
      {
        ReplacedAt(before, start, data, k);
        if start <= k < start + |data| {
          assert acked[k - start];
        }
      }
    }
  }

  /** Nothing was sent yet. */
  lemma FirstIsValid(memory: seq<Byte>, start: nat, data: seq<Byte>, pageSize: nat)
    requires start + |data| <= |memory| && pageSize > 0
    ensures Progress(memory, memory, start, data, [], 0, []).Valid(pageSize)
  {
  }

  // ------------------------------------------------------------------------------------------------------ the driver

  /** The callback that the driver waits for. */
  datatype Waiting = Nothing | PageResult | PollResult | WordAddressResult | ReadResult | WriteFinish | ReadFinish

  class Eeprom24xx {
    const deviceAddress: Byte
    const size: nat
    const pageSize: nat
    const frame: array<Byte>
    var source: seq<Byte>
    var destination: array<Byte>
    var destinationBegin: nat
    var erasing: bool
    var busy: bool
    var expired: bool
    var address: nat
    var remaining: nat
    var chunk: nat
    var waiting: Waiting

    /** Of the device: the frame that is on the bus, and the address that it reads from. */
    var inFlight: Frame
    var pointer: nat

    /** The memory of the device, and what became of the current write. */
    var progress: Progress

    /** The start of the current read, and for each byte whether it was received. */
    ghost var start: nat
    ghost var received: seq<bool>

    ghost var operations: nat
    ghost var finished: nat

    ghost predicate Configured()
      reads this
    {
      && 0 < size <= MAX_SIZE && 0 < pageSize <= MAX_PAGE_SIZE
      && deviceAddress % 8 == 0 && frame.Length == 1 + MAX_PAGE_SIZE
      && size <= |progress.memory| && frame != destination
      && operations == finished + (if busy then 1 else 0)
    }

    /** Every operation that was started is finished, but for the one that the driver is busy with. */
    ghost predicate Valid()
      reads this, frame, destination
    {
      && Configured()
      && (busy <==> !waiting.Nothing?)
      && (Sending() ==> AtPage() && OnBus() && |progress.acked| == (address - progress.start) + (if waiting.PollResult? then chunk else 0))
      && (waiting.WriteFinish? ==> Between() && remaining == 0)
      && (Receiving() || waiting.ReadFinish? ==> Reading())
    }

    ghost predicate Sending()
      reads this
    {
      waiting.PageResult? || waiting.PollResult?
    }

    ghost predicate Receiving()
      reads this
    {
      waiting.WordAddressResult? || waiting.ReadResult?
    }

    ghost predicate WritingOrDone()
      reads this
    {
      Sending() || waiting.WriteFinish?
    }

    ghost predicate ReadingOrDone()
      reads this
    {
      Receiving() || waiting.ReadFinish?
    }

    /** Where the driver is in the data. */
    ghost predicate Located()
      reads this
    {
      && progress.start <= address && address + remaining == progress.start + |progress.data| <= size
      && (if erasing then progress.data == Repeated(ERASED, |progress.data|)
          else source == progress.data[address - progress.start..])
    }

    /** Done with all pages before the address. */
    ghost predicate Between()
      reads this
    {
      && Located() && progress.Valid(pageSize)
      && |progress.acked| == progress.covered == address - progress.start
    }

    /** Busy with the page at the address. */
    ghost predicate AtPage()
      reads this
    {
      && Located() && progress.Valid(pageSize)
      && 0 < chunk <= remaining && pageSize > 0 && address % pageSize + chunk <= pageSize
      && progress.covered == (address - progress.start) + chunk
    }

    function Payload(): seq<Byte>
      requires erasing || chunk <= |source|
      reads this`erasing, this`chunk, this`source
    {
      if erasing then Repeated(ERASED, chunk) else source[..chunk]
    }

    ghost predicate Filled()
      requires chunk < frame.Length
      reads this`erasing, this`chunk, this`source, this`address, frame
    {
      (erasing || chunk <= |source|) && frame[..chunk + 1] == [Low(address)] + Payload()
    }

    lemma PayloadIsData()
      requires Located() && chunk <= remaining
      ensures erasing || chunk <= |source|
      ensures Payload() == progress.data[address - progress.start..address - progress.start + chunk]
    {
    }

    ghost predicate OnBus()
      requires chunk < frame.Length
      reads this`erasing, this`chunk, this`source, this`address, this`waiting, this`inFlight, frame
    {
      && Filled()
      && inFlight.bytes == (if waiting.PageResult? then frame[..chunk + 1] else frame[..1])
      && inFlight.device == DeviceAddress(deviceAddress, address)
    }

    /** A new page goes onto the bus, or the write is done. */
    ghost predicate Onwards(pages: seq<Frame>)
      reads this
    {
      if Sending() then waiting.PageResult? && progress.pages == pages + [inFlight] else progress.pages == pages
    }

    ghost predicate StillAtPage(pages: seq<Frame>, remaining: nat, expired: bool)
      reads this
    {
      Sending() && progress.pages == pages && this.remaining == remaining && this.expired == expired
    }

    ghost function FirstFrames(): seq<Frame>
      reads this
    {
      if Sending() then [inFlight] else []
    }

    /** What went over the bus for the current write: the frames of its pages, repeated, and polls. */
    ghost predicate Logged(sent: seq<Frame>)
      reads this
    {
      if Sending() then
        sent != [] && sent[|sent| - 1] == inFlight && Sends(sent, progress.pages, waiting.PollResult?)
      else
        Sends(sent, progress.pages, true) || Sends(sent, progress.pages, false)
    }

    ghost predicate Reading()
      requires Configured()
      reads this, destination
    {
      && Delivered()
      && (waiting.ReadFinish? <==> destinationBegin == destination.Length)
      && (waiting.WordAddressResult? ==> inFlight.bytes == [Low(address)] && Decode(inFlight.device, Low(address)) == address)
      && (waiting.ReadResult? ==> pointer == address)
    }

    /** What was read so far is what the device holds, or erased where the bus failed. */
    ghost predicate Delivered()
      requires Configured()
      reads this, destination
    {
      && destinationBegin <= destination.Length && start + destination.Length <= size
      && address == start + destinationBegin
      && IsDelivered(destination[..destinationBegin], progress.memory, start, received)
    }

    static function Low(address: nat): Byte {
      address % BLOCK_SIZE
    }

    /** No callback makes this larger; once the deadline fired, every callback makes it or the stage smaller. */
    ghost function Remaining(): int
      reads this
    {
      if Sending() then 1 + remaining
      else if Receiving() then 1 + destination.Length - destinationBegin
      else if waiting.Nothing? then 0 else 1
    }

    ghost function Stage(): nat
      reads this
    {
      if waiting.PageResult? || waiting.WordAddressResult? then 1 else 0
    }

    constructor (deviceAddress: Byte, size: nat, pageSize: nat, memory: seq<Byte>)
      requires 0 < size <= MAX_SIZE && 0 < pageSize <= MAX_PAGE_SIZE && deviceAddress % 8 == 0 && size <= |memory|
      ensures Valid() && !busy && progress.memory == memory && this.size == size && this.pageSize == pageSize
    {
      this.deviceAddress := deviceAddress;
      this.size := size;
      this.pageSize := pageSize;
      frame := new Byte[1 + MAX_PAGE_SIZE];
      destination := new Byte[0];
      destinationBegin := 0;
      source := [];
      erasing, busy, expired := false, false, false;
      address, remaining, chunk := 0, 0, 0;
      waiting := Nothing;
      inFlight := Frame(0, []);
      progress := Progress(memory, memory, 0, [], [], 0, []);
      pointer, start, received, operations, finished := 0, 0, [], 0, 0;
    }

    method Start()
      requires !busy
      modifies this`busy, this`operations
      ensures busy && operations == old(operations) + 1
    {
      busy := true;
      operations := operations + 1;
    }

    method WriteBuffer(buffer: seq<Byte>, address: nat)
      requires Valid() && !busy && address <= size && |buffer| <= size - address
      modifies this, frame
      ensures Valid() && WritingOrDone() && progress.start == address && progress.data == buffer
      ensures progress.memory == progress.before == old(progress.memory) && finished == old(finished) && Onwards([])
    {
      Start();
      source := buffer;
      erasing := false;
      StartWrite(address, |buffer|, buffer);
    }

    method Erase()
      requires Valid() && !busy
      modifies this, frame
      ensures Valid() && WritingOrDone() && progress.start == 0 && progress.data == Repeated(ERASED, size)
      ensures progress.memory == progress.before == old(progress.memory) && finished == old(finished) && Onwards([])
    {
      Start();
      source := [];
      erasing := true;
      StartWrite(0, size, Repeated(ERASED, size));
    }

    method StartWrite(address: nat, size: nat, data: seq<Byte>)
      requires Configured() && busy && address + size <= this.size && size == |data|
      requires if erasing then data == Repeated(ERASED, |data|) else source == data
      modifies this, frame
      ensures Valid() && WritingOrDone() && progress.start == address && progress.data == data
      ensures progress.memory == progress.before == old(progress.memory) && finished == old(finished) && Onwards([])
    {
      this.address := address;
      remaining := size;
      FirstIsValid(progress.memory, address, data, pageSize);
      progress := Progress(progress.memory, progress.memory, address, data, [], 0, []);
      WriteNextPage();
    }

    method WriteNextPage()
      requires Configured() && busy && Between()
      modifies this`chunk, this`expired, this`waiting, this`inFlight, this`progress, frame
      ensures Valid() && WritingOrDone() && SameWrite(old(progress)) && progress.memory == old(progress.memory)
      ensures Onwards(old(progress.pages))
    {
      if remaining == 0 {
        waiting := WriteFinish;
        return;
      }
      StartPage();
    }

    ghost predicate SameWrite(was: Progress)
      reads this
    {
      progress.start == was.start && progress.data == was.data && progress.before == was.before
    }

    /** The next page ends with the data or with the page of the device. */
    method StartPage()
      requires Configured() && busy && Between() && remaining > 0
      modifies this`chunk, this`expired, this`waiting, this`inFlight, this`progress, frame
      ensures Valid() && waiting.PageResult? && SameWrite(old(progress)) && progress.memory == old(progress.memory)
      ensures Onwards(old(progress.pages))
    {
      chunk := Min(remaining, pageSize - address % pageSize);
      FillFrame();
      expired := false;
      SendFirst();
    }

    method SendFirst()
      requires Configured() && busy && Between() && 0 < chunk <= remaining && address % pageSize + chunk <= pageSize
      requires chunk < frame.Length && Filled()
      modifies this`waiting, this`inFlight, this`progress
      ensures Valid() && waiting.PageResult? && SameWrite(old(progress)) && progress.memory == old(progress.memory)
      ensures Onwards(old(progress.pages))
    {
      SendPage();
      AppendPage();
    }

    /** A driver that has its page on the bus is in a valid state. */
    lemma SendingIsValid()
      requires Configured() && busy && waiting.PageResult? && AtPage() && OnBus()
      requires |progress.acked| == address - progress.start
      ensures Valid()
    {
    }

    method AppendPage()
      requires Configured() && busy && waiting.PageResult? && Between()
      requires 0 < chunk <= remaining && address % pageSize + chunk <= pageSize && chunk < frame.Length && OnBus()
      modifies this`progress
      ensures Valid() && SameWrite(old(progress)) && progress.pages == old(progress.pages) + [inFlight]
      ensures progress.memory == old(progress.memory)
    {
      PageIsOnBus();
      progress.AppendIsValid(pageSize, inFlight, chunk);
      PageGoesOut();
    }

    method PageGoesOut()
      requires Configured() && busy && waiting.PageResult? && Between() && progress.Appended(inFlight, chunk).Valid(pageSize)
      requires 0 < chunk <= remaining && address % pageSize + chunk <= pageSize && chunk < frame.Length && OnBus()
      modifies this`progress
      ensures Valid() && progress == old(progress).Appended(inFlight, chunk)
    {
      progress := progress.Appended(inFlight, chunk);
      assert Located() && AtPage();
      SendingIsValid();
    }

    lemma PageIsOnBus()
      requires Configured() && waiting.PageResult? && Located() && 0 < chunk <= remaining && chunk < frame.Length && OnBus()
      ensures |inFlight.bytes| == chunk + 1 && Decode(inFlight.device, inFlight.bytes[0]) == address
      ensures inFlight.bytes[1..] == progress.data[address - progress.start..address - progress.start + chunk]
    {
      AddressIsDecoded(deviceAddress, address);
      PayloadIsData();
      assert inFlight.bytes[1..] == Payload();
    }

    method FillFrame()
      requires chunk < frame.Length && (erasing || chunk <= |source|)
      modifies frame
      ensures Filled()
    {
      var payload := Payload();
      frame[0] := Low(address);
      Write(frame, 1, payload);
      assert frame[..chunk + 1][0] == frame[..][0] == Low(address) && frame[..chunk + 1][1..] == frame[..][1..1 + chunk] == payload;
    }

    method SendPage()
      requires Configured() && address < size && chunk < frame.Length
      modifies this`waiting, this`inFlight
      ensures waiting.PageResult? && inFlight == Frame(DeviceAddress(deviceAddress, address), frame[..chunk + 1])
      ensures Decode(inFlight.device, Low(address)) == address
    {
      AddressIsDecoded(deviceAddress, address);
      inFlight := Frame(DeviceAddress(deviceAddress, address), frame[..chunk + 1]);
      waiting := PageResult;
    }

    /** If the transfer is complete, the device took all of the frame. */
    method PageSent(result: Result)
      requires Valid() && waiting.PageResult? && (result.Complete? ==> progress.Holds())
      modifies this`address, this`remaining, this`source, this`chunk, this`expired, this`waiting, this`inFlight, this`progress, frame
      ensures Valid() && WritingOrDone() && SameWrite(old(progress)) && finished == old(finished)
      ensures result.Complete? || !old(expired) ==> StillAtPage(old(progress.pages), old(remaining), old(expired))
      ensures result.Complete? ==> waiting.PollResult? && inFlight == WordOf(old(inFlight))
      ensures !result.Complete? && !old(expired) ==> waiting.PageResult? && inFlight == old(inFlight)
      ensures !result.Complete? && old(expired) ==> Remaining() < old(Remaining()) && Onwards(old(progress.pages))
    {
      if result.Complete? {
        PageAccepted();
      } else {
        PageRefused();
      }
    }

    method PageRefused()
      requires Valid() && waiting.PageResult?
      modifies this`address, this`remaining, this`source, this`chunk, this`expired, this`waiting, this`inFlight, this`progress, frame
      ensures Valid() && WritingOrDone() && SameWrite(old(progress)) && finished == old(finished)
      ensures !old(expired) ==> StillAtPage(old(progress.pages), old(remaining), false) && waiting.PageResult? && inFlight == old(inFlight)
      ensures old(expired) ==> Remaining() < old(Remaining()) && Onwards(old(progress.pages))
    {
      if !expired {
        SendPageAgain();
      } else {
        GiveUp();
      }
    }

    method PageAccepted()
      requires Valid() && waiting.PageResult? && progress.Holds()
      modifies this`progress, this`waiting, this`inFlight
      ensures Valid() && waiting.PollResult? && SameWrite(old(progress))
      ensures progress.pages == old(progress.pages) && inFlight == WordOf(old(inFlight))
    {
      assert WordOf(inFlight) == Frame(DeviceAddress(deviceAddress, address), frame[..1]);
      Acknowledge(true);
      PollFirst();
    }

    method PollFirst()
      requires Configured() && busy && AtPage() && |progress.acked| == progress.covered && chunk < frame.Length
      requires Filled()
      modifies this`waiting, this`inFlight
      ensures Valid() && waiting.PollResult? && inFlight == Frame(DeviceAddress(deviceAddress, address), frame[..1])
    {
      Poll();
    }

    method SendPageAgain()
      requires Valid() && waiting.PageResult?
      modifies this`waiting, this`inFlight
      ensures Valid() && waiting.PageResult? && inFlight == old(inFlight)
    {
      assert inFlight == Frame(DeviceAddress(deviceAddress, address), frame[..chunk + 1]);
      SendPage();
    }

    method GiveUp()
      requires Valid() && waiting.PageResult?
      modifies this`address, this`remaining, this`source, this`chunk, this`expired, this`waiting, this`inFlight, this`progress, frame
      ensures Valid() && WritingOrDone() && SameWrite(old(progress)) && finished == old(finished) && Remaining() < old(Remaining())
      ensures Onwards(old(progress.pages))
    {
      Acknowledge(false);
      PageDone();
    }

    method Acknowledge(ack: bool)
      requires Valid() && waiting.PageResult? && (ack ==> progress.Holds())
      modifies this`progress
      ensures Configured() && AtPage() && |progress.acked| == progress.covered == old(progress.covered)
      ensures SameWrite(old(progress)) && progress.memory == old(progress.memory) && progress.pages == old(progress.pages)
    {
      progress.AcknowledgeIsValid(pageSize, ack);
      progress := progress.Acknowledged(ack);
    }

    /** What happens on the bus: the device takes some bytes of the frame that is in flight. */
    method TransferPage(taken: nat)
      requires Valid() && waiting.PageResult? && taken <= chunk
      modifies this`progress
      ensures Valid() && SameWrite(old(progress)) && progress.acked == old(progress.acked) && progress.covered == old(progress.covered)
      ensures progress.pages == old(progress.pages) && (taken == chunk ==> progress.Holds())
    {
      FrameIsOnBus();
      DeviceTakes(Decode(inFlight.device, inFlight.bytes[0]), inFlight.bytes[1..], taken);
    }

    method DeviceTakes(at: nat, payload: seq<Byte>, taken: nat)
      requires Valid() && waiting.PageResult? && at == progress.start + |progress.acked| && at % pageSize + |payload| <= pageSize
      requires payload == progress.data[|progress.acked|..progress.covered] && taken <= |payload|
      modifies this`progress
      ensures Valid() && progress == old(progress).(memory := DeviceWrite(old(progress).memory, pageSize, at, payload, taken))
      ensures taken == |payload| ==> progress.Holds()
    {
      progress.TransferIsValid(pageSize, payload, taken);
      DeviceTook(DeviceWrite(progress.memory, pageSize, at, payload, taken));
    }

    method DeviceTook(memory: seq<Byte>)
      requires Valid() && waiting.PageResult? && progress.(memory := memory).Valid(pageSize)
      modifies this`progress
      ensures Valid() && progress == old(progress).(memory := memory)
    {
      progress := progress.(memory := memory);
      SendingIsValid();
    }

    lemma FrameIsOnBus()
      requires Valid() && waiting.PageResult?
      ensures inFlight.bytes != [] && inFlight.bytes[1..] == progress.data[|progress.acked|..progress.covered]
      ensures Decode(inFlight.device, inFlight.bytes[0]) == address == progress.start + |progress.acked|
    {
      AddressIsDecoded(deviceAddress, address);
      PayloadIsData();
    }

    method Poll()
      requires address < size && 0 < frame.Length
      modifies this`waiting, this`inFlight
      ensures waiting.PollResult? && inFlight == Frame(DeviceAddress(deviceAddress, address), frame[..1])
    {
      inFlight := Frame(DeviceAddress(deviceAddress, address), frame[..1]);
      waiting := PollResult;
    }

    /** A poll consists of the word address only, so that the device does not write. */
    method Polled(result: Result)
      requires Valid() && waiting.PollResult?
      modifies this`address, this`remaining, this`source, this`chunk, this`expired, this`waiting, this`inFlight, this`progress, frame
      ensures Valid() && WritingOrDone() && SameWrite(old(progress)) && finished == old(finished)
      ensures progress.memory == old(progress.memory)
      ensures result.Complete? || old(expired) ==> Remaining() < old(Remaining()) && Onwards(old(progress.pages))
      ensures !(result.Complete? || old(expired)) ==> StillAtPage(old(progress.pages), old(remaining), old(expired))
      ensures !(result.Complete? || old(expired)) ==> waiting.PollResult? && inFlight == old(inFlight)
    {
      if result.Complete? || expired {
        PageDone();
      } else {
        PollAgain();
      }
    }

    method PollAgain()
      requires Valid() && waiting.PollResult?
      modifies this`waiting, this`inFlight
      ensures Valid() && waiting.PollResult? && inFlight == old(inFlight)
    {
      Poll();
    }

    method PageDone()
      requires Configured() && busy && AtPage() && |progress.acked| == progress.covered
      modifies this`address, this`remaining, this`source, this`chunk, this`expired, this`waiting, this`inFlight, this`progress, frame
      ensures Valid() && WritingOrDone() && SameWrite(old(progress)) && progress.memory == old(progress.memory)
      ensures Remaining() <= 1 + old(remaining - chunk) && Onwards(old(progress.pages))
    {
      address := address + chunk;
      remaining := remaining - chunk;
      if !erasing {
        source := source[chunk..];
      }
      WriteNextPage();
    }

    method DeadlineFires()
      requires Valid() && Sending()
      modifies this`expired
      ensures Valid() && expired && Remaining() == old(Remaining())
    {
      expired := true;
    }

    method Finish()
      requires Valid() && (waiting.WriteFinish? || waiting.ReadFinish?)
      modifies this`busy, this`waiting, this`finished
      ensures Valid() && !busy && finished == old(finished) + 1
    {
      busy := false;
      waiting := Nothing;
      finished := finished + 1;
    }

    method ReadBuffer(buffer: array<Byte>, address: nat)
      requires Valid() && !busy && address <= size && buffer.Length <= size - address && buffer != frame
      modifies this, frame
      ensures Valid() && ReadingOrDone() && start == address && destination == buffer && received == []
      ensures progress == old(progress) && finished == old(finished)
    {
      Start();
      this.address := address;
      destination := buffer;
      destinationBegin := 0;
      start := address;
      received := [];
      ReadNextBlock();
    }

    /** A read does not go beyond a block. */
    function CurrentChunk(): nat
      requires destinationBegin <= destination.Length
      reads this
    {
      Min(destination.Length - destinationBegin, BLOCK_SIZE - address % BLOCK_SIZE)
    }

    method ReadNextBlock()
      requires Configured() && busy && Delivered()
      modifies this`waiting, this`inFlight, frame
      ensures Valid() && ReadingOrDone()
    {
      if destinationBegin == destination.Length {
        waiting := ReadFinish;
        return;
      }
      frame[0] := Low(address);
      AddressIsDecoded(deviceAddress, address);
      inFlight := Frame(DeviceAddress(deviceAddress, address), frame[..1]);
      waiting := WordAddressResult;
    }

    method WordAddressSent(result: Result)
      requires Valid() && waiting.WordAddressResult?
      modifies this, frame, destination
      ensures Valid() && ReadingOrDone() && start == old(start) && destination == old(destination)
      ensures progress == old(progress) && finished == old(finished)
      ensures result.Complete? ==> waiting.ReadResult? && Remaining() == old(Remaining()) && received == old(received)
      ensures !result.Complete? ==> Remaining() < old(Remaining()) && received == old(received) + Repeated(false, old(CurrentChunk()))
    {
      if !result.Complete? {
        ChunkReceived(result);
        return;
      }
      pointer := Decode(inFlight.device, inFlight.bytes[0]);
      waiting := ReadResult;
    }

    /** The bus puts what the device sends into the chunk, all of it if the transfer is complete. */
    method Received(result: Result, sent: seq<Byte>)
      requires Valid() && waiting.ReadResult? && |sent| <= CurrentChunk()
      requires result.Complete? ==> sent == progress.memory[pointer..pointer + CurrentChunk()]
      modifies this, frame, destination
      ensures Valid() && ReadingOrDone() && start == old(start) && destination == old(destination)
      ensures progress == old(progress) && finished == old(finished) && Remaining() < old(Remaining())
      ensures received == old(received) + Repeated(result.Complete?, old(CurrentChunk()))
    {
      ghost var was := destination[..];
      Write(destination, destinationBegin, sent);
      ReplacedApart(was, destinationBegin, sent);
      ChunkReceived(result);
    }

    method ChunkReceived(result: Result)
      requires Valid() && Receiving()
      requires result.Complete? ==>
        destination[destinationBegin..destinationBegin + CurrentChunk()] == progress.memory[address..address + CurrentChunk()]
      modifies this, frame, destination
      ensures Valid() && ReadingOrDone() && start == old(start) && destination == old(destination)
      ensures progress == old(progress) && finished == old(finished) && Remaining() < old(Remaining())
      ensures received == old(received) + Repeated(result.Complete?, old(CurrentChunk()))
    {
      var chunk := CurrentChunk();
      if !result.Complete? {
        EraseChunk();
      }
      Advance(chunk, result.Complete?);
      ReadNextBlock();
    }

    method Advance(chunk: nat, complete: bool)
      requires Configured() && Delivered() && destinationBegin + chunk <= destination.Length
      requires destination[destinationBegin..destinationBegin + chunk]
        == if complete then progress.memory[address..address + chunk] else Repeated(ERASED, chunk)
      modifies this`address, this`destinationBegin, this`received
      ensures Configured() && Delivered() && destinationBegin == old(destinationBegin) + chunk
      ensures received == old(received) + Repeated(complete, chunk)
    {
      ghost var text, piece := destination[..destinationBegin], destination[destinationBegin..destinationBegin + chunk];
      ChunkDelivered(text, piece, progress.memory, start, received, complete);
      Joined(destination[..], 0, destinationBegin, destinationBegin + chunk);
      received := received + Repeated(complete, chunk);
      address := address + chunk;
      destinationBegin := destinationBegin + chunk;
      assert destination[..destinationBegin] == text + piece;
    }

    method EraseChunk()
      requires destinationBegin <= destination.Length
      modifies destination
      ensures destination[..destinationBegin] == old(destination[..destinationBegin])
      ensures destination[destinationBegin..destinationBegin + CurrentChunk()] == Repeated(ERASED, CurrentChunk())
    {
      ReplacedApart(destination[..], destinationBegin, Repeated(ERASED, CurrentChunk()));
      Write(destination, destinationBegin, Repeated(ERASED, CurrentChunk()));
    }
  }

  lemma ReplacedApart<T>(m: seq<T>, at: nat, data: seq<T>)
    requires at + |data| <= |m|
    ensures Replaced(m, at, data)[..at] == m[..at] && Replaced(m, at, data)[at..at + |data|] == data
  {
  }

  ghost predicate IsDelivered(text: seq<Byte>, memory: seq<Byte>, start: nat, received: seq<bool>)
  {
    && |received| == |text| && start + |text| <= |memory|
    && forall k | 0 <= k < |text| :: text[k] == if received[k] then memory[start + k] else ERASED
  }

  lemma ChunkDelivered(text: seq<Byte>, piece: seq<Byte>, memory: seq<Byte>, start: nat, received: seq<bool>, complete: bool)
    requires IsDelivered(text, memory, start, received) && start + |text| + |piece| <= |memory|
    requires piece == if complete then memory[start + |text|..start + |text| + |piece|] else Repeated(ERASED, |piece|)
    ensures IsDelivered(text + piece, memory, start, received + Repeated(complete, |piece|))
  {
  }

  /**
   * A write or erase, with any results on the bus and a deadline that fires after any number of callbacks for each
   * page: it ends, and finishes once. What went over the bus is each page at least once, and the polls behind it.
   */
  method RunWrite(eeprom: Eeprom24xx, ghost sent: seq<Frame>)
    returns (acknowledged: bool, ghost log: seq<Frame>, ghost rounds: seq<Round>)
    requires eeprom.Valid() && eeprom.WritingOrDone() && eeprom.Logged(sent)
    modifies eeprom, eeprom.frame
    ensures eeprom.Valid() && !eeprom.busy && eeprom.finished == old(eeprom.finished) + 1
    ensures eeprom.SameWrite(old(eeprom.progress)) && eeprom.progress.Valid(eeprom.pageSize)
    ensures |eeprom.progress.acked| == eeprom.progress.covered == |eeprom.progress.data|
    ensures acknowledged <==> forall k | 0 <= k < |eeprom.progress.acked| :: eeprom.progress.acked[k]
    ensures acknowledged ==> eeprom.progress.memory == Replaced(eeprom.progress.before, eeprom.progress.start, eeprom.progress.data)
    ensures sent <= log && |rounds| == |eeprom.progress.pages| && log == Expanded(eeprom.progress.pages, rounds)
    ensures forall i | 0 <= i < |rounds| :: rounds[i].sends > 0
  {
    log := SendAll(eeprom, sent);
    var progress := eeprom.progress;
    rounds := LogExpands(log, progress.pages);
    eeprom.Finish();
    acknowledged := AllAcknowledged(progress, eeprom.pageSize);
  }

  lemma LogExpands(log: seq<Frame>, pages: seq<Frame>) returns (rounds: seq<Round>)
    requires Sends(log, pages, true) || Sends(log, pages, false)
    ensures |rounds| == |pages| && log == Expanded(pages, rounds) && forall i | 0 <= i < |rounds| :: rounds[i].sends > 0
  {
    rounds := SendsIsExpanded(log, pages, Sends(log, pages, true));
  }

  method AllAcknowledged(progress: Progress, pageSize: nat) returns (acknowledged: bool)
    requires progress.Valid(pageSize) && |progress.acked| == progress.covered == |progress.data|
    ensures acknowledged <==> forall k | 0 <= k < |progress.acked| :: progress.acked[k]
    ensures acknowledged ==> progress.memory == Replaced(progress.before, progress.start, progress.data)
  {
    acknowledged := forall k | 0 <= k < |progress.acked| :: progress.acked[k];
    if acknowledged {
      progress.AllWritten(pageSize);
    }
  }

  /** Before any callback the deadline may fire, and for each page it does so after a number of callbacks. */
  method SendAll(eeprom: Eeprom24xx, ghost sent: seq<Frame>) returns (ghost log: seq<Frame>)
    requires eeprom.Valid() && eeprom.WritingOrDone() && eeprom.Logged(sent)
    modifies eeprom, eeprom.frame
    ensures eeprom.Valid() && eeprom.waiting.WriteFinish?
    ensures eeprom.SameWrite(old(eeprom.progress)) && eeprom.finished == old(eeprom.finished)
    ensures eeprom.progress.Valid(eeprom.pageSize)
    ensures |eeprom.progress.acked| == eeprom.progress.covered == |eeprom.progress.data|
    ensures sent <= log && eeprom.Logged(log)
  {
    log := sent;
    var tries: nat := *;
    while !eeprom.waiting.WriteFinish?
      invariant eeprom.Valid() && eeprom.WritingOrDone()
      invariant eeprom.SameWrite(old(eeprom.progress)) && eeprom.finished == old(eeprom.finished)
      invariant sent <= log && eeprom.Logged(log)
      decreases eeprom.Remaining(), if eeprom.expired then 0 else 1 + tries, eeprom.Stage()
    {
      var fires: bool := *;
      var pageDone;
      pageDone, log := Event(eeprom, !eeprom.expired && (tries == 0 || fires), log);
      if pageDone {
        tries := *;
      } else if tries > 0 {
        tries := tries - 1;
      }
    }
  }

  /** Either the deadline fires, or the frame on the bus is done and the next one, if any, goes onto the bus. */
  method Event(eeprom: Eeprom24xx, fires: bool, ghost sent: seq<Frame>) returns (pageDone: bool, ghost log: seq<Frame>)
    requires eeprom.Valid() && eeprom.Sending() && eeprom.Logged(sent)
    modifies eeprom, eeprom.frame
    ensures eeprom.Valid() && eeprom.WritingOrDone() && eeprom.SameWrite(old(eeprom.progress)) && eeprom.finished == old(eeprom.finished)
    ensures if pageDone then eeprom.Remaining() < old(eeprom.Remaining()) else eeprom.Remaining() == old(eeprom.Remaining())
    ensures !pageDone ==> eeprom.expired == (fires || old(eeprom.expired))
    ensures !pageDone && !fires && old(eeprom.expired) ==> eeprom.Stage() < old(eeprom.Stage())
    ensures eeprom.Logged(log) && log == if fires || !eeprom.Sending() then sent else sent + [eeprom.inFlight]
  {
    log := sent;
    if fires {
      eeprom.DeadlineFires();
      pageDone := false;
    } else {
      var result: Result := *;
      pageDone := Callback(eeprom, result);
      if eeprom.Sending() {
        log := log + [eeprom.inFlight];
      }
      StillLogged(sent, old(eeprom.progress.pages), old(eeprom.waiting.PollResult?), eeprom);
    }
  }

  /** The frame on the bus is followed by a poll with its word address, by itself, or by the next page. */
  ghost predicate Follows(eeprom: Eeprom24xx, pages: seq<Frame>, last: Frame, polling: bool)
    reads eeprom
  {
    || eeprom.Onwards(pages)
    || (eeprom.waiting.PollResult? && eeprom.progress.pages == pages && eeprom.inFlight == if polling then last else WordOf(last))
    || (eeprom.waiting.PageResult? && eeprom.progress.pages == pages && eeprom.inFlight == last && !polling)
  }

  lemma StillLogged(sent: seq<Frame>, pages: seq<Frame>, polling: bool, eeprom: Eeprom24xx)
    requires sent != [] && Sends(sent, pages, polling) && Follows(eeprom, pages, sent[|sent| - 1], polling)
    ensures eeprom.Logged(if eeprom.Sending() then sent + [eeprom.inFlight] else sent)
  {
    SendsAgain(sent, pages, polling);
    SendsPage(sent, pages, polling, eeprom.inFlight);
    if !polling {
      SendsPoll(sent, pages);
    }
  }

  /** Either makes progress, or repeats what was not acknowledged while the deadline has not fired. */
  method Callback(eeprom: Eeprom24xx, result: Result) returns (pageDone: bool)
    requires eeprom.Valid() && eeprom.Sending()
    modifies eeprom, eeprom.frame
    ensures eeprom.Valid() && eeprom.WritingOrDone() && eeprom.SameWrite(old(eeprom.progress)) && eeprom.finished == old(eeprom.finished)
    ensures if pageDone then eeprom.Remaining() < old(eeprom.Remaining()) else eeprom.Remaining() == old(eeprom.Remaining())
    ensures !pageDone ==> eeprom.expired == old(eeprom.expired)
    ensures !pageDone && old(eeprom.expired) ==> eeprom.Stage() < old(eeprom.Stage())
    ensures Follows(eeprom, old(eeprom.progress.pages), old(eeprom.inFlight), old(eeprom.waiting.PollResult?))
  {
    var remaining := eeprom.remaining;
    var taken: nat := *;
    if eeprom.waiting.PageResult? {
      eeprom.TransferPage(if result.Complete? then eeprom.chunk else Min(taken, eeprom.chunk));
      eeprom.PageSent(result);
    } else {
      eeprom.Polled(result);
    }
    pageDone := eeprom.waiting.WriteFinish? || eeprom.remaining < remaining;
  }

  /** Whether some byte of a read was not received. */
  ghost predicate HasFailure(received: seq<bool>) {
    exists k | 0 <= k < |received| :: !received[k]
  }

  lemma FailureOnwards(received: seq<bool>, n: nat, complete: bool)
    requires n > 0
    ensures HasFailure(received + Repeated(complete, n)) <==> HasFailure(received) || !complete
  {
    var now := received + Repeated(complete, n);
    if HasFailure(received) {
      var k :| 0 <= k < |received| && !received[k];
      assert !now[k];
    } else if !complete {
      assert !now[|received|];
    }
  }

  /** A read, with any results on the bus: it ends, finishes once, and without a bus error returns the memory. */
  method RunRead(eeprom: Eeprom24xx) returns (failed: bool)
    requires eeprom.Valid() && eeprom.ReadingOrDone() && eeprom.received == []
    modifies eeprom, eeprom.frame, eeprom.destination
    ensures eeprom.Valid() && !eeprom.busy && eeprom.finished == old(eeprom.finished) + 1
    ensures eeprom.progress == old(eeprom.progress) && eeprom.destination == old(eeprom.destination)
    ensures IsDelivered(eeprom.destination[..], eeprom.progress.memory, old(eeprom.start), eeprom.received)
    ensures failed <==> HasFailure(eeprom.received)
    ensures !failed ==> eeprom.destination[..] == eeprom.progress.memory[old(eeprom.start)..old(eeprom.start) + eeprom.destination.Length]
  {
    failed := false;
    while !eeprom.waiting.ReadFinish?
      invariant eeprom.Valid() && eeprom.ReadingOrDone()
      invariant eeprom.progress == old(eeprom.progress) && eeprom.destination == old(eeprom.destination)
      invariant eeprom.start == old(eeprom.start) && eeprom.finished == old(eeprom.finished)
      invariant failed <==> HasFailure(eeprom.received)
      decreases eeprom.Remaining(), eeprom.Stage()
    {
      var result: Result := *;
      failed := failed || !result.Complete?;
      FailureOnwards(eeprom.received, eeprom.CurrentChunk(), result.Complete?);
      if eeprom.waiting.WordAddressResult? {
        eeprom.WordAddressSent(result);
      } else {
        var n := eeprom.CurrentChunk();
        var sent: seq<Byte> := *;
        if result.Complete? {
          sent := eeprom.progress.memory[eeprom.pointer..eeprom.pointer + n];
        } else if |sent| > n {
          sent := [];
        }
        eeprom.Received(result, sent);
      }
    }
    assert eeprom.destination[..eeprom.destinationBegin] == eeprom.destination[..];
    eeprom.Finish();
  }

  lemma FirstIsLogged(eeprom: Eeprom24xx)
    requires eeprom.WritingOrDone() && eeprom.Onwards([])
    ensures eeprom.Logged(eeprom.FirstFrames())
  {
    SendsPage([], [], false, eeprom.inFlight);
  }

  method WriteAll(eeprom: Eeprom24xx, data: seq<Byte>, address: nat) returns (acknowledged: bool)
    requires eeprom.Valid() && !eeprom.busy && address + |data| <= eeprom.size
    modifies eeprom, eeprom.frame
    ensures eeprom.Valid() && !eeprom.busy && eeprom.finished == old(eeprom.finished) + 1
    ensures |eeprom.progress.acked| == |data|
    ensures acknowledged <==> forall k | 0 <= k < |eeprom.progress.acked| :: eeprom.progress.acked[k]
    ensures acknowledged ==> eeprom.progress.memory == Replaced(old(eeprom.progress.memory), address, data)
    ensures acknowledged ==> eeprom.progress.memory[address..address + |data|] == data
  {
    eeprom.WriteBuffer(data, address);
    FirstIsLogged(eeprom);
    ghost var log, rounds;
    acknowledged, log, rounds := RunWrite(eeprom, eeprom.FirstFrames());
    if acknowledged {
      ReplacedApart(old(eeprom.progress.memory), address, data);
    }
  }

  /** What was written, with every page acknowledged, is what a read without bus errors returns. */
  method WriteAndReadBack(eeprom: Eeprom24xx, data: seq<Byte>, address: nat, buffer: array<Byte>)
    returns (acknowledged: bool, failed: bool)
    requires eeprom.Valid() && !eeprom.busy && address + |data| <= eeprom.size
    requires buffer.Length == |data| && buffer != eeprom.frame
    modifies eeprom, eeprom.frame, buffer
    ensures eeprom.Valid() && !eeprom.busy && eeprom.finished == old(eeprom.finished) + 2
    ensures |eeprom.progress.acked| == |eeprom.received| == |data|
    ensures acknowledged <==> forall k | 0 <= k < |eeprom.progress.acked| :: eeprom.progress.acked[k]
    ensures failed <==> HasFailure(eeprom.received)
    ensures acknowledged && !failed ==> buffer[..] == data
  {
    acknowledged := WriteAll(eeprom, data, address);
    eeprom.ReadBuffer(buffer, address);
    failed := RunRead(eeprom);
  }
}
