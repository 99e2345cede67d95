/**
 Flash memory behind the SynchronousFlash interface.  Erasing turns a sector into 0xff bytes, one sector at a
 time in ascending order; programming can only clear bits, one byte at a time in ascending order.  The
 history lists the contents after every such change: a power cut leaves the memory in one of these states.
 */
module Flash {
  import opened Bytes
  import opened Sequences

  type Memory = seq<Byte>

  // ----- the layout of sectors

  predicate AreSectors(sizes: seq<nat>) {
    sizes != [] && forall i | 0 <= i < |sizes| :: sizes[i] > 0
  }

  function StartOf(sizes: seq<nat>, sector: nat): nat
    requires sector <= |sizes|
  {
    if sector == 0 then 0 else StartOf(sizes, sector - 1) + sizes[sector - 1]
  }

  /** The sector an address lies in, searching from the given sector on. */
  function SectorFrom(sizes: seq<nat>, address: nat, sector: nat): (s: nat)
    requires sector < |sizes| && StartOf(sizes, sector) <= address < StartOf(sizes, |sizes|)
    ensures s < |sizes| && StartOf(sizes, s) <= address < StartOf(sizes, s + 1)
    decreases |sizes| - sector
  {
    if address < StartOf(sizes, sector + 1) then sector else SectorFrom(sizes, address, sector + 1)
  }

  lemma {:induction false} StartsAscend(sizes: seq<nat>, a: nat, b: nat)
    requires a <= b <= |sizes|
    ensures StartOf(sizes, a) <= StartOf(sizes, b)
    ensures AreSectors(sizes) && a < b ==> StartOf(sizes, a) < StartOf(sizes, b)
  {
    if a < b {
      StartsAscend(sizes, a, b - 1);
    }
  }

  /** An address has one sector. */
  lemma SectorIsUnique(sizes: seq<nat>, address: nat, a: nat, b: nat)
    requires a < |sizes| && StartOf(sizes, a) <= address < StartOf(sizes, a + 1)
    requires b < |sizes| && StartOf(sizes, b) <= address < StartOf(sizes, b + 1)
    ensures a == b
  {
    if a < b { StartsAscend(sizes, a + 1, b); }
    if b < a { StartsAscend(sizes, b + 1, a); }
  }

  // ----- the effect of erasing and programming

  predicate IsErased(m: Memory, begin: nat, end: nat)
    requires begin <= end <= |m|
  {
    forall i | begin <= i < end :: m[i] == ERASED
  }

  function Erased(m: Memory, begin: nat, end: nat): (r: Memory)
    requires begin <= end <= |m|
    ensures |r| == |m|
  {
    m[..begin] + seq(end - begin, _ => ERASED) + m[end..]
  }

  function ProgramByte(m: Memory, address: nat, value: Byte): Memory
    requires address < |m|
  {
    m[address := AndByte(m[address], value)]
  }

  function Programmed(m: Memory, data: seq<Byte>, address: nat): (r: Memory)
    requires address + |data| <= |m|
    ensures |r| == |m|
    decreases |data|
  {
    if data == [] then m
    else ProgramByte(Programmed(m, data[..|data| - 1], address), address + |data| - 1, data[|data| - 1])
  }

  /** The contents after each byte programmed. */
  function ProgramStates(m: Memory, data: seq<Byte>, address: nat): (states: seq<Memory>)
    requires address + |data| <= |m|
    decreases |data|
  {
    if data == [] then []
    else ProgramStates(m, data[..|data| - 1], address) + [Programmed(m, data, address)]
  }

  lemma {:induction false} ProgramStateIsPrefix(m: Memory, data: seq<Byte>, address: nat, state: Memory) returns (count: nat)
    requires address + |data| <= |m| && state in ProgramStates(m, data, address)
    ensures 0 < count <= |data| && state == Programmed(m, data[..count], address)
    decreases |data|
  {
    var n := |data| - 1;
    if state == Programmed(m, data, address) {
      count := |data|;
      assert data[..count] == data;
    } else {
      count := ProgramStateIsPrefix(m, data[..n], address, state);
      assert data[..n][..count] == data[..count];
    }
  }

  lemma {:induction false} PrefixIsProgramState(m: Memory, data: seq<Byte>, address: nat, count: nat)
    requires address + |data| <= |m| && 0 < count <= |data|
    ensures Programmed(m, data[..count], address) in ProgramStates(m, data, address)
    decreases |data|
  {
    if count == |data| {
      assert data[..count] == data;
    } else {
      var n := |data| - 1;
      PrefixIsProgramState(m, data[..n], address, count);
      assert data[..n][..count] == data[..count];
    }
  }

  /** On erased memory, programming stores the data and changes nothing else. */
  lemma ProgrammingErasedStores(m: Memory, data: seq<Byte>, address: nat)
    requires address + |data| <= |m| && IsErased(m, address, address + |data|)
    ensures Programmed(m, data, address) == m[..address] + data + m[address + |data|..]
  {
    var now, stored := Programmed(m, data, address), Replaced(m, address, data);
    forall k | 0 <= k < |m|
      ensures now[k] == stored[k]
    {
      ProgrammedAt(m, data, address, k);
      ReplacedAt(m, address, data, k);
    }
    assert now == stored;
  }

  lemma {:induction false} ProgrammedAt(m: Memory, data: seq<Byte>, address: nat, k: nat)
    requires address + |data| <= |m| && k < |m|
    ensures Programmed(m, data, address)[k]
         == if address <= k < address + |data| then AndByte(m[k], data[k - address]) else m[k]
    ensures address <= k < address + |data| && m[k] == ERASED ==> Programmed(m, data, address)[k] == data[k - address]
    decreases |data|
  {
    if data != [] {
      ProgrammedAt(m, data[..|data| - 1], address, k);
      AndErased(data[|data| - 1]);
    }
  }

  /** Programming clears the bits that are cleared in the data, and sets none. */
  lemma ProgrammingClearsBits(m: Memory, data: seq<Byte>, address: nat, k: nat, place: nat)
    requires address + |data| <= |m| && k < |m| && place < BYTE_WIDTH
    ensures Bit(Programmed(m, data, address)[k], place)
       <==> Bit(m[k], place) && (address <= k < address + |data| ==> Bit(data[k - address], place))
  {
    ProgrammedAt(m, data, address, k);
    if address <= k < address + |data| {
      AndBits(m[k], data[k - address], BYTE_WIDTH, place);
    }
  }

  /** The contents after each sector erased. */
  function EraseStates(sizes: seq<nat>, m: Memory, begin: nat, end: nat): seq<Memory>
    requires begin <= end <= |sizes| && StartOf(sizes, |sizes|) == |m|
  {
    if begin == end then []
    else
      StartsAscend(sizes, begin, end); StartsAscend(sizes, end, |sizes|);
      EraseStates(sizes, m, begin, end - 1) + [Erased(m, StartOf(sizes, begin), StartOf(sizes, end))]
  }

  lemma {:induction false} EraseStateIsPrefix(sizes: seq<nat>, m: Memory, begin: nat, end: nat, state: Memory) returns (upTo: nat)
    requires begin <= end <= |sizes| && StartOf(sizes, |sizes|) == |m|
    requires state in EraseStates(sizes, m, begin, end)
    ensures begin < upTo <= end && StartOf(sizes, begin) <= StartOf(sizes, upTo) <= |m|
    ensures state == Erased(m, StartOf(sizes, begin), StartOf(sizes, upTo))
  {
    StartsAscend(sizes, begin, end); StartsAscend(sizes, end, |sizes|);
    if state == Erased(m, StartOf(sizes, begin), StartOf(sizes, end)) {
      upTo := end;
    } else {
      upTo := EraseStateIsPrefix(sizes, m, begin, end - 1, state);
    }
  }

  lemma EraseOnwards(m: Memory, begin: nat, middle: nat, end: nat)
    requires begin <= middle <= end <= |m|
    ensures Erased(Erased(m, begin, middle), middle, end) == Erased(m, begin, end)
  {}

  lemma EraseStatesOnwards(sizes: seq<nat>, m: Memory, begin: nat, sector: nat)
    requires begin <= sector < |sizes| && StartOf(sizes, |sizes|) == |m|
    ensures StartOf(sizes, begin) <= StartOf(sizes, sector) <= StartOf(sizes, sector + 1) <= |m|
    ensures Erased(Erased(m, StartOf(sizes, begin), StartOf(sizes, sector)), StartOf(sizes, sector), StartOf(sizes, sector + 1))
         == Erased(m, StartOf(sizes, begin), StartOf(sizes, sector + 1))
    ensures EraseStates(sizes, m, begin, sector + 1)
         == EraseStates(sizes, m, begin, sector) + [Erased(m, StartOf(sizes, begin), StartOf(sizes, sector + 1))]
  {
    StartsAscend(sizes, begin, sector);
    StartsAscend(sizes, sector, sector + 1);
    StartsAscend(sizes, sector + 1, |sizes|);
    EraseOnwards(m, StartOf(sizes, begin), StartOf(sizes, sector), StartOf(sizes, sector + 1));
  }

  /** One more byte of a buffer that is being programmed. */
  lemma ProgramOnwards(m: Memory, data: seq<Byte>, address: nat, i: nat)
    requires address + |data| <= |m| && i < |data|
    ensures Programmed(m, data[..i + 1], address) == ProgramByte(Programmed(m, data[..i], address), address + i, data[i])
    ensures ProgramStates(m, data[..i + 1], address) == ProgramStates(m, data[..i], address) + [Programmed(m, data[..i + 1], address)]
  {
    assert data[..i + 1][..i] == data[..i];
  }

  lemma ErasedOnwards(m: Memory, begin: nat, end: nat)
    requires begin <= end < |m|
    ensures IsErased(m, begin, end + 1) <==> IsErased(m, begin, end) && m[end] == ERASED
  {}

  class SynchronousFlash {
    const sectorSizes: seq<nat>
    var memory: Memory

    ghost var history: seq<Memory>    // the contents after every erased sector and every programmed byte
    ghost var clean: bool             // every byte programmed was erased at that moment

    ghost predicate Valid()
      reads this
    {
      AreSectors(sectorSizes) && |memory| == TotalSize()
    }

    function TotalSize(): nat {
      StartOf(sectorSizes, |sectorSizes|)
    }

    function SectorOfAddress(address: nat): (s: nat)
      requires AreSectors(sectorSizes) && address < TotalSize()
      ensures s < |sectorSizes| && StartOf(sectorSizes, s) <= address < StartOf(sectorSizes, s + 1)
    {
      SectorFrom(sectorSizes, address, 0)
    }

    constructor (sectorSizes: seq<nat>, memory: Memory)
      requires AreSectors(sectorSizes) && |memory| == StartOf(sectorSizes, |sectorSizes|)
      ensures Valid() && this.sectorSizes == sectorSizes && this.memory == memory && history == [] && clean
    {
      this.sectorSizes := sectorSizes;
      this.memory := memory;
      history := [];
      clean := true;
    }

    method ReadBuffer(address: nat, size: nat) returns (data: seq<Byte>)
      requires Valid() && address + size <= |memory|
      ensures data == memory[address..address + size]
    {
      data := memory[address..address + size];
    }

    method ProgramOne(address: nat, value: Byte)
      requires address < |memory|
      modifies this
      ensures memory == ProgramByte(old(memory), address, value)
      ensures clean == (old(clean) && old(memory[address]) == ERASED)
      ensures history == old(history) + [memory]
    {
      clean := clean && memory[address] == ERASED;
      memory := ProgramByte(memory, address, value);
      history := history + [memory];
    }

    method WriteBuffer(data: seq<Byte>, address: nat)
      requires Valid() && address + |data| <= |memory|
      modifies this
      ensures Valid() && memory == Programmed(old(memory), data, address)
      ensures clean <==> old(clean) && IsErased(old(memory), address, address + |data|)
      ensures history == old(history) + ProgramStates(old(memory), data, address)
    {
      var i := 0;
      while i < |data|
        invariant i <= |data| && |memory| == |old(memory)|
        invariant memory == Programmed(old(memory), data[..i], address)
        invariant clean <==> old(clean) && IsErased(old(memory), address, address + i)
        invariant history == old(history) + ProgramStates(old(memory), data[..i], address)
      {
        ProgramOnwards(old(memory), data, address, i);
        ProgrammedAt(old(memory), data[..i], address, address + i);
        ErasedOnwards(old(memory), address, address + i);
        ProgramOne(address + i, data[i]);
        Reassociated(old(history), ProgramStates(old(memory), data[..i], address), [memory]);
        i := i + 1;
      }
      assert data[..|data|] == data;
    }

    method EraseOne(sector: nat)
      requires Valid() && sector < |sectorSizes|
      modifies this`memory, this`history
      ensures Valid() && StartOf(sectorSizes, sector) <= StartOf(sectorSizes, sector + 1) <= |memory|
      ensures memory == Erased(old(memory), StartOf(sectorSizes, sector), StartOf(sectorSizes, sector + 1))
      ensures history == old(history) + [memory]
    {
      StartsAscend(sectorSizes, sector, sector + 1);
      StartsAscend(sectorSizes, sector + 1, |sectorSizes|);
      memory := Erased(memory, StartOf(sectorSizes, sector), StartOf(sectorSizes, sector + 1));
      history := history + [memory];
    }

    method EraseSectors(begin: nat, end: nat)
      requires Valid() && begin <= end <= |sectorSizes|
      modifies this`memory, this`history
      ensures Valid()
      ensures StartOf(sectorSizes, begin) <= StartOf(sectorSizes, end) <= |memory|
      ensures memory == Erased(old(memory), StartOf(sectorSizes, begin), StartOf(sectorSizes, end))
      ensures history == old(history) + EraseStates(sectorSizes, old(memory), begin, end)
    {
      StartsAscend(sectorSizes, begin, |sectorSizes|);
      var first := StartOf(sectorSizes, begin);
      var sector := begin;
      while sector < end
        invariant begin <= sector <= end && Valid()
        invariant first <= StartOf(sectorSizes, sector) <= |memory|
        invariant memory == Erased(old(memory), first, StartOf(sectorSizes, sector))
        invariant history == old(history) + EraseStates(sectorSizes, old(memory), begin, sector)
      {
        EraseStatesOnwards(sectorSizes, old(memory), begin, sector);
        EraseOne(sector);
        Reassociated(old(history), EraseStates(sectorSizes, old(memory), begin, sector), [memory]);
        sector := sector + 1;
      }
    }
  }
}
