/**
 Installing an image into the slot: check, erase, copy and decrypt, describe.  Besides the final contents, the
 contract of Upgrade covers every state of the flash a power cut can leave behind.
 */
module ApplicationInstaller {
  import opened Bytes
  import opened Flash
  import opened ApplicationCheck
  import opened Sequences

  const INITIAL_COUNTER_SIZE: nat := 16
  const EPILOGUE_SIZE: nat := 8
  const START_CHECK_SIZE: nat := 2048

  const ERROR_WRONG_TARGET: Word := 1000
  const ERROR_WRONG_DESTINATION: Word := 1001
  const ERROR_IMAGE_SIZE: Word := 1002

  /** The byte of the key stream at each position, given the initial counter. */
  type KeyStream = (seq<Byte>, nat) -> Byte

  function Decrypted(data: seq<Byte>, stream: KeyStream, counter: seq<Byte>, position: nat): (r: seq<Byte>)
    ensures |r| == |data|
  {
    seq(|data|, i requires 0 <= i < |data| => XorByte(data[i], stream(counter, position + i)))
  }

  /** Decryption in parts: part of a result is the result of that part, further on in the key stream. */
  lemma DecryptedPart(data: seq<Byte>, stream: KeyStream, counter: seq<Byte>, position: nat, offset: nat, size: nat)
    requires offset + size <= |data|
    ensures Decrypted(data, stream, counter, position)[offset..offset + size]
         == Decrypted(data[offset..offset + size], stream, counter, position + offset)
  {}

  class Decryptor {
    const stream: KeyStream
    var state: seq<Byte>
    var position: nat

    constructor (stream: KeyStream)
      ensures this.stream == stream
    {
      this.stream := stream;
      state := [];
      position := 0;
    }

    method SetState(state: seq<Byte>)
      modifies this`state
      ensures this.state == state
    {
      this.state := state;
    }

    method Reset()
      modifies this`position
      ensures position == 0
    {
      position := 0;
    }

    method DecryptPart(data: seq<Byte>) returns (plain: seq<Byte>)
      modifies this`position
      ensures plain == Decrypted(data, stream, state, old(position)) && position == old(position) + |data|
    {
      plain := Decrypted(data, stream, state, position);
      position := position + |data|;
    }
  }

  /** The slot once the sectors of the image and of the descriptor are erased. */
  function Prepared(sizes: seq<nat>, m: Memory, imageSize: nat): (r: Memory)
    requires AreSectors(sizes) && |m| == StartOf(sizes, |sizes|) && 0 < imageSize <= |m|
    ensures |r| == |m|
  {
    var last := SectorFrom(sizes, imageSize - 1, 0);
    StartsAscend(sizes, last + 1, |sizes|);
    StartsAscend(sizes, |sizes| - 1, |sizes|);
    var m' := Erased(m, 0, StartOf(sizes, last + 1));
    if |sizes| - 1 > last then Erased(m', StartOf(sizes, |sizes| - 1), |m|) else m'
  }

  predicate SizeFits(imageSize: nat, totalSize: nat) {
    HEADER_OFFSET + HEADER_SIZE <= imageSize <= totalSize - DESCRIPTOR_SIZE
  }

  /** What is assumed of the slot: the first sector holds the vectors, the last one the descriptor. */
  predicate IsSlot(sizes: seq<nat>, env: Environment) {
    && AreSectors(sizes) && sizes[0] >= 8 && sizes[|sizes| - 1] >= DESCRIPTOR_SIZE
    && StartOf(sizes, |sizes|) < 0xff00_0000
    && StartOf(sizes, |sizes|) == env.layout.slotEnd - env.layout.slotBegin
  }

  lemma PreparedIsErased(sizes: seq<nat>, m: Memory, imageSize: nat, env: Environment)
    requires IsSlot(sizes, env) && |m| == StartOf(sizes, |sizes|) && 0 < imageSize <= |m| - DESCRIPTOR_SIZE
    ensures IsErased(Prepared(sizes, m, imageSize), 0, imageSize)
    ensures IsErased(Prepared(sizes, m, imageSize), |m| - DESCRIPTOR_SIZE, |m|)
  {
    var last := SectorFrom(sizes, imageSize - 1, 0);
    StartsAscend(sizes, last + 1, |sizes|);
    StartsAscend(sizes, |sizes| - 1, |sizes|);
    var r, end := Prepared(sizes, m, imageSize), StartOf(sizes, |sizes| - 1);
    assert end + sizes[|sizes| - 1] == |m|;
    assert imageSize <= StartOf(sizes, last + 1);
    if last < |sizes| - 1 {
      ErasedTwice(m, StartOf(sizes, last + 1), end);
    } else {
      assert r == Erased(m, 0, |m|);
      ErasedWithin(m, 0, |m|);
    }
  }

  lemma SectorsOfImage(sizes: seq<nat>, imageSize: nat, last: nat, sector: nat)
    requires AreSectors(sizes) && last < |sizes| && sector < |sizes|
    requires 0 < imageSize && StartOf(sizes, last) < imageSize <= StartOf(sizes, last + 1)
    ensures StartOf(sizes, sector) < imageSize <==> sector <= last
  {
    if sector <= last {
      StartsAscend(sizes, sector, last);
    } else {
      StartsAscend(sizes, last + 1, sector);
    }
  }

  lemma BeforeSector(sizes: seq<nat>, k: nat, sector: nat, other: nat)
    requires sector < |sizes| && StartOf(sizes, sector) <= k < StartOf(sizes, sector + 1) && other <= |sizes|
    ensures k < StartOf(sizes, other) <==> sector < other
  {
    if sector < other {
      StartsAscend(sizes, sector + 1, other);
    } else {
      StartsAscend(sizes, other, sector);
    }
  }

  lemma ErasedAt(m: Memory, begin: nat, end: nat, k: nat)
    requires begin <= |m| && end <= |m| && k < |m|
    ensures Erased(m, 0, begin)[k] == if k < begin then 0xff else m[k]
    ensures Erased(Erased(m, 0, begin), end, |m|)[k] == if k < begin || end <= k then 0xff else m[k]
  {
  }

  /** The bytes of the sectors that the image reaches and of the last sector are erased, and no others. */
  lemma PreparedAt(sizes: seq<nat>, m: Memory, imageSize: nat, k: nat, sector: nat)
    requires AreSectors(sizes) && |m| == StartOf(sizes, |sizes|) && 0 < imageSize <= |m| && k < |m|
    requires sector < |sizes| && StartOf(sizes, sector) <= k < StartOf(sizes, sector + 1)
    ensures Prepared(sizes, m, imageSize)[k]
         == if StartOf(sizes, sector) < imageSize || sector == |sizes| - 1 then 0xff else m[k]
  {
    var last := SectorFrom(sizes, imageSize - 1, 0);
    PlaceOfSector(sizes, imageSize, last, k, sector);
    PreparedUpTo(sizes, m, imageSize, last, k);
  }

  lemma PlaceOfSector(sizes: seq<nat>, imageSize: nat, last: nat, k: nat, sector: nat)
    requires AreSectors(sizes) && last < |sizes| && 0 < imageSize && StartOf(sizes, last) < imageSize <= StartOf(sizes, last + 1)
    requires sector < |sizes| && StartOf(sizes, sector) <= k < StartOf(sizes, sector + 1)
    ensures k < StartOf(sizes, last + 1) || StartOf(sizes, |sizes| - 1) <= k
       <==> StartOf(sizes, sector) < imageSize || sector == |sizes| - 1
  {
    SectorsOfImage(sizes, imageSize, last, sector);
    BeforeSector(sizes, k, sector, last + 1);
    BeforeSector(sizes, k, sector, |sizes| - 1);
  }

  lemma PreparedUpTo(sizes: seq<nat>, m: Memory, imageSize: nat, last: nat, k: nat)
    requires AreSectors(sizes) && |m| == StartOf(sizes, |sizes|) && 0 < imageSize <= |m| && k < |m|
    requires last == SectorFrom(sizes, imageSize - 1, 0)
    ensures Prepared(sizes, m, imageSize)[k]
         == if k < StartOf(sizes, last + 1) || StartOf(sizes, |sizes| - 1) <= k then 0xff else m[k]
  {
    StartsAscend(sizes, last + 1, |sizes|);
    StartsAscend(sizes, |sizes| - 1, |sizes|);
    ErasedAt(m, StartOf(sizes, last + 1), StartOf(sizes, |sizes| - 1), k);
  }

  lemma ErasedTwice(m: Memory, begin: nat, end: nat)
    requires begin <= |m| && end <= |m|
    ensures IsErased(Erased(Erased(m, 0, begin), end, |m|), 0, begin)
    ensures IsErased(Erased(Erased(m, 0, begin), end, |m|), end, |m|)
  {
    var m' := Erased(m, 0, begin);
    ErasedWithin(m', end, |m|);
    ErasedWithin(m, 0, begin);
  }

  lemma ErasedWithin(m: Memory, begin: nat, end: nat)
    requires begin <= end <= |m|
    ensures IsErased(Erased(m, begin, end), begin, end)
    ensures forall i | 0 <= i < |m| && m[i] == ERASED :: Erased(m, begin, end)[i] == ERASED
  {}

  /** No state from the given one on starts. */
  ghost predicate NoneStarts(states: seq<Memory>, from: nat, env: Environment) {
    forall k | from <= k < |states| :: !ApplicationIsStartable(states[k], env)
  }

  lemma AppendedDoNotStart(states: seq<Memory>, more: seq<Memory>, from: nat, env: Environment)
    requires NoneStarts(states, from, env) && forall s | s in more :: !ApplicationIsStartable(s, env)
    ensures NoneStarts(states + more, from, env)
  {}

  lemma PhasesDoNotStart(earlier: seq<Memory>, states: seq<Memory>, from: nat, env: Environment)
    requires from <= |earlier| && earlier <= states && NoneStarts(earlier, from, env) && NoneStarts(states, |earlier|, env)
    ensures NoneStarts(states, from, env)
  {
    assert forall k | from <= k < |earlier| :: states[k] == earlier[k];
  }

  /** From a place on, a state is complete if it starts. */
  ghost predicate OnlyCompleteStarts(states: seq<Memory>, from: nat, image: seq<Byte>, env: Environment) {
    forall k | from <= k < |states| :: ApplicationIsStartable(states[k], env) ==> IsComplete(states[k], image, env.hash)
  }

  lemma PhasesAreSafe(earlier: seq<Memory>, states: seq<Memory>, from: nat, image: seq<Byte>, env: Environment)
    requires from <= |earlier| && earlier <= states && NoneStarts(earlier, from, env)
    requires OnlyCompleteStarts(states, |earlier|, image, env)
    ensures OnlyCompleteStarts(states, from, image, env)
  {
    assert forall k | from <= k < |earlier| :: states[k] == earlier[k];
  }

  lemma EraseStatesDoNotStart(sizes: seq<nat>, m: Memory, begin: nat, end: nat, env: Environment)
    requires IsSlot(sizes, env) && |m| == StartOf(sizes, |sizes|) && begin <= end <= |sizes|
    requires begin == 0 || IsErased(m, 0, 8)
    ensures forall s | s in EraseStates(sizes, m, begin, end) :: !ApplicationIsStartable(s, env)
  {
    forall s | s in EraseStates(sizes, m, begin, end)
      ensures !ApplicationIsStartable(s, env)
    {
      var upTo := EraseStateIsPrefix(sizes, m, begin, end, s);
      StartsAscend(sizes, 1, upTo);
      assert StartOf(sizes, 1) == StartOf(sizes, 0) + sizes[0];
      ErasedVectorsDoNotStart(s, env);
    }
  }

  lemma CopyStatesDoNotStart(m: Memory, data: seq<Byte>, address: nat, env: Environment)
    requires address + |data| + DESCRIPTOR_SIZE <= |m| && IsErased(m, |m| - DESCRIPTOR_SIZE, |m|)
    ensures forall s | s in ProgramStates(m, data, address) :: !ApplicationIsStartable(s, env)
  {
    forall s | s in ProgramStates(m, data, address)
      ensures !ApplicationIsStartable(s, env)
    {
      var count := ProgramStateIsPrefix(m, data, address, s);
      ProgrammedAt(m, data[..count], address, |m| - DESCRIPTOR_SIZE + 3);
      ErasedMagicDoesNotStart(s, env);
    }
  }

  lemma PartlyProgrammed(m: Memory, data: seq<Byte>, address: nat, count: nat)
    requires address + |data| == |m| && count <= |data| && IsErased(m, address, |m|)
    ensures Programmed(m, data[..count], address)[..address] == m[..address]
    ensures Programmed(m, data[..count], address)[address..] == data[..count] + seq(|data| - count, _ => ERASED)
  {
    ProgrammingErasedStores(m, data[..count], address);
    assert m[address + count..] == seq(|data| - count, _ => ERASED);
  }

  lemma DescriptorStateIsSafe(m: Memory, image: seq<Byte>, count: nat, env: Environment)
    requires |image| + DESCRIPTOR_SIZE <= |m| < 0xff00_0000 && count <= DESCRIPTOR_SIZE
    requires m[..|image|] == image && IsErased(m, |m| - DESCRIPTOR_SIZE, |m|)
    ensures
      var s := Programmed(m, MakeImageDescriptor(image, env.hash)[..count], |m| - DESCRIPTOR_SIZE);
      ApplicationIsStartable(s, env) ==> IsComplete(s, image, env.hash)
  {
    var place, descriptor := |m| - DESCRIPTOR_SIZE, MakeImageDescriptor(image, env.hash);
    var s := Programmed(m, descriptor[..count], place);
    PartlyProgrammed(m, descriptor, place, count);
    assert s[..|image|] == s[..place][..|image|] == m[..place][..|image|] == m[..|image|];
    TornDescriptorDoesNotStart(s, image, count, env);
  }

  lemma AnyDescriptorStateIsSafe(m: Memory, image: seq<Byte>, state: Memory, env: Environment)
    requires |image| + DESCRIPTOR_SIZE <= |m| < 0xff00_0000
    requires m[..|image|] == image && IsErased(m, |m| - DESCRIPTOR_SIZE, |m|)
    requires state in ProgramStates(m, MakeImageDescriptor(image, env.hash), |m| - DESCRIPTOR_SIZE)
    ensures ApplicationIsStartable(state, env) ==> IsComplete(state, image, env.hash)
  {
    var count := ProgramStateIsPrefix(m, MakeImageDescriptor(image, env.hash), |m| - DESCRIPTOR_SIZE, state);
    DescriptorStateIsSafe(m, image, count, env);
  }

  lemma DescriptorStatesAreSafe(m: Memory, image: seq<Byte>, earlier: seq<Memory>, env: Environment)
    requires |image| + DESCRIPTOR_SIZE <= |m| < 0xff00_0000
    requires m[..|image|] == image && IsErased(m, |m| - DESCRIPTOR_SIZE, |m|)
    ensures
      var history := earlier + ProgramStates(m, MakeImageDescriptor(image, env.hash), |m| - DESCRIPTOR_SIZE);
      OnlyCompleteStarts(history, |earlier|, image, env)
  {
    var history := earlier + ProgramStates(m, MakeImageDescriptor(image, env.hash), |m| - DESCRIPTOR_SIZE);
    forall k | |earlier| <= k < |history|
      ensures ApplicationIsStartable(history[k], env) ==> IsComplete(history[k], image, env.hash)
    {
      AnyDescriptorStateIsSafe(m, image, history[k], env);
    }
  }

  /** One more chunk of an image that is being copied. */
  lemma CopyOnwards(before: Memory, image: seq<Byte>, offset: nat, size: nat)
    requires offset + size <= |image| && |image| + DESCRIPTOR_SIZE <= |before|
    requires IsErased(before, 0, |image|) && IsErased(before, |before| - DESCRIPTOR_SIZE, |before|)
    ensures
      var m := Replaced(before, 0, image[..offset]);
      && IsErased(m, offset, offset + size) && IsErased(m, |m| - DESCRIPTOR_SIZE, |m|)
      && Programmed(m, image[offset..offset + size], offset) == Replaced(before, 0, image[..offset + size])
  {
    var m := Replaced(before, 0, image[..offset]);
    assert IsErased(m, offset, offset + size);
    ProgrammingErasedStores(m, image[offset..offset + size], offset);
    PieceOnwards(before, image, offset, size);
  }

  lemma PieceOnwards(before: Memory, image: seq<Byte>, offset: nat, size: nat)
    requires offset + size <= |image| <= |before|
    ensures
      var m := Replaced(before, 0, image[..offset]);
      m[..offset] + image[offset..offset + size] + m[offset + size..] == Replaced(before, 0, image[..offset + size])
  {
    var m := Replaced(before, 0, image[..offset]);
    assert m[..offset] == image[..offset] && m[offset + size..] == before[offset + size..];
    assert image[..offset + size] == image[..offset] + image[offset..offset + size];
  }

  /** What a power cut may leave: the old slot, a slot that does not start, or the whole new image. */
  predicate IsSafe(state: Memory, before: Memory, image: seq<Byte>, env: Environment) {
    || state == before
    || !ApplicationIsStartable(state, env)
    || IsComplete(state, image, env.hash)
  }

  lemma ReplacedKeepsEnd(m: Memory, image: seq<Byte>)
    requires |image| + DESCRIPTOR_SIZE <= |m| && IsErased(m, |m| - DESCRIPTOR_SIZE, |m|)
    ensures Replaced(m, 0, image)[..|image|] == image
    ensures IsErased(Replaced(m, 0, image), |m| - DESCRIPTOR_SIZE, |m|)
  {
  }

  class ApplicationInstaller {
    const decryptor: Decryptor
    const checkDecryptor: Decryptor
    const slot: SynchronousFlash
    const env: Environment
    const bufferSize: nat

    constructor (decryptor: Decryptor, checkDecryptor: Decryptor, slot: SynchronousFlash, env: Environment, bufferSize: nat)
      requires bufferSize >= START_CHECK_SIZE && IsSlot(slot.sectorSizes, env)
      requires decryptor != checkDecryptor && decryptor.stream == checkDecryptor.stream
      ensures Valid()
      ensures this.decryptor == decryptor && this.checkDecryptor == checkDecryptor && this.slot == slot && this.env == env
    {
      this.decryptor := decryptor;
      this.checkDecryptor := checkDecryptor;
      this.slot := slot;
      this.env := env;
      this.bufferSize := bufferSize;
    }

    ghost predicate Valid() {
      && bufferSize >= START_CHECK_SIZE && IsSlot(slot.sectorSizes, env)
      && decryptor != checkDecryptor && decryptor.stream == checkDecryptor.stream
    }

    /** The decrypted image. */
    ghost function Image(pack: Memory, imageAddress: nat, imageSize: nat): (image: seq<Byte>)
      requires INITIAL_COUNTER_SIZE + EPILOGUE_SIZE <= imageAddress && imageAddress + imageSize <= |pack|
      ensures |image| == imageSize
    {
      Decrypted(pack[imageAddress..imageAddress + imageSize], decryptor.stream, Counter(pack, imageAddress), EPILOGUE_SIZE)
    }

    /** The initial counter stored in front of the encrypted header and image. */
    ghost function Counter(pack: Memory, imageAddress: nat): seq<Byte>
      requires INITIAL_COUNTER_SIZE + EPILOGUE_SIZE <= imageAddress <= |pack|
    {
      pack[imageAddress - EPILOGUE_SIZE - INITIAL_COUNTER_SIZE..imageAddress - EPILOGUE_SIZE]
    }

    method Upgrade(packFlash: SynchronousFlash, imageAddress: nat, imageSize: Word, destinationAddress: Word) returns (result: Word)
      requires Valid() && slot.Valid() && packFlash.Valid() && packFlash != slot
      requires INITIAL_COUNTER_SIZE + EPILOGUE_SIZE <= imageAddress && imageAddress + imageSize <= |packFlash.memory|
      requires decryptor.state == Counter(packFlash.memory, imageAddress) && decryptor.position == EPILOGUE_SIZE
      modifies slot, decryptor, checkDecryptor
      ensures slot.Valid()
      ensures result == if destinationAddress != env.layout.slotBegin then ERROR_WRONG_DESTINATION
                        else if !SizeFits(imageSize, |slot.memory|) then ERROR_IMAGE_SIZE
                        else if !ImageStartFitsTarget(Image(packFlash.memory, imageAddress, imageSize), env) then ERROR_WRONG_TARGET
                        else 0
      ensures result != 0 ==> slot.memory == old(slot.memory) && slot.history == old(slot.history)
      ensures result == 0 ==>
        var image := Image(packFlash.memory, imageAddress, imageSize);
        && SizeFits(imageSize, |old(slot.memory)|)
        && slot.memory == Replaced(Replaced(Prepared(slot.sectorSizes, old(slot.memory), imageSize), 0, image),
                                   |slot.memory| - DESCRIPTOR_SIZE, MakeImageDescriptor(image, env.hash))
        && IsComplete(slot.memory, image, env.hash)
        && ApplicationIsStartable(slot.memory, env)
      ensures slot.clean == old(slot.clean)
      ensures old(slot.history) <= slot.history
      ensures forall k | |old(slot.history)| <= k < |slot.history| ::
                IsSafe(slot.history[k], old(slot.memory), Image(packFlash.memory, imageAddress, imageSize), env)
    {
      if destinationAddress != env.layout.slotBegin {
        return ERROR_WRONG_DESTINATION;
      }
      if !SizeFits(imageSize, slot.TotalSize()) {
        return ERROR_IMAGE_SIZE;
      }
      var fits := StartFitsTarget(packFlash, imageAddress, imageSize);
      if !fits {
        return ERROR_WRONG_TARGET;
      }
      Install(packFlash, imageAddress, imageSize);
      result := 0;
    }

    method Install(packFlash: SynchronousFlash, imageAddress: nat, imageSize: Word)
      requires Valid() && slot.Valid() && packFlash.Valid() && packFlash != slot && SizeFits(imageSize, |slot.memory|)
      requires INITIAL_COUNTER_SIZE + EPILOGUE_SIZE <= imageAddress && imageAddress + imageSize <= |packFlash.memory|
      requires decryptor.state == Counter(packFlash.memory, imageAddress) && decryptor.position == EPILOGUE_SIZE
      requires ImageStartFitsTarget(Image(packFlash.memory, imageAddress, imageSize), env)
      modifies slot, decryptor
      ensures slot.Valid() && slot.clean == old(slot.clean)
      ensures
        var image := Image(packFlash.memory, imageAddress, imageSize);
        && slot.memory == Replaced(Replaced(Prepared(slot.sectorSizes, old(slot.memory), imageSize), 0, image),
                                   |slot.memory| - DESCRIPTOR_SIZE, MakeImageDescriptor(image, env.hash))
        && IsComplete(slot.memory, image, env.hash)
        && ApplicationIsStartable(slot.memory, env)
      ensures old(slot.history) <= slot.history
      ensures OnlyCompleteStarts(slot.history, |old(slot.history)|, Image(packFlash.memory, imageAddress, imageSize), env)
    {
      PreparedIsErased(slot.sectorSizes, slot.memory, imageSize, env);
      EraseFor(imageSize);
      ghost var erased := slot.history;
      Copy(packFlash, imageAddress, imageSize);
      ghost var copied := slot.history;
      PhasesDoNotStart(erased, copied, |old(slot.history)|, env);
      ghost var image := Image(packFlash.memory, imageAddress, imageSize);
      ghost var prepared := Prepared(slot.sectorSizes, old(slot.memory), imageSize);
      ReplacedKeepsEnd(prepared, image);
      WriteDescriptor(imageSize, image);
      PhasesAreSafe(copied, slot.history, |old(slot.history)|, image, env);
      CompleteStarts(slot.memory, image, env);
    }

    method StartFitsTarget(packFlash: SynchronousFlash, imageAddress: nat, imageSize: Word) returns (fits: bool)
      requires Valid() && packFlash.Valid() && HEADER_OFFSET + HEADER_SIZE <= imageSize
      requires INITIAL_COUNTER_SIZE + EPILOGUE_SIZE <= imageAddress && imageAddress + imageSize <= |packFlash.memory|
      modifies checkDecryptor
      ensures fits <==> ImageStartFitsTarget(Image(packFlash.memory, imageAddress, imageSize), env)
    {
      var counter := packFlash.ReadBuffer(imageAddress - EPILOGUE_SIZE - INITIAL_COUNTER_SIZE, INITIAL_COUNTER_SIZE);
      checkDecryptor.SetState(counter);
      checkDecryptor.Reset();
      var epilogue := checkDecryptor.DecryptPart(seq(EPILOGUE_SIZE, _ => 0));
      var length := if imageSize < START_CHECK_SIZE then imageSize else START_CHECK_SIZE;
      var start := packFlash.ReadBuffer(imageAddress, length);
      start := checkDecryptor.DecryptPart(start);
      ghost var image := Image(packFlash.memory, imageAddress, imageSize);
      DecryptedPart(packFlash.memory[imageAddress..imageAddress + imageSize], decryptor.stream, counter, EPILOGUE_SIZE, 0, length);
      assert packFlash.memory[imageAddress..imageAddress + imageSize][0..length] == packFlash.memory[imageAddress..imageAddress + length];
      assert start == image[..length];
      StartDecides(image, length, env);
      fits := ImageStartFitsTarget(start, env);
    }

    method EraseFor(imageSize: Word)
      requires Valid() && slot.Valid() && SizeFits(imageSize, |slot.memory|)
      modifies slot`memory, slot`history
      ensures slot.Valid() && slot.memory == Prepared(slot.sectorSizes, old(slot.memory), imageSize)
      ensures old(slot.history) <= slot.history && NoneStarts(slot.history, |old(slot.history)|, env)
    {
      var lastImageSector := slot.SectorOfAddress(imageSize - 1);
      var descriptorSector := slot.SectorOfAddress(slot.TotalSize() - DESCRIPTOR_SIZE);
      SectorIsUnique(slot.sectorSizes, slot.TotalSize() - DESCRIPTOR_SIZE, descriptorSector, |slot.sectorSizes| - 1);
      EraseImageSectors(lastImageSector);
      if descriptorSector > lastImageSector {
        EraseDescriptorSector(descriptorSector);
      }
    }

    method EraseImageSectors(last: nat)
      requires Valid() && slot.Valid() && last < |slot.sectorSizes|
      modifies slot`memory, slot`history
      ensures slot.Valid() && StartOf(slot.sectorSizes, last + 1) <= |old(slot.memory)|
      ensures slot.memory == Erased(old(slot.memory), 0, StartOf(slot.sectorSizes, last + 1))
      ensures |slot.memory| >= 8 && IsErased(slot.memory, 0, 8)
      ensures old(slot.history) <= slot.history && NoneStarts(slot.history, |old(slot.history)|, env)
    {
      EraseStatesDoNotStart(slot.sectorSizes, slot.memory, 0, last + 1, env);
      StartsAscend(slot.sectorSizes, 1, last + 1);
      assert StartOf(slot.sectorSizes, 1) == StartOf(slot.sectorSizes, 0) + slot.sectorSizes[0];
      slot.EraseSectors(0, last + 1);
    }

    method EraseDescriptorSector(sector: nat)
      requires Valid() && slot.Valid() && sector < |slot.sectorSizes| && |slot.memory| >= 8 && IsErased(slot.memory, 0, 8)
      modifies slot`memory, slot`history
      ensures slot.Valid() && StartOf(slot.sectorSizes, sector) <= StartOf(slot.sectorSizes, sector + 1) <= |old(slot.memory)|
      ensures slot.memory == Erased(old(slot.memory), StartOf(slot.sectorSizes, sector), StartOf(slot.sectorSizes, sector + 1))
      ensures exists more :: slot.history == old(slot.history) + more && forall s | s in more :: !ApplicationIsStartable(s, env)
    {
      EraseStatesDoNotStart(slot.sectorSizes, slot.memory, sector, sector + 1, env);
      slot.EraseSectors(sector, sector + 1);
    }

    method Copy(packFlash: SynchronousFlash, imageAddress: nat, imageSize: Word)
      requires Valid() && slot.Valid() && packFlash.Valid() && packFlash != slot && SizeFits(imageSize, |slot.memory|)
      requires INITIAL_COUNTER_SIZE + EPILOGUE_SIZE <= imageAddress && imageAddress + imageSize <= |packFlash.memory|
      requires decryptor.state == Counter(packFlash.memory, imageAddress) && decryptor.position == EPILOGUE_SIZE
      requires IsErased(slot.memory, 0, imageSize) && IsErased(slot.memory, |slot.memory| - DESCRIPTOR_SIZE, |slot.memory|)
      modifies slot, decryptor`position
      ensures slot.Valid() && slot.clean == old(slot.clean)
      ensures slot.memory == Replaced(old(slot.memory), 0, Image(packFlash.memory, imageAddress, imageSize))
      ensures old(slot.history) <= slot.history && NoneStarts(slot.history, |old(slot.history)|, env)
    {
      var offset := 0;
      ghost var image := Image(packFlash.memory, imageAddress, imageSize);
      assert image[..0] == [];
      while offset < imageSize
        invariant 0 <= offset <= imageSize
        invariant slot.Valid() && slot.clean == old(slot.clean)
        invariant slot.memory == Replaced(old(slot.memory), 0, image[..offset])
        invariant decryptor.position == EPILOGUE_SIZE + offset
        invariant old(slot.history) <= slot.history && NoneStarts(slot.history, |old(slot.history)|, env)
      {
        var size := if bufferSize < imageSize - offset then bufferSize else imageSize - offset;
        ghost var history := slot.history;
        CopyOnwards(old(slot.memory), image, offset, size);
        CopyChunk(packFlash, imageAddress, imageSize, offset, size);
        AppendedDoNotStart(history, slot.history[|history|..], |old(slot.history)|, env);
        assert slot.history == history + slot.history[|history|..];
        offset := offset + size;
      }
      assert image[..imageSize] == image;
    }

    method CopyChunk(packFlash: SynchronousFlash, imageAddress: nat, imageSize: Word, offset: nat, size: nat)
      requires Valid() && slot.Valid() && packFlash.Valid() && packFlash != slot && SizeFits(imageSize, |slot.memory|)
      requires INITIAL_COUNTER_SIZE + EPILOGUE_SIZE <= imageAddress && imageAddress + imageSize <= |packFlash.memory|
      requires offset + size <= imageSize
      requires decryptor.state == Counter(packFlash.memory, imageAddress) && decryptor.position == EPILOGUE_SIZE + offset
      requires IsErased(slot.memory, offset, offset + size) && IsErased(slot.memory, |slot.memory| - DESCRIPTOR_SIZE, |slot.memory|)
      modifies slot, decryptor`position
      ensures slot.Valid() && slot.clean == old(slot.clean)
      ensures slot.memory == Programmed(old(slot.memory), Image(packFlash.memory, imageAddress, imageSize)[offset..offset + size], offset)
      ensures decryptor.position == EPILOGUE_SIZE + offset + size
      ensures old(slot.history) <= slot.history
      ensures forall s | s in slot.history[|old(slot.history)|..] :: !ApplicationIsStartable(s, env)
    {
      var chunk := ReadChunk(packFlash, imageAddress, imageSize, offset, size);
      ProgramChunk(chunk, offset);
    }

    method ReadChunk(packFlash: SynchronousFlash, imageAddress: nat, imageSize: Word, offset: nat, size: nat) returns (chunk: seq<Byte>)
      requires packFlash.Valid() && offset + size <= imageSize
      requires INITIAL_COUNTER_SIZE + EPILOGUE_SIZE <= imageAddress && imageAddress + imageSize <= |packFlash.memory|
      requires decryptor.state == Counter(packFlash.memory, imageAddress) && decryptor.position == EPILOGUE_SIZE + offset
      modifies decryptor`position
      ensures chunk == Image(packFlash.memory, imageAddress, imageSize)[offset..offset + size]
      ensures decryptor.position == EPILOGUE_SIZE + offset + size
    {
      chunk := packFlash.ReadBuffer(imageAddress + offset, size);
      ghost var encrypted := packFlash.memory[imageAddress..imageAddress + imageSize];
      assert chunk == encrypted[offset..offset + size];
      DecryptedPart(encrypted, decryptor.stream, decryptor.state, EPILOGUE_SIZE, offset, size);
      chunk := decryptor.DecryptPart(chunk);
    }

    method ProgramChunk(chunk: seq<Byte>, offset: nat)
      requires slot.Valid() && offset + |chunk| <= |slot.memory| - DESCRIPTOR_SIZE && DESCRIPTOR_SIZE <= |slot.memory|
      requires |slot.memory| == env.layout.slotEnd - env.layout.slotBegin
      requires IsErased(slot.memory, offset, offset + |chunk|) && IsErased(slot.memory, |slot.memory| - DESCRIPTOR_SIZE, |slot.memory|)
      modifies slot
      ensures slot.Valid() && slot.clean == old(slot.clean) && slot.memory == Programmed(old(slot.memory), chunk, offset)
      ensures old(slot.history) <= slot.history
      ensures forall s | s in slot.history[|old(slot.history)|..] :: !ApplicationIsStartable(s, env)
    {
      CopyStatesDoNotStart(slot.memory, chunk, offset, env);
      slot.WriteBuffer(chunk, offset);
    }

    /** The bytes the incremental hash is fed, buffer by buffer. */
    method ReadForHash(imageSize: Word) returns (hashed: seq<Byte>)
      requires Valid() && slot.Valid() && SizeFits(imageSize, |slot.memory|)
      ensures hashed == slot.memory[..imageSize]
    {
      hashed := [];
      var offset := 0;
      while offset < imageSize
        invariant 0 <= offset <= imageSize && hashed == slot.memory[..offset]
      {
        var size := if bufferSize < imageSize - offset then bufferSize else imageSize - offset;
        var chunk := slot.ReadBuffer(offset, size);
        hashed := hashed + chunk;
        offset := offset + size;
      }
    }

    method WriteDescriptor(imageSize: Word, ghost image: seq<Byte>)
      requires Valid() && slot.Valid() && SizeFits(imageSize, |slot.memory|)
      requires |image| == imageSize && slot.memory[..imageSize] == image
      requires IsErased(slot.memory, |slot.memory| - DESCRIPTOR_SIZE, |slot.memory|)
      modifies slot
      ensures slot.Valid() && slot.clean == old(slot.clean)
      ensures slot.memory == Replaced(old(slot.memory), |slot.memory| - DESCRIPTOR_SIZE, MakeImageDescriptor(image, env.hash))
      ensures IsComplete(slot.memory, image, env.hash)
      ensures old(slot.history) <= slot.history
      ensures OnlyCompleteStarts(slot.history, |old(slot.history)|, image, env)
    {
      var hashed := ReadForHash(imageSize);
      var descriptor := MakeImageDescriptor(hashed, env.hash);
      var place := slot.TotalSize() - DESCRIPTOR_SIZE;
      ghost var before := slot.memory;
      ProgrammingErasedStores(slot.memory, descriptor, place);
      slot.WriteBuffer(descriptor, place);
      DescriptorStatesAreSafe(before, image, old(slot.history), env);
    }
  }
}
