/** Which images and slots start, told from their bytes, and what an upgrade from an encrypted pack comes to. */
module StartableApplications {
  import opened Bytes
  import opened Flash
  import opened ApplicationCheck
  import opened ApplicationInstaller

  function Weighed(a: nat, b: nat, c: nat, d: nat): nat {
    a + 0x100 * b + 0x1_0000 * c + 0x100_0000 * d
  }

  /** The number that four bytes make, least significant first. */
  function Number(bytes: seq<Byte>, place: nat): nat
    requires place + 4 <= |bytes|
  {
    Weighed(bytes[place], bytes[place + 1], bytes[place + 2], bytes[place + 3])
  }

  lemma FourBytes(w: seq<Byte>)
    requires |w| == 4
    ensures FromLittleEndian(w) == Weighed(w[0], w[1], w[2], w[3])
  {
    var w1, w2, w3 := w[1..], w[2..], w[3..];
    assert w1[1..] == w2 && w2[1..] == w3 && w3[1..] == [];
    assert FromLittleEndian(w3) == w[3];
    assert FromLittleEndian(w2) == Weighed(w[2], w[3], 0, 0);
    assert FromLittleEndian(w1) == Weighed(w[1], w[2], w[3], 0);
  }

  lemma TwoBytes(w: seq<Byte>)
    requires |w| == 2
    ensures FromLittleEndian(w) == Weighed(w[0], w[1], 0, 0)
  {
    assert w[1..][1..] == [];
    assert FromLittleEndian(w[1..]) == w[1];
  }

  lemma WordIsNumber(bytes: seq<Byte>, place: nat)
    requires place + 4 <= |bytes|
    ensures ReadWord(bytes, place) == Number(bytes, place)
  {
    var w := bytes[place..place + 4];
    FourBytes(w);
    assert w[0] == bytes[place] && w[1] == bytes[place + 1] && w[2] == bytes[place + 2] && w[3] == bytes[place + 3];
  }

  /** The four bytes of a known number. */
  lemma KnownWord(bytes: seq<Byte>, place: nat, a: Byte, b: Byte, c: Byte, d: Byte)
    requires place + 4 <= |bytes|
    ensures ReadWord(bytes, place) == Weighed(a, b, c, d)
       <==> bytes[place..place + 4] == [a, b, c, d]
  {
    var w := bytes[place..place + 4];
    FourBytes(w);
    FourBytes([a, b, c, d]);
    if FromLittleEndian(w) == FromLittleEndian([a, b, c, d]) {
      FromLittleEndianInjective(w, [a, b, c, d]);
    }
  }

  lemma KnownShort(w: seq<Byte>, a: Byte, b: Byte)
    requires |w| == 2
    ensures FromLittleEndian(w) == Weighed(a, b, 0, 0) <==> w == [a, b]
  {
    TwoBytes(w);
    TwoBytes([a, b]);
    if FromLittleEndian(w) == FromLittleEndian([a, b]) {
      FromLittleEndianInjective(w, [a, b]);
    }
  }

  lemma VectorsFit(image: seq<Byte>, layout: TargetLayout)
    requires |image| >= 8
    ensures VectorsFitTarget(image, layout) <==>
            && layout.ramBegin < Number(image, 0) <= layout.ramEnd
            && image[4] % 2 == 1
            && layout.slotBegin <= Number(image, 4) - 1 < (layout.slotEnd - 64) % 0x1_0000_0000
  {
    WordIsNumber(image, 0);
    WordIsNumber(image, 4);
    assert Number(image, 4) % 2 == image[4] % 2;
  }

  lemma HeaderNames(image: seq<Byte>, accepts: seq<Byte> -> bool)
    requires |image| >= 0x440
    ensures HeaderNamesTarget(image, accepts) <==>
            && image[0x400..0x404] == [0x45, 0x4d, 0x41, 0x48]
            && image[0x404..0x406] == [1, 0]
            && accepts(image[0x400..0x440])
  {
    KnownWord(image, 0x400, 0x45, 0x4d, 0x41, 0x48);
    KnownShort(image[0x404..0x406], 1, 0);
  }

  /** The images that fit: stack in the RAM, an odd entry in front of the descriptor, the header's magic and version. */
  lemma ImageFits(image: seq<Byte>, env: Environment)
    ensures ImageStartFitsTarget(image, env) <==>
            && |image| >= 0x440
            && env.layout.ramBegin < Number(image, 0) <= env.layout.ramEnd
            && image[4] % 2 == 1
            && env.layout.slotBegin <= Number(image, 4) - 1 < (env.layout.slotEnd - 64) % 0x1_0000_0000
            && image[0x400..0x404] == [0x45, 0x4d, 0x41, 0x48]
            && image[0x404..0x406] == [1, 0]
            && env.accepts(image[0x400..0x440])
  {
    if |image| >= 0x440 {
      VectorsFit(image, env.layout);
      HeaderNames(image, env.accepts);
    }
  }

  /** The slots that start: a descriptor in the last 64 bytes, whose size and hash are those of a fitting image. */
  lemma SlotStarts(slot: Memory, env: Environment)
    ensures ApplicationIsStartable(slot, env) <==>
            && |slot| >= 64
            && slot[|slot| - 64..|slot| - 60] == [0x45, 0x4d, 0x49, 0x44]
            && var size := Number(slot, |slot| - 60);
            && 0x440 <= size <= |slot| - 64
            && slot[|slot| - 56..|slot| - 24] == env.hash(slot[..size])
            && ImageStartFitsTarget(slot[..size], env)
  {
    if |slot| >= 64 {
      KnownWord(slot, |slot| - 64, 0x45, 0x4d, 0x49, 0x44);
      WordIsNumber(slot, |slot| - 60);
    }
  }

  lemma WrittenNumber(value: Word)
    ensures Number(LittleEndian(value, 4), 0) == value
  {
    WordRange();
    LittleEndianRoundTrip(value, 4);
    FourBytes(LittleEndian(value, 4));
  }

  /** A slot with an image and its descriptor, written out. */
  predicate Describes(slot: Memory, image: seq<Byte>, hash: seq<Byte> -> Digest) {
    && |image| < 0x1_0000_0000 && |image| + 64 <= |slot|
    && slot[..|image|] == image
    && slot[|slot| - 64..] == [0x45, 0x4d, 0x49, 0x44] + LittleEndian(|image|, 4) + hash(image) + seq(24, _ => 0xff)
  }

  lemma MagicBytes()
    ensures LittleEndian(DESCRIPTOR_MAGIC, 4) == [0x45, 0x4d, 0x49, 0x44]
  {
  }

  lemma DescribedIsComplete(slot: Memory, image: seq<Byte>, hash: seq<Byte> -> Digest)
    ensures Describes(slot, image, hash) <==> IsComplete(slot, image, hash)
  {
    MagicBytes();
  }

  /**
   Where the vectors of an image that is installed have to point.  The vectors are the initial stack pointer and the
   reset handler, an even address of a thumb function with its lowest bit set.
   */
  lemma VectorsDecide(slot: Memory, image: seq<Byte>, stackPointer: Word, entry: Word, env: Environment)
    requires entry % 2 == 0 && |image| >= 0x440 && env.layout.slotEnd >= 64 && Describes(slot, image, env.hash)
    requires Number(image, 0) == stackPointer && Number(image, 4) == entry + 1
    requires image[0x400..0x404] == [0x45, 0x4d, 0x41, 0x48] && image[0x404..0x406] == [1, 0]
    requires env.accepts(image[0x400..0x440])
    ensures ApplicationIsStartable(slot, env) <==>
            && env.layout.ramBegin < stackPointer <= env.layout.ramEnd
            && env.layout.slotBegin <= entry < env.layout.slotEnd - 64
  {
    DescribedStarts(slot, image, env);
    VectorsFitExactly(image, stackPointer, entry, env);
  }

  lemma VectorsFitExactly(image: seq<Byte>, stackPointer: Word, entry: Word, env: Environment)
    requires entry % 2 == 0 && |image| >= 0x440 && env.layout.slotEnd >= 64
    requires Number(image, 0) == stackPointer && Number(image, 4) == entry + 1
    requires image[0x400..0x404] == [0x45, 0x4d, 0x41, 0x48] && image[0x404..0x406] == [1, 0]
    requires env.accepts(image[0x400..0x440])
    ensures ImageStartFitsTarget(image, env) <==>
            && env.layout.ramBegin < stackPointer <= env.layout.ramEnd
            && env.layout.slotBegin <= entry < env.layout.slotEnd - 64
  {
    LowestBitOfNumber(image, 4);
    NotWrapped(env.layout.slotEnd);
    ImageFits(image, env);
  }

  lemma DescribedStarts(slot: Memory, image: seq<Byte>, env: Environment)
    requires Describes(slot, image, env.hash)
    ensures ApplicationIsStartable(slot, env) <==> ImageStartFitsTarget(image, env)
  {
    DescribedIsComplete(slot, image, env.hash);
    CompleteStarts(slot, image, env);
  }

  lemma LowestBitOfNumber(bytes: seq<Byte>, place: nat)
    requires place + 4 <= |bytes|
    ensures Number(bytes, place) % 2 == bytes[place] % 2
  {
  }

  /** The number of bytes that were written for it. */
  lemma WrittenAt(bytes: seq<Byte>, place: nat, value: Word)
    requires place + 4 <= |bytes| && bytes[place..place + 4] == LittleEndian(value, 4)
    ensures Number(bytes, place) == value
  {
    WrittenNumber(value);
    SameNumber(bytes, place, bytes[place..place + 4]);
  }

  lemma NotWrapped(end: Word)
    requires end >= 64
    ensures (end - 64) % 0x1_0000_0000 == end - 64
  {
  }

  lemma SameNumber(bytes: seq<Byte>, place: nat, w: seq<Byte>)
    requires place + 4 <= |bytes| && w == bytes[place..place + 4]
    ensures Number(bytes, place) == Number(w, 0)
  {
  }

  /** What makes an image impossible to start, whatever else it has: an even entry, another magic, another version. */
  lemma RefusedImages(slot: Memory, image: seq<Byte>, env: Environment)
    requires |image| >= 0x440 && Describes(slot, image, env.hash)
    requires || Number(image, 4) % 2 == 0
             || image[0x400..0x404] != [0x45, 0x4d, 0x41, 0x48]
             || image[0x404..0x406] != [1, 0]
             || !env.accepts(image[0x400..0x440])
    ensures !ApplicationIsStartable(slot, env)
  {
    DescribedStarts(slot, image, env);
    ImageFits(image, env);
    LowestBitOfNumber(image, 4);
  }

  /** Each bit of a decrypted byte is the bit of the byte, turned over where the key stream has a one. */
  lemma DecryptedBits(data: seq<Byte>, stream: KeyStream, counter: seq<Byte>, position: nat, i: nat, place: nat)
    requires i < |data| && place < 8
    ensures Bit(Decrypted(data, stream, counter, position)[i], place) <==>
            (Bit(data[i], place) != Bit(stream(counter, position + i), place))
  {
    XorBits(data[i], stream(counter, position + i), BYTE_WIDTH, place);
  }

  /** What was encrypted comes back. */
  lemma DecryptedTwice(data: seq<Byte>, stream: KeyStream, counter: seq<Byte>, position: nat)
    ensures Decrypted(Decrypted(data, stream, counter, position), stream, counter, position) == data
  {
    forall i | 0 <= i < |data|
      ensures XorByte(XorByte(data[i], stream(counter, position + i)), stream(counter, position + i)) == data[i]
    {
      XorByteTwice(data[i], stream(counter, position + i));
    }
  }

  /** The states of an upgrade, with the complete one told from its bytes. */
  lemma SafeStates(states: seq<Memory>, from: nat, before: Memory, image: seq<Byte>, env: Environment)
    requires from <= |states| && forall k | from <= k < |states| :: IsSafe(states[k], before, image, env)
    ensures forall k | from <= k < |states| ::
              || states[k] == before
              || !ApplicationIsStartable(states[k], env)
              || Describes(states[k], image, env.hash)
  {
    forall k | from <= k < |states|
      ensures IsSafe(states[k], before, image, env) && (Describes(states[k], image, env.hash) <==> IsComplete(states[k], image, env.hash))
    {
      DescribedIsComplete(states[k], image, env.hash);
    }
  }

  lemma ResultOfFit(image: seq<Byte>, destination: Word, total: nat, env: Environment)
    requires total == env.layout.slotEnd - env.layout.slotBegin
    ensures Result(image, destination, total, env) ==
            if destination != env.layout.slotBegin then ERROR_WRONG_DESTINATION
            else if !SizeFits(|image|, total) then ERROR_IMAGE_SIZE
            else if !ImageStartFitsTarget(image, env) then ERROR_WRONG_TARGET
            else 0
  {
    ImageFits(image, env);
  }

  /** The pack holds the encrypted image at the address, and the counter it was encrypted with in front of the epilogue. */
  predicate Holds(pack: Memory, address: nat, image: seq<Byte>, stream: KeyStream, counter: seq<Byte>) {
    && 24 <= address && address + |image| <= |pack| && |counter| == 16
    && pack[address - 24..address - 8] == counter
    && pack[address..address + |image|] == Decrypted(image, stream, counter, 8)
  }

  /** The result an upgrade to a slot of this size should have. */
  function Result(image: seq<Byte>, destination: Word, total: nat, env: Environment): Word {
    if destination != env.layout.slotBegin then 1001
    else if |image| < 0x440 || |image| + 64 > total then 1002
    else if && env.layout.ramBegin < Number(image, 0) <= env.layout.ramEnd
            && image[4] % 2 == 1
            && env.layout.slotBegin <= Number(image, 4) - 1 < env.layout.slotEnd - 64
            && image[0x400..0x404] == [0x45, 0x4d, 0x41, 0x48]
            && image[0x404..0x406] == [1, 0]
            && env.accepts(image[0x400..0x440]) then 0
    else 1000
  }

  /** An upgrade from a pack that was made for an image: installed and started if it is for this target, else refused. */
  method UpgradeFromPack(installer: ApplicationInstaller, pack: SynchronousFlash, address: nat, ghost image: seq<Byte>,
                         imageSize: Word, ghost counter: seq<Byte>, destination: Word) returns (result: Word)
    requires installer.Valid() && installer.slot.Valid() && pack.Valid() && pack != installer.slot
    requires imageSize == |image| && Holds(pack.memory, address, image, installer.decryptor.stream, counter)
    requires installer.decryptor.state == counter && installer.decryptor.position == 8
    modifies installer.slot, installer.decryptor, installer.checkDecryptor
    ensures installer.slot.Valid()
    ensures result == Result(image, destination, |old(installer.slot.memory)|, installer.env)
    ensures result != 0 ==> installer.slot.memory == old(installer.slot.memory)
    ensures result == 0 ==> Describes(installer.slot.memory, image, installer.env.hash)
                            && ApplicationIsStartable(installer.slot.memory, installer.env)
    ensures old(installer.slot.history) <= installer.slot.history
    ensures forall k | |old(installer.slot.history)| <= k < |installer.slot.history| ::
              || installer.slot.history[k] == old(installer.slot.memory)
              || !ApplicationIsStartable(installer.slot.history[k], installer.env)
              || Describes(installer.slot.history[k], image, installer.env.hash)
  {
    DecryptedTwice(image, installer.decryptor.stream, counter, 8);
    assert installer.Image(pack.memory, address, imageSize) == image;
    ResultOfFit(image, destination, |installer.slot.memory|, installer.env);
    ghost var before, earlier := installer.slot.memory, |installer.slot.history|;
    result := installer.Upgrade(pack, address, imageSize, destination);
    DescribedIsComplete(installer.slot.memory, image, installer.env.hash);
    SafeStates(installer.slot.history, earlier, before, image, installer.env);
  }
}
