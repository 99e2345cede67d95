/** When a slot is started: the image descriptor, the vectors and the header at the image start. */
module ApplicationCheck {
  import opened Bytes
  import opened Flash

  const HEADER_OFFSET: nat := 0x400
  const HEADER_SIZE: nat := 64
  const DESCRIPTOR_SIZE: nat := 64
  const HEADER_MAGIC: Word := 0x48414d45
  const HEADER_VERSION: nat := 1
  const DESCRIPTOR_MAGIC: Word := 0x44494d45

  datatype TargetLayout = TargetLayout(ramBegin: Word, ramEnd: Word, slotBegin: Word, slotEnd: Word)

  type Digest = d: seq<Byte> | |d| == 32 witness seq(32, _ => 0)

  /** The hash function and the target's own check of the 64 header bytes, about which nothing is assumed. */
  datatype Environment = Environment(hash: seq<Byte> -> Digest, accepts: seq<Byte> -> bool, layout: TargetLayout)

  /** Subtraction of 32-bit words. */
  function SubtractWord(a: Word, b: Word): Word {
    (a - b) % 0x1_0000_0000
  }

  predicate VectorsFitTarget(imageStart: seq<Byte>, layout: TargetLayout)
    requires |imageStart| >= 8
  {
    var stackPointer := ReadWord(imageStart, 0);
    var resetHandler := ReadWord(imageStart, 4);
    var resetAddress := resetHandler - resetHandler % 2;
    && stackPointer > layout.ramBegin && stackPointer <= layout.ramEnd && resetHandler % 2 != 0
    && resetAddress >= layout.slotBegin && resetAddress < SubtractWord(layout.slotEnd, DESCRIPTOR_SIZE)
  }

  predicate HeaderNamesTarget(imageStart: seq<Byte>, accepts: seq<Byte> -> bool)
    requires |imageStart| >= HEADER_OFFSET + HEADER_SIZE
  {
    && ReadWord(imageStart, HEADER_OFFSET) == HEADER_MAGIC
    && FromLittleEndian(imageStart[HEADER_OFFSET + 4..HEADER_OFFSET + 6]) == HEADER_VERSION
    && accepts(imageStart[HEADER_OFFSET..HEADER_OFFSET + HEADER_SIZE])
  }

  predicate ImageStartFitsTarget(imageStart: seq<Byte>, env: Environment) {
    && |imageStart| >= HEADER_OFFSET + HEADER_SIZE
    && VectorsFitTarget(imageStart, env.layout)
    && HeaderNamesTarget(imageStart, env.accepts)
  }

  predicate ApplicationIsStartable(slot: Memory, env: Environment) {
    && |slot| >= DESCRIPTOR_SIZE
    && var place := |slot| - DESCRIPTOR_SIZE;
    && ReadWord(slot, place) == DESCRIPTOR_MAGIC
    && ReadWord(slot, place + 4) <= place
    && var image := slot[..ReadWord(slot, place + 4)];
    && env.hash(image) == slot[place + 8..place + 40]
    && ImageStartFitsTarget(image, env)
  }

  function MakeImageDescriptor(image: seq<Byte>, hash: seq<Byte> -> Digest): (d: seq<Byte>)
    requires |image| < 0x1_0000_0000
    ensures |d| == DESCRIPTOR_SIZE
  {
    LittleEndian(DESCRIPTOR_MAGIC, 4) + LittleEndian(|image|, 4) + hash(image) + seq(24, _ => 0xff)
  }

  /** The slot holds the whole image and its whole descriptor. */
  predicate IsComplete(slot: Memory, image: seq<Byte>, hash: seq<Byte> -> Digest) {
    && |image| < 0x1_0000_0000 && |image| + DESCRIPTOR_SIZE <= |slot|
    && slot[..|image|] == image
    && slot[|slot| - DESCRIPTOR_SIZE..] == MakeImageDescriptor(image, hash)
  }

  lemma WordAt(slot: Memory, place: nat, value: Word)
    requires place + 4 <= |slot| && slot[place..place + 4] == LittleEndian(value, 4)
    ensures ReadWord(slot, place) == value
  {
    WordRange();
    LittleEndianRoundTrip(value, 4);
  }

  lemma ErasedWordAt(slot: Memory, place: nat)
    requires place + 4 <= |slot| && IsErased(slot, place, place + 4)
    ensures ReadWord(slot, place) == 0xffff_ffff
  {
    var w := slot[place..place + 4];
    assert w[1..][1..][1..][1..] == [];
    assert FromLittleEndian(w[1..][1..][1..]) == 0xff;
    assert FromLittleEndian(w[1..][1..]) == 0xffff;
    assert FromLittleEndian(w[1..]) == 0xff_ffff;
  }

  /** Erased vectors never start: no reset handler fits in front of the descriptor. */
  lemma ErasedVectorsDoNotStart(slot: Memory, env: Environment)
    requires |slot| >= 8 && IsErased(slot, 0, 8) && env.layout.slotEnd >= DESCRIPTOR_SIZE
    ensures !ApplicationIsStartable(slot, env)
  {
    if ApplicationIsStartable(slot, env) {
      var image := slot[..ReadWord(slot, |slot| - DESCRIPTOR_SIZE + 4)];
      ErasedWordAt(image, 4);
      assert false;
    }
  }

  /** Without its magic a descriptor is not accepted. */
  lemma ErasedMagicDoesNotStart(slot: Memory, env: Environment)
    requires |slot| >= DESCRIPTOR_SIZE && slot[|slot| - DESCRIPTOR_SIZE + 3] == ERASED
    ensures !ApplicationIsStartable(slot, env)
  {
    var place := |slot| - DESCRIPTOR_SIZE;
    assert slot[place..place + 4][3] == ERASED;
    TopByte(slot[place..place + 4]);
    MagicTop();
  }

  lemma MagicTop()
    ensures Upper(DESCRIPTOR_MAGIC, 24) == 0x44
  {
    WordRange();
    LittleEndianRoundTrip(DESCRIPTOR_MAGIC, 4);
    assert LittleEndian(DESCRIPTOR_MAGIC, 4) == [0x45, 0x4d, 0x49, 0x44];
    TopByte(LittleEndian(DESCRIPTOR_MAGIC, 4));
  }

  lemma TopByteSet(w: seq<Byte>)
    requires |w| == 4 && w[3] == ERASED
    ensures FromLittleEndian(w) >= 0xff00_0000
  {
    assert w[1..][1..][1..][1..] == [];
    assert FromLittleEndian(w[1..][1..][1..]) == 0xff;
    assert FromLittleEndian(w[1..][1..]) >= 0xff00;
    assert FromLittleEndian(w[1..]) >= 0xff_0000;
  }

  /** A descriptor of which only the first bytes have been programmed. */
  function TornDescriptor(image: seq<Byte>, hash: seq<Byte> -> Digest, count: nat): seq<Byte>
    requires |image| < 0x1_0000_0000 && count <= DESCRIPTOR_SIZE
  {
    MakeImageDescriptor(image, hash)[..count] + seq(DESCRIPTOR_SIZE - count, _ => ERASED)
  }

  /** A size field with its last byte unwritten exceeds any slot. */
  lemma HugeSizeDoesNotStart(slot: Memory, env: Environment)
    requires DESCRIPTOR_SIZE <= |slot| < 0xff00_0000 && slot[|slot| - DESCRIPTOR_SIZE + 7] == ERASED
    ensures !ApplicationIsStartable(slot, env)
  {
    var place := |slot| - DESCRIPTOR_SIZE;
    assert slot[place + 4..place + 8][3] == ERASED;
    TopByteSet(slot[place + 4..place + 8]);
  }

  lemma Fields(a: seq<Byte>, b: seq<Byte>, h: seq<Byte>, r: seq<Byte>)
    requires |a| == 4 && |b| == 4 && |h| == 32
    ensures (a + b + h + r)[..4] == a && (a + b + h + r)[4..8] == b
    ensures (a + b + h + r)[8..40] == h && (a + b + h + r)[40..] == r
  {}

  lemma Assembled(s: seq<Byte>, a: seq<Byte>, b: seq<Byte>, h: seq<Byte>, r: seq<Byte>)
    requires |a| == 4 && |b| == 4 && |h| == 32 && |s| == 40 + |r|
    requires s[..4] == a && s[4..8] == b && s[8..40] == h && s[40..] == r
    ensures s == a + b + h + r
  {}

  /** A startable slot whose size field is right has the hash of its image in the hash field. */
  lemma StartableHash(slot: Memory, image: seq<Byte>, env: Environment)
    requires |image| + DESCRIPTOR_SIZE <= |slot| < 0x1_0000_0000 && slot[..|image|] == image
    requires ReadWord(slot, |slot| - DESCRIPTOR_SIZE + 4) == |image| && ApplicationIsStartable(slot, env)
    ensures slot[|slot| - DESCRIPTOR_SIZE + 8..|slot| - DESCRIPTOR_SIZE + 40] == env.hash(image)
  {}

  /** No torn descriptor is accepted, unless nothing is missing from it: no property of the hash is needed. */
  lemma TornDescriptorDoesNotStart(slot: Memory, image: seq<Byte>, count: nat, env: Environment)
    requires |image| + DESCRIPTOR_SIZE <= |slot| < 0xff00_0000 && count <= DESCRIPTOR_SIZE
    requires slot[..|image|] == image && slot[|slot| - DESCRIPTOR_SIZE..] == TornDescriptor(image, env.hash, count)
    ensures ApplicationIsStartable(slot, env) ==> IsComplete(slot, image, env.hash)
  {
    var place := |slot| - DESCRIPTOR_SIZE;
    var torn := slot[place..];
    if count < 4 {
      assert torn[3] == slot[place + 3];
      ErasedMagicDoesNotStart(slot, env);
    } else if count < 8 {
      assert torn[7] == slot[place + 7];
      HugeSizeDoesNotStart(slot, env);
    } else if ApplicationIsStartable(slot, env) {
      var magic, size, reserved := LittleEndian(DESCRIPTOR_MAGIC, 4), LittleEndian(|image|, 4), seq(24, _ => 0xff);
      TornFields(magic, size, env.hash(image), reserved, count, torn);
      assert slot[place + 4..place + 8] == torn[4..8];
      WordAt(slot, place + 4, |image|);
      StartableHash(slot, image, env);
      assert slot[place + 8..place + 40] == torn[8..40];
      Assembled(torn, magic, size, env.hash(image), reserved);
    }
  }

  lemma TornFields(a: seq<Byte>, b: seq<Byte>, h: seq<Byte>, r: seq<Byte>, count: nat, torn: seq<Byte>)
    requires |a| == 4 && |b| == 4 && |h| == 32 && r == seq(24, _ => 0xff) && 8 <= count <= 64
    requires torn == (a + b + h + r)[..count] + seq(64 - count, _ => ERASED)
    ensures torn[..4] == a && torn[4..8] == b && torn[40..] == r
  {
    Fields(a, b, h, r);
    var whole := a + b + h + r;
    assert torn[..4] == whole[..4] && torn[4..8] == whole[4..8];
    forall k | 40 <= k < 64
      ensures torn[k] == 0xff
    {
      assert whole[k] == whole[40..][k - 40];
    }
  }

  /** A complete slot starts exactly if its image fits the target. */
  lemma CompleteStarts(slot: Memory, image: seq<Byte>, env: Environment)
    requires IsComplete(slot, image, env.hash)
    ensures ApplicationIsStartable(slot, env) <==> ImageStartFitsTarget(image, env)
  {
    var place := |slot| - DESCRIPTOR_SIZE;
    Fields(LittleEndian(DESCRIPTOR_MAGIC, 4), LittleEndian(|image|, 4), env.hash(image), seq(24, _ => 0xff));
    assert slot[place..place + 4] == slot[place..][..4];
    assert slot[place + 4..place + 8] == slot[place..][4..8];
    assert slot[place + 8..place + 40] == slot[place..][8..40];
    WordAt(slot, place, DESCRIPTOR_MAGIC);
    WordAt(slot, place + 4, |image|);
  }

  /** Only the image start decides whether an image fits. */
  lemma StartDecides(image: seq<Byte>, length: nat, env: Environment)
    requires HEADER_OFFSET + HEADER_SIZE <= length <= |image|
    ensures ImageStartFitsTarget(image[..length], env) <==> ImageStartFitsTarget(image, env)
  {
    var start := image[..length];
    assert start[0..4] == image[0..4] && start[4..8] == image[4..8];
    assert start[HEADER_OFFSET..HEADER_OFFSET + 4] == image[HEADER_OFFSET..HEADER_OFFSET + 4];
    assert start[HEADER_OFFSET + 4..HEADER_OFFSET + 6] == image[HEADER_OFFSET + 4..HEADER_OFFSET + 6];
    assert start[HEADER_OFFSET..HEADER_OFFSET + HEADER_SIZE] == image[HEADER_OFFSET..HEADER_OFFSET + HEADER_SIZE];
  }
}
