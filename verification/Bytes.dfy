/** Bytes, words in memory order, and the bitwise operations the programs use, on numbers. */
module Bytes {

  type Byte = b: int | 0 <= b < 256

  const ERASED: Byte := 0xff

  /** The bit-by-bit combination of two numbers of the given width. */
  function And(x: nat, y: nat, width: nat): (z: nat)
    decreases width
  {
    if width == 0 then 0 else (x % 2) * (y % 2) + 2 * And(x / 2, y / 2, width - 1)
  }

  function Xor(x: nat, y: nat, width: nat): (z: nat)
    decreases width
  {
    if width == 0 then 0 else (x % 2 + y % 2) % 2 + 2 * Xor(x / 2, y / 2, width - 1)
  }

  function Or(x: nat, y: nat): (z: nat)
    decreases x + y
  {
    if x == 0 then y else if y == 0 then x else (if x % 2 + y % 2 > 0 then 1 else 0) + 2 * Or(x / 2, y / 2)
  }

  /** 2 to the power of width. */
  function Power2(width: nat): (p: nat)
    ensures p > 0
  {
    if width == 0 then 1 else 2 * Power2(width - 1)
  }

  lemma {:induction false} AndFits(x: nat, y: nat, width: nat)
    ensures And(x, y, width) < Power2(width)
  {
    if width > 0 {
      AndFits(x / 2, y / 2, width - 1);
      assert x % 2 == 0 || x % 2 == 1;
      assert y % 2 == 0 || y % 2 == 1;
    }
  }

  lemma {:induction false} XorFits(x: nat, y: nat, width: nat)
    ensures Xor(x, y, width) < Power2(width)
  {
    if width > 0 {
      XorFits(x / 2, y / 2, width - 1);
    }
  }

  /** All ones is the unit of And. */
  lemma {:induction false} AndOnes(y: nat, width: nat)
    requires y < Power2(width)
    ensures And(Power2(width) - 1, y, width) == y
  {
    if width > 0 {
      AndOnes(y / 2, width - 1);
      assert (Power2(width) - 1) % 2 == 1 && (Power2(width) - 1) / 2 == Power2(width - 1) - 1;
    }
  }

  lemma {:induction false} XorZero(x: nat, width: nat)
    requires x < Power2(width)
    ensures Xor(x, 0, width) == x
  {
    if width > 0 {
      XorZero(x / 2, width - 1);
    }
  }

  /** Numbers without common bits are added. */
  lemma {:induction false} OrAbove(q: nat, y: nat, shift: nat)
    requires y < Power2(shift)
    ensures Or(q * Power2(shift), y) == q * Power2(shift) + y
    decreases shift
  {
    if shift > 0 {
      var x := q * Power2(shift - 1);
      TwiceProduct(q, Power2(shift - 1));
      OrAbove(q, y / 2, shift - 1);
      OrStep(x, y);
    }
  }

  lemma TwiceProduct(q: nat, p: nat)
    ensures q * (2 * p) == 2 * (q * p)
  {
  }

  lemma OrStep(x: nat, y: nat)
    ensures Or(2 * x, y) == y % 2 + 2 * Or(x, y / 2)
  {
  }

  lemma OnesHalve(p: nat)
    requires p > 0
    ensures (2 * p - 1) % 2 == 1 && (2 * p - 1) / 2 == p - 1
  {
  }

  lemma {:induction false} XorOnes(x: nat, width: nat)
    requires x < Power2(width)
    ensures Xor(x, Power2(width) - 1, width) == Power2(width) - 1 - x
  {
    if width > 0 {
      XorOnes(x / 2, width - 1);
      OnesHalve(Power2(width - 1));
    }
  }

  const BYTE_WIDTH := 8

  lemma ByteRange()
    ensures Power2(BYTE_WIDTH) == 256
  {
    assert Power2(8) == 256;
  }

  function AndByte(x: Byte, y: Byte): Byte {
    ByteRange();
    AndFits(x, y, BYTE_WIDTH);
    And(x, y, BYTE_WIDTH)
  }

  /** Whether the bit of this weight is set. */
  predicate Bit(x: nat, place: nat) {
    if place == 0 then x % 2 == 1 else Bit(x / 2, place - 1)
  }

  lemma {:induction false} AndBits(x: nat, y: nat, width: nat, place: nat)
    requires place < width
    ensures Bit(And(x, y, width), place) <==> Bit(x, place) && Bit(y, place)
    decreases width
  {
    var last := (x % 2) * (y % 2);
    assert last < 2 && (last == 1 <==> x % 2 == 1 && y % 2 == 1) by {
      if x % 2 == 0 { assert last == 0; } else { assert last == y % 2; }
    }
    assert And(x, y, width) == last + 2 * And(x / 2, y / 2, width - 1);
    if place > 0 {
      AndBits(x / 2, y / 2, width - 1, place - 1);
    }
  }

  lemma {:induction false} XorBits(x: nat, y: nat, width: nat, place: nat)
    requires place < width
    ensures Bit(Xor(x, y, width), place) <==> (Bit(x, place) != Bit(y, place))
    decreases width
  {
    LowestBit((x % 2 + y % 2) % 2, Xor(x / 2, y / 2, width - 1), place);
    if place > 0 {
      XorBits(x / 2, y / 2, width - 1, place - 1);
    }
  }

  lemma LowestBit(lowest: nat, rest: nat, place: nat)
    requires lowest < 2
    ensures Bit(lowest + 2 * rest, place) <==> if place == 0 then lowest == 1 else Bit(rest, place - 1)
  {
    assert (lowest + 2 * rest) / 2 == rest && (lowest + 2 * rest) % 2 == lowest;
  }

  lemma {:induction false} XorTwice(x: nat, y: nat, width: nat)
    requires x < Power2(width)
    ensures Xor(Xor(x, y, width), y, width) == x
    decreases width
  {
    if width > 0 {
      XorTwice(x / 2, y / 2, width - 1);
      XorHalves(x % 2, y % 2, Xor(x / 2, y / 2, width - 1));
    }
  }

  lemma XorHalves(a: nat, b: nat, rest: nat)
    requires a < 2 && b < 2
    ensures ((a + b) % 2 + 2 * rest) / 2 == rest && (((a + b) % 2 + 2 * rest) % 2 + b) % 2 == a
  {
  }

  function XorByte(x: Byte, y: Byte): Byte {
    ByteRange();
    XorFits(x, y, BYTE_WIDTH);
    Xor(x, y, BYTE_WIDTH)
  }

  lemma {:induction false} OnesBits(width: nat, place: nat)
    requires place < width
    ensures Bit(Power2(width) - 1, place)
  {
    OnesHalve(Power2(width - 1));
    if place > 0 {
      OnesBits(width - 1, place - 1);
    }
  }

  lemma XorByteTwice(x: Byte, y: Byte)
    ensures XorByte(XorByte(x, y), y) == x
  {
    ByteRange();
    XorTwice(x, y, BYTE_WIDTH);
  }

  /** Programming an erased byte stores the byte. */
  lemma AndErased(y: Byte)
    ensures AndByte(ERASED, y) == y
  {
    ByteRange();
    AndOnes(y, BYTE_WIDTH);
  }

  const WORD_WIDTH := 32

  type Word = w: int | 0 <= w < 0x1_0000_0000

  lemma WordRange()
    ensures Power2(WORD_WIDTH) == 0x1_0000_0000
  {
    assert Power2(0) == 1;
    Power2Of8(1);
    Power2Of8(2);
    Power2Of8(3);
    Power2Of8(4);
  }

  function XorWord(x: Word, y: Word): Word {
    WordRange();
    XorFits(x, y, WORD_WIDTH);
    Xor(x, y, WORD_WIDTH)
  }

  /** The complement of a word. */
  function NotWord(x: Word): Word {
    0xffff_ffff - x
  }

  lemma XorWordBits(x: Word, y: Word, place: nat)
    requires place < 32
    ensures Bit(XorWord(x, y), place) <==> (Bit(x, place) != Bit(y, place))
  {
    XorBits(x, y, WORD_WIDTH, place);
  }

  lemma XorWordTwice(x: Word, y: Word)
    ensures XorWord(XorWord(x, y), y) == x
  {
    WordRange();
    XorTwice(x, y, WORD_WIDTH);
  }

  lemma NotWordBits(x: Word, place: nat)
    requires place < 32
    ensures Bit(NotWord(x), place) <==> !Bit(x, place)
  {
    WordRange();
    NotBits(x, WORD_WIDTH, place);
  }

  lemma NotBits(x: nat, width: nat, place: nat)
    requires x < Power2(width) && place < width
    ensures Bit(Power2(width) - 1 - x, place) <==> !Bit(x, place)
  {
    XorOnes(x, width);
    XorBits(x, Power2(width) - 1, width, place);
    OnesBits(width, place);
  }

  function ReadWord(bytes: seq<Byte>, offset: nat): Word
    requires offset + 4 <= |bytes|
  {
    FromLittleEndianFits(bytes[offset..offset + 4]);
    WordRange();
    FromLittleEndian(bytes[offset..offset + 4])
  }

  /** A number without its lowest bits. */
  function Upper(x: nat, shift: nat): nat
    decreases shift
  {
    if shift == 0 then x else Upper(x / 2, shift - 1)
  }

  /** The upper bits of a combination are the combination of the upper bits. */
  lemma {:induction false} XorUpper(x: nat, y: nat, width: nat, shift: nat)
    requires shift <= width
    ensures Upper(Xor(x, y, width), shift) == Xor(Upper(x, shift), Upper(y, shift), width - shift)
    decreases shift
  {
    if shift > 0 {
      XorUpper(x / 2, y / 2, width - 1, shift - 1);
      assert Xor(x, y, width) / 2 == Xor(x / 2, y / 2, width - 1);
    }
  }

  lemma UpperByte(b: Byte, rest: nat, shift: nat)
    ensures Upper(b + 256 * rest, shift + 8) == Upper(rest, shift)
  {
    var x := b + 256 * rest;
    assert Upper(x, shift + 8) == Upper(x / 2, shift + 7);
    assert Upper(x / 2, shift + 7) == Upper(x / 2 / 2, shift + 6);
    assert x / 2 / 2 == x / 4;
    assert Upper(x / 4, shift + 6) == Upper(x / 4 / 2, shift + 5);
    assert x / 4 / 2 == x / 8;
    assert Upper(x / 8, shift + 5) == Upper(x / 8 / 2, shift + 4);
    assert x / 8 / 2 == x / 16;
    assert Upper(x / 16, shift + 4) == Upper(x / 16 / 2, shift + 3);
    assert x / 16 / 2 == x / 32;
    assert Upper(x / 32, shift + 3) == Upper(x / 32 / 2, shift + 2);
    assert x / 32 / 2 == x / 64;
    assert Upper(x / 64, shift + 2) == Upper(x / 64 / 2, shift + 1);
    assert x / 64 / 2 == x / 128;
    assert Upper(x / 128, shift + 1) == Upper(x / 128 / 2, shift);
    assert x / 128 / 2 == rest;
  }

  /** The most significant byte of a four-byte word. */
  lemma {:induction false} TopByte(word: seq<Byte>)
    requires |word| == 4
    ensures Upper(FromLittleEndian(word), 24) == word[3]
  {
    var w1, w2, w3 := word[1..], word[2..], word[3..];
    assert w1[1..] == w2 && w2[1..] == w3 && w3[1..] == [];
    assert FromLittleEndian(w3) == word[3] + 256 * FromLittleEndian([]);
    UpperByte(word[0], FromLittleEndian(w1), 16);
    UpperByte(word[1], FromLittleEndian(w2), 8);
    UpperByte(word[2], FromLittleEndian(w3), 0);
  }

  /** A number as count bytes, least significant first. */
  function LittleEndian(value: nat, count: nat): (bytes: seq<Byte>)
    ensures |bytes| == count
    decreases count
  {
    if count == 0 then [] else [value % 256] + LittleEndian(value / 256, count - 1)
  }

  function FromLittleEndian(bytes: seq<Byte>): nat {
    if bytes == [] then 0 else bytes[0] + 256 * FromLittleEndian(bytes[1..])
  }

  lemma {:induction false} FromLittleEndianFits(bytes: seq<Byte>)
    ensures FromLittleEndian(bytes) < Power2(8 * |bytes|)
  {
    if bytes != [] {
      FromLittleEndianFits(bytes[1..]);
      Power2Of8(|bytes|);
    }
  }

  lemma {:induction false} LittleEndianRoundTrip(value: nat, count: nat)
    requires value < Power2(8 * count)
    ensures FromLittleEndian(LittleEndian(value, count)) == value
    decreases count
  {
    if count > 0 {
      Power2Of8(count);
      LittleEndianRoundTrip(value / 256, count - 1);
      assert LittleEndian(value, count)[1..] == LittleEndian(value / 256, count - 1);
    }
  }

  lemma Power2Of8(count: nat)
    requires count > 0
    ensures Power2(8 * count) == 256 * Power2(8 * (count - 1))
  {
    EightMoreBits(8 * (count - 1), 8 * count);
  }

  lemma EightMoreBits(w: nat, more: nat)
    requires more == w + 8
    ensures Power2(more) == 256 * Power2(w)
  {
    FourMoreBits(w);
    FourMoreBits(w + 4);
  }

  lemma FourMoreBits(w: nat)
    ensures Power2(w + 4) == 16 * Power2(w)
  {
    OneMoreBit(w);
    OneMoreBit(w + 1);
    OneMoreBit(w + 2);
    OneMoreBit(w + 3);
  }

  lemma OneMoreBit(w: nat)
    ensures Power2(w + 1) == 2 * Power2(w)
  {
  }

  /** Bytes say all there is to know about the number. */
  lemma {:induction false} FromLittleEndianInjective(a: seq<Byte>, b: seq<Byte>)
    requires |a| == |b| && FromLittleEndian(a) == FromLittleEndian(b)
    ensures a == b
  {
    if a != [] {
      FromLittleEndianInjective(a[1..], b[1..]);
      assert a == [a[0]] + a[1..] && b == [b[0]] + b[1..];
    }
  }
}
