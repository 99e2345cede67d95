/** Reading of integers from a text stream. */
module TextInputStream {
  import opened Arithmetic
  import opened Numerals
  import opened TextOutputStream
  import opened Wrappers

  const UINT32_RANGE := 0x1_0000_0000

  function Radix(hex: bool): nat {
    if hex then 16 else 10
  }

  predicate IsDigit(c: char, hex: bool) {
    DigitOf(c, hex) < MAX_RADIX
  }

  /** Where the spaces from a position on end. */
  function SpacesEnd(text: string, from: nat): (end: nat)
    requires from <= |text|
    ensures from <= end <= |text|
    decreases |text| - from
  {
    if from < |text| && text[from] == ' ' then SpacesEnd(text, from + 1) else from
  }

  /** Where the digits from a position on end, if no more than some are taken. */
  function DigitsEnd(text: string, from: nat, hex: bool, most: nat): (end: nat)
    requires from <= |text|
    ensures from <= end <= |text|
    decreases |text| - from
  {
    if from < |text| && most > 0 && IsDigit(text[from], hex) then DigitsEnd(text, from + 1, hex, most - 1) else from
  }

  /** A width of zero does not limit the number of digits. */
  function Most(width: Option<nat>, text: string): nat {
    if width.Some? && width.value > 0 then width.value else |text|
  }

  /** The number that the digits from one position to another denote. */
  function TextValue(text: string, from: nat, end: nat, hex: bool): nat
    requires from <= end <= |text|
    decreases end
  {
    if from == end then 0
    else Product(TextValue(text, from, end - 1, hex), Radix(hex)) + DigitOf(text[end - 1], hex)
  }

  /** The accumulator, one digit further. */
  lemma NextValue(text: string, first: nat, position: nat, hex: bool, value: nat, range: nat)
    requires first <= position < |text| && range > 0 && value == TextValue(text, first, position, hex) % range
    ensures (value * Radix(hex) + DigitOf(text[position], hex)) % range == TextValue(text, first, position + 1, hex) % range
  {
    AccumulatorWraps(TextValue(text, first, position, hex), Radix(hex), DigitOf(text[position], hex), range);
  }

  class TextInputStream {
    const text: string
    var position: nat
    var failed: bool

    ghost predicate Valid()
      reads this
    {
      position <= |text|
    }

    constructor (text: string)
      ensures Valid() && this.text == text && position == 0 && !failed
    {
      this.text := text;
      position := 0;
      failed := false;
    }

    predicate Empty()
      reads this
    {
      position >= |text|
    }

    method Peek() returns (c: char)
      requires Valid()
      modifies this`failed
      ensures c == if position < |text| then text[position] else '\0'
      ensures failed == (old(failed) || position == |text|)
    {
      if position == |text| {
        failed := true;
        c := '\0';
      } else {
        c := text[position];
      }
    }

    method Extract()
      requires Valid() && position < |text|
      modifies this`position
      ensures Valid() && position == old(position) + 1
    {
      position := position + 1;
    }

    method SkipSpaces()
      requires Valid()
      modifies this`position, this`failed
      ensures Valid() && position == SpacesEnd(text, old(position))
      ensures failed == (old(failed) || position == |text|)
    {
      var c := Peek();
      while c == ' '
        invariant Valid() && SpacesEnd(text, position) == SpacesEnd(text, old(position))
        invariant c == if position < |text| then text[position] else '\0'
        invariant failed == (old(failed) || position == |text|)
        decreases |text| - position
      {
        Extract();
        c := Peek();
      }
    }

    /**
     * ReadAsDecimal and ReadAsHex for unsigned numbers: at least one digit is needed, and the accumulator wraps at
     * the range of its type.
     */
    method ReadUnsigned(hex: bool, width: Option<nat>, range: nat) returns (v: nat)
      requires Valid() && range > 0
      modifies this`position, this`failed
      ensures Valid()
      ensures var first := SpacesEnd(text, old(position));
        && position == DigitsEnd(text, first, hex, Most(width, text))
        && v == TextValue(text, first, position, hex) % range
        && failed == (old(failed) || position == first)
    {
      SkipSpaces();
      ghost var first := position;
      ghost var most := Most(width, text);
      v := 0;
      Residue(0, range, 0, 0);
      var i := 0;
      var more := true;
      while more && ((!(width.Some? && i == width.value) && !Empty()) || i == 0)
        invariant Valid() && position == first + i
        invariant i <= most || (|text| == 0 && i == 0)
        invariant v == TextValue(text, first, position, hex) % range
        invariant more ==> DigitsEnd(text, position, hex, most - i) == DigitsEnd(text, first, hex, most)
        invariant !more ==> position == DigitsEnd(text, first, hex, most)
        invariant failed == (old(failed) || (i == 0 && first == |text|) || (!more && i == 0))
        decreases more, |text| - position
      {
        more, v := ReadDigit(hex, i, v, range, first);
        if more {
          i := i + 1;
        }
      }
    }

    /** One turn of the loop over the digits. */
    method ReadDigit(hex: bool, i: nat, value: nat, range: nat, ghost first: nat) returns (more: bool, v: nat)
      requires Valid() && first <= position && range > 0 && value == TextValue(text, first, position, hex) % range
      modifies this`position, this`failed
      ensures Valid() && position == old(position) + if more then 1 else 0
      ensures more <==> old(position) < |text| && IsDigit(text[old(position)], hex)
      ensures v == TextValue(text, first, position, hex) % range
      ensures failed == (old(failed) || old(position) == |text| || (!more && i == 0))
    {
      var c := Peek();
      var digit := DigitOf(c, hex);
      more, v := digit < MAX_RADIX, value;
      if more {
        NextValue(text, first, position, hex, value, range);
        v := (v * Radix(hex) + digit) % range;
        Extract();
      } else {
        failed := failed || !(i > 0);
      }
    }

    /** The sign of a number may be followed by spaces. */
    method ReadSigned(hex: bool, width: Option<nat>, range: nat) returns (v: int)
      requires Valid() && range > 0
      modifies this`position, this`failed
      ensures Valid()
      ensures var sign := SpacesEnd(text, old(position));
        var negative := sign < |text| && text[sign] == '-';
        var first := SpacesEnd(text, if negative then sign + 1 else sign);
        && position == DigitsEnd(text, first, hex, Most(width, text))
        && (var value: int := TextValue(text, first, position, hex); v == Signed((if negative then -value else value) % range, range))
        && failed == (old(failed) || position == first)
    {
      SkipSpaces();
      var c := Peek();
      v := 1;
      if c == '-' {
        Extract();
        v := -1;
      }
      var vp := ReadUnsigned(hex, width, range);
      ghost var first := SpacesEnd(text, if c == '-' then SpacesEnd(text, old(position)) + 1 else SpacesEnd(text, old(position)));
      SignedWraps(TextValue(text, first, position, hex), range);
      v := Signed(v * vp % range, range);
    }
  }

  /** A number of a signed type by its value modulo the range of the type. */
  function Signed(x: nat, range: nat): int {
    if x < range - range / 2 then x else x - range
  }

  lemma AccumulatorWraps(a: nat, radix: nat, digit: nat, range: nat)
    requires range > 0
    ensures (a % range * radix + digit) % range == (Product(a, radix) + digit) % range
  {
    var q, r := a / range, a % range;
    var s := r * radix + digit;
    ProductIsNat(r, radix);
    assert a * radix + digit == range * (q * radix) + s by {
      assert a == range * q + r;
      Distribute(radix, range * q, r);
      Associate(range, q, radix);
    }
    assert s == range * (s / range) + s % range;
    Distribute(range, q * radix, s / range);
    Residue(a * radix + digit, range, q * radix + s / range, s % range);
  }

  lemma SignedWraps(a: int, range: nat)
    requires range > 0
    ensures 1 * (a % range) % range == a % range
    ensures -1 * (a % range) % range == -a % range
  {
    var q, r := a / range, a % range;
    Residue(r, range, 0, r);
    assert a == range * q + r;
    Distribute(range, q, -q);
    if r == 0 {
      Residue(-a, range, -q, 0);
      Residue(0, range, 0, 0);
    } else {
      Distribute(range, -q, -1);
      Residue(-a, range, -q - 1, range - r);
      Residue(-r, range, -1, range - r);
    }
  }

  // ---------------------------------------------------------------------------------------------------- reading back

  /** The text goes on with something that is not a digit, or ends. */
  predicate EndsNumber(rest: string, hex: bool) {
    rest == "" || !IsDigit(rest[0], hex)
  }

  lemma {:induction false} SkipsSpaces(text: string, from: nat, end: nat)
    requires from <= end <= |text| && (end == |text| || text[end] != ' ')
    requires forall k | from <= k < end :: text[k] == ' '
    ensures SpacesEnd(text, from) == end
    decreases end - from
  {
    if from < end {
      SkipsSpaces(text, from + 1, end);
    }
  }

  /** Digits in a text are found, and denote their number. */
  lemma {:induction false} FindsDigits(text: string, from: nat, ds: seq<nat>, hex: bool, most: nat)
    requires from + |ds| <= |text| && |ds| <= most
    requires forall i | 0 <= i < |ds| :: DigitOf(text[from + i], hex) == ds[i] < MAX_RADIX
    requires from + |ds| == |text| || !IsDigit(text[from + |ds|], hex)
    ensures DigitsEnd(text, from, hex, most) == from + |ds|
    decreases |ds|
  {
    if ds != [] {
      assert DigitOf(text[from + 0], hex) == ds[0];
      forall i | 0 <= i < |ds| - 1
        ensures DigitOf(text[from + 1 + i], hex) == ds[1..][i]
      {
        assert DigitOf(text[from + (1 + i)], hex) == ds[1 + i];
      }
      FindsDigits(text, from + 1, ds[1..], hex, most - 1);
    }
  }

  lemma {:induction false} DigitsDenote(text: string, from: nat, ds: seq<nat>, hex: bool)
    requires from + |ds| <= |text|
    requires forall i | 0 <= i < |ds| :: DigitOf(text[from + i], hex) == ds[i]
    ensures TextValue(text, from, from + |ds|, hex) == Value(ds, Radix(hex))
    decreases |ds|
  {
    if ds != [] {
      assert DigitOf(text[from + (|ds| - 1)], hex) == ds[|ds| - 1];
      DigitsDenote(text, from, ds[..|ds| - 1], hex);
    }
  }

  /** Whether the digits of a number are at a position, and no further ones behind them. */
  ghost predicate HasDigits(text: string, from: nat, ds: seq<nat>, hex: bool) {
    && ds != [] && from + |ds| <= |text|
    && (forall i | 0 <= i < |ds| :: DigitOf(text[from + i], hex) == ds[i] < MAX_RADIX)
    && text[from] != ' ' && text[from] != '-'
    && (from + |ds| == |text| || !IsDigit(text[from + |ds|], hex))
  }

  /** They are read, and denote the number. */
  lemma ReadsNumber(text: string, from: nat, ds: seq<nat>, hex: bool, most: nat)
    requires HasDigits(text, from, ds, hex) && |ds| <= most
    ensures DigitsEnd(text, from, hex, most) == from + |ds|
    ensures TextValue(text, from, from + |ds|, hex) == Value(ds, Radix(hex))
  {
    FindsDigits(text, from, ds, hex, most);
    DigitsDenote(text, from, ds, hex);
  }

  ghost predicate AreDigits(ds: seq<nat>, hex: bool) {
    ds != [] && forall k | 0 <= k < |ds| :: ds[k] < Radix(hex) && ds[k] < MAX_RADIX
  }

  lemma DigitIsThere(text: string, from: nat, ds: seq<nat>, hex: bool, i: nat)
    requires AreDigits(ds, hex) && from + |ds| <= |text| && i < |ds|
    requires text[from..from + |ds|] == DigitText(ds, false)
    ensures DigitOf(text[from + i], hex) == ds[i] && text[from + i] != ' ' && text[from + i] != '-'
  {
    assert text[from + i] == text[from..from + |ds|][i];
    DigitTextAt(ds, i, false);
    DigitOfDigitChar(ds[i], false, hex);
  }

  lemma DigitsAreThere(text: string, from: nat, ds: seq<nat>, hex: bool)
    requires AreDigits(ds, hex) && from + |ds| <= |text|
    requires text[from..from + |ds|] == DigitText(ds, false)
    requires from + |ds| == |text| || !IsDigit(text[from + |ds|], hex)
    ensures HasDigits(text, from, ds, hex)
  {
    forall i | 0 <= i < |ds|
      ensures DigitOf(text[from + i], hex) == ds[i] < MAX_RADIX
    {
      DigitIsThere(text, from, ds, hex, i);
    }
    DigitIsThere(text, from, ds, hex, 0);
  }

  function PaddingOf(v: nat, negative: bool, radix: nat, width: nat): nat
    requires 2 <= radix <= MAX_RADIX
  {
    var number := Sign(negative) + DigitText(Digits(v, radix), false);
    if |number| < width then width - |number| else 0
  }

  /** What a reader finds: padding, the sign, and digits up to an end, which denote the number. */
  ghost predicate Reads(text: string, pad: nat, negative: bool, end: nat, v: nat, hex: bool) {
    var first := if negative then pad + 1 else pad;
    && first < end <= |text|
    && SpacesEnd(text, 0) == pad && (negative <==> text[pad] == '-')
    && SpacesEnd(text, first) == first
    && DigitsEnd(text, first, hex, |text|) == end
    && TextValue(text, first, end, hex) == v
  }

  lemma ReadsAt(text: string, pad: nat, negative: bool, first: nat, ds: seq<nat>, hex: bool, v: nat)
    requires first == (if negative then pad + 1 else pad) && HasDigits(text, first, ds, hex)
    requires forall k | 0 <= k < pad :: text[k] == ' '
    requires negative ==> text[pad] == '-'
    requires v == Value(ds, Radix(hex))
    ensures Reads(text, pad, negative, first + |ds|, v, hex)
  {
    ReadsNumber(text, first, ds, hex, |text|);
    SkipsSpaces(text, 0, pad);
    SkipsSpaces(text, first, first);
  }

  lemma ReadsParts(text: string, pad: nat, negative: bool, first: nat, ds: seq<nat>, hex: bool, v: nat)
    requires AreDigits(ds, hex) && v == Value(ds, Radix(hex))
    requires first == (if negative then pad + 1 else pad) && first + |ds| <= |text|
    requires forall k | 0 <= k < pad :: text[k] == ' '
    requires negative ==> text[pad] == '-'
    requires text[first..first + |ds|] == DigitText(ds, false)
    requires first + |ds| == |text| || !IsDigit(text[first + |ds|], hex)
    ensures Reads(text, pad, negative, first + |ds|, v, hex)
  {
    DigitsAreThere(text, first, ds, hex);
    ReadsAt(text, pad, negative, first, ds, hex, v);
  }

  lemma JoinedParts(pad: nat, negative: bool, digits: string, rest: string, hex: bool)
    requires EndsNumber(rest, hex)
    ensures var text := Filled(' ', pad) + (Sign(negative) + digits) + rest; var first := if negative then pad + 1 else pad;
      && first + |digits| <= |text|
      && (forall k | 0 <= k < pad :: text[k] == ' ')
      && (negative ==> text[pad] == '-')
      && text[first..first + |digits|] == digits
      && (first + |digits| == |text| || !IsDigit(text[first + |digits|], hex))
  {
    Parts(Filled(' ', pad), Sign(negative), digits, rest);
  }

  /** A reader finds what was printed. */
  lemma ReadsPrinted(v: nat, negative: bool, hex: bool, width: nat, rest: string)
    requires EndsNumber(rest, hex)
    ensures var printed := Printed(v, negative, Radix(hex), width, ' ');
      Reads(printed + rest, PaddingOf(v, negative, Radix(hex), width), negative, |printed|, v, hex)
  {
    ValueOfDigits(v, Radix(hex));
    ReadsDigits(PaddingOf(v, negative, Radix(hex), width), negative, Digits(v, Radix(hex)), rest, hex, v);
  }

  lemma ReadsDigits(pad: nat, negative: bool, ds: seq<nat>, rest: string, hex: bool, v: nat)
    requires AreDigits(ds, hex) && EndsNumber(rest, hex) && v == Value(ds, Radix(hex))
    ensures var printed := Filled(' ', pad) + (Sign(negative) + DigitText(ds, false));
      Reads(printed + rest, pad, negative, |printed|, v, hex)
  {
    var printed := Filled(' ', pad) + (Sign(negative) + DigitText(ds, false));
    var first := if negative then pad + 1 else pad;
    assert |printed| == first + |ds|;
    JoinedParts(pad, negative, DigitText(ds, false), rest, hex);
    ReadsParts(printed + rest, pad, negative, first, ds, hex, v);
  }

  lemma Parts(padding: string, sign: string, digits: string, rest: string)
    ensures var text := padding + (sign + digits) + rest; var first := |padding| + |sign|;
      && (forall k | 0 <= k < |padding| :: text[k] == padding[k])
      && (sign != "" ==> text[|padding|] == sign[0])
      && text[first..first + |digits|] == digits
      && (if rest == "" then first + |digits| == |text| else first + |digits| < |text| && text[first + |digits|] == rest[0])
  {
  }

  /** A printed unsigned number, padded with spaces, reads back as itself; the stream is left behind it. */
  method PrintAndRead(v: nat, hex: bool, width: nat, rest: string, range: nat) returns (read: nat, stream: TextInputStream)
    requires v < range <= UINT64_RANGE && EndsNumber(rest, hex)
    ensures read == v && !stream.failed
    ensures stream.text == Printed(v, false, Radix(hex), width, ' ') + rest
    ensures stream.position == |Printed(v, false, Radix(hex), width, ' ')|
  {
    var printed := OutputNumber(v, false, Radix(hex), width, ' ');
    stream := new TextInputStream(printed + rest);
    ReadsPrinted(v, false, hex, width, rest);
    Residue(v, range, 0, v);
    read := stream.ReadUnsigned(hex, None, range);
  }

  /** The same for a signed number, except for the smallest one of 64 bits, which the printing cannot negate. */
  method PrintAndReadSigned(v: int, hex: bool, width: nat, rest: string, range: nat) returns (read: int, stream: TextInputStream)
    requires range == UINT32_RANGE || range == UINT64_RANGE
    requires -(range / 2) <= v < range / 2 && v != -(UINT64_RANGE / 2)
    requires EndsNumber(rest, hex)
    ensures read == v && !stream.failed
    ensures stream.text == Printed(if v < 0 then -v else v, v < 0, Radix(hex), width, ' ') + rest
    ensures stream.position == |Printed(if v < 0 then -v else v, v < 0, Radix(hex), width, ' ')|
  {
    var negative := v < 0;
    var magnitude := if negative then -v else v;
    var printed := OutputNumber(magnitude, negative, Radix(hex), width, ' ');
    stream := new TextInputStream(printed + rest);
    ReadsPrinted(magnitude, negative, hex, width, rest);
    SignedOfValue(v, range);
    read := stream.ReadSigned(hex, None, range);
  }

  lemma SignedOfValue(v: int, range: nat)
    requires range > 0 && range % 2 == 0 && -(range / 2) <= v < range / 2
    ensures Signed(v % range, range) == v
  {
    if v < 0 {
      Residue(v, range, -1, v + range);
    } else {
      Residue(v, range, 0, v);
    }
  }
}
