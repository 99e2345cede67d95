/** Printing of integers on a text stream. */
module TextOutputStream {
  import opened Arithmetic
  import opened Numerals

  const UINT64_RANGE := 0x1_0000_0000_0000_0000

  function Sign(negative: bool): string {
    if negative then "-" else ""
  }

  /** What is printed: padding up to the width, the sign, and the digits. */
  function Printed(v: nat, negative: bool, radix: nat, width: nat, padding: char): string
    requires 2 <= radix <= MAX_RADIX
  {
    var number := Sign(negative) + DigitText(Digits(v, radix), false);
    Filled(padding, if |number| < width then width - |number| else 0) + number
  }

  /** OutputAsDecimal, OutputAsBinary and OutputAsHexadecimal, which differ in the radix. The mask fits its type. */
  method OutputNumber(v: nat, negative: bool, radix: nat, width: nat, padding: char) returns (text: string)
    requires v < UINT64_RANGE && (radix == 2 || radix == 10 || radix == 16)
    ensures text == Printed(v, negative, radix, width, padding)
  {
    var mask, nofDigits := FirstMask(v, negative, radix);
    text := OutputOptionalPadding(nofDigits, width, padding);
    if negative {
      text := text + ['-'];
    }
    var digits := OutputDigits(v, radix, mask);
    text := text + digits;
  }

  /** The first loop: the mask of the most significant digit, which does not exceed the number. */
  method FirstMask(v: nat, negative: bool, radix: nat) returns (mask: nat, nofDigits: nat)
    requires v < UINT64_RANGE && 2 <= radix <= MAX_RADIX
    ensures mask == Power(radix, |Digits(v, radix)| - 1) && mask < UINT64_RANGE
    ensures nofDigits == |Digits(v, radix)| + if negative then 1 else 0
  {
    nofDigits := if negative then 2 else 1;
    mask := 1;
    ghost var places := 0;
    while v / mask >= radix
      invariant 0 < mask == Power(radix, places) && (places > 0 ==> v / mask > 0)
      invariant mask == 1 || mask <= v
      invariant nofDigits == places + if negative then 2 else 1
      decreases v - mask
    {
      MaskGrows(v, mask, radix);
      DividedTwice(v, mask, radix);
      QuotientShrinks(v / mask, radix);
      mask := mask * radix;
      places := places + 1;
      nofDigits := nofDigits + 1;
    }
    DigitCount(v, radix, places);
  }

  /** The second loop: one digit for each mask. */
  method OutputDigits(v: nat, radix: nat, first: nat) returns (text: string)
    requires 2 <= radix <= MAX_RADIX && first == Power(radix, |Digits(v, radix)| - 1)
    ensures text == DigitText(Digits(v, radix), false)
  {
    ghost var ds := Digits(v, radix);
    ghost var done := 0;
    var mask := first;
    text := "";
    assert ds[..0] == [];
    while mask != 0
      invariant 0 <= done <= |ds| && text == DigitText(ds[..done], false)
      invariant mask == if done == |ds| then 0 else Power(radix, |ds| - 1 - done)
      decreases |ds| - done
    {
      DigitAt(v, radix, |ds| - 1 - done);
      DigitTextOnwards(ds, done, false);
      MaskShrinks(radix, |ds| - 1 - done);
      text := text + [DigitChar(v / mask % radix, false)];
      mask := mask / radix;
      done := done + 1;
    }
    assert ds[..done] == ds;
  }

  lemma MaskGrows(v: nat, mask: nat, radix: nat)
    requires mask > 0 && radix >= 2 && v / mask >= radix
    ensures mask < mask * radix <= v && mask * radix == radix * mask
  {
    Monotone(mask, radix, v / mask);
    Monotone(mask, 2, radix);
    assert v == mask * (v / mask) + v % mask;
  }

  lemma MaskShrinks(radix: nat, place: nat)
    requires radix >= 2
    ensures Power(radix, place) / radix == if place == 0 then 0 else Power(radix, place - 1)
  {
    if place > 0 {
      Residue(Power(radix, place), radix, Power(radix, place - 1), 0);
    }
  }

  method OutputOptionalPadding(size: nat, width: nat, padding: char) returns (text: string)
    ensures text == Filled(padding, if size < width then width - size else 0)
  {
    text := "";
    var i := size;
    while i < width
      invariant size <= i <= if size < width then width else size
      invariant text == Filled(padding, i - size)
    {
      text := text + [padding];
      i := i + 1;
    }
  }

  // ----- what the characters say

  /** A sign if the number is negative, and characters that read one by one as these digits. */
  ghost predicate Reads(number: string, negative: bool, ds: seq<nat>, radix: nat) {
    && |number| == |Sign(negative)| + |ds| && (negative ==> number[0] == '-')
    && forall i | 0 <= i < |ds| :: ds[i] < radix && DigitOf(number[|Sign(negative)| + i], true) == ds[i]
  }

  lemma NumberReads(negative: bool, ds: seq<nat>, upper: bool, radix: nat)
    requires radix <= MAX_RADIX && forall i | 0 <= i < |ds| :: ds[i] < radix
    ensures Reads(Sign(negative) + DigitText(ds, upper), negative, ds, radix)
  {
    forall i | 0 <= i < |ds|
      ensures DigitOf((Sign(negative) + DigitText(ds, upper))[|Sign(negative)| + i], true) == ds[i]
    {
      DigitTextAt(ds, i, upper);
      DigitOfDigitChar(ds[i], upper, true);
    }
  }

  predicate IsUpper(c: char) {
    'A' <= c <= 'Z'
  }

  predicate IsLower(c: char) {
    'a' <= c <= 'z'
  }

  lemma CaseOfText(ds: seq<nat>, upper: bool)
    requires forall i | 0 <= i < |ds| :: ds[i] < MAX_RADIX
    ensures forall c <- DigitText(ds, upper) :: if upper then !IsLower(c) else !IsUpper(c)
  {
    forall i | 0 <= i < |ds|
      ensures DigitText(ds, upper)[i] == DigitChar(ds[i], upper)
    {
      DigitTextAt(ds, i, upper);
    }
  }

  /** The sign and the digits of a number. */
  ghost predicate IsNumber(number: string, value: nat, negative: bool, radix: nat, upper: bool)
    requires 2 <= radix <= MAX_RADIX
  {
    number == Sign(negative) + DigitText(Digits(value, radix), upper)
  }

  lemma DigitsDenote(value: nat, negative: bool, radix: nat, upper: bool) returns (ds: seq<nat>, number: string)
    requires 2 <= radix <= MAX_RADIX
    ensures ds != [] && Value(ds, radix) == value && (|ds| > 1 ==> ds[0] != 0) && Reads(number, negative, ds, radix)
    ensures IsNumber(number, value, negative, radix, upper)
    ensures forall c <- number :: if upper then !IsLower(c) else !IsUpper(c)
  {
    ds := Digits(value, radix);
    ValueOfDigits(value, radix);
    NoLeadingZero(value, radix);
    CaseOfText(ds, upper);
    NumberReads(negative, ds, upper, radix);
    number := Sign(negative) + DigitText(ds, upper);
  }

  /** What is printed ends with a number, its sign in front of its digits, and is padded before it up to the width. */
  lemma PrintedDenotes(v: nat, negative: bool, radix: nat, width: nat, padding: char)
    returns (filling: nat, number: string, ds: seq<nat>)
    requires 2 <= radix <= MAX_RADIX
    ensures ds != [] && Value(ds, radix) == v && (|ds| > 1 ==> ds[0] != 0) && Reads(number, negative, ds, radix)
    ensures forall c <- number :: !IsUpper(c)
    ensures filling == if |number| < width then width - |number| else 0
    ensures
      var text := Printed(v, negative, radix, width, padding);
      |text| == filling + |number| && text[filling..] == number && forall k | 0 <= k < filling :: text[k] == padding
  {
    ds, number := DigitsDenote(v, negative, radix, false);
    filling := if |number| < width then width - |number| else 0;
    assert Printed(v, negative, radix, width, padding) == Filled(padding, filling) + number;
  }
}
