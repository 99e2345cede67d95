/** Numbers as digits in a radix, and digits as characters. */
module Numerals {
  import opened Arithmetic

  const MAX_RADIX := 16

  /** The digits of a number, the most significant one first. */
  function Digits(v: nat, radix: nat): (ds: seq<nat>)
    requires radix >= 2
    ensures ds != [] && forall i | 0 <= i < |ds| :: ds[i] < radix
    decreases v
  {
    if v < radix then [v]
    else
      QuotientShrinks(v, radix);
      Digits(v / radix, radix) + [v % radix]
  }

  function Value(ds: seq<nat>, radix: nat): nat {
    if ds == [] then 0 else Product(Value(ds[..|ds| - 1], radix), radix) + ds[|ds| - 1]
  }

  function Product(a: nat, b: nat): nat {
    ProductIsNat(a, b);
    a * b
  }

  /** The digits of a number denote it. */
  lemma {:induction false} ValueOfDigits(v: nat, radix: nat)
    requires radix >= 2
    ensures Value(Digits(v, radix), radix) == v
    decreases v
  {
    var ds := Digits(v, radix);
    if v < radix {
      assert Value(ds[..0], radix) == 0;
    } else {
      QuotientShrinks(v, radix);
      ValueOfDigits(v / radix, radix);
      assert ds[..|ds| - 1] == Digits(v / radix, radix);
      Recomposed(v, radix);
    }
  }

  lemma {:induction false} NoLeadingZero(value: nat, radix: nat)
    requires radix >= 2
    ensures |Digits(value, radix)| > 1 ==> Digits(value, radix)[0] != 0
    decreases value
  {
    if value >= radix {
      QuotientShrinks(value, radix);
      NoLeadingZero(value / radix, radix);
      QuotientIsPositive(value, radix);
    }
  }

  lemma QuotientIsPositive(value: nat, radix: nat)
    requires 2 <= radix <= value
    ensures value / radix > 0
  {
  }

  lemma Recomposed(v: nat, radix: nat)
    requires radix > 0
    ensures Product(v / radix, radix) + v % radix == v
  {
  }

  function Power(radix: nat, n: nat): (p: nat)
    requires radix > 0
    ensures p > 0
  {
    if n == 0 then 1
    else
      Monotone(radix, 1, Power(radix, n - 1));
      radix * Power(radix, n - 1)
  }

  /** A digit by its place. */
  lemma {:induction false} DigitAt(v: nat, radix: nat, place: nat)
    requires radix >= 2 && place < |Digits(v, radix)|
    ensures Digits(v, radix)[|Digits(v, radix)| - 1 - place] == v / Power(radix, place) % radix
    decreases v
  {
    if v < radix {
      SmallQuotient(v, radix);
    } else if place > 0 {
      QuotientShrinks(v, radix);
      var ds, upper := Digits(v, radix), Digits(v / radix, radix);
      assert ds[|ds| - 1 - place] == upper[|upper| - 1 - (place - 1)];
      DigitAt(v / radix, radix, place - 1);
      DividedTwice(v, radix, Power(radix, place - 1));
    } else {
      assert v / Power(radix, place) == v;
    }
  }

  lemma SmallQuotient(v: nat, radix: nat)
    requires v < radix
    ensures v % radix == v && v / 1 == v && v / radix == 0
  {
    Residue(v, radix, 0, v);
  }

  /** How many digits there are. */
  lemma {:induction false} DigitCount(v: nat, radix: nat, places: nat)
    requires radix >= 2 && v / Power(radix, places) < radix
    requires places == 0 || v / Power(radix, places) > 0
    ensures |Digits(v, radix)| == places + 1
    decreases v
  {
    if places > 0 {
      DividedTwice(v, radix, Power(radix, places - 1));
      QuotientIsSmall(v, radix, Power(radix, places - 1));
      QuotientShrinks(v, radix);
      DigitCount(v / radix, radix, places - 1);
    }
  }

  lemma QuotientIsSmall(v: nat, radix: nat, p: nat)
    requires radix >= 2 && p > 0 && v / radix / p > 0
    ensures v >= radix
  {
    if v < radix {
      assert v / radix == 0;
      Residue(0, p, 0, 0);
      assert false;
    }
  }

  function DigitChar(digit: nat, upper: bool): char
    requires digit < MAX_RADIX
  {
    if digit < 10 then ('0' as int + digit) as char
    else if upper then ('A' as int + (digit - 10)) as char
    else ('a' as int + (digit - 10)) as char
  }

  lemma DigitCharacters(digit: nat)
    requires digit < MAX_RADIX
    ensures DigitChar(digit, true) == "0123456789ABCDEF"[digit] && DigitChar(digit, false) == "0123456789abcdef"[digit]
  {
  }

  /** The digit that a character stands for, and the radix limit if it stands for none. */
  function DigitOf(c: char, hex: bool): (digit: nat)
    ensures digit <= MAX_RADIX
  {
    if '0' <= c <= '9' then c as int - '0' as int
    else if hex && 'a' <= c <= 'f' then c as int - 'a' as int + 10
    else if hex && 'A' <= c <= 'F' then c as int - 'A' as int + 10
    else MAX_RADIX
  }

  lemma DigitOfDigitChar(digit: nat, upper: bool, hex: bool)
    requires digit < if hex then 16 else 10
    ensures DigitOf(DigitChar(digit, upper), hex) == digit
    ensures DigitChar(digit, upper) != ' ' && DigitChar(digit, upper) != '-'
  {
  }

  function DigitText(ds: seq<nat>, upper: bool): (text: string)
    requires forall i | 0 <= i < |ds| :: ds[i] < MAX_RADIX
    ensures |text| == |ds|
  {
    if ds == [] then "" else DigitText(ds[..|ds| - 1], upper) + [DigitChar(ds[|ds| - 1], upper)]
  }

  lemma DigitTextOnwards(ds: seq<nat>, i: nat, upper: bool)
    requires i < |ds| && forall k | 0 <= k < |ds| :: ds[k] < MAX_RADIX
    ensures DigitText(ds[..i + 1], upper) == DigitText(ds[..i], upper) + [DigitChar(ds[i], upper)]
  {
    assert ds[..i + 1][..i] == ds[..i];
  }

  lemma {:induction false} DigitTextAt(ds: seq<nat>, i: nat, upper: bool)
    requires i < |ds| && forall k | 0 <= k < |ds| :: ds[k] < MAX_RADIX
    ensures DigitText(ds, upper)[i] == DigitChar(ds[i], upper)
    decreases |ds|
  {
    if i < |ds| - 1 {
      DigitTextAt(ds[..|ds| - 1], i, upper);
    }
  }

  function Filled(c: char, n: nat): (text: string)
    ensures |text| == n && forall i | 0 <= i < n :: text[i] == c
  {
    if n == 0 then "" else Filled(c, n - 1) + [c]
  }
}
