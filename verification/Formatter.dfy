/** Formatting of integers and texts by a format specification. */
module Formatter {
  import opened Arithmetic
  import opened Bytes
  import opened Numerals
  import opened TextOutputStream
  import opened Wrappers

  datatype FormatAlign = Nothing | Left | Right | Center

  datatype FormatSpec = FormatSpec(width: nat, kind: char, fill: char, align: FormatAlign)

  /** One character for each bit of a number, and one for the sign. */
  const BUFFER_SIZE := 65
  const BITS := 64

  /** The radix of a type of number; without a type it is decimal. */
  function Divider(kind: char): Option<nat> {
    if kind == 'x' || kind == 'X' then Some(16)
    else if kind == 'o' then Some(8)
    else if kind == 'b' then Some(2)
    else if kind == 'd' || kind == '\0' then Some(10)
    else None
  }

  /** How much of the filling goes before the text. */
  function Before(spec: FormatSpec, size: nat): (n: nat)
    requires size <= spec.width
    ensures n <= spec.width - size
  {
    match spec.align
    case Right => spec.width - size
    case Center => (spec.width - size) / 2
    case Nothing => 0
    case Left => 0
  }

  /** The text, with filling up to the width at the side that the alignment says. */
  function Aligned(text: string, spec: FormatSpec): (r: string)
    ensures |r| == if |text| < spec.width then spec.width else |text|
  {
    if |text| >= spec.width then text
    else
      var before := Before(spec, |text|);
      Filled(spec.fill, before) + text + Filled(spec.fill, spec.width - |text| - before)
  }

  method RawFormat(text: string, spec: FormatSpec) returns (stream: string)
    ensures stream == Aligned(text, spec)
  {
    var width := if spec.width < |text| then |text| else spec.width;
    var count := 0;
    match spec.align {
      case Right => count := width - |text|;
      case Center => count := (width - |text|) / 2;
      case Nothing =>
      case Left =>
    }
    width := width - count;
    stream := Fill(spec.fill, count);
    stream := stream + text;
    width := width - |text|;
    var rest := Fill(spec.fill, width);
    stream := stream + rest;
  }

  method Fill(c: char, n: nat) returns (text: string)
    ensures text == Filled(c, n)
  {
    text := "";
    var count := n;
    while count > 0
      invariant 0 <= count <= n && text == Filled(c, n - count)
    {
      text := text + [c];
      count := count - 1;
    }
  }

  /** What is written for a number: its digits in the radix of the type, aligned to the right if nothing else is said. */
  function Formatted(value: nat, negative: bool, spec: FormatSpec): Option<string> {
    var divider := Divider(spec.kind);
    if divider.None? then None
    else
      var number := Sign(negative) + DigitText(Digits(value, divider.value), 'A' <= spec.kind <= 'Z');
      Some(Aligned(number, if spec.align.Nothing? then spec.(align := Right) else spec))
  }

  /** The digits are put into a buffer from its end; an unknown type is an error. */
  method RawInteger(value: nat, negative: bool, spec: FormatSpec) returns (stream: Option<string>)
    requires value < UINT64_RANGE
    ensures stream == Formatted(value, negative, spec)
  {
    var divider := Divider(spec.kind);
    if divider.None? {
      return None;
    }
    var upper := 'A' <= spec.kind <= 'Z';
    var buffer := new char[BUFFER_SIZE];
    var index := FillBuffer(buffer, value, divider.value, upper);
    ghost var digits := DigitText(Digits(value, divider.value), upper);
    assert buffer[index..] == digits;
    if negative {
      index := index - 1;
      buffer[index] := '-';
      assert buffer[index..] == ['-'] + buffer[index + 1..];
    }
    assert buffer[index..] == Sign(negative) + digits;
    var aligned := if spec.align.Nothing? then spec.(align := Right) else spec;
    var text := RawFormat(buffer[index..], aligned);
    stream := Some(text);
  }

  /** The index does not go below the first place after the one for the sign. */
  method FillBuffer(buffer: array<char>, number: nat, divider: nat, upper: bool) returns (index: nat)
    requires buffer.Length == BUFFER_SIZE && number < UINT64_RANGE && 2 <= divider <= MAX_RADIX
    modifies buffer
    ensures 0 < index < BUFFER_SIZE
    ensures buffer[index..] == DigitText(Digits(number, divider), upper)
  {
    var value: nat := number;
    index := BUFFER_SIZE - 1;
    FitsBits(number, index);
    ghost var ds := Digits(number, divider);
    ghost var left := |ds|;
    assert ds[..left] == ds;
    while value >= divider
      invariant 0 < index < BUFFER_SIZE && value < Power2(index)
      invariant 0 < left <= |ds| && Digits(value, divider) == ds[..left]
      invariant BUFFER_SIZE - 1 - index == |ds| - left
      invariant TailOf(buffer[index + 1..], ds, left, upper)
      decreases value
    {
      QuotientShrinks(value, divider);
      QuotientFits(value, divider, index);
      LastDigit(value, divider, ds, left);
      PutDigit(buffer, index, value % divider, upper, ds, left);
      index := index - 1;
      value := value / divider;
      left := left - 1;
    }
    OnlyDigit(value, divider, ds, left);
    PutDigit(buffer, index, value, upper, ds, left);
    TailIsText(buffer[index..], ds, upper);
  }

  method PutDigit(buffer: array<char>, index: nat, digit: nat, upper: bool, ghost ds: seq<nat>, ghost left: nat)
    requires index < buffer.Length && 0 < left <= |ds| && digit == ds[left - 1] < MAX_RADIX
    requires TailOf(buffer[index + 1..], ds, left, upper)
    modifies buffer
    ensures TailOf(buffer[index..], ds, left - 1, upper)
  {
    TailGrows(buffer[index + 1..], ds, left, upper);
    ghost var tail := buffer[index + 1..];
    buffer[index] := DigitChar(digit, upper);
    assert buffer[index..] == [DigitChar(digit, upper)] + tail;
  }

  lemma FitsBits(number: nat, bits: nat)
    requires number < UINT64_RANGE && bits == BITS
    ensures number < Power2(bits)
  {
    SixteenBitsMore(bits - 64);
    SixteenBitsMore(bits - 48);
    SixteenBitsMore(bits - 32);
    SixteenBitsMore(bits - 16);
  }

  lemma {:induction false} SixteenBitsMore(n: nat)
    ensures Power2(n + 16) == 0x1_0000 * Power2(n)
  {
    if n > 0 {
      SixteenBitsMore(n - 1);
    } else {
      assert Power2(4) == 16 && Power2(8) == 256 && Power2(12) == 4096 && Power2(16) == 0x1_0000;
    }
  }

  /** A number of more than one digit needs more than one bit, and loses one with each digit. */
  lemma QuotientFits(value: nat, divider: nat, bits: nat)
    requires bits > 0 && 2 <= divider <= value < Power2(bits)
    ensures bits > 1 && value / divider < Power2(bits - 1)
  {
    assert Power2(bits) == 2 * Power2(bits - 1);
    Monotone(value / divider, 2, divider);
    assert value == divider * (value / divider) + value % divider;
    Monotone(1, value / divider, Power2(bits - 1));
  }

  lemma LastDigit(value: nat, divider: nat, ds: seq<nat>, left: nat)
    requires 2 <= divider <= value && left <= |ds| && Digits(value, divider) == ds[..left]
    ensures left > 1 && ds[left - 1] == value % divider < divider && ds[..left - 1] == Digits(value / divider, divider)
  {
    QuotientShrinks(value, divider);
    assert ds[left - 1] == ds[..left][left - 1] && ds[..left - 1] == ds[..left][..left - 1];
  }

  lemma OnlyDigit(value: nat, divider: nat, ds: seq<nat>, left: nat)
    requires 2 <= divider && value < divider && left <= |ds| && Digits(value, divider) == ds[..left]
    ensures left == 1 && ds[left - 1] == value
  {
    assert ds[left - 1] == ds[..left][left - 1];
  }

  /** The characters of the digits from a place on. */
  ghost predicate TailOf(tail: string, ds: seq<nat>, from: nat, upper: bool)
    requires from <= |ds|
  {
    && |tail| == |ds| - from
    && forall i | from <= i < |ds| :: ds[i] < MAX_RADIX && tail[i - from] == DigitChar(ds[i], upper)
  }

  lemma TailGrows(tail: string, ds: seq<nat>, from: nat, upper: bool)
    requires 0 < from <= |ds| && TailOf(tail, ds, from, upper) && ds[from - 1] < MAX_RADIX
    ensures TailOf([DigitChar(ds[from - 1], upper)] + tail, ds, from - 1, upper)
  {
  }

  lemma TailIsText(tail: string, ds: seq<nat>, upper: bool)
    requires TailOf(tail, ds, 0, upper) && forall i | 0 <= i < |ds| :: ds[i] < MAX_RADIX
    ensures tail == DigitText(ds, upper)
  {
    forall i | 0 <= i < |ds|
      ensures tail[i] == DigitText(ds, upper)[i]
    {
      DigitTextAt(ds, i, upper);
    }
  }

  /** The text lies in the filling from this place on. */
  ghost predicate LiesAt(aligned: string, text: string, first: nat, fill: char) {
    && first + |text| <= |aligned|
    && (forall i | 0 <= i < |text| :: aligned[first + i] == text[i])
    && (forall k | 0 <= k < |aligned| && !(first <= k < first + |text|) :: aligned[k] == fill)
  }

  /** A text is filled up to the width: behind it, before it, or on both sides with the odd one behind it. */
  lemma AlignedLiesAt(text: string, spec: FormatSpec) returns (filling: nat, first: nat)
    ensures filling == if |text| < spec.width then spec.width - |text| else 0
    ensures first == if spec.align.Right? then filling else if spec.align.Center? then filling / 2 else 0
    ensures |Aligned(text, spec)| == |text| + filling && LiesAt(Aligned(text, spec), text, first, spec.fill)
  {
    filling := if |text| < spec.width then spec.width - |text| else 0;
    first := if |text| < spec.width then Before(spec, |text|) else 0;
  }

  /**
   * What is written is a number beside filling: its characters read one by one as digits in the radix of the type,
   * behind a sign if it is negative, those digits denote it, and there is no leading zero. A number goes to the right if
   * nothing else is said, and its digits are capitals for a type that is one.
   */
  lemma FormattedDenotes(value: nat, negative: bool, spec: FormatSpec)
    returns (number: string, first: nat, ds: seq<nat>, radix: nat)
    requires spec.kind in "xXobd\0"
    ensures radix == if spec.kind == 'x' || spec.kind == 'X' then 16 else if spec.kind == 'o' then 8 else if spec.kind == 'b' then 2 else 10
    ensures Value(ds, radix) == value && ds != [] && (|ds| > 1 ==> ds[0] != 0) && Reads(number, negative, ds, radix)
    ensures forall c <- number :: if spec.kind == 'X' then !IsLower(c) else !IsUpper(c)
    ensures
      var filling := if |number| < spec.width then spec.width - |number| else 0;
      && first == (if spec.align.Left? then 0 else if spec.align.Center? then filling / 2 else filling)
      && Formatted(value, negative, spec).Some? && |Formatted(value, negative, spec).value| == |number| + filling
      && LiesAt(Formatted(value, negative, spec).value, number, first, spec.fill)
  {
    var upper := 'A' <= spec.kind <= 'Z';
    radix := RadixOf(spec.kind);
    ds, number := DigitsDenote(value, negative, radix, upper);
    first := NumberLiesAt(value, negative, spec, radix, upper, number);
  }

  lemma RadixOf(kind: char) returns (radix: nat)
    requires kind in "xXobd\0"
    ensures Divider(kind) == Some(radix)
    ensures radix == if kind == 'x' || kind == 'X' then 16 else if kind == 'o' then 8 else if kind == 'b' then 2 else 10
  {
    radix := Divider(kind).value;
  }

  lemma NumberLiesAt(value: nat, negative: bool, spec: FormatSpec, radix: nat, upper: bool, number: string) returns (first: nat)
    requires Divider(spec.kind) == Some(radix) && upper == ('A' <= spec.kind <= 'Z')
    requires IsNumber(number, value, negative, radix, upper)
    ensures
      var filling := if |number| < spec.width then spec.width - |number| else 0;
      && first == (if spec.align.Left? then 0 else if spec.align.Center? then filling / 2 else filling)
      && Formatted(value, negative, spec).Some? && |Formatted(value, negative, spec).value| == |number| + filling
      && LiesAt(Formatted(value, negative, spec).value, number, first, spec.fill)
  {
    var aligned := if spec.align.Nothing? then spec.(align := Right) else spec;
    var filling;
    filling, first := AlignedLiesAt(number, aligned);
  }

  /** There are no other types of number. */
  lemma OtherTypesAreErrors(value: nat, negative: bool, spec: FormatSpec)
    ensures Formatted(value, negative, spec).None? <==> spec.kind !in "xXobd\0"
  {
  }

  method SignedInteger(value: int, spec: FormatSpec) returns (stream: Option<string>)
    requires -(UINT64_RANGE / 2) < value < UINT64_RANGE / 2
    ensures stream == Formatted(if value < 0 then -value else value, value < 0, spec)
  {
    var negative := value < 0;
    stream := RawInteger(if negative then -value else value, negative, spec);
  }
}
