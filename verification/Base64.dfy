/** The Base64 encoder and decoder of the text streams; section 4 of RFC 4648. */
module Base64 {
  import opened Arithmetic
  import opened Bytes
  import opened Sequences
  import opened Wrappers

  const SIZE_RANGE := 0x1_0000_0000_0000_0000
  const COUNTER_RANGE := 0x1_0000_0000
  const WORD_LIMIT := 0x1_0000

  /** The alphabet of Table 1 of RFC 4648. */
  function TableChar(sextet: nat): char
    requires sextet < 64
  {
    if sextet < 26 then ('A' as int + sextet) as char
    else if sextet < 52 then ('a' as int + (sextet - 26)) as char
    else if sextet < 62 then ('0' as int + (sextet - 52)) as char
    else if sextet == 62 then '+' else '/'
  }

  /** The sextet of a character, and 64 if it is not in the table. */
  function SextetOf(c: char): (sextet: nat)
    ensures sextet <= 64
    ensures sextet < 64 ==> TableChar(sextet) == c
  {
    if 'A' <= c <= 'Z' then c as int - 'A' as int
    else if 'a' <= c <= 'z' then c as int - 'a' as int + 26
    else if '0' <= c <= '9' then c as int - '0' as int + 52
    else if c == '+' then 62 else if c == '/' then 63 else 64
  }

  lemma SextetOfTableChar(sextet: nat)
    requires sextet < 64
    ensures SextetOf(TableChar(sextet)) == sextet
  {
  }

  /** The alphabet, letter by letter. */
  lemma TableIsRfc4648(sextet: nat)
    requires sextet < 64
    ensures sextet < 26 ==> TableChar(sextet) == "ABCDEFGHIJKLMNOPQRSTUVWXYZ"[sextet]
    ensures 26 <= sextet < 52 ==> TableChar(sextet) == "abcdefghijklmnopqrstuvwxyz"[sextet - 26]
    ensures 52 <= sextet ==> TableChar(sextet) == "0123456789+/"[sextet - 52]
  {
  }

  /** std::find: the position of a character in the table. */
  method DecodeBase64Byte(c: char) returns (position: nat)
    ensures position == SextetOf(c)
  {
    position := 0;
    while position < 64 && TableChar(position) != c
      invariant position <= 64
      invariant SextetOf(c) >= position
    {
      position := position + 1;
    }
    if position < 64 {
      SextetOfTableChar(position);
    }
  }

  /** What stands for a sextet, and '=' for the padding. */
  type Symbol = nat

  const PAD: Symbol := 64

  function Char(symbol: Symbol): char {
    if symbol >= PAD then '=' else TableChar(symbol)
  }

  function Text(symbols: seq<Symbol>): (text: string)
    ensures |text| == |symbols|
  {
    if symbols == [] then "" else Text(symbols[..|symbols| - 1]) + [Char(symbols[|symbols| - 1])]
  }

  lemma TextOnwards(symbols: seq<Symbol>, symbol: Symbol)
    ensures Text(symbols + [symbol]) == Text(symbols) + [Char(symbol)]
  {
    assert (symbols + [symbol])[..|symbols|] == symbols;
  }

  lemma {:induction false} TextAt(symbols: seq<Symbol>, i: nat)
    requires i < |symbols|
    ensures Text(symbols)[i] == Char(symbols[i])
    decreases |symbols|
  {
    if i < |symbols| - 1 {
      TextAt(symbols[..|symbols| - 1], i);
    }
  }

  function Values(text: string): (values: seq<Symbol>)
    ensures |values| == |text| && forall i | 0 <= i < |text| :: values[i] == SextetOf(text[i])
  {
    seq(|text|, i requires 0 <= i < |text| => SextetOf(text[i]))
  }

  lemma ValuesOfText(symbols: seq<Symbol>)
    requires forall i | 0 <= i < |symbols| :: symbols[i] <= PAD
    ensures Values(Text(symbols)) == symbols
  {
    forall i | 0 <= i < |symbols|
      ensures Values(Text(symbols))[i] == symbols[i]
    {
      TextAt(symbols, i);
      if symbols[i] < 64 {
        SextetOfTableChar(symbols[i]);
      }
    }
  }

  // ------------------------------------------------------------------------------------------- what the encoding is

  function First(a: Byte): Symbol {
    a / 4
  }

  function Second(a: Byte, b: Byte): Symbol {
    a % 4 * 16 + b / 16
  }

  function Third(b: Byte, c: Byte): Symbol {
    b % 16 * 4 + c / 64
  }

  function Fourth(c: Byte): Symbol {
    c % 64
  }

  lemma GroupCarries(a: Byte, b: Byte, c: Byte)
    ensures First(a) * 4 + Second(a, b) / 16 == a
    ensures Second(a, b) % 16 * 16 + Third(b, c) / 4 == b
    ensures Third(b, c) % 4 * 64 + Fourth(c) == c
    ensures First(a) < 64 && Second(a, b) < 64 && Third(b, c) < 64 && Fourth(c) < 64
  {
  }

  function Group(a: Byte, b: Byte, c: Byte): seq<Symbol> {
    [First(a), Second(a, b), Third(b, c), Fourth(c)]
  }

  /** The symbols that the bytes of a group that is not complete fill. */
  function Begun(rest: seq<Byte>): seq<Symbol>
    requires |rest| < 3
  {
    if rest == [] then []
    else if |rest| == 1 then [First(rest[0])]
    else [First(rest[0]), Second(rest[0], rest[1])]
  }

  /** The bits that do not fill a symbol. */
  function Carried(rest: seq<Byte>): Symbol
    requires |rest| < 3
  {
    if rest == [] then 0 else if |rest| == 1 then Second(rest[0], 0) else Third(rest[1], 0)
  }

  /** A group that is not complete is padded, with zero bits and with '='. */
  function Closed(rest: seq<Byte>): seq<Symbol>
    requires |rest| < 3
  {
    if rest == [] then [] else if |rest| == 1 then [Carried(rest), PAD, PAD] else [Carried(rest), PAD]
  }

  /** Three bytes make four symbols. */
  function Encoded(data: seq<Byte>): (symbols: seq<Symbol>)
  {
    if |data| < 3 then Begun(data) + Closed(data)
    else Group(data[0], data[1], data[2]) + Encoded(data[3..])
  }

  lemma EncodedNothing()
    ensures Encoded([]) == []
  {
  }

  lemma GroupFirst(data: seq<Byte>)
    requires |data| >= 3
    ensures Encoded(data) == Group(data[0], data[1], data[2]) + Encoded(data[3..])
  {
  }

  lemma {:induction false} EncodedOnwards(whole: seq<Byte>, rest: seq<Byte>)
    requires |whole| % 3 == 0
    ensures Encoded(whole + rest) == Encoded(whole) + Encoded(rest)
    decreases |whole|
  {
    if whole == [] {
      assert whole + rest == rest;
      EncodedNothing();
    } else {
      EncodedOnwards(whole[3..], rest);
      GroupFirst(whole);
      GroupFirst(whole + rest);
      RestAppended(whole, 3, rest);
      Reassociated(Group(whole[0], whole[1], whole[2]), Encoded(whole[3..]), Encoded(rest));
    }
  }

  /** The encoding is as long as groups of three bytes make it. */
  lemma {:induction false} EncodedLength(data: seq<Byte>)
    ensures |Encoded(data)| == Needed(|data|) + Padding(|data|)
    decreases |data|
  {
    if |data| >= 3 {
      EncodedLength(data[3..]);
      GroupFirst(data);
      NeededOnwards(|data|);
    }
  }

  // --------------------------------------------------------------------------------------------------- the encoder

  function Completed(rest: seq<Byte>, byte: Byte): Symbol
    requires |rest| < 3
  {
    if rest == [] then First(byte) else if |rest| == 1 then Second(rest[0], byte) else Third(rest[1], byte)
  }

  function Kept(rest: seq<Byte>, byte: Byte): Symbol
    requires |rest| < 3
  {
    if rest == [] then Second(byte, 0) else if |rest| == 1 then Third(byte, 0) else Fourth(byte)
  }

  function ShiftedLeft(x: nat, n: nat): nat
    decreases n
  {
    if n == 0 then x else ShiftedLeft(x * 2, n - 1)
  }

  /** The bits of a byte that complete a symbol, and those that start the next one. */
  function UpperBits(carried: nat, byte: Byte, bitIndex: nat): nat {
    Or(carried, Upper(byte, bitIndex))
  }

  function LowerBits(byte: Byte, bitIndex: nat): nat
    requires bitIndex <= 8
  {
    ShiftedLeft(byte, 8 - bitIndex) % 256 / 4
  }

  lemma SplitByte(rest: seq<Byte>, byte: Byte)
    requires |rest| < 3
    ensures UpperBits(Carried(rest), byte, 2 + 2 * |rest|) == Completed(rest, byte)
    ensures LowerBits(byte, 2 + 2 * |rest|) == Kept(rest, byte)
  {
    if |rest| == 0 {
      SplitIn2(byte);
    } else if |rest| == 1 {
      SplitIn4(rest[0], byte);
    } else {
      SplitIn6(rest[1], byte);
    }
  }

  lemma UpperBits2(x: nat)
    ensures Upper(x, 2) == x / 4
  {
    assert Upper(x, 2) == x / 2 / 2;
  }

  lemma UpperBits4(x: nat)
    ensures Upper(x, 4) == x / 16
  {
    assert Upper(x, 4) == Upper(x / 2 / 2, 2);
    UpperBits2(x / 4);
    DividedTwice(x, 4, 4);
  }

  lemma UpperBits6(x: nat)
    ensures Upper(x, 6) == x / 64
  {
    assert Upper(x, 6) == Upper(x / 2 / 2, 4);
    UpperBits4(x / 4);
    DividedTwice(x, 4, 16);
  }

  lemma SplitIn2(byte: Byte)
    ensures UpperBits(0, byte, 2) == First(byte)
    ensures LowerBits(byte, 2) == Second(byte, 0)
  {
    UpperBits2(byte);
    assert ShiftedLeft(byte, 6) == byte * 64;
    Residue(byte * 64, 256, byte / 4, byte % 4 * 64);
  }

  lemma SplitIn4(a: Byte, byte: Byte)
    ensures UpperBits(Second(a, 0), byte, 4) == Second(a, byte)
    ensures LowerBits(byte, 4) == Third(byte, 0)
  {
    UpperBits4(byte);
    OrWith4(a % 4, byte / 16);
    assert ShiftedLeft(byte, 4) == byte * 16;
    Residue(byte * 16, 256, byte / 16, byte % 16 * 16);
  }

  lemma SplitIn6(b: Byte, byte: Byte)
    ensures UpperBits(Third(b, 0), byte, 6) == Third(b, byte)
    ensures LowerBits(byte, 6) == Fourth(byte)
  {
    UpperBits6(byte);
    OrWith2(b % 16, byte / 64);
    assert ShiftedLeft(byte, 2) == byte * 4;
    Residue(byte * 4, 256, byte / 64, byte % 64 * 4);
  }

  lemma OrWith2(q: nat, low: nat)
    requires low < 4
    ensures Or(q * 4, low) == q * 4 + low
  {
    assert Power2(2) == 4;
    OrAbove(q, low, 2);
  }

  lemma OrWith4(q: nat, low: nat)
    requires low < 16
    ensures Or(q * 16, low) == q * 16 + low
  {
    assert Power2(2) == 4 && Power2(4) == 16;
    OrAbove(q, low, 4);
  }

  lemma OrWith6(q: nat, low: nat)
    requires low < 64
    ensures Or(q * 64, low) == q * 64 + low
  {
    assert Power2(2) == 4 && Power2(4) == 16 && Power2(6) == 64;
    OrAbove(q, low, 6);
  }

  lemma BegunWritten(whole: seq<Byte>, rest: seq<Byte>, byte: Byte)
    requires |rest| < 2
    ensures Encoded(whole) + Begun(rest + [byte]) == Encoded(whole) + Begun(rest) + [Completed(rest, byte)]
    ensures Carried(rest + [byte]) == Kept(rest, byte)
    ensures whole + (rest + [byte]) == whole + rest + [byte]
  {
  }

  lemma GroupWritten(whole: seq<Byte>, rest: seq<Byte>, byte: Byte)
    requires |whole| % 3 == 0 && |rest| == 2
    ensures Encoded(whole + (rest + [byte])) + Begun([]) == Encoded(whole) + Begun(rest) + [Completed(rest, byte)] + [Kept(rest, byte)]
    ensures whole + (rest + [byte]) + [] == whole + rest + [byte]
  {
    var group := rest + [byte];
    EncodedOnwards(whole, group);
    GroupFirst(group);
    assert group[3..] == [];
    EncodedNothing();
    assert Encoded(group) == Group(rest[0], rest[1], byte);
  }

  class Base64Encoder {
    var bitIndex: nat
    var encodedByte: nat
    var size: nat
    var stream: string

    /** What was encoded: complete groups, and the bytes of the last one. */
    ghost var whole: seq<Byte>
    ghost var rest: seq<Byte>
    ghost var symbols: seq<Symbol>

    ghost predicate Valid()
      reads this
    {
      && |whole| % 3 == 0 && |rest| < 3
      && bitIndex == 2 + 2 * |rest|
      && encodedByte == Carried(rest)
      && symbols == Encoded(whole) + Begun(rest)
      && Streamed()
    }

    ghost predicate Streamed()
      reads this
    {
      stream == Text(symbols) && size < COUNTER_RANGE && size % 4 == |symbols| % 4
    }

    constructor ()
      ensures Valid() && whole == rest == []
    {
      bitIndex := 2;
      encodedByte := 0;
      size := 0;
      stream := "";
      whole, rest, symbols := [], [], [];
    }

    method Put(symbol: Symbol)
      requires Streamed()
      modifies this`stream, this`size, this`symbols
      ensures Streamed() && symbols == old(symbols) + [symbol]
    {
      CounterOnwards(size, |symbols|);
      TextOnwards(symbols, symbol);
      stream := stream + [Char(symbol)];
      size := (size + 1) % COUNTER_RANGE;
      symbols := symbols + [symbol];
    }

    /** Any number of ranges may be encoded one after the other. */
    method Encode(data: seq<Byte>)
      requires Valid()
      modifies this
      ensures Valid() && whole + rest == old(whole + rest) + data
    {
      var i := 0;
      while i < |data|
        invariant 0 <= i <= |data|
        invariant Valid() && whole + rest == old(whole + rest) + data[..i]
      {
        EncodeByte(data[i]);
        PrefixGrows(old(whole + rest), data, i);
        i := i + 1;
      }
    }

    method EncodeByte(byte: Byte)
      requires Valid()
      modifies this
      ensures Valid() && whole + rest == old(whole + rest) + [byte]
    {
      SplitByte(rest, byte);
      if |rest| == 2 {
        GroupWritten(whole, rest, byte);
      } else {
        BegunWritten(whole, rest, byte);
      }
      PutBits(UpperBits(encodedByte, byte, bitIndex), LowerBits(byte, bitIndex), byte);
    }

    /** The upper bits of a byte are written with what was carried; the lower ones too if they complete a group. */
    method PutBits(upper: Symbol, lower: Symbol, ghost byte: Byte)
      requires Valid()
      requires |rest| < 2 ==> Encoded(whole) + Begun(rest + [byte]) == symbols + [upper] && Carried(rest + [byte]) == lower
      requires |rest| == 2 ==> Encoded(whole + (rest + [byte])) + Begun([]) == symbols + [upper] + [lower]
      modifies this
      ensures Valid() && whole + rest == old(whole + rest) + [byte]
    {
      ghost var group := rest + [byte];
      Reassociated(whole, rest, [byte]);
      encodedByte := upper;
      Put(encodedByte);
      encodedByte := lower;
      bitIndex := bitIndex + 2;
      if bitIndex == 8 {
        CompleteGroup(group);
      } else {
        rest := group;
      }
    }

    method CompleteGroup(ghost group: seq<Byte>)
      requires Streamed() && |whole| % 3 == 0 && |group| == 3
      requires symbols + [encodedByte] == Encoded(whole + group) + Begun([])
      modifies this
      ensures Valid() && whole == old(whole) + group && rest == []
    {
      Put(encodedByte);
      encodedByte := 0;
      bitIndex := 2;
      whole := whole + group;
      rest := [];
    }

    /** The destructor completes the last group. */
    method Finish()
      requires Valid()
      modifies this
      ensures stream == Text(Encoded(old(whole + rest)))
    {
      EncodedOnwards(whole, rest);
      WholeGroups(whole, rest);
      Close(rest);
      Reassociated(Encoded(whole), Begun(rest), Closed(rest));
    }

    method Close(ghost rest: seq<Byte>)
      requires Streamed() && |rest| < 3 && |symbols| % 4 == |rest| && encodedByte == Carried(rest)
      modifies this`stream, this`size, this`symbols
      ensures Streamed() && symbols == old(symbols) + Closed(rest)
    {
      ghost var n := |symbols|;
      NextModulo4(n);
      if size % 4 != 0 {
        Put(encodedByte);
      }
      if size % 4 != 0 {
        Put(PAD);
      }
      if size % 4 != 0 {
        Put(PAD);
      }
    }
  }

  lemma NextModulo4(n: nat)
    ensures (n + 1) % 4 == (n % 4 + 1) % 4 && (n + 2) % 4 == (n % 4 + 2) % 4 && (n + 3) % 4 == (n % 4 + 3) % 4
  {
  }

  lemma WholeGroups(whole: seq<Byte>, rest: seq<Byte>)
    requires |whole| % 3 == 0 && |rest| < 3
    ensures |Encoded(whole) + Begun(rest)| % 4 == |rest|
  {
    WholeLength(whole);
    GroupsAndMore(Encoded(whole), Begun(rest));
  }

  lemma GroupsAndMore<T>(groups: seq<T>, more: seq<T>)
    requires |groups| % 4 == 0 && |more| < 4
    ensures |groups + more| % 4 == |more|
  {
    FourMore(|groups|, |more|);
  }

  lemma {:induction false} WholeLength(whole: seq<Byte>)
    requires |whole| % 3 == 0
    ensures |Encoded(whole)| % 4 == 0
    decreases |whole|
  {
    if whole == [] {
      EncodedNothing();
    } else {
      GroupFirst(whole);
      WholeLength(whole[3..]);
      FourMore(|Encoded(whole[3..])|, 4);
    }
  }

  lemma FourMore(n: nat, more: nat)
    requires n % 4 == 0
    ensures (n + more) % 4 == more % 4
  {
  }

  /** The counter wraps at a multiple of four. */
  lemma CounterOnwards(size: nat, n: nat)
    requires size < COUNTER_RANGE && size % 4 == n % 4
    ensures (size + 1) % COUNTER_RANGE % 4 == (n + 1) % 4
  {
    if size + 1 < COUNTER_RANGE {
      assert (size + 1) % COUNTER_RANGE == size + 1;
    } else {
      assert (size + 1) % COUNTER_RANGE == 0;
    }
  }

  // --------------------------------------------------------------------------------------------------- the decoder

  /** How many characters carry this many bytes, and how many '=' follow them. */
  function Needed(length: nat): nat {
    (4 * length + 2) / 3
  }

  function Padding(length: nat): nat {
    if length % 3 == 0 then 0 else 3 - length % 3
  }

  lemma NeededOnwards(length: nat)
    requires length >= 3
    ensures Needed(length) == 4 + Needed(length - 3) && Padding(length) == Padding(length - 3)
  {
  }

  ghost predicate AllSextets(values: seq<Symbol>, n: nat)
    requires n <= |values|
  {
    forall k | 0 <= k < n :: values[k] < 64
  }

  /** The byte that the values from 8 * i / 6 on carry. */
  function ByteAt(values: seq<Symbol>, i: nat): int
    requires i + i / 3 + 1 < |values|
  {
    Spliced(values[i + i / 3], values[i + i / 3 + 1], i % 3)
  }

  function Spliced(s: Symbol, t: Symbol, phase: nat): int {
    if phase == 0 then s * 4 + t / 16 else if phase == 1 then s % 16 * 16 + t / 4 else s % 4 * 64 + t
  }

  /** Whether a text holds this many bytes; padding may be missing, but nothing else may be in its place. */
  ghost predicate Holds(text: string, length: nat) {
    && Needed(length) <= |text| && AllSextets(Values(text), Needed(length))
    && forall k | Needed(length) <= k < Needed(length) + Padding(length) && k < |text| :: text[k] == '='
  }

  /** The number of bits that were read and not delivered after n characters; they are the low bits of the last one. */
  function Pending(n: nat): nat {
    6 * n % 8
  }

  ghost predicate Remembers(values: seq<Symbol>, n: nat, word: nat)
    requires n <= |values|
  {
    word < WORD_LIMIT && (n > 0 ==> word % 64 == values[n - 1])
  }

  method FromBase64(data: array<Byte>, text: string) returns (ok: bool, consumed: nat)
    modifies data
    ensures ok <==> Holds(text, data.Length)
    ensures ok ==> forall i | 0 <= i < data.Length :: data[i] == ByteAt(Values(text), i)
    ensures ok ==> consumed == Min(Needed(data.Length) + Padding(data.Length), |text|)
  {
    var done, bitIndex := 0, 0;
    ok, done, consumed, bitIndex := ReadBytes(data, text);
    if !ok {
      return;
    }
    ghost var first := consumed;
    PendingAtEnd(data.Length);
    assert Pending(consumed) % 2 == 0;
    while bitIndex != 0 && consumed < |text|
      invariant first <= consumed <= |text| && bitIndex + 2 * (consumed - first) == Pending(first)
      invariant bitIndex >= 0 && bitIndex % 2 == 0
      invariant ok <==> forall k | first <= k < consumed :: text[k] == '='
      decreases |text| - consumed
    {
      ok := ok && text[consumed] == '=';
      consumed := consumed + 1;
      bitIndex := bitIndex - 2;
    }
    if done == data.Length {
      assert consumed == if first + Padding(data.Length) <= |text| then first + Padding(data.Length) else |text|;
    }
    ok := ok && done == data.Length;
  }

  lemma PendingAtEnd(length: nat)
    ensures Pending(Needed(length)) == 2 * Padding(length)
  {
    var q := length / 3;
    if length % 3 == 0 {
      assert Needed(length) == 4 * q;
    } else if length % 3 == 1 {
      assert Needed(length) == 4 * q + 2;
    } else {
      assert Needed(length) == 4 * q + 3;
    }
  }

  /** The loop over the characters that carry bytes; it fails at a character that is not in the table. */
  method ReadBytes(data: array<Byte>, text: string) returns (ok: bool, done: nat, consumed: nat, bitIndex: nat)
    modifies data
    ensures consumed <= |text|
    ensures !ok ==> consumed <= Needed(data.Length) && !AllSextets(Values(text), consumed)
    ensures ok ==> AllSextets(Values(text), consumed) && bitIndex == Pending(consumed) && done <= data.Length
    ensures ok ==> if done == data.Length then consumed == Needed(data.Length) else consumed == |text| < Needed(data.Length)
    ensures ok && done == data.Length ==> forall i | 0 <= i < data.Length :: data[i] == ByteAt(Values(text), i)
  {
    var decodedWord: nat := 0;
    ghost var values := Values(text);
    done, consumed, bitIndex := 0, 0, 0;
    while done < data.Length && consumed < |text|
      invariant 0 <= done <= data.Length && consumed <= |text|
      invariant done == 6 * consumed / 8 && bitIndex == Pending(consumed)
      invariant consumed <= Needed(data.Length)
      invariant AllSextets(values, consumed) && Remembers(values, consumed, decodedWord)
      invariant forall i | 0 <= i < done :: i + i / 3 + 1 < |values| && data[i] == ByteAt(values, i)
      decreases |text| - consumed
    {
      var decodedValue := DecodeBase64Byte(text[consumed]);
      consumed := consumed + 1;
      if decodedValue >= 64 {
        return false, done, consumed, bitIndex;
      }
      NextWord(decodedWord, decodedValue);
      Progress(consumed - 1, data.Length);
      ghost var last := decodedWord;
      decodedWord := Or(decodedWord * 64 % WORD_LIMIT, decodedValue);
      bitIndex := bitIndex + 6;
      if bitIndex >= 8 {
        CompletedByte(values, consumed, last, decodedWord);
        StoreByte(data, done, Upper(decodedWord, bitIndex - 8) % 256, values);
        done := done + 1;
        bitIndex := bitIndex - 8;
      }
    }
    BytesDone(consumed, data.Length);
    ok := true;
  }

  method StoreByte(data: array<Byte>, done: nat, byte: Byte, ghost values: seq<Symbol>)
    requires done < data.Length && done + done / 3 + 1 < |values| && byte == ByteAt(values, done)
    requires forall i | 0 <= i < done :: i + i / 3 + 1 < |values| && data[i] == ByteAt(values, i)
    modifies data
    ensures forall i | 0 <= i < done + 1 :: i + i / 3 + 1 < |values| && data[i] == ByteAt(values, i)
  {
    data[done] := byte;
  }

  lemma BytesDone(n: nat, length: nat)
    requires n <= Needed(length) && 6 * n / 8 <= length
    ensures 6 * n / 8 == length <==> n == Needed(length)
  {
    var q, r := 6 * n / 8, 6 * n % 8;
    assert 6 * n == 8 * q + r;
    assert 3 * Needed(length) >= 4 * length;
  }

  lemma NextWord(word: nat, value: nat)
    requires word < WORD_LIMIT && value < 64
    ensures Or(word * 64 % WORD_LIMIT, value) == word % 1024 * 64 + value < WORD_LIMIT
    ensures (word % 1024 * 64 + value) % 64 == value
  {
    Residue(word * 64, WORD_LIMIT, word / 1024, word % 1024 * 64);
    OrWith6(word % 1024, value);
    Residue(word % 1024 * 64 + value, 64, word % 1024, value);
  }

  /** After another character there is another byte if and only if eight bits are pending. */
  lemma Progress(n: nat, length: nat)
    ensures Pending(n + 1) == if Pending(n) + 6 >= 8 then Pending(n) - 2 else Pending(n) + 6
    ensures 6 * (n + 1) / 8 == 6 * n / 8 + if Pending(n) + 6 >= 8 then 1 else 0
    ensures 6 * n / 8 < length ==> n + 1 <= Needed(length)
  {
    var q, r := 6 * n / 8, 6 * n % 8;
    assert 6 * n == 8 * q + r && 6 * (n + 1) == 8 * q + (r + 6);
    if q < length {
      assert 3 * (n + 1) <= 4 * length + 2;
    }
  }

  lemma CompletedByte(values: seq<Symbol>, n: nat, last: nat, word: nat)
    requires 1 < n <= |values| && Pending(n - 1) >= 2
    requires Remembers(values, n - 1, last) && values[n - 2] < 64 && values[n - 1] < 64
    requires word == last % 1024 * 64 + values[n - 1]
    ensures var i := 6 * (n - 1) / 8;
      && i + i / 3 + 1 < |values|
      && Upper(word, Pending(n - 1) - 2) % 256 == ByteAt(values, i)
  {
    var q, r := (n - 1) / 4, (n - 1) % 4;
    assert n - 1 == 4 * q + r;
    NothingPending(q);
    CompletedByteOf(values, q, r, last, word);
  }

  lemma NothingPending(q: nat)
    ensures Pending(4 * q) == 0
  {
    assert 6 * (4 * q) == 8 * (3 * q);
    Residue(6 * (4 * q), 8, 3 * q, 0);
  }

  lemma CompletedByteOf(values: seq<Symbol>, q: nat, r: nat, last: nat, word: nat)
    requires 1 <= r <= 3 && 4 * q + r < |values|
    requires values[4 * q + r - 1] < 64 && values[4 * q + r] < 64 && last % 64 == values[4 * q + r - 1]
    requires word == last % 1024 * 64 + values[4 * q + r]
    ensures var i := 6 * (4 * q + r) / 8;
      && i + i / 3 + 1 < |values|
      && Pending(4 * q + r) >= 2
      && Upper(word, Pending(4 * q + r) - 2) % 256 == ByteAt(values, i)
  {
    BytePosition(q, r);
    SplicedFromWord(last, values[4 * q + r - 1], values[4 * q + r]);
    UpperBits4(word);
    UpperBits2(word);
  }

  lemma SplicedFromWord(last: nat, s: Symbol, t: Symbol)
    requires s < 64 && t < 64 && last % 64 == s
    ensures var word := last % 1024 * 64 + t;
      && word / 16 % 256 == Spliced(s, t, 0)
      && word / 4 % 256 == Spliced(s, t, 1)
      && word % 256 == Spliced(s, t, 2)
  {
    var r := last % 1024 / 64;
    assert last % 1024 == 64 * r + s;
    SplicedApart(r, s, t);
  }

  lemma SplicedApart(r: nat, s: Symbol, t: Symbol)
    requires s < 64 && t < 64
    ensures ((64 * r + s) * 64 + t) / 16 % 256 == Spliced(s, t, 0)
    ensures ((64 * r + s) * 64 + t) / 4 % 256 == Spliced(s, t, 1)
    ensures ((64 * r + s) * 64 + t) % 256 == Spliced(s, t, 2)
  {
    SplicedHigh(r, s, t);
    SplicedMiddle(r, s, t);
    SplicedLow(r, s, t);
  }

  lemma SplicedHigh(r: nat, s: Symbol, t: Symbol)
    requires s < 64 && t < 64
    ensures ((64 * r + s) * 64 + t) / 16 % 256 == s * 4 + t / 16
  {
    assert ((64 * r + s) * 64 + t) / 16 == 256 * r + (s * 4 + t / 16);
    Residue(256 * r + (s * 4 + t / 16), 256, r, s * 4 + t / 16);
  }

  lemma SplicedMiddle(r: nat, s: Symbol, t: Symbol)
    requires s < 64 && t < 64
    ensures ((64 * r + s) * 64 + t) / 4 % 256 == s % 16 * 16 + t / 4
  {
    var q := s / 16;
    assert s == 16 * q + s % 16;
    assert ((64 * r + s) * 64 + t) / 4 == 256 * (4 * r + q) + (s % 16 * 16 + t / 4);
    Residue(256 * (4 * r + q) + (s % 16 * 16 + t / 4), 256, 4 * r + q, s % 16 * 16 + t / 4);
  }

  lemma SplicedLow(r: nat, s: Symbol, t: Symbol)
    requires s < 64 && t < 64
    ensures ((64 * r + s) * 64 + t) % 256 == s % 4 * 64 + t
  {
    var q := s / 4;
    assert s == 4 * q + s % 4;
    Residue((64 * r + s) * 64 + t, 256, 16 * r + q, s % 4 * 64 + t);
  }

  lemma BytePosition(q: nat, r: nat)
    requires 1 <= r <= 3
    ensures var i := 6 * (4 * q + r) / 8; i == 3 * q + (r - 1) && i % 3 == r - 1 && i / 3 == q
    ensures 6 * (4 * q + r) % 8 == if r == 1 then 6 else if r == 2 then 4 else 2
  {
  }

  // ------------------------------------------------------------------------------------------------------ round trip

  /** The values carry the bytes, and padding follows them. */
  ghost predicate Carries(values: seq<Symbol>, data: seq<Byte>) {
    && |values| == Needed(|data|) + Padding(|data|)
    && AllSextets(values, Needed(|data|))
    && (forall k | Needed(|data|) <= k < |values| :: values[k] == PAD)
    && forall i | 0 <= i < |data| :: i + i / 3 + 1 < |values| && ByteAt(values, i) == data[i]
  }

  lemma {:induction false} EncodedCarries(data: seq<Byte>)
    ensures Carries(Encoded(data), data)
    decreases |data|
  {
    if |data| == 1 {
      OneCarried(data[0]);
      assert data == [data[0]];
    } else if |data| == 2 {
      TwoCarried(data[0], data[1]);
      assert data == [data[0], data[1]];
    } else if |data| >= 3 {
      EncodedCarries(data[3..]);
      GroupFirst(data);
      CarriesGroup(data[0], data[1], data[2], Encoded(data[3..]), data[3..]);
      assert data == [data[0], data[1], data[2]] + data[3..];
    }
  }

  lemma CarriesGroup(a: Byte, b: Byte, c: Byte, next: seq<Symbol>, rest: seq<Byte>)
    requires Carries(next, rest)
    ensures Carries(Group(a, b, c) + next, [a, b, c] + rest)
  {
    var values, data := Group(a, b, c) + next, [a, b, c] + rest;
    NeededOnwards(|data|);
    GroupBytes(a, b, c, next);
    forall k | 4 <= k < |values|
      ensures values[k] == next[k - 4]
    {
    }
    forall i | 3 <= i < |data|
      ensures i + i / 3 + 1 < |values| && ByteAt(values, i) == data[i]
    {
      ByteFurther(Group(a, b, c), next, i - 3);
      assert data[i] == rest[i - 3];
    }
  }

  lemma OneCarried(a: Byte)
    ensures var values := Encoded([a]);
      |values| == 4 && AllSextets(values, 2) && values[2] == values[3] == PAD && ByteAt(values, 0) == a
  {
    GroupCarries(a, 0, 0);
  }

  lemma TwoCarried(a: Byte, b: Byte)
    ensures var values := Encoded([a, b]);
      |values| == 4 && AllSextets(values, 3) && values[3] == PAD && ByteAt(values, 0) == a && ByteAt(values, 1) == b
  {
    GroupCarries(a, b, 0);
  }

  lemma GroupBytes(a: Byte, b: Byte, c: Byte, next: seq<Symbol>)
    ensures var values := Group(a, b, c) + next;
      AllSextets(values, 4) && ByteAt(values, 0) == a && ByteAt(values, 1) == b && ByteAt(values, 2) == c
  {
    GroupCarries(a, b, c);
  }

  lemma ByteFurther(group: seq<Symbol>, next: seq<Symbol>, i: nat)
    requires |group| == 4 && i + i / 3 + 1 < |next|
    ensures (i + 3) + (i + 3) / 3 + 1 < |group + next| && ByteAt(group + next, i + 3) == ByteAt(next, i)
  {
    assert (i + 3) / 3 == i / 3 + 1 && (i + 3) % 3 == i % 3;
  }

  lemma EncodedHolds(data: seq<Byte>)
    ensures Holds(Text(Encoded(data)), |data|)
    ensures forall i | 0 <= i < |data| ::
      i + i / 3 + 1 < |Encoded(data)| && ByteAt(Values(Text(Encoded(data))), i) == data[i]
  {
    var values := Encoded(data);
    EncodedCarries(data);
    ValuesOfText(values);
    forall k | Needed(|data|) <= k < |values|
      ensures Text(values)[k] == '='
    {
      TextAt(values, k);
    }
  }

  /** Every encoding is accepted without its padding as well. */
  lemma UnpaddedHolds(data: seq<Byte>)
    ensures var text := Text(Encoded(data));
      |text| == Needed(|data|) + Padding(|data|) && Holds(text[..Needed(|data|)], |data|)
  {
    EncodedHolds(data);
    EncodedLength(data);
  }

  /** One byte is accepted from two characters, where its encoding has four. */
  method UnpaddedIsAccepted() returns (data: seq<Byte>, ok: bool)
    ensures ok && data == [0x41]
  {
    var buffer := new Byte[1];
    var consumed;
    assert Values("QQ") == [16, 16];
    ok, consumed := FromBase64(buffer, "QQ");
    data := buffer[..];
  }

  /** Decoding what was encoded into a buffer of its length succeeds, takes all of the text and gives it back. */
  method EncodeAndDecode(ranges: seq<seq<Byte>>, data: array<Byte>) returns (text: string, ok: bool, consumed: nat)
    requires data.Length == |Flattened(ranges)|
    modifies data
    ensures text == Text(Encoded(Flattened(ranges)))
    ensures ok && consumed == |text| && data[..] == Flattened(ranges)
  {
    text := EncodeAll(ranges);
    ok, consumed := DecodeEncoded(data, text, Flattened(ranges));
  }

  method EncodeAll(ranges: seq<seq<Byte>>) returns (text: string)
    ensures text == Text(Encoded(Flattened(ranges)))
  {
    var encoder := new Base64Encoder();
    var i := 0;
    while i < |ranges|
      invariant 0 <= i <= |ranges|
      invariant encoder.Valid() && encoder.whole + encoder.rest == Flattened(ranges[..i])
      modifies encoder
    {
      encoder.Encode(ranges[i]);
      RangesOnwards(ranges, i);
      i := i + 1;
    }
    assert ranges[..i] == ranges;
    encoder.Finish();
    text := encoder.stream;
  }

  lemma RangesOnwards(ranges: seq<seq<Byte>>, i: nat)
    requires i < |ranges|
    ensures Flattened(ranges[..i + 1]) == Flattened(ranges[..i]) + ranges[i]
  {
    assert ranges[..i + 1][..i] == ranges[..i];
  }

  method DecodeEncoded(data: array<Byte>, text: string, ghost bytes: seq<Byte>) returns (ok: bool, consumed: nat)
    requires data.Length == |bytes| && text == Text(Encoded(bytes))
    modifies data
    ensures ok && consumed == |text| && data[..] == bytes
  {
    EncodedHolds(bytes);
    EncodedLength(bytes);
    ok, consumed := FromBase64(data, text);
    assert forall i | 0 <= i < |bytes| :: data[..][i] == bytes[i];
  }

  // ---------------------------------------------------------------------------------------------- the decoded size

  function TrailingPadding(text: string): (n: nat)
    ensures n <= |text|
  {
    if text == "" || text[|text| - 1] != '=' then 0 else 1 + TrailingPadding(text[..|text| - 1])
  }

  /** Three quarters of the length without the padding; nothing if the program reads before the text. */
  function DecodedSize(text: string): Option<nat> {
    if |text| < 4 then Some(0)
    else if TrailingPadding(text) == |text| then None
    else Some((|text| / 4 * 3 - TrailingPadding(text)) % SIZE_RANGE)
  }

  /** The loop looks at a character before it compares with the end of the text. */
  method Base64DecodedSize(text: string) returns (size: Option<nat>)
    ensures size == DecodedSize(text)
  {
    if |text| < 4 {
      return Some(0);
    }
    var counted := |text| / 4 * 3 % SIZE_RANGE;
    var i := |text|;
    ghost var padding := TrailingPadding(text);
    assert text[..i] == text;
    while i > 0 && text[i - 1] == '='
      invariant 0 <= i <= |text| && padding == |text| - i + TrailingPadding(text[..i])
      invariant counted == (|text| / 4 * 3 - (|text| - i)) % SIZE_RANGE
    {
      assert text[..i][..i - 1] == text[..i - 1];
      WrapsBelow(|text| / 4 * 3 - (|text| - i));
      counted := (counted - 1) % SIZE_RANGE;
      i := i - 1;
    }
    size := if i == 0 then None else Some(counted);
  }

  lemma {:induction false} AllTrailing(text: string)
    ensures TrailingPadding(text) == |text| <==> forall k | 0 <= k < |text| :: text[k] == '='
    decreases |text|
  {
    if text != "" {
      AllTrailing(text[..|text| - 1]);
    }
  }

  /** The program reads before the text exactly if it has four or more characters and all of them are padding. */
  lemma DecodedSizeFails(text: string)
    ensures DecodedSize(text).None? <==> |text| >= 4 && forall k | 0 <= k < |text| :: text[k] == '='
    ensures DecodedSize("====").None?
  {
    AllTrailing(text);
    AllTrailing("====");
  }

  lemma WrapsBelow(x: int)
    ensures (x % SIZE_RANGE - 1) % SIZE_RANGE == (x - 1) % SIZE_RANGE
  {
    var q, r := x / SIZE_RANGE, x % SIZE_RANGE;
    if r == 0 {
      Residue(x - 1, SIZE_RANGE, q - 1, SIZE_RANGE - 1);
      Residue(-1, SIZE_RANGE, -1, SIZE_RANGE - 1);
    } else {
      Residue(x - 1, SIZE_RANGE, q, r - 1);
    }
  }

  lemma PaddingOfEncoding(data: seq<Byte>)
    requires data != []
    ensures var text := Text(Encoded(data));
      |text| >= 4 && TrailingPadding(text) < |text| && |text| / 4 * 3 - TrailingPadding(text) == |data|
  {
    var values, text, n := Encoded(data), Text(Encoded(data)), Needed(|data|);
    EncodedCarries(data);
    SizeOfEncoding(|data|);
    CharIsPadding(values[n - 1]);
    forall k | n - 1 <= k < |text|
      ensures text[k] == Char(values[k])
    {
      TextAt(values, k);
    }
    TrailingPaddingIs(text, n);
  }

  /** The decoded size of an encoding is the number of bytes that were encoded. */
  lemma EncodedSize(data: seq<Byte>)
    ensures DecodedSize(Text(Encoded(data))) == Some(|data| % SIZE_RANGE)
  {
    if data == [] {
      EncodedNothing();
    } else {
      PaddingOfEncoding(data);
    }
  }

  lemma SizeOfEncoding(length: nat)
    requires length > 0
    ensures var n, p := Needed(length), Padding(length);
      n > 0 && n + p >= 4 && (n + p) / 4 * 3 - p == length
  {
    var q := length / 3;
    if length % 3 == 0 {
      assert Needed(length) == 4 * q;
    } else if length % 3 == 1 {
      assert Needed(length) == 4 * q + 2;
    } else {
      assert Needed(length) == 4 * q + 3;
    }
  }

  lemma CharIsPadding(symbol: Symbol)
    ensures Char(symbol) == '=' <==> symbol >= PAD
  {
    if symbol < 64 {
      SextetOfTableChar(symbol);
    }
  }

  lemma {:induction false} TrailingPaddingIs(text: string, n: nat)
    requires 0 < n <= |text| && text[n - 1] != '='
    requires forall k | n <= k < |text| :: text[k] == '='
    ensures TrailingPadding(text) == |text| - n
    decreases |text|
  {
    if n < |text| {
      TrailingPaddingIs(text[..|text| - 1], n);
    }
  }
}
