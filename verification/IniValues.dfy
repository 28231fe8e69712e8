/** The texts behind the typed accessors of source/base/ini_file.cc: numbers, booleans, binary data. */
module IniValues {
  import opened Common
  import opened Bytes
  import opened Numerals
  import opened IniFormat

  predicate ReadsBackUnchanged(t: Text) {
    NEW_LINE !in t && CARRIAGE_RETURN !in t && Trimmed(t) == t
  }

  /** A text of printable characters goes through the file as it is. */
  lemma {:induction false} PrintableReadsBack(t: Text)
    requires forall i :: 0 <= i < |t| ==> 0x20 < t[i]
    ensures ReadsBackUnchanged(t)
  {
    TrimmedFixpoint(t);
  }

  // ---------------------------------------------------------------------------------------------
  // Numbers
  // ---------------------------------------------------------------------------------------------

  datatype NumberType = Int16 | UInt16 | Int32 | UInt32 | Int64 | UInt64

  function MinOf(t: NumberType): int {
    match t
    case Int16 => -0x8000
    case Int32 => -0x8000_0000
    case Int64 => -0x8000_0000_0000_0000
    case _ => 0
  }

  function MaxOf(t: NumberType): int {
    match t
    case Int16 => 0x7FFF
    case UInt16 => 0xFFFF
    case Int32 => 0x7FFF_FFFF
    case UInt32 => 0xFFFF_FFFF
    case Int64 => 0x7FFF_FFFF_FFFF_FFFF
    case UInt64 => 0xFFFF_FFFF_FFFF_FFFF
  }

  const MINUS: Byte := 0x2D
  const PLUS: Byte := 0x2B

  /** QByteArray::number. */
  function NumberText(n: int): Text {
    if n < 0 then [MINUS] + Numeral(-n, 10, true) else Numeral(n, 10, true)
  }

  function InRange(n: int, t: NumberType): Option<int> {
    if MinOf(t) <= n <= MaxOf(t) then Some(n) else None
  }

  /** QByteArray::toLongLong of a text without surrounding whitespace. */
  function ToLongLong(text: Text): Option<int> {
    var signed := text != [] && (text[0] == MINUS || text[0] == PLUS);
    var digits := if signed then text[1..] else text;
    if digits == [] || !AllDigits(digits, 10) then None
    else if text[0] == MINUS then InRange(-(NumeralValue(digits, 10) as int), Int64)
    else InRange(NumeralValue(digits, 10), Int64)
  }

  /** QByteArray::toULongLong of a text without surrounding whitespace: it takes no minus. */
  function ToULongLong(text: Text): Option<int> {
    var digits := if text != [] && text[0] == PLUS then text[1..] else text;
    if digits == [] || !AllDigits(digits, 10) then None else InRange(NumeralValue(digits, 10), UInt64)
  }

  function Narrowed(t: NumberType, wide: Option<int>): Option<int> {
    if wide.Some? then InRange(wide.value, t) else None
  }

  /** int64Value to uint16Value: the wide conversion, then the range of the type asked for. */
  function ReadNumber(t: NumberType, text: Text): Option<int> {
    Narrowed(t, if t.Int16? || t.Int32? || t.Int64? then ToLongLong(text) else ToULongLong(text))
  }

  lemma {:induction false} DigitsRead(digits: Text, negative: bool)
    requires digits != [] && AllDigits(digits, 10)
    ensures var text := if negative then [MINUS] + digits else digits;
      var n: int := if negative then -(NumeralValue(digits, 10) as int) else NumeralValue(digits, 10);
      && ToLongLong(text) == InRange(n, Int64)
      && ToULongLong(text) == if negative then None else InRange(n, UInt64)
  {
    assert 0 <= DigitValue(digits[0]);
    if negative {
      var text := [MINUS] + digits;
      assert text[1..] == digits;
      assert DigitValue(text[0]) == -1;
    }
  }

  lemma {:induction false} NumberTextReads(n: int)
    ensures ToLongLong(NumberText(n)) == InRange(n, Int64)
    ensures ToULongLong(NumberText(n)) == InRange(n, UInt64)
  {
    var size: nat := if n < 0 then -n else n;
    NumeralRoundTrip(size, 10, true);
    DigitsRead(Numeral(size, 10, true), n < 0);
  }

  lemma {:induction false} NumberIsPrintable(n: int)
    ensures ReadsBackUnchanged(NumberText(n))
  {
    var size := if n < 0 then -n else n;
    NumeralRoundTrip(size, 10, true);
    assert forall b: Byte :: 0 <= DigitValue(b) ==> 0x20 < b;
    PrintableReadsBack(NumberText(n));
  }

  /** A written number reads back through every type it fits, and through no other. */
  lemma {:induction false} NumberReadsBack(t: NumberType, n: int)
    ensures ReadNumber(t, NumberText(n)) == InRange(n, t)
    ensures ReadsBackUnchanged(NumberText(n))
  {
    NumberTextReads(n);
    NarrowedTwice(t, n);
    NumberIsPrintable(n);
  }

  lemma {:induction false} NarrowedTwice(t: NumberType, n: int)
    ensures Narrowed(t, InRange(n, if t.Int16? || t.Int32? || t.Int64? then Int64 else UInt64)) == InRange(n, t)
  {
  }

  /** A sign if it is allowed, and the number with any zeros in front. */
  ghost predicate Denotes(text: Text, n: int, signed: bool) {
    || (n >= 0 && (Spells(text, n) || (text != [] && text[0] == 0x2B && Spells(text[1..], n))))
    || (signed && n <= 0 && text != [] && text[0] == 0x2D && Spells(text[1..], -n))
  }

  lemma {:induction false} WideMeans(text: Text, n: int)
    ensures ToLongLong(text) == Some(n) <==> Denotes(text, n, true) && InRange(n, Int64).Some?
    ensures ToULongLong(text) == Some(n) <==> Denotes(text, n, false) && InRange(n, UInt64).Some?
  {
    if text == [] {
      SpellsMeans(text, if n < 0 then -n else n);
    } else if text[0] == MINUS {
      SignedMeans(text, n);
      SpellsMeans(text[1..], if n < 0 then -n else n);
    } else if text[0] == PLUS {
      SignedMeans(text, n);
      SpellsMeans(text[1..], if n < 0 then -n else n);
    } else {
      SpellsMeans(text, if n < 0 then -n else n);
    }
  }

  /** A sign is no digit. */
  lemma {:induction false} SignedMeans(text: Text, n: int)
    requires text != [] && (text[0] == MINUS || text[0] == PLUS)
    ensures !AllDigits(text, 10) && (n >= 0 ==> !Spells(text, n))
  {
    assert DigitValue(text[0]) == -1;
    if n >= 0 {
      SpellsMeans(text, n);
    }
  }

  /** Whatever is in the file: a getter finds n exactly when the text denotes it and its type can hold it. */
  lemma {:induction false} NumberMeans(t: NumberType, text: Text, n: int)
    ensures ReadNumber(t, text) == Some(n) <==>
      Denotes(text, n, t.Int16? || t.Int32? || t.Int64?) && MinOf(t) <= n <= MaxOf(t)
  {
    WideMeans(text, n);
  }

  // ---------------------------------------------------------------------------------------------
  // Booleans
  // ---------------------------------------------------------------------------------------------

  const TRUE_TEXT: Text := [0x74, 0x72, 0x75, 0x65]
  const FALSE_TEXT: Text := [0x66, 0x61, 0x6C, 0x73, 0x65]

  function BooleanText(b: bool): Text {
    if b then [0x31] else [0x30]
  }

  function ReadBoolean(text: Text): Option<bool> {
    if text == TRUE_TEXT || text == [0x31] then Some(true)
    else if text == FALSE_TEXT || text == [0x30] then Some(false)
    else None
  }

  lemma {:induction false} BooleanReadsBack(b: bool)
    ensures ReadBoolean(BooleanText(b)) == Some(b) && ReadsBackUnchanged(BooleanText(b))
  {
    PrintableReadsBack(BooleanText(b));
  }

  /** Two texts for each boolean, and no others. */
  lemma {:induction false} BooleanMeans(text: Text, b: bool)
    ensures ReadBoolean(text) == Some(b) <==>
      text == (if b then Ascii("true") else Ascii("false")) || text == (if b then Ascii("1") else Ascii("0"))
  {
  }

  // ---------------------------------------------------------------------------------------------
  // Binary data
  // ---------------------------------------------------------------------------------------------

  predicate IsHexText(t: Text) {
    |t| % 2 == 0 && AllDigits(t, 16)
  }

  method IsHex(value: Text) returns (ok: bool)
    ensures ok <==> IsHexText(value)
  {
    if |value| % 2 != 0 {
      return false;
    }
    for i := 0 to |value|
      invariant AllDigits(value[..i], 16)
    {
      var c := value[i];
      if (c < 48 || c > 57) && (c < 97 || c > 102) && (c < 65 || c > 70) {
        assert DigitValue(value[i]) == -1;
        return false;
      }
      assert value[..i + 1] == value[..i] + [value[i]];
    }
    assert value[..|value|] == value;
    return true;
  }

  /** QByteArray::toHex. */
  function ToHex(data: Text): Text {
    if data == [] then []
    else [DigitChar(data[0] / 16, false), DigitChar(data[0] % 16, false)] + ToHex(data[1..])
  }

  /** QByteArray::fromHex of a text that passed `isHex`. */
  function FromHex(t: Text): Text
    requires IsHexText(t)
  {
    if t == [] then []
    else [DigitValue(t[0]) * 16 + DigitValue(t[1])] + FromHex(t[2..])
  }

  function ReadBinary(text: Text): Option<Text> {
    if IsHexText(text) then Some(FromHex(text)) else None
  }

  lemma {:induction false} ToHexIsHex(data: Text)
    ensures IsHexText(ToHex(data)) && |ToHex(data)| == 2 * |data|
    ensures forall i :: 0 <= i < |ToHex(data)| ==> 0x20 < ToHex(data)[i]
  {
    if data == [] {
    } else {
      ToHexIsHex(data[1..]);
    }
  }

  lemma {:induction false} BinaryReadsBack(data: Text)
    ensures ReadBinary(ToHex(data)) == Some(data) && ReadsBackUnchanged(ToHex(data))
  {
    ToHexIsHex(data);
    PrintableReadsBack(ToHex(data));
    if data == [] {
    } else {
      BinaryReadsBack(data[1..]);
      assert ToHex(data)[2..] == ToHex(data[1..]);
      assert [data[0]] + data[1..] == data;
    }
  }

  function Lower(b: Byte): Byte {
    if 0x41 <= b <= 0x5A then b + 0x20 else b
  }

  function Lowered(t: Text): (r: Text)
    ensures |r| == |t|
  {
    seq(|t|, i requires 0 <= i < |t| => Lower(t[i]))
  }

  lemma {:induction false} LowerDigit(b: Byte, d: nat)
    requires d < 16
    ensures Lower(b) == DigitChar(d, false) <==> DigitValue(b) == d
  {
  }

  /** Whatever is in the file: it is read as the data exactly when it is its hexadecimal text, in either case. */
  lemma {:induction false} BinaryMeans(text: Text, data: Text)
    ensures ReadBinary(text) == Some(data) <==> Lowered(text) == ToHex(data)
    decreases |text|
  {
    ToHexIsHex(data);
    if |text| != 2 * |data| {
      if IsHexText(text) { FromHexLength(text); }
    } else if text == [] {
    } else {
      BinaryMeans(text[2..], data[1..]);
      FirstByteMeans(text, data);
    }
  }

  lemma {:induction false} FromHexLength(text: Text)
    requires IsHexText(text)
    ensures |text| == 2 * |FromHex(text)|
  {
    if text == [] {
    } else {
      FromHexLength(text[2..]);
    }
  }

  lemma {:induction false} FirstByteMeans(text: Text, data: Text)
    requires |text| >= 2 && data != []
    requires ReadBinary(text[2..]) == Some(data[1..]) <==> Lowered(text[2..]) == ToHex(data[1..])
    ensures ReadBinary(text) == Some(data) <==> Lowered(text) == ToHex(data)
  {
    var high, low := data[0] / 16, data[0] % 16;
    LowerDigit(text[0], high);
    LowerDigit(text[1], low);
    SplitHex(text);
    assert Lowered(text) == [Lower(text[0]), Lower(text[1])] + Lowered(text[2..]);
    TwoInFront(Lower(text[0]), Lower(text[1]), Lowered(text[2..]),
               DigitChar(high, false), DigitChar(low, false), ToHex(data[1..]));
    if IsHexText(text) {
      TwoDigits(DigitValue(text[0]), DigitValue(text[1]), data[0]);
      assert FromHex(text) == data <==> FromHex(text)[0] == data[0] && FromHex(text[2..]) == data[1..] by {
        assert data == [data[0]] + data[1..];
        assert FromHex(text)[1..] == FromHex(text[2..]);
      }
    }
  }

  lemma {:induction false} TwoDigits(high: int, low: int, b: Byte)
    requires 0 <= high < 16 && 0 <= low < 16
    ensures high * 16 + low == b <==> high == b / 16 && low == b % 16
  {
  }

  lemma {:induction false} TwoInFront(a: Byte, b: Byte, s: Text, c: Byte, d: Byte, t: Text)
    ensures [a, b] + s == [c, d] + t <==> a == c && b == d && s == t
  {
    if [a, b] + s == [c, d] + t {
      assert ([a, b] + s)[0] == ([c, d] + t)[0] && ([a, b] + s)[1] == ([c, d] + t)[1];
      assert ([a, b] + s)[2..] == s && ([c, d] + t)[2..] == t;
    }
  }

  lemma {:induction false} SplitHex(text: Text)
    requires |text| >= 2
    ensures IsHexText(text) <==> 0 <= DigitValue(text[0]) && 0 <= DigitValue(text[1]) && IsHexText(text[2..])
  {
    assert text == [text[0], text[1]] + text[2..];
    assert IsHexText(text[2..]) ==> forall i :: 2 <= i < |text| ==> text[i] == text[2..][i - 2];
  }
}
