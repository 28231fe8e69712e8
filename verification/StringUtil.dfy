/** source/base/string_util.cc: trimming, Latin-1 to UTF-8, hexadecimal text. */
module StringUtil {
  import opened Common
  import opened Bytes
  import opened Numerals

  method StrTrimmed(str: Text) returns (r: Text)
    ensures r == Trimmed(str)
  {
    var begin, end := 0, |str|;
    while begin < end && IsSpace(str[begin])
      invariant begin <= end && AllSpace(str[..begin])
    {
      begin := begin + 1;
    }
    while end > begin && IsSpace(str[end - 1])
      invariant begin <= end <= |str| && AllSpace(str[end..])
    {
      end := end - 1;
    }
    r := str[begin..end];
    TrimmedIs(str[..begin], r, str[end..]);
    assert str == str[..begin] + r + str[end..];
  }

  // ---------------------------------------------------------------------------------------------
  // Latin-1 to UTF-8
  // ---------------------------------------------------------------------------------------------

  /** One Latin-1 byte: the bits of 0xC0 | b >> 6 and of 0x80 | b & 0x3F do not overlap. */
  function Utf8OfLatin1(b: Byte): Text {
    if b < 0x80 then [b] else [0xC0 + b / 64, 0x80 + b % 64]
  }

  function FromLatin1(t: Text): Text {
    if t == [] then [] else Utf8OfLatin1(t[0]) + FromLatin1(t[1..])
  }

  lemma {:induction false} FromLatin1Concat(a: Text, b: Text)
    ensures FromLatin1(a + b) == FromLatin1(a) + FromLatin1(b)
  {
    if a == [] {
      assert a + b == b;
    } else {
      assert (a + b)[1..] == a[1..] + b;
      FromLatin1Concat(a[1..], b);
    }
  }

  lemma {:induction false} FromLatin1Snoc(t: Text, i: nat)
    requires i < |t|
    ensures FromLatin1(t[..i + 1]) == FromLatin1(t[..i]) + Utf8OfLatin1(t[i])
  {
    FromLatin1Concat(t[..i], [t[i]]);
    assert t[..i + 1] == t[..i] + [t[i]];
    assert [t[i]][1..] == [];
  }

  method StrFromLatin1(str: Text) returns (r: Text)
    ensures r == FromLatin1(str)
  {
    r := [];
    for i := 0 to |str|
      invariant r == FromLatin1(str[..i])
    {
      var b := str[i];
      FromLatin1Snoc(str, i);
      if b < 0x80 {
        r := r + [b];
      } else {
        r := r + [0xC0 + b / 64];
        r := r + [0x80 + b % 64];
      }
    }
    assert str[..|str|] == str;
  }

  predicate Tail(b: Byte) {
    0x80 <= b <= 0xBF
  }

  predicate AllTails(t: Text) {
    forall i :: 0 <= i < |t| ==> Tail(t[i])
  }

  /** The length of the sequence a lead byte opens (section 4 of RFC 3629), 0 for no lead byte. */
  function SequenceLength(lead: Byte): nat {
    if lead <= 0x7F then 1
    else if 0xC2 <= lead <= 0xDF then 2
    else if 0xE0 <= lead <= 0xEF then 3
    else if 0xF0 <= lead <= 0xF4 then 4
    else 0
  }

  /** The second byte is narrower after four of the lead bytes: no overlong form, no surrogate. */
  predicate SecondAllowed(lead: Byte, second: Byte) {
    && (lead == 0xE0 ==> 0xA0 <= second)
    && (lead == 0xED ==> second <= 0x9F)
    && (lead == 0xF0 ==> 0x90 <= second)
    && (lead == 0xF4 ==> second <= 0x8F)
  }

  /** Six more bits of a code point. */
  function Continued(bits: int, b: Byte): int {
    bits * 64 + (b as int - 0x80)
  }

  /** The code points of a text, or None when it is not well-formed UTF-8. */
  function Utf8Decode(t: Text): Option<seq<int>>
  {
    if t == [] then Some([])
    else
      var n := SequenceLength(t[0]);
      if n == 0 || n > |t| || !AllTails(t[1..n]) || (n > 1 && !SecondAllowed(t[0], t[1])) then None
      else
        var point: int :=
          if n == 1 then t[0]
          else if n == 2 then Continued(t[0] as int - 0xC0, t[1])
          else if n == 3 then Continued(Continued(t[0] as int - 0xE0, t[1]), t[2])
          else Continued(Continued(Continued(t[0] as int - 0xF0, t[1]), t[2]), t[3]);
        match Utf8Decode(t[n..])
        case None => None
        case Some(rest) => Some([point] + rest)
  }

  /** The code point of one Latin-1 byte, in front of well-formed text. */
  lemma {:induction false} DecodesOne(b: Byte, rest: Text)
    requires Utf8Decode(rest).Some?
    ensures Utf8Decode(Utf8OfLatin1(b) + rest) == Some([b] + Utf8Decode(rest).value)
  {
    var u := Utf8OfLatin1(b) + rest;
    var n := |Utf8OfLatin1(b)|;
    assert u[n..] == rest && n == SequenceLength(u[0]);
    assert b >= 0x80 ==> Tail(u[1]) && Continued(u[0] as int - 0xC0, u[1]) == b;
  }

  /** What comes out is well-formed UTF-8 for the same code points, one for each byte. */
  lemma {:induction false} Latin1DecodesBack(t: Text)
    ensures Utf8Decode(FromLatin1(t)) == Some(t)
  {
    if t == [] {
    } else {
      Latin1DecodesBack(t[1..]);
      DecodesOne(t[0], FromLatin1(t[1..]));
      assert [t[0]] + t[1..] == t;
    }
  }

  lemma {:induction false} Latin1IsInjective(a: Text, b: Text)
    requires FromLatin1(a) == FromLatin1(b)
    ensures a == b
  {
    Latin1DecodesBack(a);
    Latin1DecodesBack(b);
  }

  lemma {:induction false} Latin1KeepsSpace(t: Text)
    requires AllSpace(t)
    ensures FromLatin1(t) == t
  {
    if t == [] {
    } else {
      Latin1KeepsSpace(t[1..]);
      assert [t[0]] + t[1..] == t;
    }
  }

  lemma {:induction false} Latin1KeepsTrimmed(t: Text)
    requires IsTrimmed(t)
    ensures IsTrimmed(FromLatin1(t))
  {
    if t != [] {
      var last := t[|t| - 1];
      FromLatin1Concat(t[..|t| - 1], [last]);
      assert t == t[..|t| - 1] + [last];
      assert FromLatin1([last]) == Utf8OfLatin1(last);
    }
  }

  /** It does not matter whether a firmware string is trimmed before or after it is re-encoded. */
  lemma {:induction false} Latin1TrimCommute(t: Text)
    ensures FromLatin1(Trimmed(t)) == Trimmed(FromLatin1(t))
  {
    var pre, post := TrimmedSplit(t);
    var core := Trimmed(t);
    FromLatin1Concat(pre + core, post);
    FromLatin1Concat(pre, core);
    Latin1KeepsSpace(pre);
    Latin1KeepsSpace(post);
    Latin1KeepsTrimmed(core);
    TrimmedIs(pre, FromLatin1(core), post);
  }

  // ---------------------------------------------------------------------------------------------
  // Hexadecimal
  // ---------------------------------------------------------------------------------------------

  function HexText(value: nat, digits: int, upper: bool): Text {
    var t := Numeral(value, 16, upper);
    if digits > |t| then Zeros(digits - |t|) + t else t
  }

  /** The width is a minimum: the text reads back as the value and is never cut. */
  lemma {:induction false} HexTextReadsBack(value: nat, digits: int, upper: bool)
    ensures var t := HexText(value, digits, upper);
      AllDigits(t, 16) && NumeralValue(t, 16) == value && |t| >= 1 && |t| >= digits
    ensures digits >= 1 && value < Pow(16, digits) ==> |HexText(value, digits, upper)| == digits
  {
    var t := Numeral(value, 16, upper);
    NumeralRoundTrip(value, 16, upper);
    if digits > |t| {
      LeadingZeros(digits - |t|, t, 16);
    }
    if digits >= 1 && value < Pow(16, digits) {
      NumeralLength(value, 16, upper, digits);
    }
  }

  /** And it has digits of its case only. */
  lemma {:induction false} HexTextAlphabet(value: nat, digits: int, upper: bool, i: nat)
    requires i < |HexText(value, digits, upper)|
    ensures HexText(value, digits, upper)[i] in Alphabet(upper)
  {
    var t := Numeral(value, 16, upper);
    var zeros := if digits > |t| then digits - |t| else 0;
    if i < zeros {
      DigitsOfAlphabet(0, upper);
    } else {
      NumeralAlphabet(value, 16, upper, i - zeros);
    }
  }

  method StrHex(value: nat, digits: int, upper: bool) returns (r: Text)
    requires value < U64
    ensures r == HexText(value, digits, upper)
  {
    var buffer := new Byte[16];
    Pow64();
    var length := WriteDigits(value, 16, upper, buffer);
    r := if digits > length then Zeros(digits - length) else [];
    r := AppendReversed(r, buffer, length);
  }

  /** Appends the digits of the buffer to the result, the last one written first. */
  method AppendReversed(prefix: Text, buffer: array<Byte>, count: nat) returns (r: Text)
    requires count <= buffer.Length
    ensures r == prefix + Reversed(buffer[..count])
  {
    r := prefix;
    var length := count;
    ghost var t := Reversed(buffer[..count]);
    while length > 0
      invariant 0 <= length <= count && r == prefix + t[..count - length]
    {
      length := length - 1;
      assert t[..count - length] == t[..count - length - 1] + [buffer[length]];
      r := r + [buffer[length]];
    }
    assert t[..count] == t;
  }
}
