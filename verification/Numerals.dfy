/** Positional numerals in the bases the program prints: decimal and hexadecimal. */
module Numerals {
  import opened Common
  import opened Bytes

  const U64 := 0x1_0000_0000_0000_0000

  predicate IsBase(base: nat) {
    base == 10 || base == 16
  }

  function DigitChar(d: nat, upper: bool): Byte
    requires d < 16
  {
    if d < 10 then 48 + d else if upper then 55 + d else 87 + d
  }

  function DigitValue(b: Byte): int {
    if 48 <= b <= 57 then b - 48
    else if 65 <= b <= 70 then b - 55
    else if 97 <= b <= 102 then b - 87
    else -1
  }

  predicate AllDigits(t: Text, base: nat) {
    forall i :: 0 <= i < |t| ==> 0 <= DigitValue(t[i]) < base
  }

  lemma {:induction false} Below(n: nat, base: nat, p: nat)
    requires IsBase(base) && n < base * p
    ensures n / base < p && (n < base <==> n / base == 0) && (n > 0 ==> n / base < n)
    ensures n == n / base * base + n % base
  {
    if base == 10 {
    } else {
    }
  }

  function Numeral(n: nat, base: nat, upper: bool): Text
    requires IsBase(base)
  {
    if n < base then [DigitChar(n, upper)]
    else Numeral(n / base, base, upper) + [DigitChar(n % base, upper)]
  }

  function NumeralValue(t: Text, base: nat): nat
    requires AllDigits(t, base)
  {
    if t == [] then 0 else NumeralValue(t[..|t| - 1], base) * base + DigitValue(t[|t| - 1])
  }

  lemma {:induction false} NumeralValueSnoc(head: Text, last: Byte, base: nat)
    requires AllDigits(head, base) && 0 <= DigitValue(last) < base
    ensures AllDigits(head + [last], base)
    ensures NumeralValue(head + [last], base) == NumeralValue(head, base) * base + DigitValue(last)
  {
    assert (head + [last])[..|head|] == head;
  }

  /** Printing and reading back a number is the identity. */
  lemma {:induction false} NumeralRoundTrip(n: nat, base: nat, upper: bool)
    requires IsBase(base)
    ensures Numeral(n, base, upper) != [] && AllDigits(Numeral(n, base, upper), base)
    ensures NumeralValue(Numeral(n, base, upper), base) == n
    decreases n
  {
    if n < base {
      OneDigit(n, base, upper);
    } else {
      Below(n, base, n);
      NumeralRoundTrip(n / base, base, upper);
      NumeralValueSnoc(Numeral(n / base, base, upper), DigitChar(n % base, upper), base);
    }
  }

  lemma {:induction false} OneDigit(d: nat, base: nat, upper: bool)
    requires IsBase(base) && d < base
    ensures AllDigits([DigitChar(d, upper)], base) && NumeralValue([DigitChar(d, upper)], base) == d
  {
    NumeralValueSnoc([], DigitChar(d, upper), base);
    assert [] + [DigitChar(d, upper)] == [DigitChar(d, upper)];
  }

  /** The digits the program prints. */
  function Alphabet(upper: bool): (t: Text)
    ensures |t| == 16
  {
    if upper then Ascii("0123456789ABCDEF") else Ascii("0123456789abcdef")
  }

  lemma {:induction false} DigitsOfAlphabet(d: nat, upper: bool)
    requires d < 16
    ensures DigitChar(d, upper) == Alphabet(upper)[d]
  {
    var upperCase, lowerCase := "0123456789ABCDEF", "0123456789abcdef";
    assert Alphabet(upper)[d] == (if upper then upperCase[d] else lowerCase[d]) as int;
  }

  /** A numeral has digits of its case only. */
  lemma {:induction false} NumeralAlphabet(n: nat, base: nat, upper: bool, i: nat)
    requires IsBase(base) && i < |Numeral(n, base, upper)|
    ensures Numeral(n, base, upper)[i] in Alphabet(upper)[..base]
    decreases n
  {
    if n < base {
      InAlphabet(n, base, upper);
    } else {
      Below(n, base, n);
      InAlphabet(n % base, base, upper);
      if i < |Numeral(n / base, base, upper)| {
        NumeralAlphabet(n / base, base, upper, i);
      }
    }
  }

  lemma {:induction false} InAlphabet(d: nat, base: nat, upper: bool)
    requires IsBase(base) && d < base
    ensures DigitChar(d, upper) in Alphabet(upper)[..base]
  {
    DigitsOfAlphabet(d, upper);
    assert Alphabet(upper)[..base][d] == Alphabet(upper)[d];
  }

  /** A text of decimal digits is the numeral of its value with zeros in front. */
  lemma {:induction false} DigitsAreNumeral(t: Text) returns (k: nat)
    requires t != [] && AllDigits(t, 10)
    ensures t == Zeros(k) + Numeral(NumeralValue(t, 10), 10, true)
  {
    if |t| == 1 {
      k := 0;
      assert t[..0] == [] && NumeralValue([], 10) == 0;
      OneMoreDigit(0, t[0]);
    } else {
      k := DigitsAreNumeral(t[..|t| - 1]);
      k := OneDigitLonger(t, k, NumeralValue(t[..|t| - 1], 10));
    }
  }

  lemma {:induction false} OneDigitLonger(t: Text, k: nat, v: nat) returns (zeros: nat)
    requires t != [] && 0 <= DigitValue(t[|t| - 1]) < 10 && t[..|t| - 1] == Zeros(k) + Numeral(v, 10, true)
    ensures t == Zeros(zeros) + Numeral(v * 10 + DigitValue(t[|t| - 1]), 10, true)
  {
    OneMoreDigit(v, t[|t| - 1]);
    LongerNumeral(t, k, Numeral(v, 10, true), v == 0);
    zeros := if v == 0 then k + 1 else k;
  }

  lemma {:induction false} LongerNumeral(t: Text, k: nat, numeral: Text, zero: bool)
    requires t != [] && t[..|t| - 1] == Zeros(k) + numeral && (zero ==> numeral == [48])
    ensures t == Zeros(if zero then k + 1 else k) + ((if zero then [] else numeral) + [t[|t| - 1]])
  {
    assert t == t[..|t| - 1] + [t[|t| - 1]];
    assert zero ==> Zeros(k) + [48] == Zeros(k + 1);
  }

  lemma {:induction false} OneMoreDigit(v: nat, last: Byte)
    requires 0 <= DigitValue(last) < 10
    ensures Numeral(v * 10 + DigitValue(last), 10, true) == (if v == 0 then [] else Numeral(v, 10, true)) + [last]
  {
    var n := v * 10 + DigitValue(last);
    assert n / 10 == v && n % 10 == DigitValue(last) && DigitChar(n % 10, true) == last;
  }

  /** The digits spell n, with any zeros in front. */
  ghost predicate Spells(digits: Text, n: nat) {
    exists k: nat :: digits == Zeros(k) + Numeral(n, 10, true)
  }

  lemma {:induction false} SpellsMeans(digits: Text, n: nat)
    ensures Spells(digits, n) <==> digits != [] && AllDigits(digits, 10) && NumeralValue(digits, 10) == n
  {
    NumeralRoundTrip(n, 10, true);
    if Spells(digits, n) {
      var k: nat :| digits == Zeros(k) + Numeral(n, 10, true);
      LeadingZeros(k, Numeral(n, 10, true), 10);
    }
    if digits != [] && AllDigits(digits, 10) && NumeralValue(digits, 10) == n {
      var k := DigitsAreNumeral(digits);
    }
  }

  /** A number is printed without a leading zero. */
  lemma {:induction false} NoLeadingZero(n: nat, base: nat, upper: bool)
    requires IsBase(base) && n > 0
    ensures Numeral(n, base, upper) != [] && DigitValue(Numeral(n, base, upper)[0]) != 0
    decreases n
  {
    if n < base {
    } else {
      Below(n, base, n);
      NoLeadingZero(n / base, base, upper);
    }
  }

  /** Zeros in front of a numeral do not change its value. */
  lemma {:induction false} LeadingZeros(k: nat, t: Text, base: nat)
    requires IsBase(base) && AllDigits(t, base)
    ensures AllDigits(Zeros(k) + t, base) && NumeralValue(Zeros(k) + t, base) == NumeralValue(t, base)
    decreases k + |t|
  {
    var z := Zeros(k) + t;
    assert AllDigits(z, base);
    if t != [] {
      assert z[..|z| - 1] == Zeros(k) + t[..|t| - 1];
      LeadingZeros(k, t[..|t| - 1], base);
    } else if k > 0 {
      assert z[..|z| - 1] == Zeros(k - 1) + t;
      LeadingZeros(k - 1, t, base);
    }
  }

  function Zeros(k: nat): Text {
    seq(k, _ => 48)
  }

  function Pow(base: nat, k: nat): nat {
    if k == 0 then 1 else base * Pow(base, k - 1)
  }

  lemma {:induction false} Pow64()
    ensures Pow(10, 20) == 100_000_000_000_000_000_000 && Pow(16, 16) == U64
  {
    assert Pow(10, 10) == 10_000_000_000;
    assert Pow(16, 8) == 0x1_0000_0000;
  }

  lemma {:induction false} NumeralLength(n: nat, base: nat, upper: bool, k: nat)
    requires IsBase(base) && 1 <= k && n < Pow(base, k)
    ensures |Numeral(n, base, upper)| <= k
  {
    if n < base {
    } else {
      Below(n, base, Pow(base, k - 1));
      NumeralLength(n / base, base, upper, k - 1);
    }
  }

  /** What is left to print, in front of the digits that are already in the buffer. */
  ghost predicate Printing(value: nat, done: Text, n: nat, base: nat, upper: bool)
    requires IsBase(base)
  {
    Numeral(n, base, upper) ==
      (if value == 0 && done != [] then [] else Numeral(value, base, upper)) + Reversed(done)
  }

  /** A digit moves from the number in front of the buffer to the end of the buffer. */
  lemma {:induction false} DigitMoves(head: Text, digit: Byte, done: Text)
    ensures head + [digit] + Reversed(done) == head + Reversed(done + [digit])
  {
    ReversedSnoc(done, digit);
    assert head + [digit] + Reversed(done) == head + ([digit] + Reversed(done));
  }

  lemma {:induction false} LastDigit(value: nat, base: nat, upper: bool)
    requires IsBase(base)
    ensures Numeral(value, base, upper) ==
      (if value / base == 0 then [] else Numeral(value / base, base, upper)) + [DigitChar(value % base, upper)]
  {
    Below(value, base, value + 1);
  }

  lemma {:induction false} NextDigit(value: nat, done: Text, n: nat, base: nat, upper: bool)
    requires IsBase(base) && Printing(value, done, n, base, upper) && (value == 0 ==> done == [])
    ensures Printing(value / base, done + [DigitChar(value % base, upper)], n, base, upper)
  {
    LastDigit(value, base, upper);
    var head := if value / base == 0 then [] else Numeral(value / base, base, upper);
    DigitMoves(head, DigitChar(value % base, upper), done);
  }

  /** k digits are enough for the value. */
  ghost predicate Fits(value: nat, base: nat, k: int) {
    k >= 0 && value < Pow(base, k)
  }

  lemma {:induction false} FewerDigits(value: nat, base: nat, k: int)
    requires IsBase(base) && k > 0 && Fits(value, base, k)
    ensures Fits(value / base, base, k - 1)
    ensures k == 1 ==> value / base == 0
    ensures value > 0 ==> value / base < value
  {
    Below(value, base, Pow(base, k - 1));
  }

  /** One turn of the digit loop. */
  ghost predicate Written(value: nat, buffer: seq<Byte>, length: nat, n: nat, base: nat, upper: bool)
    requires IsBase(base)
  {
    && length <= |buffer| && (value != 0 ==> length < |buffer|)
    && Fits(value, base, |buffer| - length)
    && Printing(value, buffer[..length], n, base, upper)
  }

  lemma {:induction false} WriteDigit(value: nat, buffer: seq<Byte>, length: nat, n: nat, base: nat, upper: bool)
    requires IsBase(base) && Written(value, buffer, length, n, base, upper) && length < |buffer|
    requires value == 0 ==> length == 0
    ensures value > 0 ==> value / base < value
    ensures Written(value / base, buffer[length := DigitChar(value % base, upper)], length + 1, n, base, upper)
  {
    var digit := DigitChar(value % base, upper);
    NextDigit(value, buffer[..length], n, base, upper);
    FewerDigits(value, base, |buffer| - length);
    assert buffer[length := digit][..length + 1] == buffer[..length] + [digit];
  }

  lemma {:induction false} AllWritten(buffer: seq<Byte>, length: nat, n: nat, base: nat, upper: bool)
    requires IsBase(base) && length > 0 && Written(0, buffer, length, n, base, upper)
    ensures Reversed(buffer[..length]) == Numeral(n, base, upper)
  {
  }

  lemma {:induction false} NothingWritten(buffer: seq<Byte>, n: nat, base: nat, upper: bool)
    requires IsBase(base) && buffer != [] && n < Pow(base, |buffer|)
    ensures Written(n, buffer, 0, n, base, upper)
  {
    assert buffer[..0] == [] && Reversed<Byte>([]) == [];
  }

  /**
    The digit loop of `strHex` and `appendDec`: the digits go into the buffer from the last to the
    first, at least one of them, and the buffer never overflows.
   */
  method WriteDigits(n: nat, base: nat, upper: bool, buffer: array<Byte>) returns (length: nat)
    requires IsBase(base) && 1 <= buffer.Length && n < Pow(base, buffer.Length)
    modifies buffer
    ensures 1 <= length <= buffer.Length
    ensures Reversed(buffer[..length]) == Numeral(n, base, upper)
  {
    var value: nat := n;
    length := 0;
    NothingWritten(buffer[..], n, base, upper);
    while length == 0 || value != 0
      invariant Written(value, buffer[..], length, n, base, upper)
      decreases length == 0, value
    {
      ghost var before := buffer[..];
      WriteDigit(value, before, length, n, base, upper);
      buffer[length] := DigitChar(value % base, upper);
      assert buffer[..] == before[length := DigitChar(value % base, upper)];
      length := length + 1;
      value := value / base;
    }
    AllWritten(buffer[..], length, n, base, upper);
    assert buffer[..][..length] == buffer[..length];
  }
}
