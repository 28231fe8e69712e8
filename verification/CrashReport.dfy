/**
  The formatting helpers of the crash handler (source/base/crash_handler.cc): bounded appends to one
  buffer that always leave a terminated text.
 */
module CrashReport {
  import opened Common
  import opened Bytes
  import opened Numerals

  function Prefix(t: Text, n: nat): Text {
    t[..Min(|t|, n)]
  }

  /** The buffer holds as much of `text` as leaves room for a terminating null. */
  ghost predicate Filled(buffer: Text, pos: nat, capacity: nat, text: Text)
    requires 1 <= capacity <= |buffer|
  {
    pos == Min(|text|, capacity - 1) && buffer[..pos] == Prefix(text, capacity - 1)
  }

  /** And the null is there. */
  ghost predicate Holds(buffer: Text, pos: nat, capacity: nat, text: Text)
    requires 1 <= capacity <= |buffer|
  {
    Filled(buffer, pos, capacity, text) && buffer[pos] == 0
  }

  /** Cutting what was already cut is cutting the whole. */
  lemma {:induction false} PrefixAppend(text: Text, more: Text, n: nat)
    ensures Prefix(text + more, n) == Prefix(Prefix(text, n) + more, n)
  {
  }

  /** The characters of a C string: those before its null. */
  method AppendString(buffer: array<Byte>, pos: nat, capacity: nat, str: Text, ghost text: Text) returns (end: nat)
    requires 1 <= capacity <= buffer.Length && Filled(buffer[..], pos, capacity, text) && 0 !in str
    modifies buffer
    ensures Holds(buffer[..], end, capacity, text + str)
    ensures buffer[capacity..] == old(buffer[capacity..])
  {
    end := pos;
    var i := 0;
    while i < |str| && end < capacity - 1
      invariant i <= |str| && end == pos + i <= capacity - 1
      invariant buffer[..end] == Prefix(text, capacity - 1) + str[..i]
      invariant buffer[capacity..] == old(buffer[capacity..])
    {
      buffer[end] := str[i];
      assert buffer[..end + 1] == buffer[..end] + [str[i]];
      assert str[..i + 1] == str[..i] + [str[i]];
      end := end + 1;
      i := i + 1;
    }
    buffer[end] := 0;
    PrefixAppend(text, str, capacity - 1);
    assert buffer[..][..end] == buffer[..end];
  }

  /** The digits come out of a scratch buffer that was filled from the last one on. */
  method AppendDigits(buffer: array<Byte>, pos: nat, capacity: nat, digits: array<Byte>, total: nat, ghost text: Text)
    returns (end: nat)
    requires 1 <= capacity <= buffer.Length && Filled(buffer[..], pos, capacity, text)
    requires digits != buffer && total <= digits.Length
    modifies buffer
    ensures Holds(buffer[..], end, capacity, text + Reversed(old(digits[..total])))
    ensures buffer[capacity..] == old(buffer[capacity..])
  {
    ghost var str := Reversed(digits[..total]);
    var count := total;
    end := pos;
    while count > 0 && end < capacity - 1
      invariant 0 <= count <= total == |str| && end == pos + total - count <= capacity - 1
      invariant buffer[..end] == Prefix(text, capacity - 1) + str[..total - count]
      invariant buffer[capacity..] == old(buffer[capacity..])
    {
      count := count - 1;
      assert str[..total - count] == str[..total - count - 1] + [digits[count]];
      buffer[end] := digits[count];
      assert buffer[..end + 1] == buffer[..end] + [digits[count]];
      end := end + 1;
    }
    buffer[end] := 0;
    PrefixAppend(text, str, capacity - 1);
    assert buffer[..][..end] == buffer[..end];
  }

  method AppendDec(buffer: array<Byte>, pos: nat, capacity: nat, value: nat, ghost text: Text) returns (end: nat)
    requires 1 <= capacity <= buffer.Length && Filled(buffer[..], pos, capacity, text) && value < U64
    modifies buffer
    ensures Holds(buffer[..], end, capacity, text + Numeral(value, 10, true))
    ensures buffer[capacity..] == old(buffer[capacity..])
  {
    var digits := new Byte[24];
    Decimal64(value);
    var count := WriteDigits(value, 10, true, digits);
    end := AppendDigits(buffer, pos, capacity, digits, count, text);
  }

  /** Twenty digits hold every 64-bit number, so the scratch buffer of 24 never overflows. */
  lemma {:induction false} Decimal64(value: nat)
    requires value < U64
    ensures value < Pow(10, 24) && |Numeral(value, 10, true)| <= 20
  {
    Pow64();
    NumeralLength(value, 10, true, 20);
    assert Pow(10, 24) == 10 * (10 * (10 * (10 * Pow(10, 20))));
  }

  // ---------------------------------------------------------------------------------------------
  // Addresses
  // ---------------------------------------------------------------------------------------------

  /** value >> 4 * k. */
  function Nibbles(value: nat, k: nat): nat {
    if k == 0 then value else Nibbles(value, k - 1) / 16
  }

  function HexDigit(value: nat, i: nat): Byte
    requires i < 16
  {
    DigitChar(Nibbles(value, 15 - i) % 16, true)
  }

  function FixedHex(value: nat): (t: Text)
    ensures |t| == 16
  {
    seq(16, i requires 0 <= i < 16 => HexDigit(value, i))
  }

  /** "0x" and always sixteen digits. */
  function AddressText(value: nat): Text {
    Ascii("0x") + FixedHex(value)
  }

  lemma {:induction false} NibblesVanish(value: nat, k: nat)
    requires value < Pow(16, k)
    ensures Nibbles(value, k) == 0
  {
    if k == 0 {
    } else {
      NibblesShift(value, k - 1);
      NibblesVanish(value / 16, k - 1);
    }
  }

  lemma {:induction false} NibblesShift(value: nat, k: nat)
    ensures Nibbles(value, k + 1) == Nibbles(value / 16, k)
  {
    if k == 0 {
    } else {
      NibblesShift(value, k - 1);
    }
  }

  lemma {:induction false} FixedHexPrefix(value: nat, k: nat)
    requires value < U64 && k <= 16
    ensures AllDigits(FixedHex(value)[..k], 16) && NumeralValue(FixedHex(value)[..k], 16) == Nibbles(value, 16 - k)
  {
    if k == 0 {
      Pow64();
      NibblesVanish(value, 16);
    } else {
      FixedHexPrefix(value, k - 1);
      var t := FixedHex(value);
      assert t[..k] == t[..k - 1] + [HexDigit(value, k - 1)];
      assert t[..k][..k - 1] == t[..k - 1];
      assert Nibbles(value, 17 - k) == Nibbles(value, 16 - k) / 16;
    }
  }

  /** The sixteen digits of an address read back as the address. */
  lemma {:induction false} AddressReadsBack(value: nat)
    requires value < U64
    ensures AllDigits(FixedHex(value), 16) && NumeralValue(FixedHex(value), 16) == value
    ensures forall i :: 0 <= i < 16 ==> FixedHex(value)[i] in Alphabet(true)
  {
    FixedHexPrefix(value, 16);
    forall i | 0 <= i < 16 ensures FixedHex(value)[i] in Alphabet(true) {
      DigitsOfAlphabet(Nibbles(value, 15 - i) % 16, true);
    }
    assert FixedHex(value)[..16] == FixedHex(value);
  }

  method AppendHex(buffer: array<Byte>, pos: nat, capacity: nat, value: nat, ghost text: Text) returns (end: nat)
    requires 1 <= capacity <= buffer.Length && Filled(buffer[..], pos, capacity, text) && value < U64
    modifies buffer
    ensures Holds(buffer[..], end, capacity, text + AddressText(value))
    ensures buffer[capacity..] == old(buffer[capacity..])
  {
    var hex := Ascii("0x");
    for i := 0 to 16
      invariant hex == Ascii("0x") + FixedHex(value)[..i] && 0 !in hex
    {
      assert FixedHex(value)[..i + 1] == FixedHex(value)[..i] + [HexDigit(value, i)];
      hex := hex + [HexDigit(value, i)];
    }
    assert FixedHex(value)[..16] == FixedHex(value);
    end := AppendString(buffer, pos, capacity, hex, text);
  }

  // ---------------------------------------------------------------------------------------------
  // Chains of appends
  // ---------------------------------------------------------------------------------------------

  datatype Piece = Str(s: Text) | Dec(n: nat) | Hex(a: nat)

  predicate IsPiece(p: Piece) {
    match p
    case Str(s) => 0 !in s
    case Dec(n) => n < U64
    case Hex(a) => a < U64
  }

  function Printed(p: Piece): Text {
    match p
    case Str(s) => s
    case Dec(n) => Numeral(n, 10, true)
    case Hex(a) => AddressText(a)
  }

  /** The text the pieces would make with all the room in the world. */
  function Rendered(pieces: seq<Piece>): Text {
    RenderedUpTo(pieces, |pieces|)
  }

  function RenderedUpTo(pieces: seq<Piece>, n: nat): Text
    requires n <= |pieces|
  {
    if n == 0 then [] else RenderedUpTo(pieces, n - 1) + Printed(pieces[n - 1])
  }

  /** Any chain of appends leaves a terminated buffer with the longest prefix of the whole that fits. */
  method AppendAll(buffer: array<Byte>, capacity: nat, pieces: seq<Piece>) returns (pos: nat)
    requires 1 <= capacity <= buffer.Length && forall i :: 0 <= i < |pieces| ==> IsPiece(pieces[i])
    modifies buffer
    ensures Holds(buffer[..], pos, capacity, Rendered(pieces))
    ensures buffer[capacity..] == old(buffer[capacity..])
  {
    buffer[0] := 0;
    pos := 0;
    for i := 0 to |pieces|
      invariant Holds(buffer[..], pos, capacity, RenderedUpTo(pieces, i))
      invariant buffer[capacity..] == old(buffer[capacity..])
    {
      ghost var text := RenderedUpTo(pieces, i);
      match pieces[i]
      case Str(s) => pos := AppendString(buffer, pos, capacity, s, text);
      case Dec(n) => pos := AppendDec(buffer, pos, capacity, n, text);
      case Hex(a) => pos := AppendHex(buffer, pos, capacity, a, text);
    }
  }

  datatype Signal = SIGSEGV | SIGBUS | SIGILL | SIGFPE | SIGABRT | SIGSYS | OTHER

  function SignalName(s: Signal): Text {
    match s
    case SIGSEGV => Ascii("SIGSEGV")
    case SIGBUS => Ascii("SIGBUS")
    case SIGILL => Ascii("SIGILL")
    case SIGFPE => Ascii("SIGFPE")
    case SIGABRT => Ascii("SIGABRT")
    case SIGSYS => Ascii("SIGSYS")
    case OTHER => Ascii("UNKNOWN")
  }

  lemma {:induction false} SignalNames()
    ensures SignalName(SIGSEGV) == Ascii("SIGSEGV") && SignalName(SIGBUS) == Ascii("SIGBUS")
    ensures SignalName(SIGILL) == Ascii("SIGILL") && SignalName(SIGFPE) == Ascii("SIGFPE")
    ensures SignalName(SIGABRT) == Ascii("SIGABRT") && SignalName(SIGSYS) == Ascii("SIGSYS")
    ensures SignalName(OTHER) == Ascii("UNKNOWN")
  {
  }

  /** The conversion of an int to unsigned long long: a negative code wraps around. */
  function ToUnsigned64(n: int): (r: nat)
    requires -0x8000_0000 <= n <= 0x7FFF_FFFF
    ensures 0 <= r < 0x1_0000_0000_0000_0000 && (r == n || r == 0x1_0000_0000_0000_0000 + n)
  {
    if n < 0 then n + U64 else n
  }

  function ReportPieces(signal: Signal, sig: int, code: int, address: nat): seq<Piece>
    requires -0x8000_0000 <= sig <= 0x7FFF_FFFF && -0x8000_0000 <= code <= 0x7FFF_FFFF
  {
    [Str(Ascii("=========================== CRASH REPORT ===========================\n")),
     Str(Ascii("  Signal     : ")), Str(SignalName(signal)), Str(Ascii(" (")), Dec(ToUnsigned64(sig)),
     Str(Ascii(")\n  Code       : ")), Dec(ToUnsigned64(code)),
     Str(Ascii("\n  Address    : ")), Hex(address), Str(Ascii("\n\n"))]
  }

  /** The report as it stands in the log. */
  function ReportText(signal: Signal, sig: int, code: int, address: nat): Text
    requires -0x8000_0000 <= sig <= 0x7FFF_FFFF && -0x8000_0000 <= code <= 0x7FFF_FFFF
  {
    Ascii("=========================== CRASH REPORT ===========================\n")
    + Ascii("  Signal     : ") + SignalName(signal) + Ascii(" (") + Numeral(ToUnsigned64(sig), 10, true)
    + Ascii(")\n  Code       : ") + Numeral(ToUnsigned64(code), 10, true)
    + Ascii("\n  Address    : ") + (Ascii("0x") + FixedHex(address)) + Ascii("\n\n")
  }

  /** Ten pieces, one behind the other. */
  lemma {:induction false} RenderedTen(p: seq<Piece>)
    requires |p| == 10
    ensures Rendered(p) == Printed(p[0]) + Printed(p[1]) + Printed(p[2]) + Printed(p[3]) + Printed(p[4])
      + Printed(p[5]) + Printed(p[6]) + Printed(p[7]) + Printed(p[8]) + Printed(p[9])
  {
    assert RenderedUpTo(p, 1) == [] + Printed(p[0]) == Printed(p[0]);
    assert RenderedUpTo(p, 2) == RenderedUpTo(p, 1) + Printed(p[1]);
    assert RenderedUpTo(p, 3) == RenderedUpTo(p, 2) + Printed(p[2]);
    assert RenderedUpTo(p, 4) == RenderedUpTo(p, 3) + Printed(p[3]);
    assert RenderedUpTo(p, 5) == RenderedUpTo(p, 4) + Printed(p[4]);
    assert RenderedUpTo(p, 6) == RenderedUpTo(p, 5) + Printed(p[5]);
    assert RenderedUpTo(p, 7) == RenderedUpTo(p, 6) + Printed(p[6]);
    assert RenderedUpTo(p, 8) == RenderedUpTo(p, 7) + Printed(p[7]);
    assert RenderedUpTo(p, 9) == RenderedUpTo(p, 8) + Printed(p[8]);
  }

  /** Each number stands in its own line. */
  lemma {:induction false} ReportIsText(signal: Signal, sig: int, code: int, address: nat)
    requires -0x8000_0000 <= sig <= 0x7FFF_FFFF && -0x8000_0000 <= code <= 0x7FFF_FFFF
    ensures Rendered(ReportPieces(signal, sig, code, address)) == ReportText(signal, sig, code, address)
  {
    RenderedTen(ReportPieces(signal, sig, code, address));
  }

  /** The report of the signal handler always fits its 512 bytes: nothing of it is ever cut. */
  method SignalReport(signal: Signal, sig: int, code: int, address: nat) returns (buffer: array<Byte>, pos: nat)
    requires -0x8000_0000 <= sig <= 0x7FFF_FFFF && -0x8000_0000 <= code <= 0x7FFF_FFFF && address < U64
    ensures fresh(buffer) && buffer.Length == 512 && pos < 512 && buffer[pos] == 0
    ensures buffer[..pos] == ReportText(signal, sig, code, address)
  {
    buffer := new Byte[512];
    var pieces := ReportPieces(signal, sig, code, address);
    pos := AppendAll(buffer, 512, pieces);
    ReportFits(signal, sig, code, address);
    ReportIsText(signal, sig, code, address);
    assert buffer[..][..pos] == buffer[..pos];
  }

  lemma {:induction false} RenderedLength(pieces: seq<Piece>, n: nat)
    requires 1 <= n <= |pieces| && |Printed(pieces[0])| <= 80
    requires forall i :: 0 < i < |pieces| ==> |Printed(pieces[i])| <= 20
    ensures |RenderedUpTo(pieces, n)| <= 80 + 20 * (n - 1)
  {
    if n == 1 {
      assert RenderedUpTo(pieces, 0) == [];
    } else {
      RenderedLength(pieces, n - 1);
    }
  }

  lemma {:induction false} ReportFits(signal: Signal, sig: int, code: int, address: nat)
    requires -0x8000_0000 <= sig <= 0x7FFF_FFFF && -0x8000_0000 <= code <= 0x7FFF_FFFF && address < U64
    ensures |Rendered(ReportPieces(signal, sig, code, address))| <= 511
  {
    Decimal64(ToUnsigned64(sig));
    Decimal64(ToUnsigned64(code));
    RenderedLength(ReportPieces(signal, sig, code, address), 10);
  }
}
