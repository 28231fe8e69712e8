/**
  The entries of an additional information table (source/base/smbios_parser.cc, `SmbiosAdditionalInfo`;
  section 7.41 of DMTF DSP0134).
 */
module SmbiosAdditionalInfo {
  import opened Common
  import opened Bytes
  import opened Numerals
  import opened SmbiosTables
  import opened StringUtil

  const FIRST_ENTRY := 5
  const FIXED_PART := 5

  /** An entry fits at this offset of the formatted area. */
  predicate HoldsEntry(t: Text, offset: nat)
    requires IsTable(t)
  {
    offset + FIXED_PART <= t[1] && FIXED_PART <= t[offset] && offset + t[offset] <= t[1]
  }

  /** The offsets of up to `left` entries, one behind the other. */
  function EntriesFrom(t: Text, offset: nat, left: nat): seq<nat>
    requires IsTable(t)
    decreases left
  {
    if left == 0 || !HoldsEntry(t, offset) then [] else [offset] + EntriesFrom(t, offset + t[offset], left - 1)
  }

  function Entries(t: Text): seq<nat>
    requires IsTable(t)
  {
    EntriesFrom(t, FIRST_ENTRY, t[4])
  }

  /** No more entries than declared; each inside the declared length, each adjacent to the one before. */
  lemma {:induction false} EntriesAreAdjacent(t: Text, offset: nat, left: nat, i: nat)
    requires IsTable(t) && i < |EntriesFrom(t, offset, left)|
    ensures var es := EntriesFrom(t, offset, left);
      && |es| <= left && es[0] == offset
      && HoldsEntry(t, es[i])
      && (i + 1 < |es| ==> es[i + 1] == es[i] + t[es[i]])
    decreases left
  {
    var es := EntriesFrom(t, offset, left);
    var rest := EntriesFrom(t, offset + t[offset], left - 1);
    if i > 0 {
      EntriesAreAdjacent(t, offset + t[offset], left - 1, i - 1);
      assert es[i] == rest[i - 1];
    } else if |rest| > 0 {
      EntriesAreAdjacent(t, offset + t[offset], left - 1, 0);
    }
    EntriesAreLimited(t, offset, left);
  }

  lemma {:induction false} EntriesAreLimited(t: Text, offset: nat, left: nat)
    requires IsTable(t)
    ensures |EntriesFrom(t, offset, left)| <= left
    decreases left
  {
    if left == 0 || !HoldsEntry(t, offset) {
    } else {
      EntriesAreLimited(t, offset + t[offset], left - 1);
    }
  }

  /** The walk stops only at the declared number or where no further entry fits. */
  lemma {:induction false} EntriesStop(t: Text, offset: nat, left: nat) returns (end: nat)
    requires IsTable(t)
    ensures var es := EntriesFrom(t, offset, left);
      && (es == [] ==> end == offset) && (es != [] ==> es[|es| - 1] < |t| && end == es[|es| - 1] + t[es[|es| - 1]])
      && (|es| == left || end + 5 > t[1] || t[end] < 5 || end + t[end] > t[1])
    decreases left
  {
    if left == 0 || !HoldsEntry(t, offset) {
      end := offset;
    } else {
      var rest := EntriesFrom(t, offset + t[offset], left - 1);
      end := EntriesStop(t, offset + t[offset], left - 1);
      assert EntriesFrom(t, offset, left) == [offset] + rest;
    }
  }

  /** The declared count is not trusted: the entries are counted by walking them. */
  method Count(t: Text) returns (count: nat)
    requires IsTable(t)
    ensures count == |Entries(t)|
  {
    var offset: nat := FIRST_ENTRY;
    count := 0;
    while count < t[4]
      invariant 0 <= count <= t[4]
      invariant |Entries(t)| == count + |EntriesFrom(t, offset, t[4] - count)|
    {
      if offset + FIXED_PART > t[1] {
        break;
      }
      var length := t[offset];
      if length < FIXED_PART || offset + length > t[1] {
        break;
      }
      offset := offset + length;
      count := count + 1;
    }
  }

  /** The second walk finds an entry exactly when the first one counted it, and at the same place. */
  method Entry(t: Text, index: int) returns (entry: Option<nat>)
    requires IsTable(t)
    ensures entry == if 0 <= index < |Entries(t)| then Some(Entries(t)[index]) else None
  {
    var count := Count(t);
    if index < 0 || index >= count {
      return None;
    }
    var offset: nat := FIRST_ENTRY;
    ghost var rest := Entries(t);
    EntriesAreLimited(t, FIRST_ENTRY, t[4]);
    for i := 0 to index + 1
      invariant i <= index && rest == EntriesFrom(t, offset, t[4] - i)
      invariant |rest| == |Entries(t)| - i && rest[index - i] == Entries(t)[index]
    {
      if offset + FIXED_PART > t[1] {
        return None;
      }
      var length := t[offset];
      if length < FIXED_PART || offset + length > t[1] {
        return None;
      }
      if i == index {
        return Some(offset);
      }
      assert rest[1..] == EntriesFrom(t, offset + length, t[4] - i - 1);
      rest := rest[1..];
      offset := offset + length;
    }
    return None;
  }

  // ---------------------------------------------------------------------------------------------
  // Values
  // ---------------------------------------------------------------------------------------------

  lemma {:induction false} LittleEndianFits(bytes: Text)
    ensures LittleEndian(bytes) < Pow(16, 2 * |bytes|)
  {
    if bytes == [] {
    } else {
      LittleEndianFits(bytes[1..]);
      var k := 2 * |bytes[1..]|;
      assert Pow(16, k + 2) == 16 * (16 * Pow(16, k));
    }
  }

  /** The bytes behind the fixed part of the entry. */
  function ValueBytes(t: Text, entry: nat): Text
    requires IsTable(t) && HoldsEntry(t, entry)
  {
    t[entry + FIXED_PART..entry + t[entry]]
  }

  function ValueText(t: Text, index: int): Text
    requires IsTable(t)
  {
    if index < 0 || index >= |Entries(t)| then []
    else
      EntriesAreAdjacent(t, FIRST_ENTRY, t[4], index);
      var bytes := ValueBytes(t, Entries(t)[index]);
      if |bytes| != 1 && |bytes| != 2 && |bytes| != 4 then []
      else Ascii("0x") + HexText(LittleEndian(bytes), 2 * |bytes|, true)
  }

  /** The lowest byte first. */
  function ValueOf(bytes: Text): int
    requires |bytes| == 1 || |bytes| == 2 || |bytes| == 4
  {
    bytes[0] as int + (if |bytes| > 1 then 0x100 * bytes[1] as int else 0)
    + if |bytes| > 2 then 0x1_0000 * bytes[2] as int + 0x100_0000 * bytes[3] as int else 0
  }

  /** "0x" and exactly two upper case digits a byte, which read back as the value with the lowest byte first. */
  ghost predicate IsHexOf(text: Text, bytes: Text)
    requires |bytes| == 1 || |bytes| == 2 || |bytes| == 4
  {
    && |text| == 2 + 2 * |bytes| && text[..2] == Ascii("0x")
    && AllDigits(text[2..], 16) && NumeralValue(text[2..], 16) == ValueOf(bytes)
    && forall i :: 2 <= i < |text| ==> text[i] in Alphabet(true)
  }

  lemma {:induction false} HexReadsBack(bytes: Text)
    requires |bytes| == 1 || |bytes| == 2 || |bytes| == 4
    ensures IsHexOf(Ascii("0x") + HexText(LittleEndian(bytes), 2 * |bytes|, true), bytes)
  {
    var digits := HexText(LittleEndian(bytes), 2 * |bytes|, true);
    LittleEndianFits(bytes);
    LittleEndianIs(bytes);
    HexTextReadsBack(LittleEndian(bytes), 2 * |bytes|, true);
    assert (Ascii("0x") + digits)[2..] == digits && (Ascii("0x") + digits)[..2] == Ascii("0x");
    forall i | 0 <= i < |digits| ensures digits[i] in Alphabet(true) {
      HexTextAlphabet(LittleEndian(bytes), 2 * |bytes|, true, i);
    }
  }

  /** The value of every entry, for the three widths that are defined; nothing for others and for a missing entry. */
  lemma {:induction false} ValueReadsBack(t: Text, index: int)
    requires IsTable(t)
    ensures !(0 <= index < |Entries(t)|) ==> ValueText(t, index) == []
    ensures 0 <= index < |Entries(t)| ==> HoldsEntry(t, Entries(t)[index])
    ensures 0 <= index < |Entries(t)| ==>
      var bytes := ValueBytes(t, Entries(t)[index]);
      if |bytes| == 1 || |bytes| == 2 || |bytes| == 4
      then IsHexOf(ValueText(t, index), bytes)
      else ValueText(t, index) == []
  {
    if 0 <= index < |Entries(t)| {
      EntriesAreAdjacent(t, FIRST_ENTRY, t[4], index);
      var bytes := ValueBytes(t, Entries(t)[index]);
      if |bytes| == 1 || |bytes| == 2 || |bytes| == 4 {
        HexReadsBack(bytes);
      }
    }
  }

  /** b << 8 * i. */
  function Shifted(b: nat, i: nat): nat {
    if i == 0 then b else 256 * Shifted(b, i - 1)
  }

  lemma {:induction false} LittleEndianSnoc(bytes: Text, b: Byte)
    ensures LittleEndian(bytes + [b]) == LittleEndian(bytes) + Shifted(b, |bytes|)
  {
    if bytes == [] {
      assert [b][1..] == [];
    } else {
      assert (bytes + [b])[1..] == bytes[1..] + [b];
      LittleEndianSnoc(bytes[1..], b);
    }
  }

  method Value(t: Text, index: int) returns (r: Text)
    requires IsTable(t)
    ensures r == ValueText(t, index)
  {
    var entry := Entry(t, index);
    if entry.None? {
      return [];
    }
    EntriesAreAdjacent(t, FIRST_ENTRY, t[4], index);
    var data := entry.value;
    var width := t[data] - FIXED_PART;
    if width != 1 && width != 2 && width != 4 {
      return [];
    }
    ghost var bytes := ValueBytes(t, data);
    var value: nat := 0;
    for i := 0 to width
      invariant value == LittleEndian(bytes[..i])
    {
      // The shifted bytes do not overlap, so that or-ing them is adding them.
      LittleEndianSnoc(bytes[..i], bytes[i]);
      assert bytes[..i + 1] == bytes[..i] + [bytes[i]];
      value := value + Shifted(t[data + FIXED_PART + i], i);
    }
    assert bytes[..width] == bytes;
    LittleEndianFits(bytes);
    WidthFits(width);
    var digits := StrHex(value, width * 2, true);
    r := Ascii("0x") + digits;
  }

  lemma {:induction false} WidthFits(width: nat)
    requires width <= 4
    ensures Pow(16, 2 * width) <= U64
  {
    assert Pow(16, 2) == 0x100 && Pow(16, 4) == 0x1_0000 && Pow(16, 6) == 0x100_0000 && Pow(16, 8) == 0x1_0000_0000;
  }

  // ---------------------------------------------------------------------------------------------
  // What was encoded is what is found
  // ---------------------------------------------------------------------------------------------

  /** The handle, the offset and the string number of an entry, then its value. */
  datatype Info = Info(fixed: Text, value: Text)

  predicate IsInfo(e: Info) {
    |e.fixed| == 4 && |e.value| <= 0xFA
  }

  function EncodeInfo(e: Info): Text
    requires IsInfo(e)
  {
    [FIXED_PART + |e.value|] + e.fixed + e.value
  }

  ghost predicate AreInfos(es: seq<Info>) {
    forall i :: 0 <= i < |es| ==> IsInfo(es[i])
  }

  function EncodeInfos(es: seq<Info>): Text
    requires AreInfos(es)
  {
    if es == [] then [] else EncodeInfo(es[0]) + EncodeInfos(es[1..])
  }

  /** The formatted area holds the encoded entries at this offset. */
  ghost predicate HoldsInfos(t: Text, offset: nat, es: seq<Info>)
    requires IsTable(t)
  {
    && AreInfos(es) && offset + |EncodeInfos(es)| <= t[1]
    && t[offset..offset + |EncodeInfos(es)|] == EncodeInfos(es)
  }

  lemma {:induction false} FirstInfo(t: Text, offset: nat, es: seq<Info>)
    requires IsTable(t) && es != [] && HoldsInfos(t, offset, es)
    ensures HoldsEntry(t, offset) && ValueBytes(t, offset) == es[0].value
    ensures HoldsInfos(t, offset + t[offset], es[1..])
  {
    var e, rest := EncodeInfo(es[0]), EncodeInfos(es[1..]);
    Segments(t, offset, e, rest);
    EncodedValue(t, offset, es[0]);
  }

  /** Every encoded entry is found, in order, with the value that was put in. */
  lemma {:induction false} EncodedEntries(t: Text, offset: nat, es: seq<Info>, i: nat)
    requires IsTable(t) && HoldsInfos(t, offset, es) && i < |es|
    ensures var found := EntriesFrom(t, offset, |es|);
      |found| == |es| && HoldsEntry(t, found[i]) && ValueBytes(t, found[i]) == es[i].value
    decreases |es|
  {
    FirstInfo(t, offset, es);
    var more := es[1..];
    if more == [] {
    } else {
      EncodedEntries(t, offset + t[offset], more, if i == 0 then 0 else i - 1);
    }
  }

  lemma {:induction false} EncodedValue(t: Text, offset: nat, e: Info)
    requires IsTable(t) && IsInfo(e) && offset + |EncodeInfo(e)| <= t[1]
    requires t[offset..offset + |EncodeInfo(e)|] == EncodeInfo(e)
    ensures HoldsEntry(t, offset) && t[offset] == |EncodeInfo(e)| && ValueBytes(t, offset) == e.value
  {
    var head := [FIXED_PART + |e.value|] + e.fixed;
    FirstTwo(t, offset, EncodeInfo(e));
    Segments(t, offset, head, e.value);
  }

  /** A table of additional information: any type and handle, the number of entries, the entries, any strings. */
  function InfoTable(kind: Byte, low: Byte, high: Byte, es: seq<Info>, strings: seq<Text>): Structure
    requires AreInfos(es) && |es| < 0x100
  {
    Structure(kind, [low, high, |es|] + EncodeInfos(es), strings)
  }

  lemma {:induction false} InfosLieAt(s: Structure, t: Text, infos: Text, count: Byte)
    requires WellFormed(s) && t == Encode(s) && |s.body| >= 3 && s.body[2] == count && s.body[3..] == infos
    ensures IsTable(t) && t[4] == count && t[1] == 5 + |infos| && t[5..5 + |infos|] == infos
  {
    EncodedIsTable(s, t);
    var head := Formatted(s);
    assert t[..|head|] == head;
    assert head[4] == s.body[2] && head[5..] == s.body[3..];
    assert t[5..|head|] == t[..|head|][5..];
  }

  /** In such a table every entry is found, and nothing else, each with its value. */
  lemma {:induction false} EntriesReadBack(kind: Byte, low: Byte, high: Byte, es: seq<Info>, strings: seq<Text>,
                                           t: Text)
    requires AreInfos(es) && |es| < 0x100 && WellFormed(InfoTable(kind, low, high, es, strings))
    requires t == Encode(InfoTable(kind, low, high, es, strings))
    ensures IsTable(t) && |Entries(t)| == |es|
    ensures forall i :: 0 <= i < |es| ==>
      HoldsEntry(t, Entries(t)[i]) && ValueBytes(t, Entries(t)[i]) == es[i].value
  {
    var s := InfoTable(kind, low, high, es, strings);
    assert s.body[3..] == EncodeInfos(es);
    InfosLieAt(s, t, EncodeInfos(es), |es|);
    forall i | 0 <= i < |es|
      ensures |Entries(t)| == |es| && HoldsEntry(t, Entries(t)[i]) && ValueBytes(t, Entries(t)[i]) == es[i].value
    {
      EncodedEntries(t, 5, es, i);
    }
  }
}
