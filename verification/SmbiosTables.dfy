/**
  The walk over the tables of an SMBIOS dump (source/base/smbios_parser.cc), against an encoder of the
  structures of sections 6.1.2 and 6.1.3 of DMTF DSP0134.
 */
module SmbiosTables {
  import opened Common
  import opened Bytes

  const HEADER_SIZE := 4
  const DUMP_HEADER_SIZE := 8
  const MAX_DATA_SIZE := 0xFA00
  const END_OF_TABLE: Byte := 0x7F

  /** The table data of a dump, never more than it carries; nothing when its size is out of bounds. */
  function TableData(dump: Text): (data: Text)
    ensures |data| <= MAX_DATA_SIZE && |data| <= |dump|
  {
    if |dump| < DUMP_HEADER_SIZE || |dump| > DUMP_HEADER_SIZE + MAX_DATA_SIZE then []
    else
      var declared := LittleEndian(dump[4..8]);
      var available := |dump| - DUMP_HEADER_SIZE;
      dump[DUMP_HEADER_SIZE..DUMP_HEADER_SIZE + if declared > available then available else declared]
  }

  /** Two null bytes in a row at p. */
  predicate NullsAt(data: Text, p: nat) {
    p + 1 < |data| && data[p] == 0 && data[p + 1] == 0
  }

  /** The first two null bytes in a row from p on, or the end of the data. */
  function DoubleNull(data: Text, p: nat): (q: nat)
    requires p <= |data|
    ensures p <= q <= |data| && (q < |data| ==> NullsAt(data, q))
    decreases |data| - p
  {
    if p + 1 >= |data| then |data| else if NullsAt(data, p) then p else DoubleNull(data, p + 1)
  }

  lemma {:induction false} DoubleNullIsFirst(data: Text, p: nat, i: nat)
    requires p <= |data| && p <= i < DoubleNull(data, p)
    ensures !NullsAt(data, i)
    decreases |data| - p
  {
    if p == i {
    } else {
      DoubleNullIsFirst(data, p + 1, i);
    }
  }

  /** The table at pos is there as a whole: header, formatted area and the end of its strings. */
  predicate Accepts(data: Text, pos: nat) {
    && pos + HEADER_SIZE <= |data|
    && HEADER_SIZE <= data[pos + 1] <= |data| - pos && data[pos] != END_OF_TABLE
    && DoubleNull(data, pos + data[pos + 1]) < |data|
  }

  function NextOf(data: Text, pos: nat): (next: nat)
    requires Accepts(data, pos)
    ensures pos + HEADER_SIZE + 2 <= next <= |data|
  {
    DoubleNull(data, pos + data[pos + 1]) + 2
  }

  /** Where the tables start, as far as they can be told apart. */
  function Tables(data: Text, pos: nat): seq<nat>
    requires pos <= |data|
    decreases |data| - pos
  {
    if Accepts(data, pos) then [pos] + Tables(data, NextOf(data, pos)) else []
  }

  // ---------------------------------------------------------------------------------------------
  // What is exposed
  // ---------------------------------------------------------------------------------------------

  /** The bytes of one table, up to and with the two nulls that end its strings, and nothing behind them. */
  predicate IsTable(t: Text) {
    && 6 <= |t| && 4 <= t[1] <= |t| - 2
    && NullsAt(t, |t| - 2)
    && forall i :: t[1] <= i < |t| - 2 ==> !NullsAt(t, i)
  }

  /** Every table that is accepted lies wholly inside the data, with its double null. */
  lemma {:induction false} AcceptedIsTable(data: Text, pos: nat)
    requires Accepts(data, pos)
    ensures IsTable(data[pos..NextOf(data, pos)])
  {
    var t := data[pos..NextOf(data, pos)];
    assert t[1] == data[pos + 1];
    forall i | t[1] <= i < |t| - 2 ensures !NullsAt(t, i) {
      DoubleNullIsFirst(data, pos + t[1], pos + i);
      assert t[i] == data[pos + i] && t[i + 1] == data[pos + i + 1];
    }
  }

  lemma {:induction false} DoubleNullIs(data: Text, p: nat, q: nat)
    requires p <= q && NullsAt(data, q) && forall i :: p <= i < q ==> !NullsAt(data, i)
    ensures DoubleNull(data, p) == q
    decreases q - p
  {
    if p == q {
    } else {
      DoubleNullIs(data, p + 1, q);
    }
  }

  ghost predicate LiesAt(data: Text, pos: nat, t: Text) {
    pos + |t| <= |data| && data[pos..pos + |t|] == t
  }

  /** The converse: a table that lies in the data is accepted unless it is the end marker, with nothing behind it. */
  lemma {:induction false} TableIsAccepted(data: Text, pos: nat, t: Text)
    requires IsTable(t) && LiesAt(data, pos, t)
    ensures Accepts(data, pos) <==> t[0] != END_OF_TABLE
    ensures Accepts(data, pos) ==> NextOf(data, pos) == pos + |t|
  {
    assert forall i :: 0 <= i < |t| ==> data[pos + i] == t[i];
    assert data[pos + 0] == t[0] && data[pos + 1] == t[1];
    forall i | pos + t[1] <= i <= pos + |t| - 2 ensures NullsAt(data, i) <==> NullsAt(t, i - pos) {
      assert data[pos + (i - pos)] == t[i - pos] && data[pos + (i - pos + 1)] == t[i - pos + 1];
    }
    DoubleNullIs(data, pos + t[1], pos + |t| - 2);
  }

  // ---------------------------------------------------------------------------------------------
  // The walk visits the tables that were put there
  // ---------------------------------------------------------------------------------------------

  ghost predicate AreTables(ts: seq<Text>) {
    forall i :: 0 <= i < |ts| ==> IsTable(ts[i])
  }

  /** Where the tables before the first end marker start when the first one of all starts at pos. */
  function Offsets(ts: seq<Text>, pos: nat): seq<nat>
    requires AreTables(ts)
    decreases |ts|
  {
    if ts == [] || ts[0][0] == 127 then [] else [pos] + Offsets(ts[1..], pos + |ts[0]|)
  }

  /** The tables lie one behind the other from pos on, up to an end marker or the end of the data. */
  ghost predicate LaidOut(data: Text, pos: nat, ts: seq<Text>)
    requires AreTables(ts)
    decreases |ts|
  {
    if ts == [] then pos == |data|
    else LiesAt(data, pos, ts[0]) && (ts[0][0] == END_OF_TABLE || LaidOut(data, pos + |ts[0]|, ts[1..]))
  }

  /** One step of the walk, and what is then still to come. */
  lemma {:induction false} NextTable(data: Text, pos: nat, ts: seq<Text>)
    requires AreTables(ts) && ts != [] && LaidOut(data, pos, ts)
    ensures !Accepts(data, pos) ==> Offsets(ts, pos) == []
    ensures Accepts(data, pos) ==>
      var next := NextOf(data, pos);
      LaidOut(data, next, ts[1..]) && Offsets(ts, pos) == [pos] + Offsets(ts[1..], next)
  {
    TableIsAccepted(data, pos, ts[0]);
  }

  lemma {:induction false} WalkVisitsTables(data: Text, pos: nat, ts: seq<Text>)
    requires AreTables(ts) && pos <= |data| && LaidOut(data, pos, ts)
    ensures Tables(data, pos) == Offsets(ts, pos)
    decreases |ts|
  {
    if ts == [] {
    } else {
      NextTable(data, pos, ts);
      if Accepts(data, pos) {
        WalkVisitsTables(data, NextOf(data, pos), ts[1..]);
      }
    }
  }

  /** A table is accepted at pos, and these are its bytes. */
  predicate Holds(data: Text, pos: nat, t: Text) {
    Accepts(data, pos) && data[pos..NextOf(data, pos)] == t
  }

  /** The bytes of the i-th table of the walk are the i-th table. */
  lemma {:induction false} VisitedIsTable(data: Text, pos: nat, ts: seq<Text>, i: nat)
    requires AreTables(ts) && pos <= |data| && LaidOut(data, pos, ts) && i < |Offsets(ts, pos)|
    ensures i < |ts| && ts[i][0] != END_OF_TABLE && Holds(data, Offsets(ts, pos)[i], ts[i])
    decreases |ts|
  {
    TableIsAccepted(data, pos, ts[0]);
    if i == 0 {
    } else {
      VisitedIsTable(data, pos + |ts[0]|, ts[1..], i - 1);
    }
  }

  /** Behind the tables there is nothing, or an end marker comes before it. */
  ghost predicate Ends(ts: seq<Text>, rest: Text)
    requires AreTables(ts)
  {
    rest == [] || exists i :: 0 <= i < |ts| && ts[i][0] == END_OF_TABLE
  }

  lemma {:induction false} JoinedIsLaidOut(data: Text, pos: nat, ts: seq<Text>, rest: Text)
    requires AreTables(ts) && Ends(ts, rest) && pos <= |data| && data[pos..] == Joined(ts) + rest
    ensures LaidOut(data, pos, ts)
    decreases |ts|
  {
    if ts == [] {
      assert |data[pos..]| == 0;
    } else {
      FirstJoined(data, pos, ts[0], Joined(ts[1..]), rest);
      if ts[0][0] != END_OF_TABLE {
        EndsLater(ts, rest);
        JoinedIsLaidOut(data, pos + |ts[0]|, ts[1..], rest);
      }
    }
  }

  lemma {:induction false} FirstJoined(data: Text, pos: nat, t: Text, more: Text, rest: Text)
    requires pos <= |data| && data[pos..] == t + more + rest
    ensures LiesAt(data, pos, t) && data[pos + |t|..] == more + rest
  {
    assert t + more + rest == t + (more + rest);
    assert data[pos..pos + |t|] == data[pos..][..|t|];
    assert data[pos + |t|..] == data[pos..][|t|..];
  }

  lemma {:induction false} EndsLater(ts: seq<Text>, rest: Text)
    requires AreTables(ts) && Ends(ts, rest) && ts != [] && ts[0][0] != END_OF_TABLE
    ensures Ends(ts[1..], rest)
  {
    if rest != [] {
      var i :| 0 <= i < |ts| && ts[i][0] == END_OF_TABLE;
      assert ts[1..][i - 1] == ts[i];
    }
  }

  /** The length field, lowest byte first. */
  function LengthField(n: nat): Text
    requires n < 0x1_0000_0000
  {
    [n % 0x100, n / 0x100 % 0x100, n / 0x1_0000 % 0x100, n / 0x100_0000]
  }

  lemma {:induction false} LengthFieldReads(n: nat)
    requires n < 0x1_0000_0000
    ensures LittleEndian(LengthField(n)) == n
  {
    FourDigits(n);
    LittleEndianIs(LengthField(n));
  }

  lemma {:induction false} FourDigits(n: nat)
    ensures n == n % 0x100 + 0x100 * (n / 0x100 % 0x100) + 0x1_0000 * (n / 0x1_0000 % 0x100)
                 + 0x100_0000 * (n / 0x100_0000)
  {
    var a, b, c := n / 0x100, n / 0x1_0000, n / 0x100_0000;
    assert n == 0x100 * a + n % 0x100;
    assert a == 0x100 * b + a % 0x100;
    assert b == 0x100 * c + b % 0x100;
  }

  /** A dump: calling method, versions and revision in `head`, then the declared length and the data. */
  function Dump(head: Text, n: nat, data: Text): Text
    requires n < 0x1_0000_0000
  {
    head + LengthField(n) + data
  }

  /** The data as far as it is declared. */
  function Declared(n: nat, data: Text): Text {
    data[..Min(n, |data|)]
  }

  /** The table data of every dump: what is declared and there, or nothing for a dump that is too long or too short. */
  lemma {:induction false} TableDataMeans(head: Text, n: nat, data: Text)
    requires |head| == 4 && n < 0x1_0000_0000
    ensures TableData(Dump(head, n, data)) == if |data| <= 64000 then Declared(n, data) else []
  {
    var dump := Dump(head, n, data);
    assert dump[4..8] == LengthField(n) && dump[8..] == data;
    LengthFieldReads(n);
    assert dump[8..8 + Min(n, |data|)] == Declared(n, data);
  }

  lemma {:induction false} ShortDumpHasNoTables(dump: Text)
    requires |dump| < 8
    ensures TableData(dump) == []
  {
  }

  // ---------------------------------------------------------------------------------------------
  // The encoder
  // ---------------------------------------------------------------------------------------------

  /** `body` is the formatted area behind the type and the length: the handle and the fields. */
  datatype Structure = Structure(kind: Byte, body: Text, strings: seq<Text>)

  predicate IsString(s: Text) {
    s != [] && 0 !in s
  }

  predicate WellFormed(s: Structure) {
    2 <= |s.body| <= 0xFD && forall i :: 0 <= i < |s.strings| ==> IsString(s.strings[i])
  }

  function Terminated(strings: seq<Text>): Text {
    if strings == [] then [] else strings[0] + [0] + Terminated(strings[1..])
  }

  /** The string area: the terminated strings and a null, or two nulls when there are none. */
  function Area(strings: seq<Text>): Text {
    if strings == [] then [0, 0] else Terminated(strings) + [0]
  }

  function Formatted(s: Structure): Text
    requires WellFormed(s)
  {
    [s.kind, |s.body| + 2] + s.body
  }

  function Encode(s: Structure): Text
    requires WellFormed(s)
  {
    Formatted(s) + Area(s.strings)
  }

  ghost predicate AllWellFormed(ss: seq<Structure>) {
    forall i :: 0 <= i < |ss| ==> WellFormed(ss[i])
  }

  function EncodeAll(ss: seq<Structure>): (es: seq<Text>)
    requires AllWellFormed(ss)
    ensures |es| == |ss| && forall i :: 0 <= i < |ss| ==> es[i] == Encode(ss[i])
  {
    seq(|ss|, i requires 0 <= i < |ss| => Encode(ss[i]))
  }

  /** Bytes that are not null are skipped one by one. */
  lemma {:induction false} ScanSkips(data: Text, p: nat, q: nat)
    requires p <= q < |data| && forall i :: p <= i < q ==> data[i] != 0
    ensures DoubleNull(data, p) == DoubleNull(data, q)
    decreases q - p
  {
    if p == q {
    } else {
      ScanSkips(data, p + 1, q);
    }
  }

  lemma {:induction false} ScanString(data: Text, p: nat, s: Text)
    requires p + |s| < |data| && 0 !in s && data[p..p + |s|] == s
    ensures DoubleNull(data, p) == DoubleNull(data, p + |s|)
  {
    forall i | p <= i < p + |s| ensures data[i] != 0 {
      assert data[i] == data[p..p + |s|][i - p];
    }
    ScanSkips(data, p, p + |s|);
  }

  lemma {:induction false} Segments(data: Text, p: nat, a: Text, b: Text)
    requires p + |a + b| <= |data| && data[p..p + |a + b|] == a + b
    ensures data[p..p + |a|] == a && data[p + |a|..p + |a| + |b|] == b
  {
    assert data[p..p + |a|] == data[p..p + |a + b|][..|a|];
    assert data[p + |a|..p + |a| + |b|] == data[p..p + |a + b|][|a|..];
  }

  lemma {:induction false} FirstByte(data: Text, p: nat, t: Text)
    requires t != [] && p + |t| <= |data| && data[p..p + |t|] == t
    ensures data[p] == t[0]
  {
  }

  /** The scan over one string and its null: it goes on unless another null follows. */
  lemma {:induction false} ScanOne(data: Text, p: nat, s: Text)
    requires p + |s| + 1 < |data| && 0 !in s && data[p..p + |s|] == s && data[p + |s|] == 0
    ensures DoubleNull(data, p) == if data[p + |s| + 1] == 0 then p + |s| else DoubleNull(data, p + |s| + 1)
  {
    ScanString(data, p, s);
  }

  /** From p on there are the strings, each with its null, and one more null. */
  ghost predicate EndsStrings(data: Text, p: nat, strings: seq<Text>)
    decreases |strings|
  {
    if strings == [] then p < |data| && data[p] == 0
    else
      var z := p + |strings[0]|;
      IsString(strings[0]) && LiesAt(data, p, strings[0]) && z < |data| && data[z] == 0
      && EndsStrings(data, z + 1, strings[1..])
  }

  lemma {:induction false} TerminatedEnds(data: Text, p: nat, strings: seq<Text>)
    requires forall i :: 0 <= i < |strings| ==> IsString(strings[i])
    requires LiesAt(data, p, Terminated(strings) + [0])
    ensures EndsStrings(data, p, strings)
    decreases |strings|
  {
    if strings == [] {
      FirstByte(data, p, [0]);
    } else {
      var s, rest := strings[0], Terminated(strings[1..]) + [0];
      assert Terminated(strings) + [0] == s + ([0] + rest);
      StringThenRest(data, p, s, rest);
      TerminatedEnds(data, p + |s| + 1, strings[1..]);
    }
  }

  lemma {:induction false} StringThenRest(data: Text, p: nat, s: Text, rest: Text)
    requires LiesAt(data, p, s + ([0] + rest))
    ensures LiesAt(data, p, s) && p + |s| < |data| && data[p + |s|] == 0 && LiesAt(data, p + |s| + 1, rest)
  {
    Segments(data, p, s, [0] + rest);
    Segments(data, p + |s|, [0], rest);
    FirstByte(data, p + |s|, [0]);
  }

  lemma {:induction false} AfterString(data: Text, p: nat, strings: seq<Text>)
    requires EndsStrings(data, p, strings)
    ensures p < |data| && (data[p] == 0 <==> strings == [])
  {
    if strings != [] {
      FirstByte(data, p, strings[0]);
    }
  }

  /** The scan over terminated strings and the last null stops at their end. */
  lemma {:induction false} ScanStrings(data: Text, p: nat, strings: seq<Text>)
    requires strings != [] && EndsStrings(data, p, strings)
    ensures DoubleNull(data, p) == p + |Terminated(strings)| - 1
    decreases |strings|
  {
    ScanFirst(data, p, strings);
    var next := p + |strings[0]| + 1;
    assert |Terminated(strings)| == |strings[0]| + 1 + |Terminated(strings[1..])|;
    if |strings| == 1 {
    } else {
      ScanStrings(data, next, strings[1..]);
    }
  }

  lemma {:induction false} ScanFirst(data: Text, p: nat, strings: seq<Text>)
    requires strings != [] && EndsStrings(data, p, strings)
    ensures var z := p + |strings[0]|;
      z < |data| && EndsStrings(data, z + 1, strings[1..])
      && DoubleNull(data, p) == if |strings| == 1 then z else DoubleNull(data, z + 1)
  {
    AfterString(data, p + |strings[0]| + 1, strings[1..]);
    ScanOne(data, p, strings[0]);
  }

  lemma {:induction false} ScanArea(data: Text, p: nat, strings: seq<Text>)
    requires forall i :: 0 <= i < |strings| ==> IsString(strings[i])
    requires LiesAt(data, p, Area(strings))
    ensures DoubleNull(data, p) == p + |Area(strings)| - 2
  {
    if strings == [] {
      assert data[p] == data[p..p + 2][0] && data[p + 1] == data[p..p + 2][1];
    } else {
      TerminatedEnds(data, p, strings);
      ScanStrings(data, p, strings);
    }
  }

  lemma {:induction false} FirstTwo(data: Text, p: nat, t: Text)
    requires |t| >= 2 && p + |t| <= |data| && data[p..p + |t|] == t
    ensures data[p] == t[0] && data[p + 1] == t[1]
  {
    assert data[p + 1] == data[p..p + |t|][1];
  }

  /** An encoded structure is a table. */
  lemma {:induction false} EncodedIsTable(s: Structure, e: Text)
    requires WellFormed(s) && e == Encode(s)
    ensures IsTable(e) && e[0] == s.kind && e[1] == |s.body| + 2
  {
    EncodedParts(s, e);
    forall i | e[1] <= i < |e| - 2 ensures !NullsAt(e, i) {
      DoubleNullIsFirst(e, e[1], i);
    }
  }

  /** The header, the length and the end of the strings. */
  lemma {:induction false} EncodedParts(s: Structure, e: Text)
    requires WellFormed(s) && e == Encode(s)
    ensures HEADER_SIZE + 2 <= |e| && e[0] == s.kind && e[1] == |s.body| + 2 <= |e| - 2
    ensures LiesAt(e, e[1], Area(s.strings)) && DoubleNull(e, e[1]) == |e| - 2
  {
    BehindHead(Formatted(s), Area(s.strings), e);
    ScanArea(e, e[1], s.strings);
  }

  lemma {:induction false} BehindHead(head: Text, area: Text, e: Text)
    requires HEADER_SIZE <= |head| == head[1] && e == head + area
    ensures e[0] == head[0] && e[1] == |head| && LiesAt(e, |head|, area)
  {
  }

  lemma {:induction false} AllAreTables(ss: seq<Structure>)
    requires AllWellFormed(ss)
    ensures AreTables(EncodeAll(ss))
  {
    forall i | 0 <= i < |ss| ensures IsTable(EncodeAll(ss)[i]) {
      EncodedIsTable(ss[i], EncodeAll(ss)[i]);
    }
  }

  /** A dump that declares encoded structures; behind them nothing, or an end marker and then anything. */
  ghost predicate Dumped(head: Text, n: nat, data: Text, ss: seq<Structure>, rest: Text) {
    && |head| == 4 && n < 0x1_0000_0000 && |data| <= 64000
    && AllWellFormed(ss) && Declared(n, data) == Joined(EncodeAll(ss)) + rest
    && (rest == [] || exists i :: 0 <= i < |ss| && ss[i].kind == 127)
  }

  lemma {:induction false} DumpIsLaidOut(head: Text, n: nat, data: Text, ss: seq<Structure>, rest: Text)
    requires Dumped(head, n, data, ss, rest)
    ensures TableData(Dump(head, n, data)) == Declared(n, data)
    ensures AreTables(EncodeAll(ss)) && LaidOut(Declared(n, data), 0, EncodeAll(ss))
  {
    TableDataMeans(head, n, data);
    EncodedIsLaidOut(Declared(n, data), ss, rest);
  }

  lemma {:induction false} EncodedIsLaidOut(data: Text, ss: seq<Structure>, rest: Text)
    requires AllWellFormed(ss) && data == Joined(EncodeAll(ss)) + rest
    requires rest == [] || exists i :: 0 <= i < |ss| && ss[i].kind == 127
    ensures AreTables(EncodeAll(ss)) && LaidOut(data, 0, EncodeAll(ss))
  {
    AllAreTables(ss);
    assert data[0..] == data;
    assert Ends(EncodeAll(ss), rest) by {
      if i :| 0 <= i < |ss| && ss[i].kind == 127 {
        EncodedIsTable(ss[i], EncodeAll(ss)[i]);
      }
    }
    JoinedIsLaidOut(data, 0, EncodeAll(ss), rest);
  }

  /**
    The enumeration of a dump of encoded structures visits exactly those before the first end marker, in
    order, whatever is behind that marker.
   */
  lemma {:induction false} VisitsWhatWasEncoded(head: Text, n: nat, data: Text, ss: seq<Structure>, rest: Text)
    requires Dumped(head, n, data, ss, rest)
    ensures AreTables(EncodeAll(ss)) && Tables(TableData(Dump(head, n, data)), 0) == Offsets(EncodeAll(ss), 0)
  {
    DumpIsLaidOut(head, n, data, ss, rest);
    WalkVisitsTables(Declared(n, data), 0, EncodeAll(ss));
  }

  /** And the i-th table it visits is the i-th structure, byte for byte. */
  lemma {:induction false} VisitedIsEncoded(head: Text, n: nat, data: Text, ss: seq<Structure>, rest: Text, i: nat)
    requires Dumped(head, n, data, ss, rest) && i < |Tables(TableData(Dump(head, n, data)), 0)|
    ensures i < |ss| && ss[i].kind != 127
    ensures Holds(Declared(n, data), Tables(TableData(Dump(head, n, data)), 0)[i], Encode(ss[i]))
  {
    DumpIsLaidOut(head, n, data, ss, rest);
    WalkVisitsTables(Declared(n, data), 0, EncodeAll(ss));
    VisitedIsTable(Declared(n, data), 0, EncodeAll(ss), i);
    EncodedIsTable(ss[i], EncodeAll(ss)[i]);
  }

  // ---------------------------------------------------------------------------------------------
  // The enumerator
  // ---------------------------------------------------------------------------------------------

  class SmbiosTableEnumerator {
    const data: Text
    var pos: nat
    var next: nat

    /** The table at pos is exposed only if it is there as a whole. */
    ghost predicate Valid()
      reads this
    {
      pos <= |data| && (pos < |data| ==> Accepts(data, pos) && next == NextOf(data, pos))
    }

    /** The tables that are still to come, with the one at pos. */
    ghost function Remaining(): seq<nat>
      requires pos <= |data|
      reads this
    {
      Tables(data, pos)
    }

    constructor (dump: Text)
      ensures data == TableData(dump) && Valid() && Remaining() == Tables(TableData(dump), 0)
    {
      data := TableData(dump);
      pos := 0;
      next := 0;
      new;
      Validate();
    }

    method Validate()
      requires pos <= |data|
      modifies this
      ensures Valid() && Remaining() == old(Remaining())
      ensures pos == if Accepts(data, old(pos)) then old(pos) else |data|
    {
      if pos >= |data| {
        return;
      }
      if |data| - pos < HEADER_SIZE {
        pos := |data|;
        return;
      }
      var length := data[pos + 1];
      if length < HEADER_SIZE || length > |data| - pos || data[pos] == END_OF_TABLE {
        pos := |data|;
        return;
      }
      var p := pos + length;
      while p + 1 < |data| && (data[p] != 0 || data[p + 1] != 0)
        invariant pos + length <= p <= |data| && DoubleNull(data, p) == DoubleNull(data, pos + length)
      {
        p := p + 1;
      }
      if p + 1 >= |data| {
        pos := |data|;
        return;
      }
      next := p + 2;
    }

    /** Each step goes on to the next table, strictly forward. */
    method Advance()
      requires Valid()
      modifies this
      ensures Valid()
      ensures old(pos) == |data| ==> pos == |data|
      ensures old(pos) < |data| ==> pos > old(pos) && Remaining() == old(Remaining())[1..]
    {
      if pos >= |data| {
        return;
      }
      pos := next;
      Validate();
    }

    /** The loop of every caller, which sees each table once and in order. */
    method VisitAll() returns (visited: seq<nat>)
      requires Valid()
      modifies this
      ensures visited == old(Remaining()) && pos == |data|
    {
      visited := [];
      while pos < |data|
        invariant Valid() && visited + Remaining() == old(Remaining())
        decreases |data| - pos
      {
        visited := visited + [pos];
        Advance();
      }
    }
  }
}
