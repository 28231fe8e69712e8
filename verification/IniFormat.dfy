/**
  The text format of source/base/ini_file.cc: what a line means, what a file means, and the text that
  `generate` writes.
 */
module IniFormat {
  import opened Bytes

  const NEW_LINE: Byte := 0x0A
  const CARRIAGE_RETURN: Byte := 0x0D
  const SECTION_START: Byte := 0x5B
  const SECTION_END: Byte := 0x5D
  const ASSIGN: Byte := 0x3D
  const COMMENT: Byte := 0x3B
  const ALTERNATE_COMMENT: Byte := 0x23
  const BYTE_ORDER_MARK: Text := [0xEF, 0xBB, 0xBF]

  const MAX_FILE_SIZE := 1024 * 1024
  const MAX_LINE_LENGTH := 64 * 1024

  type Values = map<Text, Text>
  type Sections = map<Text, Values>

  predicate HasValue(m: Sections, section: Text, key: Text) {
    section in m && key in m[section]
  }

  // ---------------------------------------------------------------------------------------------
  // Lines
  // ---------------------------------------------------------------------------------------------

  datatype Line = Ignored | BadHeader | Header(name: Text) | BadPair | Pair(key: Text, value: Text)

  function IndexOf(t: Text, b: Byte): (i: int)
    ensures -1 <= i < |t|
    ensures i == -1 ==> b !in t
    ensures i >= 0 ==> t[i] == b && b !in t[..i]
  {
    if t == [] then -1
    else if t[0] == b then 0
    else
      var i := IndexOf(t[1..], b);
      if i < 0 then -1 else assert t[..i + 1] == [t[0]] + t[1..][..i]; i + 1
  }

  /** The first occurrence is not behind any other. */
  lemma {:induction false} IndexOfFirst(t: Text, b: Byte, i: nat)
    requires i < |t| && t[i] == b
    ensures 0 <= IndexOf(t, b) <= i
    ensures b !in t[..i] ==> IndexOf(t, b) == i
  {
    if t[0] != b {
      IndexOfFirst(t[1..], b, i - 1);
      assert t[..i] == [t[0]] + t[1..][..i - 1];
    } else {
      assert i > 0 ==> t[..i][0] == b;
    }
  }

  /** The name in a header, or nothing. */
  function HeaderName(line: Text): Text
    requires line != [] && line[0] == SECTION_START
  {
    if line[|line| - 1] == SECTION_END then Trimmed(line[1..|line| - 1]) else []
  }

  /** The name before the first assignment, or nothing. */
  function KeyName(line: Text): Text {
    if IndexOf(line, ASSIGN) > 0 then Trimmed(line[..IndexOf(line, ASSIGN)]) else []
  }

  function Classify(raw: Text): Line {
    var line := Trimmed(raw);
    if line == [] || line[0] == COMMENT || line[0] == ALTERNATE_COMMENT then Ignored
    else if line[0] == SECTION_START then
      var name := HeaderName(line);
      if name == [] then BadHeader else Header(name)
    else
      var name := KeyName(line);
      if name == [] then BadPair else Pair(name, Trimmed(line[IndexOf(line, ASSIGN) + 1..]))
  }

  function FirstLine(t: Text): (line: Text)
    requires t != []
    ensures line != [] && line <= t
    ensures NEW_LINE !in line[..|line| - 1]
    ensures line[|line| - 1] == NEW_LINE || line == t
  {
    var i := IndexOf(t, NEW_LINE);
    if i < 0 then t else t[..i + 1]
  }

  /** The lines of a file, each with the line feed that ends it. */
  function Lines(t: Text): seq<Text> {
    if t == [] then [] else [FirstLine(t)] + Lines(t[|FirstLine(t)|..])
  }

  function WithoutMark(line: Text): Text {
    if BYTE_ORDER_MARK <= line then line[|BYTE_ORDER_MARK|..] else line
  }

  // ---------------------------------------------------------------------------------------------
  // Reading
  // ---------------------------------------------------------------------------------------------

  /** What the parse loop carries from line to line. */
  datatype Reader = Reader(sections: Sections, section: Text, skip: bool, errors: bool)

  const START := Reader(map[], [], false, false)

  function Existing(m: Sections, section: Text): Values {
    if section in m then m[section] else map[]
  }

  function Feed(r: Reader, line: Line): Reader {
    match line
    case Ignored => r
    case BadHeader => r.(skip := true, errors := true)
    case Header(name) => r.(section := name, skip := false)
    case BadPair => if r.skip then r else r.(errors := true)
    case Pair(key, value) =>
      if r.skip then r
      else if HasValue(r.sections, r.section, key) then r.(errors := true)
      else r.(sections := r.sections[r.section := Existing(r.sections, r.section)[key := value]])
  }

  /** The parse loop: a line over the limit ends it, and the mark is looked for on the first line only. */
  function ReadLines(r: Reader, lines: seq<Text>, first: bool): Reader
    decreases |lines|
  {
    if lines == [] then r
    else if |lines[0]| > MAX_LINE_LENGTH then r.(errors := true)
    else
      var line := if first then WithoutMark(lines[0]) else lines[0];
      ReadLines(Feed(r, Classify(line)), lines[1..], false)
  }

  function ReadText(t: Text): Reader {
    ReadLines(START, Lines(t), true)
  }

  // ---------------------------------------------------------------------------------------------
  // Writing
  // ---------------------------------------------------------------------------------------------

  /** The order of QByteArray, which QMap keeps its keys in. */
  predicate AtMost(a: Text, b: Text) {
    a == [] || (b != [] && (a[0] < b[0] || (a[0] == b[0] && AtMost(a[1..], b[1..]))))
  }

  lemma {:induction false} AtMostTotal(a: Text, b: Text)
    ensures AtMost(a, b) || AtMost(b, a)
    ensures AtMost(a, b) && AtMost(b, a) ==> a == b
  {
    if a == [] || b == [] {
    } else {
      AtMostTotal(a[1..], b[1..]);
      assert a == [a[0]] + a[1..] && b == [b[0]] + b[1..];
    }
  }

  lemma {:induction false} AtMostTransitive(a: Text, b: Text, c: Text)
    requires AtMost(a, b) && AtMost(b, c)
    ensures AtMost(a, c)
  {
    if a == [] {
    } else {
      if a[0] == b[0] == c[0] {
        AtMostTransitive(a[1..], b[1..], c[1..]);
      }
    }
  }

  predicate IsLeast(x: Text, keys: set<Text>) {
    x in keys && forall y :: y in keys ==> AtMost(x, y)
  }

  lemma {:induction false} LeastExists(keys: set<Text>)
    requires keys != {}
    ensures exists x :: IsLeast(x, keys)
  {
    var k :| k in keys;
    var rest := keys - {k};
    if rest == {} {
      AtMostTotal(k, k);
      assert keys == {k};
      assert IsLeast(k, keys);
    } else {
      LeastExists(rest);
      var x :| IsLeast(x, rest);
      AtMostTotal(k, x);
      if AtMost(x, k) {
        assert IsLeast(x, keys);
      } else {
        AtMostTotal(k, k);
        forall y | y in keys ensures AtMost(k, y) {
          if y != k { AtMostTransitive(k, x, y); }
        }
        assert IsLeast(k, keys);
      }
    }
  }

  function Least(keys: set<Text>): (x: Text)
    requires keys != {}
    ensures IsLeast(x, keys)
  {
    LeastExists(keys);
    assert forall x, y | IsLeast(x, keys) && IsLeast(y, keys) :: x == y by {
      forall x, y | IsLeast(x, keys) && IsLeast(y, keys) ensures x == y { AtMostTotal(x, y); }
    }
    var x :| x in keys && IsLeast(x, keys);
    x
  }

  /** The iteration order of a QMap. */
  function SortedKeys(keys: set<Text>): (s: seq<Text>)
    ensures forall k :: k in s <==> k in keys
  {
    if keys == {} then [] else [Least(keys)] + SortedKeys(keys - {Least(keys)})
  }

  lemma {:induction false} SortedKeysAscend(keys: set<Text>)
    ensures var s := SortedKeys(keys);
      forall i, j :: 0 <= i < j < |s| ==> AtMost(s[i], s[j]) && s[i] != s[j]
    ensures keys != {} ==> SortedKeys(keys) != [] && SortedKeys(keys)[0] == Least(keys)
  {
    if keys == {} {
    } else {
      SortedKeysAscend(keys - {Least(keys)});
    }
  }

  function HeaderLine(name: Text): Text {
    [SECTION_START] + name + [SECTION_END] + [NEW_LINE]
  }

  function PairLine(key: Text, value: Text): Text {
    key + [ASSIGN] + value + [NEW_LINE]
  }

  function PairLines(keys: seq<Text>, values: Values): seq<Text>
    requires forall k :: k in keys ==> k in values
  {
    if keys == [] then [] else [PairLine(keys[0], values[keys[0]])] + PairLines(keys[1..], values)
  }

  /** The lines one non-empty section is written as. */
  function SectionLines(name: Text, values: Values): seq<Text> {
    (if name == [] then [] else [HeaderLine(name)])
    + PairLines(SortedKeys(values.Keys), values)
    + [[NEW_LINE]]
  }

  function AllSectionLines(names: seq<Text>, m: Sections): seq<Text>
    requires forall n :: n in names ==> n in m
  {
    if names == [] then []
    else (if m[names[0]] == map[] then [] else SectionLines(names[0], m[names[0]]))
         + AllSectionLines(names[1..], m)
  }

  function GeneratedLines(m: Sections): seq<Text> {
    AllSectionLines(SortedKeys(m.Keys), m)
  }

  /** The whole file `generate` writes. */
  function Generated(m: Sections): Text {
    Joined(GeneratedLines(m))
  }

  // ---------------------------------------------------------------------------------------------
  // What every stored name and value satisfies
  // ---------------------------------------------------------------------------------------------

  predicate IsField(t: Text) {
    IsTrimmed(t) && NEW_LINE !in t
  }

  predicate IsKey(t: Text) {
    && IsField(t) && t != [] && ASSIGN !in t
    && t[0] != SECTION_START && t[0] != COMMENT && t[0] != ALTERNATE_COMMENT
  }

  ghost predicate ValidValues(values: Values) {
    forall k :: k in values ==> IsKey(k) && IsField(values[k])
  }

  ghost predicate ValidSections(m: Sections) {
    forall s :: s in m ==> IsField(s) && ValidValues(m[s])
  }

  function WithoutEmpty(m: Sections): Sections {
    map s | s in m && m[s] != map[] :: m[s]
  }
}
