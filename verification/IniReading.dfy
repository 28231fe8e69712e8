/**
  What a file says, independently of the loop that reads it: the parse loop of source/base/ini_file.cc
  agrees with this declarative reading on every text.
 */
module IniReading {
  import opened Bytes
  import opened IniFormat
  import opened IniLines

  function ItemsOf(lines: seq<Text>, first: bool): (items: seq<Line>)
    ensures |items| == |lines|
  {
    if lines == [] then []
    else [Classify(if first then WithoutMark(lines[0]) else lines[0])] + ItemsOf(lines[1..], false)
  }

  ghost predicate AllFit(lines: seq<Text>) {
    forall i :: 0 <= i < |lines| ==> |lines[i]| <= 0x1_0000
  }

  function FeedAll(r: Reader, items: seq<Line>): Reader {
    if items == [] then r else Feed(FeedAll(r, items[..|items| - 1]), items[|items| - 1])
  }

  lemma {:induction false} FeedAllConcat(r: Reader, a: seq<Line>, b: seq<Line>)
    ensures FeedAll(r, a + b) == FeedAll(FeedAll(r, a), b)
  {
    if b == [] {
      assert a + b == a;
    } else {
      assert (a + b)[..|a + b| - 1] == a + b[..|b| - 1];
      FeedAllConcat(r, a, b[..|b| - 1]);
    }
  }

  lemma {:induction false} FeedAllCons(r: Reader, x: Line, rest: seq<Line>)
    ensures FeedAll(r, [x] + rest) == FeedAll(Feed(r, x), rest)
  {
    FeedAllConcat(r, [x], rest);
    assert [x][..0] == [];
  }

  lemma {:induction false} ReadLinesFeedsAll(r: Reader, lines: seq<Text>, first: bool)
    requires AllFit(lines)
    ensures ReadLines(r, lines, first) == FeedAll(r, ItemsOf(lines, first))
    decreases |lines|
  {
    if lines == [] {
    } else {
      var x := Classify(if first then WithoutMark(lines[0]) else lines[0]);
      ReadLinesFeedsAll(Feed(r, x), lines[1..], false);
      FeedAllCons(r, x, ItemsOf(lines[1..], false));
    }
  }

  lemma {:induction false} ErrorsStick(r: Reader, lines: seq<Text>, first: bool)
    requires r.errors || !AllFit(lines)
    ensures ReadLines(r, lines, first).errors
    decreases |lines|
  {
    if lines == [] || |lines[0]| > MAX_LINE_LENGTH {
    } else {
      var line := if first then WithoutMark(lines[0]) else lines[0];
      assert !AllFit(lines) ==> !AllFit(lines[1..]) by {
        if AllFit(lines[1..]) {
          assert forall i :: 0 < i < |lines| ==> lines[i] == lines[1..][i - 1];
        }
      }
      ErrorsStick(Feed(r, Classify(line)), lines[1..], false);
    }
  }

  // ---------------------------------------------------------------------------------------------
  // The declarative reading
  // ---------------------------------------------------------------------------------------------

  /** The name of the most recent header before item i. */
  function SectionAt(items: seq<Line>, i: nat): Text
    requires i <= |items|
  {
    if i == 0 then [] else if items[i - 1].Header? then items[i - 1].name else SectionAt(items, i - 1)
  }

  ghost predicate Says(items: seq<Line>, i: int, section: Text, key: Text, value: Text) {
    0 <= i < |items| && items[i] == Pair(key, value) && SectionAt(items, i) == section
  }

  ghost predicate Repeats(items: seq<Line>, i: int, j: int) {
    0 <= i < j < |items| && items[i].Pair? && items[j].Pair? && items[i].key == items[j].key
    && SectionAt(items, i) == SectionAt(items, j)
  }

  /** Every item is blank, a comment, a good header or a pair, and no section has a key twice. */
  ghost predicate Good(items: seq<Line>) {
    && (forall i :: 0 <= i < |items| ==> !items[i].BadHeader? && !items[i].BadPair?)
    && (forall i, j :: !Repeats(items, i, j))
  }

  ghost predicate Holds(m: Sections, section: Text, key: Text, value: Text) {
    HasValue(m, section, key) && m[section][key] == value
  }

  /** m holds the pairs of the items, each under its most recent header, and nothing else. */
  ghost predicate Stores(m: Sections, items: seq<Line>) {
    && (forall s :: s in m ==> m[s] != map[])
    && (forall s, k, v :: Holds(m, s, k, v) ==> exists i :: Says(items, i, s, k, v))
    && (forall i, s, k, v :: Says(items, i, s, k, v) ==> Holds(m, s, k, v))
  }

  lemma {:induction false} SectionAtPrefix(items: seq<Line>, n: nat, i: nat)
    requires i <= n <= |items|
    ensures SectionAt(items[..n], i) == SectionAt(items, i)
  {
    if i == 0 {
    } else {
      SectionAtPrefix(items, n, i - 1);
    }
  }

  lemma {:induction false} PrefixFacts(items: seq<Line>, n: nat)
    requires n + 1 == |items|
    ensures forall i, s, k, v :: Says(items[..n], i, s, k, v) <==> i < n && Says(items, i, s, k, v)
    ensures forall i, j :: Repeats(items[..n], i, j) <==> j < n && Repeats(items, i, j)
  {
    forall i: nat | i <= n ensures SectionAt(items[..n], i) == SectionAt(items, i) {
      SectionAtPrefix(items, n, i);
    }
  }

  lemma {:induction false} FeedingMeans(items: seq<Line>)
    ensures var r := FeedAll(START, items);
      && (r.errors <==> !Good(items))
      && (!r.errors ==> !r.skip && r.section == SectionAt(items, |items|) && Stores(r.sections, items))
  {
    if items == [] {
    } else {
      var n := |items| - 1;
      var p := FeedAll(START, items[..n]);
      FeedingMeans(items[..n]);
      SectionAtPrefix(items, n, n);
      PrefixFacts(items, n);
      if Good(items[..n]) {
        LastItemMeans(items, p);
      } else {
        BadPrefix(items, n);
      }
    }
  }

  lemma {:induction false} BadPrefix(items: seq<Line>, n: nat)
    requires n + 1 == |items| && !Good(items[..n])
    ensures !Good(items)
  {
    PrefixFacts(items, n);
    if forall i :: 0 <= i < n ==> !items[..n][i].BadHeader? && !items[..n][i].BadPair? {
      var i, j :| Repeats(items[..n], i, j);
      assert Repeats(items, i, j);
    } else {
      var i :| 0 <= i < n && (items[..n][i].BadHeader? || items[..n][i].BadPair?);
      assert items[i] == items[..n][i];
    }
  }

  /** One more item after a good prefix. */
  lemma {:induction false} LastItemMeans(items: seq<Line>, p: Reader)
    requires items != []
    requires Good(items[..|items| - 1]) && Stores(p.sections, items[..|items| - 1])
    requires !p.errors && !p.skip && p.section == SectionAt(items, |items| - 1)
    ensures var r := Feed(p, items[|items| - 1]);
      && (r.errors <==> !Good(items))
      && (!r.errors ==> !r.skip && r.section == SectionAt(items, |items|) && Stores(r.sections, items))
  {
    var n := |items| - 1;
    var x := items[n];
    PrefixFacts(items, n);
    assert forall i :: 0 <= i < n ==> items[i] == items[..n][i];
    if x.Pair? {
      LastPairMeans(items, p);
    } else {
      assert forall i, s, k, v :: Says(items, i, s, k, v) <==> Says(items[..n], i, s, k, v);
      assert forall i, j :: Repeats(items, i, j) <==> Repeats(items[..n], i, j);
    }
  }

  lemma {:induction false} LastPairMeans(items: seq<Line>, p: Reader)
    requires items != [] && items[|items| - 1].Pair?
    requires Good(items[..|items| - 1]) && Stores(p.sections, items[..|items| - 1])
    requires !p.errors && !p.skip && p.section == SectionAt(items, |items| - 1)
    ensures var r := Feed(p, items[|items| - 1]);
      && (r.errors <==> !Good(items))
      && (!r.errors ==> Stores(r.sections, items))
  {
    var n := |items| - 1;
    var key := items[n].key;
    PrefixFacts(items, n);
    assert forall i :: 0 <= i < n ==> items[i] == items[..n][i];
    forall i, j | Repeats(items, i, j) ensures HasValue(p.sections, p.section, key) {
      assert !Repeats(items[..n], i, j);
      assert Says(items[..n], i, p.section, key, items[i].value);
    }
    if HasValue(p.sections, p.section, key) {
      assert Holds(p.sections, p.section, key, p.sections[p.section][key]);
      var i :| Says(items[..n], i, p.section, key, p.sections[p.section][key]);
      assert Repeats(items, i, n);
    } else {
      FreshPairStores(items, p);
    }
  }

  lemma {:induction false} FreshPairStores(items: seq<Line>, p: Reader)
    requires items != [] && items[|items| - 1].Pair? && Stores(p.sections, items[..|items| - 1])
    requires !p.skip && p.section == SectionAt(items, |items| - 1)
    requires !HasValue(p.sections, p.section, items[|items| - 1].key)
    ensures Stores(Feed(p, items[|items| - 1]).sections, items)
  {
    var n := |items| - 1;
    var Pair(key, value) := items[n];
    var r := Feed(p, items[n]);
    PrefixFacts(items, n);
    assert key in r.sections[p.section];
    forall s, k, v | Holds(r.sections, s, k, v) ensures exists i :: Says(items, i, s, k, v) {
      if s == p.section && k == key {
        assert Says(items, n, s, k, v);
      } else {
        assert Holds(p.sections, s, k, v);
        var i :| Says(items[..n], i, s, k, v);
        assert Says(items, i, s, k, v);
      }
    }
    forall i, s, k, v | Says(items, i, s, k, v) ensures Holds(r.sections, s, k, v) {
      if i < n {
        assert Says(items[..n], i, s, k, v);
        assert Holds(p.sections, s, k, v);
      }
    }
  }

  lemma {:induction false} ReadTextFeeds(t: Text)
    ensures var items := ItemsOf(Lines(t), true);
      && (ReadText(t).errors <==> !(AllFit(Lines(t)) && Good(items)))
      && (!ReadText(t).errors ==> Stores(ReadText(t).sections, items))
  {
    if AllFit(Lines(t)) {
      ReadLinesFeedsAll(START, Lines(t), true);
      FeedingMeans(ItemsOf(Lines(t), true));
    } else {
      ErrorsStick(START, Lines(t), true);
    }
  }

  /** A first line without the byte order mark it may start with. */
  ghost predicate Unmarked(raw: Text, line: Text) {
    raw == [0xEF, 0xBB, 0xBF] + line || (raw == line && !([0xEF, 0xBB, 0xBF] <= raw))
  }

  ghost predicate ReadsLine(raw: Text, first: bool, item: Line) {
    exists line :: (if first then Unmarked(raw, line) else raw == line) && Means(line, item)
  }

  /** The items are what the lines mean, byte for byte. */
  ghost predicate Reads(lines: seq<Text>, first: bool, items: seq<Line>)
    decreases |lines|
  {
    if lines == [] then items == []
    else items != [] && ReadsLine(lines[0], first, items[0]) && Reads(lines[1..], false, items[1..])
  }

  lemma {:induction false} OneReading(raw: Text, first: bool, item: Line)
    ensures ReadsLine(raw, first, item) <==> item == Classify(if first then WithoutMark(raw) else raw)
  {
    var line := if first then WithoutMark(raw) else raw;
    assert first ==> Unmarked(raw, line);
    ClassifiedMeans(line);
    if ReadsLine(raw, first, item) {
      var other :| (if first then Unmarked(raw, other) else raw == other) && Means(other, item);
      assert other == line;
      MeaningIsUnique(other, item);
    }
  }

  /** Every text has a reading, and only one. */
  lemma {:induction false} OneReadingOfAll(lines: seq<Text>, first: bool, items: seq<Line>)
    ensures Reads(lines, first, items) <==> items == ItemsOf(lines, first)
    decreases |lines|
  {
    if lines == [] || items == [] {
    } else {
      OneReading(lines[0], first, items[0]);
      OneReadingOfAll(lines[1..], false, items[1..]);
      assert items == [items[0]] + items[1..];
      assert ItemsOf(lines, first)[1..] == ItemsOf(lines[1..], false);
    }
  }

  /** Cutting a text into lines loses nothing. */
  lemma {:induction false} LinesJoin(t: Text)
    ensures Joined(Lines(t)) == t
    decreases |t|
  {
    if t == [] {
    } else {
      var line, more := FirstLine(t), t[|FirstLine(t)|..];
      LinesJoin(more);
      assert Lines(t)[1..] == Lines(more) && t == line + more;
    }
  }

  /** It is cut behind every line feed and nowhere else. */
  lemma {:induction false} LineIsCut(t: Text, i: nat)
    requires i < |Lines(t)|
    ensures var line := Lines(t)[i];
      line != [] && 0x0A !in line[..|line| - 1] && (i + 1 < |Lines(t)| ==> line[|line| - 1] == 0x0A)
    decreases |t|
  {
    var more := t[|FirstLine(t)|..];
    assert Lines(t) == [FirstLine(t)] + Lines(more);
    if i == 0 {
    } else {
      LineIsCut(more, i - 1);
    }
  }

  /**
    Whatever the lines of a text mean by their bytes: the parse loop reports no error exactly when every line fits
    the limit and is blank, a comment, a good header or a pair, and no section has a key twice; then it stores each
    pair under its most recent header and nothing else.
   */
  lemma {:induction false} ReadTextMeans(t: Text, items: seq<Line>)
    requires Reads(Lines(t), true, items)
    ensures ReadText(t).errors <==> !(AllFit(Lines(t)) && Good(items))
    ensures !ReadText(t).errors ==> Stores(ReadText(t).sections, items)
  {
    OneReadingOfAll(Lines(t), true, items);
    ReadTextFeeds(t);
  }

  // ---------------------------------------------------------------------------------------------
  // What is read is valid
  // ---------------------------------------------------------------------------------------------

  ghost predicate IsLine(t: Text) {
    t == [] || NEW_LINE !in t[..|t| - 1]
  }

  lemma {:induction false} TrimmedLineHasNoFeed(t: Text)
    requires IsLine(t)
    ensures NEW_LINE !in Trimmed(t)
  {
    var pre, post := TrimmedSplit(t);
    var core := Trimmed(t);
    forall i | 0 <= i < |core| ensures core[i] != NEW_LINE {
      assert |pre| + i < |t| - 1 ==> t[..|t| - 1][|pre| + i] == core[i];
    }
  }

  /** The names and values of a line satisfy what the setter demands, short of carriage returns. */
  lemma {:induction false} ClassifyIsValid(t: Text)
    requires IsLine(t)
    ensures Classify(t).Header? ==> IsField(Classify(t).name) && Classify(t).name != []
    ensures Classify(t).Pair? ==> IsKey(Classify(t).key) && IsField(Classify(t).value)
  {
    var line := Trimmed(t);
    TrimmedLineHasNoFeed(t);
    TrimmedFixpoint(t);
    match Classify(t)
    case Header(name) =>
      TrimmedFixpoint(line[1..|line| - 1]);
      TrimmedBytes(line[1..|line| - 1], NEW_LINE);
    case Pair(key, value) =>
      var position := IndexOf(line, ASSIGN);
      TrimmedFixpoint(line[..position]);
      TrimmedFixpoint(line[position + 1..]);
      TrimmedBytes(line[..position], NEW_LINE);
      TrimmedBytes(line[..position], ASSIGN);
      TrimmedBytes(line[position + 1..], NEW_LINE);
      var pre, post := TrimmedSplit(line[..position]);
      assert line[..position][0] == (pre + key + post)[0];
    case _ =>
  }

  lemma {:induction false} LinesAreLines(t: Text)
    ensures forall i :: 0 <= i < |Lines(t)| ==> IsLine(Lines(t)[i])
  {
    if t == [] {
    } else {
      LinesAreLines(t[|FirstLine(t)|..]);
    }
  }

  lemma {:induction false} FeedIsValid(r: Reader, t: Text)
    requires IsLine(t) && ValidSections(r.sections) && IsField(r.section)
    ensures ValidSections(Feed(r, Classify(t)).sections) && IsField(Feed(r, Classify(t)).section)
  {
    ClassifyIsValid(t);
  }

  lemma {:induction false} ReadLinesIsValid(r: Reader, lines: seq<Text>, first: bool)
    requires forall i :: 0 <= i < |lines| ==> IsLine(lines[i])
    requires ValidSections(r.sections) && IsField(r.section)
    ensures ValidSections(ReadLines(r, lines, first).sections)
    decreases |lines|
  {
    if lines == [] || |lines[0]| > MAX_LINE_LENGTH {
    } else {
      var line := if first then WithoutMark(lines[0]) else lines[0];
      assert IsLine(line) by {
        if line != [] {
          assert lines[0][..|lines[0]| - 1] == lines[0][..|lines[0]| - |line|] + line[..|line| - 1];
        }
      }
      FeedIsValid(r, line);
      ReadLinesIsValid(Feed(r, Classify(line)), lines[1..], false);
    }
  }

  lemma {:induction false} ReadTextIsValid(t: Text)
    ensures ValidSections(ReadText(t).sections)
  {
    LinesAreLines(t);
    ReadLinesIsValid(START, Lines(t), true);
  }
}
