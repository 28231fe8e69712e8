/** Writing settings and reading them back (source/base/ini_file.cc, `generate` then `parse`). */
module IniRoundTrip {
  import opened Common
  import opened Bytes
  import opened IniFormat
  import opened IniReading

  /** What opening a readable file of this content gives: nothing at all when any of it is wrong. */
  function Reopened(t: Text): Option<Sections> {
    if |t| > MAX_FILE_SIZE || ReadText(t).errors then None else Some(ReadText(t).sections)
  }

  // ---------------------------------------------------------------------------------------------
  // The lines of the generated text
  // ---------------------------------------------------------------------------------------------

  ghost predicate WholeLine(t: Text) {
    t != [] && t[|t| - 1] == NEW_LINE && NEW_LINE !in t[..|t| - 1]
  }

  ghost predicate WholeLines(lines: seq<Text>) {
    forall i :: 0 <= i < |lines| ==> WholeLine(lines[i])
  }

  lemma {:induction false} FirstLineOf(line: Text, rest: Text)
    requires WholeLine(line)
    ensures FirstLine(line + rest) == line
  {
    var t := line + rest;
    assert t[..|line| - 1] == line[..|line| - 1];
    IndexOfFirst(t, NEW_LINE, |line| - 1);
  }

  /** Splitting a text into lines undoes joining them. */
  lemma {:induction false} LinesOfJoined(lines: seq<Text>)
    requires WholeLines(lines)
    ensures Lines(Joined(lines)) == lines
  {
    if lines == [] {
    } else {
      var rest := Joined(lines[1..]);
      FirstLineOf(lines[0], rest);
      LinesOfJoined(lines[1..]);
      assert (lines[0] + rest)[|lines[0]|..] == rest;
    }
  }

  lemma {:induction false} PairIsWhole(key: Text, value: Text)
    requires IsKey(key) && IsField(value)
    ensures WholeLine(PairLine(key, value))
  {
    var line := PairLine(key, value);
    assert line[..|line| - 1] == key + [ASSIGN] + value;
  }

  lemma {:induction false} HeaderIsWhole(name: Text)
    requires IsField(name)
    ensures WholeLine(HeaderLine(name))
  {
    var line := HeaderLine(name);
    assert line[..|line| - 1] == [SECTION_START] + name + [SECTION_END];
  }

  /** The first assignment of a pair is the one behind its key. */
  lemma {:induction false} PairSplits(key: Text, value: Text)
    requires ASSIGN !in key
    ensures var core := key + [ASSIGN] + value;
      IndexOf(core, ASSIGN) == |key| && core[..|key|] == key && core[|key| + 1..] == value
  {
    var core := key + [ASSIGN] + value;
    assert core[..|key|] == key && core[|key| + 1..] == value;
    IndexOfFirst(core, ASSIGN, |key|);
  }

  lemma {:induction false} PairTrims(key: Text, value: Text)
    requires IsKey(key) && IsField(value)
    ensures Trimmed(PairLine(key, value)) == key + [ASSIGN] + value
  {
    var core := key + [ASSIGN] + value;
    assert PairLine(key, value) == [] + core + [NEW_LINE];
    TrimmedIs([], core, [NEW_LINE]);
  }

  lemma {:induction false} ClassifyPair(key: Text, value: Text)
    requires IsKey(key) && IsField(value)
    ensures Classify(PairLine(key, value)) == Pair(key, value)
  {
    PairTrims(key, value);
    PairSplits(key, value);
    TrimmedFixpoint(key);
    TrimmedFixpoint(value);
  }

  lemma {:induction false} ClassifyHeader(name: Text)
    requires IsField(name) && name != []
    ensures Classify(HeaderLine(name)) == Header(name)
  {
    var core := [SECTION_START] + name + [SECTION_END];
    assert HeaderLine(name) == [] + core + [NEW_LINE];
    TrimmedIs([], core, [NEW_LINE]);
    assert core[1..|core| - 1] == name;
    TrimmedFixpoint(name);
  }

  lemma {:induction false} ClassifyBlank()
    ensures Classify([NEW_LINE]) == Ignored
  {
    TrimmedIs([NEW_LINE], [], []);
    assert [NEW_LINE] + [] + [] == [NEW_LINE];
  }

  // ---------------------------------------------------------------------------------------------
  // The generated text, item by item
  // ---------------------------------------------------------------------------------------------

  function PairItems(keys: seq<Text>, values: Values): seq<Line>
    requires forall k :: k in keys ==> k in values
  {
    if keys == [] then [] else [Pair(keys[0], values[keys[0]])] + PairItems(keys[1..], values)
  }

  function SectionItems(name: Text, values: Values): seq<Line> {
    (if name == [] then [] else [Header(name)]) + PairItems(SortedKeys(values.Keys), values) + [Ignored]
  }

  function AllSectionItems(names: seq<Text>, m: Sections): seq<Line>
    requires forall n :: n in names ==> n in m
  {
    if names == [] then []
    else (if m[names[0]] == map[] then [] else SectionItems(names[0], m[names[0]]))
         + AllSectionItems(names[1..], m)
  }

  lemma {:induction false} ItemsConcat(a: seq<Text>, b: seq<Text>)
    ensures ItemsOf(a + b, false) == ItemsOf(a, false) + ItemsOf(b, false)
  {
    if a == [] {
      assert a + b == b;
    } else {
      assert (a + b)[1..] == a[1..] + b;
      ItemsConcat(a[1..], b);
    }
  }

  lemma {:induction false} OneItem(line: Text)
    ensures ItemsOf([line], false) == [Classify(line)]
  {
    assert [line][1..] == [];
  }

  lemma {:induction false} ItemsOfPairs(keys: seq<Text>, values: Values)
    requires (forall k :: k in keys ==> k in values) && ValidValues(values)
    ensures ItemsOf(PairLines(keys, values), false) == PairItems(keys, values)
    ensures WholeLines(PairLines(keys, values))
  {
    if keys == [] {
    } else {
      ItemsOfPairs(keys[1..], values);
      ClassifyPair(keys[0], values[keys[0]]);
      PairIsWhole(keys[0], values[keys[0]]);
    }
  }

  lemma {:induction false} ItemsOfHeader(name: Text)
    requires IsField(name)
    ensures var header := if name == [] then [] else [HeaderLine(name)];
      ItemsOf(header, false) == (if name == [] then [] else [Header(name)]) && WholeLines(header)
  {
    if name != [] {
      OneItem(HeaderLine(name));
      ClassifyHeader(name);
      HeaderIsWhole(name);
    }
  }

  lemma {:induction false} ItemsOfKeys(name: Text, keys: seq<Text>, values: Values)
    requires IsField(name) && ValidValues(values) && (forall k :: k in keys ==> k in values)
    ensures var lines := (if name == [] then [] else [HeaderLine(name)]) + PairLines(keys, values) + [[NEW_LINE]];
      && ItemsOf(lines, false) == (if name == [] then [] else [Header(name)]) + PairItems(keys, values) + [Ignored]
      && WholeLines(lines)
  {
    var header := if name == [] then [] else [HeaderLine(name)];
    ItemsOfHeader(name);
    ItemsOfPairs(keys, values);
    ItemsOfThree(header, PairLines(keys, values));
  }

  lemma {:induction false} ItemsOfThree(header: seq<Text>, pairs: seq<Text>)
    requires WholeLines(header) && WholeLines(pairs)
    ensures var lines := header + pairs + [[NEW_LINE]];
      ItemsOf(lines, false) == ItemsOf(header, false) + ItemsOf(pairs, false) + [Ignored] && WholeLines(lines)
  {
    ItemsConcat(header + pairs, [[NEW_LINE]]);
    ItemsConcat(header, pairs);
    OneItem([NEW_LINE]);
    ClassifyBlank();
  }

  lemma {:induction false} ItemsOfSection(name: Text, values: Values)
    requires IsField(name) && ValidValues(values)
    ensures ItemsOf(SectionLines(name, values), false) == SectionItems(name, values)
    ensures WholeLines(SectionLines(name, values))
  {
    ItemsOfKeys(name, SortedKeys(values.Keys), values);
  }

  lemma {:induction false} ItemsOfAllSections(names: seq<Text>, m: Sections)
    requires (forall n :: n in names ==> n in m) && ValidSections(m)
    ensures ItemsOf(AllSectionLines(names, m), false) == AllSectionItems(names, m)
    ensures WholeLines(AllSectionLines(names, m))
  {
    if names == [] {
    } else {
      ItemsOfAllSections(names[1..], m);
      var first := if m[names[0]] == map[] then [] else SectionLines(names[0], m[names[0]]);
      ItemsConcat(first, AllSectionLines(names[1..], m));
      if m[names[0]] != map[] {
        ItemsOfSection(names[0], m[names[0]]);
      }
    }
  }

  // ---------------------------------------------------------------------------------------------
  // Reading those items
  // ---------------------------------------------------------------------------------------------

  ghost predicate Distinct(s: seq<Text>) {
    forall i, j :: 0 <= i < j < |s| ==> s[i] != s[j]
  }

  function Only(keys: seq<Text>, values: Values): Values
    requires forall k :: k in keys ==> k in values
  {
    map k | k in keys :: values[k]
  }

  lemma {:induction false} OnlyCons(base: Values, keys: seq<Text>, values: Values)
    requires keys != [] && (forall k :: k in keys ==> k in values)
    ensures base[keys[0] := values[keys[0]]] + Only(keys[1..], values) == base + Only(keys, values)
  {
    assert forall k :: k in keys <==> k == keys[0] || k in keys[1..];
  }

  lemma {:induction false} UpdateTwice(m: Sections, s: Text, a: Values, b: Values)
    ensures m[s := a][s := b] == m[s := b]
  {
  }

  lemma {:induction false} FeedPairs(r: Reader, keys: seq<Text>, values: Values)
    requires keys != [] && (forall k :: k in keys ==> k in values) && Distinct(keys)
    requires !r.skip && (forall k :: k in keys ==> k !in Existing(r.sections, r.section))
    ensures FeedAll(r, PairItems(keys, values)) ==
      r.(sections := r.sections[r.section := Existing(r.sections, r.section) + Only(keys, values)])
    decreases |keys|
  {
    var x := Pair(keys[0], values[keys[0]]);
    var base := Existing(r.sections, r.section);
    var grown := base[keys[0] := values[keys[0]]];
    var next := r.(sections := r.sections[r.section := grown]);
    assert keys[0] in keys;
    assert Feed(r, x) == next;
    FeedAllCons(r, x, PairItems(keys[1..], values));
    OnlyCons(base, keys, values);
    if keys[1..] == [] {
      assert grown + Only(keys[1..], values) == grown;
    } else {
      assert Existing(next.sections, next.section) == grown;
      forall k | k in keys[1..] ensures k !in grown {
        assert k in keys;
      }
      FeedPairs(next, keys[1..], values);
      UpdateTwice(r.sections, r.section, grown, grown + Only(keys[1..], values));
    }
  }

  lemma {:induction false} FeedHeader(r: Reader, name: Text)
    requires name == [] ==> r.section == [] && !r.skip
    ensures FeedAll(r, if name == [] then [] else [Header(name)]) == r.(section := name, skip := false)
  {
    assert [Header(name)][..0] == [];
  }

  lemma {:induction false} FeedPairsOfSection(r: Reader, name: Text, keys: seq<Text>, values: Values)
    requires keys != [] && (forall k :: k in keys <==> k in values) && Distinct(keys)
    requires name !in r.sections && (name == [] ==> r.section == [] && !r.skip)
    ensures FeedAll(r, (if name == [] then [] else [Header(name)]) + PairItems(keys, values) + [Ignored]) ==
      r.(sections := r.sections[name := values], section := name, skip := false)
  {
    var header := if name == [] then [] else [Header(name)];
    var started := r.(section := name, skip := false);
    var pairs := PairItems(keys, values);
    FeedHeader(r, name);
    FeedAllConcat(r, header + pairs, [Ignored]);
    FeedAllConcat(r, header, pairs);
    FeedPairs(started, keys, values);
    assert map[] + Only(keys, values) == values;
    assert FeedAll(FeedAll(started, pairs), [Ignored])
        == Feed(FeedAll(FeedAll(started, pairs), [Ignored][..0]), Ignored);
  }

  lemma {:induction false} FeedSection(r: Reader, name: Text, values: Values)
    requires values != map[] && name !in r.sections && (name == [] ==> r.section == [] && !r.skip)
    ensures FeedAll(r, SectionItems(name, values)) ==
      r.(sections := r.sections[name := values], section := name, skip := false)
  {
    assert values.Keys != {};
    SortedKeysAscend(values.Keys);
    FeedPairsOfSection(r, name, SortedKeys(values.Keys), values);
  }

  function Restricted(names: seq<Text>, m: Sections): Sections
    requires forall n :: n in names ==> n in m
  {
    map n | n in names && m[n] != map[] :: m[n]
  }

  lemma {:induction false} RestrictedCons(base: Sections, names: seq<Text>, m: Sections)
    requires names != [] && (forall n :: n in names ==> n in m) && names[0] !in names[1..]
    ensures var grown := if m[names[0]] == map[] then base else base[names[0] := m[names[0]]];
      grown + Restricted(names[1..], m) == base + Restricted(names, m)
  {
    assert forall n :: n in names <==> n == names[0] || n in names[1..];
  }

  /** The unnamed section, if it is there, comes first. */
  ghost predicate UnnamedFirst(names: seq<Text>) {
    forall i :: 0 < i < |names| ==> names[i] != []
  }

  lemma {:induction false} FeedAllSections(r: Reader, names: seq<Text>, m: Sections)
    requires (forall n :: n in names ==> n in m && n !in r.sections) && Distinct(names)
    requires UnnamedFirst(names) && (names != [] && names[0] == [] ==> r.section == [] && !r.skip)
    ensures FeedAll(r, AllSectionItems(names, m)).sections == r.sections + Restricted(names, m)
    ensures FeedAll(r, AllSectionItems(names, m)).errors == r.errors
    decreases |names|
  {
    if names == [] {
      assert r.sections + Restricted(names, m) == r.sections;
    } else {
      var name, values := names[0], m[names[0]];
      var first := if values == map[] then [] else SectionItems(name, values);
      var next := if values == map[] then r
                  else r.(sections := r.sections[name := values], section := name, skip := false);
      FeedAllConcat(r, first, AllSectionItems(names[1..], m));
      assert FeedAll(r, first) == next by {
        if values != map[] { FeedSection(r, name, values); }
      }
      FeedAllSections(next, names[1..], m);
      RestrictedCons(r.sections, names, m);
    }
  }

  lemma {:induction false} SortedNames(m: Sections)
    ensures UnnamedFirst(SortedKeys(m.Keys)) && Distinct(SortedKeys(m.Keys))
    ensures [] in m ==> SortedKeys(m.Keys)[0] == []
    ensures Restricted(SortedKeys(m.Keys), m) == WithoutEmpty(m)
  {
    SortedKeysAscend(m.Keys);
    var names := SortedKeys(m.Keys);
    assert forall i :: 0 < i < |names| ==> AtMost(names[i - 1], names[i]) && names[i - 1] != names[i];
    if [] in m {
      assert IsLeast(Least(m.Keys), m.Keys);
    }
  }

  /** The script of the items, read from the start. */
  lemma {:induction false} FeedScript(m: Sections)
    ensures var r := FeedAll(START, AllSectionItems(SortedKeys(m.Keys), m));
      r.sections == WithoutEmpty(m) && !r.errors
  {
    SortedNames(m);
    FeedAllSections(START, SortedKeys(m.Keys), m);
    assert map[] + WithoutEmpty(m) == WithoutEmpty(m);
  }

  /** The lines of the generated text are the ones it was put together from. */
  lemma {:induction false} GeneratedItems(m: Sections)
    requires ValidSections(m)
    ensures Lines(Generated(m)) == GeneratedLines(m)
    ensures ItemsOf(GeneratedLines(m), false) == AllSectionItems(SortedKeys(m.Keys), m)
  {
    ItemsOfAllSections(SortedKeys(m.Keys), m);
    LinesOfJoined(GeneratedLines(m));
  }

  // ---------------------------------------------------------------------------------------------
  // The three limits
  // ---------------------------------------------------------------------------------------------

  predicate ValuesFit(values: Values) {
    forall k :: k in values ==> |k| + |values[k]| + 2 <= MAX_LINE_LENGTH
  }

  /** Every header and pair fits the line limit with its brackets, assignment and line feed. */
  predicate LinesFit(m: Sections) {
    forall s :: s in m && m[s] != map[] ==> (s != [] ==> |s| + 3 <= MAX_LINE_LENGTH) && ValuesFit(m[s])
  }

  /** The file would start with the byte order mark, which belongs to its first key. */
  predicate MarkedFirstKey(m: Sections) {
    [] in m && m[[]] != map[] && BYTE_ORDER_MARK <= Least(m[[]].Keys)
  }

  predicate Fits(m: Sections) {
    LinesFit(m) && |Generated(m)| <= MAX_FILE_SIZE && !MarkedFirstKey(m)
  }

  lemma {:induction false} PairLinesFit(keys: seq<Text>, values: Values)
    requires forall k :: k in keys ==> k in values
    ensures AllFit(PairLines(keys, values)) <==>
      forall k :: k in keys ==> |k| + |values[k]| + 2 <= MAX_LINE_LENGTH
  {
    if keys == [] {
    } else {
      PairLinesFit(keys[1..], values);
      var lines := PairLines(keys, values);
      assert lines[1..] == PairLines(keys[1..], values);
      assert AllFit(lines) <==> |lines[0]| <= MAX_LINE_LENGTH && AllFit(lines[1..]) by { FitCons(lines); }
      assert forall k :: k in keys <==> k == keys[0] || k in keys[1..];
    }
  }

  lemma {:induction false} FitCons(lines: seq<Text>)
    requires lines != []
    ensures AllFit(lines) <==> |lines[0]| <= MAX_LINE_LENGTH && AllFit(lines[1..])
  {
    assert forall i :: 0 < i < |lines| ==> lines[i] == lines[1..][i - 1];
  }

  lemma {:induction false} FitConcat(a: seq<Text>, b: seq<Text>)
    ensures AllFit(a + b) <==> AllFit(a) && AllFit(b)
  {
    if AllFit(a + b) {
      assert forall i :: 0 <= i < |a| ==> a[i] == (a + b)[i];
      assert forall i :: 0 <= i < |b| ==> b[i] == (a + b)[|a| + i];
    }
  }

  lemma {:induction false} SectionLinesFit(name: Text, values: Values)
    ensures AllFit(SectionLines(name, values)) <==>
      (name != [] ==> |name| + 3 <= MAX_LINE_LENGTH) && ValuesFit(values)
  {
    var pairs := PairLines(SortedKeys(values.Keys), values);
    var header := if name == [] then [] else [HeaderLine(name)];
    PairLinesFit(SortedKeys(values.Keys), values);
    FitConcat(header + pairs, [[NEW_LINE]]);
    FitConcat(header, pairs);
    assert AllFit([[NEW_LINE]]);
    if name != [] {
      assert AllFit(header) <==> |header[0]| <= MAX_LINE_LENGTH;
    }
  }

  lemma {:induction false} AllSectionLinesFit(names: seq<Text>, m: Sections)
    requires forall n :: n in names ==> n in m
    ensures AllFit(AllSectionLines(names, m)) <==>
      forall s :: s in names && m[s] != map[] ==> (s != [] ==> |s| + 3 <= MAX_LINE_LENGTH) && ValuesFit(m[s])
  {
    if names == [] {
    } else {
      var first := if m[names[0]] == map[] then [] else SectionLines(names[0], m[names[0]]);
      AllSectionLinesFit(names[1..], m);
      FitConcat(first, AllSectionLines(names[1..], m));
      if m[names[0]] != map[] {
        SectionLinesFit(names[0], m[names[0]]);
      }
      assert forall n :: n in names <==> n == names[0] || n in names[1..];
    }
  }

  // ---------------------------------------------------------------------------------------------
  // The first line and the mark
  // ---------------------------------------------------------------------------------------------

  /** A pair line starts with the mark exactly when its key does. */
  lemma {:induction false} MarkOfPair(key: Text, value: Text)
    requires ASSIGN !in key
    ensures BYTE_ORDER_MARK <= PairLine(key, value) <==> BYTE_ORDER_MARK <= key
  {
    var line := PairLine(key, value);
    if |key| >= 3 {
      assert line[..3] == key[..3];
    } else {
      assert line[|key|] == ASSIGN;
    }
  }

  lemma {:induction false} FirstLineMark(names: seq<Text>, m: Sections)
    requires (forall n :: n in names ==> n in m) && ValidSections(m)
    requires [] in names ==> names[0] == []
    requires UnnamedFirst(names)
    ensures var lines := AllSectionLines(names, m);
      lines != [] && BYTE_ORDER_MARK <= lines[0] <==>
      [] in names && m[[]] != map[] && BYTE_ORDER_MARK <= Least(m[[]].Keys)
  {
    if names == [] {
    } else {
      var values := m[names[0]];
      if values == map[] {
        FirstLineMark(names[1..], m);
        assert [] in names ==> names[0] == [];
        assert forall n :: n in names[1..] ==> n != [];
      } else if names[0] == [] {
        assert values.Keys != {};
        SortedKeysAscend(values.Keys);
        var keys := SortedKeys(values.Keys);
        assert AllSectionLines(names, m)[0] == PairLine(keys[0], values[keys[0]]);
        assert IsKey(keys[0]);
        MarkOfPair(keys[0], values[keys[0]]);
      } else {
        assert AllSectionLines(names, m)[0][0] == SECTION_START;
        assert [] !in names;
      }
    }
  }

  lemma {:induction false} LinesFitMeans(m: Sections)
    ensures LinesFit(m) <==> AllFit(GeneratedLines(m))
  {
    AllSectionLinesFit(SortedKeys(m.Keys), m);
  }

  lemma {:induction false} MarkMeans(m: Sections)
    requires ValidSections(m)
    ensures MarkedFirstKey(m) <==> GeneratedLines(m) != [] && BYTE_ORDER_MARK <= GeneratedLines(m)[0]
  {
    SortedNames(m);
    FirstLineMark(SortedKeys(m.Keys), m);
  }

  lemma {:induction false} ReadTextItems(t: Text)
    requires AllFit(Lines(t))
    ensures ReadText(t) == FeedAll(START, ItemsOf(Lines(t), true))
  {
    ReadLinesFeedsAll(START, Lines(t), true);
  }

  /** Looking for the mark changes the first item at most. */
  lemma {:induction false} FirstItem(lines: seq<Text>)
    requires lines != []
    ensures ItemsOf(lines, true) == [Classify(WithoutMark(lines[0]))] + ItemsOf(lines, false)[1..]
    ensures !(BYTE_ORDER_MARK <= lines[0]) ==> ItemsOf(lines, true) == ItemsOf(lines, false)
  {
  }

  /** Within the limits, what is written is read back, without the sections that hold nothing. */
  lemma {:induction false} FittingReadsBack(m: Sections)
    requires ValidSections(m) && Fits(m)
    ensures Reopened(Generated(m)) == Some(WithoutEmpty(m))
  {
    GeneratedItems(m);
    LinesFitMeans(m);
    MarkMeans(m);
    ReadTextItems(Generated(m));
    if GeneratedLines(m) != [] {
      FirstItem(GeneratedLines(m));
    }
    FeedScript(m);
  }

  // ---------------------------------------------------------------------------------------------
  // Outside the limits
  // ---------------------------------------------------------------------------------------------

  lemma {:induction false} MarkShortensKey(key: Text, value: Text)
    requires IsKey(key) && BYTE_ORDER_MARK <= key
    ensures var x := Classify(WithoutMark(PairLine(key, value))); x.Pair? ==> |x.key| < |key|
  {
    var raw := WithoutMark(PairLine(key, value));
    MarkOfPair(key, value);
    assert raw == key[3..] + [ASSIGN] + value + [NEW_LINE];
    var x := Classify(raw);
    if x.Pair? {
      var pre, post := TrimmedSplit(raw);
      var core := Trimmed(raw);
      var q := |key| - 3 - |pre|;
      assert raw[|key| - 3] == ASSIGN && !IsSpace(ASSIGN);
      assert raw[|key| - 3] == (pre + core + post)[|key| - 3];
      var p := IndexOf(core, ASSIGN);
      IndexOfFirst(core, ASSIGN, q);
      var pre', post' := TrimmedSplit(core[..p]);
    }
  }

  lemma {:induction false} PairsKeepAbsent(r: Reader, keys: seq<Text>, values: Values, key: Text)
    requires forall k :: k in keys ==> k in values
    requires key !in keys || r.section != []
    requires !HasValue(r.sections, [], key)
    ensures var end := FeedAll(r, PairItems(keys, values));
      !HasValue(end.sections, [], key) && end.section == r.section
    decreases |keys|
  {
    if keys == [] {
    } else {
      var x := Pair(keys[0], values[keys[0]]);
      FeedAllCons(r, x, PairItems(keys[1..], values));
      PairsKeepAbsent(Feed(r, x), keys[1..], values, key);
    }
  }

  lemma {:induction false} SectionsKeepAbsent(r: Reader, names: seq<Text>, m: Sections, key: Text)
    requires (forall n :: n in names ==> n in m) && [] !in names
    requires !HasValue(r.sections, [], key)
    ensures !HasValue(FeedAll(r, AllSectionItems(names, m)).sections, [], key)
    decreases |names|
  {
    if names == [] {
    } else {
      var name, values := names[0], m[names[0]];
      var first := if values == map[] then [] else SectionItems(name, values);
      FeedAllConcat(r, first, AllSectionItems(names[1..], m));
      if values != map[] {
        var keys := SortedKeys(values.Keys);
        var started := Feed(r, Header(name));
        PairsKeepAbsent(started, keys, values, key);
        FeedAllConcat(r, [Header(name)] + PairItems(keys, values), [Ignored]);
        FeedAllCons(r, Header(name), PairItems(keys, values));
        assert [Ignored][..0] == [];
      }
      SectionsKeepAbsent(FeedAll(r, first), names[1..], m, key);
    }
  }

  /** The items behind the first pair of the unnamed section do not bring its key back. */
  lemma {:induction false} RestKeepsAbsent(r: Reader, keys: seq<Text>, names: seq<Text>, m: Sections)
    requires [] in m && keys != [] && (forall k :: k in keys ==> k in m[[]]) && keys[0] !in keys[1..]
    requires (forall n :: n in names ==> n in m) && [] !in names && !HasValue(r.sections, [], keys[0])
    ensures var rest := PairItems(keys[1..], m[[]]) + [Ignored] + AllSectionItems(names, m);
      !HasValue(FeedAll(r, rest).sections, [], keys[0])
  {
    var pairs := PairItems(keys[1..], m[[]]);
    PairsKeepAbsent(r, keys[1..], m[[]], keys[0]);
    FeedAllConcat(r, pairs, [Ignored]);
    assert [Ignored][..0] == [];
    SectionsKeepAbsent(FeedAll(r, pairs + [Ignored]), names, m, keys[0]);
    FeedAllConcat(r, pairs + [Ignored], AllSectionItems(names, m));
  }

  /** The unnamed section comes first, and its smallest key first in it. */
  lemma {:induction false} UnnamedFirstKey(m: Sections)
    requires [] in m && m[[]] != map[]
    ensures var names, keys := SortedKeys(m.Keys), SortedKeys(m[[]].Keys);
      && names != [] && names[0] == [] && [] !in names[1..]
      && keys != [] && keys[0] == Least(m[[]].Keys) && keys[0] !in keys[1..]
  {
    SortedNames(m);
    SortedKeysAscend(m[[]].Keys);
    assert m[[]].Keys != {};
  }

  lemma {:induction false} FirstPair(keys: seq<Text>, values: Values, tail: seq<Line>, more: seq<Text>)
    requires keys != [] && (forall k :: k in keys ==> k in values)
    ensures PairItems(keys, values) + [Ignored] + tail
      == [Pair(keys[0], values[keys[0]])] + (PairItems(keys[1..], values) + [Ignored] + tail)
    ensures (PairLines(keys, values) + [[NEW_LINE]] + more)[0] == PairLine(keys[0], values[keys[0]])
  {
  }

  /** What such settings are written as, first line and all. */
  lemma {:induction false} UnnamedItems(keys: seq<Text>, names: seq<Text>, m: Sections)
    requires [] in m && m[[]] != map[] && names != [] && names[0] == [] && (forall n :: n in names ==> n in m)
    requires keys != [] && keys == SortedKeys(m[[]].Keys)
    ensures AllSectionItems(names, m) == [Pair(keys[0], m[[]][keys[0]])]
      + (PairItems(keys[1..], m[[]]) + [Ignored] + AllSectionItems(names[1..], m))
    ensures AllSectionLines(names, m) != [] && AllSectionLines(names, m)[0] == PairLine(keys[0], m[[]][keys[0]])
  {
    FirstPair(keys, m[[]], AllSectionItems(names[1..], m), AllSectionLines(names[1..], m));
    UnnamedUnfolds(keys, names, m);
  }

  lemma {:induction false} UnnamedUnfolds(keys: seq<Text>, names: seq<Text>, m: Sections)
    requires [] in m && m[[]] != map[] && names != [] && names[0] == [] && (forall n :: n in names ==> n in m)
    requires keys == SortedKeys(m[[]].Keys)
    ensures AllSectionItems(names, m) == PairItems(keys, m[[]]) + [Ignored] + AllSectionItems(names[1..], m)
    ensures AllSectionLines(names, m) == PairLines(keys, m[[]]) + [[NEW_LINE]] + AllSectionLines(names[1..], m)
  {
    assert [] + PairItems(keys, m[[]]) == PairItems(keys, m[[]]);
    assert [] + PairLines(keys, m[[]]) == PairLines(keys, m[[]]);
  }

  /** What is left of the first pair once the mark is gone does not bring its key back either. */
  lemma {:induction false} MarkedItemsLoseKey(keys: seq<Text>, names: seq<Text>, m: Sections)
    requires [] in m && keys != [] && (forall k :: k in keys ==> k in m[[]]) && keys[0] !in keys[1..]
    requires (forall n :: n in names ==> n in m) && [] !in names
    requires IsKey(keys[0]) && BYTE_ORDER_MARK <= keys[0]
    ensures var x := Classify(WithoutMark(PairLine(keys[0], m[[]][keys[0]])));
      var rest := PairItems(keys[1..], m[[]]) + [Ignored] + AllSectionItems(names, m);
      !HasValue(FeedAll(START, [x] + rest).sections, [], keys[0])
  {
    var x := Classify(WithoutMark(PairLine(keys[0], m[[]][keys[0]])));
    var rest := PairItems(keys[1..], m[[]]) + [Ignored] + AllSectionItems(names, m);
    var r := Feed(START, x);
    MarkedPairIsLost(keys[0], m[[]][keys[0]]);
    RestKeepsAbsent(r, keys, names, m);
    FeedAllCons(START, x, rest);
  }

  lemma {:induction false} MarkedPairIsLost(key: Text, value: Text)
    requires IsKey(key) && BYTE_ORDER_MARK <= key
    ensures !HasValue(Feed(START, Classify(WithoutMark(PairLine(key, value)))).sections, [], key)
  {
    MarkShortensKey(key, value);
  }

  /** A first key that starts with the mark is never read back. */
  lemma {:induction false} MarkLosesKey(m: Sections)
    requires ValidSections(m) && LinesFit(m) && MarkedFirstKey(m)
    ensures !HasValue(ReadText(Generated(m)).sections, [], Least(m[[]].Keys))
  {
    UnnamedFirstKey(m);
    UnnamedItems(SortedKeys(m[[]].Keys), SortedKeys(m.Keys), m);
    GeneratedItems(m);
    LinesFitMeans(m);
    ReadTextItems(Generated(m));
    FirstItem(GeneratedLines(m));
    MarkedItemsLoseKey(SortedKeys(m[[]].Keys), SortedKeys(m.Keys)[1..], m);
  }

  /**
    Printing then parsing is the identity on settings, up to sections that hold nothing, exactly when
    the lines and the file fit their limits and the first key does not start with the byte order mark.
   */
  lemma {:induction false} RoundTrip(m: Sections)
    requires ValidSections(m)
    ensures Reopened(Generated(m)) == Some(WithoutEmpty(m)) <==> Fits(m)
  {
    if Fits(m) {
      FittingReadsBack(m);
    } else if !LinesFit(m) {
      GeneratedItems(m);
      LinesFitMeans(m);
      ErrorsStick(START, GeneratedLines(m), true);
    } else if MarkedFirstKey(m) {
      MarkLosesKey(m);
      assert HasValue(WithoutEmpty(m), [], Least(m[[]].Keys));
    }
  }

  /** Nothing is written for settings that hold nothing, and something for all others. */
  lemma {:induction false} NothingToWrite(m: Sections)
    ensures Generated(m) == [] <==> WithoutEmpty(m) == map[]
  {
    var names := SortedKeys(m.Keys);
    SortedNames(m);
    SomethingToWrite(names, m);
    assert Restricted(names, m) == map[] <==> WithoutEmpty(m) == map[];
  }

  lemma {:induction false} SomethingToWrite(names: seq<Text>, m: Sections)
    requires forall n :: n in names ==> n in m
    ensures Joined(AllSectionLines(names, m)) == [] <==> Restricted(names, m) == map[]
  {
    if names == [] {
    } else {
      SomethingToWrite(names[1..], m);
      var first := if m[names[0]] == map[] then [] else SectionLines(names[0], m[names[0]]);
      JoinedConcat(first, AllSectionLines(names[1..], m));
      if m[names[0]] != map[] {
        var pairs := first[..|first| - 1];
        assert first == pairs + [[NEW_LINE]];
        JoinedConcat(pairs, [[NEW_LINE]]);
        assert Joined([[NEW_LINE]]) == [NEW_LINE] + Joined([]);
        assert names[0] in Restricted(names, m);
      } else {
        assert Restricted(names, m) == Restricted(names[1..], m);
      }
    }
  }

  // ---------------------------------------------------------------------------------------------
  // The text itself
  // ---------------------------------------------------------------------------------------------

  lemma {:induction false} SortedOne(key: Text)
    ensures SortedKeys({key}) == [key]
  {
    assert Least({key}) == key;
    assert {key} - {key} == {};
  }

  lemma {:induction false} OneSection(name: Text, m: Sections)
    requires name in m
    ensures AllSectionLines([name], m) == if m[name] == map[] then [] else SectionLines(name, m[name])
  {
    assert AllSectionLines([name][1..], m) == [];
  }

  lemma {:induction false} JoinedThree(a: Text, b: Text, c: Text)
    ensures Joined([a, b, c]) == a + b + c && Joined([b, c]) == b + c
  {
    assert [a, b, c][1..] == [b, c] && [b, c][1..] == [c] && [c][1..] == [];
    assert Joined([c]) == c + Joined([]) == c;
    assert Joined([b, c]) == b + Joined([c]);
    assert Joined([a, b, c]) == a + Joined([b, c]);
  }

  /** A section with one value. */
  lemma {:induction false} OnePairLines(section: Text, key: Text, value: Text)
    ensures GeneratedLines(map[section := map[key := value]]) ==
      (if section == [] then [] else [HeaderLine(section)]) + [PairLine(key, value)] + [[NEW_LINE]]
  {
    var m: Sections := map[section := map[key := value]];
    SortedOne(section);
    SortedOne(key);
    assert m.Keys == {section} && m[section].Keys == {key} && key in m[section];
    OneSection(section, m);
    assert [key][1..] == [];
    assert PairLines([key], m[section]) == [PairLine(key, value)] + PairLines([key][1..], m[section]);
  }

  /** One value on its own, byte for byte. */
  lemma {:induction false} WrittenOut(section: Text, key: Text, value: Text)
    ensures Generated(map[section := map[key := value]])
         == (if section == [] then [] else [0x5B] + section + [0x5D] + [0x0A])
            + (key + [0x3D] + value + [0x0A]) + [0x0A]
  {
    var pair := PairLine(key, value);
    OnePairLines(section, key, value);
    JoinedThree(HeaderLine(section), pair, [NEW_LINE]);
    if section == [] {
      assert [] + [pair] + [[NEW_LINE]] == [pair, [NEW_LINE]];
    } else {
      assert [HeaderLine(section)] + [pair] + [[NEW_LINE]] == [HeaderLine(section), pair, [NEW_LINE]];
    }
  }

  /** Each pair of a section is a line of its own, in the order of the keys. */
  lemma {:induction false} PairLineAt(keys: seq<Text>, values: Values, i: nat)
    requires (forall k :: k in keys ==> k in values) && i < |keys|
    ensures |PairLines(keys, values)| == |keys|
    ensures PairLines(keys, values)[i] == keys[i] + [0x3D] + values[keys[i]] + [0x0A]
    decreases |keys|
  {
    var more := keys[1..];
    if more == [] {
    } else {
      PairLineAt(more, values, if i == 0 then 0 else i - 1);
    }
  }

  lemma {:induction false} SameSections(names: seq<Text>, a: Sections, b: Sections)
    requires forall n :: n in names ==> n in a && n in b && a[n] == b[n]
    ensures AllSectionLines(names, a) == AllSectionLines(names, b)
  {
    if names == [] {
    } else {
      SameSections(names[1..], a, b);
    }
  }

  /** The section with the least name is written first, and then the rest as if it were all. */
  lemma {:induction false} LeastComesFirst(m: Sections, name: Text)
    requires name in m && forall other :: other in m ==> AtMost(name, other)
    ensures Generated(m) == Generated(map[name := m[name]]) + Generated(m - {name})
  {
    AtMostTotal(name, Least(m.Keys));
    var rest := SortedKeys(m.Keys - {name});
    assert SortedKeys(m.Keys) == [name] + rest;
    assert (m - {name}).Keys == m.Keys - {name};
    SortedOne(name);
    assert map[name := m[name]].Keys == {name};
    SameSections(rest, m, m - {name});
    SameSections([name], m, map[name := m[name]]);
    FirstThenRest(name, rest, m);
    JoinedConcat(AllSectionLines([name], m), AllSectionLines(rest, m));
  }

  lemma {:induction false} FirstThenRest(name: Text, rest: seq<Text>, m: Sections)
    requires name in m && forall n :: n in rest ==> n in m
    ensures AllSectionLines([name] + rest, m) == AllSectionLines([name], m) + AllSectionLines(rest, m)
  {
    assert ([name] + rest)[1..] == rest && [name][1..] == [];
  }
}
