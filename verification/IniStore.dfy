/**
  The settings object of source/base/ini_file.cc: the file on disk, the values in memory and the two
  flags, as functions of whole runs and as the class that changes them in place.
 */
module IniStore {
  import opened Common
  import opened Bytes
  import opened IniFormat
  import opened IniReading
  import opened IniRoundTrip
  import opened IniValues

  datatype Disk = Missing | Present(content: Text)

  datatype Store = Store(sections: Sections, errors: bool, changes: bool)

  predicate IsValidKey(key: Text) {
    && key != [] && ASSIGN !in key
    && key[0] != SECTION_START && key[0] != COMMENT && key[0] != ALTERNATE_COMMENT
    && ReadsBackUnchanged(key)
  }

  predicate IsStorable(section: Text, key: Text, value: Text) {
    ReadsBackUnchanged(section) && IsValidKey(key) && ReadsBackUnchanged(value)
  }

  /** The constructor.  `readable` is whether the file can be opened. */
  function Opened(disk: Disk, readable: bool): Store {
    match disk
    case Missing => Store(map[], false, false)
    case Present(content) =>
      if !readable then Store(map[], true, false)
      else match Reopened(content)
        case None => Store(map[], true, false)
        case Some(sections) => Store(sections, false, false)
  }

  function SetRaw(s: Store, section: Text, key: Text, value: Text): Store {
    if !IsStorable(section, key, value) then s
    else
      var values := Existing(s.sections, section);
      if key in values && values[key] == value then s
      else s.(sections := s.sections[section := values[key := value]], changes := true)
  }

  function Removed(s: Store, section: Text, key: Text): Store {
    if HasValue(s.sections, section, key)
    then s.(sections := s.sections[section := s.sections[section] - {key}], changes := true)
    else s
  }

  /** Whether the save file opens, the section it fails to take, if any, and whether it commits. */
  datatype Saving = Saving(opens: bool, failsAt: Option<Text>, commits: bool)

  /** Every section that holds something is one write. */
  predicate Takes(m: Sections, failsAt: Option<Text>) {
    failsAt.None? || failsAt.value !in m || m[failsAt.value] == map[]
  }

  predicate Saves(s: Store, saving: Saving) {
    !s.errors && saving.opens && Takes(s.sections, saving.failsAt) && saving.commits
  }

  datatype World = World(store: Store, disk: Disk)

  datatype Op = Set(section: Text, key: Text, value: Text) | Remove(section: Text, key: Text) | Sync(saving: Saving)

  function Apply(w: World, op: Op): World {
    match op
    case Set(section, key, value) => w.(store := SetRaw(w.store, section, key, value))
    case Remove(section, key) => w.(store := Removed(w.store, section, key))
    case Sync(saving) =>
      if Saves(w.store, saving)
      then World(w.store.(changes := false), Present(Generated(w.store.sections)))
      else w
  }

  function Run(w: World, ops: seq<Op>): World
    decreases |ops|
  {
    if ops == [] then w else Run(Apply(w, ops[0]), ops[1..])
  }

  // ---------------------------------------------------------------------------------------------
  // What every operation keeps
  // ---------------------------------------------------------------------------------------------

  lemma {:induction false} StorableIsValid(section: Text, key: Text, value: Text)
    requires IsStorable(section, key, value)
    ensures IsField(section) && IsKey(key) && IsField(value)
  {
    TrimmedFixpoint(section);
    TrimmedFixpoint(key);
    TrimmedFixpoint(value);
  }

  lemma {:induction false} SetKeepsValid(s: Store, section: Text, key: Text, value: Text)
    requires ValidSections(s.sections)
    ensures ValidSections(SetRaw(s, section, key, value).sections)
  {
    if IsStorable(section, key, value) {
      StorableIsValid(section, key, value);
    }
  }

  /** The setter stores what is storable, leaves every other value alone, and notes a change if it is one. */
  lemma {:induction false} SetChanges(s: Store, section: Text, key: Text, value: Text, other: Text, name: Text)
    ensures var t := SetRaw(s, section, key, value);
      && t.errors == s.errors && (!IsStorable(section, key, value) ==> t == s)
      && RawIn(t.sections, other, name) ==
           (if IsStorable(section, key, value) && other == section && name == key then Some(value)
            else RawIn(s.sections, other, name))
      && (t.changes <==>
           s.changes || (IsStorable(section, key, value) && RawIn(s.sections, section, key) != Some(value)))
  {
  }

  /** Removing takes away that value and no other, and is a change if there was one. */
  lemma {:induction false} RemoveChanges(s: Store, section: Text, key: Text, other: Text, name: Text)
    ensures var t := Removed(s, section, key);
      && t.errors == s.errors
      && RawIn(t.sections, other, name) ==
           (if other == section && name == key then None else RawIn(s.sections, other, name))
      && (t.changes <==> s.changes || RawIn(s.sections, section, key).Some?)
  {
  }

  /** No write fails: the section the device would not take holds nothing. */
  ghost predicate Accepted(m: Sections, failsAt: Option<Text>) {
    failsAt.Some? ==> forall key :: RawIn(m, failsAt.value, key).None?
  }

  /**
    Syncing leaves the settings as they are.  It goes through exactly when the file was read without error and the
    device opens, takes every section that holds something and commits: then nothing is unsaved and, within the
    limits, reopening finds every value and no other.  Otherwise file and flag are as before.
   */
  lemma {:induction false} SyncSaves(w: World, saving: Saving, section: Text, key: Text)
    requires ValidSections(w.store.sections)
    ensures var t := Apply(w, Sync(saving));
      && t.store.sections == w.store.sections && t.store.errors == w.store.errors
      && if !w.store.errors && saving.opens && Accepted(w.store.sections, saving.failsAt) && saving.commits
         then !t.store.changes && (Fits(w.store.sections) ==>
                var again := Opened(t.disk, true);
                !again.errors && RawIn(again.sections, section, key) == RawIn(w.store.sections, section, key))
         else t == w
  {
    var m := w.store.sections;
    TakesMeans(m, saving.failsAt);
    if Fits(m) {
      EveryValueSurvives(m, section, key);
    }
  }

  lemma {:induction false} EveryValueSurvives(m: Sections, section: Text, key: Text)
    requires ValidSections(m) && Fits(m)
    ensures var again := Opened(Present(Generated(m)), true);
      !again.errors && RawIn(again.sections, section, key) == RawIn(m, section, key)
  {
    RoundTrip(m);
  }

  lemma {:induction false} TakesMeans(m: Sections, failsAt: Option<Text>)
    ensures Takes(m, failsAt) <==> Accepted(m, failsAt)
  {
    if failsAt.Some? && failsAt.value in m && m[failsAt.value] != map[] {
      var key :| key in m[failsAt.value];
      assert RawIn(m, failsAt.value, key).Some?;
    }
  }

  /** What opening gives, from the bytes of the file: one that cannot be read as a whole gives nothing. */
  lemma {:induction false} OpenedMeans(content: Text, readable: bool, items: seq<Line>)
    requires Reads(Lines(content), true, items)
    ensures var s := Opened(Present(content), readable);
      && !s.changes && Opened(Missing, readable) == Store(map[], false, false)
      && (s.errors <==> !(readable && |content| <= 0x10_0000 && AllFit(Lines(content)) && Good(items)))
      && (if s.errors then s.sections == map[] else Stores(s.sections, items))
  {
    ReadTextMeans(content, items);
  }

  /** What the validators ask for, apart from carriage returns, is what every stored value satisfies. */
  lemma {:induction false} StorableMeans(section: Text, key: Text, value: Text)
    requires CARRIAGE_RETURN !in section && CARRIAGE_RETURN !in key && CARRIAGE_RETURN !in value
    ensures IsStorable(section, key, value) <==> ValidSections(map[section := map[key := value]])
  {
    var m: Sections := map[section := map[key := value]];
    TrimmedFixpoint(section);
    TrimmedFixpoint(key);
    TrimmedFixpoint(value);
    if ValidSections(m) {
      assert section in m && ValidValues(m[section]) && key in m[section];
    }
  }

  /** Short of carriage returns and within the limits, they let through exactly what the file would give back. */
  lemma {:induction false} SetterIsExact(section: Text, key: Text, value: Text)
    requires CARRIAGE_RETURN !in section && CARRIAGE_RETURN !in key && CARRIAGE_RETURN !in value
    ensures var m := map[section := map[key := value]];
      Reopened(Generated(m)) == Some(m) <==> IsStorable(section, key, value) && Fits(m)
  {
    var m: Sections := map[section := map[key := value]];
    StorableMeans(section, key, value);
    ReadTextIsValid(Generated(m));
    if ValidSections(m) {
      RoundTrip(m);
      NothingEmpty(section, key, value);
    }
  }

  lemma {:induction false} NothingEmpty(section: Text, key: Text, value: Text)
    ensures var m := map[section := map[key := value]]; WithoutEmpty(m) == m
  {
    var m: Sections := map[section := map[key := value]];
    assert key in m[section];
  }

  /** Reopening the file would give exactly the values in memory. */
  predicate Reopens(w: World) {
    Opened(w.disk, true) == Store(WithoutEmpty(w.store.sections), false, false)
  }

  ghost predicate Inv(start: Disk, readable: bool, w: World) {
    && ValidSections(w.store.sections)
    && w.store.errors == Opened(start, readable).errors
    && (w.store.errors ==> w.disk == start)
    && (!w.store.errors && !w.store.changes ==>
          Reopens(w) || w.disk == Present(Generated(w.store.sections)))
  }

  lemma {:induction false} OpenedInv(start: Disk, readable: bool)
    ensures Inv(start, readable, World(Opened(start, readable), start))
  {
    if start.Present? {
      ReadTextIsValid(start.content);
      ReadTextFeeds(start.content);
      if !ReadText(start.content).errors {
        assert WithoutEmpty(ReadText(start.content).sections) == ReadText(start.content).sections;
      }
    } else {
      assert WithoutEmpty(map[]) == map[];
    }
  }

  lemma {:induction false} ApplyKeepsInv(start: Disk, readable: bool, w: World, op: Op)
    requires Inv(start, readable, w)
    ensures Inv(start, readable, Apply(w, op))
  {
    if op.Set? {
      SetKeepsValid(w.store, op.section, op.key, op.value);
    }
  }

  lemma {:induction false} RunKeepsInv(start: Disk, readable: bool, w: World, ops: seq<Op>)
    requires Inv(start, readable, w)
    ensures Inv(start, readable, Run(w, ops))
    decreases |ops|
  {
    if ops == [] {
    } else {
      ApplyKeepsInv(start, readable, w, ops[0]);
      RunKeepsInv(start, readable, Apply(w, ops[0]), ops[1..]);
    }
  }

  function AfterRun(start: Disk, readable: bool, ops: seq<Op>): World {
    Run(World(Opened(start, readable), start), ops)
  }

  /** Everything in memory is something the format can carry, whatever was read and set. */
  lemma {:induction false} StoredIsValid(start: Disk, readable: bool, ops: seq<Op>)
    ensures ValidSections(AfterRun(start, readable, ops).store.sections)
  {
    OpenedInv(start, readable);
    RunKeepsInv(start, readable, World(Opened(start, readable), start), ops);
  }

  /** A file that failed to read is never replaced, whatever is set, removed and synced afterwards. */
  lemma {:induction false} FailedReadIsNeverReplaced(start: Disk, readable: bool, ops: seq<Op>)
    requires Opened(start, readable).errors
    ensures AfterRun(start, readable, ops).disk == start && AfterRun(start, readable, ops).store.errors
  {
    OpenedInv(start, readable);
    RunKeepsInv(start, readable, World(Opened(start, readable), start), ops);
  }

  /**
    With no error and no unsaved change, reopening the file gives exactly the values in memory, unless
    the file is what `sync` wrote and the settings were outside the limits of the format.
   */
  lemma {:induction false} CleanReopens(start: Disk, readable: bool, ops: seq<Op>)
    requires var s := AfterRun(start, readable, ops).store; !s.errors && !s.changes
    ensures var w := AfterRun(start, readable, ops);
      Reopens(w) <==> (w.disk == Present(Generated(w.store.sections)) ==> Fits(w.store.sections))
  {
    OpenedInv(start, readable);
    RunKeepsInv(start, readable, World(Opened(start, readable), start), ops);
    RoundTrip(AfterRun(start, readable, ops).store.sections);
  }

  /** One of the limits at work: the setter takes a key that starts with the byte order mark. */
  lemma {:induction false} MarkedKeyIsLost()
    ensures var ops := [Set([], BYTE_ORDER_MARK + [0x61], [0x31]), Sync(Saving(true, None, true))];
      var w := AfterRun(Missing, true, ops);
      !w.store.errors && !w.store.changes && !Reopens(w)
  {
    var key: Text := BYTE_ORDER_MARK + [0x61];
    var set', sync := Set([], key, [0x31]), Sync(Saving(true, None, true));
    var w := Apply(World(Opened(Missing, true), Missing), set');
    TwoSteps(World(Opened(Missing, true), Missing), set', sync);
    TrimmedFixpoint(key);
    TrimmedFixpoint([0x31]);
    TrimmedFixpoint([]);
    assert w.store.sections == map[[] := map[key := [0x31]]];
    LeastOfOne(key, w.store.sections[[]].Keys);
    assert MarkedFirstKey(w.store.sections);
    CleanReopens(Missing, true, [set', sync]);
  }

  lemma {:induction false} TwoSteps(w: World, a: Op, b: Op)
    ensures Run(w, [a, b]) == Apply(Apply(w, a), b)
  {
    assert [a, b][1..] == [b] && [b][1..] == [];
    assert Run(Apply(w, a), [b]) == Run(Apply(Apply(w, a), b), []);
  }

  lemma {:induction false} LeastOfOne(key: Text, keys: set<Text>)
    requires keys == {key}
    ensures Least(keys) == key
  {
    assert IsLeast(Least(keys), keys);
  }

  /** What can be read of a value in memory can be read again once it is on disk, within the limits. */
  lemma {:induction false} ValueSurvives(s: Store, section: Text, key: Text)
    requires ValidSections(s.sections) && Fits(s.sections) && HasValue(s.sections, section, key)
    ensures var again := Opened(Present(Generated(s.sections)), true);
      !again.errors && HasValue(again.sections, section, key)
      && again.sections[section][key] == s.sections[section][key]
  {
    RoundTrip(s.sections);
  }

  // ---------------------------------------------------------------------------------------------
  // Typed values
  // ---------------------------------------------------------------------------------------------

  function RawIn(m: Sections, section: Text, key: Text): Option<Text> {
    if HasValue(m, section, key) then Some(m[section][key]) else None
  }

  function NumberIn(m: Sections, t: NumberType, section: Text, key: Text, default: int): int {
    match RawIn(m, section, key)
    case None => default
    case Some(text) => if ReadNumber(t, text).Some? then ReadNumber(t, text).value else default
  }

  function BooleanIn(m: Sections, section: Text, key: Text, default: bool): bool {
    match RawIn(m, section, key)
    case None => default
    case Some(text) => if ReadBoolean(text).Some? then ReadBoolean(text).value else default
  }

  function BinaryIn(m: Sections, section: Text, key: Text, default: Text): Text {
    match RawIn(m, section, key)
    case None => default
    case Some(text) => if ReadBinary(text).Some? then ReadBinary(text).value else default
  }

  /** A storable value is in memory once it is set, and on disk once that is synced. */
  lemma {:induction false} SetIsStored(s: Store, section: Text, key: Text, value: Text)
    requires ValidSections(s.sections) && IsStorable(section, key, value)
    ensures var m := SetRaw(s, section, key, value).sections;
      && RawIn(m, section, key) == Some(value)
      && (Fits(m) ==> RawIn(Opened(Present(Generated(m)), true).sections, section, key) == Some(value))
  {
    var after := SetRaw(s, section, key, value);
    SetKeepsValid(s, section, key, value);
    if Fits(after.sections) {
      ValueSurvives(after, section, key);
    }
  }

  /** Where a value is read from: memory, or the file it was synced to. */
  ghost predicate ReadsFrom(m: Sections, after: Store) {
    m == after.sections || (Fits(after.sections) && m == Opened(Present(Generated(after.sections)), true).sections)
  }

  lemma {:induction false} NumberComesBack(s: Store, section: Text, key: Text, n: int, m: Sections, t: NumberType,
                                           default: int)
    requires ValidSections(s.sections) && ReadsBackUnchanged(section) && IsValidKey(key)
    requires ReadsFrom(m, SetRaw(s, section, key, NumberText(n)))
    ensures NumberIn(m, t, section, key, default) == if MinOf(t) <= n <= MaxOf(t) then n else default
  {
    NumberReadsBack(t, n);
    SetIsStored(s, section, key, NumberText(n));
  }

  lemma {:induction false} BooleanComesBack(s: Store, section: Text, key: Text, b: bool, m: Sections, default: bool)
    requires ValidSections(s.sections) && ReadsBackUnchanged(section) && IsValidKey(key)
    requires ReadsFrom(m, SetRaw(s, section, key, BooleanText(b)))
    ensures BooleanIn(m, section, key, default) == b
  {
    BooleanReadsBack(b);
    SetIsStored(s, section, key, BooleanText(b));
  }

  lemma {:induction false} BinaryComesBack(s: Store, section: Text, key: Text, data: Text, m: Sections, default: Text)
    requires ValidSections(s.sections) && ReadsBackUnchanged(section) && IsValidKey(key)
    requires ReadsFrom(m, SetRaw(s, section, key, ToHex(data)))
    ensures BinaryIn(m, section, key, default) == data
  {
    BinaryReadsBack(data);
    SetIsStored(s, section, key, ToHex(data));
  }

  // ---------------------------------------------------------------------------------------------
  // The class
  // ---------------------------------------------------------------------------------------------

  lemma {:induction false} PairLinesConcat(a: seq<Text>, b: seq<Text>, values: Values)
    requires (forall k :: k in a ==> k in values) && (forall k :: k in b ==> k in values)
    ensures PairLines(a + b, values) == PairLines(a, values) + PairLines(b, values)
  {
    if a == [] {
      assert a + b == b;
    } else {
      var first := [PairLine(a[0], values[a[0]])];
      assert (a + b)[1..] == a[1..] + b;
      PairLinesConcat(a[1..], b, values);
      assert first + (PairLines(a[1..], values) + PairLines(b, values)) == PairLines(a, values) + PairLines(b, values);
    }
  }

  lemma {:induction false} AllSectionLinesConcat(a: seq<Text>, b: seq<Text>, m: Sections)
    requires (forall n :: n in a ==> n in m) && (forall n :: n in b ==> n in m)
    ensures AllSectionLines(a + b, m) == AllSectionLines(a, m) + AllSectionLines(b, m)
  {
    if a == [] {
      assert a + b == b;
    } else {
      assert (a + b)[1..] == a[1..] + b;
      AllSectionLinesConcat(a[1..], b, m);
    }
  }

  lemma {:induction false} JoinedOne(line: Text)
    ensures Joined([line]) == line
  {
    assert Joined([line]) == line + Joined([line][1..]);
  }

  /** One more section at the end of the text. */
  lemma {:induction false} SectionsSnoc(names: seq<Text>, i: nat, m: Sections)
    requires i < |names| && (forall n :: n in names ==> n in m)
    ensures Joined(AllSectionLines(names[..i + 1], m)) == Joined(AllSectionLines(names[..i], m))
      + if m[names[i]] == map[] then [] else Joined(SectionLines(names[i], m[names[i]]))
  {
    var before, name := names[..i], names[i];
    assert names[..i + 1] == before + [name];
    AllSectionLinesConcat(before, [name], m);
    OneSection(name, m);
    JoinedConcat(AllSectionLines(before, m), AllSectionLines([name], m));
  }

  /** What is written for some of the sections is a part of what is written for all of them. */
  lemma {:induction false} SectionsPrefix(names: seq<Text>, i: nat, m: Sections)
    requires i <= |names| && (forall n :: n in names ==> n in m)
    ensures Joined(AllSectionLines(names[..i], m)) <= Joined(AllSectionLines(names, m))
  {
    assert names == names[..i] + names[i..];
    AllSectionLinesConcat(names[..i], names[i..], m);
    JoinedConcat(AllSectionLines(names[..i], m), AllSectionLines(names[i..], m));
  }

  /** One more pair at the end of the buffer. */
  lemma {:induction false} PairLinesSnoc(keys: seq<Text>, i: nat, values: Values)
    requires i < |keys| && (forall k :: k in keys ==> k in values)
    ensures Joined(PairLines(keys[..i + 1], values))
         == Joined(PairLines(keys[..i], values)) + PairLine(keys[i], values[keys[i]])
  {
    var line := PairLine(keys[i], values[keys[i]]);
    PairLinesConcat(keys[..i], [keys[i]], values);
    assert keys[..i + 1] == keys[..i] + [keys[i]];
    assert PairLines([keys[i]], values) == [line];
    JoinedConcat(PairLines(keys[..i], values), [line]);
    JoinedOne(line);
  }

  /** The pairs of a section, behind what is already in the buffer. */
  method PairsBuffer(start: Text, keys: seq<Text>, values: Values) returns (buffer: Text)
    requires forall k :: k in keys ==> k in values
    ensures buffer == start + Joined(PairLines(keys, values))
  {
    buffer := start;
    for i := 0 to |keys|
      invariant buffer == start + Joined(PairLines(keys[..i], values))
    {
      PairLinesSnoc(keys, i, values);
      buffer := buffer + PairLine(keys[i], values[keys[i]]);
    }
    assert keys[..|keys|] == keys;
  }

  /** The buffer of one section. */
  method SectionBuffer(name: Text, values: Values) returns (buffer: Text)
    ensures buffer == Joined(SectionLines(name, values))
  {
    buffer := [];
    ghost var header := if name == [] then [] else [HeaderLine(name)];
    if name != [] {
      buffer := buffer + HeaderLine(name);
      JoinedOne(HeaderLine(name));
    }
    var keys := SortedKeys(values.Keys);
    buffer := PairsBuffer(buffer, keys, values);
    SectionJoined(header, PairLines(keys, values));
    buffer := buffer + [NEW_LINE];
  }

  lemma {:induction false} SectionJoined(header: seq<Text>, pairs: seq<Text>)
    ensures Joined(header + pairs + [[NEW_LINE]]) == Joined(header) + Joined(pairs) + [NEW_LINE]
  {
    JoinedConcat(header, pairs);
    JoinedConcat(header + pairs, [[NEW_LINE]]);
    JoinedOne([NEW_LINE]);
  }

  /** What QIODevice::readLine returns: the next line, or as much of it as the limit lets through. */
  function ReadLine(t: Text): Text
    requires t != []
  {
    var line := FirstLine(t);
    if |line| <= MAX_LINE_LENGTH then line else line[..MAX_LINE_LENGTH]
  }

  /** A cut line is one that neither ends nor is the last; all others are read as they are. */
  lemma {:induction false} NextLine(r: Reader, t: Text, first: bool)
    requires t != []
    ensures var line := ReadLine(t);
      var all := ReadLines(r, Lines(t), first);
      && line != [] && |line| <= |t|
      && (line[|line| - 1] != NEW_LINE && |line| < |t| ==> all == r.(errors := true))
      && (line[|line| - 1] == NEW_LINE || |line| == |t| ==>
            all == ReadLines(Feed(r, Classify(if first then WithoutMark(line) else line)), Lines(t[|line|..]), false))
  {
    var whole := FirstLine(t);
    assert Lines(t)[0] == whole && Lines(t)[1..] == Lines(t[|whole|..]);
    if |whole| > MAX_LINE_LENGTH {
      assert ReadLine(t)[MAX_LINE_LENGTH - 1] == whole[..|whole| - 1][MAX_LINE_LENGTH - 1];
    }
  }

  /** Reads the next line: too long, or without the mark if it is the first one. */
  method NextChunk(text: Text, at: nat, first: bool, ghost r: Reader) returns (tooLong: bool, line: Text, next: nat)
    requires at < |text|
    ensures at < next <= |text|
    ensures tooLong ==> ReadLines(r, Lines(text[at..]), first) == r.(errors := true)
    ensures !tooLong ==>
      ReadLines(r, Lines(text[at..]), first) == ReadLines(Feed(r, Classify(line)), Lines(text[next..]), false)
  {
    ghost var rest := text[at..];
    NextLine(r, rest, first);
    line := ReadLine(text[at..]);
    next := at + |line|;
    tooLong := line[|line| - 1] != NEW_LINE && next < |text|;
    assert text[next..] == rest[|line|..];
    if first && BYTE_ORDER_MARK <= line {
      line := line[|BYTE_ORDER_MARK|..];
    }
  }

  class DiskFile {
    var content: Disk

    constructor (content: Disk)
      ensures this.content == content
    {
      this.content := content;
    }
  }

  class IniFile {
    const file: DiskFile
    var sections: Sections
    var hasErrors: bool
    var hasChanges: bool

    ghost function State(): Store
      reads this
    {
      Store(sections, hasErrors, hasChanges)
    }

    constructor (file: DiskFile, readable: bool)
      ensures this.file == file && State() == Opened(file.content, readable)
    {
      this.file := file;
      sections, hasErrors, hasChanges := map[], false, false;
      new;
      if file.content.Missing? {
        return;
      }
      if !readable {
        hasErrors := true;
        return;
      }
      if |file.content.content| > MAX_FILE_SIZE {
        hasErrors := true;
        return;
      }
      Parse(file.content.content);
      if hasErrors {
        sections := map[];
      }
    }

    method Parse(text: Text)
      modifies this`sections, this`hasErrors
      ensures var r := ReadLines(Reader(old(sections), [], false, old(hasErrors)), Lines(text), true);
        sections == r.sections && hasErrors == r.errors
    {
      var at, lineNumber := 0, 0;
      var section: Text := [];
      var values: Option<Text> := None;
      var skipSection := false;
      ghost var all := ReadLines(Reader(sections, [], false, hasErrors), Lines(text), true);
      assert text[0..] == text;
      while at < |text|
        invariant at <= |text|
        invariant all ==
          ReadLines(Reader(sections, section, skipSection, hasErrors), Lines(text[at..]), lineNumber == 0)
        invariant values.Some? ==> values.value == section && section in sections
      {
        ghost var reader := Reader(sections, section, skipSection, hasErrors);
        var tooLong, line, next := NextChunk(text, at, lineNumber == 0, reader);
        at := next;
        lineNumber := lineNumber + 1;
        if tooLong {
          hasErrors := true;
          return;
        }
        section, values, skipSection := TakeLine(line, section, values, skipSection);
      }
    }

    /** The body of the loop: `values` is the section that the cached pointer points to, if it is set. */
    method TakeLine(raw: Text, section: Text, values: Option<Text>, skipSection: bool)
      returns (section': Text, values': Option<Text>, skipSection': bool)
      requires values.Some? ==> values.value == section && section in sections
      modifies this`sections, this`hasErrors
      ensures Reader(sections, section', skipSection', hasErrors) ==
        Feed(Reader(old(sections), section, skipSection, old(hasErrors)), Classify(raw))
      ensures values'.Some? ==> values'.value == section' && section' in sections
    {
      section', values', skipSection' := section, values, skipSection;
      var line := Trimmed(raw);
      if line == [] || line[0] == COMMENT || line[0] == ALTERNATE_COMMENT {
        return;
      }
      if line[0] == SECTION_START {
        var name := HeaderName(line);
        values' := None;
        if name == [] {
          hasErrors := true;
          skipSection' := true;
          return;
        }
        section' := name;
        skipSection' := false;
        return;
      }
      if skipSection {
        return;
      }
      var name := KeyName(line);
      if name == [] {
        hasErrors := true;
        return;
      }
      values' := StorePair(section, values, name, Trimmed(line[IndexOf(line, ASSIGN) + 1..]));
    }

    method StorePair(section: Text, values: Option<Text>, name: Text, value: Text) returns (values': Option<Text>)
      requires values.Some? ==> values.value == section && section in sections
      modifies this`sections, this`hasErrors
      ensures var r := Feed(Reader(old(sections), section, false, old(hasErrors)), Pair(name, value));
        sections == r.sections && hasErrors == r.errors
      ensures values' == Some(section) && section in sections
    {
      values' := values;
      if values'.None? {
        if section !in sections {
          sections := sections[section := map[]];
        }
        values' := Some(section);
      }
      if name in sections[values'.value] {
        hasErrors := true;
        return;
      }
      assert sections[values'.value] == Existing(old(sections), section);
      sections := sections[values'.value := sections[values'.value][name := value]];
    }

    /** Section by section; what was written when a write fails is a part of the file that is never committed. */
    method Generate(failsAt: Option<Text>) returns (ok: bool, text: Text)
      ensures ok <==> Takes(sections, failsAt)
      ensures text <= Generated(sections) && (ok ==> text == Generated(sections))
    {
      text := [];
      var names := SortedKeys(sections.Keys);
      for i := 0 to |names|
        invariant text == Joined(AllSectionLines(names[..i], sections))
        invariant failsAt.Some? ==> failsAt.value !in names[..i] || Takes(sections, failsAt)
      {
        var name := names[i];
        SectionsSnoc(names, i, sections);
        assert names[..i + 1] == names[..i] + [name];
        if sections[name] == map[] {
          continue;
        }
        var buffer := SectionBuffer(name, sections[name]);
        if failsAt == Some(name) {
          SectionsPrefix(names, i, sections);
          return false, text;
        }
        text := text + buffer;
      }
      assert names[..|names|] == names;
      ok := true;
    }

    /** Writes the file as a whole or not at all, and never one that was not read correctly. */
    method Sync(saving: Saving) returns (ok: bool)
      modifies this`hasChanges, file
      ensures ok <==> Saves(old(State()), saving)
      ensures World(State(), file.content) == Apply(old(World(State(), file.content)), Op.Sync(saving))
    {
      if hasErrors {
        return false;
      }
      if !saving.opens {
        return false;
      }
      var text;
      ok, text := Generate(saving.failsAt);
      if !ok || !saving.commits {
        return false;
      }
      file.content := Present(text);
      hasChanges := false;
    }

    method SetRawValue(section: Text, key: Text, value: Text)
      modifies this`sections, this`hasChanges
      ensures State() == SetRaw(old(State()), section, key, value)
    {
      if !ReadsBackUnchanged(section) || !IsValidKey(key) || !ReadsBackUnchanged(value) {
        return;
      }
      if section !in sections {
        sections := sections[section := map[]];
      }
      if key in sections[section] && sections[section][key] == value {
        return;
      }
      sections := sections[section := sections[section][key := value]];
      hasChanges := true;
    }

    method RemoveValue(section: Text, key: Text)
      modifies this`sections, this`hasChanges
      ensures State() == Removed(old(State()), section, key)
    {
      if section in sections && key in sections[section] {
        sections := sections[section := sections[section] - {key}];
        hasChanges := true;
      }
    }

    /** setInt64Value to setUInt16Value: the number as it is written. */
    method SetNumberValue(section: Text, key: Text, value: int)
      modifies this`sections, this`hasChanges
      ensures State() == SetRaw(old(State()), section, key, NumberText(value))
    {
      SetRawValue(section, key, NumberText(value));
    }

    method SetBooleanValue(section: Text, key: Text, value: bool)
      modifies this`sections, this`hasChanges
      ensures State() == SetRaw(old(State()), section, key, BooleanText(value))
    {
      SetRawValue(section, key, BooleanText(value));
    }

    method SetBinaryValue(section: Text, key: Text, value: Text)
      modifies this`sections, this`hasChanges
      ensures State() == SetRaw(old(State()), section, key, ToHex(value))
    {
      SetRawValue(section, key, ToHex(value));
    }

    method BinaryValue(section: Text, key: Text, default: Text) returns (data: Text)
      ensures data == BinaryIn(sections, section, key, default)
    {
      var raw := RawIn(sections, section, key);
      if raw.None? {
        return default;
      }
      var hex := IsHex(raw.value);
      if !hex {
        return default;
      }
      data := FromHex(raw.value);
    }

    /** True exactly when `sync` would write an empty file. */
    predicate IsEmpty()
      reads this
      ensures IsEmpty() <==> Generated(sections) == []
    {
      NothingToWrite(sections);
      assert WithoutEmpty(sections) == map[] <==> forall s :: s in sections ==> sections[s] == map[] by {
        if s :| s in sections && sections[s] != map[] { assert s in WithoutEmpty(sections); }
      }
      forall s :: s in sections ==> sections[s] == map[]
    }
  }
}
