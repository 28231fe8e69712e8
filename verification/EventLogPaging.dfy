/**
  Paging through a Windows event log (source/base/event_enumerator_win.cc).

  The log is a fixed sequence of records, newest first, as the reverse query delivers them.  A cursor is
  the decimal text of a record offset; the offsets are 32-bit numbers and wrap around as such.
 */
module EventLogPaging {
  import opened Common
  import opened Bytes
  import opened Numerals

  const U32 := 0x1_0000_0000
  const INT_MAX := 0x7FFF_FFFF

  /** Unsigned 32-bit arithmetic. */
  function Wrap32(n: nat): (w: nat)
    ensures w < U32
  {
    if n < U32 then n else Wrap32(n - U32)
  }

  /** `renders` is whether the system properties of the record can be read; others are skipped. */
  datatype Record = Record(id: int, renders: bool)

  datatype Direction = OLDER | NEWER

  // ---------------------------------------------------------------------------------------------
  // Cursors
  // ---------------------------------------------------------------------------------------------

  function CursorText(offset: nat): Text {
    Numeral(offset, 10, true)
  }

  function DigitPrefix(t: Text): (p: Text)
    ensures AllDigits(p, 10)
  {
    if t != [] && 0 <= DigitValue(t[0]) < 10 then [t[0]] + DigitPrefix(t[1..]) else []
  }

  /** std::from_chars into an offset that starts as 0 and stays so when there is no number or none that fits. */
  function FromChars(t: Text): (n: nat)
    ensures n < U32
    ensures DigitPrefix(t) == [] || NumeralValue(DigitPrefix(t), 10) >= U32 ==> n == 0
    ensures DigitPrefix(t) != [] && NumeralValue(DigitPrefix(t), 10) < U32 ==> n == NumeralValue(DigitPrefix(t), 10)
  {
    var n := NumeralValue(DigitPrefix(t), 10);
    if n < U32 then n else 0
  }

  lemma {:induction false} DigitPrefixOfDigits(t: Text)
    requires AllDigits(t, 10)
    ensures DigitPrefix(t) == t
  {
    if t == [] {
    } else {
      DigitPrefixOfDigits(t[1..]);
      assert [t[0]] + t[1..] == t;
    }
  }

  /** The digits in front, up to the first byte that is none. */
  lemma {:induction false} DigitPrefixIs(digits: Text, rest: Text)
    requires AllDigits(digits, 10) && (rest == [] || !(0 <= DigitValue(rest[0]) < 10))
    ensures DigitPrefix(digits + rest) == digits
  {
    if digits == [] {
      assert digits + rest == rest;
    } else {
      assert (digits + rest)[1..] == digits[1..] + rest;
      DigitPrefixIs(digits[1..], rest);
      assert [digits[0]] + digits[1..] == digits;
    }
  }

  /** The opaque cursor a page hands out for an offset, and the offset a request reads from it. */
  function TextOf(offset: Option<nat>): Text {
    if offset.Some? then CursorText(offset.value) else []
  }

  function OffsetOf(cursor: Text): Option<nat> {
    if cursor == [] then None else Some(FromChars(cursor))
  }

  lemma {:induction false} CursorReadsBack(offset: Option<nat>)
    requires offset.Some? ==> offset.value < U32
    ensures OffsetOf(TextOf(offset)) == offset
  {
    if offset.Some? {
      NumeralRoundTrip(offset.value, 10, true);
      DigitPrefixOfDigits(CursorText(offset.value));
    }
  }

  // ---------------------------------------------------------------------------------------------
  // A page
  // ---------------------------------------------------------------------------------------------

  datatype Page = Page(start: nat, count: nat, hint: bool, records: seq<Record>)

  function FirstOffset(p: Page): Option<nat> {
    if p.records == [] then None else Some(p.start)
  }

  function LastOffset(p: Page): Option<nat> {
    if p.records == [] then None else Some(Wrap32(p.start + |p.records| - 1))
  }

  function FirstCursor(p: Page): Text {
    TextOf(FirstOffset(p))
  }

  function LastCursor(p: Page): Text {
    TextOf(LastOffset(p))
  }

  predicate AtNewest(p: Page) {
    p.start == 0
  }

  predicate AtOldest(p: Page) {
    p.hint || |p.records| < p.count
  }

  /** Where the page of a request starts. */
  function StartAt(log: seq<Record>, from: Option<nat>, direction: Direction, count: nat): nat {
    if count == 0 then 0
    else if from.Some? then
      if direction == OLDER then Wrap32(from.value + 1)
      else if from.value > count then from.value - count else 0
    else if direction == NEWER then
      var total := Wrap32(|log|);
      if total > count then total - count else 0
    else 0
  }

  /** static_cast<int> of the count. */
  function Remaining(count: nat): int {
    if count <= INT_MAX then count else count - U32
  }

  /** The records from `at` on that render, at most `limit` of them. */
  function Rendering(log: seq<Record>, at: nat, limit: int): seq<Record>
    decreases |log| - at
  {
    if at >= |log| || limit <= 0 then []
    else if log[at].renders then [log[at]] + Rendering(log, at + 1, limit - 1)
    else Rendering(log, at + 1, limit)
  }

  function PageAt(log: seq<Record>, from: Option<nat>, direction: Direction, count: nat): Page {
    var start := StartAt(log, from, direction, count);
    Page(start, count, count > 0 && from.None? && direction == NEWER, Rendering(log, start, Remaining(count)))
  }

  function PageOf(log: seq<Record>, cursor: Text, direction: Direction, count: nat): Page {
    PageAt(log, OffsetOf(cursor), direction, count)
  }

  // ---------------------------------------------------------------------------------------------
  // What a page holds
  // ---------------------------------------------------------------------------------------------

  predicate IsCount(count: nat) {
    0 < count <= INT_MAX
  }

  ghost predicate AreCounts(counts: seq<nat>) {
    forall i :: 0 <= i < |counts| ==> IsCount(counts[i])
  }

  /** Every record from `at` on that renders. */
  function Visible(log: seq<Record>, at: nat): seq<Record>
    decreases |log| - at
  {
    if at >= |log| then []
    else if log[at].renders then [log[at]] + Visible(log, at + 1)
    else Visible(log, at + 1)
  }

  /** A page is full, and then it does not reach behind the log, or it holds everything that is left. */
  lemma {:induction false} FullOrAll(log: seq<Record>, at: nat, limit: nat)
    requires at <= |log|
    ensures |Rendering(log, at, limit)| <= limit
    ensures |Rendering(log, at, limit)| == limit ==> at + limit <= |log|
    ensures |Rendering(log, at, limit)| < limit ==> Rendering(log, at, limit) == Visible(log, at)
    decreases |log| - at
  {
    if at == |log| || limit == 0 {
    } else {
      FullOrAll(log, at + 1, if log[at].renders then limit - 1 else limit);
    }
  }

  /** A page is the first records that render, as many as were asked for. */
  lemma {:induction false} PageIsPrefix(log: seq<Record>, at: nat, limit: int)
    requires at <= |log|
    ensures Rendering(log, at, limit) == if limit < 0 then [] else Visible(log, at)[..Min(limit, |Visible(log, at)|)]
    decreases |log| - at
  {
    if at == |log| || limit <= 0 {
    } else {
      PageIsPrefix(log, at + 1, if log[at].renders then limit - 1 else limit);
    }
  }

  ghost predicate AllRender(log: seq<Record>, from: nat, to: nat) {
    forall i :: from <= i < to && i < |log| ==> log[i].renders
  }

  /** Where every record renders, a page is the next records of the log. */
  lemma {:induction false} RenderingAll(log: seq<Record>, at: nat, limit: nat, end: nat)
    requires at <= |log| && end == at + Min(limit, |log| - at) && AllRender(log, at, end)
    ensures Rendering(log, at, limit) == log[at..end]
    decreases |log| - at
  {
    if at == end {
    } else {
      RenderingAll(log, at + 1, limit - 1, end);
      assert log[at..end] == [log[at]] + log[at + 1..end];
    }
  }

  /** A page of n records that render reaches at least n records into the log. */
  lemma {:induction false} PageReaches(log: seq<Record>, at: nat, limit: nat, j: nat)
    requires at <= j < |log| && j < at + limit && log[j].renders
    ensures log[j] in Rendering(log, at, limit)
    decreases j - at
  {
    if at == j {
    } else {
      PageReaches(log, at + 1, if log[at].renders then limit - 1 else limit, j);
    }
  }

  // ---------------------------------------------------------------------------------------------
  // Following the cursors to the oldest record
  // ---------------------------------------------------------------------------------------------

  /** The pages of a client that starts at the newest one and goes on from each lastCursor until atOldest. */
  ghost predicate OlderSession(log: seq<Record>, counts: seq<nat>, pages: seq<Page>) {
    && 1 <= |pages| <= |counts|
    && pages[0] == PageOf(log, [], OLDER, counts[0])
    && forall i :: 0 <= i < |pages| - 1 ==> OlderNext(log, pages[i], counts[i + 1], pages[i + 1])
  }

  ghost predicate OlderNext(log: seq<Record>, p: Page, count: nat, q: Page) {
    !AtOldest(p) && q == PageOf(log, LastCursor(p), OLDER, count)
  }

  function Concatenated(pages: seq<Page>): seq<Record> {
    if pages == [] then [] else Concatenated(pages[..|pages| - 1]) + pages[|pages| - 1].records
  }

  lemma {:induction false} ConcatenatedSnoc(pages: seq<Page>, i: nat)
    requires i < |pages|
    ensures Concatenated(pages[..i + 1]) == Concatenated(pages[..i]) + pages[i].records
  {
    assert pages[..i + 1][..i] == pages[..i];
  }

  /** The page that starts at `start`, whatever renders. */
  function PageFrom(log: seq<Record>, start: nat, count: nat): Page {
    Page(start, count, false, Rendering(log, start, count))
  }

  /** An OLDER page starts behind as many records as the page before it asked for, without wrapping. */
  lemma {:induction false} OlderStep(log: seq<Record>, start: nat, count: nat, next: nat)
    requires |log| < U32 && start <= |log| && IsCount(count) && IsCount(next)
    requires !AtOldest(PageFrom(log, start, count))
    ensures start + count <= |log| && |Rendering(log, start, count)| == count
    ensures PageOf(log, LastCursor(PageFrom(log, start, count)), OLDER, next) == PageFrom(log, start + count, next)
  {
    FullOrAll(log, start, count);
    PageBehind(log, start + count - 1, next);
  }

  /** The OLDER page of a cursor starts at the record behind it. */
  lemma {:induction false} PageBehind(log: seq<Record>, offset: nat, count: nat)
    requires offset + 1 < U32 && IsCount(count)
    ensures PageOf(log, TextOf(Some(offset)), OLDER, count) == PageFrom(log, offset + 1, count)
  {
    CursorReadsBack(Some(offset));
  }

  /** Page i of a session starts at the sum of the counts before it. */
  lemma {:induction false} OlderSessionPage(log: seq<Record>, counts: seq<nat>, pages: seq<Page>, i: nat)
    requires |log| < U32 && AreCounts(counts) && OlderSession(log, counts, pages) && i < |pages|
    ensures Sum(counts[..i]) <= |log| && pages[i] == PageFrom(log, Sum(counts[..i]), counts[i])
    ensures i <= Sum(counts[..i]) == |Concatenated(pages[..i])|
  {
    if i == 0 {
    } else {
      var h := i - 1;
      OlderSessionPage(log, counts, pages, h);
      assert OlderNext(log, pages[h], counts[h + 1], pages[h + 1]);
      OlderStep(log, Sum(counts[..h]), counts[h], counts[i]);
      SumSnoc(counts, h);
      ConcatenatedSnoc(pages, h);
    }
  }

  /** As long as every record so far renders, the pages are the records so far. */
  lemma {:induction false} ExactPrefix(log: seq<Record>, counts: seq<nat>, pages: seq<Page>, i: nat)
    requires |log| < U32 && AreCounts(counts) && OlderSession(log, counts, pages) && i < |pages|
    requires AllRender(log, 0, Sum(counts[..i]))
    ensures Sum(counts[..i]) <= |log| && Concatenated(pages[..i]) == log[..Sum(counts[..i])]
  {
    OlderSessionPage(log, counts, pages, i);
    if i == 0 {
    } else {
      var h := i - 1;
      SumSnoc(counts, h);
      ExactPrefix(log, counts, pages, h);
      OlderSessionPage(log, counts, pages, h);
      ExactStep(log, pages, h, Sum(counts[..h]), counts[h], Sum(counts[..i]));
    }
  }

  lemma {:induction false} ExactStep(log: seq<Record>, pages: seq<Page>, h: nat, start: nat, count: nat, end: nat)
    requires h < |pages| && start + count == end <= |log| && AllRender(log, start, end)
    requires pages[h].records == Rendering(log, start, count) && Concatenated(pages[..h]) == log[..start]
    ensures Concatenated(pages[..h + 1]) == log[..end]
  {
    RenderingAll(log, start, count, end);
    ConcatenatedSnoc(pages, h);
    PrefixGrows(log, start, end);
  }

  /** How many of the first n records do not render. */
  function Skipped(log: seq<Record>, n: nat): nat
    requires n <= |log|
  {
    if n == 0 then 0 else Skipped(log, n - 1) + if log[n - 1].renders then 0 else 1
  }

  lemma {:induction false} SkippedNone(log: seq<Record>, n: nat)
    requires n <= |log|
    ensures Skipped(log, n) == 0 <==> AllRender(log, 0, n)
  {
    if n == 0 {
    } else {
      SkippedNone(log, n - 1);
    }
  }

  lemma {:induction false} VisibleCount(log: seq<Record>, n: nat)
    requires n <= |log|
    ensures |Visible(log, 0)| + Skipped(log, n) == n + |Visible(log, n)|
  {
    if n == 0 {
    } else {
      VisibleCount(log, n - 1);
    }
  }

  lemma {:induction false} VisibleSplit(log: seq<Record>, n: nat)
    requires n <= |log| && AllRender(log, 0, n)
    ensures Visible(log, 0) == log[..n] + Visible(log, n)
  {
    if n == 0 {
    } else {
      VisibleSplit(log, n - 1);
      assert log[..n] == log[..n - 1] + [log[n - 1]];
    }
  }

  /** The pages of a session that reached the oldest record, as the full ones and the last one. */
  lemma {:induction false} SessionSplit(log: seq<Record>, counts: seq<nat>, pages: seq<Page>, start: nat)
    requires |log| < U32 && AreCounts(counts) && OlderSession(log, counts, pages) && AtOldest(pages[|pages| - 1])
    requires start == Sum(counts[..|pages| - 1])
    ensures start <= |log| && pages[|pages| - 1].start == start
    ensures Concatenated(pages) == Concatenated(pages[..|pages| - 1]) + Visible(log, start)
    ensures |Concatenated(pages[..|pages| - 1])| == start
  {
    var last := |pages| - 1;
    OlderSessionPage(log, counts, pages, last);
    FullOrAll(log, start, counts[last]);
  }

  /**
    Over every session that reaches the oldest record, with any counts and whatever records do not render:
    each record that does not render before the last page makes one other record come again.  The pages are the
    records that render, once each and in order, if and only if every record before the last page renders; and
    where that page starts is the sum of the counts before it.
   */
  lemma {:induction false} SkippedRecordsRepeat(log: seq<Record>, counts: seq<nat>, pages: seq<Page>)
    requires |log| < U32 && AreCounts(counts) && OlderSession(log, counts, pages) && AtOldest(pages[|pages| - 1])
    ensures var start := Sum(counts[..|pages| - 1]);
      && start <= |log| && pages[|pages| - 1].start == start
      && |Concatenated(pages)| == |Visible(log, 0)| + Skipped(log, start)
      && (Concatenated(pages) == Visible(log, 0) <==> AllRender(log, 0, start))
  {
    var last := |pages| - 1;
    var start := Sum(counts[..last]);
    SessionSplit(log, counts, pages, start);
    VisibleCount(log, start);
    SkippedNone(log, start);
    if AllRender(log, 0, start) {
      ExactPrefix(log, counts, pages, last);
      VisibleSplit(log, start);
    }
  }

  /** Nothing that renders is ever missed: page i and those before it hold all of it that their counts cover. */
  lemma {:induction false} NothingIsMissed(log: seq<Record>, counts: seq<nat>, pages: seq<Page>, i: nat, j: nat)
    requires |log| < U32 && AreCounts(counts) && OlderSession(log, counts, pages) && i < |pages|
    requires j < |log| && log[j].renders && (j < Sum(counts[..i + 1]) || AtOldest(pages[i]))
    ensures log[j] in Concatenated(pages[..i + 1])
  {
    var start := Sum(counts[..i]);
    SumSnoc(counts, i);
    OlderSessionPage(log, counts, pages, i);
    ConcatenatedSnoc(pages, i);
    if start <= j {
      FullOrAll(log, start, counts[i]);
      if j < start + counts[i] {
        PageReaches(log, start, counts[i], j);
      } else {
        VisibleReaches(log, start, j);
      }
    } else {
      NothingIsMissed(log, counts, pages, i - 1, j);
    }
  }

  lemma {:induction false} VisibleReaches(log: seq<Record>, at: nat, j: nat)
    requires at <= j < |log| && log[j].renders
    ensures log[j] in Visible(log, at)
    decreases j - at
  {
    if at == j {
    } else {
      VisibleReaches(log, at + 1, j);
    }
  }

  /** A log where this happens: record 3 is delivered twice. */
  lemma {:induction false} SkippedRecordRepeats()
    ensures var log := [Record(1, true), Record(2, false), Record(3, true), Record(4, true)];
      var p := PageOf(log, [], OLDER, 2);
      p.records == [Record(1, true), Record(3, true)]
      && PageOf(log, LastCursor(p), OLDER, 2).records == [Record(3, true), Record(4, true)]
  {
    var log := [Record(1, true), Record(2, false), Record(3, true), Record(4, true)];
    CursorReadsBack(Some(1));
    assert Rendering(log, 0, 2) == [log[0]] + Rendering(log, 1, 1);
    assert Rendering(log, 1, 1) == Rendering(log, 2, 1) == [log[2]] + Rendering(log, 3, 0);
    assert Rendering(log, 2, 2) == [log[2]] + Rendering(log, 3, 1);
    assert Rendering(log, 3, 1) == [log[3]] + Rendering(log, 4, 0);
  }

  // ---------------------------------------------------------------------------------------------
  // Logs that render as a whole
  // ---------------------------------------------------------------------------------------------

  ghost predicate Complete(log: seq<Record>) {
    |log| < U32 && forall i :: 0 <= i < |log| ==> log[i].renders
  }

  /** The page holds the records from `start` on, as many as were asked for and are there. */
  ghost predicate Covers(log: seq<Record>, p: Page, start: nat, count: nat) {
    && start <= |log| && p.start == start && p.count == count
    && p.records == log[start..start + Min(count, |log| - start)]
  }

  /** The records a page of such a log holds. */
  lemma {:induction false} PageCovers(log: seq<Record>, start: nat, count: nat)
    requires Complete(log) && start <= |log|
    ensures Covers(log, PageFrom(log, start, count), start, count)
  {
    RenderingAll(log, start, count, start + Min(count, |log| - start));
  }

  lemma {:induction false} PrefixGrows(log: seq<Record>, start: nat, end: nat)
    requires start <= end <= |log|
    ensures log[..start] + log[start..end] == log[..end] <= log
    ensures end == |log| ==> log[..end] == log
  {
  }

  /**
    Over every session, with any counts: the pages put together are the newest records of the log without
    gap or repeat, and the whole log once atOldest is said; only the page that says so can be empty; and
    a session has at most one page more than the log has records.
   */
  lemma {:induction false} OlderSessionReadsAll(log: seq<Record>, counts: seq<nat>, pages: seq<Page>)
    requires Complete(log) && AreCounts(counts) && OlderSession(log, counts, pages)
    ensures Concatenated(pages) <= log
    ensures AtOldest(pages[|pages| - 1]) ==> Concatenated(pages) == log
    ensures forall i :: 0 <= i < |pages| - 1 ==> pages[i].records != []
    ensures |pages| <= |log| + 1
  {
    var last := |pages| - 1;
    var start := Sum(counts[..last]);
    OlderSessionPage(log, counts, pages, last);
    ExactPrefix(log, counts, pages, last);
    PageCovers(log, start, counts[last]);
    PrefixGrows(log, start, start + Min(counts[last], |log| - start));
    forall i | 0 <= i < last ensures pages[i].records != [] {
      OlderSessionPage(log, counts, pages, i);
      assert OlderNext(log, pages[i], counts[i + 1], pages[i + 1]);
    }
  }

  /** On every page of a session atNewest is exact: only the first one starts with the newest record. */
  lemma {:induction false} NewestFlagIsExact(log: seq<Record>, counts: seq<nat>, pages: seq<Page>, i: nat)
    requires |log| < U32 && AreCounts(counts) && OlderSession(log, counts, pages) && i < |pages|
    ensures AtNewest(pages[i]) <==> i == 0
  {
    OlderSessionPage(log, counts, pages, i);
  }

  /** A count that does not fit an int reads nothing and says atOldest. */
  lemma {:induction false} HugeCountReadsNothing(log: seq<Record>, cursor: Text, direction: Direction, count: nat)
    requires INT_MAX < count < U32
    ensures PageOf(log, cursor, direction, count).records == [] && AtOldest(PageOf(log, cursor, direction, count))
  {
  }

  /** A count of zero reads nothing and is at no oldest record. */
  lemma {:induction false} NothingAsked(log: seq<Record>, cursor: Text, direction: Direction)
    ensures var p := PageOf(log, cursor, direction, 0); p.records == [] && p.start == 0 && !AtOldest(p)
  {
  }

  /** Only the last 32-bit offset wraps around: behind it the log starts again. */
  lemma {:induction false} LastOffsetWraps(log: seq<Record>, offset: nat, count: nat)
    requires offset < 0x1_0000_0000 && IsCount(count)
    ensures PageOf(log, TextOf(Some(offset)), OLDER, count).start == if offset == 0xFFFF_FFFF then 0 else offset + 1
  {
    CursorReadsBack(Some(offset));
  }

  /**
    On every page of a session atOldest is exact, except when the oldest record is also the last of a full
    page: then the flag comes a page late.
   */
  lemma {:induction false} OldestFlagIsExact(log: seq<Record>, counts: seq<nat>, pages: seq<Page>, i: nat)
    requires Complete(log) && AreCounts(counts) && OlderSession(log, counts, pages) && i < |pages|
    ensures var p := pages[i];
      (AtOldest(p) <==> p.start + |p.records| == |log|) <==> p.start + counts[i] != |log|
  {
    OlderSessionPage(log, counts, pages, i);
    PageCovers(log, Sum(counts[..i]), counts[i]);
  }

  /** It does come late: one record and a count of one. */
  lemma {:induction false} OldestFlagIsLate(log: seq<Record>)
    requires Complete(log) && |log| == 1
    ensures var p := PageOf(log, [], OLDER, 1);
      OlderSession(log, [1], [p]) && p.records == log && !AtOldest(p)
  {
    PageCovers(log, 0, 1);
  }

  // ---------------------------------------------------------------------------------------------
  // Going back
  // ---------------------------------------------------------------------------------------------

  function NewerStart(offset: nat, count: nat): nat {
    if offset > count then offset - count else 0
  }

  /** A NEWER page from the first record of another page. */
  lemma {:induction false} NewerStep(log: seq<Record>, p: Page, count: nat)
    requires Complete(log) && IsCount(count) && p.start < |log| && p.records != []
    ensures var q := PageOf(log, FirstCursor(p), NEWER, count);
      Covers(log, q, NewerStart(p.start, count), count) && !q.hint
  {
    CursorReadsBack(FirstOffset(p));
    PageCovers(log, NewerStart(p.start, count), count);
  }

  /** An empty cursor and NEWER: the page of the last records. */
  lemma {:induction false} OldestPage(log: seq<Record>, count: nat)
    requires Complete(log) && IsCount(count)
    ensures var q := PageOf(log, [], NEWER, count); Covers(log, q, NewerStart(|log|, count), count) && q.hint
  {
    PageCovers(log, NewerStart(|log|, count), count);
  }

  /**
    Going older and then newer by the same count leads back to the very same page.  At the end of the log,
    where the older page was empty, it is reached as the oldest page, which is said in its flag.
   */
  lemma {:induction false} NewerUndoesOlder(log: seq<Record>, p: Page, other: nat)
    requires Complete(log) && IsCount(p.count) && IsCount(other)
    requires Covers(log, p, p.start, p.count) && !AtOldest(p)
    ensures PageOf(log, FirstCursor(PageOf(log, LastCursor(p), OLDER, other)), NEWER, p.count)
         == p.(hint := p.start + p.count == |log|)
  {
    var next := p.start + p.count;
    OlderOf(log, p, other);
    if next == |log| {
      OldestPage(log, p.count);
    } else {
      NewerStep(log, PageOf(log, LastCursor(p), OLDER, other), p.count);
    }
  }

  lemma {:induction false} OlderOf(log: seq<Record>, p: Page, other: nat)
    requires Complete(log) && IsCount(p.count) && IsCount(other)
    requires Covers(log, p, p.start, p.count) && !AtOldest(p)
    ensures p.start + p.count <= |log| && p.records == log[p.start..p.start + p.count]
    ensures Covers(log, PageOf(log, LastCursor(p), OLDER, other), p.start + p.count, other)
  {
    PageCovers(log, p.start, p.count);
    OlderStep(log, p.start, p.count, other);
    PageCovers(log, p.start + p.count, other);
  }

  /** A NEWER page stays clear of the record it was asked from exactly when there is room for all of it. */
  lemma {:induction false} NewerOverlaps(log: seq<Record>, p: Page, count: nat)
    requires Complete(log) && IsCount(count) && p.start < |log| && p.records != []
    ensures var q := PageOf(log, FirstCursor(p), NEWER, count);
      q.start + |q.records| <= p.start <==> count <= p.start
  {
    NewerStep(log, p, count);
  }

  /** A client that starts at the oldest page and goes on from each firstCursor until atNewest. */
  ghost predicate NewerSession(log: seq<Record>, counts: seq<nat>, pages: seq<Page>) {
    && 1 <= |pages| <= |counts|
    && pages[0] == PageOf(log, [], NEWER, counts[0])
    && forall i :: 0 <= i < |pages| - 1 ==> NewerNext(log, pages[i], counts[i + 1], pages[i + 1])
  }

  ghost predicate NewerNext(log: seq<Record>, p: Page, count: nat, q: Page) {
    !AtNewest(p) && q == PageOf(log, FirstCursor(p), NEWER, count)
  }

  /** Pages towards the newest record, put on top of one another. */
  function Stacked(pages: seq<Page>): seq<Record> {
    if pages == [] then [] else pages[|pages| - 1].records + Stacked(pages[..|pages| - 1])
  }

  lemma {:induction false} OnTop(log: seq<Record>, pages: seq<Page>, i: nat, start: nat, end: nat)
    requires i < |pages| && start <= end <= |log| && pages[i].records == log[start..end]
    requires Stacked(pages[..i]) == log[end..]
    ensures Stacked(pages[..i + 1]) == log[start..]
  {
    assert pages[..i + 1][..i] == pages[..i];
    assert log[start..end] + log[end..] == log[start..];
  }

  /** Page i of a session ends where the pages before it start, as many records from the end as they asked for. */
  lemma {:induction false} NewerSessionPage(log: seq<Record>, counts: seq<nat>, pages: seq<Page>, i: nat, end: int)
    requires Complete(log) && AreCounts(counts) && NewerSession(log, counts, pages) && i < |pages|
    requires end == |log| - Sum(counts[..i])
    ensures end >= 0 && (i > 0 ==> 0 < end <= |log| - i)
    ensures Covers(log, pages[i], NewerStart(end, counts[i]), counts[i])
    ensures Stacked(pages[..i]) == log[end..]
  {
    if i == 0 {
      OldestPage(log, counts[0]);
    } else {
      var h := i - 1;
      SumSnoc(counts, h);
      NewerSessionPage(log, counts, pages, h, end + counts[h]);
      assert NewerNext(log, pages[h], counts[h + 1], pages[h + 1]);
      NewerNextCovers(log, pages[h], end + counts[h], counts[h], counts[i], pages[i]);
      OnTop(log, pages, h, end, end + counts[h]);
    }
  }

  /** A page that is not the newest one was filled, and the next page of the session ends where it starts. */
  lemma {:induction false} NewerNextCovers(log: seq<Record>, p: Page, end: nat, count: nat, next: nat, q: Page)
    requires Complete(log) && IsCount(count) && IsCount(next) && end <= |log|
    requires Covers(log, p, NewerStart(end, count), count) && NewerNext(log, p, next, q)
    ensures count < end && p.records == log[end - count..end]
    ensures Covers(log, q, NewerStart(end - count, next), next)
  {
    NewerStep(log, p, next);
  }

  /**
    Over every session that reaches the newest record, with any counts, the pages put together are the log
    exactly when the first count covers it or the counts sum up to it; otherwise the newest page repeats records
    of the one before it.  There is at most one page for each record.
   */
  lemma {:induction false} NewerSessionIsExact(log: seq<Record>, counts: seq<nat>, pages: seq<Page>)
    requires Complete(log) && AreCounts(counts) && NewerSession(log, counts, pages) && AtNewest(pages[|pages| - 1])
    ensures Stacked(pages) == log <==> counts[0] >= |log| || Sum(counts[..|pages|]) == |log|
    ensures |pages| == 1 || |pages| <= |log|
  {
    var last := |pages| - 1;
    var end := |log| - Sum(counts[..last]);
    NewerSessionPage(log, counts, pages, last, end);
    SumSnoc(counts, last);
    if last == 0 {
      assert Stacked(pages) == log[0..|log|] + [];
    } else {
      NewerSessionPage(log, counts, pages, 0, |log|);
      assert NewerNext(log, pages[0], counts[0 + 1], pages[0 + 1]);
      NewestOnTop(log, Min(counts[last], |log|), end);
    }
  }

  /** The newest n records on top of those from `end` on: the log exactly when nothing comes twice. */
  lemma {:induction false} NewestOnTop(log: seq<Record>, n: nat, end: nat)
    requires 0 < end <= n <= |log|
    ensures log[0..n] + log[end..] == log <==> n == end
  {
    assert |log[0..n] + log[end..]| == n + |log| - end;
    assert n == end ==> log[0..n] + log[end..] == log;
  }

  ghost predicate AllEqual(counts: seq<nat>, count: nat) {
    forall i :: 0 <= i < |counts| ==> counts[i] == count
  }

  lemma {:induction false} EqualSum(counts: seq<nat>, count: nat, i: nat)
    requires AllEqual(counts, count) && i <= |counts|
    ensures Sum(counts[..i]) == i * count
  {
    if i == 0 {
    } else {
      EqualSum(counts, count, i - 1);
      SumSnoc(counts, i - 1);
      assert i * count == (i - 1) * count + count;
    }
  }

  /** With one count for all pages: exact exactly when the log fits one page or fills whole ones. */
  lemma {:induction false} EqualPagesAreExact(log: seq<Record>, counts: seq<nat>, pages: seq<Page>, count: nat)
    requires Complete(log) && AreCounts(counts) && NewerSession(log, counts, pages) && AtNewest(pages[|pages| - 1])
    requires AllEqual(counts, count)
    ensures Stacked(pages) == log <==> |log| <= count || exists k: nat :: |log| == k * count
  {
    var last := |pages| - 1;
    NewerSessionIsExact(log, counts, pages);
    EqualSum(counts, count, last);
    EqualSum(counts, count, |pages|);
    if k: nat :| |log| == k * count && |log| > count {
      NewerSessionPage(log, counts, pages, last, |log| - last * count);
      NewerSessionPage(log, counts, pages, 0, |log|);
      WholePages(k, count, last);
    }
  }

  /** Between one and one page of records that fill whole pages are exactly one page. */
  lemma {:induction false} WholePages(k: nat, count: nat, last: nat)
    requires 0 < k * count - last * count <= count
    ensures k * count == (last + 1) * count
  {
    ProductsKeepOrder(k, last, count);
    ProductsKeepOrder(last + 2, k, count);
  }

  lemma {:induction false} ProductsKeepOrder(a: nat, b: nat, count: nat)
    ensures a <= b ==> a * count <= b * count
  {
  }

  /** Repeats do happen: with three records and a count of two, record 2 comes on both pages. */
  lemma {:induction false} NewerRepeats(log: seq<Record>)
    requires Complete(log) && |log| == 3
    ensures var p := PageOf(log, [], NEWER, 2);
      var q := PageOf(log, FirstCursor(p), NEWER, 2);
      && NewerSession(log, [2, 2], [p, q]) && AtNewest(q)
      && p.records == [log[1], log[2]] && q.records == [log[0], log[1]]
      && q.start + |q.records| > p.start && Stacked([p, q]) != log
  {
    OldestPage(log, 2);
    var p := PageOf(log, [], NEWER, 2);
    NewerStep(log, p, 2);
    var q := PageOf(log, FirstCursor(p), NEWER, 2);
    assert [p, q][..1] == [p];
    assert Sum([2, 2][..2]) == 4 by {
      SumSnoc([2, 2], 1);
      SumSnoc([2, 2], 0);
    }
    NewerSessionIsExact(log, [2, 2], [p, q]);
  }

  // ---------------------------------------------------------------------------------------------
  // The enumerator
  // ---------------------------------------------------------------------------------------------

  class EventEnumeratorWin {
    const log: seq<Record>
    const start: nat
    const count: nat
    const hint: bool
    var open: bool            // the query is valid
    var at: nat               // the record the query delivers next
    var remaining: int
    var readCount: nat
    var eventReady: bool
    var event: Record

    /** What the caller will still get. */
    ghost function Pending(): seq<Record>
      reads this
    {
      if !open then []
      else if eventReady then [event] + Rendering(log, at, remaining - 1)
      else Rendering(log, at, remaining)
    }

    /** `seeks` is whether EvtSeek succeeds; when it does not, the query stays at the newest record. */
    constructor (log: seq<Record>, opens: bool, seeks: bool, cursor: Text, direction: Direction, count: nat)
      requires count < U32
      ensures this.log == log && readCount == 0 && !eventReady
      ensures var p := PageOf(log, cursor, direction, count);
        && start == p.start && this.count == count && hint == p.hint
        && Pending() == if !opens then [] else if seeks then p.records else Rendering(log, 0, Remaining(count))
    {
      this.log := log;
      this.count := count;
      readCount, eventReady, event := 0, false, Record(0, false);
      var first := 0;
      var oldest := false;
      if count > 0 {
        if cursor != [] {
          var offset := FromChars(cursor);
          if direction == OLDER {
            first := Wrap32(offset + 1);
          } else if offset > count {
            first := offset - count;
          }
        } else if direction == NEWER {
          var total := Wrap32(|log|);
          first := if total > count then total - count else 0;
          oldest := true;
        }
      }
      start := first;
      hint := oldest;
      open := count > 0 && opens;
      at := if first > 0 && seeks then first else 0;
      remaining := if count > 0 && opens then Remaining(count) else 0;
    }

    /** firstCursor(), lastCursor() and atOldest(), from the counters. */
    function NewestCursor(): Text
      reads this
    {
      if readCount == 0 then [] else CursorText(start)
    }

    function OldestCursor(): Text
      reads this
    {
      if readCount == 0 then [] else CursorText(Wrap32(start + readCount - 1))
    }

    predicate ReachesOldest()
      reads this
    {
      hint || readCount < count
    }

    method IsAtEnd() returns (end: bool)
      modifies this`at, this`remaining, this`readCount, this`eventReady, this`event
      ensures end <==> old(Pending()) == []
      ensures Pending() == old(Pending()) && open == old(open)
      ensures !end ==> eventReady && open && Pending()[0] == event
      ensures !end && !old(eventReady) ==> readCount == old(readCount) + 1
      ensures end || old(eventReady) ==> readCount == old(readCount)
    {
      if !open {
        return true;
      }
      if eventReady {
        return false;
      }
      var fetched := FetchNext();
      return !fetched;
    }

    /** The next record that renders; records that do not are skipped. */
    method FetchNext() returns (fetched: bool)
      requires open && !eventReady
      modifies this`at, this`remaining, this`readCount, this`eventReady, this`event
      ensures fetched <==> old(Pending()) != []
      ensures Pending() == old(Pending()) && eventReady == fetched
      ensures readCount == old(readCount) + if fetched then 1 else 0
    {
      if remaining <= 0 {
        return false;
      }
      while true
        invariant Pending() == old(Pending()) && !eventReady && remaining > 0 && readCount == old(readCount)
        decreases |log| - at
      {
        if at >= |log| {
          remaining := 0;
          return false;
        }
        var next := log[at];
        at := at + 1;
        if next.renders {
          event := next;
          eventReady := true;
          readCount := readCount + 1;
          return true;
        }
      }
    }

    method Advance()
      requires open && eventReady
      modifies this`eventReady, this`remaining
      ensures !eventReady && Pending() == old(Pending())[1..]
    {
      eventReady := false;
      remaining := remaining - 1;
    }

    /** One turn of the loop of a caller: the record that is ready, and on to the next one. */
    method Take() returns (record: Record, end: bool)
      requires open && eventReady
      modifies this`at, this`remaining, this`readCount, this`eventReady, this`event
      ensures open == old(open) && old(Pending()) == [record] + Pending()
      ensures (end <==> Pending() == []) && (!end ==> eventReady)
      ensures readCount == old(readCount) + if end then 0 else 1
    {
      record := event;
      Advance();
      end := IsAtEnd();
    }

    /** The loop of the caller: it gets the page and no more, and the count of records is exact. */
    method ReadPage() returns (records: seq<Record>)
      requires !eventReady && readCount == 0
      modifies this`at, this`remaining, this`readCount, this`eventReady, this`event
      ensures records == old(Pending()) && readCount == |records|
      ensures NewestCursor() == FirstCursor(Page(start, count, hint, records))
      ensures OldestCursor() == LastCursor(Page(start, count, hint, records))
      ensures ReachesOldest() <==> AtOldest(Page(start, count, hint, records))
    {
      records := [];
      ghost var all := Pending();
      ghost var rest := all;
      var end := IsAtEnd();
      while !end
        invariant rest == Pending() && records + rest == all
        invariant end <==> rest == []
        invariant !end ==> open && eventReady
        invariant readCount == |records| + if end then 0 else 1
        decreases |rest|
      {
        var record;
        record, end := Take();
        rest := Pending();
        records := records + [record];
      }
    }
  }
}
