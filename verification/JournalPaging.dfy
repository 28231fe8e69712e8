/**
  Paging through the systemd journal (source/base/event_enumerator_linux.cc).

  The journal is a fixed sequence of entries, oldest first.  After seeking to a cursor the next step may
  land on the entry of the cursor or on its neighbour; which of the two is up to the environment.  So is what
  happens to a cursor that is not in the journal: seeking it fails, or leads between two entries.
 */
module JournalPaging {
  import opened Common

  datatype Record = Record(kind: int, time: int, source: string, description: string)

  datatype Entry = Entry(cursor: string, record: Record)

  datatype Direction = OLDER | NEWER

  /** Every entry has a cursor of its own, and the empty string is none. */
  ghost predicate UniqueCursors(log: seq<Entry>) {
    && (forall i :: 0 <= i < |log| ==> log[i].cursor != "")
    && (forall i, j :: 0 <= i < j < |log| ==> log[i].cursor != log[j].cursor)
  }

  // ---------------------------------------------------------------------------------------------
  // A page
  // ---------------------------------------------------------------------------------------------

  datatype Page = Page(records: seq<Record>, firstCursor: string, lastCursor: string, atNewest: bool, atOldest: bool)

  function IndexOf(log: seq<Entry>, cursor: string): (i: Option<nat>)
    ensures i.Some? ==> i.value < |log| && log[i.value].cursor == cursor
    ensures i.None? ==> forall j :: 0 <= j < |log| ==> log[j].cursor != cursor
  {
    if log == [] then None
    else if log[|log| - 1].cursor == cursor then Some(|log| - 1)
    else IndexOf(log[..|log| - 1], cursor)
  }

  /** The first entry the page is read from. */
  function FirstRead(log: seq<Entry>, cursor: string, direction: Direction): (i: Option<nat>)
    ensures i.Some? ==> i.value < |log|
  {
    if cursor == "" then
      if log == [] then None else if direction == NEWER then Some(0) else Some(|log| - 1)
    else match IndexOf(log, cursor)
      case None => None
      case Some(i) =>
        if direction == NEWER then (if i + 1 < |log| then Some(i + 1) else None)
        else (if i > 0 then Some(i - 1) else None)
  }

  function NewestFirst(s: seq<Entry>): (r: seq<Record>)
    ensures |r| == |s|
  {
    if s == [] then [] else [s[|s| - 1].record] + NewestFirst(s[..|s| - 1])
  }

  lemma {:induction false} NewestFirstIs(s: seq<Entry>)
    ensures forall i :: 0 <= i < |s| ==> NewestFirst(s)[i] == s[|s| - 1 - i].record
  {
    if s == [] {
    } else {
      NewestFirstIs(s[..|s| - 1]);
    }
  }

  /** The page of the entries lo to hi - 1. */
  function Slice(log: seq<Entry>, lo: nat, hi: nat, atNewest: bool, atOldest: bool): Page
    requires lo < hi <= |log|
  {
    Page(NewestFirst(log[lo..hi]), log[hi - 1].cursor, log[lo].cursor, atNewest, atOldest)
  }

  /** Up to `count` entries from entry k on; `atEnd` is whether k is the end of the log that was jumped to. */
  function PageFrom(log: seq<Entry>, direction: Direction, count: nat, k: nat, atEnd: bool): Page
    requires k < |log| && count > 0
  {
    if direction == NEWER then
      var hi := k + Min(count, |log| - k);
      Slice(log, k, hi, hi == |log|, atEnd)
    else
      var hi := k + 1;
      var lo := hi - Min(count, hi);
      Slice(log, lo, hi, atEnd, lo == 0)
  }

  function PageOf(log: seq<Entry>, cursor: string, direction: Direction, count: nat): Page {
    if count == 0 then Page([], "", "", false, false)
    else match FirstRead(log, cursor, direction)
      case None => Page([], "", "", cursor == "" && direction == OLDER, cursor == "" && direction == NEWER)
      case Some(k) => PageFrom(log, direction, count, k, cursor == "")
  }

  lemma {:induction false} IndexOfEntry(log: seq<Entry>, i: nat)
    requires UniqueCursors(log) && i < |log|
    ensures IndexOf(log, log[i].cursor) == Some(i)
  {
  }

  /** A page with records is a slice of the log, with flags that know whether it reaches the ends. */
  lemma {:induction false} PageIsSlice(log: seq<Entry>, cursor: string, direction: Direction, count: nat)
    returns (lo: nat, hi: nat)
    requires PageOf(log, cursor, direction, count).records != []
    ensures lo < hi <= |log|
    ensures PageOf(log, cursor, direction, count) == Slice(log, lo, hi, hi == |log|, lo == 0)
  {
    var k := FirstRead(log, cursor, direction).value;
    PageFromEnd(log, cursor, direction);
    lo, hi := SliceFrom(log, direction, count, k, cursor == "");
  }

  /** A page that starts at an end of the log was asked for without a cursor. */
  lemma {:induction false} PageFromEnd(log: seq<Entry>, cursor: string, direction: Direction)
    requires FirstRead(log, cursor, direction).Some?
    ensures var k := FirstRead(log, cursor, direction).value;
      cursor == "" <==> k == if direction == NEWER then 0 else |log| - 1
  {
  }

  lemma {:induction false} SliceFrom(log: seq<Entry>, direction: Direction, count: nat, k: nat, atEnd: bool)
    returns (lo: nat, hi: nat)
    requires k < |log| && count > 0 && (atEnd <==> k == if direction == NEWER then 0 else |log| - 1)
    ensures lo < hi <= |log|
    ensures PageFrom(log, direction, count, k, atEnd) == Slice(log, lo, hi, hi == |log|, lo == 0)
  {
    if direction == NEWER {
      lo, hi := k, k + Min(count, |log| - k);
    } else {
      lo, hi := k + 1 - Min(count, k + 1), k + 1;
    }
  }

  /** The end flags tell the truth about every page that has records. */
  lemma {:induction false} FlagsAreExact(log: seq<Entry>, cursor: string, direction: Direction, count: nat)
    requires UniqueCursors(log) && PageOf(log, cursor, direction, count).records != []
    ensures log != []
    ensures var p := PageOf(log, cursor, direction, count);
      && (p.atNewest <==> p.firstCursor == log[|log| - 1].cursor)
      && (p.atOldest <==> p.lastCursor == log[0].cursor)
  {
    var lo, hi := PageIsSlice(log, cursor, direction, count);
    var last := hi - 1;
    assert last < |log| - 1 ==> log[last].cursor != log[|log| - 1].cursor;
    assert 0 < lo ==> log[0].cursor != log[lo].cursor;
  }

  // ---------------------------------------------------------------------------------------------
  // Following the cursors
  // ---------------------------------------------------------------------------------------------

  ghost predicate Positive(counts: seq<nat>) {
    forall i :: 0 <= i < |counts| ==> counts[i] > 0
  }

  /** The pages a client gets with these counts, going on from each lastCursor until atOldest. */
  function OlderWalk(log: seq<Entry>, cursor: string, counts: seq<nat>): seq<Page>
    decreases |counts|
  {
    if counts == [] then []
    else
      var p := PageOf(log, cursor, OLDER, counts[0]);
      [p] + if p.atOldest then [] else OlderWalk(log, p.lastCursor, counts[1..])
  }

  function NewerWalk(log: seq<Entry>, cursor: string, counts: seq<nat>): seq<Page>
    decreases |counts|
  {
    if counts == [] then []
    else
      var p := PageOf(log, cursor, NEWER, counts[0]);
      [p] + if p.atNewest then [] else NewerWalk(log, p.firstCursor, counts[1..])
  }

  function Concatenated(pages: seq<Page>): seq<Record> {
    if pages == [] then [] else pages[0].records + Concatenated(pages[1..])
  }

  /** Pages that go towards the newest entry, put on top of one another. */
  function Stacked(pages: seq<Page>): seq<Record> {
    if pages == [] then [] else Stacked(pages[1..]) + pages[0].records
  }

  ghost predicate AllHaveRecords(pages: seq<Page>) {
    forall i :: 0 <= i < |pages| ==> pages[i].records != []
  }

  lemma {:induction false} NewestFirstSplit(log: seq<Entry>, lo: nat, mid: nat, hi: nat)
    requires lo <= mid <= hi <= |log|
    ensures NewestFirst(log[lo..hi]) == NewestFirst(log[mid..hi]) + NewestFirst(log[lo..mid])
  {
    NewestFirstIs(log[lo..hi]);
    NewestFirstIs(log[mid..hi]);
    NewestFirstIs(log[lo..mid]);
  }

  /** One OLDER page from entry hi - 1, and where the next one would begin. */
  lemma {:induction false} OlderStep(log: seq<Entry>, cursor: string, count: nat, hi: nat, lo: nat)
    requires UniqueCursors(log) && count > 0 && hi > 0 && FirstRead(log, cursor, OLDER) == Some(hi - 1)
    requires lo == hi - Min(count, hi)
    ensures hi <= |log| && PageOf(log, cursor, OLDER, count) == Slice(log, lo, hi, cursor == "", lo == 0)
    ensures lo > 0 ==> FirstRead(log, log[lo].cursor, OLDER) == Some(lo - 1)
  {
    FirstReadBehind(log, lo);
  }

  lemma {:induction false} NewerStep(log: seq<Entry>, cursor: string, count: nat, lo: nat, hi: nat)
    requires UniqueCursors(log) && count > 0 && FirstRead(log, cursor, NEWER) == Some(lo)
    requires hi == lo + Min(count, |log| - lo)
    ensures hi <= |log| && PageOf(log, cursor, NEWER, count) == Slice(log, lo, hi, hi == |log|, cursor == "")
    ensures hi < |log| ==> FirstRead(log, log[hi - 1].cursor, NEWER) == Some(hi)
  {
    FirstReadBehind(log, hi - 1);
  }

  lemma {:induction false} FirstReadBehind(log: seq<Entry>, i: nat)
    requires UniqueCursors(log) && i < |log|
    ensures FirstRead(log, log[i].cursor, NEWER) == (if i + 1 < |log| then Some(i + 1) else None)
    ensures FirstRead(log, log[i].cursor, OLDER) == (if i > 0 then Some(i - 1) else None)
  {
    IndexOfEntry(log, i);
  }

  /** A page in front of a walk that has pages. */
  lemma {:induction false} Prepended(p: Page, rest: seq<Page>)
    requires rest != [] && p.records != [] && AllHaveRecords(rest)
    ensures Concatenated([p] + rest) == p.records + Concatenated(rest)
    ensures Stacked([p] + rest) == Stacked(rest) + p.records
    ensures AllHaveRecords([p] + rest) && ([p] + rest)[|rest|] == rest[|rest| - 1]
  {
    assert ([p] + rest)[1..] == rest;
  }

  lemma {:induction false} Alone(p: Page)
    ensures Concatenated([p]) == p.records && Stacked([p]) == p.records
  {
    assert [p][1..] == [];
  }

  /** The pages hold the entries lo to hi - 1, and the last one says so when these reach the end. */
  ghost predicate ReadsOlder(log: seq<Entry>, pages: seq<Page>, lo: nat, hi: nat) {
    && lo < hi <= |log| && pages != [] && AllHaveRecords(pages)
    && Concatenated(pages) == NewestFirst(log[lo..hi]) && (pages[|pages| - 1].atOldest <==> lo == 0)
  }

  lemma {:induction false} ReadsOlderOne(log: seq<Entry>, p: Page, lo: nat, hi: nat, atNewest: bool)
    requires lo < hi <= |log| && p == Slice(log, lo, hi, atNewest, lo == 0)
    ensures ReadsOlder(log, [p], lo, hi)
  {
    Alone(p);
  }

  lemma {:induction false} ReadsOlderMore(log: seq<Entry>, p: Page, rest: seq<Page>, lo: nat, mid: nat, hi: nat)
    requires ReadsOlder(log, rest, lo, mid) && mid < hi <= |log| && p.records == NewestFirst(log[mid..hi])
    ensures ReadsOlder(log, [p] + rest, lo, hi)
  {
    assert |p.records| > 0;
    Prepended(p, rest);
    NewestFirstSplit(log, lo, mid, hi);
    assert ([p] + rest)[|rest|] == rest[|rest| - 1];
  }

  lemma {:induction false} OlderWalkUnfolds(log: seq<Entry>, cursor: string, counts: seq<nat>, p: Page)
    requires counts != [] && p == PageOf(log, cursor, OLDER, counts[0])
    ensures OlderWalk(log, cursor, counts) ==
      if p.atOldest || counts[1..] == [] then [p] else [p] + OlderWalk(log, p.lastCursor, counts[1..])
  {
    assert counts[1..] == [] ==> OlderWalk(log, p.lastCursor, counts[1..]) == [];
  }

  lemma {:induction false} NewerWalkUnfolds(log: seq<Entry>, cursor: string, counts: seq<nat>, p: Page)
    requires counts != [] && p == PageOf(log, cursor, NEWER, counts[0])
    ensures NewerWalk(log, cursor, counts) ==
      if p.atNewest || counts[1..] == [] then [p] else [p] + NewerWalk(log, p.firstCursor, counts[1..])
  {
    assert counts[1..] == [] ==> NewerWalk(log, p.firstCursor, counts[1..]) == [];
  }

  /** Going older from entry hi - 1: no gap, no repeat, no empty page, and the flag comes with the oldest entry. */
  lemma {:induction false} OlderWalkFrom(log: seq<Entry>, cursor: string, counts: seq<nat>, hi: nat) returns (lo: nat)
    requires UniqueCursors(log) && Positive(counts) && counts != [] && hi > 0
    requires FirstRead(log, cursor, OLDER) == Some(hi - 1)
    ensures ReadsOlder(log, OlderWalk(log, cursor, counts), lo, hi)
    ensures lo > 0 ==> |counts| <= hi - lo
    decreases |counts|
  {
    var p := PageOf(log, cursor, OLDER, counts[0]);
    var more := counts[1..];
    var mid: nat := hi - Min(counts[0], hi);
    OlderStep(log, cursor, counts[0], hi, mid);
    OlderWalkUnfolds(log, cursor, counts, p);
    if mid == 0 || more == [] {
      lo := mid;
      ReadsOlderOne(log, p, lo, hi, cursor == "");
    } else {
      lo := OlderWalkFrom(log, p.lastCursor, more, mid);
      ReadsOlderMore(log, p, OlderWalk(log, p.lastCursor, more), lo, mid, hi);
    }
  }

  /**
    Starting at the newest page and following lastCursor with any positive counts: every page has
    records, together they are the newest entries of the journal in order and without repeat, and the
    last page says atOldest exactly when they are all of them, after at most one page an entry.
   */
  lemma {:induction false} OlderWalkReadsAll(log: seq<Entry>, counts: seq<nat>)
    requires UniqueCursors(log) && log != [] && Positive(counts) && counts != []
    ensures var pages := OlderWalk(log, "", counts);
      && pages != [] && AllHaveRecords(pages)
      && Concatenated(pages) <= NewestFirst(log)
      && (pages[|pages| - 1].atOldest <==> Concatenated(pages) == NewestFirst(log))
      && (|counts| >= |log| ==> pages[|pages| - 1].atOldest)
  {
    var lo := OlderWalkFrom(log, "", counts, |log|);
    NewestEntries(log, lo, |log|);
  }

  lemma {:induction false} NewestEntries(log: seq<Entry>, lo: nat, n: nat)
    requires lo <= n == |log|
    ensures NewestFirst(log[lo..n]) <= NewestFirst(log)
    ensures NewestFirst(log[lo..n]) == NewestFirst(log) <==> lo == 0
  {
    NewestFirstSplit(log, 0, lo, n);
    assert log[0..n] == log;
    assert |NewestFirst(log[lo..n])| == n - lo;
  }

  ghost predicate ReadsNewer(log: seq<Entry>, pages: seq<Page>, lo: nat, hi: nat) {
    && lo < hi <= |log| && pages != [] && AllHaveRecords(pages)
    && Stacked(pages) == NewestFirst(log[lo..hi]) && (pages[|pages| - 1].atNewest <==> hi == |log|)
  }

  lemma {:induction false} ReadsNewerOne(log: seq<Entry>, p: Page, lo: nat, hi: nat, atOldest: bool)
    requires lo < hi <= |log| && p == Slice(log, lo, hi, hi == |log|, atOldest)
    ensures ReadsNewer(log, [p], lo, hi)
  {
    Alone(p);
  }

  lemma {:induction false} ReadsNewerMore(log: seq<Entry>, p: Page, rest: seq<Page>, lo: nat, mid: nat, hi: nat)
    requires ReadsNewer(log, rest, mid, hi) && lo < mid && p.records == NewestFirst(log[lo..mid])
    ensures ReadsNewer(log, [p] + rest, lo, hi)
  {
    assert |p.records| > 0;
    Prepended(p, rest);
    NewestFirstSplit(log, lo, mid, hi);
    assert ([p] + rest)[|rest|] == rest[|rest| - 1];
  }

  lemma {:induction false} NewerWalkFrom(log: seq<Entry>, cursor: string, counts: seq<nat>, lo: nat) returns (hi: nat)
    requires UniqueCursors(log) && Positive(counts) && counts != [] && FirstRead(log, cursor, NEWER) == Some(lo)
    ensures ReadsNewer(log, NewerWalk(log, cursor, counts), lo, hi)
    ensures hi < |log| ==> |counts| <= hi - lo
    decreases |counts|
  {
    var p := PageOf(log, cursor, NEWER, counts[0]);
    var more := counts[1..];
    var mid: nat := lo + Min(counts[0], |log| - lo);
    NewerStep(log, cursor, counts[0], lo, mid);
    NewerWalkUnfolds(log, cursor, counts, p);
    if mid == |log| || more == [] {
      hi := mid;
      ReadsNewerOne(log, p, lo, hi, cursor == "");
    } else {
      hi := NewerWalkFrom(log, p.firstCursor, more, mid);
      ReadsNewerMore(log, p, NewerWalk(log, p.firstCursor, more), lo, mid, hi);
    }
  }

  /** The mirror image, from the oldest page towards the newest entry. */
  lemma {:induction false} NewerWalkReadsAll(log: seq<Entry>, counts: seq<nat>)
    requires UniqueCursors(log) && log != [] && Positive(counts) && counts != []
    ensures var pages := NewerWalk(log, "", counts);
      && pages != [] && AllHaveRecords(pages)
      && (exists hi :: 0 < hi <= |log| && Stacked(pages) == NewestFirst(log[..hi]))
      && (pages[|pages| - 1].atNewest <==> Stacked(pages) == NewestFirst(log))
      && (|counts| >= |log| ==> pages[|pages| - 1].atNewest)
  {
    var hi := NewerWalkFrom(log, "", counts, 0);
    assert log[0..hi] == log[..hi];
    OldestEntries(log, hi);
  }

  lemma {:induction false} OldestEntries(log: seq<Entry>, hi: nat)
    requires hi <= |log|
    ensures NewestFirst(log[..hi]) == NewestFirst(log) <==> hi == |log|
  {
    assert log[..|log|] == log;
    assert |NewestFirst(log[..hi])| == hi;
  }

  /** The same entries make the same page, from whichever side they are reached. */
  lemma {:induction false} SamePage(log: seq<Entry>, lo: nat, count: nat, atEnd: bool)
    requires lo > 0 && count > 0 && lo + count <= |log| && (atEnd <==> lo + count == |log|)
    ensures PageFrom(log, OLDER, count, lo + count - 1, atEnd) == PageFrom(log, NEWER, count, lo, false)
  {
  }

  /** Going older and then newer by the same count leads back to the very same page. */
  lemma {:induction false} NewerUndoesOlder(log: seq<Entry>, cursor: string, count: nat, other: nat)
    requires UniqueCursors(log) && count > 0 && other > 0
    requires var p := PageOf(log, cursor, OLDER, count); p.records != [] && !p.atOldest
    ensures var p := PageOf(log, cursor, OLDER, count);
      PageOf(log, PageOf(log, p.lastCursor, OLDER, other).firstCursor, NEWER, count) == p
  {
    var k := FirstRead(log, cursor, OLDER).value;
    var lo := k + 1 - count;
    FirstReadBehind(log, lo);
    FirstReadBehind(log, lo - 1);
    SamePage(log, lo, count, cursor == "");
  }

  /** An empty journal sets only the flag of the end it was sought from: there is no oldest entry to reach. */
  lemma {:induction false} EmptyJournal(count: nat)
    requires count > 0
    ensures PageOf([], "", OLDER, count) == Page([], "", "", true, false)
    ensures PageOf([], "", NEWER, count) == Page([], "", "", false, true)
  {
  }

  /** A count of zero reads nothing and knows nothing. */
  lemma {:induction false} NothingAsked(log: seq<Entry>, cursor: string, direction: Direction)
    ensures PageOf(log, cursor, direction, 0) == Page([], "", "", false, false)
  {
  }

  lemma {:induction false} EmptyWalkNeverEnds(counts: seq<nat>)
    requires Positive(counts) && counts != []
    ensures var pages := OlderWalk([], "", counts);
      |pages| == |counts| && !pages[|pages| - 1].atOldest && Concatenated(pages) == []
    decreases |counts|
  {
    EmptyJournal(counts[0]);
    var p := Page([], "", "", true, false);
    if |counts| == 1 {
      assert OlderWalk([], "", counts) == [p] + OlderWalk([], "", counts[1..]) == [p];
      Alone(p);
    } else {
      EmptyWalkNeverEnds(counts[1..]);
      EmptyPageFirst(p, OlderWalk([], "", counts[1..]));
    }
  }

  lemma {:induction false} EmptyPageFirst(p: Page, rest: seq<Page>)
    requires p.records == [] && rest != [] && Concatenated(rest) == []
    ensures Concatenated([p] + rest) == [] && ([p] + rest)[|rest|] == rest[|rest| - 1]
  {
    assert ([p] + rest)[1..] == rest;
  }

  /** A client that asks often enough is told that it has reached the oldest entry exactly when there is one. */
  lemma {:induction false} OlderWalkEnds(log: seq<Entry>, counts: seq<nat>)
    requires UniqueCursors(log) && Positive(counts) && counts != [] && |counts| >= |log|
    ensures var pages := OlderWalk(log, "", counts);
      && pages != [] && Concatenated(pages) == NewestFirst(log)
      && (pages[|pages| - 1].atOldest <==> log != [])
  {
    if log == [] {
      EmptyWalkNeverEnds(counts);
    } else {
      OlderWalkReadsAll(log, counts);
    }
  }

  // ---------------------------------------------------------------------------------------------
  // The journal and the enumerator
  // ---------------------------------------------------------------------------------------------

  /** Where a page is read from when the cursor may be missing: `gap` is where seeking it leads to, if it does. */
  function FirstReadNear(log: seq<Entry>, cursor: string, direction: Direction, gap: Option<nat>): (i: Option<nat>)
    requires gap.Some? ==> gap.value <= |log|
    ensures i.Some? ==> i.value < |log|
  {
    if cursor == "" || IndexOf(log, cursor).Some? then FirstRead(log, cursor, direction)
    else if gap.None? then None
    else if direction == NEWER then (if gap.value < |log| then gap else None)
    else if gap.value > 0 then Some(gap.value - 1)
    else None
  }

  function PageNear(log: seq<Entry>, cursor: string, direction: Direction, count: nat, gap: Option<nat>): Page
    requires gap.Some? ==> gap.value <= |log|
  {
    if count == 0 then Page([], "", "", false, false)
    else match FirstReadNear(log, cursor, direction, gap)
      case None => Page([], "", "", cursor == "" && direction == OLDER, cursor == "" && direction == NEWER)
      case Some(k) => PageFrom(log, direction, count, k, cursor == "")
  }

  /** For no cursor and for every cursor of the journal that is the page of the walks. */
  lemma {:induction false} KnownCursor(log: seq<Entry>, cursor: string, direction: Direction, count: nat,
                                       gap: Option<nat>)
    requires gap.Some? ==> gap.value <= |log|
    requires cursor == "" || IndexOf(log, cursor).Some?
    ensures PageNear(log, cursor, direction, count, gap) == PageOf(log, cursor, direction, count)
  {
  }

  /** A missing cursor acts as the neighbour on the other side of its gap would: nothing is skipped. */
  lemma {:induction false} MissingCursor(log: seq<Entry>, cursor: string, count: nat, gap: nat)
    requires UniqueCursors(log) && cursor != "" && IndexOf(log, cursor).None? && gap <= |log|
    ensures gap < |log| ==> PageNear(log, cursor, OLDER, count, Some(gap)) == PageOf(log, log[gap].cursor, OLDER, count)
    ensures gap > 0 ==> PageNear(log, cursor, NEWER, count, Some(gap)) == PageOf(log, log[gap - 1].cursor, NEWER, count)
    ensures PageNear(log, cursor, OLDER, count, None).records == PageNear(log, cursor, NEWER, count, None).records == []
  {
    if gap < |log| {
      FirstReadBehind(log, gap);
    }
    if gap > 0 {
      FirstReadBehind(log, gap - 1);
    }
  }

  datatype Position = Unset | Head | Tail | Near(i: nat) | Between(i: nat) | At(i: nat)

  /** sd_journal on a log that does not change. */
  class Journal {
    const log: seq<Entry>
    var position: Position

    ghost predicate Valid()
      reads this
    {
      (position.Near? || position.At? ==> position.i < |log|) && (position.Between? ==> position.i <= |log|)
    }

    constructor (log: seq<Entry>)
      ensures this.log == log && Valid()
    {
      this.log := log;
      position := Unset;
    }

    method SeekHead()
      modifies this
      ensures Valid() && position == Head
    {
      position := Head;
    }

    method SeekTail()
      modifies this
      ensures Valid() && position == Tail
    {
      position := Tail;
    }

    method SeekCursor(cursor: string, gap: Option<nat>) returns (ok: bool)
      requires gap.Some? ==> gap.value <= |log|
      modifies this
      ensures ok <==> IndexOf(log, cursor).Some? || gap.Some?
      ensures ok ==> Valid()
      ensures var i := IndexOf(log, cursor);
        ok ==> position == if i.Some? then Near(i.value) else Between(gap.value)
    {
      var i := IndexOf(log, cursor);
      ok := i.Some? || gap.Some?;
      if i.Some? {
        position := Near(i.value);
      } else if gap.Some? {
        position := Between(gap.value);
      }
    }

    /** `lands`: after seeking to a cursor, whether the step stops at the entry of the cursor itself. */
    method Next(lands: bool) returns (moved: bool)
      requires Valid()
      modifies this
      ensures Valid()
      ensures var target := match old(position)
          case Head => 0
          case Near(i) => (if lands then i else i + 1)
          case Between(i) => i
          case At(i) => i + 1
          case _ => |log|;
        (moved <==> target < |log|) && (moved ==> position == At(target)) && (!moved ==> position == old(position))
    {
      var target := match position
        case Head => 0
        case Near(i) => (if lands then i else i + 1)
        case Between(i) => i
        case At(i) => i + 1
        case _ => |log|;
      moved := target < |log|;
      if moved {
        position := At(target);
      }
    }

    method Previous(lands: bool) returns (moved: bool)
      requires Valid()
      modifies this
      ensures Valid()
      ensures var target := match old(position)
          case Tail => |log| - 1
          case Near(i) => (if lands then i else i - 1)
          case Between(i) => i - 1
          case At(i) => i - 1
          case _ => -1;
        (moved <==> target >= 0) && (moved ==> position == At(target)) && (!moved ==> position == old(position))
    {
      var target := match position
        case Tail => |log| - 1
        case Near(i) => (if lands then i else i - 1)
        case Between(i) => i - 1
        case At(i) => i - 1
        case _ => -1;
      moved := target >= 0;
      if moved {
        position := At(target);
      }
    }
  }

  class EventEnumeratorLinux {
    var records: seq<Record>
    var firstCursor: string
    var lastCursor: string
    var atNewest: bool
    var atOldest: bool

    /** The page of the request, wherever the steps after a seek land. */
    constructor (journal: Journal, opens: bool, cursor: string, direction: Direction, count: nat,
                 lands: bool, gap: Option<nat>)
      requires UniqueCursors(journal.log) && (gap.Some? ==> gap.value <= |journal.log|)
      modifies journal
      ensures Page(records, firstCursor, lastCursor, atNewest, atOldest) ==
        if opens then PageNear(journal.log, cursor, direction, count, gap) else Page([], "", "", false, false)
    {
      records, firstCursor, lastCursor, atNewest, atOldest := [], "", "", false, false;
      new;
      if count == 0 {
        return;
      }
      if !opens {
        return;
      }
      var positioned;
      if cursor == "" {
        positioned := PositionAtEnd(journal, direction, lands);
      } else {
        positioned := PositionBehind(journal, cursor, direction, lands, gap);
      }
      if positioned {
        ReadPage(journal, direction, count);
      }
    }

    /** An empty cursor jumps to an end of the log. */
    method PositionAtEnd(journal: Journal, direction: Direction, lands: bool) returns (positioned: bool)
      modifies journal, this`atNewest, this`atOldest
      ensures positioned <==> FirstRead(journal.log, "", direction).Some?
      ensures positioned ==> journal.Valid() && journal.position == At(FirstRead(journal.log, "", direction).value)
      ensures atNewest == (direction == OLDER || old(atNewest)) && atOldest == (direction == NEWER || old(atOldest))
    {
      if direction == NEWER {
        journal.SeekHead();
        positioned := journal.Next(lands);
        atOldest := true;
      } else {
        journal.SeekTail();
        positioned := journal.Previous(lands);
        atNewest := true;
      }
    }

    /** Skips to the first entry strictly on the requested side of the cursor. */
    method PositionBehind(journal: Journal, cursor: string, direction: Direction, lands: bool, gap: Option<nat>)
      returns (positioned: bool)
      requires UniqueCursors(journal.log) && cursor != "" && (gap.Some? ==> gap.value <= |journal.log|)
      modifies journal
      ensures var k := FirstReadNear(journal.log, cursor, direction, gap);
        (positioned <==> k.Some?) && (positioned ==> journal.Valid() && journal.position == At(k.value))
    {
      positioned := journal.SeekCursor(cursor, gap);
      if positioned {
        if direction == NEWER {
          positioned := journal.Next(lands);
          if positioned && journal.log[journal.position.i].cursor == cursor {
            positioned := journal.Next(lands);
          }
        } else {
          positioned := journal.Previous(lands);
          if positioned && journal.log[journal.position.i].cursor == cursor {
            positioned := journal.Previous(lands);
          }
        }
      }
    }

    method ReadPage(journal: Journal, direction: Direction, count: nat)
      requires journal.Valid() && journal.position.At? && count > 0 && records == []
      modifies this, journal
      ensures var atEnd := if direction == NEWER then old(atOldest) else old(atNewest);
        Page(records, firstCursor, lastCursor, atNewest, atOldest) ==
          PageFrom(journal.log, direction, count, old(journal.position.i), atEnd)
    {
      ghost var k := journal.position.i;
      var firstRead, lastRead, more := ReadEntries(journal, direction, count);
      Assembled(journal.log, direction, count, k, records, firstRead, lastRead, more,
                if direction == NEWER then atOldest else atNewest);
      if direction == NEWER {
        records := Reversed(records);
        firstCursor := lastRead;
        lastCursor := firstRead;
        atNewest := !more;
      } else {
        firstCursor := firstRead;
        lastCursor := lastRead;
        atOldest := !more;
      }
    }

    /** The loop: entry after entry until the count is reached or a step finds the end of the log. */
    method ReadEntries(journal: Journal, direction: Direction, count: nat)
      returns (firstRead: string, lastRead: string, more: bool)
      requires journal.Valid() && journal.position.At? && count > 0 && records == []
      modifies this`records, journal
      ensures WasRead(journal.log, direction, count, old(journal.position.i), records, firstRead, lastRead, more)
    {
      var log := journal.log;
      ghost var k := journal.position.i;
      firstRead, lastRead, more := "", "", true;
      var i := 0;
      while i < count && more
        invariant 0 <= i <= count && |records| == i && (i == 0 ==> more)
        invariant more <==> 0 <= Nth(direction, k, i) < |log|
        invariant more ==> journal.Valid() && journal.position == At(Nth(direction, k, i))
        invariant -1 <= Nth(direction, k, i) <= |log|
        invariant forall j :: 0 <= j < i ==> records[j] == log[Nth(direction, k, j)].record
        invariant i > 0 ==> firstRead == log[k].cursor && lastRead == log[Nth(direction, k, i - 1)].cursor
        decreases count - i
      {
        var entry := log[journal.position.i];
        if i == 0 {
          firstRead := entry.cursor;
        }
        lastRead := entry.cursor;
        records := records + [entry.record];
        if direction == NEWER {
          more := journal.Next(false);
        } else {
          more := journal.Previous(false);
        }
        i := i + 1;
      }
    }
  }

  /** What the loop leaves behind when it starts at entry k. */
  ghost predicate WasRead(log: seq<Entry>, direction: Direction, count: nat, k: nat, records: seq<Record>,
                          firstRead: string, lastRead: string, more: bool)
    requires k < |log|
  {
    var n := if direction == NEWER then Min(count, |log| - k) else Min(count, k + 1);
    && n > 0 && |records| == n
    && (forall j :: 0 <= j < n ==> records[j] == log[Nth(direction, k, j)].record)
    && firstRead == log[k].cursor && lastRead == log[Nth(direction, k, n - 1)].cursor
    && (more <==> 0 <= Nth(direction, k, n) < |log|)
  }

  lemma {:induction false} AssembledNewer(log: seq<Entry>, count: nat, lo: nat, hi: nat, records: seq<Record>,
                                          firstRead: string, lastRead: string, more: bool, atEnd: bool)
    requires lo < |log| && count > 0 && hi == lo + Min(count, |log| - lo)
    requires WasRead(log, NEWER, count, lo, records, firstRead, lastRead, more)
    ensures PageFrom(log, NEWER, count, lo, atEnd) == Page(Reversed(records), lastRead, firstRead, !more, atEnd)
  {
    InOrderNewer(log, lo, hi, records);
  }

  lemma {:induction false} AssembledOlder(log: seq<Entry>, count: nat, k: nat, lo: nat, records: seq<Record>,
                                          firstRead: string, lastRead: string, more: bool, atEnd: bool)
    requires k < |log| && count > 0 && lo == k + 1 - Min(count, k + 1)
    requires WasRead(log, OLDER, count, k, records, firstRead, lastRead, more)
    ensures PageFrom(log, OLDER, count, k, atEnd) == Page(records, firstRead, lastRead, atEnd, !more)
  {
    InOrderOlder(log, lo, k + 1, records);
  }

  /** That is the page, with the page read forwards turned around. */
  lemma {:induction false} Assembled(log: seq<Entry>, direction: Direction, count: nat, k: nat, records: seq<Record>,
                                     firstRead: string, lastRead: string, more: bool, atEnd: bool)
    requires k < |log| && count > 0 && WasRead(log, direction, count, k, records, firstRead, lastRead, more)
    ensures PageFrom(log, direction, count, k, atEnd) ==
      if direction == NEWER then Page(Reversed(records), lastRead, firstRead, !more, atEnd)
      else Page(records, firstRead, lastRead, atEnd, !more)
  {
    if direction == NEWER {
      AssembledNewer(log, count, k, k + Min(count, |log| - k), records, firstRead, lastRead, more, atEnd);
    } else {
      AssembledOlder(log, count, k, k + 1 - Min(count, k + 1), records, firstRead, lastRead, more, atEnd);
    }
  }

  /** What was read is newest first once a page read forwards is turned around. */
  lemma {:induction false} InOrderNewer(log: seq<Entry>, lo: nat, hi: nat, records: seq<Record>)
    requires lo < hi <= |log| && |records| == hi - lo
    requires forall j :: 0 <= j < |records| ==> records[j] == log[Nth(NEWER, lo, j)].record
    ensures NewestFirst(log[lo..hi]) == Reversed(records)
  {
    var page := log[lo..hi];
    NewestFirstIs(page);
    forall i | 0 <= i < |page| ensures Reversed(records)[i] == NewestFirst(page)[i] {
      var j := |page| - 1 - i;
      assert Nth(NEWER, lo, j) == lo + j && page[j] == log[lo + j];
    }
  }

  lemma {:induction false} InOrderOlder(log: seq<Entry>, lo: nat, hi: nat, records: seq<Record>)
    requires lo < hi <= |log| && |records| == hi - lo
    requires forall j :: 0 <= j < |records| ==> records[j] == log[Nth(OLDER, hi - 1, j)].record
    ensures NewestFirst(log[lo..hi]) == records
  {
    var page := log[lo..hi];
    NewestFirstIs(page);
    forall i | 0 <= i < |page| ensures records[i] == NewestFirst(page)[i] {
      var j := |page| - 1 - i;
      assert Nth(OLDER, hi - 1, i) == lo + j && page[j] == log[lo + j];
    }
  }

  /** The j-th entry read when reading starts at entry k. */
  function Nth(direction: Direction, k: int, j: int): int {
    if direction == NEWER then k + j else k - j
  }
}
