/**
 * `getTotalCoveredMinutes`: every entry becomes an interval of minutes since
 * midnight (an end at or before the start is moved to the next day by adding
 * 1440), the intervals are sorted by start, merged in one sweep, and the
 * merged lengths are summed. The result is the number of distinct minutes
 * the intervals cover.
 */
module CoveredMinutes {
  import opened Strings
  import opened Diary
  import opened DayTimeLineUtil
  import opened DayTimeline

  const DayMinutes: int := 24 * 60

  /** A half-open run of minutes, `start` included and `end` excluded. */
  datatype Interval = Interval(start: int, end: int)

  /** A clock time of the day: hours at most 23, minutes at most 59. */
  predicate ClockTime(t: string) {
    ParseableTime(t) && Hours(t) <= 23 && Minutes(t) <= 59
  }

  predicate DayEntry(e: DiaryEntry) {
    ClockTime(e.StartTime) && ClockTime(e.EndTime)
  }

  predicate AllDayEntries(es: seq<DiaryEntry>) {
    forall i :: 0 <= i < |es| ==> DayEntry(es[i])
  }

  /** The `[start, end]` pair an entry maps to: minutes since midnight, the end moved to the next day when it is not after the start. */
  function Normalize(e: DiaryEntry): (iv: Interval)
    requires DayEntry(e)
    ensures iv.start == MinuteOfDay(e.StartTime) < DayMinutes
    ensures iv.start < iv.end <= 2 * DayMinutes
    ensures MinuteOfDay(e.StartTime) < MinuteOfDay(e.EndTime) ==> iv.end == MinuteOfDay(e.EndTime)
    ensures MinuteOfDay(e.EndTime) <= MinuteOfDay(e.StartTime) ==>
              iv.end == MinuteOfDay(e.EndTime) + DayMinutes && iv.end - iv.start <= DayMinutes
  {
    var start := MinuteOfDay(e.StartTime);
    var end := MinuteOfDay(e.EndTime);
    if end <= start then Interval(start, end + DayMinutes) else Interval(start, end)
  }

  function Normalized(es: seq<DiaryEntry>): (r: seq<Interval>)
    requires AllDayEntries(es)
    ensures |r| == |es| && NonEmpty(r)
  {
    seq(|es|, k requires 0 <= k < |es| && AllDayEntries(es) => Normalize(es[k]))
  }

  predicate NonEmpty(ivs: seq<Interval>) {
    forall k :: 0 <= k < |ivs| ==> ivs[k].start < ivs[k].end
  }

  // ---------------------------------------------------------------------
  // Sorting by start.
  // ---------------------------------------------------------------------

  predicate SortedByStart(s: seq<Interval>) {
    forall i, j :: 0 <= i < j < |s| ==> s[i].start <= s[j].start
  }

  function Insert(x: Interval, s: seq<Interval>): (r: seq<Interval>)
    requires SortedByStart(s)
    ensures SortedByStart(r)
    ensures multiset(r) == multiset(s) + multiset{x}
    decreases |s|
  {
    if |s| == 0 then [x]
    else if x.start <= s[0].start then
      InsertFront(x, s);
      [x] + s
    else
      var rest := Insert(x, s[1..]);
      InsertStep(x, s, rest);
      [s[0]] + rest
  }

  lemma InsertFront(x: Interval, s: seq<Interval>)
    requires SortedByStart(s) && |s| > 0 && x.start <= s[0].start
    ensures SortedByStart([x] + s)
  {
    assert forall k :: 0 <= k < |s| ==> x.start <= s[k].start;
  }

  /** Keeping the head in front of the insertion into the tail keeps the order and the elements. */
  lemma InsertStep(x: Interval, s: seq<Interval>, rest: seq<Interval>)
    requires SortedByStart(s) && |s| > 0 && s[0].start < x.start
    requires SortedByStart(rest) && multiset(rest) == multiset(s[1..]) + multiset{x}
    ensures SortedByStart([s[0]] + rest)
    ensures multiset([s[0]] + rest) == multiset(s) + multiset{x}
  {
    assert s == [s[0]] + s[1..];
    forall k | 0 <= k < |rest|
      ensures s[0].start <= rest[k].start
    {
      assert rest[k] in multiset(rest);
      if rest[k] != x {
        assert rest[k] in multiset(s[1..]);
        var m :| 0 <= m < |s| - 1 && s[1..][m] == rest[k];
        assert s[m + 1] == rest[k];
      }
    }
  }

  /** `intervals.sort((a, b) => a[0] - b[0])`: the same intervals, by non-decreasing start. */
  function SortByStart(s: seq<Interval>): (r: seq<Interval>)
    ensures SortedByStart(r)
    ensures multiset(r) == multiset(s)
    decreases |s|
  {
    if |s| == 0 then []
    else
      assert s == s[..|s| - 1] + [s[|s| - 1]];
      Insert(s[|s| - 1], SortByStart(s[..|s| - 1]))
  }

  // ---------------------------------------------------------------------
  // The covered minutes.
  // ---------------------------------------------------------------------

  /** The minutes from `a` up to, not including, `b`. */
  ghost function Range(a: int, b: int): set<int>
    decreases b - a
  {
    if b <= a then {} else Range(a, b - 1) + {b - 1}
  }

  /** `Range(a, b)` holds exactly the integers in `[a, b)`, so it has `b - a` of them when `a <= b`. */
  lemma {:induction false} RangeFacts(a: int, b: int)
    ensures forall t :: t in Range(a, b) <==> a <= t < b
    ensures a <= b ==> |Range(a, b)| == b - a
    decreases b - a
  {
    if a < b {
      RangeFacts(a, b - 1);
    }
  }

  /** Every minute some interval covers. */
  ghost function Covered(ivs: seq<Interval>): set<int>
    decreases |ivs|
  {
    if |ivs| == 0 then {} else Covered(ivs[..|ivs| - 1]) + Range(ivs[|ivs| - 1].start, ivs[|ivs| - 1].end)
  }

  function Length(iv: Interval): int {
    iv.end - iv.start
  }

  function SumLengths(ivs: seq<Interval>): int
    decreases |ivs|
  {
    if |ivs| == 0 then 0 else SumLengths(ivs[..|ivs| - 1]) + Length(ivs[|ivs| - 1])
  }

  lemma CoveredAppend(ivs: seq<Interval>, x: Interval)
    ensures Covered(ivs + [x]) == Covered(ivs) + Range(x.start, x.end)
  {
    assert (ivs + [x])[..|ivs|] == ivs;
  }

  /** A minute is covered exactly when some interval contains it. */
  lemma {:induction false} CoveredMembers(ivs: seq<Interval>, t: int)
    ensures t in Covered(ivs) <==> exists k :: 0 <= k < |ivs| && ivs[k].start <= t < ivs[k].end
    decreases |ivs|
  {
    if |ivs| > 0 {
      var front := ivs[..|ivs| - 1];
      CoveredMembers(front, t);
      RangeFacts(ivs[|ivs| - 1].start, ivs[|ivs| - 1].end);
      if t in Covered(front) {
        var k :| 0 <= k < |front| && front[k].start <= t < front[k].end;
        assert ivs[k] == front[k];
      }
      if exists k :: 0 <= k < |ivs| && ivs[k].start <= t < ivs[k].end {
        var k :| 0 <= k < |ivs| && ivs[k].start <= t < ivs[k].end;
        if k < |ivs| - 1 {
          assert front[k] == ivs[k];
        }
      }
    }
  }

  /** The covered minutes depend only on which intervals there are, not on their order. */
  lemma CoveredSameElements(a: seq<Interval>, b: seq<Interval>)
    requires multiset(a) == multiset(b)
    ensures Covered(a) == Covered(b)
  {
    forall t
      ensures t in Covered(a) <==> t in Covered(b)
    {
      CoveredMembers(a, t);
      CoveredMembers(b, t);
      if t in Covered(a) {
        var k :| 0 <= k < |a| && a[k].start <= t < a[k].end;
        assert a[k] in multiset(b);
        var m :| 0 <= m < |b| && b[m] == a[k];
      }
      if t in Covered(b) {
        var k :| 0 <= k < |b| && b[k].start <= t < b[k].end;
        assert b[k] in multiset(a);
        var m :| 0 <= m < |a| && a[m] == b[k];
      }
    }
  }

  lemma DisjointUnionSize(a: set<int>, b: set<int>)
    requires forall t :: t in a ==> t !in b
    ensures |a + b| == |a| + |b|
  {
    assert a * b == {} by {
      forall t | t in a * b ensures false { }
    }
  }

  /** Extending the current run by an interval that starts inside it. */
  lemma ExtendRun(curStart: int, curEnd: int, start: int, end: int)
    requires curStart <= start <= curEnd
    ensures Range(curStart, if curEnd >= end then curEnd else end) == Range(curStart, curEnd) + Range(start, end)
  {
    RangeFacts(curStart, curEnd);
    RangeFacts(start, end);
    var e := if curEnd >= end then curEnd else end;
    RangeFacts(curStart, e);
    forall t
      ensures t in Range(curStart, e) <==> t in Range(curStart, curEnd) + Range(start, end)
    {
    }
  }

  /**
   * What the sweep keeps after reading `sorted[..i]`: the closed runs in
   * `merged` and the open run `[curStart, curEnd)` cover exactly what those
   * intervals cover, every closed run lies before the open one, and the
   * closed runs' lengths add up to their covered minutes.
   */
  ghost predicate SweepState(sorted: seq<Interval>, i: nat, merged: seq<Interval>, curStart: int, curEnd: int)
    requires i <= |sorted|
  {
    && curStart < curEnd
    && NonEmpty(merged)
    && (forall k :: i <= k < |sorted| ==> curStart <= sorted[k].start)
    && Covered(sorted[..i]) == Covered(merged) + Range(curStart, curEnd)
    && (forall t :: t in Covered(merged) ==> t < curStart)
    && |Covered(merged)| == SumLengths(merged)
  }

  /** The sweep over intervals sorted by start: maximal runs of overlapping or touching intervals, each kept as one interval. */
  method MergeSorted(sorted: seq<Interval>) returns (merged: seq<Interval>)
    requires |sorted| > 0 && SortedByStart(sorted) && NonEmpty(sorted)
    ensures Covered(merged) == Covered(sorted)
    ensures |Covered(merged)| == SumLengths(merged)
    ensures NonEmpty(merged)
  {
    merged := [];
    var curStart := sorted[0].start;
    var curEnd := sorted[0].end;
    assert sorted[..1] == [] + [sorted[0]];
    CoveredAppend([], sorted[0]);
    for i := 1 to |sorted|
      invariant SweepState(sorted, i, merged, curStart, curEnd)
    {
      merged, curStart, curEnd := SweepStep(sorted, i, merged, curStart, curEnd);
    }
    merged := Close(merged, curStart, curEnd);
    assert sorted[..|sorted|] == sorted;
  }

  /** One iteration: an interval starting inside the open run extends it; one starting after it closes the run and opens a new one. */
  method SweepStep(sorted: seq<Interval>, i: nat, merged: seq<Interval>, curStart: int, curEnd: int)
    returns (merged': seq<Interval>, curStart': int, curEnd': int)
    requires i < |sorted| && SortedByStart(sorted) && NonEmpty(sorted)
    requires SweepState(sorted, i, merged, curStart, curEnd)
    ensures SweepState(sorted, i + 1, merged', curStart', curEnd')
    ensures sorted[i].start <= curEnd ==> merged' == merged && curStart' == curStart && curEnd' >= curEnd
    ensures curEnd < sorted[i].start ==> |merged'| == |merged| + 1 && curStart' == sorted[i].start
  {
    var start := sorted[i].start;
    var end := sorted[i].end;
    assert sorted[..i + 1] == sorted[..i] + [sorted[i]];
    CoveredAppend(sorted[..i], sorted[i]);
    ghost var seen := Covered(sorted[..i + 1]);
    assert seen == Covered(merged) + Range(curStart, curEnd) + Range(start, end);
    if start <= curEnd {
      ExtendRun(curStart, curEnd, start, end);
      merged', curStart', curEnd' := merged, curStart, if curEnd >= end then curEnd else end;
      assert seen == Covered(merged') + Range(curStart', curEnd');
    } else {
      merged' := Close(merged, curStart, curEnd);
      curStart', curEnd' := start, end;
      assert seen == Covered(merged') + Range(curStart', curEnd');
    }
  }

  /** `merged.push([curStart, curEnd])`: the closed run lies after every earlier one, so the count grows by its length. */
  method Close(merged: seq<Interval>, curStart: int, curEnd: int) returns (r: seq<Interval>)
    requires curStart < curEnd && NonEmpty(merged)
    requires forall t :: t in Covered(merged) ==> t < curStart
    requires |Covered(merged)| == SumLengths(merged)
    ensures r == merged + [Interval(curStart, curEnd)]
    ensures Covered(r) == Covered(merged) + Range(curStart, curEnd)
    ensures forall t :: t in Covered(r) ==> t < curEnd
    ensures |Covered(r)| == SumLengths(r) && NonEmpty(r)
  {
    CoveredAppend(merged, Interval(curStart, curEnd));
    RangeFacts(curStart, curEnd);
    DisjointUnionSize(Covered(merged), Range(curStart, curEnd));
    r := merged + [Interval(curStart, curEnd)];
    assert r[..|r| - 1] == merged;
  }

  /** The final loop: each run adds `(1440 - start) + (end - 1440)` when it passes midnight and `end - start` otherwise, which are the same number. */
  method SumRuns(merged: seq<Interval>) returns (total: int)
    ensures total == SumLengths(merged)
  {
    total := 0;
    for k := 0 to |merged|
      invariant total == SumLengths(merged[..k])
    {
      var start := merged[k].start;
      var end := merged[k].end;
      assert merged[..k + 1][..k] == merged[..k];
      if end > DayMinutes {
        total := total + (DayMinutes - start) + (end - DayMinutes);
      } else {
        total := total + (end - start);
      }
    }
    assert merged[..|merged|] == merged;
  }

  /**
   * `getTotalCoveredMinutes(entries)`: the number of distinct minutes the
   * normalised intervals cover. A run that passes midnight is counted in
   * full, so the count can exceed the 1440 minutes of a day.
   */
  method TotalCoveredMinutes(entries: seq<DiaryEntry>) returns (total: int)
    requires AllDayEntries(entries)
    ensures total == |Covered(Normalized(entries))|
  {
    if |entries| == 0 {
      return 0;
    }
    var intervals := Normalized(entries);
    var sorted := SortByStart(intervals);
    CoveredSameElements(sorted, intervals);
    assert NonEmpty(sorted) by {
      forall k | 0 <= k < |sorted|
        ensures sorted[k].start < sorted[k].end
      {
        assert sorted[k] in multiset(intervals);
      }
    }
    var merged := MergeSorted(sorted);
    total := SumRuns(merged);
  }

  // ---------------------------------------------------------------------
  // What the covered count is bounded by.
  // ---------------------------------------------------------------------

  /** The union is at least as long as any one interval. */
  lemma CoverageAtLeastLongest(ivs: seq<Interval>, iv: Interval)
    requires iv in ivs && iv.start <= iv.end
    ensures |Covered(ivs)| >= Length(iv)
  {
    var k :| 0 <= k < |ivs| && ivs[k] == iv;
    RangeFacts(iv.start, iv.end);
    forall t | t in Range(iv.start, iv.end)
      ensures t in Covered(ivs)
    {
      CoveredMembers(ivs, t);
    }
    SubsetSize(Range(iv.start, iv.end), Covered(ivs));
  }

  lemma SubsetSize(a: set<int>, b: set<int>)
    requires a <= b
    ensures |a| <= |b|
  {
    assert b == a + (b - a);
  }

  /** The union is at most the sum of the lengths. */
  lemma {:induction false} CoverageAtMostSum(ivs: seq<Interval>)
    requires NonEmpty(ivs)
    ensures |Covered(ivs)| <= SumLengths(ivs)
    decreases |ivs|
  {
    if |ivs| > 0 {
      var front := ivs[..|ivs| - 1];
      var last := ivs[|ivs| - 1];
      assert ivs == front + [last];
      CoverageAtMostSum(front);
      RangeFacts(last.start, last.end);
      assert Covered(ivs) == Covered(front) + Range(last.start, last.end);
    }
  }

  predicate PairwiseDisjoint(ivs: seq<Interval>) {
    forall i, j :: 0 <= i < j < |ivs| ==> ivs[i].end <= ivs[j].start || ivs[j].end <= ivs[i].start
  }

  /** Pairwise disjoint intervals cover exactly the sum of their lengths. */
  lemma {:induction false} CoverageOfDisjoint(ivs: seq<Interval>)
    requires NonEmpty(ivs) && PairwiseDisjoint(ivs)
    ensures |Covered(ivs)| == SumLengths(ivs)
    decreases |ivs|
  {
    if |ivs| > 0 {
      var front := ivs[..|ivs| - 1];
      var last := ivs[|ivs| - 1];
      assert ivs == front + [last];
      CoverageOfDisjoint(front);
      RangeFacts(last.start, last.end);
      forall t | t in Covered(front)
        ensures t !in Range(last.start, last.end)
      {
        CoveredMembers(front, t);
        var k :| 0 <= k < |front| && front[k].start <= t < front[k].end;
        assert ivs[k] == front[k];
      }
      DisjointUnionSize(Covered(front), Range(last.start, last.end));
    }
  }

  /** An interval listed twice is counted once. */
  lemma DuplicatesCountOnce(ivs: seq<Interval>, x: Interval)
    requires x in ivs
    ensures Covered(ivs + [x]) == Covered(ivs)
  {
    CoveredAppend(ivs, x);
    var k :| 0 <= k < |ivs| && ivs[k] == x;
    RangeFacts(x.start, x.end);
    forall t | t in Range(x.start, x.end)
      ensures t in Covered(ivs)
    {
      CoveredMembers(ivs, t);
    }
  }

  /** A single entry covers between 1 and 1440 minutes when its end is at or before its start (it crosses midnight). */
  lemma MidnightEntryCoverage(e: DiaryEntry)
    requires DayEntry(e) && MinuteOfDay(e.EndTime) <= MinuteOfDay(e.StartTime)
    ensures 0 < |Covered([Normalize(e)])| <= DayMinutes
  {
    var iv := Normalize(e);
    assert [iv][..0] == [];
    RangeFacts(iv.start, iv.end);
  }

  // ---------------------------------------------------------------------
  // Coverage past midnight.
  //
  // A run that passes midnight is counted as `(1440 - start) + (end - 1440)`,
  // which equals `end - start`: minutes after midnight are not folded back
  // onto the dial, so they are counted again when an entry of the same day
  // already covers them, and the count can pass 1440. The free time
  // `1440 - covered` then goes negative.
  // ---------------------------------------------------------------------

  /** `24 * 60 - coveredMinutes`. */
  function FreeMinutes(covered: int): (r: int)
    ensures r >= 0 <==> covered <= DayMinutes
  {
    DayMinutes - covered
  }

  const AllDay := DiaryEntry(1, "2025-01-01", "00:00:00", "23:59:00", "Day", "", 0, None)
  const LateShift := DiaryEntry(2, "2025-01-01", "23:00:00", "01:00:00", "Shift", "", 0, None)

  lemma AllDayTimes()
    ensures DayEntry(AllDay)
    ensures MinuteOfDay(AllDay.StartTime) == 0 && MinuteOfDay(AllDay.EndTime) == 1439
  {
    ReadsAs(AllDay.StartTime, 0, 0);
    ReadsAs(AllDay.EndTime, 23, 59);
  }

  lemma LateShiftTimes()
    ensures DayEntry(LateShift)
    ensures MinuteOfDay(LateShift.StartTime) == 1380 && MinuteOfDay(LateShift.EndTime) == 60
  {
    ReadsAs(LateShift.StartTime, 23, 0);
    ReadsAs(LateShift.EndTime, 1, 0);
  }

  lemma NormalizeAllDay()
    ensures DayEntry(AllDay) && Normalize(AllDay) == Interval(0, 1439)
  {
    AllDayTimes();
  }

  lemma NormalizeLateShift()
    ensures DayEntry(LateShift) && Normalize(LateShift) == Interval(1380, 1500)
  {
    LateShiftTimes();
  }

  lemma ExampleEntries()
    ensures AllDayEntries([AllDay, LateShift])
  {
    AllDayTimes();
    LateShiftTimes();
    DayEntryPair(AllDay, LateShift);
  }

  lemma DayEntryPair(a: DiaryEntry, b: DiaryEntry)
    requires DayEntry(a) && DayEntry(b)
    ensures AllDayEntries([a, b])
  {
  }

  /** Two entries normalise one by one, in order. */
  lemma NormalizedPair(a: DiaryEntry, b: DiaryEntry)
    requires DayEntry(a) && DayEntry(b)
    ensures AllDayEntries([a, b]) && Normalized([a, b]) == [Normalize(a), Normalize(b)]
  {
    DayEntryPair(a, b);
  }

  lemma NormalizedExample()
    ensures AllDayEntries([AllDay, LateShift])
    ensures Normalized([AllDay, LateShift]) == [Interval(0, 1439), Interval(1380, 1500)]
  {
    NormalizeAllDay();
    NormalizeLateShift();
    NormalizedPair(AllDay, LateShift);
  }

  /** The two intervals overlap, so together they cover the single run `[0, 1500)`. */
  lemma CoveredExample()
    ensures Covered([Interval(0, 1439), Interval(1380, 1500)]) == Range(0, 1500)
  {
    var ivs := [Interval(0, 1439), Interval(1380, 1500)];
    assert ivs == [] + [ivs[0]] + [ivs[1]];
    CoveredAppend([], ivs[0]);
    CoveredAppend([ivs[0]], ivs[1]);
    assert [] + [ivs[0]] == [ivs[0]];
    ExtendRun(0, 1439, 1380, 1500);
  }

  /**
   * A whole-day entry and a shift from 23:00 to 01:00 merge into the single
   * run `[0, 1500)`: the sweep as written reports 1500 covered minutes and
   * negative free time, although the dial has only 1440 minutes.
   */
  lemma CoverageExceedsDay()
    ensures AllDayEntries([AllDay, LateShift])
    ensures |Covered(Normalized([AllDay, LateShift]))| == 1500
    ensures FreeMinutes(|Covered(Normalized([AllDay, LateShift]))|) < 0
  {
    NormalizedExample();
    CoveredExample();
    RangeFacts(0, 1500);
  }

  /** A minute of today or tomorrow lands on the dial at itself or 1440 minutes earlier. */
  lemma ModDay(t: int)
    requires 0 <= t < 2 * DayMinutes
    ensures t % DayMinutes == if t < DayMinutes then t else t - DayMinutes
  {
  }

  /** The minutes of the dial a set of (possibly next-day) minutes lands on. */
  ghost function OnDial(s: set<int>): set<int> {
    set t | t in s :: t % DayMinutes
  }

  /** An interval as pieces of the dial: one that passes midnight becomes its part before midnight and its part after. */
  function Unwrap(iv: Interval): (r: seq<Interval>)
    ensures iv.end <= DayMinutes ==> r == [iv]
    ensures DayMinutes < iv.end ==> r == [Interval(iv.start, DayMinutes), Interval(0, iv.end - DayMinutes)]
  {
    if iv.end > DayMinutes then [Interval(iv.start, DayMinutes), Interval(0, iv.end - DayMinutes)] else [iv]
  }

  function DialPieces(ivs: seq<Interval>): (r: seq<Interval>)
    ensures |ivs| <= |r| <= 2 * |ivs|
    decreases |ivs|
  {
    if |ivs| == 0 then [] else DialPieces(ivs[..|ivs| - 1]) + Unwrap(ivs[|ivs| - 1])
  }

  /** An interval a normalised entry can produce: it starts within the day and ends before the next day does. */
  predicate OnClock(iv: Interval) {
    0 <= iv.start < DayMinutes && iv.start < iv.end <= 2 * DayMinutes
  }

  predicate AllOnClock(ivs: seq<Interval>) {
    forall k :: 0 <= k < |ivs| ==> OnClock(ivs[k])
  }

  lemma NormalizedOnClock(es: seq<DiaryEntry>)
    requires AllDayEntries(es)
    ensures AllOnClock(Normalized(es))
  {
    forall k | 0 <= k < |es|
      ensures OnClock(Normalized(es)[k])
    {
      var iv := Normalize(es[k]);
    }
  }

  lemma {:induction false} CoveredConcat(a: seq<Interval>, b: seq<Interval>)
    ensures Covered(a + b) == Covered(a) + Covered(b)
    decreases |b|
  {
    if |b| == 0 {
      assert a + b == a;
    } else {
      var front, last := b[..|b| - 1], b[|b| - 1];
      assert a + b == (a + front) + [last];
      CoveredAppend(a + front, last);
      CoveredConcat(a, front);
      assert Covered(b) == Covered(front) + Range(last.start, last.end);
    }
  }

  lemma OnDialUnion(a: set<int>, b: set<int>)
    ensures OnDial(a + b) == OnDial(a) + OnDial(b)
  {
  }

  /** The dial pieces of one interval cover exactly the dial minutes it lands on. */
  lemma UnwrapCovers(iv: Interval)
    requires OnClock(iv)
    ensures Covered(Unwrap(iv)) == OnDial(Range(iv.start, iv.end))
  {
    if iv.end <= DayMinutes {
      UnwrapWithinDay(iv);
    } else {
      UnwrapPastMidnight(iv);
    }
  }

  lemma UnwrapWithinDay(iv: Interval)
    requires OnClock(iv) && iv.end <= DayMinutes
    ensures Covered(Unwrap(iv)) == OnDial(Range(iv.start, iv.end))
  {
    CoveredSingle(iv);
    WithinDayRange(iv.start, iv.end);
  }

  lemma CoveredSingle(iv: Interval)
    ensures Covered([iv]) == Range(iv.start, iv.end)
  {
    CoveredAppend([], iv);
    assert [] + [iv] == [iv];
  }

  lemma WithinDayRange(a: int, b: int)
    requires 0 <= a <= b <= DayMinutes
    ensures OnDial(Range(a, b)) == Range(a, b)
  {
    RangeFacts(a, b);
    OnDialWithinDay(Range(a, b));
  }

  /** Minutes of the day itself land on themselves. */
  lemma OnDialWithinDay(s: set<int>)
    requires forall t :: t in s ==> 0 <= t < DayMinutes
    ensures OnDial(s) == s
  {
    forall x
      ensures x in OnDial(s) <==> x in s
    {
      if x in s {
        ModDay(x);
      }
      if x in OnDial(s) {
        var t :| t in s && x == t % DayMinutes;
        ModDay(t);
      }
    }
  }

  lemma UnwrapPastMidnight(iv: Interval)
    requires OnClock(iv) && DayMinutes < iv.end
    ensures Covered(Unwrap(iv)) == OnDial(Range(iv.start, iv.end))
  {
    CoveredPair(Interval(iv.start, DayMinutes), Interval(0, iv.end - DayMinutes));
    DialPastMidnight(iv.start, iv.end);
  }

  lemma CoveredPair(x: Interval, y: Interval)
    ensures Covered([x, y]) == Range(x.start, x.end) + Range(y.start, y.end)
  {
    CoveredAppend([], x);
    CoveredAppend([x], y);
    assert [] + [x] == [x];
    assert [x] + [y] == [x, y];
  }

  /** The minutes `[a, b)` with `b` past midnight land on `[a, 1440)` and `[0, b - 1440)`. */
  lemma DialPastMidnight(a: int, b: int)
    requires 0 <= a < DayMinutes < b <= 2 * DayMinutes
    ensures OnDial(Range(a, b)) == Range(a, DayMinutes) + Range(0, b - DayMinutes)
  {
    RangeFacts(a, b);
    RangeFacts(a, DayMinutes);
    RangeFacts(0, b - DayMinutes);
    forall x
      ensures x in OnDial(Range(a, b)) <==> x in Range(a, DayMinutes) + Range(0, b - DayMinutes)
    {
      if x in Range(a, DayMinutes) {
        ModDay(x);
      }
      if x in Range(0, b - DayMinutes) {
        ModDay(x + DayMinutes);
        assert x + DayMinutes in Range(a, b);
      }
      if x in OnDial(Range(a, b)) {
        var t :| t in Range(a, b) && x == t % DayMinutes;
        ModDay(t);
      }
    }
  }

  /** The dial pieces of the intervals cover exactly the dial minutes the intervals land on. */
  lemma {:induction false} DialPiecesCover(ivs: seq<Interval>)
    requires AllOnClock(ivs)
    ensures Covered(DialPieces(ivs)) == OnDial(Covered(ivs))
    decreases |ivs|
  {
    if |ivs| > 0 {
      var front := ivs[..|ivs| - 1];
      var last := ivs[|ivs| - 1];
      assert AllOnClock(front) && OnClock(last);
      DialPiecesCover(front);
      assert DialPieces(ivs) == DialPieces(front) + Unwrap(last);
      assert Covered(ivs) == Covered(front) + Range(last.start, last.end);
      CoveredConcat(DialPieces(front), Unwrap(last));
      UnwrapCovers(last);
      OnDialUnion(Covered(front), Range(last.start, last.end));
    }
  }

  /** Every dial piece of clock intervals is non-empty. */
  lemma {:induction false} DialPiecesNonEmpty(ivs: seq<Interval>)
    requires AllOnClock(ivs)
    ensures NonEmpty(DialPieces(ivs))
    decreases |ivs|
  {
    if |ivs| > 0 {
      var front := ivs[..|ivs| - 1];
      assert AllOnClock(front);
      DialPiecesNonEmpty(front);
      assert DialPieces(ivs) == DialPieces(front) + Unwrap(ivs[|ivs| - 1]);
    }
  }

  /** The dial has 1440 minutes. */
  lemma DialBound(s: set<int>)
    ensures |OnDial(s)| <= DayMinutes
  {
    RangeFacts(0, DayMinutes);
    SubsetSize(OnDial(s), Range(0, DayMinutes));
  }

  /**
   * The covered time of the day as the dial shows it: each interval that
   * passes midnight is split at midnight before the same sort, sweep and sum.
   */
  method DialCoveredMinutes(entries: seq<DiaryEntry>) returns (total: int)
    requires AllDayEntries(entries)
    ensures total == |OnDial(Covered(Normalized(entries)))|
    ensures 0 <= total <= DayMinutes
  {
    DialBound(Covered(Normalized(entries)));
    if |entries| == 0 {
      return 0;
    }
    var intervals := Normalized(entries);
    NormalizedOnClock(entries);
    DialPiecesCover(intervals);
    DialPiecesNonEmpty(intervals);
    var pieces := DialPieces(intervals);
    var sorted := SortByStart(pieces);
    CoveredSameElements(sorted, pieces);
    assert NonEmpty(sorted) by {
      forall k | 0 <= k < |sorted|
        ensures sorted[k].start < sorted[k].end
      {
        assert sorted[k] in multiset(pieces);
      }
    }
    var merged := MergeSorted(sorted);
    total := SumRuns(merged);
  }

  /** When no entry passes midnight the two counts agree. */
  lemma DialAgreesWithinDay(ivs: seq<Interval>)
    requires AllOnClock(ivs)
    requires forall k :: 0 <= k < |ivs| ==> ivs[k].end <= DayMinutes
    ensures OnDial(Covered(ivs)) == Covered(ivs)
  {
    forall x
      ensures x in OnDial(Covered(ivs)) <==> x in Covered(ivs)
    {
      if x in OnDial(Covered(ivs)) {
        var t :| t in Covered(ivs) && x == t % DayMinutes;
        CoveredMembers(ivs, t);
        var k :| 0 <= k < |ivs| && ivs[k].start <= t < ivs[k].end;
        ModDay(t);
      }
      if x in Covered(ivs) {
        CoveredMembers(ivs, x);
        var k :| 0 <= k < |ivs| && ivs[k].start <= x < ivs[k].end;
        ModDay(x);
      }
    }
  }

  /** On the two entries above the dial count is the whole day, and the free time is zero rather than negative. */
  lemma DialCoverageOfExample()
    ensures AllDayEntries([AllDay, LateShift])
    ensures |OnDial(Covered(Normalized([AllDay, LateShift])))| == DayMinutes
    ensures FreeMinutes(|OnDial(Covered(Normalized([AllDay, LateShift])))|) == 0
  {
    NormalizedExample();
    DialOfExampleIntervals();
  }

  lemma DialOfExampleIntervals()
    ensures OnDial(Covered([Interval(0, 1439), Interval(1380, 1500)])) == Range(0, DayMinutes)
    ensures |Range(0, DayMinutes)| == DayMinutes
  {
    CoveredExample();
    DialPastMidnight(0, 1500);
    RangeAbsorbs(0, DayMinutes, 0, 60);
    RangeFacts(0, DayMinutes);
  }

  lemma RangeAbsorbs(a: int, b: int, c: int, d: int)
    requires a <= c && d <= b
    ensures Range(a, b) + Range(c, d) == Range(a, b)
  {
    RangeFacts(a, b);
    RangeFacts(c, d);
    forall t
      ensures t in Range(a, b) + Range(c, d) <==> t in Range(a, b)
    {
    }
  }
}
