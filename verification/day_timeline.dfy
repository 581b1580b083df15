/**
 * The day dial's entry analysis: the overlap regions `setOverLaps` records
 * for every pair of entries whose arcs overlap, and `getEntriesAtAngle`,
 * which picks the entries whose arc covers a given angle (midnight-crossing
 * arcs included). Angles come from `timeToAngle` on the entries' start and
 * end times.
 */
module DayTimeline {
  import opened Strings
  import opened Seqs
  import opened Diary
  import opened DayTimeLineUtil

  /** Both times of the entry are readable clock times. */
  predicate Timed(e: DiaryEntry) {
    ParseableTime(e.StartTime) && ParseableTime(e.EndTime)
  }

  predicate AllTimed(es: seq<DiaryEntry>) {
    forall i :: 0 <= i < |es| ==> Timed(es[i])
  }

  function StartAngle(e: DiaryEntry): real
    requires Timed(e)
  {
    TimeToAngle(e.StartTime)
  }

  function EndAngle(e: DiaryEntry): real
    requires Timed(e)
  {
    TimeToAngle(e.EndTime)
  }

  function Max(a: real, b: real): real {
    if a >= b then a else b
  }

  function Min(a: real, b: real): real {
    if a <= b then a else b
  }

  /** An entry together with the start and end angles of its arc on the dial. */
  datatype Arc = Arc(entry: DiaryEntry, start: real, end: real)

  function ArcOf(e: DiaryEntry): Arc
    requires Timed(e)
  {
    Arc(e, StartAngle(e), EndAngle(e))
  }

  /** The arcs of a list of entries, position by position. */
  function Arcs(es: seq<DiaryEntry>): (r: seq<Arc>)
    requires AllTimed(es)
    ensures |r| == |es|
    decreases |es|
  {
    if |es| == 0 then [] else [ArcOf(es[0])] + Arcs(es[1..])
  }

  // ---------------------------------------------------------------------
  // setOverLaps
  // ---------------------------------------------------------------------

  /** An overlap region: its arc and the entries that reach into it. */
  datatype Region = Region(start: real, end: real, entries: seq<DiaryEntry>)

  /** The filter test on an entry: `!(e_ <= s || start >= t)`. */
  predicate EntryCrosses(s: real, t: real, e: DiaryEntry) {
    Timed(e) && !(EndAngle(e) <= s || StartAngle(e) >= t)
  }

  /** The same test on an arc. */
  predicate Crosses(s: real, t: real, a: Arc) {
    !(a.end <= s || a.start >= t)
  }

  /** The entries whose arcs reach into the arc from `s` to `t`, in input order. */
  function Overlapped(arcs: seq<Arc>, s: real, t: real): seq<DiaryEntry>
    decreases |arcs|
  {
    if |arcs| == 0 then []
    else (if Crosses(s, t, arcs[0]) then [arcs[0].entry] else []) + Overlapped(arcs[1..], s, t)
  }

  /** An entry is listed exactly when some arc of it crosses the region. */
  lemma {:induction false} OverlappedMembers(arcs: seq<Arc>, s: real, t: real)
    ensures forall a :: a in arcs && Crosses(s, t, a) ==> a.entry in Overlapped(arcs, s, t)
    ensures forall e :: e in Overlapped(arcs, s, t) ==> exists a :: a in arcs && a.entry == e && Crosses(s, t, a)
    decreases |arcs|
  {
    if |arcs| > 0 {
      OverlappedMembers(arcs[1..], s, t);
      assert forall a :: a in arcs ==> a == arcs[0] || a in arcs[1..];
    }
  }

  /** The region the pair (i, j) yields when its arcs overlap. */
  function RegionFor(arcs: seq<Arc>, i: nat, j: nat): Region
    requires i < j < |arcs|
  {
    var s := Max(arcs[i].start, arcs[j].start);
    var t := Min(arcs[i].end, arcs[j].end);
    Region(s, t, Overlapped(arcs, s, t))
  }

  /** What the pair (i, j) contributes: one region when `max(starts) < min(ends)`, nothing otherwise. */
  function PairRegion(arcs: seq<Arc>, i: nat, j: nat): (r: seq<Region>)
    requires i < j < |arcs|
    ensures |r| <= 1
  {
    if Max(arcs[i].start, arcs[j].start) < Min(arcs[i].end, arcs[j].end) then [RegionFor(arcs, i, j)] else []
  }

  /** The regions of the pairs (i, j0), (i, j0 + 1), ..., in that order. */
  function RowRegions(arcs: seq<Arc>, i: nat, j0: nat): seq<Region>
    requires i < j0 <= |arcs|
    decreases |arcs| - j0
  {
    if j0 == |arcs| then [] else PairRegion(arcs, i, j0) + RowRegions(arcs, i, j0 + 1)
  }

  /** The regions of all pairs i < j with i >= i0, in lexicographic pair order. */
  function Regions(arcs: seq<Arc>, i0: nat): seq<Region>
    requires i0 <= |arcs|
    decreases |arcs| - i0
  {
    if i0 == |arcs| then [] else RowRegions(arcs, i0, i0 + 1) + Regions(arcs, i0 + 1)
  }

  /** `r` is the region the pair (i, j) yields. */
  predicate RegionOf(arcs: seq<Arc>, i: nat, j: nat, r: Region)
    requires i < j < |arcs|
  {
    && r.start == Max(arcs[i].start, arcs[j].start)
    && r.end == Min(arcs[i].end, arcs[j].end)
    && r.start < r.end
    && r.entries == Overlapped(arcs, r.start, r.end)
  }

  /** Filtering the entries by their angles is filtering their arcs and reading off the entries. */
  lemma {:induction false} OverlappedIsEntryFilter(es: seq<DiaryEntry>, s: real, t: real)
    requires AllTimed(es)
    ensures Overlapped(Arcs(es), s, t) == Filter(es, (e: DiaryEntry) => EntryCrosses(s, t, e))
    decreases |es|
  {
    if |es| > 0 {
      ArcsTail(es);
      OverlappedIsEntryFilter(es[1..], s, t);
    }
  }

  /** Position k of the arcs is the arc of entry k. */
  lemma {:induction false} ArcsAt(es: seq<DiaryEntry>, k: nat)
    requires AllTimed(es) && k < |es|
    ensures Arcs(es)[k] == ArcOf(es[k])
    decreases k
  {
    if k > 0 {
      ArcsTail(es);
      ArcsAt(es[1..], k - 1);
    }
  }

  /** The arcs of a non-empty list are the first entry's arc followed by the arcs of the rest. */
  lemma ArcsTail(es: seq<DiaryEntry>)
    requires AllTimed(es) && |es| > 0
    ensures AllTimed(es[1..]) && |Arcs(es)| == |es|
    ensures Arcs(es)[0] == ArcOf(es[0]) && Arcs(es)[1..] == Arcs(es[1..])
  {
    assert forall i :: 0 <= i < |es| - 1 ==> es[1..][i] == es[i + 1];
  }

  /**
   * `setOverLaps(overlaps, entries)`: the regions already in `overlaps` stay
   * as they are, and the regions of the pairs i < j are appended in
   * lexicographic pair order.
   */
  method SetOverlaps(overlaps: seq<Region>, entries: seq<DiaryEntry>) returns (result: seq<Region>)
    requires AllTimed(entries)
    ensures result == overlaps + Regions(Arcs(entries), 0)
  {
    ghost var arcs := Arcs(entries);
    result := overlaps;
    var n := |entries|;
    for i := 0 to n
      invariant result + Regions(arcs, i) == overlaps + Regions(arcs, 0)
    {
      ghost var before := result;
      result := AppendRow(result, entries, i);
      Regroup(before, RowRegions(arcs, i, i + 1), Regions(arcs, i + 1), overlaps + Regions(arcs, 0));
    }
  }

  /** The inner loop for row i: the regions of the pairs (i, i + 1), (i, i + 2), ... appended to `acc`. */
  method AppendRow(acc: seq<Region>, entries: seq<DiaryEntry>, i: nat) returns (result: seq<Region>)
    requires AllTimed(entries) && i < |entries|
    ensures result == acc + RowRegions(Arcs(entries), i, i + 1)
  {
    ghost var arcs := Arcs(entries);
    ghost var total := acc + RowRegions(arcs, i, i + 1);
    result := acc;
    for j := i + 1 to |entries|
      invariant result + RowRegions(arcs, i, j) == total
    {
      result := PushPair(entries, i, j, result, total);
    }
    RowEnd(arcs, i, result, total);
  }

  /** One turn of the inner loop: the pair (i, j)'s region, if any, joins the result. */
  method PushPair(entries: seq<DiaryEntry>, i: nat, j: nat, result: seq<Region>, ghost total: seq<Region>)
    returns (next: seq<Region>)
    requires AllTimed(entries) && i < j < |entries|
    requires result + RowRegions(Arcs(entries), i, j) == total
    ensures next + RowRegions(Arcs(entries), i, j + 1) == total
  {
    var found := OverlapOfPair(entries, i, j);
    RowStep(Arcs(entries), i, j, result, found, total);
    next := result + found;
  }

  /** The body of the inner loop for the pair (i, j): the region it pushes, if any. */
  method OverlapOfPair(entries: seq<DiaryEntry>, i: nat, j: nat) returns (found: seq<Region>)
    requires AllTimed(entries) && i < j < |entries|
    ensures found == PairRegion(Arcs(entries), i, j)
  {
    var start1 := TimeToAngle(entries[i].StartTime);
    var end1 := TimeToAngle(entries[i].EndTime);
    var start2 := TimeToAngle(entries[j].StartTime);
    var end2 := TimeToAngle(entries[j].EndTime);
    ArcsAt(entries, i);
    ArcsAt(entries, j);
    var startOverlap := Max(start1, start2);
    var endOverlap := Min(end1, end2);
    if startOverlap < endOverlap {
      var overlapped := Filter(entries, (e: DiaryEntry) => EntryCrosses(startOverlap, endOverlap, e));
      OverlappedIsEntryFilter(entries, startOverlap, endOverlap);
      found := [Region(startOverlap, endOverlap, overlapped)];
    } else {
      found := [];
    }
  }

  /** The inner loop's step: appending the pair's region moves it from the pending row to the result. */
  lemma RowStep(arcs: seq<Arc>, i: nat, j: nat, result: seq<Region>, found: seq<Region>, total: seq<Region>)
    requires i < j < |arcs| && found == PairRegion(arcs, i, j)
    requires result + RowRegions(arcs, i, j) == total
    ensures (result + found) + RowRegions(arcs, i, j + 1) == total
  {
    Regroup(result, found, RowRegions(arcs, i, j + 1), total);
  }

  /** Past the last pair the row has nothing left to add. */
  lemma RowEnd(arcs: seq<Arc>, i: nat, result: seq<Region>, total: seq<Region>)
    requires i < |arcs| && result + RowRegions(arcs, i, |arcs|) == total
    ensures result == total
  {
    assert result + [] == result;
  }

  /** Moving a piece from the pending part to the accumulated part keeps the total. */
  lemma Regroup<T>(done: seq<T>, piece: seq<T>, pending: seq<T>, total: seq<T>)
    requires done + (piece + pending) == total
    ensures (done + piece) + pending == total
  {
  }

  /** `r` is the region of some pair (i, j) with j at least j0. */
  predicate FromPairAfter(arcs: seq<Arc>, i: nat, j0: nat, r: Region) {
    exists j :: j0 <= j < |arcs| && i < j && RegionOf(arcs, i, j, r)
  }

  lemma {:induction false} RowRegionsSound(arcs: seq<Arc>, i: nat, j0: nat)
    requires i < j0 <= |arcs|
    ensures forall r :: r in RowRegions(arcs, i, j0) ==> FromPairAfter(arcs, i, j0, r)
    decreases |arcs| - j0
  {
    if j0 < |arcs| {
      RowRegionsSound(arcs, i, j0 + 1);
      forall r | r in RowRegions(arcs, i, j0)
        ensures FromPairAfter(arcs, i, j0, r)
      {
        RowRegionSound(arcs, i, j0, r);
      }
    }
  }

  /** One region of row i from j0 on: the pair (i, j0)'s own, or one the rest of the row accounts for. */
  lemma RowRegionSound(arcs: seq<Arc>, i: nat, j0: nat, r: Region)
    requires i < j0 < |arcs| && r in RowRegions(arcs, i, j0)
    requires r in RowRegions(arcs, i, j0 + 1) ==> FromPairAfter(arcs, i, j0 + 1, r)
    ensures FromPairAfter(arcs, i, j0, r)
  {
    RowMember(arcs, i, j0, r);
    if r in PairRegion(arcs, i, j0) {
      PairRegionSound(arcs, i, j0);
      assert RegionOf(arcs, i, j0, r);
    } else {
      var j :| j0 + 1 <= j < |arcs| && i < j && RegionOf(arcs, i, j, r);
      assert j0 <= j;
    }
  }

  /** The region a pair yields, if any, is that pair's region. */
  lemma PairRegionSound(arcs: seq<Arc>, i: nat, j: nat)
    requires i < j < |arcs|
    ensures forall r :: r in PairRegion(arcs, i, j) ==> RegionOf(arcs, i, j, r)
  {
  }

  /** A region of row i from j0 on is the pair (i, j0)'s or a region of the row from j0 + 1 on. */
  lemma RowMember(arcs: seq<Arc>, i: nat, j0: nat, r: Region)
    requires i < j0 < |arcs|
    ensures r in RowRegions(arcs, i, j0) <==> r in PairRegion(arcs, i, j0) || r in RowRegions(arcs, i, j0 + 1)
  {
  }

  /** Every recorded region comes from a pair i < j whose arcs overlap: it spans `max(starts)` to `min(ends)`, with start before end, and lists the entries reaching into it. */
  lemma {:induction false} RegionsSound(arcs: seq<Arc>, i0: nat)
    requires i0 <= |arcs|
    ensures forall r :: r in Regions(arcs, i0) ==> exists i, j :: i0 <= i < j < |arcs| && RegionOf(arcs, i, j, r)
    decreases |arcs| - i0
  {
    if i0 < |arcs| {
      RegionsSound(arcs, i0 + 1);
      RowRegionsSound(arcs, i0, i0 + 1);
    }
  }

  lemma {:induction false} RowRegionsComplete(arcs: seq<Arc>, i: nat, j0: nat, j: nat)
    requires i < j0 <= j < |arcs|
    requires Max(arcs[i].start, arcs[j].start) < Min(arcs[i].end, arcs[j].end)
    ensures RegionFor(arcs, i, j) in RowRegions(arcs, i, j0)
    decreases |arcs| - j0
  {
    if j0 == j {
      RowHasPair(arcs, i, j);
    } else {
      RowRegionsComplete(arcs, i, j0 + 1, j);
      RowHasLater(arcs, i, j0, RegionFor(arcs, i, j));
    }
  }

  lemma RowHasPair(arcs: seq<Arc>, i: nat, j: nat)
    requires i < j < |arcs|
    requires Max(arcs[i].start, arcs[j].start) < Min(arcs[i].end, arcs[j].end)
    ensures RegionFor(arcs, i, j) in RowRegions(arcs, i, j)
  {
    assert RowRegions(arcs, i, j) == [RegionFor(arcs, i, j)] + RowRegions(arcs, i, j + 1);
  }

  lemma RowHasLater(arcs: seq<Arc>, i: nat, j0: nat, r: Region)
    requires i < j0 < |arcs| && r in RowRegions(arcs, i, j0 + 1)
    ensures r in RowRegions(arcs, i, j0)
  {
    RowMember(arcs, i, j0, r);
  }

  lemma {:induction false} RegionsCompleteFrom(arcs: seq<Arc>, i0: nat, i: nat, j: nat)
    requires i0 <= i < j < |arcs|
    requires Max(arcs[i].start, arcs[j].start) < Min(arcs[i].end, arcs[j].end)
    ensures RegionFor(arcs, i, j) in Regions(arcs, i0)
    decreases |arcs| - i0
  {
    if i0 == i {
      RowRegionsComplete(arcs, i, i + 1, j);
    } else {
      RegionsCompleteFrom(arcs, i0 + 1, i, j);
    }
    RegionsMember(arcs, i0, RegionFor(arcs, i, j));
  }

  /** A region of the rows from i0 on is in row i0 or in the rows from i0 + 1 on. */
  lemma RegionsMember(arcs: seq<Arc>, i0: nat, r: Region)
    requires i0 < |arcs|
    ensures r in Regions(arcs, i0) <==> r in RowRegions(arcs, i0, i0 + 1) || r in Regions(arcs, i0 + 1)
  {
  }

  /** Every pair of entries whose arcs overlap (`max(starts) < min(ends)`) has its region recorded. */
  lemma RegionsComplete(arcs: seq<Arc>, i: nat, j: nat)
    requires i < j < |arcs|
    requires Max(arcs[i].start, arcs[j].start) < Min(arcs[i].end, arcs[j].end)
    ensures exists r :: r in Regions(arcs, 0) && RegionOf(arcs, i, j, r)
  {
    RegionsCompleteFrom(arcs, 0, i, j);
    assert RegionOf(arcs, i, j, RegionFor(arcs, i, j));
  }

  lemma {:induction false} RowRegionsCount(arcs: seq<Arc>, i: nat, j0: nat)
    requires i < j0 <= |arcs|
    ensures |RowRegions(arcs, i, j0)| <= |arcs| - j0
    decreases |arcs| - j0
  {
    if j0 < |arcs| {
      RowRegionsCount(arcs, i, j0 + 1);
    }
  }

  /** The number of pairs i < j among m items, counted row by row. */
  function Pairs(m: nat): nat {
    if m == 0 then 0 else Pairs(m - 1) + (m - 1)
  }

  lemma {:induction false} PairsFormula(m: nat)
    ensures 2 * Pairs(m) == m * (m - 1)
  {
    if m > 0 {
      PairsFormula(m - 1);
      assert m * (m - 1) == (m - 1) * (m - 2) + 2 * (m - 1);
    }
  }

  /** At most one region per pair among the rows from i0 on. */
  lemma {:induction false} RegionsCount(arcs: seq<Arc>, i0: nat)
    requires i0 <= |arcs|
    ensures |Regions(arcs, i0)| <= Pairs(|arcs| - i0)
    decreases |arcs| - i0
  {
    if i0 < |arcs| {
      RegionsCount(arcs, i0 + 1);
      RowRegionsCount(arcs, i0, i0 + 1);
      RegionsLength(arcs, i0);
    }
  }

  lemma RegionsLength(arcs: seq<Arc>, i0: nat)
    requires i0 < |arcs|
    ensures |Regions(arcs, i0)| == |RowRegions(arcs, i0, i0 + 1)| + |Regions(arcs, i0 + 1)|
  {
  }

  /** At most one region per pair: no more than n(n-1)/2 regions for n entries. */
  lemma RegionsAtMostPairs(arcs: seq<Arc>)
    ensures 2 * |Regions(arcs, 0)| <= |arcs| * (|arcs| - 1)
  {
    RegionsCount(arcs, 0);
    PairsFormula(|arcs|);
  }

  /** Both entries of the pair reach into their region, and so does every entry listed in it. */
  lemma SeedsInRegion(arcs: seq<Arc>, i: nat, j: nat, r: Region)
    requires i < j < |arcs| && RegionOf(arcs, i, j, r)
    ensures arcs[i].entry in r.entries && arcs[j].entry in r.entries
    ensures forall e :: e in r.entries ==> exists a :: a in arcs && a.entry == e && a.end > r.start && a.start < r.end
  {
    OverlappedMembers(arcs, r.start, r.end);
  }

  /** Arcs that only touch (one ends where the other starts) or lie apart yield no region. */
  lemma TouchingPairsYieldNothing(arcs: seq<Arc>, i: nat, j: nat)
    requires i < j < |arcs|
    requires arcs[i].end <= arcs[j].start || arcs[j].end <= arcs[i].start
    ensures PairRegion(arcs, i, j) == []
  {
  }

  /** An entry whose end angle is before its start angle (it crosses midnight) never seeds a region. */
  lemma MidnightEntriesSeedNothing(arcs: seq<Arc>, i: nat, j: nat)
    requires i < j < |arcs|
    requires arcs[i].end < arcs[i].start || arcs[j].end < arcs[j].start
    ensures PairRegion(arcs, i, j) == []
  {
  }

  // ---------------------------------------------------------------------
  // getEntriesAtAngle and handlePress
  // ---------------------------------------------------------------------

  /** The entry's arc covers `a`: `start <= a <= end`, or for a midnight-crossing arc `a >= start || a <= end`. */
  predicate AtAngle(a: real, e: DiaryEntry) {
    && Timed(e)
    && if EndAngle(e) < StartAngle(e) then a >= StartAngle(e) || a <= EndAngle(e)
       else StartAngle(e) <= a <= EndAngle(e)
  }

  /** `getEntriesAtAngle(a)`. */
  function EntriesAtAngle(es: seq<DiaryEntry>, a: real): (r: seq<DiaryEntry>)
    requires AllTimed(es)
    ensures forall e :: e in r <==> e in es && AtAngle(a, e)
    ensures IsSubsequence(r, es) && |r| <= |es|
  {
    Filter(es, (e: DiaryEntry) => AtAngle(a, e))
  }

  /** The middle of a region's arc selects both entries that seeded it. */
  lemma RegionMidpointSelectsSeeds(es: seq<DiaryEntry>, i: nat, j: nat, r: Region)
    requires AllTimed(es) && i < j < |es| && RegionOf(Arcs(es), i, j, r)
    ensures es[i] in EntriesAtAngle(es, (r.start + r.end) / 2.0)
    ensures es[j] in EntriesAtAngle(es, (r.start + r.end) / 2.0)
  {
    ArcsAt(es, i);
    ArcsAt(es, j);
    assert es[i] in es && es[j] in es;
  }

  /** The angle `handlePress` probes when an entry's arc is pressed: `(startAngle + endAngle) / 2`. */
  function PressedAngle(e: DiaryEntry): real
    requires Timed(e)
  {
    (StartAngle(e) + EndAngle(e)) / 2.0
  }

  /** For an arc that does not cross midnight, pressing it lists the entry itself. */
  lemma PressSelectsOwnDaytimeEntry(es: seq<DiaryEntry>, e: DiaryEntry)
    requires AllTimed(es) && e in es && StartAngle(e) <= EndAngle(e)
    ensures e in EntriesAtAngle(es, PressedAngle(e))
  {
  }

  const Night: DiaryEntry := DiaryEntry(1, "2025-01-01", "22:00:00", "02:00:00", "Sleep", "", 0, None)

  /** 22:00 to 02:00 runs from 330 to 30 degrees; its pressed angle is 180, which its arc does not cover. */
  lemma PressMissesMidnightEntry()
    ensures Timed(Night) && StartAngle(Night) == 330.0 && EndAngle(Night) == 30.0
    ensures PressedAngle(Night) == 180.0
    ensures Night !in EntriesAtAngle([Night], PressedAngle(Night))
  {
    NightAngles();
  }

  lemma NightAngles()
    ensures Timed(Night) && StartAngle(Night) == 330.0 && EndAngle(Night) == 30.0
  {
    NightStart();
    NightEnd();
  }

  lemma NightStart()
    ensures ParseableTime(Night.StartTime) && TimeToAngle(Night.StartTime) == 330.0
  {
    ReadsAs(Night.StartTime, 22, 0);
  }

  lemma NightEnd()
    ensures ParseableTime(Night.EndTime) && TimeToAngle(Night.EndTime) == 30.0
  {
    ReadsAs(Night.EndTime, 2, 0);
  }

  /**
   * The middle of the arc the dial draws from the start angle clockwise to
   * the end angle: for a midnight-crossing arc, halfway through the 360-degree
   * turn, brought back into [0, 360).
   */
  function ArcMidpoint(e: DiaryEntry): (a: real)
    requires Timed(e)
    ensures StartAngle(e) <= EndAngle(e) ==> a == PressedAngle(e)
  {
    var s := StartAngle(e);
    var t := EndAngle(e);
    if t < s then
      var m := (s + t + 360.0) / 2.0;
      if m >= 360.0 then m - 360.0 else m
    else (s + t) / 2.0
  }

  /** Probing the middle of the drawn arc lists the pressed entry, midnight-crossing or not, for any time of day. */
  lemma PressAtArcMidpointSelectsEntry(es: seq<DiaryEntry>, e: DiaryEntry)
    requires AllTimed(es) && e in es
    requires Hours(e.StartTime) <= 23 && Minutes(e.StartTime) <= 59
    ensures e in EntriesAtAngle(es, ArcMidpoint(e))
  {
    AngleInDay(e.StartTime);
  }
}
