/**
 * The entry editor: the form's initial values, the duration shown while the
 * start and end times are edited, its `HH:MM` label, and the record the
 * page saves.
 */
module EntryPage {
  import opened Strings
  import opened Diary
  import opened DayTimeLineUtil
  import opened DateUtil
  import opened CoveredMinutes

  /** The whole seconds since midnight the first two `:`-pieces name: `h * 3600 + m * 60`. */
  function SecondsOfDay(t: string): (n: nat)
    requires ParseableTime(t)
    ensures n == 60 * MinuteOfDay(t)
  {
    Hours(t) * 3600 + Minutes(t) * 60
  }

  /**
   * The recomputed duration: `Math.max(0, endSec - startSec)`. An end at or
   * before the start gives 0; no day is added, unlike the dial's coverage.
   */
  function Duration(startTime: string, endTime: string): (d: nat)
    requires ParseableTime(startTime) && ParseableTime(endTime)
    ensures d % 60 == 0
    ensures MinuteOfDay(endTime) <= MinuteOfDay(startTime) ==> d == 0
    ensures MinuteOfDay(startTime) < MinuteOfDay(endTime) ==> d == 60 * (MinuteOfDay(endTime) - MinuteOfDay(startTime))
  {
    var startSec := SecondsOfDay(startTime);
    var endSec := SecondsOfDay(endTime);
    var gap := MinuteOfDay(endTime) - MinuteOfDay(startTime);
    assert endSec - startSec == 60 * gap;
    if endSec - startSec > 0 then
      WholeMinuteSeconds(gap);
      endSec - startSec
    else 0
  }

  lemma WholeMinuteSeconds(g: int)
    ensures (60 * g) % 60 == 0
  {
  }

  /** The seconds field of either text never reaches the duration. */
  lemma DurationIgnoresSeconds(h1: string, m1: string, s1: string, h2: string, m2: string, s2: string)
    requires IsDigits(h1) && IsDigits(m1) && IsDigits(h2) && IsDigits(m2)
    ensures ParseableTime(h1 + ":" + m1) && ParseableTime(h1 + ":" + m1 + ":" + s1)
    ensures ParseableTime(h2 + ":" + m2) && ParseableTime(h2 + ":" + m2 + ":" + s2)
    ensures Duration(h1 + ":" + m1 + ":" + s1, h2 + ":" + m2 + ":" + s2) == Duration(h1 + ":" + m1, h2 + ":" + m2)
  {
    SecondsIgnored(h1, m1, s1);
    SecondsIgnored(h2, m2, s2);
  }

  /** Times written by the picker read back as the hours and minutes picked. */
  lemma PickedTimeReadsBack(c: ClockReading)
    ensures ParseableTime(DateToTimeString(c))
    ensures Hours(DateToTimeString(c)) == c.hours && Minutes(DateToTimeString(c)) == c.minutes
  {
    TimeStringParses(c);
    ParsePad2(c.hours);
    ParsePad2(c.minutes);
  }

  /** The duration between two picked times is the picked gap in seconds, or 0 when the end is not after the start. */
  lemma PickedDuration(a: ClockReading, b: ClockReading)
    ensures ParseableTime(DateToTimeString(a)) && ParseableTime(DateToTimeString(b))
    ensures var gap := (b.hours * 60 + b.minutes) - (a.hours * 60 + a.minutes);
      Duration(DateToTimeString(a), DateToTimeString(b)) == if gap > 0 then 60 * gap else 0
  {
    PickedTimeReadsBack(a);
    PickedTimeReadsBack(b);
  }

  /** Within a day the duration is the entry's covered time in seconds. */
  lemma DurationIsCoverage(e: DiaryEntry)
    requires DayEntry(e) && MinuteOfDay(e.StartTime) < MinuteOfDay(e.EndTime)
    ensures Duration(e.StartTime, e.EndTime) == 60 * |Covered([Normalize(e)])|
  {
    var iv := Normalize(e);
    assert [iv][..0] == [];
    RangeFacts(iv.start, iv.end);
  }

  /** An entry that passes midnight has duration 0 on this page, while the dial counts it as covered time. */
  lemma MidnightDurationIsZero(e: DiaryEntry)
    requires DayEntry(e) && MinuteOfDay(e.EndTime) <= MinuteOfDay(e.StartTime)
    ensures Duration(e.StartTime, e.EndTime) == 0
    ensures |Covered([Normalize(e)])| > 0
  {
    MidnightEntryCoverage(e);
  }

  /** The `Duration: HH:MM` figures: whole hours, and the whole minutes left over. */
  datatype DurationParts = DurationParts(hours: nat, minutes: nat)

  /** `Math.floor(duration / 3600)` and `Math.floor((duration % 3600) / 60)`. */
  function Split2(d: nat): (p: DurationParts)
    ensures p.minutes < 60
    ensures p.hours * 3600 + p.minutes * 60 <= d < p.hours * 3600 + p.minutes * 60 + 60
  {
    DurationParts(d / 3600, (d % 3600) / 60)
  }

  /** The two padded figures joined by `:`. */
  function Label(p: DurationParts): (r: string)
    ensures |r| >= 5
  {
    Pad2(p.hours) + [':'] + Pad2(p.minutes)
  }

  /** The `HH:MM` text shown for a duration in seconds. */
  function DurationLabel(d: nat): (r: string)
    ensures |r| >= 5
  {
    Label(Split2(d))
  }

  /** A duration of whole minutes is exactly the hours and minutes the label shows. */
  lemma DurationLabelRoundTrip(d: nat)
    requires d % 60 == 0
    ensures var p := Split(DurationLabel(d), ':');
      |p| == 2 && IsDigits(p[0]) && IsDigits(p[1]) && ParseDigits(p[0]) * 3600 + ParseDigits(p[1]) * 60 == d
  {
    var parts := Split2(d);
    LabelRoundTrip(parts);
    WholeMinutes(d, parts);
  }

  /** The label splits on `:` into its two figures, which read back as the hours and minutes. */
  lemma LabelRoundTrip(p: DurationParts)
    ensures var q := Split(Label(p), ':');
      |q| == 2 && IsDigits(q[0]) && IsDigits(q[1]) && ParseDigits(q[0]) == p.hours && ParseDigits(q[1]) == p.minutes
  {
    var hh, mm := Pad2(p.hours), Pad2(p.minutes);
    DigitsHaveNoSeparator(hh, ':');
    DigitsHaveNoSeparator(mm, ':');
    SplitAtFirst(hh, mm, ':');
    SplitNoSeparator(mm, ':');
    ParsePad2(p.hours);
    ParsePad2(p.minutes);
  }

  /** A whole number of minutes leaves no seconds over. */
  lemma WholeMinutes(d: nat, p: DurationParts)
    requires d % 60 == 0 && p == Split2(d)
    ensures p.hours * 3600 + p.minutes * 60 == d
  {
    var k := d / 60;
    var shown := p.hours * 60 + p.minutes;
    assert d == 60 * k;
    assert p.hours * 3600 + p.minutes * 60 == 60 * shown;
    assert 60 * shown <= 60 * k < 60 * shown + 60;
  }

  /** Under 100 hours the label is `HH:MM`, five characters. */
  lemma DurationLabelLength(d: nat)
    requires d < 100 * 3600
    ensures |DurationLabel(d)| == 5 && DurationLabel(d)[2] == ':'
  {
    var parts := Split2(d);
    assert parts.hours < 100;
    LabelLength(parts);
  }

  lemma LabelLength(p: DurationParts)
    requires p.hours < 100 && p.minutes < 100
    ensures |Label(p)| == 5 && Label(p)[2] == ':'
  {
  }

  const DefaultName: string := "New Entry"

  /** `name.trim() || "New Entry"`: the trimmed name, or the placeholder when nothing but whitespace was typed. */
  function SavedName(name: string): (r: string)
    ensures |r| > 0 && !IsJsWhitespace(r[0]) && !IsJsWhitespace(r[|r| - 1])
    ensures Trim(name) != [] ==> r == Trim(name)
    ensures Trim(name) == [] ==> r == DefaultName
  {
    var t := Trim(name);
    if t != [] then t
    else
      DefaultNameEnds();
      DefaultName
  }

  lemma DefaultNameEnds()
    ensures |DefaultName| == 9 && !IsJsWhitespace(DefaultName[0]) && !IsJsWhitespace(DefaultName[8])
  {
    assert DefaultName[0] == 'N' && DefaultName[8] == 'y';
  }

  /** Saving a saved name again changes nothing. */
  lemma SavedNameIdempotent(name: string)
    ensures SavedName(SavedName(name)) == SavedName(name)
  {
    TrimmedIsFixed(SavedName(name));
  }

  /** The fields the editor holds. */
  datatype Form = Form(date: string, name: string, notes: string, startTime: string, endTime: string, color: string)

  /** JavaScript `value || fallback` for a string that may be missing: the empty string falls back too. */
  function OrElse(v: Option<string>, fallback: string): (r: string)
    ensures v.Some? && v.value != [] ==> r == v.value
    ensures v.None? || v.value == [] ==> r == fallback
  {
    if v.Some? && v.value != [] then v.value else fallback
  }

  const DefaultStart: string := "00:00:00"
  const DefaultColor: string := "#4CAF50"

  lemma DefaultsFilled()
    ensures |DefaultStart| == 8 && |DefaultColor| == 7
  {
  }

  /** A stored field is shown as it is when it is not empty; an empty one shows its fallback instead. */
  predicate Shown(stored: string, fallback: string, shown: string) {
    (stored != [] ==> shown == stored) && (stored == [] ==> shown == fallback)
  }

  /**
   * The initial form: each field of the entry being edited, or, when there is
   * none or the field is empty, today's day key, an empty name and notes,
   * midnight, the current time and the default green.
   */
  function InitialForm(existing: Option<DiaryEntry>, today: CalendarDay, now: ClockReading): (f: Form)
    ensures existing.None? ==>
              f == Form(GetLocalDateStr(today), "", "", DefaultStart, GetCurrentTime(now), DefaultColor)
    ensures existing.Some? ==> f.name == existing.value.Name && f.notes == existing.value.Notes
    ensures existing.Some? ==> Shown(existing.value.Date, GetLocalDateStr(today), f.date)
    ensures existing.Some? ==> Shown(existing.value.StartTime, DefaultStart, f.startTime)
    ensures existing.Some? ==> Shown(existing.value.EndTime, GetCurrentTime(now), f.endTime)
    ensures existing.Some? && existing.value.Color.Some? ==> Shown(existing.value.Color.value, DefaultColor, f.color)
    ensures existing.Some? && existing.value.Color.None? ==> f.color == DefaultColor
    ensures f.startTime != [] && f.endTime != [] && f.color != [] && f.date != []
  {
    var dayKey, clock := GetLocalDateStr(today), GetCurrentTime(now);
    DefaultsFilled();
    if existing.None? then
      Form(dayKey, "", "", DefaultStart, clock, DefaultColor)
    else
      FormOf(existing.value, dayKey, clock)
  }

  /** The form for a stored entry: each field, or its fallback when the field is empty. */
  function FormOf(e: DiaryEntry, dayKey: string, clock: string): (f: Form)
    requires dayKey != [] && clock != []
    ensures f.name == e.Name && f.notes == e.Notes
    ensures Shown(e.Date, dayKey, f.date)
    ensures Shown(e.StartTime, DefaultStart, f.startTime)
    ensures Shown(e.EndTime, clock, f.endTime)
    ensures e.Color.Some? ==> Shown(e.Color.value, DefaultColor, f.color)
    ensures e.Color.None? ==> f.color == DefaultColor
    ensures f.startTime != [] && f.endTime != [] && f.color != [] && f.date != []
  {
    DefaultsFilled();
    Form(
      OrElse(Some(e.Date), dayKey),
      OrElse(Some(e.Name), ""),
      OrElse(Some(e.Notes), ""),
      OrElse(Some(e.StartTime), DefaultStart),
      OrElse(Some(e.EndTime), clock),
      OrElse(e.Color, DefaultColor))
  }

  /** The record `handleSave` passes on: the form's fields, with the name trimmed or defaulted. */
  datatype EntryData = EntryData(Date: string, Name: string, Notes: string, StartTime: string, EndTime: string, Color: string)

  function Save(f: Form): (d: EntryData)
    ensures d.Name != [] && d.Notes == f.notes
    ensures d.Date == f.date && d.StartTime == f.startTime && d.EndTime == f.endTime && d.Color == f.color
  {
    EntryData(f.date, SavedName(f.name), f.notes, f.startTime, f.endTime, f.color)
  }

  /** The stored entry for saved data, with the id and duration storage assigns. */
  function Stored(d: EntryData, id: int, seconds: int): DiaryEntry {
    DiaryEntry(id, d.Date, d.StartTime, d.EndTime, d.Name, d.Notes, seconds, Some(d.Color))
  }

  /**
   * Saving a form and opening the stored entry again shows the same form,
   * except that the name comes back trimmed or defaulted. The form's text
   * fields are never empty, so no default replaces them.
   */
  lemma SaveThenReopen(f: Form, id: int, seconds: int, today: CalendarDay, now: ClockReading)
    requires f.date != [] && f.startTime != [] && f.endTime != [] && f.color != []
    ensures InitialForm(Some(Stored(Save(f), id, seconds)), today, now) == f.(name := SavedName(f.name))
  {
  }

  /** Opening a stored entry and saving it without edits stores the same fields, when its name was already trimmed and its fields are filled in. */
  lemma ReopenThenSave(e: DiaryEntry, today: CalendarDay, now: ClockReading)
    requires e.Date != [] && e.StartTime != [] && e.EndTime != [] && e.Color.Some? && e.Color.value != []
    requires e.Name != [] && Trim(e.Name) == e.Name
    ensures Stored(Save(InitialForm(Some(e), today, now)), e.Id, e.DurationSeconds) == e
  {
  }
}
