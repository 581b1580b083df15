# Time diary core in Dafny

A model of the logic inside a React Native time-diary app, with proofs about it. The app stores dated entries with start and end times, and lets the user search them with a list of conditions. The model covers:

- **The search compiler** (`buildSQL`). It folds a list of search conditions into one SQLite query text plus the positional parameters for its `?` placeholders. The text is kept as the sequence of fragments it is concatenated from; `Render` gives each fragment's exact text. A condition whose value makes the JavaScript loop body throw (reading `.from` of `null`, `.length` of `null`, `.map` on a string) makes the whole call a `TypeError`, modelled as a `Result`.
- **The condition editor** (`ConditionRow`) and the search screen's list of conditions. This covers the field table, the operator captions, and the patch each control sends. It also covers add/update/remove on the screen. The main result is that every condition list the screen can build compiles without throwing.
- **The attribute chip picker**: `toggle` and `selected`.
- **The day dial**:
  - `timeToAngle`;
  - `setOverLaps`: the pairwise overlap regions;
  - `getEntriesAtAngle` and the angle `handlePress` probes;
  - `getTotalCoveredMinutes`: normalise, sort, merge sweep, sum.
- **The date/time text helpers**: `getLocalDateStr`, `timeStringToDate`, `dateToTimeString` and `getCurrentTime`. A JavaScript `Date` is replaced by the integer fields these helpers read.
- **The entry editor**:
  - its initial form values;
  - the duration recomputed from the start and end times;
  - the `HH:MM` duration label;
  - the record `handleSave` passes on, with the name trimmed or defaulted.

Times are `HH:MM[:SS]` strings, split on `:` and read with `Number`. Angles are exact reals. JavaScript strings are `seq<char>`.

One module per source concept:

| file | module |
|---|---|
| `strings.dfy` | `Strings` |
| `seqs.dfy` | `Seqs` |
| `diary.dfy` | `Diary` |
| `js_values.dfy` | `JsValues` |
| `build_sql.dfy` | `SqlBuilder` |
| `attribute_picker.dfy` | `AttributePicker` |
| `condition_row.dfy` | `ConditionRow` |
| `day_timeline_util.dfy` | `DayTimeLineUtil` |
| `day_timeline.dfy` | `DayTimeline` |
| `covered_minutes.dfy` | `CoveredMinutes` |
| `date_util.dfy` | `DateUtil` |
| `entry_page.dfy` | `EntryPage` |

What the code does that its editor controls do not suggest:

- Conditions are always joined with `AND`. `negate` and `logic` are never compiled; the editor writes them but `buildSQL` does not read them (`BuildSqlIgnoresNegateAndLogic`).
- A date `between` with a missing bound is not skipped. It binds `undefined`.
- A malformed value is not skipped either. It throws: `null` for a range or for an attribute list, or a non-empty string for an attribute list.
- `getTotalCoveredMinutes` folds nothing back onto the dial. See Findings.

The search screen's list handlers live in `app/(drawer)/search.tsx`: `addCondition` at lines 7-17, `updateCondition` at 19-21 and `removeCondition` at 23-25. These members model them:

| member | lines of app/(drawer)/search.tsx | states |
|---|---|---|
| ConditionRow.Apply | 19-21 | Spreading a patch keeps the id. The empty patch changes nothing. A patch that leaves field, operator and value alone does not change the compiled clause. |
| ConditionRow.ApplyMerge | 20 | Spreading two patches in turn is spreading their merge, so repeating a patch changes nothing. |
| ConditionRow.NewCondition | 7-17 | A new row keeps the row invariant and compiles to a name `LIKE ?` binding `%%`. |
| ConditionRow.AddCondition | 7-17 | `addCondition` appends the new row and keeps the others. |
| ConditionRow.UpdateCondition | 19-21 | `updateCondition` keeps the length and every id, and leaves rows with other ids untouched. |
| ConditionRow.RemoveCondition | 23-25 | `removeCondition` keeps exactly the rows with other ids, in order. |
| ConditionRow.AddKeepsInvariant | 7-17 | Adding a row with a fresh id keeps the ids distinct and every row invariant. |
| ConditionRow.UpdateKeepsInvariant | 19-21 | An edit made through a control the row shows keeps the screen invariant. |
| ConditionRow.RemoveKeepsInvariant | 23-25 | Removing rows keeps the screen invariant. |
| ConditionRow.SharedIdBreaksSearch | 19-21 | With two rows sharing an id, one legal edit patches both and the search throws. So the distinct-ids part of the invariant is needed. |

## Model

| member | source | states |
|---|---|---|
| SqlBuilder.BuildSql | utils/buildSql.ts:21-77 | A successful compile has at most one fragment per condition plus the base. The base comes first and nowhere else, and the placeholder count of the fragments equals the number of bound parameters. |
| SqlBuilder.ClauseOf | utils/buildSql.ts:32-74 | One pass of the loop body throws exactly on the values that make JavaScript throw. Otherwise it appends at most one non-base fragment, with one parameter per placeholder. |
| SqlBuilder.BuildSqlThrowsIff | utils/buildSql.ts:32-74 | `buildSQL` returns normally if and only if no condition's value makes the loop body throw. |
| SqlBuilder.BuildSqlEmpty | utils/buildSql.ts:21-30 | No conditions: the base query alone, ending in `WHERE 1 = 1`, holding no `?`, with no parameters. |
| SqlBuilder.ContainsClause | utils/buildSql.ts:34-46 | Name/notes `contains` appends exactly ` AND d.Name LIKE ?` or ` AND d.Notes LIKE ?` and binds one parameter, `%value%`. |
| SqlBuilder.SkippedConditions | utils/buildSql.ts:33-71 | Name/notes with another operator, date `before`/`after`, and an attribute value of length zero (or no length) append nothing and bind nothing. |
| SqlBuilder.DateClauses | utils/buildSql.ts:48-57 | Date `equals` appends ` AND d.Date = ?` and binds the value as is. `between` appends ` AND d.Date BETWEEN ? AND ?` and binds `from`, then `to`, unchecked. A `null` or `undefined` range throws. |
| SqlBuilder.AttributeClause | utils/buildSql.ts:59-69 | n >= 1 attributes append the `IN` sub-query with exactly n comma-separated `?` and bind the n ids in list order. |
| SqlBuilder.Placeholders | utils/buildSql.ts:65 | `map(() => "?").join(",")` has 2n-1 characters, alternates `?` and `,`, and holds n placeholders. |
| SqlBuilder.AttributeIds | utils/buildSql.ts:68 | The bound ids are the attributes' ids, position by position. |
| SqlBuilder.TextCount | utils/buildSql.ts:32-74 | The query text holds exactly as many `?` as the fragments' placeholder counts add up to. |
| SqlBuilder.CompiledText | utils/buildSql.ts:22-76 | In the compiled text the base query comes first. Every later fragment is a conjunct that opens with `AND` after layout. The text holds exactly one `?` per bound parameter. |
| SqlBuilder.BuildSqlSnoc | utils/buildSql.ts:32-74 | Appending a condition succeeds if and only if both the prefix and the new clause do. The new fragments and parameters go after the old ones. |
| SqlBuilder.BuildSqlPrefix | utils/buildSql.ts:32-74 | The query for the first k conditions is a prefix of the full query, in fragments and in parameters. |
| SqlBuilder.ClauseIgnoresNegateAndLogic | utils/buildSql.ts:13-18 | A condition's clause does not depend on `negate` or `logic`. |
| SqlBuilder.BuildSqlIgnoresNegateAndLogic | utils/buildSql.ts:21-77 | Condition lists that differ only in `negate`/`logic` compile to the same query. |
| SqlBuilder.GymExample | utils/buildSql.ts:34-38 | A single name `contains "gym"` compiles to the base plus one `LIKE ?`, binding `%gym%`. |
| SqlBuilder.ClauseRendersConjunct | utils/buildSql.ts:36-67 | Every fragment other than the base renders as text that opens with `AND` after spaces and line breaks. |
| SqlBuilder.RenderPlaceholders | utils/buildSql.ts:36-65 | Each fragment's text holds exactly the number of `?` its parameters need: 0, 1, 1, 1, 2 or n. |
| JsValues.From | utils/buildSql.ts:55 | `v.from` throws if and only if `v` is `null` or `undefined`, and reads the `from` key of an object. |
| JsValues.Length | utils/buildSql.ts:60 | `v.length` throws if and only if `v` is `null` or `undefined`. On an attribute list it is the list's length. |
| AttributePicker.Selected | components/AttributePicker.tsx:25 | A chip is selected if and only if some attribute in the value has its id. |
| AttributePicker.Toggle | components/AttributePicker.tsx:12-20 | Toggling flips whether the id is selected and leaves every other id alone. A selected id is removed with all its copies, the rest kept in order with their multiplicities. An unselected attribute is appended at the end. |
| AttributePicker.ToggleTwice | components/AttributePicker.tsx:12-20 | Toggling an unselected attribute twice restores the list exactly. |
| AttributePicker.TogglesCommuteOnSelection | components/AttributePicker.tsx:12-20 | Toggles of two different ids commute as far as selection shows. |
| ConditionRow.Config | components/ConditionRow.tsx:24-29 | Every field offers at least one operator, with no repeats. Only the attribute field has the attribute editor, only date has the date editor. `contains` is offered exactly on name/notes, `between` on date, `in` on attribute. |
| ConditionRow.FieldLabelsDistinct | components/ConditionRow.tsx:24-29 | The four fields have four different captions. |
| ConditionRow.OperatorLabelsCollide | components/ConditionRow.tsx:102-117 | Two operators share a caption if and only if they are equal or are `contains` and `in`. |
| ConditionRow.OfferedLabelsDistinct | components/ConditionRow.tsx:177-179 | No operator picker lists the same caption twice. |
| ConditionRow.PatchFor | components/ConditionRow.tsx:119-173 | An edit yields a patch unless an attribute chip is pressed while the value is not an array. Only a field pick sets the field. Only field and operator picks set the operator, and a field pick sets the field's first operator. |
| ConditionRow.NegateFlipsOnly | components/ConditionRow.tsx:138 | Pressing NOT flips `negate` and changes no other key. |
| ConditionRow.PickFieldResets | components/ConditionRow.tsx:147-152 | Picking a field sets an operator that field offers. The value becomes `[]` for attributes and `null` otherwise; id, `negate` and `logic` are kept. |
| ConditionRow.PickOperatorResets | components/ConditionRow.tsx:164-173 | Picking an operator sets the value to `[]` on an attribute row, `{from: "", to: ""}` for `between`, and `null` otherwise. Field, id, `negate` and `logic` are kept. |
| ConditionRow.FreshValue | components/ConditionRow.tsx:151 | The value a picked field starts with is an empty list exactly for the attribute field, `null` for the others. |
| ConditionRow.AttributeSelection | components/ConditionRow.tsx:96 | `value ?? []` is usable as a list exactly when the value is a list, `null` or `undefined`. |
| ConditionRow.EditKeepsInvariant | components/ConditionRow.tsx:119-179 | Every control the row shows produces a patch, and the patched condition keeps the row invariant. The invariant: the operator is offered by the field, and the value has the shape the compiler needs. |
| ConditionRow.InvariantRowsNeverThrow | utils/buildSql.ts:32-74 | A condition with the row invariant compiles without throwing. |
| ConditionRow.PickingNameSearchesForNull | components/ConditionRow.tsx:147-152 | After picking the name field, the condition binds `%null%` until text is typed. |
| ConditionRow.SingleDateBindsNull | components/ConditionRow.tsx:86-91 | A single-date condition holds `null`, since no picker is shown for it, so `equals` binds `null`. |
| ConditionRow.ScreenSearchCompiles | hooks/useSearch.ts:28-29 | Every condition list the screen keeps compiles without throwing. |
| DayTimeLineUtil.TimeToAngle | utils/DayTimeLineUtil.ts:2-5 | The angle is a quarter degree per minute since midnight, and never negative. |
| DayTimeLineUtil.SecondsIgnored | utils/DayTimeLineUtil.ts:3 | `hh:mm` and `hh:mm:anything` read as the same hours, minutes and angle. |
| DayTimeLineUtil.ClockFields | utils/DayTimeLineUtil.ts:3 | An `hh:mm:ss` text reads as the hours and minutes its digits spell. |
| DayTimeLineUtil.MidnightIsZero | utils/DayTimeLineUtil.ts:4 | `"00:00"` is at angle 0. |
| DayTimeLineUtil.AngleInDay | utils/DayTimeLineUtil.ts:4 | Hours up to 23 and minutes up to 59 give an angle in [0, 360). |
| DayTimeLineUtil.AngleOrder | utils/DayTimeLineUtil.ts:4 | Angles compare (`<`, `<=`, `==`) exactly as minutes since midnight do. |
| DayTimeline.SetOverlaps | components/DayTimeline.tsx:18-40 | The existing regions are kept as they are. The regions of the pairs i < j are appended in lexicographic pair order. |
| DayTimeline.AppendRow | components/DayTimeline.tsx:20-38 | The inner loop appends the regions of the pairs (i, i+1), (i, i+2), ... in order. |
| DayTimeline.OverlapOfPair | components/DayTimeline.tsx:21-37 | The loop body pushes the pair's region exactly when `max(starts) < min(ends)`. |
| DayTimeline.OverlappedIsEntryFilter | components/DayTimeline.tsx:31-35 | A region's entries are exactly the entries with `!(end <= s || start >= t)`, in input order. |
| DayTimeline.OverlappedMembers | components/DayTimeline.tsx:31-35 | An entry is listed if and only if some arc of it crosses the region. |
| DayTimeline.RegionsSound | components/DayTimeline.tsx:26-36 | Every recorded region comes from some pair i < j. It spans `max(starts)` to `min(ends)` with start before end, and lists the entries reaching into it. |
| DayTimeline.RegionsComplete | components/DayTimeline.tsx:19-37 | Every pair whose arcs overlap has its region recorded. |
| DayTimeline.RegionsAtMostPairs | components/DayTimeline.tsx:19-38 | There are at most n(n-1)/2 regions for n entries. |
| DayTimeline.SeedsInRegion | components/DayTimeline.tsx:31-36 | Both entries of the seeding pair are listed in its region. Every listed entry reaches into it. |
| DayTimeline.TouchingPairsYieldNothing | components/DayTimeline.tsx:29 | Arcs that only touch or lie apart yield no region. |
| DayTimeline.MidnightEntriesSeedNothing | components/DayTimeline.tsx:26-29 | An entry whose end angle is before its start angle never seeds a region. |
| DayTimeline.EntriesAtAngle | components/DayTimeline.tsx:101-108 | An entry is selected if and only if its arc covers the angle: `start <= a <= end`, or for a midnight-crossing arc `a >= start \|\| a <= end`. The result is a subsequence of the entries. |
| DayTimeline.RegionMidpointSelectsSeeds | components/DayTimeline.tsx:101-108 | Probing the middle of a region selects both entries that seeded it. |
| DayTimeline.PressSelectsOwnDaytimeEntry | components/DayTimeline.tsx:110-112 | Pressing an arc that does not cross midnight lists the entry itself. |
| DayTimeline.PressMissesMidnightEntry | components/DayTimeline.tsx:110-112 | Pressing a 22:00-02:00 arc probes 180 degrees, which that arc does not cover. |
| DayTimeline.ArcMidpoint | components/DayTimeline.tsx:111 | The middle of the drawn arc equals `(start + end) / 2` for arcs that do not cross midnight. |
| DayTimeline.PressAtArcMidpointSelectsEntry | components/DayTimeline.tsx:110-112 | Probing the middle of the drawn arc lists the pressed entry, midnight-crossing or not. |
| CoveredMinutes.Normalize | components/DayTimeline.tsx:46-53 | The interval starts at the start minute. It ends at the end minute when that is later, otherwise 1440 minutes later. Its length is in (0, 1440] for a midnight-crossing entry. |
| CoveredMinutes.Insert | components/DayTimeline.tsx:56 | Inserting into a start-sorted list keeps it sorted and adds exactly the one interval. |
| CoveredMinutes.SortByStart | components/DayTimeline.tsx:56 | The result is sorted by start and is a permutation of the input. |
| CoveredMinutes.MergeSorted | components/DayTimeline.tsx:59-72 | The merged runs cover exactly the minutes the sorted intervals cover, and their lengths add up to that count. |
| CoveredMinutes.SweepStep | components/DayTimeline.tsx:63-70 | An interval starting inside the open run extends it. One starting after it closes the run and opens a new one. Either way the sweep invariant is kept. |
| CoveredMinutes.Close | components/DayTimeline.tsx:72 | Pushing the open run adds exactly its minutes, which no earlier run covers. |
| CoveredMinutes.SumRuns | components/DayTimeline.tsx:75-84 | The final loop's total is the sum of the runs' lengths, whichever branch each run takes. |
| CoveredMinutes.TotalCoveredMinutes | components/DayTimeline.tsx:42-85 | The result is the number of distinct minutes the normalised intervals cover. |
| CoveredMinutes.CoveredMembers | components/DayTimeline.tsx:59-72 | A minute is covered if and only if some interval contains it. |
| CoveredMinutes.CoveredSameElements | components/DayTimeline.tsx:56 | Reordering the intervals does not change the covered minutes. |
| CoveredMinutes.CoverageAtLeastLongest | components/DayTimeline.tsx:56-84 | The union is at least as long as any one interval. |
| CoveredMinutes.CoverageAtMostSum | components/DayTimeline.tsx:56-84 | The union is at most the sum of the lengths. |
| CoveredMinutes.CoverageOfDisjoint | components/DayTimeline.tsx:56-84 | Pairwise disjoint intervals cover exactly the sum of their lengths. |
| CoveredMinutes.DuplicatesCountOnce | components/DayTimeline.tsx:56-84 | An interval listed twice is counted once. |
| CoveredMinutes.MidnightEntryCoverage | components/DayTimeline.tsx:51 | A midnight-crossing entry alone covers between 1 and 1440 minutes. |
| CoveredMinutes.FreeMinutes | components/DayTimeline.tsx:98 | The free time is non-negative if and only if at most 1440 minutes are covered. |
| CoveredMinutes.CoverageExceedsDay | components/DayTimeline.tsx:75-84 | For 00:00-23:59 plus 23:00-01:00 the count is 1500 minutes and the free time is negative. |
| CoveredMinutes.DialCoveredMinutes | components/DayTimeline.tsx:42-85 | With runs split at midnight, the count is the number of distinct dial minutes covered, between 0 and 1440. |
| CoveredMinutes.DialPiecesCover | components/DayTimeline.tsx:51 | Splitting each interval at midnight covers exactly the dial minutes the intervals land on. |
| CoveredMinutes.DialAgreesWithinDay | components/DayTimeline.tsx:75-84 | When no interval passes midnight, folding onto the dial changes no covered minute, so the dial count and the original count agree. |
| CoveredMinutes.DialCoverageOfExample | components/DayTimeline.tsx:97-98 | On the same two entries the dial count is 1440 and the free time is 0. |
| DateUtil.GetLocalDateStr | utils/dateUtil.ts:1-6 | The day key splits on `-` into exactly three pieces: the year in decimal, the month counted from 1 and the day, both padded to two digits. |
| DateUtil.DateToTimeString | utils/dateUtil.ts:14-16 | The text splits on `:` into exactly three pieces: the padded hours, the padded minutes and `00`. |
| DateUtil.GetCurrentTime | utils/dateUtil.ts:18-22 | The text splits on `:` into exactly three pieces: the padded hours, minutes and seconds. |
| DateUtil.TimeStringShape | utils/dateUtil.ts:14-16 | For a clock reading of the day the text is eight characters, `:` at 2 and 5, ending in `00`. |
| DateUtil.CurrentTimeShape | utils/dateUtil.ts:18-22 | For a clock reading of the day the text is eight characters, `:` at 2 and 5, ending in the padded seconds. |
| DateUtil.TimeStringToDate | utils/dateUtil.ts:8-12 | Every `Date` argument read from the digit pieces is non-negative. The month index can be -1, because the month is passed less one. |
| DateUtil.TimeStringParses | utils/dateUtil.ts:9-15 | `Number` reads all three pieces of a `dateToTimeString` text as digit strings. |
| DateUtil.DateStrParses | utils/dateUtil.ts:1-10 | `Number` reads all three pieces of a day key as digit strings. For a calendar day the month and day pieces have two digits. |
| DateUtil.TimeStringRoundTrip | utils/dateUtil.ts:1-16 | Parsing what the formatters write gives back the calendar day (month index included), the hours, the minutes and 0 seconds. |
| DateUtil.CurrentTimeRoundTrip | utils/dateUtil.ts:1-22 | The same for `getCurrentTime`, the seconds surviving. |
| DateUtil.TimeStringInjective | utils/dateUtil.ts:14-16 | Two readings give the same text if and only if hours and minutes agree. |
| DateUtil.DateStrInjective | utils/dateUtil.ts:1-6 | Two calendar days give the same key if and only if they are the same day. |
| EntryPage.SecondsOfDay | app/EntryPage.tsx:31-34 | The seconds are 60 times the minutes since midnight. |
| EntryPage.Duration | app/EntryPage.tsx:30-36 | The duration is a multiple of 60. It is 0 when the end is not after the start, otherwise 60 times the minute gap. |
| EntryPage.DurationIgnoresSeconds | app/EntryPage.tsx:31-34 | The seconds fields never change the duration. |
| EntryPage.PickedTimeReadsBack | app/EntryPage.tsx:117-121 | A time written by the picker reads back as the hours and minutes picked. |
| EntryPage.PickedDuration | app/EntryPage.tsx:30-36 | Between two picked times the duration is the picked gap in seconds, or 0. |
| EntryPage.DurationIsCoverage | app/EntryPage.tsx:30-36 | Within a day the duration is the entry's covered minutes in seconds. |
| EntryPage.MidnightDurationIsZero | app/EntryPage.tsx:35 | A midnight-crossing entry has duration 0 here, although the dial counts it as covered. |
| EntryPage.Split2 | app/EntryPage.tsx:150-151 | The shown minutes are below 60, and hours and minutes account for the duration to within a minute. |
| EntryPage.DurationLabelRoundTrip | app/EntryPage.tsx:150-151 | For whole minutes the label splits on `:` into two digit strings that read back to exactly the duration. |
| EntryPage.LabelRoundTrip | app/EntryPage.tsx:150-151 | The label's two figures read back as the hours and minutes. |
| EntryPage.DurationLabelLength | app/EntryPage.tsx:150-151 | Under 100 hours the label is `HH:MM`, five characters. |
| EntryPage.SavedName | app/EntryPage.tsx:49 | The saved name is never empty and has no whitespace at either end. It is the trimmed name when that is not empty, and `New Entry` when the name is empty or all whitespace. |
| EntryPage.SavedNameIdempotent | app/EntryPage.tsx:49 | Saving a saved name again changes nothing. |
| EntryPage.OrElse | app/EntryPage.tsx:19-27 | `v \|\| fallback` keeps a non-empty string and falls back on a missing or empty one. |
| EntryPage.InitialForm | app/EntryPage.tsx:19-27 | A new entry starts with today's key, empty name and notes, `00:00:00`, the current time and `#4CAF50`. An existing entry shows its name and notes. Its date, start, end and colour are shown when not empty, and otherwise fall back to today's key, `00:00:00`, the current time and `#4CAF50`. Date, start, end and colour never start empty. |
| EntryPage.FormOf | app/EntryPage.tsx:19-27 | For a stored entry, each of date, start, end and colour is the stored text when that is not empty, and otherwise the fallback. A missing colour also falls back. Name and notes are shown as stored. |
| EntryPage.Save | app/EntryPage.tsx:46-54 | The saved record carries the form's fields, with a non-empty name. |
| EntryPage.SaveThenReopen | app/EntryPage.tsx:19-54 | Saving a form and reopening the entry shows the same form, the name trimmed or defaulted. |
| EntryPage.ReopenThenSave | app/EntryPage.tsx:19-54 | Reopening a filled-in entry with a trimmed name and saving it unedited stores the same entry. |
| Strings.Pad2 | utils/dateUtil.ts:3 | `padStart(2, "0")` of a number gives digits, at least two of them, exactly two below 100. |
| Strings.ParsePad2 | utils/dateUtil.ts:9-10 | `Number` of a padded rendering is the number. |
| Strings.Split | utils/dateUtil.ts:9 | `split` gives at least one piece, none holding the separator. |
| Strings.Trim | app/EntryPage.tsx:49 | `trim` removes whitespace runs at both ends; the result is a slice with no whitespace at either end. |
| Strings.TrimIdempotent | app/EntryPage.tsx:49 | Trimming twice is trimming once. |
| Seqs.Filter | components/AttributePicker.tsx:16 | `filter` keeps exactly the passing elements, in order. |

## Left out

- Storage and I/O: `runSearch`, `useDiary`, `useAttribute`, and how SQLite evaluates the query. The model stops at the `(sql, params)` pair.
- `getLatestEndTime` and its effect in the entry editor, `handleDelete`, `addEntry`/`updateEntry` and navigation: these are storage calls.
- `describeArc`: trigonometry and SVG path text.
- `coveredPercent`: `Math.round` on a floating-point ratio.
- JSX rendering, tooltips, modals and the date/time picker widgets. A picked date or time enters the model as its integer fields.
- JavaScript `Date`: replaced by its calendar and clock fields. The current time is a parameter.
- The random id of a new condition (`Math.random`): a parameter of `NewCondition`.
- Angles are exact reals. Floating-point rounding of `/ 1440 * 360` is not modelled.
- DayTimeLineUtil.TimeToAngle: requires the first two `:`-pieces to be digit strings. Other pieces are not modelled. For them `Number` gives `NaN`, or a value read with a sign, a decimal point, an exponent, a hex prefix or surrounding whitespace (`Number(" 7")` is 7, `Number("1.5")` is 1.5, `Number("0x10")` is 16).
- DateUtil.TimeStringToDate: requires the first three pieces of both texts to be digit strings. Other pieces, for which `Number` gives `NaN` or a signed, decimal or hex value, are not modelled.
- EntryPage.Duration: requires the first two `:`-pieces of both times to be digit strings. Other pieces, for which `Number` gives `NaN` or a signed, decimal or hex value, are not modelled.
- CoveredMinutes.TotalCoveredMinutes: requires every time to be a clock time of the day (hours at most 23, minutes at most 59). The source takes any text. The restriction keeps each normalised interval non-empty.
- DayTimeline.PressAtArcMidpointSelectsEntry: requires the start time to be a clock time of the day, so that its angle is below 360.
- The OR/NOT semantics of conditions: the code never compiles `logic` or `negate`, so no meaning is given to them.

## Findings

| source | as written | input that shows it | evidently intended | confidence | as-written member | corrected member |
|---|---|---|---|---|---|---|
| components/DayTimeline.tsx:111 | `handlePress` probes `(startAngle + endAngle) / 2` | An entry 22:00-02:00: angles 330 and 30, probe at 180, outside the arc, so the tooltip does not list the pressed entry | Probe the middle of the arc as drawn, clockwise from start to end (0 degrees here) | medium, not executed | DayTimeline.PressMissesMidnightEntry | DayTimeline.PressAtArcMidpointSelectsEntry |
| components/DayTimeline.tsx:75-84 | The midnight branch adds `(1440 - start) + (end - 1440)`, which is `end - start`, so minutes after midnight are not folded back onto the dial | Entries 00:00-23:59 and 23:00-01:00 give 1500 covered minutes and free time -60 | Count distinct minutes of the 1440-minute dial, so coverage is at most 1440 and free time is never negative | medium, not executed | CoveredMinutes.CoverageExceedsDay | CoveredMinutes.DialCoveredMinutes |
