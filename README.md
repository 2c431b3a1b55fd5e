# CRMTransactions call-intelligence reports in Dafny

This project models the reporting engine of `CallsIntelligenceController` in
the CRMTransactions API. The engine is a lab directory, a month axis and three
chart reports computed from two call tables: valid calls and missed calls.

- **Lab directory (`GetLabs`).** The lab names of both tables over all rows,
  whatever their date. Each name is kept once, matched case-sensitively, and
  the list is sorted.
- **Month axis (`GetMonths`).** It steps `from.AddMonths(0), from.AddMonths(1), …`
  while the stepped date is not later than midnight of the last day of `to`'s
  month. Each step is formatted as "MonthName yyyy".
  - `AddMonths` keeps the time of day, and keeps the day clamped to the target
    month's length. It fails beyond December 9999.
  - The stepping recursion terminates because every step within the end has a
    month index at most the end's.
- **Volume report (`GetCallVolumeChartData`).** A grid with the call types
  "Missed", "Incoming", "Outgoing" as rows and the labs as cells.
  - Calls in `[from, to]` are grouped by (lab, call type).
  - Missed groups are written first, then valid groups.
  - A group with a null call type is skipped. A call type outside the three
    throws KeyNotFound.
  - Lab cells are matched ignoring letter case.
- **Purpose report (`GetCallPurposeChartData`).** A grid with the catalog's
  purposes as rows and the labs as cells.
  - Valid calls in range are grouped by (lab, purpose).
  - A null purpose throws, and so does a purpose outside the catalog.
    The first such call in range, in table order, decides which exception.
  - Lab cells are matched exactly.
  - Each row also gets its total.
- **Trend report (`CallTrendChartData`).** A grid with the month axis as rows
  and the call types as cells, for one lab (matched ignoring case).
  - Calls in range are grouped by (month, year, call type).
  - Each group is looked up under `GetMonthName(month) + " " + year`, so a
    month missing from the axis throws KeyNotFound.
  - Each group is written to the cell of exactly its call type, so an unknown
    call type changes nothing.

**How the code is modelled.**

- Each grid is a value `Grid(keys, rows)`: the dictionary's keys in insertion
  order, and the `ChartMetrics` row stored under each key.
- The build loops are the method `BuildGrid`. The fold loops are `FoldUpdates`,
  and `OverwriteMatching` is a single `Where(...).ForEach(...)`. The count and
  total projections are `CountData` and `SumData`.
- Each method is proved against a specification function: `ZeroGrid`, `Fold`,
  `Overwritten`, `CountsOf` and `Sum`.
- Each report is a method proved equal to a report function.
- The properties are lemmas about those functions:
  - the exact conditions and exceptions under which each report succeeds;
  - the grid's shape;
  - the value of every cell, as a count of calls in range, because a later
    write overwrites an earlier one;
  - row totals as per-purpose counts.
- The group key of the trend report prints the year with `int.ToString()`,
  while the axis prints it with "yyyy". The two agree only from the year 1000
  on (`Calendar.GroupLabelMatchesAxis`). This is modelled as written: a call
  of the lab in range and dated before the year 1000 makes the report throw
  KeyNotFound, unless the month axis has already failed.
- `GetMonths` as written drops `to`'s month for some inputs (see Findings).
  `MonthAxis.GetMonths` and `CallTrend.TrendReport` keep the axis as written.
  `CallTrend.CallTrendChartData` computes the report on the corrected axis
  `MonthAxis.GetMonthsThroughEnd`.

## Model

| member | source | states |
|---|---|---|
| `Sequences.Distinct` | CRMTransactions/Controllers/CallsIntelligenceController.cs:314-324 | Distinct: no element repeats, every element comes from the input, and every input element is kept |
| `Sequences.DistinctOrder` | CRMTransactions/Controllers/CallsIntelligenceController.cs:314-324 | Distinct keeps first-occurrence order: an earlier element of the result occurs in the input before the first occurrence of any later one |
| `Sequences.DistinctSameElements` | CRMTransactions/Controllers/CallsIntelligenceController.cs:324 | Distinct keeps exactly the elements of its input |
| `Sequences.GroupCount` | CRMTransactions/Controllers/CallsIntelligenceController.cs:81-93 | GroupBy + Count: one group per distinct key, in the order of `Distinct` (first occurrence, by `DistinctOrder` and `GroupCountOrder`), each with the key's number of occurrences, which is positive |
| `Sequences.GroupCountOrder` | CRMTransactions/Controllers/CallsIntelligenceController.cs:81-93 | the key of an earlier group occurs in the input before any occurrence of a later group's key, so the group order is the order in which keys first occur |
| `Sequences.GroupsAll` | CRMTransactions/Controllers/CallsIntelligenceController.cs:81-93 | a test holds for every group's key iff it holds for every input element |
| `Sequences.SumAdd` | CRMTransactions/Controllers/CallsIntelligenceController.cs:208 | raising one entry of a list raises its Sum by the same amount |
| `Sequences.SumZeros` | CRMTransactions/Controllers/CallsIntelligenceController.cs:208 | a list of zeros sums to zero |
| `Sequences.Sum` | CRMTransactions/Controllers/CallsIntelligenceController.cs:208 | the Sum of non-negative counts is non-negative and at least every entry |
| `Strings.BelowIrreflexive` | CRMTransactions/Controllers/CallsIntelligenceController.cs:324 | the ordinal string order is irreflexive |
| `Strings.Upper` | CRMTransactions/Controllers/CallsIntelligenceController.cs:263-268 | ToUpper keeps the length, turns each lower-case ASCII letter into its upper-case letter, and keeps every other character |
| `Strings.SameIgnoringCase` | CRMTransactions/Controllers/CallsIntelligenceController.cs:263-268 | the ToUpper comparison accepts two names exactly when they have the same length and each pair of characters is equal or is the two cases of one letter |
| `Strings.Below` | CRMTransactions/Controllers/CallsIntelligenceController.cs:324 | ordinal order: a proper prefix sorts first, otherwise the first differing character decides |
| `Strings.BelowTransitive` | CRMTransactions/Controllers/CallsIntelligenceController.cs:324 | the ordinal string order is transitive |
| `Strings.BelowTotal` | CRMTransactions/Controllers/CallsIntelligenceController.cs:324 | any two different strings are ordered one way or the other |
| `Strings.AscendingDistinct` | CRMTransactions/Controllers/CallsIntelligenceController.cs:324 | a strictly ascending list has no duplicates |
| `Strings.Insert` | CRMTransactions/Controllers/CallsIntelligenceController.cs:324 | inserting adds exactly one occurrence of the element (as a multiset) |
| `Strings.Sort` | CRMTransactions/Controllers/CallsIntelligenceController.cs:324 | OrderBy returns a permutation of its input |
| `Strings.InsertAscending` | CRMTransactions/Controllers/CallsIntelligenceController.cs:324 | inserting a new element into a strictly ascending list keeps it strictly ascending |
| `Strings.SortAscending` | CRMTransactions/Controllers/CallsIntelligenceController.cs:324 | sorting distinct names gives a strictly ascending list |
| `Calendar.DaysInMonth` | CRMTransactions/Controllers/CallsIntelligenceController.cs:335 | months have 28 to 31 days, and 29 exactly for February of a leap year |
| `Calendar.MonthIndex` | CRMTransactions/Controllers/CallsIntelligenceController.cs:338-339 | the month index of a date encodes exactly its year and month |
| `Calendar.MonthsOfYear` | CRMTransactions/Controllers/CallsIntelligenceController.cs:335 | the months of a year add up to 366 days in a leap year and 365 otherwise |
| `Calendar.YearLength` | CRMTransactions/Controllers/CallsIntelligenceController.cs:335 | the leap-day count in the tick arithmetic agrees with IsLeapYear: each year lasts as long as its months |
| `Calendar.DaysBeforeMonthGrows` | CRMTransactions/Controllers/CallsIntelligenceController.cs:339 | a day of a month comes before the first day of every later month of the year |
| `Calendar.DaysBeforeYearGrows` | CRMTransactions/Controllers/CallsIntelligenceController.cs:339 | a year ends no later than any later year starts |
| `Calendar.DayNumberOrder` | CRMTransactions/Controllers/CallsIntelligenceController.cs:339 | the day number grows with (year, month, day) in lexicographic order |
| `Calendar.AtOrBeforeTicks` | CRMTransactions/Controllers/CallsIntelligenceController.cs:339 | DateTime `<=` on tick counts is the same as comparing (year, month, day, time of day) lexicographically |
| `Calendar.MonthIndexOrder` | CRMTransactions/Controllers/CallsIntelligenceController.cs:339 | date order and month order agree: an earlier date never lies in a later month, and a date of an earlier month is earlier |
| `Calendar.SameMonthIndex` | CRMTransactions/Controllers/CallsIntelligenceController.cs:338 | equal month indexes mean the same year and month |
| `Calendar.AddMonths` | CRMTransactions/Controllers/CallsIntelligenceController.cs:338 | AddMonths succeeds exactly within ±120000 months and the years 1..9999, and otherwise throws out-of-range; it adds the months to the month index, keeps the time of day and clamps the day to the target month |
| `Calendar.AddZeroMonths` | CRMTransactions/Controllers/CallsIntelligenceController.cs:338 | adding zero months gives the date back |
| `Calendar.MonthName` | CRMTransactions/Controllers/CallsIntelligenceController.cs:340 | month names contain no space |
| `Calendar.MonthNameInjective` | CRMTransactions/Controllers/CallsIntelligenceController.cs:340 | different months have different names |
| `Calendar.Digit` | CRMTransactions/Controllers/CallsIntelligenceController.cs:340 | a digit is never a space |
| `Calendar.FourDigitYear` | CRMTransactions/Controllers/CallsIntelligenceController.cs:340 | "yyyy" prints exactly four characters |
| `Calendar.FourDigitYearInjective` | CRMTransactions/Controllers/CallsIntelligenceController.cs:340 | different years print differently under "yyyy" |
| `Calendar.FourDigits` | CRMTransactions/Controllers/CallsIntelligenceController.cs:340 | a year below 10000 is recovered from its four digits |
| `Calendar.Decimal` | CRMTransactions/Controllers/CallsIntelligenceController.cs:288 | int.ToString() prints at least one decimal digit, with no leading zero except for 0 itself |
| `Calendar.DecimalLength` | CRMTransactions/Controllers/CallsIntelligenceController.cs:288 | int.ToString() prints a number below 1000 with at most three digits |
| `Calendar.DecimalOfFourDigitYear` | CRMTransactions/Controllers/CallsIntelligenceController.cs:288 | from the year 1000 on, int.ToString() and "yyyy" print a year alike |
| `Calendar.SpaceIndexAfter` | CRMTransactions/Controllers/CallsIntelligenceController.cs:288 | in "Name Rest" with a space-free name, the first space follows the name |
| `Calendar.SplitAtSpace` | CRMTransactions/Controllers/CallsIntelligenceController.cs:288 | "Name Rest" with a space-free name splits uniquely into its two parts |
| `Calendar.AxisLabel` | CRMTransactions/Controllers/CallsIntelligenceController.cs:340 | a "MMMM yyyy" label is the month name, a space and four characters, and its first space ends the month name |
| `Calendar.GroupLabel` | CRMTransactions/Controllers/CallsIntelligenceController.cs:288 | a group's lookup key equals the axis label of its month from the year 1000 on, and is shorter than it before |
| `Calendar.AxisLabelInjective` | CRMTransactions/Controllers/CallsIntelligenceController.cs:340 | two "MMMM yyyy" labels are equal only for the same month and year |
| `Calendar.GroupLabelMatchesAxis` | CRMTransactions/Controllers/CallsIntelligenceController.cs:288 | a trend group's key equals an axis label iff both name the same month and year and the year is at least 1000 |
| `Calls.ValidLabNames` | CRMTransactions/Controllers/CallsIntelligenceController.cs:314 | the selected names are exactly the lab names of the valid-call rows |
| `Calls.InRange` | CRMTransactions/Controllers/CallsIntelligenceController.cs:71-77 | a call passes the date filter only when `from <= to` and its month lies between theirs |
| `Calls.MissedLabNames` | CRMTransactions/Controllers/CallsIntelligenceController.cs:316 | the selected names are exactly the lab names of the missed-call rows |
| `Calls.GetLabs` | CRMTransactions/Controllers/CallsIntelligenceController.cs:312-327 | the lab list is strictly ascending, has no duplicates, and holds a name iff some valid or missed row (of any date) carries it; names differing in case stay apart |
| `MonthAxis.StepsEntries` | CRMTransactions/Controllers/CallsIntelligenceController.cs:337-339 | step k of a TakeWhile run is `from` advanced by its offset plus k months, and it is within the end |
| `MonthAxis.StepsEntry` | CRMTransactions/Controllers/CallsIntelligenceController.cs:337-339 | step k of a TakeWhile run from offset i is `from` advanced i + k months |
| `MonthAxis.EndOfMonth` | CRMTransactions/Controllers/CallsIntelligenceController.cs:335 | `end` lies in `to`'s month |
| `MonthAxis.EndOfMonthBounds` | CRMTransactions/Controllers/CallsIntelligenceController.cs:335 | `end` is midnight of the last day of `to`'s month: earlier months are within it, later ones are not, and in that month only earlier days or midnight are |
| `MonthAxis.LastTickOfMonth` | CRMTransactions/Controllers/CallsIntelligenceController.cs:335 | the corrected end lies in `to`'s month |
| `MonthAxis.LastTickOfMonthBounds` | CRMTransactions/Controllers/CallsIntelligenceController.cs:335 | the corrected end: a date is within it exactly when its month is `to`'s or earlier |
| `MonthAxis.Steps` | CRMTransactions/Controllers/CallsIntelligenceController.cs:337-339 | the TakeWhile run fails only with DateOutOfRange, and every step it keeps is within `end` |
| `MonthAxis.Labels` | CRMTransactions/Controllers/CallsIntelligenceController.cs:340 | one label per date, and two labels are equal exactly when their dates share month and year |
| `MonthAxis.GetMonths` | CRMTransactions/Controllers/CallsIntelligenceController.cs:329-345 | the axis as written fails only with DateOutOfRange and never repeats a label |
| `MonthAxis.GetMonthsThroughEnd` | CRMTransactions/Controllers/CallsIntelligenceController.cs:329-345 | the corrected axis fails only with DateOutOfRange and never repeats a label |
| `MonthAxis.StepsStop` | CRMTransactions/Controllers/CallsIntelligenceController.cs:337-339 | the step after the last one taken exists and is past the end |
| `MonthAxis.StepsEnd` | CRMTransactions/Controllers/CallsIntelligenceController.cs:337-339 | the run that starts just after the last step taken is empty |
| `MonthAxis.StepsExact` | CRMTransactions/Controllers/CallsIntelligenceController.cs:337-339 | when the steps up to n are within the end and step n is past it, the run succeeds with exactly those steps |
| `MonthAxis.StepsFailure` | CRMTransactions/Controllers/CallsIntelligenceController.cs:337-339 | a run fails only when AddMonths leaves the calendar, which needs the end in December 9999 |
| `MonthAxis.LabelsDistinct` | CRMTransactions/Controllers/CallsIntelligenceController.cs:340 | dates of pairwise different months give pairwise different labels |
| `MonthAxis.GetMonthsEntries` | CRMTransactions/Controllers/CallsIntelligenceController.cs:329-345 | entry k of the axis is the label of `from` advanced k months (consecutive calendar months), within the end; the next step is past the end; no label repeats |
| `MonthAxis.GetMonthsEntry` | CRMTransactions/Controllers/CallsIntelligenceController.cs:329-345 | entry k of the axis is the label of `from` advanced k months, and that date is within the end |
| `MonthAxis.GetMonthsStop` | CRMTransactions/Controllers/CallsIntelligenceController.cs:329-345 | the step after the last axis entry exists and is past the end |
| `MonthAxis.GetMonthsEmpty` | CRMTransactions/Controllers/CallsIntelligenceController.cs:335-339 | the axis is empty iff `from` is later than midnight of the last day of `to`'s month |
| `MonthAxis.GetMonthsLength` | CRMTransactions/Controllers/CallsIntelligenceController.cs:329-345 | the axis has at most the months from `from`'s through `to`'s, and lacks at most the last of them |
| `MonthAxis.GetMonthsFailure` | CRMTransactions/Controllers/CallsIntelligenceController.cs:337-342 | GetMonths throws only with `to` in December 9999 (the lazy Select evaluates the step to January 10000) |
| `MonthAxis.GetMonthsSameDate` | CRMTransactions/Controllers/CallsIntelligenceController.cs:329-345 | GetMonths(D, D) is D's single label, except empty when D is its month's last day after midnight, and a throw in December 9999 |
| `MonthAxis.GetMonthsThroughEndLength` | CRMTransactions/Controllers/CallsIntelligenceController.cs:335 | the corrected axis is every month from `from`'s through `to`'s, entry k being `from` advanced k months, without repetition |
| `MonthAxis.GetMonthsThroughEndEntry` | CRMTransactions/Controllers/CallsIntelligenceController.cs:335 | entry k of the corrected axis is the label of `from` advanced k months |
| `MonthAxis.ThroughEndCount` | CRMTransactions/Controllers/CallsIntelligenceController.cs:335 | the corrected run takes exactly one step per month from `from`'s through `to`'s, and none when `from`'s month is later |
| `MonthAxis.ThroughEndPast` | CRMTransactions/Controllers/CallsIntelligenceController.cs:335 | the corrected run stops only once it has passed `to`'s month |
| `MonthAxis.ThroughEndWithin` | CRMTransactions/Controllers/CallsIntelligenceController.cs:335 | the last date of the corrected run lies in `to`'s month or earlier |
| `MonthAxis.GetMonthsThroughEndCovers` | CRMTransactions/Controllers/CallsIntelligenceController.cs:335 | on the corrected axis, every date in [from, to] has its month's label |
| `MonthAxis.GetMonthsThroughEndFailure` | CRMTransactions/Controllers/CallsIntelligenceController.cs:335-339 | the corrected axis also fails only in December 9999 |
| `MonthAxis.GetMonthsDropsLastMonth` | CRMTransactions/Controllers/CallsIntelligenceController.cs:335-339 | as written, when `from` has a time after midnight and its day clamps to the last day of `to`'s month, the axis lacks `to`'s month |
| `MonthAxis.GetMonthsDropsMarch2024` | CRMTransactions/Controllers/CallsIntelligenceController.cs:335-340 | as written, from 2024-01-31 10:00 to 2024-03-15 the axis is January and February 2024 only |
| `MonthAxis.GetMonthsThroughEndKeepsMarch2024` | CRMTransactions/Controllers/CallsIntelligenceController.cs:335-340 | on the same input the corrected axis is January, February and March 2024 |
| `ChartGrid.BuildGrid` | CRMTransactions/Controllers/CallsIntelligenceController.cs:53-69 | the nested build loops succeed iff no row key repeats (Dictionary.Add throws DuplicateKey otherwise) and give one row per key in key order, each with one zero cell per column in column order |
| `ChartGrid.ZeroGrid` | CRMTransactions/Controllers/CallsIntelligenceController.cs:53-69 | the dictionary is built iff no row key repeats, else DuplicateKey; each row holds one zero cell per column, named after it |
| `ChartGrid.IndexOf` | CRMTransactions/Controllers/CallsIntelligenceController.cs:100 | the dictionary finds a key at its first (only) position |
| `ChartGrid.Rejection` | CRMTransactions/Controllers/CallsIntelligenceController.cs:95-113 | a rejected lookup throws ArgumentNullException for a null key and KeyNotFoundException otherwise |
| `ChartGrid.Overwritten` | CRMTransactions/Controllers/CallsIntelligenceController.cs:102 | Where/ForEach sets every matching cell to the group's count, and keeps the other cells and all names |
| `ChartGrid.MatchersDiffer` | CRMTransactions/Controllers/CallsIntelligenceController.cs:102 | a group of lab "lab a" writes the cell "LAB A" under the volume report's ToUpper match and not under the purpose report's exact match |
| `ChartGrid.ExactlyWithinIgnoringCase` | CRMTransactions/Controllers/CallsIntelligenceController.cs:187 | every cell the purpose report's exact match writes is also matched by the ToUpper comparison |
| `ChartGrid.Apply` | CRMTransactions/Controllers/CallsIntelligenceController.cs:95-103 | one fold iteration succeeds iff its row lookup is acceptable (a null key is skipped or throws NullKey, a missing key throws KeyNotFound); it sets exactly the targeted cells to the group count and leaves every other cell and the keys unchanged |
| `ChartGrid.Fold` | CRMTransactions/Controllers/CallsIntelligenceController.cs:95-113 | a fold loop keeps the dictionary's keys and its well-formedness |
| `ChartGrid.OverwriteMatching` | CRMTransactions/Controllers/CallsIntelligenceController.cs:102 | the Where/ForEach loop over one row writes the count to exactly the matching cells |
| `ChartGrid.FoldUpdates` | CRMTransactions/Controllers/CallsIntelligenceController.cs:95-113 | the fold loop over grouped counts computes Fold |
| `ChartGrid.FoldSucceeds` | CRMTransactions/Controllers/CallsIntelligenceController.cs:95-113 | a fold succeeds iff every group's lookup is acceptable; otherwise it fails with the exception of the first rejected group |
| `ChartGrid.FirstRejectedCons` | CRMTransactions/Controllers/CallsIntelligenceController.cs:95-113 | after an accepted lookup, the first rejected lookup of the rest is the first rejected lookup of the whole loop |
| `ChartGrid.FoldNamedRows` | CRMTransactions/Controllers/CallsIntelligenceController.cs:95-113 | a fold whose groups all name a row can only throw KeyNotFound |
| `ChartGrid.Final` | CRMTransactions/Controllers/CallsIntelligenceController.cs:95-113 | a cell's final count is its start value or the count of some group that targets it |
| `ChartGrid.Overlay` | CRMTransactions/Controllers/CallsIntelligenceController.cs:95-113 | a later group overwrites an earlier count whenever it exists (its count is positive) |
| `ChartGrid.FoldCells` | CRMTransactions/Controllers/CallsIntelligenceController.cs:95-113 | after a fold, each cell holds the count of the last group that targeted it, or its old count |
| `ChartGrid.FinalNone` | CRMTransactions/Controllers/CallsIntelligenceController.cs:102 | a cell no group targets keeps its count |
| `ChartGrid.FinalOne` | CRMTransactions/Controllers/CallsIntelligenceController.cs:102 | a cell exactly one group targets ends with that group's count |
| `ChartGrid.FinalOfGroups` | CRMTransactions/Controllers/CallsIntelligenceController.cs:81-113 | when exactly the group of one key targets a cell, the cell ends with that key's count if it occurs, else keeps its old count |
| `ChartGrid.CountData` | CRMTransactions/Controllers/CallsIntelligenceController.cs:123-128 | countData has one entry per grid row in row order, each listing that row's counts in cell order |
| `ChartGrid.CountsOf` | CRMTransactions/Controllers/CallsIntelligenceController.cs:123-128 | countData has the grid's shape and each entry is its cell's count |
| `ChartGrid.SumData` | CRMTransactions/Controllers/CallsIntelligenceController.cs:204-209 | sumData has one entry per countData row, the sum of that row |
| `CallVolume.ValidVolumeKeys` | CRMTransactions/Controllers/CallsIntelligenceController.cs:71-81 | the valid keys are exactly the (lab, call type) of valid calls in range |
| `CallVolume.MissedVolumeKeys` | CRMTransactions/Controllers/CallsIntelligenceController.cs:76-88 | the missed keys are exactly the (lab, "Missed") of missed calls in range |
| `CallVolume.ValidTypeCount` | CRMTransactions/Controllers/CallsIntelligenceController.cs:71-86 | the count of a (lab, type) is at most the table size, and positive iff such a valid call lies in range |
| `CallVolume.MissedLabCount` | CRMTransactions/Controllers/CallsIntelligenceController.cs:76-93 | the count of a lab is at most the table size, and positive iff such a missed call lies in range |
| `CallVolume.ValidVolumeKeysCount` | CRMTransactions/Controllers/CallsIntelligenceController.cs:71-86 | a key occurs once per valid call in range with that lab and type |
| `CallVolume.MissedVolumeKeysCount` | CRMTransactions/Controllers/CallsIntelligenceController.cs:76-93 | a key occurs once per missed call in range of that lab, under "Missed" only |
| `CallVolume.VolumeUpdates` | CRMTransactions/Controllers/CallsIntelligenceController.cs:95-113 | one lookup per group: under its call type, with its count, writing exactly the cells of its lab ignoring case in the row of its type |
| `CallVolume.VolumeChartOf` | CRMTransactions/Controllers/CallsIntelligenceController.cs:49-128 | on success the response carries the labs, the three call types as rows in order, one cell per lab in lab order, and countData the grid's counts |
| `CallVolume.VolumeReport` | CRMTransactions/Controllers/CallsIntelligenceController.cs:49-130 | on success the rows are the three call types, the cells the labs, and countData the counts; the only exception is KeyNotFound |
| `CallVolume.GetCallVolumeChartData` | CRMTransactions/Controllers/CallsIntelligenceController.cs:49-130 | the build, group, both fold loops and the countData loop compute the volume report |
| `CallVolume.VolumeUpdatesAcceptable` | CRMTransactions/Controllers/CallsIntelligenceController.cs:95-113 | all groups' row lookups succeed iff every non-null call type among the keys is one of the three |
| `CallVolume.ValidVolumeTypes` | CRMTransactions/Controllers/CallsIntelligenceController.cs:105-110 | the non-null types among the valid keys are the types of the valid calls in range |
| `CallVolume.VolumeReportSucceeds` | CRMTransactions/Controllers/CallsIntelligenceController.cs:95-113 | the volume report succeeds iff every valid call in range has a null type or one of the three; otherwise it throws KeyNotFound |
| `CallVolume.VolumeChartSucceeds` | CRMTransactions/Controllers/CallsIntelligenceController.cs:95-113 | with missed keys all "Missed", the grid part succeeds iff every non-null valid type is known, and otherwise throws KeyNotFound |
| `CallVolume.VolumeTargets` | CRMTransactions/Controllers/CallsIntelligenceController.cs:100-112 | when no two labs differ only in case, a group writes cell (type, lab) iff its key is (lab, type); null types write nothing |
| `CallVolume.VolumeChartFolds` | CRMTransactions/Controllers/CallsIntelligenceController.cs:95-128 | a cell's count is what the missed groups and then the valid groups last wrote to it |
| `CallVolume.VolumeChartCell` | CRMTransactions/Controllers/CallsIntelligenceController.cs:95-128 | a cell holds its key's valid count if positive, else its missed count (overwrite, not accumulate) |
| `CallVolume.VolumeKeysOnAxis` | CRMTransactions/Controllers/CallsIntelligenceController.cs:49-79 | every lab of a key is on the lab axis |
| `CallVolume.VolumeReportCell` | CRMTransactions/Controllers/CallsIntelligenceController.cs:71-128 | when no two labs differ only in case, cell (type, lab) is the number of valid calls in range with that lab and type, or where there are none, the number of missed calls in range of that lab in the row "Missed" |
| `CallVolume.VolumeReportCounts` | CRMTransactions/Controllers/CallsIntelligenceController.cs:71-128 | when moreover no valid call is typed "Missed", each cell is the number of calls in range with its lab and type, missed calls counting under "Missed" |
| `CallPurpose.PurposeKeys` | CRMTransactions/Controllers/CallsIntelligenceController.cs:171-176 | the keys are exactly the (lab, purpose) of valid calls in range |
| `CallPurpose.PurposeKeysCount` | CRMTransactions/Controllers/CallsIntelligenceController.cs:171-181 | a key occurs once per valid call in range with that lab and purpose |
| `CallPurpose.PurposeCount` | CRMTransactions/Controllers/CallsIntelligenceController.cs:171-181 | the count of a (lab, purpose) is at most that purpose's total, and positive iff such a valid call lies in range |
| `CallPurpose.PurposeTotal` | CRMTransactions/Controllers/CallsIntelligenceController.cs:171-209 | the count of a purpose is at most the table size, and positive iff such a valid call lies in range |
| `CallPurpose.PurposeUpdates` | CRMTransactions/Controllers/CallsIntelligenceController.cs:183-188 | one lookup per group: under its purpose, with its count, writing exactly its own lab's cell in its purpose's row |
| `CallPurpose.RowTotals` | CRMTransactions/Controllers/CallsIntelligenceController.cs:204-209 | one total per countData row, at least every count of a row of non-negative counts |
| `CallPurpose.PurposeChartOf` | CRMTransactions/Controllers/CallsIntelligenceController.cs:147-209 | on success the response carries the labs, the purposes as rows in catalog order, one cell per lab, countData the grid's counts and sumData each row's sum |
| `CallPurpose.PurposeReport` | CRMTransactions/Controllers/CallsIntelligenceController.cs:147-211 | success needs a catalog without repeats, and gives the labs, the catalog as purposes and one total per purpose; a failure is DuplicateKey exactly for a repeated purpose, else NullKey or KeyNotFound |
| `CallPurpose.GetCallPurposeChartData` | CRMTransactions/Controllers/CallsIntelligenceController.cs:147-211 | the build, group, fold, countData and sumData loops compute the purpose report |
| `CallPurpose.PurposeUpdatesAcceptable` | CRMTransactions/Controllers/CallsIntelligenceController.cs:183-188 | all groups' lookups succeed iff every key's purpose is non-null and in the catalog |
| `CallPurpose.PurposeChartSucceeds` | CRMTransactions/Controllers/CallsIntelligenceController.cs:155-188 | the grid part succeeds iff purposes don't repeat and every key's purpose is a non-null catalog purpose; a repeat throws DuplicateKey, otherwise the first key, in call order, whose purpose is null (NullKey) or not in the catalog (KeyNotFound) decides the exception |
| `CallPurpose.PurposeFoldRejects` | CRMTransactions/Controllers/CallsIntelligenceController.cs:183-188 | a failing purpose fold throws for the first key, in group order, that is not catalogued |
| `CallPurpose.FirstRejectedGroup` | CRMTransactions/Controllers/CallsIntelligenceController.cs:176-188 | the first rejected group is the group of the first rejected key in call order |
| `CallPurpose.FirstRejectedKey` | CRMTransactions/Controllers/CallsIntelligenceController.cs:176-188 | a key that is rejected, with all earlier keys accepted, is the first rejected key |
| `CallPurpose.PurposeChartCell` | CRMTransactions/Controllers/CallsIntelligenceController.cs:183-203 | cell (purpose, lab) is the number of keys with exactly that lab and purpose |
| `CallPurpose.PurposeKeysTotal` | CRMTransactions/Controllers/CallsIntelligenceController.cs:171-181 | the keys with a purpose are as many as the valid calls in range with it |
| `CallPurpose.CountWithPurposeConcat` | CRMTransactions/Controllers/CallsIntelligenceController.cs:204-209 | counting a purpose distributes over concatenation |
| `CallPurpose.LabCountsCons` | CRMTransactions/Controllers/CallsIntelligenceController.cs:183-203 | one more key raises its own lab's count of its purpose by one and nothing else |
| `CallPurpose.LabCountsSum` | CRMTransactions/Controllers/CallsIntelligenceController.cs:183-203 | one more key adds one to the sum of the per-lab counts of its own purpose, and nothing to other purposes |
| `CallPurpose.LabCountsTotal` | CRMTransactions/Controllers/CallsIntelligenceController.cs:204-209 | when every key's lab is on the axis, the per-lab counts of a purpose sum to the purpose's count |
| `CallPurpose.PurposeChartTotal` | CRMTransactions/Controllers/CallsIntelligenceController.cs:198-209 | sumData of a purpose is the number of keys with that purpose |
| `CallPurpose.PurposeReportSucceeds` | CRMTransactions/Controllers/CallsIntelligenceController.cs:147-188 | the purpose report succeeds iff the catalog has no repeated purpose and every valid call in range has a non-null catalog purpose |
| `CallPurpose.PurposeReportFailure` | CRMTransactions/Controllers/CallsIntelligenceController.cs:147-188 | a failing report throws DuplicateKey for a repeated catalog purpose, otherwise the exception of the first valid call in range, in table order, whose purpose is null or not in the catalog |
| `CallPurpose.PurposeKeysFirstRejected` | CRMTransactions/Controllers/CallsIntelligenceController.cs:171-188 | the first rejected key is the key of the first rejected valid call in range |
| `CallPurpose.ShiftFirstRejected` | CRMTransactions/Controllers/CallsIntelligenceController.cs:171-188 | a leading accepted call shifts the first rejected call by one |
| `CallPurpose.PurposesOfKeys` | CRMTransactions/Controllers/CallsIntelligenceController.cs:171-185 | the keys' purposes are all catalog purposes iff those of the valid calls in range are |
| `CallPurpose.PurposeKeysOnAxis` | CRMTransactions/Controllers/CallsIntelligenceController.cs:147-176 | every lab of a key is on the lab axis |
| `CallPurpose.PurposeReportCell` | CRMTransactions/Controllers/CallsIntelligenceController.cs:171-203 | cell (purpose, lab) is the number of valid calls in range with exactly that lab (case-sensitive) and purpose |
| `CallPurpose.PurposeReportTotal` | CRMTransactions/Controllers/CallsIntelligenceController.cs:171-209 | sumData of a purpose is the number of valid calls in range with that purpose |
| `CallTrend.TrendValidKeys` | CRMTransactions/Controllers/CallsIntelligenceController.cs:262-272 | the valid keys are exactly the (month, year, type) of valid calls in range of the lab, ignoring case |
| `CallTrend.Kept` | CRMTransactions/Controllers/CallsIntelligenceController.cs:262-270 | the query keeps a call exactly when it is in range and its lab name differs from the one asked for at most in letter case |
| `CallTrend.KeptIgnoresCase` | CRMTransactions/Controllers/CallsIntelligenceController.cs:262-270 | a call of "Lab A" is kept when "LAB A" is asked for, and a call of "Lab B" is not |
| `CallTrend.TrendMissedKeys` | CRMTransactions/Controllers/CallsIntelligenceController.cs:267-279 | the missed keys are exactly the (month, year, "Missed") of missed calls in range of the lab, ignoring case |
| `CallTrend.ValidMonthCount` | CRMTransactions/Controllers/CallsIntelligenceController.cs:262-277 | the count of a (month, year, type) is at most the table size, and positive iff such a kept valid call exists |
| `CallTrend.MissedMonthCount` | CRMTransactions/Controllers/CallsIntelligenceController.cs:267-284 | the count of a (month, year) is at most the table size, and positive iff such a kept missed call exists |
| `CallTrend.TrendValidKeysCount` | CRMTransactions/Controllers/CallsIntelligenceController.cs:262-277 | a key occurs once per kept valid call of that month and type |
| `CallTrend.TrendMissedKeysCount` | CRMTransactions/Controllers/CallsIntelligenceController.cs:267-284 | a key occurs once per kept missed call of that month, under "Missed" only |
| `CallTrend.TrendUpdates` | CRMTransactions/Controllers/CallsIntelligenceController.cs:286-298 | one lookup per group: under its "MonthName year" label, with its count, writing exactly its own call type's cell |
| `CallTrend.TrendChartOf` | CRMTransactions/Controllers/CallsIntelligenceController.cs:228-307 | on success the response carries labs, the axis as period and as rows in order, the lab name, the call types as cells in order, and countData the grid's counts |
| `CallTrend.TrendReport` | CRMTransactions/Controllers/CallsIntelligenceController.cs:228-309 | as written, success carries the GetMonths axis as period, the labs and the lab name; a failure is DateOutOfRange iff GetMonths fails, else KeyNotFound |
| `CallTrend.TrendReportThroughEnd` | CRMTransactions/Controllers/CallsIntelligenceController.cs:228-309 | on the corrected axis, the same: success carries that axis as period; a failure is DateOutOfRange iff the axis fails, else KeyNotFound |
| `CallTrend.CallTrendChartData` | CRMTransactions/Controllers/CallsIntelligenceController.cs:228-309 | the build, group, both fold loops and the countData loop compute the trend report, on the corrected month axis |
| `CallTrend.TrendUpdatesAcceptable` | CRMTransactions/Controllers/CallsIntelligenceController.cs:286-298 | all groups' lookups succeed iff every key's "Month Year" label is on the axis |
| `CallTrend.TrendFold` | CRMTransactions/Controllers/CallsIntelligenceController.cs:286-298 | a fold of the trend groups succeeds iff every key's label is a row, and otherwise throws KeyNotFound |
| `CallTrend.TrendChartSucceeds` | CRMTransactions/Controllers/CallsIntelligenceController.cs:246-298 | the grid part succeeds iff the axis has no repeat and every key's label is on it; failure is DuplicateKey or KeyNotFound accordingly |
| `CallTrend.TrendTargets` | CRMTransactions/Controllers/CallsIntelligenceController.cs:288-297 | a group writes cell `type` of month (m, y)'s row iff its key is (m, y, type) and y is at least 1000 |
| `CallTrend.TrendChartFolds` | CRMTransactions/Controllers/CallsIntelligenceController.cs:286-307 | a cell's count is what the valid groups and then the missed groups last wrote to it |
| `CallTrend.TrendChartCell` | CRMTransactions/Controllers/CallsIntelligenceController.cs:286-307 | in month (m, y)'s row, a cell holds its key's missed count if positive, else its valid count; rows of years below 1000 stay zero |
| `CallTrend.TrendValidKeysOnAxis` | CRMTransactions/Controllers/CallsIntelligenceController.cs:262-291 | every valid key's label is on an axis iff every kept valid call's month label is |
| `CallTrend.TrendMissedKeysOnAxis` | CRMTransactions/Controllers/CallsIntelligenceController.cs:267-298 | every missed key's label is on an axis iff every kept missed call's month label is |
| `CallTrend.TrendReportSucceeds` | CRMTransactions/Controllers/CallsIntelligenceController.cs:232-298 | as written, the report succeeds iff GetMonths does and every kept call's month label is on its axis; otherwise it throws DateOutOfRange (only for `to` in December 9999) or KeyNotFound |
| `CallTrend.TrendReportEarlyYear` | CRMTransactions/Controllers/CallsIntelligenceController.cs:232-298 | as written, a kept call dated before the year 1000 makes the report fail: KeyNotFound, or DateOutOfRange if GetMonths already failed |
| `CallTrend.TrendReportCell` | CRMTransactions/Controllers/CallsIntelligenceController.cs:232-307 | as written, row i is `from` advanced i months, and its cell of a type is the number of kept missed calls of that month (column "Missed"), or where there are none, of kept valid calls of that month and type; zero below the year 1000 |
| `CallTrend.ThroughEndLabel` | CRMTransactions/Controllers/CallsIntelligenceController.cs:288 | on the corrected axis, a date in range has its group label on the axis iff its year is at least 1000 |
| `CallTrend.TrendReportThroughEndSucceeds` | CRMTransactions/Controllers/CallsIntelligenceController.cs:232-298 | on the corrected axis and `to` before December 9999, the report succeeds iff every kept call is dated in the year 1000 or later; otherwise KeyNotFound |
| `CallTrend.TrendReportMissesMarch2024` | CRMTransactions/Controllers/CallsIntelligenceController.cs:232-298 | one call of the lab on 2024-03-10, asked from 2024-01-31 10:00 to 2024-03-15: as written the report throws KeyNotFound |
| `CallTrend.TrendReportThroughEndKeepsMarch2024` | CRMTransactions/Controllers/CallsIntelligenceController.cs:232-298 | on the same input the report on the corrected axis succeeds |
| `CallTrend.TrendReportThroughEndCell` | CRMTransactions/Controllers/CallsIntelligenceController.cs:232-307 | on the corrected axis, row i is `from` advanced i months, with cells counting the kept calls of that month as in TrendReportCell |

## Left out

- Database access is not modelled. The EF Core queries, `ToListAsync`, `async`/`Task` and `GetLabs().Result` become input sequences of rows (the valid and missed tables, the purpose catalog).
- Database-side evaluation of the queries is not modelled. `Distinct()` in `GetLabs` is taken as case-sensitive and the lab filter of the trend queries as in C#, because a database collation is configuration outside the code.
- `ToUpper()` maps only the ASCII letters here, because full Unicode case mapping is culture data; lab names are compared after that mapping.
- The default dates (`DateTime.Now` and the `DefaultReportFromDate` setting, lines 39-47, 137-145, 218-226) are left out. Both dates are inputs, because clock and configuration are outside the engine.
- Culture-dependent formatting is fixed. `OrderBy(x => x)` uses the ordinal order, and `GetMonthName` and "MMMM" use the English month names, because the current culture is an environment input.
- Counts are not converted to strings. `countData` of the volume and trend reports and `sumData` of the purpose report keep them as integers (`ToString()`, lines 127, 208, 306), because formatting adds nothing to the counting logic.
- Null lab names and null catalog purposes are not modelled: lab names and catalog entries are non-null strings. With a null lab name `ToUpper()` throws, and a null catalog purpose makes `Dictionary.Add` throw.
- Dictionary enumeration order is taken to be insertion order. `Keys` and `Values` follow the row keys, which holds for a dictionary that is only added to.
- The `Enumerable.Range(0, Int32.MaxValue)` bound in `GetMonths` is not modelled, because the stepping stops long before it (at most 119988 steps fit in the calendar).
- The `ActionResult` and DTO wrapping, routing, the `[Required]` validation of `labName`, and the injected logger and configuration are left out, because they carry no engine logic.
- `CallVolume.VolumeReportCell`, `CallVolume.VolumeReportCounts`, `CallVolume.VolumeChartCell` and `CallVolume.VolumeTargets` state the cell value only when no two labs differ only in letter case. With such labs every case variant's group writes the cell and the last one wins. `Fold` computes that case, but no lemma states its value.
- `CallTrend.CallTrendChartData` computes the report on the corrected axis (see Findings). `CallTrend.TrendReport`, with `TrendReportSucceeds` and `TrendReportCell`, is the report on the axis as written.

## Findings

| source | as written | input that shows it | evidently intended | confidence | as-written member | corrected member |
|---|---|---|---|---|---|---|
| CRMTransactions/Controllers/CallsIntelligenceController.cs:335-339 | the end of the axis is midnight of the last day of `to`'s month, and the steps keep `from`'s time of day, so a step landing on that last day after midnight fails `e <= end` and `to`'s month is dropped; the trend report then throws KeyNotFound for any call in that month | from = 2024-01-31 10:00, to = 2024-03-15: the axis is January and February 2024 only, and a call of the lab on 2024-03-10 makes the trend report throw | the axis covers every month from `from`'s through `to`'s, so every call in range finds its row | not executed | `MonthAxis.GetMonthsDropsMarch2024` | `MonthAxis.GetMonthsThroughEndCovers` |
