# Calendar widget: a verified model

A model of the logic inside the React month-calendar component
`src/components/Calendar.tsx`. It covers:

- the calendar arithmetic behind the grid: first day, last day and length of
  the displayed month, and the Monday-first offset of the 1st;
- the layout of the grid: leading blanks, day cells, and the rows they are
  cut into;
- the `YYYY-MM-DD` date key that links cells, the selection highlight and
  the note store;
- the note store updated by `saveNote`;
- the dialog's state machine: `openModal`, `closeModal`, `saveNote` and
  `handleMonthChange`.

Markup, styling and React's hook machinery are not modelled.

The modules:

- `Gregorian` (gregorian.dfy): proleptic Gregorian dates as
  `Ymd(year, month0, day)`, with a 0-based month as in JavaScript. `Date` is
  the subset of valid triples, which is what a JavaScript `Date` always holds.
  - Day numbers count from 1970-01-01, as in ECMA-262's MakeDay and
    DayFromYear.
  - Normalisation (`new Date(y, m, d)`, `setMonth`) is characterised by
    keeping the day number.
  - `getDay()` is ECMA-262's WeekDay.
- `DateKey` (datekey.dfy): `getFormattedDate`, a parser for keys, the round
  trip between them, and the link to RFC 3339 section 5.6 `full-date`.
- `Grid` (grid.dfy): `getFirstDayOfMonth`, `getLastDayOfMonth`,
  `getDaysInMonth`, and the arithmetic of `renderCells`: the start offset,
  the cell sequence, the highlight test and the row-break rule. `CutRows` is
  the source's two loops, proved equal to a functional definition.
- `Notes` (notes.dfy): the store `map<string, seq<Note>>` and `saveNote`'s
  effect on it. The source tells notes apart by object identity
  (`note !== editingNote`). Here every note carries an explicit `id`, and the
  session hands out a fresh one for each note it creates.
- `Navigation` (navigation.dfy): `handleMonthChange`'s month arithmetic, both
  as written and corrected.
- `Session` (session.dfy): the component state as one record, each handler
  as a function from state to state, events, runs of events, an invariant
  of every reachable state, and the link between a saved note and the grid
  cell that lists it.
- `Wrappers` (wrappers.dfy): `Option`.

Two behaviours of the code differ from what its authors evidently intended.
Both are listed under "Findings". Each is modelled as written, with a
witness, and also corrected. The rest of the model uses the corrected
versions.

A `+1` then `-1` press of the month buttons is sometimes described as
returning to the month one started from. In the code, `setMonth` keeps the
day of month and lets it overflow. So the round trip returns to the
starting date exactly when that day exists in the intermediate month, and
always when the day is at most 28. The model follows the code
(`Navigation.ShiftMonthAsWrittenRoundTrip`).

## Model

| member | source | states |
|---|---|---|
| Gregorian.CumulativeTable | src/components/Calendar.tsx:24-25 | the days before month `m0` are ECMA-262's cumulative month table (0, 31, 59, ... 334, 365), plus one from March on in a leap year |
| Gregorian.WholeYear | src/components/Calendar.tsx:24-25 | the twelve month lengths add up to the year's length, 365 or 366 |
| Gregorian.DayFromYearMatchesFormula | src/components/Calendar.tsx:16-17 | counting whole years from 1970 gives ECMA-262's closed form `365(y-1970) + floor((y-1969)/4) - floor((y-1901)/100) + floor((y-1601)/400)` for every year, including years before 1970 |
| Gregorian.NormalizeDayNumber | src/components/Calendar.tsx:16-17 | normalising an out-of-range `(y, m0, d)` keeps its day number, as MakeDay does: borrowing from earlier months for `d < 1` and carrying into later ones past the month's end |
| Gregorian.NormalizeDateNumber | src/components/Calendar.tsx:19-20 | a month index outside 0..11 is first folded into the year by floor division; the normalised date keeps the day number of the folded triple |
| Gregorian.DaysFromEpochInjective | src/components/Calendar.tsx:16-17 | two valid dates with the same day number are the same date, so the normalised date is the only valid date with that day number |
| Gregorian.NormalizeValid | src/components/Calendar.tsx:108 | a triple that is already a valid date normalises to itself |
| Gregorian.NormalizeOverflow | src/components/Calendar.tsx:64 | a day up to 28 past the end of a month lands in the next month (December rolls into January of the next year), on day `d - length` |
| Gregorian.DayZeroIsLastDay | src/components/Calendar.tsx:19-20 | day 0 of the month after `m0` is the last day of `m0`, for every month including December |
| Gregorian.DateFromDaysRoundTrip | src/components/Calendar.tsx:16-17 | day numbers and valid dates are in bijection: each direction inverts the other |
| Gregorian.MondayFirstFromSundayFirst | src/components/Calendar.tsx:100 | the Monday-first weekday is `getDay()` remapped, Sunday to 6 and every other day to `getDay() - 1` |
| Gregorian.WeekdayOfDay | src/components/Calendar.tsx:100 | day `d` of a month falls `d - 1` weekdays after the 1st, modulo 7 |
| Gregorian.KnownWeekdays | src/components/Calendar.tsx:100 | 1970-01-01 has `getDay()` 4 (Thursday) and 2024-01-01 is a Monday |
| DateKey.PadStart | src/components/Calendar.tsx:28-31 | `padStart` gives length `max(\|s\|, width)`, ends with `s`, and is filled before it |
| DateKey.NatRoundTrip | src/components/Calendar.tsx:28-31 | reading back the decimal digits of `n` gives `n` |
| DateKey.IntRoundTrip | src/components/Calendar.tsx:27-28 | `Number.toString` of any integer year, negative ones with their `-`, reads back as that year |
| DateKey.TwoDigitRoundTrip | src/components/Calendar.tsx:28-31 | a month or day number in 1..99, padded to two digits, is two digits that read back as the number |
| DateKey.KeyLayout | src/components/Calendar.tsx:27-31 | the key is the year's digits, `-`, two month digits, `-`, two day digits, in that order |
| DateKey.ParseKeyRoundTrip | src/components/Calendar.tsx:27-31 | parsing the key of any valid date, whatever its year, gives that date back |
| DateKey.FormattedDateInjective | src/components/Calendar.tsx:27-31 | two dates have the same key exactly when they are the same date |
| DateKey.FourDigitYearKey | src/components/Calendar.tsx:27-31 | for years 1000..9999 the key has length 10, `-` at indices 4 and 7, and is an RFC 3339 `full-date` (month 01..12, day within the month) |
| DateKey.FullDateIsKey | src/components/Calendar.tsx:27-31 | conversely, every RFC 3339 `full-date` whose year does not start with 0 is the key of exactly the date it reads as |
| Grid.FirstDayOfMonth | src/components/Calendar.tsx:16-17 | `new Date(year, month, 1)` is the 1st of the anchor's month |
| Grid.LastDayOfMonth | src/components/Calendar.tsx:19-20 | day 0 of the next month is in the anchor's own year and month, on the day equal to the month's length |
| Grid.DaysInMonthOf | src/components/Calendar.tsx:24-25 | the month length is in 28..31, is 29 for February exactly in a leap year, equals the Gregorian month length, and equals the last day's day number |
| Grid.DaysInMonthOfAsWritten | src/components/Calendar.tsx:24-25 | for years 0..99 the source's month length is that of the same month of year 1900 + y; for all other years it is the correct length |
| Grid.YearZeroFebruary | src/components/Calendar.tsx:24-25 | year 0 is a leap year and 1900 is not, so February of year 0 has 29 days but the source's grid shows 28 |
| Grid.StartDay | src/components/Calendar.tsx:100 | the number of leading blanks is in 0..6 |
| Grid.StartDayIsWeekday | src/components/Calendar.tsx:100 | the offset is the Monday-first weekday of the 1st: 0 exactly when the 1st is a Monday, 6 exactly when it is a Sunday |
| Grid.StartDayOfFirstDay | src/components/Calendar.tsx:96-100 | the offset is the source's expression applied to `getFirstDayOfMonth(currentMonth)` |
| Grid.StartDayAligns | src/components/Calendar.tsx:100-108 | every day `d` of the month sits in column `(startDay + d - 1) % 7`, which is its own Monday-first weekday |
| Grid.DayCellDateIsConstructed | src/components/Calendar.tsx:108 | a cell's date is the normalised `new Date(year, month, day)` |
| Grid.MonthCells | src/components/Calendar.tsx:101-111 | the flat grid has `startDay + daysInMonth` cells |
| Grid.MonthDaysLayout | src/components/Calendar.tsx:107-109 | the day cells are numbered 1, 2, ... in order, each with its own date |
| Grid.MonthCellsLayout | src/components/Calendar.tsx:103-111 | the grid is exactly `startDay` blanks followed by days 1..n in increasing order, each with its own date |
| Grid.HighlightIsSelection | src/components/Calendar.tsx:114 | a day cell is highlighted exactly when its date is the selected date |
| Grid.AtMostOneHighlight | src/components/Calendar.tsx:114 | at most one cell of a month is highlighted |
| Grid.HighlightShownIffSameMonth | src/components/Calendar.tsx:114 | some cell is highlighted exactly when the selected date lies in the displayed month |
| Grid.WeeksShape | src/components/Calendar.tsx:127-134 | cutting into sevens gives `ceil(n / 7)` rows, all of 7 cells but the last, which has 1..7 and no padding; joining the rows gives the cells back |
| Grid.WeeksIndex | src/components/Calendar.tsx:127-134 | cell `j` of row `i` is cell `7i + j` of the flat sequence |
| Grid.LayoutBreaks | src/components/Calendar.tsx:127 | for any layout of blanks then days, each row ends on a day that passes the break test, and no other day in a row passes it |
| Grid.RowsBreakExactly | src/components/Calendar.tsx:127-134 | the month's rows close after exactly the days with `(day + startDay) % 7 == 0` or `day == daysInMonth` |
| Grid.RowCount | src/components/Calendar.tsx:101-135 | a month has `ceil((startDay + daysInMonth) / 7)` rows, between 4 and 6; four exactly for a 28-day February starting on a Monday |
| Grid.CutRows | src/components/Calendar.tsx:101-135 | the source's loops (blanks pushed first, then each day, closing a row on the break test) build the rows of seven of the flat sequence |
| Grid.MonthRowsShape | src/components/Calendar.tsx:127-134 | the month's rows put back together are its cells; all rows but the last have 7 cells, the last has 1..7 |
| Grid.RenderRows | src/components/Calendar.tsx:95-137 | `renderCells` gives the month's rows of seven: they join to the cell sequence, number `ceil((startDay + daysInMonth) / 7)`, and only the last is short |
| Notes.Without | src/components/Calendar.tsx:52 | filtering by identity keeps exactly the notes of other identities and adds nothing |
| Notes.WithoutCutsOne | src/components/Calendar.tsx:52 | when identities in a bucket are distinct, filtering cuts out exactly the target's position and keeps the rest in order |
| Notes.WithoutAbsent | src/components/Calendar.tsx:52 | filtering an identity the bucket does not hold leaves the bucket unchanged |
| Notes.WithoutKeepsDistinct | src/components/Calendar.tsx:52 | filtering keeps the identities of a bucket distinct |
| Notes.SaveNote | src/components/Calendar.tsx:48-59 | a new note is appended to the `noteDate` bucket. An edit filters the edited note out of its old bucket, then appends the new note to the `noteDate` bucket, at the end even when that is the same bucket. No other key changes, and the keys gain only those two |
| Notes.RemoveKeepsWellFormed | src/components/Calendar.tsx:51-52 | removing keeps every note filed under its own date, identities unique, and the next identity fresh |
| Notes.AppendKeepsWellFormed | src/components/Calendar.tsx:53-57 | appending a note with the fresh identity under its own date keeps the store well formed, and the following identity is fresh |
| Notes.SaveNoteKeepsWellFormed | src/components/Calendar.tsx:48-59 | saving keeps every note filed under the key equal to its date, and identities unique and fresh |
| Notes.AppendContents | src/components/Calendar.tsx:56-57 | appending adds exactly the pushed note to the set of stored notes |
| Notes.RemoveContents | src/components/Calendar.tsx:50-52 | in a well-formed store, filtering a stored note's bucket removes that note and no other |
| Notes.SaveNoteContents | src/components/Calendar.tsx:48-59 | saving adds exactly the new note and, when editing, removes exactly the edited note; no other note appears or disappears |
| Notes.SaveNoteExamples | src/components/Calendar.tsx:48-59 | a first note on 2024-03-05 gives that day the one note; editing it to 2024-03-06 empties the old day and files the note under the new one |
| Session.OpenModal | src/components/Calendar.tsx:33-38 | the dialog shows, the edited note is the argument, the title draft is its title or `""`, and the date draft is its date, or the selected date's key when that date is missing or empty. Nothing else changes |
| Session.CloseModal | src/components/Calendar.tsx:40-45 | the dialog closes, no note is being edited, the title draft is `""` and the date draft is the selected date's key; the store is untouched |
| Session.SaveNote | src/components/Calendar.tsx:48-61 | the store becomes `Notes.SaveNote` of the drafts under the next fresh identity; then the dialog closes and the drafts reset |
| Session.HandleMonthChange | src/components/Calendar.tsx:63-66 | the displayed month moves by exactly `k`, with year rollover; the selection, the store and the dialog are untouched |
| Session.HandleMonthChangeAsWritten | src/components/Calendar.tsx:63-66 | the source's month change moves by `k`, or by `k + 1` when the anchor's day does not exist in the target month; nothing else changes |
| Session.InitialIsClosed | src/components/Calendar.tsx:9-46 | the state at mount satisfies the invariant and is exactly what `closeModal` resets to |
| Session.StepKeepsInvariant | src/components/Calendar.tsx:33-66 | every enabled event keeps the invariant (a well-formed store, an edited note that is stored, and no draft while the dialog is closed), including a month change or `openModal()` from the keyboard while the dialog shows |
| Session.RunKeepsInvariant | src/components/Calendar.tsx:33-66 | a run of enabled events keeps the invariant |
| Session.ReachableInvariant | src/components/Calendar.tsx:9-66 | every state reachable from mount satisfies the invariant |
| Session.SaveReplacesEditedNote | src/components/Calendar.tsx:48-61 | in a reachable state, saving replaces the edited note, if any, by the drafted note, and changes no other note |
| Session.OnlySaveChangesNotes | src/components/Calendar.tsx:33-66 | any run without a save leaves the store and the identity supply as they were |
| Session.CancelDiscardsDraft | src/components/Calendar.tsx:40-45 | opening a note, retyping its title and cancelling leaves the store unchanged, closes the dialog and clears the draft |
| Session.NavigationKeepsSelection | src/components/Calendar.tsx:63-66 | selecting a date and then changing month keeps the selection |
| Session.SavedTitleShown | src/components/Calendar.tsx:119-121 | after a save, the cell keyed by the drafted date lists the drafted title last; cells of other keys, other than the edited note's, list what they did before |
| Session.CellAt | src/components/Calendar.tsx:107-111 | the grid position `startDay + day - 1` holds the cell of day `day` |
| Session.SavedNoteInGrid | src/components/Calendar.tsx:107-123 | a note drafted for a day of the displayed month shows, after saving, as the last title in that day's cell |
| Session.CreateThroughDialog | src/components/Calendar.tsx:144-162 | "Add Event", typing a title and "Save Event" stores a new note on the selected date's key |
| Session.MoveThroughDialog | src/components/Calendar.tsx:154-162 | opening a note, changing its date and saving is `saveNote`'s edit to the new date |
| Session.DialogExamples | src/components/Calendar.tsx:144-162 | the two store examples replayed through the dialog from the mount state |
| Navigation.TargetIndex | src/components/Calendar.tsx:64 | the year and month reached by `month + k`, with year rollover, are `k` months after the anchor's |
| Navigation.ShiftMonthAsWritten | src/components/Calendar.tsx:63-66 | `setMonth(getMonth() + k)` keeps the day when the target month has it; otherwise it lands `k + 1` months on, on day `day - length` |
| Navigation.ShiftMonth | src/components/Calendar.tsx:63-66 | corrected navigation moves exactly `k` months and keeps the day, clamped to the target month's last day |
| Navigation.ShiftMonthAgrees | src/components/Calendar.tsx:64 | wherever the source does not overflow, the corrected navigation is the source's |
| Navigation.ShiftMonthRoundTrip | src/components/Calendar.tsx:63-66 | corrected: `k` forward then `k` back returns to the anchor's month, and to the anchor itself when its day is at most 28 |
| Navigation.ShiftMonthCompose | src/components/Calendar.tsx:63-66 | corrected: moving by `j` then by `k` shows the month of moving by `j + k` |
| Navigation.ShiftMonthAsWrittenRoundTrip | src/components/Calendar.tsx:63-66 | as written: `k` forward then `k` back returns to the anchor exactly when the anchor's day exists in the target month |
| Navigation.JanuaryThirtyFirstSkipsFebruary | src/components/Calendar.tsx:64 | ">" on 2023-01-31 shows March 3rd (2024: March 2nd); "<" from there gives February 3rd; the corrected navigation gives February 28th |

## Left out

- JSX markup, class strings, `getDayNames` and React's `useState` and
  re-rendering: presentation only. The rows are modelled as sequences of
  cells, not as elements.
- The `toLocaleString` header label (src/components/Calendar.tsx:71): it
  depends on host locale data.
- `console.log` (src/components/Calendar.tsx:99): output only.
- Time of day, time zones and daylight saving inside JavaScript `Date`.
  Dates are local calendar dates, and `new Date()` at mount is a parameter
  (`Session.Initial`'s `today`).
- The finite range of a JavaScript `Date` (plus or minus 10^8 days around
  1970) and `Invalid Date`. Years are unbounded integers, so no date is ever
  invalid.
- Aliasing is replaced by pure functions returning new values:
  - the in-place `setMonth` on the `currentMonth` object
    (src/components/Calendar.tsx:64);
  - the `push` onto a bucket array that the new map shares with the old
    state (src/components/Calendar.tsx:54, 57).
  A render of the previous state that observed the shared array is not
  modelled.
- Object identity of notes is modelled by explicit ids, and `Session.State`
  carries the supply of fresh ids.
- Keys that collide with `Object.prototype` members (`"constructor"`,
  `"__proto__"`) are read as absent. The date input only yields `""` or a
  `YYYY-MM-DD` string.
- The drafts are not validated: any text is accepted as a key, as in the
  source, and never parsed.
- The dialog's overlay is modelled by `Session.Enabled`. While the dialog
  shows, the overlay takes the pointer, so the day cells cannot be clicked.
  The page's "<", ">" and "Add Event" buttons stay reachable from the
  keyboard, so month changes and `openModal()` are enabled beside the
  dialog's own inputs and buttons.
- Opening an existing note is enabled only for a stored note. The page has no control that opens one (its only call passes no
  argument), so this stands for a caller of `openModal(note)`.
- The grid's cell date `new Date(year, month, day)` is used as the triple
  itself, which it is for every day of the month outside years 0..99
  (`Grid.DayCellDateIsConstructed`). Month lengths in the grid use the
  Gregorian length, equal to `getDaysInMonth` by `Grid.DaysInMonthOf`
  outside years 0..99 (see Findings).
- Grid.FirstDayOfMonth: modelled with the corrected constructor. For years
  0..99 the source's `new Date(y, m, 1)` gives the 1st of year 1900 + y, so
  its offset is that year's, as in the first Finding. The same holds for
  Grid.LastDayOfMonth and for the cell dates.
- Grid.StartDay: its own contract states only the range 0..6; the weekday
  facts are in `Grid.StartDayIsWeekday`.

## Findings

| source | as written | input that shows it | evidently intended | confidence | as-written member | corrected member |
|---|---|---|---|---|---|---|
| src/components/Calendar.tsx:24-25 | `new Date(y, m + 1, 0)` reads a year in 0..99 as 1900 + y, so months of years 0..99 get the lengths of 1900..1999 | February of year 0, reached by pressing "<" about 24,000 times: year 0 is a leap year, yet the grid shows 28 days | the length of the anchor's own month (29 for February of year 0) | not executed | Grid.DaysInMonthOfAsWritten (witness Grid.YearZeroFebruary) | Grid.DaysInMonthOf |
| src/components/Calendar.tsx:64 | `setMonth(getMonth() + k)` keeps the day of month, and a day the target month lacks overflows into the month after | anchor 2023-01-31, ">" once: the header shows March 2023 and February is skipped; "<" then gives 2023-02-03, not January | move exactly one month per press | not executed | Navigation.ShiftMonthAsWritten (witness Navigation.JanuaryThirtyFirstSkipsFebruary, Navigation.ShiftMonthAsWrittenRoundTrip) | Navigation.ShiftMonth |
