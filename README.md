# BoolCharts data engine — a Dafny model

BoolCharts tracks daily habits. Each habit is a **card** with an id, a name,
one boolean entry per day of the month the card was created in, and its
creation date. The chart cuts the entries into weeks of seven cells. A cell
(week `i`, offset `j`) stands for day `i * 7 + j + 1` of the month. A day
before the card's start day shows as "skip". A card from another month is
**archived**, and its chart ignores clicks. The share link carries one line
of emojis per week.

The model covers the whole engine in `src/App.tsx`:

- `calendar.dfy` (module `Calendar`): `monthToStr` and `getDaysInMonth`.
  The Date constructor's calendar arithmetic is written out. A year 0..99
  is read as 1900..1999. A month outside 0..11 is carried into the year.
  Day 0 of the following month is the last day of the month asked for.
- `grid.dfy` (module `Grid`): `chunk`, `getEntryIndex` and `isCurrDay`.
  `chunk` is a method with a loop, proved equal to the functional `Chunks`.
  The lemmas about `Chunks` state what the grid relies on.
- `cards.dfy` (module `Cards`): the `Card` record and the four collection
  updates passed to `setCards`: add, remove, toggle and rename. They are
  functions from the old collection to the new one. Their contracts say
  exactly what changes and what stays. The lemmas give each update its
  partner: an inverse, an involution, or the invariant `Valid` it keeps.
- `display.dfy` (module `Display`): the archived test, the three cell
  states, the share text's emoji rows and header, and the effect of a click
  on a chart cell.

"Now" is an explicit `Date(year, month, day)` parameter wherever the app
reads the clock. The month is 0-based, as `getMonth` returns it. The day is
`getDate`. Card ids are given, not generated.

Two behaviours of the code shape the model:

- The prompt loops reject only the empty string. A name of blanks is
  accepted, so the only precondition on names is `name != ""`.
- The data model does not refuse toggles on archived cards. Only the chart
  disables clicks on them (`ClickCell`, with the month-only test the code
  uses; `ClickCellIntended` with the corrected test).

## Model

| member | source | states |
|---|---|---|
| `Calendar.MonthToStr` | src/App.tsx:13-16 | a month name exists exactly for months 0..11; outside that range the lookup yields `undefined` (None) |
| `Calendar.MonthToStrInjective` | src/App.tsx:13-16 | two months with the same name are the same month |
| `Calendar.DaysInMonth` | src/App.tsx:31-33 | every month has between 28 and 31 days |
| `Calendar.DaysInMonthNormalised` | src/App.tsx:31-33 | for any month number, the result is the Gregorian length of that month after carrying the month into the year |
| `Calendar.DaysInMonthGregorian` | src/App.tsx:31-33 | for months 0..11 of a four-digit year: the Gregorian month length; February has 29 days exactly in leap years; every other month has at least 30 |
| `Calendar.YearLength` | src/App.tsx:31-33 | the twelve months of a year add up to 366 days in a leap year and 365 otherwise |
| `Grid.Chunks` | src/App.tsx:135-142 | the rows `chunk` produces: there are none exactly when the input is empty (shape, order and contents in the lemmas below) |
| `Grid.Chunk` | src/App.tsx:135-142 | the loop returns exactly the rows `Chunks(arr, chunkSize)` |
| `Grid.FlattenChunks` | src/App.tsx:135-142 | concatenating the rows gives back the input exactly, in order |
| `Grid.ChunkShape` | src/App.tsx:137-138 | there are ceil(length / size) rows; each row is non-empty and at most `size` long; every row but the last is exactly `size` long |
| `Grid.ChunkCell` | src/App.tsx:135-142 | cell (i, j) of the rows is element i * size + j of the input |
| `Grid.ChunkCover` | src/App.tsx:135-142 | element q * size + r (r < size) of the input is cell (q, r) of the rows |
| `Grid.ChunksSameShape` | src/App.tsx:135-142 | the row shape depends only on the input length |
| `Grid.ChunksAfterUpdate` | src/App.tsx:135-142 | writing one entry changes exactly the grid cell whose day index points at it |
| `Grid.EntryIndex` | src/App.tsx:171 | for an offset 0..6, the day lies in week i: after the i * 7 days of the earlier weeks and no later than the week's last day |
| `Grid.EntryIndexInverse` | src/App.tsx:171 | within a week, day d is the cell (week (d - 1) / 7, offset (d - 1) % 7) and no other |
| `Grid.GridCellEntry` | src/App.tsx:189-190 | the click target `getEntryIndex(i, j) - 1` of a cell is in range and is the entry that cell displays |
| `Grid.IsCurrDay` | src/App.tsx:172-175 | for an offset 0..6, a cell is today's exactly when it is cell ((today - 1) / 7, (today - 1) % 7) |
| `Grid.CurrDayUnique` | src/App.tsx:172-175 | for a day within the entries, exactly one cell of the grid is highlighted as today, and it shows that day's entry |
| `Cards.GenerateMonth` | src/App.tsx:26-28 | one entry per day of the current month, none of them true |
| `Cards.AddCard` | src/App.tsx:94-100 | exactly one card is appended after the unchanged old cards; it has the given id, name and date, and one false entry per day of the current month |
| `Cards.RemoveCard` | src/App.tsx:102-104 | the result holds exactly the cards whose id differs from `id`, and is no longer than the input |
| `Cards.RemoveCardConcat` | src/App.tsx:103 | removal distributes over concatenation, so the surviving cards keep their order |
| `Cards.RemoveCardAbsent` | src/App.tsx:103 | removing an id no card has returns the input unchanged |
| `Cards.AddThenRemove` | src/App.tsx:99-103 | removing the fresh id of a card just added restores the collection |
| `Cards.ToggleData` | src/App.tsx:109 | an index within the entries negates that entry and nothing else; any other index leaves the entries unchanged |
| `Cards.ToggleEntry` | src/App.tsx:106-111 | same length; ids, names, dates and entry lengths unchanged; cards with another id unchanged; on a matching card only entry `index` is negated, and only if it is in range |
| `Cards.ToggleEntryTwice` | src/App.tsx:106-111 | toggling the same entry twice restores the collection |
| `Cards.ToggleEntryOutOfRange` | src/App.tsx:106-111 | an index outside every card's entries changes nothing |
| `Cards.ToggleEntryOneCard` | src/App.tsx:106-111 | with unique ids, toggling changes only the card at the id's position |
| `Cards.ChangeText` | src/App.tsx:113-119 | same length; ids, entries and dates unchanged; the name is replaced exactly on the cards with the given id |
| `Cards.ChangeTextIdempotent` | src/App.tsx:118 | renaming twice to the same name equals renaming once |
| `Cards.ChangeTextToggleCommute` | src/App.tsx:107-118 | renaming and toggling commute |
| `Cards.AddCardValid` | src/App.tsx:99 | adding under a fresh id keeps ids unique, names non-empty and each entry count equal to the days of the card's creation month |
| `Cards.RemoveCardValid` | src/App.tsx:103 | removal keeps `Valid`: unique ids and well-formed cards |
| `Cards.ToggleEntryValid` | src/App.tsx:106-111 | toggling keeps `Valid` |
| `Cards.ChangeTextValid` | src/App.tsx:118 | renaming to a non-empty name keeps `Valid` |
| `Display.IsArchivedAsWritten` | src/App.tsx:183-184 | the month-only test archives no card that the year-and-month test keeps live |
| `Display.IsArchived` | src/App.tsx:183-184 | for months 0..11, archived exactly when the card's calendar month (year and month) is not the current one |
| `Display.ArchivedAsWrittenIgnoresYear` | src/App.tsx:183-184 | the month-only test does not archive a card from September 2024 in September 2025 |
| `Display.ArchivedByMonth` | src/App.tsx:183-184 | with the year included in the test, a card from an earlier month is archived and a card from the current month is not; when the years are equal, the test agrees with the month-only one |
| `Display.Classify` | src/App.tsx:148 | "skip" exactly for a day before the start day; "done" exactly for a later day whose entry is true |
| `Display.GridCellState` | src/App.tsx:190 | a cell is "skip" iff its day index is before the start day; otherwise it is done iff its entry is true |
| `Display.GridStatesChunked` | src/App.tsx:179-190 | classifying the grid cell by cell equals classifying the days in order and cutting them into weeks |
| `Display.RowText` | src/App.tsx:148 | a row of emojis holds no line break |
| `Display.SplitJoin` | src/App.tsx:148 | joining line-break-free lines with "\n" and splitting again gives the lines back |
| `Display.ShareBodyLines` | src/App.tsx:147-148 | the emoji block has one line per row of `chunk(data, 7)`, that is ceil(days / 7) lines, each the emojis of one week |
| `Display.ShareHeader` | src/App.tsx:146 | the header starts with "My " and ends with `":`; it holds no line break when the name holds none |
| `Display.ShareText` | src/App.tsx:144-150 | the text starts with the header and ends with the emoji block |
| `Display.ShareTextLines` | src/App.tsx:146-149 | for a one-line name, the share text is the header line, a line holding one space, then the week rows |
| `Display.ClickCell` | src/App.tsx:183-190 | a click keeps the number of cards; on a card the month-only test archives it changes nothing |
| `Display.ClickCellIntended` | src/App.tsx:183-190 | the same click under the year-and-month test: it changes nothing on a card of another calendar month |
| `Display.ToggleFlipsDisplayedCell` | src/App.tsx:189-190 | with unique ids, the handler `toggleEntry(card.id, getEntryIndex(i, j) - 1)` flips exactly cell (i, j) of that card's chart; every other cell and card stays |
| `Display.ClickTogglesDisplayedCell` | src/App.tsx:183-190 | as written: a click on a card of another month (month-only test) changes nothing; on any other card it flips exactly the cell clicked |
| `Display.ClickTogglesDisplayedCellIntended` | src/App.tsx:183-190 | with the year-and-month test: a click on a card of another calendar month changes nothing; on a card of the current month it flips exactly the cell clicked |
| `Display.ClickCellIgnoresYear` | src/App.tsx:183-190 | a card created 2024-09-20 and clicked on 2025-09-01 has its day-1 entry flipped as written and left alone as intended |

## Findings

| source | as written | input that shows it | evidently intended | confidence | as-written member | corrected member |
|---|---|---|---|---|---|---|
| src/App.tsx:183-184 | a chart is archived when `startDate.getMonth() !== new Date().getMonth()`, so only the months are compared | a card created on 2024-09-20 (month 8), viewed on 2025-09-01: the months are equal, so the card is not archived | a card is archived unless it was created in the current month of the current year | medium, not executed | `Display.IsArchivedAsWritten`, `Display.ArchivedAsWrittenIgnoresYear` | `Display.IsArchived`, `Display.ArchivedByMonth` |
| src/App.tsx:183-190 | the cell handler is disabled only when the month-only test archives the card | the same card and date, as `Display.ClickCellIgnoresYear` exhibits: a click on the day-1 cell flips the 2024 entry | a click on a card of another calendar month changes nothing | medium, not executed | `Display.ClickCell`, `Display.ClickTogglesDisplayedCell` | `Display.ClickCellIntended`, `Display.ClickTogglesDisplayedCellIntended` |

`Display.ClickCell` uses the month-only test the code uses; `Display.ClickCellIntended` uses the corrected one.

## Left out

- Persistence: `saveToLocalStorage` and `getFromLocalStorage` (src/App.tsx:68-81) are browser storage I/O. The `superjson` `stringify`/`parse` round trip that keeps dates intact is a library's promise, and its code is not part of this model.
- The seed collection `initialCards` (src/App.tsx:35-66) and `generateFakeMonth` use `Math.random`. `generateRandomId` does too. Ids are parameters, and fresh ids are a precondition where the proof needs them.
- The `prompt` loops in `addCard` and `changeText` (src/App.tsx:96-98, 114-117) are blocking UI input. Only the update that follows is modelled, with a non-empty name as its precondition.
- The clock: every `new Date()` becomes a `Date(year, month, day)` parameter. Time of day is not modelled. `addCard` reads the clock three times: twice inside `generateMonth` (for `getMonth` and `getFullYear`, src/App.tsx:27) and once for `createdAt` (src/App.tsx:99). The model uses one `now` for all three, so a month or year that changes between the reads is not covered.
- `Calendar.DaysInMonth`: the limit of the Date time value (years outside -271,821 .. 275,760) is not modelled. Outside it `getDaysInMonth` returns NaN, while the model gives 28..31 for every integer year. The clock never yields such a year.
- `Cards.Valid`: it holds only for collections built by the modelled updates from a valid start. The app's seed collection need not satisfy it: the card created on 2024-09-20 (src/App.tsx:48-53) gets its entries from `generateFakeMonth`, sized by the current month, so it has 31 entries for a 30-day month whenever the current month has 31 days.
- React state and effects, JSX, CSS class strings and the `XLogo` SVG are presentation. The three cell colours appear only as the three `CellState` values.
- `encodeURIComponent` and the tweet URL prefix in `createXIntent` (src/App.tsx:145, 149) are a library call and a constant. The model stops at the unencoded text.
- `Grid.Chunk`: a non-positive chunk size is excluded by a precondition, because the source loop would never end on a non-empty array. The app always passes 7.
- `Cards.ToggleData`: the index is an integer. A fractional JavaScript number matches no position and changes nothing; the model does not represent one.
