/** What the chart and the share text show for a card: whether the card is
    archived, the state of each cell, and the emoji text of the share link.
    The current date is a parameter wherever the app reads the clock. */
module Display {
  import Calendar
  import Grid
  import Cards

  /** The archived test as written: only the months are compared. */
  predicate IsArchivedAsWritten(startDate: Cards.Date, now: Cards.Date)
    ensures IsArchivedAsWritten(startDate, now) ==> IsArchived(startDate, now)
  {
    startDate.month != now.month
  }

  /** The as-written test misses a card created in the same month of an
      earlier year: one created on 20 September 2024 is not archived in
      September 2025, although that month is long over. */
  lemma ArchivedAsWrittenIgnoresYear()
    ensures !IsArchivedAsWritten(Cards.Date(2024, 8, 20), Cards.Date(2025, 8, 1))
    ensures MonthOrdinal(Cards.Date(2024, 8, 20)) < MonthOrdinal(Cards.Date(2025, 8, 1))
  {
  }

  /** Months counted from year 0, so that calendar months can be ordered. */
  function MonthOrdinal(d: Cards.Date): int
  {
    d.year * 12 + d.month
  }

  /** The archived test as intended: the card's month (with its year) is not
      the current month. */
  predicate IsArchived(startDate: Cards.Date, now: Cards.Date)
    ensures 0 <= startDate.month < 12 && 0 <= now.month < 12 ==>
              (IsArchived(startDate, now) <==> MonthOrdinal(startDate) != MonthOrdinal(now))
  {
    startDate.year != now.year || startDate.month != now.month
  }

  /** A card from an earlier month is archived, one from the current month is
      not; the as-written test agrees whenever the years are equal. */
  lemma ArchivedByMonth(startDate: Cards.Date, now: Cards.Date)
    requires 0 <= startDate.month < 12 && 0 <= now.month < 12
    ensures MonthOrdinal(startDate) < MonthOrdinal(now) ==> IsArchived(startDate, now)
    ensures MonthOrdinal(startDate) == MonthOrdinal(now) <==> !IsArchived(startDate, now)
    ensures startDate.year == now.year ==> (IsArchived(startDate, now) <==> IsArchivedAsWritten(startDate, now))
  {
  }

  /** The three states a cell can show. */
  datatype CellState = Skip | Done | NotDone

  /** A day before the card's start day is skipped (bg-gray-800, "⏭️");
      otherwise the entry decides between done (bg-green-500, "✅") and not
      done (bg-gray-200, "❌"). */
  function Classify(dayIndex: int, startDay: int, entry: bool): (r: CellState)
    ensures r == Skip <==> dayIndex < startDay
    ensures r == Done <==> dayIndex >= startDay && entry
  {
    if dayIndex < startDay then Skip else if entry then Done else NotDone
  }

  /** The state of each day of the month, in order. */
  function DayStates(data: seq<bool>, startDay: int): seq<CellState>
  {
    seq(|data|, k requires 0 <= k < |data| => Classify(k + 1, startDay, data[k]))
  }

  /** The states as the chart and the share text compute them: row i of
      chunk(data, 7), each cell classified by getEntryIndex(i, j). */
  function GridStates(data: seq<bool>, startDay: int): seq<seq<CellState>>
  {
    var rows := Grid.Chunks(data, Grid.WeekLength);
    seq(|rows|, i requires 0 <= i < |rows| =>
      seq(|rows[i]|, j requires 0 <= j < |rows[i]| =>
        Classify(Grid.EntryIndex(i, j), startDay, rows[i][j])))
  }

  /** Cell (i, j) is skipped exactly when its day precedes the start day, and
      otherwise shows entry getEntryIndex(i, j) - 1 of the card. */
  lemma GridCellState(data: seq<bool>, startDay: int, i: nat, j: nat)
    requires i < |Grid.Chunks(data, Grid.WeekLength)| && j < |Grid.Chunks(data, Grid.WeekLength)[i]|
    ensures i < |GridStates(data, startDay)| && j < |GridStates(data, startDay)[i]|
    ensures 0 <= Grid.EntryIndex(i, j) - 1 < |data|
    ensures GridStates(data, startDay)[i][j] == Skip <==> Grid.EntryIndex(i, j) < startDay
    ensures GridStates(data, startDay)[i][j] != Skip ==>
              (GridStates(data, startDay)[i][j] == Done <==> data[Grid.EntryIndex(i, j) - 1])
  {
    Grid.GridCellEntry(data, i, j);
  }

  /** Classifying cell by cell on the grid is the same as classifying day by
      day on the flat entries and then cutting into weeks. */
  lemma GridStatesChunked(data: seq<bool>, startDay: int)
    ensures GridStates(data, startDay) == Grid.Chunks(DayStates(data, startDay), Grid.WeekLength)
  {
    var g, days := GridStates(data, startDay), DayStates(data, startDay);
    var rows, h := Grid.Chunks(data, Grid.WeekLength), Grid.Chunks(days, Grid.WeekLength);
    Grid.ChunksSameShape(data, days, Grid.WeekLength);
    forall i | 0 <= i < |g| ensures g[i] == h[i]
    {
      forall j | 0 <= j < |g[i]| ensures g[i][j] == h[i][j]
      {
        Grid.ChunkCell(data, Grid.WeekLength, i, j);
        Grid.ChunkCell(days, Grid.WeekLength, i, j);
      }
    }
  }

  /** The emoji the share text uses for a state. */
  function Emoji(s: CellState): string
  {
    match s
    case Skip => "\U{23ED}\U{FE0F}"
    case Done => "\U{2705}"
    case NotDone => "\U{274C}"
  }

  /** week.map(...).join(""): the emojis of one row, in order. */
  function RowText(row: seq<CellState>): (t: string)
    ensures '\n' !in t
  {
    if row == [] then "" else Emoji(row[0]) + RowText(row[1..])
  }

  /** lines.join(sep) */
  function Join(lines: seq<string>, sep: string): string
  {
    if |lines| == 0 then ""
    else if |lines| == 1 then lines[0]
    else lines[0] + sep + Join(lines[1..], sep)
  }

  /** Cutting a text at every line break: the partner of Join with "\n". */
  function SplitLines(s: string): (parts: seq<string>)
    ensures |parts| >= 1
    decreases |s|
  {
    if s == [] then [""]
    else
      var rest := SplitLines(s[1..]);
      if s[0] == '\n' then [""] + rest else [[s[0]] + rest[0]] + rest[1..]
  }

  /** The emoji rows of a card's share text, one per week of the chart. */
  function ShareRows(card: Cards.Card): seq<string>
  {
    var g := GridStates(card.data, card.createdAt.day);
    seq(|g|, i requires 0 <= i < |g| => RowText(g[i]))
  }

  /** The emoji block of createXIntent: the rows joined by line breaks. */
  function ShareBody(card: Cards.Card): string
  {
    Join(ShareRows(card), "\n")
  }

  /** The month label of the share text: a template literal prints an
      unknown month as "undefined". */
  function MonthLabel(month: int): string
  {
    match Calendar.MonthToStr(month)
    case Some(name) => name
    case None => "undefined"
  }

  /** The first line of the share text. */
  function ShareHeader(card: Cards.Card): (h: string)
    ensures |h| >= 5 && h[..3] == "My " && h[|h| - 2..] == "\":"
    ensures '\n' !in card.name ==> '\n' !in h
  {
    "My " + MonthLabel(card.createdAt.month) + " BoolChart for \"" + card.name + "\":"
  }

  /** The share text before URL encoding: header, a line holding a single
      space, then the emoji rows. */
  function ShareText(card: Cards.Card): (t: string)
    ensures ShareHeader(card) <= t
    ensures |ShareBody(card)| <= |t| && t[|t| - |ShareBody(card)|..] == ShareBody(card)
  {
    ShareHeader(card) + "\n \n" + ShareBody(card)
  }

  /** Splitting a text with no line break in its first part only extends the
      first line. */
  lemma {:induction false} SplitLinesPrefix(a: string, t: string)
    requires '\n' !in a
    ensures SplitLines(a + t) == [a + SplitLines(t)[0]] + SplitLines(t)[1..]
    decreases |a|
  {
    if a != [] {
      assert (a + t)[0] == a[0] && (a + t)[1..] == a[1..] + t;
      SplitLinesPrefix(a[1..], t);
      assert [a[0]] + (a[1..] + SplitLines(t)[0]) == a + SplitLines(t)[0];
    } else {
      var parts := SplitLines(t);
      assert a + t == t && a + parts[0] == parts[0];
      assert [parts[0]] + parts[1..] == parts;
    }
  }

  /** Joining lines that hold no line break and splitting again gives the
      lines back. */
  lemma {:induction false} SplitJoin(lines: seq<string>)
    requires |lines| >= 1
    requires forall i :: 0 <= i < |lines| ==> '\n' !in lines[i]
    ensures SplitLines(Join(lines, "\n")) == lines
    decreases |lines|
  {
    if |lines| == 1 {
      SplitLinesPrefix(lines[0], "");
      assert lines[0] + "" == lines[0];
    } else {
      var rest := Join(lines[1..], "\n");
      SplitJoin(lines[1..]);
      assert lines[0] + "\n" + rest == lines[0] + ("\n" + rest);
      SplitLinesPrefix(lines[0], "\n" + rest);
      assert ("\n" + rest)[1..] == rest;
      assert SplitLines("\n" + rest) == [""] + lines[1..];
      assert lines[0] + "" == lines[0];
    }
  }

  /** The share text has one line per row of chunk(data, 7), and the line of
      row i holds exactly the emojis of that week's cells. */
  lemma ShareBodyLines(card: Cards.Card)
    requires |card.data| > 0
    ensures SplitLines(ShareBody(card)) == ShareRows(card)
    ensures |ShareRows(card)| == |Grid.Chunks(card.data, Grid.WeekLength)| == (|card.data| + 6) / 7
  {
    var rows := ShareRows(card);
    Grid.ChunkShape(card.data, Grid.WeekLength);
    SplitJoin(rows);
  }

  /** A one-line header, the separator "\n \n" and a body: the header, a
      line with one space, and then the body's own lines. */
  lemma SplitHeaderBody(header: string, body: string)
    requires '\n' !in header
    ensures SplitLines(header + "\n \n" + body) == [header, " "] + SplitLines(body)
  {
    var rows := SplitLines(body);
    var y := "\n" + body;
    var x := " " + y;
    var w := "\n" + x;
    assert header + "\n \n" + body == header + w;
    assert y[0] == '\n' && y[1..] == body;
    assert SplitLines(y) == [""] + rows;
    SplitLinesPrefix(" ", y);
    assert " " + "" == " " && ([""] + rows)[1..] == rows;
    assert SplitLines(x) == [" "] + rows;
    assert w[0] == '\n' && w[1..] == x;
    assert SplitLines(w) == [""] + ([" "] + rows);
    SplitLinesPrefix(header, w);
    assert header + "" == header && ([""] + ([" "] + rows))[1..] == [" "] + rows;
  }

  /** With a name on one line, the whole share text splits into the header,
      a line with one space, and then the week rows. */
  lemma ShareTextLines(card: Cards.Card)
    requires |card.data| > 0 && '\n' !in card.name
    ensures SplitLines(ShareText(card)) == [ShareHeader(card), " "] + ShareRows(card)
  {
    var header := ShareHeader(card);
    ShareBodyLines(card);
    assert '\n' !in MonthLabel(card.createdAt.month);
    assert '\n' !in header;
    SplitHeaderBody(header, ShareBody(card));
  }

  /** What a click on cell (i, j) of card p must do: flip exactly the entry
      that cell shows, so that the cell shows the opposite value while every
      other cell, and every other card, stays as it was. */
  ghost predicate FlipsOnlyCell(cards: seq<Cards.Card>, r: seq<Cards.Card>, p: nat, i: nat, j: nat)
    requires p < |cards|
    requires i < |Grid.Chunks(cards[p].data, Grid.WeekLength)| && j < |Grid.Chunks(cards[p].data, Grid.WeekLength)[i]|
  {
    |r| == |cards| && (forall q :: 0 <= q < |cards| && q != p ==> r[q] == cards[q]) &&
    var before, after := Grid.Chunks(cards[p].data, Grid.WeekLength), Grid.Chunks(r[p].data, Grid.WeekLength);
    |after| == |before| && (forall a :: 0 <= a < |before| ==> |after[a]| == |before[a]|) &&
    after[i][j] == !before[i][j] &&
    forall a, b :: 0 <= a < |before| && 0 <= b < |before[a]| && (a, b) != (i, j) ==>
      after[a][b] == before[a][b]
  }

  /** toggleEntry(card.id, getEntryIndex(i, j) - 1), the handler of cell
      (i, j), flips exactly that cell when ids are unique. */
  lemma ToggleFlipsDisplayedCell(cards: seq<Cards.Card>, p: nat, i: nat, j: nat)
    requires Cards.UniqueIds(cards) && p < |cards|
    requires i < |Grid.Chunks(cards[p].data, Grid.WeekLength)| && j < |Grid.Chunks(cards[p].data, Grid.WeekLength)[i]|
    ensures FlipsOnlyCell(cards, Cards.ToggleEntry(cards, cards[p].id, Grid.EntryIndex(i, j) - 1), p, i, j)
  {
    var was, d := cards[p].data, Grid.EntryIndex(i, j) - 1;
    var r := Cards.ToggleEntry(cards, cards[p].id, d);
    Grid.GridCellEntry(was, i, j);
    assert r[p].data == was[d := !was[d]];
    Grid.ChunksAfterUpdate(was, d, !was[d]);
    Grid.ChunkShape(was, Grid.WeekLength);
    var before := Grid.Chunks(was, Grid.WeekLength);
    forall a, b | 0 <= a < |before| && 0 <= b < |before[a]| && (a, b) != (i, j)
      ensures Grid.EntryIndex(a, b) - 1 != d
    {
      Grid.EntryIndexInverse(a, b, d + 1);
      Grid.EntryIndexInverse(i, j, d + 1);
    }
  }

  /** A click on cell (i, j) of a card's chart, as written: ignored when the
      month-only test archives the card (the chart then takes no clicks),
      otherwise toggleEntry with index getEntryIndex(i, j) - 1. */
  function ClickCell(cards: seq<Cards.Card>, card: Cards.Card, now: Cards.Date, i: int, j: int): (r: seq<Cards.Card>)
    ensures |r| == |cards|
    ensures IsArchivedAsWritten(card.createdAt, now) ==> r == cards
  {
    if IsArchivedAsWritten(card.createdAt, now) then cards
    else Cards.ToggleEntry(cards, card.id, Grid.EntryIndex(i, j) - 1)
  }

  /** The same click under the intended archived test, which includes the year. */
  function ClickCellIntended(cards: seq<Cards.Card>, card: Cards.Card, now: Cards.Date, i: int, j: int): (r: seq<Cards.Card>)
    ensures |r| == |cards|
    ensures IsArchived(card.createdAt, now) ==> r == cards
  {
    if IsArchived(card.createdAt, now) then cards
    else Cards.ToggleEntry(cards, card.id, Grid.EntryIndex(i, j) - 1)
  }

  /** As written: a click on a card of another month changes nothing; on any
      other card it flips exactly the cell clicked. */
  lemma ClickTogglesDisplayedCell(cards: seq<Cards.Card>, p: nat, now: Cards.Date, i: nat, j: nat)
    requires Cards.UniqueIds(cards) && p < |cards|
    requires i < |Grid.Chunks(cards[p].data, Grid.WeekLength)| && j < |Grid.Chunks(cards[p].data, Grid.WeekLength)[i]|
    ensures IsArchivedAsWritten(cards[p].createdAt, now) ==> ClickCell(cards, cards[p], now, i, j) == cards
    ensures !IsArchivedAsWritten(cards[p].createdAt, now) ==>
              FlipsOnlyCell(cards, ClickCell(cards, cards[p], now, i, j), p, i, j)
  {
    if !IsArchivedAsWritten(cards[p].createdAt, now) {
      ToggleFlipsDisplayedCell(cards, p, i, j);
    }
  }

  /** Intended: a click on a card of another calendar month changes nothing;
      on a card of the current month it flips exactly the cell clicked. */
  lemma ClickTogglesDisplayedCellIntended(cards: seq<Cards.Card>, p: nat, now: Cards.Date, i: nat, j: nat)
    requires Cards.UniqueIds(cards) && p < |cards|
    requires i < |Grid.Chunks(cards[p].data, Grid.WeekLength)| && j < |Grid.Chunks(cards[p].data, Grid.WeekLength)[i]|
    ensures IsArchived(cards[p].createdAt, now) ==> ClickCellIntended(cards, cards[p], now, i, j) == cards
    ensures !IsArchived(cards[p].createdAt, now) ==>
              FlipsOnlyCell(cards, ClickCellIntended(cards, cards[p], now, i, j), p, i, j)
  {
    if !IsArchived(cards[p].createdAt, now) {
      ToggleFlipsDisplayedCell(cards, p, i, j);
    }
  }

  /** The two clicks differ on a card from the same month of an earlier year:
      created on 20 September 2024 and clicked on 1 September 2025, the cell
      of day 1 is flipped as written and left alone as intended. */
  lemma ClickCellIgnoresYear()
    ensures var c := Cards.Card("r15", "Read 15 Pages", [false], Cards.Date(2024, 8, 20));
            var now := Cards.Date(2025, 8, 1);
            ClickCell([c], c, now, 0, 0) == [c.(data := [true])] &&
            ClickCellIntended([c], c, now, 0, 0) == [c]
  {
    var c := Cards.Card("r15", "Read 15 Pages", [false], Cards.Date(2024, 8, 20));
    var r := ClickCell([c], c, Cards.Date(2025, 8, 1), 0, 0);
    assert r[0].data == [true];
  }
}
