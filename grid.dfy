/** The week grid: a card's flat sequence of daily entries is shown as rows
    of seven cells, and a cell (week i, offset j) stands for the 1-based day
    i * 7 + j + 1 of the month. */
module Grid {

  /** Cells per row of the chart. */
  const WeekLength: nat := 7

  function Min(a: int, b: int): int
  {
    if a <= b then a else b
  }

  /** The rows chunk(arr, size) produces: consecutive slices of `size`
      elements starting at 0, size, 2 * size, ..., the last one cut short by
      the end of the input. */
  function Chunks<T>(s: seq<T>, size: nat): (rows: seq<seq<T>>)
    requires size > 0
    ensures |rows| == 0 <==> |s| == 0
    decreases |s|
  {
    if |s| == 0 then []
    else
      var k := Min(size, |s|);
      [s[..k]] + Chunks(s[k..], size)
  }

  /** Concatenation of all rows, in order. */
  function Flatten<T>(rows: seq<seq<T>>): seq<T>
  {
    if rows == [] then [] else rows[0] + Flatten(rows[1..])
  }

  /** chunk(arr, chunkSize): a loop advancing i by chunkSize and appending
      the slice arr[i .. i + chunkSize] (clamped to the end of arr). The
      source loop never ends for a non-positive chunk size on a non-empty
      array, so a positive size is required. */
  method Chunk<T>(arr: seq<T>, chunkSize: int) returns (chunks: seq<seq<T>>)
    requires chunkSize > 0
    ensures chunks == Chunks(arr, chunkSize)
  {
    chunks := [];
    var i := 0;
    while i < |arr|
      invariant 0 <= i
      invariant chunks + Chunks(arr[Min(i, |arr|)..], chunkSize) == Chunks(arr, chunkSize)
    {
      var row := arr[i..Min(i + chunkSize, |arr|)];
      ChunksFrom(arr, i, chunkSize);
      chunks := chunks + [row];
      i := i + chunkSize;
    }
  }

  /** The rows from position i on: the slice at i, then the rows from the
      slice's end on. */
  lemma ChunksFrom<T>(s: seq<T>, i: nat, size: nat)
    requires size > 0 && i < |s|
    ensures Chunks(s[i..], size) == [s[i..Min(i + size, |s|)]] + Chunks(s[Min(i + size, |s|)..], size)
  {
    var rest, end := s[i..], Min(i + size, |s|);
    assert rest[..end - i] == s[i..end] && rest[end - i..] == s[end..];
  }

  /** Concatenating the rows gives back the input exactly, in order. */
  lemma {:induction false} FlattenChunks<T>(s: seq<T>, size: nat)
    requires size > 0
    ensures Flatten(Chunks(s, size)) == s
    decreases |s|
  {
    if |s| > 0 {
      var k := Min(size, |s|);
      var rows := Chunks(s, size);
      FlattenChunks(s[k..], size);
      assert rows[0] == s[..k] && rows[1..] == Chunks(s[k..], size);
      assert Flatten(rows) == rows[0] + Flatten(rows[1..]);
      assert s[..k] + s[k..] == s;
    }
  }

  /** Every row is non-empty and at most `size` long, every row but the
      last is exactly `size` long, and there are ceil(|s| / size) rows. */
  lemma {:induction false} ChunkShape<T>(s: seq<T>, size: nat)
    requires size > 0
    ensures |Chunks(s, size)| == (|s| + size - 1) / size
    ensures forall r :: 0 <= r < |Chunks(s, size)| ==>
              0 < |Chunks(s, size)[r]| <= size &&
              (r < |Chunks(s, size)| - 1 ==> |Chunks(s, size)[r]| == size)
    decreases |s|
  {
    if |s| > 0 {
      var k := Min(size, |s|);
      var rows, tail := Chunks(s, size), Chunks(s[k..], size);
      ChunkShape(s[k..], size);
      assert rows == [s[..k]] + tail;
      if |s| <= size {
        assert |s[k..]| == 0;
        DivUnique(|s| + size - 1, size, 1, |s| - 1);
      } else {
        assert k == size && |s[k..]| == |s| - size;
        DivStep(|s| - size + size - 1, size);
        assert (|s| + size - 1) / size == (|s| - size + size - 1) / size + 1;
        assert |tail| > 0;
      }
      forall r | 0 <= r < |rows|
        ensures 0 < |rows[r]| <= size && (r < |rows| - 1 ==> |rows[r]| == size)
      {
        if r > 0 { assert rows[r] == tail[r - 1]; }
      }
    }
  }

  lemma MulAtLeast(x: int, n: int)
    requires x >= 1 && n > 0
    ensures x * n >= n
  {
  }

  /** Quotient and remainder are determined by a == q * n + r, 0 <= r < n. */
  lemma DivUnique(a: int, n: int, q: int, r: int)
    requires n > 0 && 0 <= r < n && a == q * n + r
    ensures a / n == q && a % n == r
  {
    var q', r' := a / n, a % n;
    assert a == q' * n + r';
    assert (q - q') * n == r' - r;
    if q > q' { MulAtLeast(q - q', n); }
    else if q < q' { MulAtLeast(q' - q, n); }
  }

  /** Adding the divisor once adds one to the quotient, keeps the remainder. */
  lemma DivStep(a: int, n: int)
    requires n > 0
    ensures (a + n) / n == a / n + 1 && (a + n) % n == a % n
  {
    var q, r := a / n, a % n;
    assert a == q * n + r;
    assert a + n == (q + 1) * n + r;
    DivUnique(a + n, n, q + 1, r);
  }

  /** Index correspondence: cell (i, j) of the grid holds element i * size + j
      of the flat sequence. */
  lemma {:induction false} ChunkCell<T>(s: seq<T>, size: nat, i: nat, j: nat)
    requires size > 0
    requires i < |Chunks(s, size)| && j < |Chunks(s, size)[i]|
    ensures i * size + j < |s| && Chunks(s, size)[i][j] == s[i * size + j]
    decreases i
  {
    var k := Min(size, |s|);
    var tail := Chunks(s[k..], size);
    assert Chunks(s, size) == [s[..k]] + tail;
    if i > 0 {
      assert Chunks(s, size)[i] == tail[i - 1];
      assert |s[k..]| > 0;
      ChunkCell(s[k..], size, i - 1, j);
      MulPred(i, size);
    }
  }

  lemma MulPred(i: int, n: int)
    ensures (i - 1) * n + n == i * n
  {
  }

  /** Writing one element of the flat sequence changes exactly the grid cell
      that shows it and keeps the shape of the grid. */
  lemma ChunksAfterUpdate<T>(s: seq<T>, d: nat, v: T)
    requires d < |s|
    ensures var before, after := Chunks(s, WeekLength), Chunks(s[d := v], WeekLength);
            |after| == |before| &&
            (forall a :: 0 <= a < |before| ==> |after[a]| == |before[a]|) &&
            forall a, b :: 0 <= a < |before| && 0 <= b < |before[a]| ==>
              after[a][b] == if EntryIndex(a, b) - 1 == d then v else before[a][b]
  {
    var t := s[d := v];
    var before, after := Chunks(s, WeekLength), Chunks(t, WeekLength);
    ChunksSameShape(s, t, WeekLength);
    forall a, b | 0 <= a < |before| && 0 <= b < |before[a]|
      ensures after[a][b] == if EntryIndex(a, b) - 1 == d then v else before[a][b]
    {
      ChunkCell(s, WeekLength, a, b);
      ChunkCell(t, WeekLength, a, b);
    }
  }

  /** Conversely, element q * size + r (r < size) of the flat sequence is
      found in row q at offset r. */
  lemma {:induction false} ChunkCover<T>(s: seq<T>, size: nat, q: nat, r: nat)
    requires size > 0 && r < size && q * size + r < |s|
    ensures q < |Chunks(s, size)| && r < |Chunks(s, size)[q]|
    ensures Chunks(s, size)[q][r] == s[q * size + r]
    decreases q
  {
    var rows := Chunks(s, size);
    var m := Min(size, |s|);
    var tail := Chunks(s[m..], size);
    assert rows == [s[..m]] + tail;
    if q > 0 {
      MulAtLeast(q, size);
      MulPred(q, size);
      assert m == size;
      var p := (q - 1) * size + r;
      assert p + size == q * size + r;
      ChunkCover(s[m..], size, q - 1, r);
      assert rows[q] == tail[q - 1] && tail[q - 1][r] == s[m..][p];
    }
  }

  /** Two sequences of the same length are cut into rows of the same shape. */
  lemma {:induction false} ChunksSameShape<T, U>(s: seq<T>, t: seq<U>, size: nat)
    requires size > 0 && |s| == |t|
    ensures |Chunks(s, size)| == |Chunks(t, size)|
    ensures forall r :: 0 <= r < |Chunks(s, size)| ==> |Chunks(s, size)[r]| == |Chunks(t, size)[r]|
    decreases |s|
  {
    if |s| > 0 {
      var k := Min(size, |s|);
      ChunksSameShape(s[k..], t[k..], size);
      var rs, rt := Chunks(s, size), Chunks(t, size);
      forall r | 0 <= r < |rs| ensures |rs[r]| == |rt[r]|
      {
        if r > 0 {
          assert rs[r] == Chunks(s[k..], size)[r - 1];
          assert rt[r] == Chunks(t[k..], size)[r - 1];
        }
      }
    }
  }

  /** getEntryIndex(i, j): the 1-based day shown in week i at offset j. */
  function EntryIndex(i: int, j: int): (d: int)
    ensures 0 <= j < WeekLength ==> i * WeekLength < d <= (i + 1) * WeekLength
  {
    i * WeekLength + j + 1
  }

  /** Within a week (offset 0..6), the day determines the cell and the cell
      the day: day d sits in week (d - 1) / 7 at offset (d - 1) % 7. */
  lemma EntryIndexInverse(i: nat, j: nat, d: int)
    requires j < WeekLength
    ensures EntryIndex(i, j) == d <==> d >= 1 && i == (d - 1) / WeekLength && j == (d - 1) % WeekLength
  {
  }

  /** isCurrDay(week, day): the cell shows today's day of month. */
  predicate IsCurrDay(week: int, day: int, today: int)
    ensures week >= 0 && 0 <= day < WeekLength ==>
              (IsCurrDay(week, day, today) <==>
               today >= 1 && week == (today - 1) / WeekLength && day == (today - 1) % WeekLength)
  {
    today == EntryIndex(week, day)
  }

  /** For a day of month within the entries, exactly one cell of the grid is
      highlighted as today, and it is the cell that shows entry today - 1. */
  lemma {:induction false} CurrDayUnique<T>(data: seq<T>, today: int)
    requires 1 <= today <= |data|
    ensures var rows := Chunks(data, WeekLength);
            var i, j := (today - 1) / WeekLength, (today - 1) % WeekLength;
            i < |rows| && j < |rows[i]| && IsCurrDay(i, j, today) && rows[i][j] == data[today - 1] &&
            forall i', j' :: 0 <= i' < |rows| && 0 <= j' < |rows[i']| && IsCurrDay(i', j', today) ==> i' == i && j' == j
  {
    var rows := Chunks(data, WeekLength);
    ChunkCover(data, WeekLength, (today - 1) / WeekLength, (today - 1) % WeekLength);
    ChunkShape(data, WeekLength);
    forall i', j' | 0 <= i' < |rows| && 0 <= j' < |rows[i']| && IsCurrDay(i', j', today)
      ensures i' == (today - 1) / WeekLength && j' == (today - 1) % WeekLength
    {
      EntryIndexInverse(i', j', today);
    }
  }

  /** The click target of cell (i, j), getEntryIndex(i, j) - 1, is the entry
      the cell displays. */
  lemma GridCellEntry<T>(data: seq<T>, i: nat, j: nat)
    requires i < |Chunks(data, WeekLength)| && j < |Chunks(data, WeekLength)[i]|
    ensures 0 <= EntryIndex(i, j) - 1 < |data|
    ensures Chunks(data, WeekLength)[i][j] == data[EntryIndex(i, j) - 1]
  {
    ChunkCell(data, WeekLength, i, j);
  }
}
