/** One worker's relaxation sweep over its row range (`generateHeat` in hotplate.c):
    it reads only the current buffer and writes only the scratch buffer. */
module Relax {
  import opened Plate
  import opened Reduce

  function Abs(x: real): real
  {
    if x < 0.0 then -x else x
  }

  /** A row range whose sweep stays on the plate: empty, or inside the interior rows. */
  predicate ValidRange(rows: int, start: int, stop: int)
  {
    stop <= start || (1 <= start && stop <= rows - 1)
  }

  /** Cell (r, c) is one a sweep of [start, stop) writes. */
  predicate Swept(cols: int, start: int, stop: int, r: int, c: int)
  {
    start <= r < stop && 1 <= c <= cols - 2
  }

  /** The new value of an interior cell: the mean of its four neighbours. */
  function Avg4(cur: Grid, rows: nat, cols: nat, r: int, c: int): real
    requires IsGrid(cur, rows, cols) && 1 <= r <= rows - 2 && 1 <= c <= cols - 2
  {
    (cur[r - 1][c] + cur[r][c - 1] + cur[r + 1][c] + cur[r][c + 1]) / 4.0
  }

  /** How far one sweep moves an interior cell. */
  function Delta(cur: Grid, rows: nat, cols: nat, r: int, c: int): real
    requires IsGrid(cur, rows, cols) && 1 <= r <= rows - 2 && 1 <= c <= cols - 2
  {
    Abs(cur[r][c] - Avg4(cur, rows, cols, r, c))
  }

  /** Row r of the scratch buffer after the column loop has written columns [1, n). */
  function SweepRow(cur: Grid, rows: nat, cols: nat, r: int, line: seq<real>, n: int): (out: seq<real>)
    requires IsGrid(cur, rows, cols) && 1 <= r <= rows - 2 && |line| == cols && (n <= 1 || n <= cols - 1)
    ensures |out| == cols
    ensures forall c :: 0 <= c < cols ==>
      out[c] == if 1 <= c < n then Avg4(cur, rows, cols, r, c) else line[c]
    decreases n
  {
    if n <= 1 then line
    else SweepRow(cur, rows, cols, r, line, n - 1)[n - 1 := Avg4(cur, rows, cols, r, n - 1)]
  }

  /** The scratch buffer after a worker has swept the rows [start, stop) in order: each
      swept cell holds its neighbour mean, every other cell is left as it was. */
  function Sweep(cur: Grid, scr: Grid, rows: nat, cols: nat, start: int, stop: int): (out: Grid)
    requires IsGrid(cur, rows, cols) && IsGrid(scr, rows, cols) && ValidRange(rows, start, stop)
    ensures IsGrid(out, rows, cols)
    ensures forall r, c :: InGrid(rows, cols, r, c) ==>
      out[r][c] == if Swept(cols, start, stop, r, c) then Avg4(cur, rows, cols, r, c) else scr[r][c]
    decreases stop - start
  {
    if stop <= start then scr
    else
      var prev := Sweep(cur, scr, rows, cols, start, stop - 1);
      prev[stop - 1 := SweepRow(cur, rows, cols, stop - 1, prev[stop - 1], cols - 1)]
  }

  /** The running maximum of the changes in row r over columns [1, n). */
  function RowMax(cur: Grid, rows: nat, cols: nat, r: int, n: int): (m: real)
    requires IsGrid(cur, rows, cols) && 1 <= r <= rows - 2 && (n <= 1 || n <= cols - 1)
    ensures 0.0 <= m
    ensures forall c :: 1 <= c < n ==> Delta(cur, rows, cols, r, c) <= m
    ensures m == 0.0 || exists c :: 1 <= c < n && Delta(cur, rows, cols, r, c) == m
    decreases n
  {
    if n <= 1 then 0.0 else MaxF(RowMax(cur, rows, cols, r, n - 1), Delta(cur, rows, cols, r, n - 1))
  }

  /** The worker's report for the rows [start, stop): the largest change among the
      cells it sweeps, or 0 when it sweeps none. */
  function RangeMax(cur: Grid, rows: nat, cols: nat, start: int, stop: int): (m: real)
    requires IsGrid(cur, rows, cols) && ValidRange(rows, start, stop)
    ensures 0.0 <= m
    ensures forall r, c :: Swept(cols, start, stop, r, c) ==> Delta(cur, rows, cols, r, c) <= m
    ensures m == 0.0 || exists r, c :: Swept(cols, start, stop, r, c) && Delta(cur, rows, cols, r, c) == m
    ensures stop <= start ==> m == 0.0
    decreases stop - start
  {
    if stop <= start then 0.0
    else MaxF(RangeMax(cur, rows, cols, start, stop - 1), RowMax(cur, rows, cols, stop - 1, cols - 1))
  }

  /** The column loop of `generateHeat` for one row: write each neighbour mean of
      columns [1, cols-1) into the row and fold each change into the running maximum. */
  method RelaxRow(cur: Grid, rows: nat, cols: nat, row: int, line: seq<real>, maxIn: real)
    returns (out: seq<real>, maxOut: real)
    requires IsGrid(cur, rows, cols) && 1 <= row <= rows - 2 && |line| == cols && 0.0 <= maxIn
    ensures out == SweepRow(cur, rows, cols, row, line, cols - 1)
    ensures maxOut == MaxF(maxIn, RowMax(cur, rows, cols, row, cols - 1))
  {
    out := line;
    maxOut := maxIn;
    var column := 1;
    while column < cols - 1
      invariant 1 <= column && (column <= cols - 1 || column == 1)
      invariant out == SweepRow(cur, rows, cols, row, line, column)
      invariant maxOut == MaxF(maxIn, RowMax(cur, rows, cols, row, column))
    {
      var previous := cur[row][column];
      var current := Avg4(cur, rows, cols, row, column);
      var diff := Abs(previous - current);
      if diff > maxOut {
        maxOut := diff;
      }
      out := out[column := current];
      column := column + 1;
    }
  }

  /** The body of `generateHeat`: sweep rows [start, stop) and columns [1, cols-1),
      writing each neighbour mean into the scratch buffer and keeping the largest change. */
  method GenerateHeat(cur: Grid, scr: Grid, rows: nat, cols: nat, start: int, stop: int)
    returns (out: Grid, maxDiff: real)
    requires IsGrid(cur, rows, cols) && IsGrid(scr, rows, cols) && ValidRange(rows, start, stop)
    ensures out == Sweep(cur, scr, rows, cols, start, stop)
    ensures maxDiff == RangeMax(cur, rows, cols, start, stop)
    ensures IsGrid(out, rows, cols)
    ensures forall r, c :: InGrid(rows, cols, r, c) ==>
      out[r][c] == if Swept(cols, start, stop, r, c) then Avg4(cur, rows, cols, r, c) else scr[r][c]
    ensures 0.0 <= maxDiff
    ensures forall r, c :: Swept(cols, start, stop, r, c) ==> Delta(cur, rows, cols, r, c) <= maxDiff
    ensures maxDiff == 0.0 || exists r, c :: Swept(cols, start, stop, r, c) && Delta(cur, rows, cols, r, c) == maxDiff
    ensures stop <= start ==> maxDiff == 0.0
  {
    out, maxDiff := SweepRows(cur, scr, rows, cols, start, stop);
  }

  /** The row loop of `generateHeat`, starting from a zero maximum. */
  method SweepRows(cur: Grid, scr: Grid, rows: nat, cols: nat, start: int, stop: int)
    returns (out: Grid, maxDiff: real)
    requires IsGrid(cur, rows, cols) && IsGrid(scr, rows, cols) && ValidRange(rows, start, stop)
    ensures out == Sweep(cur, scr, rows, cols, start, stop)
    ensures maxDiff == RangeMax(cur, rows, cols, start, stop)
  {
    out := scr;
    maxDiff := 0.0;
    var row := start;
    while row < stop
      invariant row == start || start < row <= stop
      invariant out == Sweep(cur, scr, rows, cols, start, row)
      invariant maxDiff == RangeMax(cur, rows, cols, start, row)
    {
      var line;
      line, maxDiff := RelaxRow(cur, rows, cols, row, out[row], maxDiff);
      out := out[row := line];
      row := row + 1;
    }
  }

  /** Sweeping [a, b) and then [b, c) gives the scratch buffer that sweeping [a, c) does. */
  lemma SweepSplit(cur: Grid, scr: Grid, rows: nat, cols: nat, a: int, b: int, c: int)
    requires IsGrid(cur, rows, cols) && IsGrid(scr, rows, cols)
    requires a <= b <= c && ValidRange(rows, a, c)
    ensures Sweep(cur, Sweep(cur, scr, rows, cols, a, b), rows, cols, b, c) == Sweep(cur, scr, rows, cols, a, c)
  {
    GridExt(Sweep(cur, Sweep(cur, scr, rows, cols, a, b), rows, cols, b, c), Sweep(cur, scr, rows, cols, a, c), rows, cols);
  }

  /** Two workers with adjacent ranges can run in either order: the sweep of [b, c)
      followed by that of [a, b) gives the same scratch buffer as sweeping [a, c). */
  lemma SweepOrderIrrelevant(cur: Grid, scr: Grid, rows: nat, cols: nat, a: int, b: int, c: int)
    requires IsGrid(cur, rows, cols) && IsGrid(scr, rows, cols)
    requires a <= b <= c && ValidRange(rows, a, c)
    ensures Sweep(cur, Sweep(cur, scr, rows, cols, b, c), rows, cols, a, b) == Sweep(cur, scr, rows, cols, a, c)
  {
    GridExt(Sweep(cur, Sweep(cur, scr, rows, cols, b, c), rows, cols, a, b), Sweep(cur, scr, rows, cols, a, c), rows, cols);
  }

  /** Any two workers can run in either order. Every value a sweep writes is computed
      from the current buffer alone, so even overlapping ranges commute. */
  lemma SweepsCommute(cur: Grid, scr: Grid, rows: nat, cols: nat, a1: int, b1: int, a2: int, b2: int)
    requires IsGrid(cur, rows, cols) && IsGrid(scr, rows, cols)
    requires ValidRange(rows, a1, b1) && ValidRange(rows, a2, b2)
    ensures Sweep(cur, Sweep(cur, scr, rows, cols, a1, b1), rows, cols, a2, b2)
         == Sweep(cur, Sweep(cur, scr, rows, cols, a2, b2), rows, cols, a1, b1)
  {
    GridExt(Sweep(cur, Sweep(cur, scr, rows, cols, a1, b1), rows, cols, a2, b2),
            Sweep(cur, Sweep(cur, scr, rows, cols, a2, b2), rows, cols, a1, b1), rows, cols);
  }

  /** The report for [a, c) is the larger of the reports for [a, b) and [b, c). */
  lemma {:induction false} RangeMaxSplit(cur: Grid, rows: nat, cols: nat, a: int, b: int, c: int)
    requires IsGrid(cur, rows, cols)
    requires a <= b <= c && ValidRange(rows, a, c)
    ensures RangeMax(cur, rows, cols, a, c) == MaxF(RangeMax(cur, rows, cols, a, b), RangeMax(cur, rows, cols, b, c))
    decreases c - b
  {
    if b < c {
      RangeMaxSplit(cur, rows, cols, a, b, c - 1);
    }
  }
}
