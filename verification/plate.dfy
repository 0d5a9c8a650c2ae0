/** The plate grid, the classification of its cells into edges and interior,
    and the state `initializeHotPlate` leaves in the two buffers. */
module Plate {

  /** The four edge temperatures; the program reads them as integers. */
  datatype Temps = Temps(top: int, left: int, right: int, bottom: int)

  /** The region the initialiser assigns a cell to. */
  datatype Region = Top | Left | Right | Bottom | Interior

  /** A plate buffer, row-major; single-precision cells are modelled as reals. */
  type Grid = seq<seq<real>>

  /** The current buffer (`hotplate`) and the scratch buffer (`hotplateClone`). */
  datatype Buffers = Buffers(current: Grid, scratch: Grid)

  /** `g` is a `rows` by `cols` matrix. */
  predicate IsGrid(g: Grid, rows: nat, cols: nat)
  {
    |g| == rows && forall r :: 0 <= r < rows ==> |g[r]| == cols
  }

  predicate InGrid(rows: nat, cols: nat, r: int, c: int)
  {
    0 <= r < rows && 0 <= c < cols
  }

  /** The test guarding the interior-seed write: a cell on none of the four borders. */
  predicate OffBorder(rows: int, cols: int, r: int, c: int)
  {
    r != 0 && r != rows - 1 && c != 0 && c != cols - 1
  }

  /** The initialiser's if/else chain over the edges; the first match wins, so the
      top corners go to the left and right edges and both bottom corners to the bottom. */
  function Classify(rows: nat, cols: nat, r: int, c: int): (k: Region)
    requires InGrid(rows, cols, r, c)
    ensures k == Interior <==> OffBorder(rows, cols, r, c)
    ensures rows >= 2 && cols >= 2 ==>
      && (k == Top <==> r == 0 && 1 <= c <= cols - 2)
      && (k == Left <==> c == 0 && r <= rows - 2)
      && (k == Right <==> c == cols - 1 && r <= rows - 2)
      && (k == Bottom <==> r == rows - 1)
      && (k == Interior <==> 1 <= r <= rows - 2 && 1 <= c <= cols - 2)
  {
    if r == 0 && c != 0 && c != cols - 1 then Top
    else if c == 0 && r != rows - 1 then Left
    else if c == cols - 1 && r != rows - 1 then Right
    else if r == rows - 1 then Bottom
    else Interior
  }

  /** The temperature written into a cell of edge `k`. */
  function EdgeTemp(t: Temps, k: Region): int
    requires k != Interior
  {
    match k
    case Top => t.top
    case Left => t.left
    case Right => t.right
    case Bottom => t.bottom
  }

  /** Number of cells the seed formula divides by. */
  function Perimeter(rows: int, cols: int): int
  {
    2 * rows + 2 * (cols - 2)
  }

  /** The integer sum the seed formula divides: each temperature weighted by a cell count. */
  function WeightedEdgeSum(rows: int, cols: int, t: Temps): int
  {
    t.top * (cols - 2) + t.left * (rows - 1) + t.bottom * cols + t.right * (rows - 1)
  }

  /** The value every interior cell of the current buffer starts with. */
  function Seed(rows: int, cols: int, t: Temps): real
    requires Perimeter(rows, cols) != 0
  {
    WeightedEdgeSum(rows, cols, t) as real / Perimeter(rows, cols) as real
  }

  /** What the initialiser leaves in the current buffer at (r, c): the edge value from the
      if/else chain, overwritten by the seed when the cell is off every border. */
  function CurrentCell(rows: nat, cols: nat, t: Temps, r: int, c: int): real
    requires InGrid(rows, cols, r, c)
  {
    if OffBorder(rows, cols, r, c) then Seed(rows, cols, t)
    else EdgeTemp(t, Classify(rows, cols, r, c)) as real
  }

  /** What the initialiser leaves in the scratch buffer at (r, c): the edge value, or the
      untouched previous content `prior` of an interior cell. */
  function ScratchCell(rows: nat, cols: nat, t: Temps, prior: real, r: int, c: int): real
    requires InGrid(rows, cols, r, c)
  {
    if OffBorder(rows, cols, r, c) then prior
    else EdgeTemp(t, Classify(rows, cols, r, c)) as real
  }

  /** `initializeHotPlate`. The scratch buffer's interior is never written, so its
      previous (uninitialised) content is the parameter `clone0`. */
  function Initialize(rows: nat, cols: nat, t: Temps, clone0: Grid): (b: Buffers)
    requires IsGrid(clone0, rows, cols)
    ensures IsGrid(b.current, rows, cols) && IsGrid(b.scratch, rows, cols)
    ensures forall c :: 0 < c < cols - 1 && rows >= 1 ==>
      b.current[0][c] == b.scratch[0][c] == t.top as real
    ensures forall r :: 0 <= r < rows - 1 && cols >= 1 ==>
      b.current[r][0] == b.scratch[r][0] == t.left as real
    ensures forall r :: 0 <= r < rows - 1 && cols >= 2 ==>
      b.current[r][cols - 1] == b.scratch[r][cols - 1] == t.right as real
    ensures forall r, c :: r == rows - 1 >= 1 && 0 <= c < cols ==>
      b.current[r][c] == b.scratch[r][c] == t.bottom as real
    ensures rows >= 3 && cols >= 3 ==> Perimeter(rows, cols) > 0
    ensures forall r, c :: 0 < r < rows - 1 && 0 < c < cols - 1 ==>
      b.current[r][c] == Seed(rows, cols, t)
    ensures forall r, c :: 0 < r < rows - 1 && 0 < c < cols - 1 ==>
      b.scratch[r][c] == clone0[r][c]
  {
    Buffers(
      seq(rows, r requires 0 <= r < rows =>
        seq(cols, c requires 0 <= c < cols => CurrentCell(rows, cols, t, r, c))),
      seq(rows, r requires 0 <= r < rows =>
        seq(cols, c requires 0 <= c < cols => ScratchCell(rows, cols, t, clone0[r][c], r, c))))
  }

  /** Two grids of the same shape that agree cell by cell are equal. */
  lemma GridExt(a: Grid, b: Grid, rows: nat, cols: nat)
    requires IsGrid(a, rows, cols) && IsGrid(b, rows, cols)
    requires forall r, c :: InGrid(rows, cols, r, c) ==> a[r][c] == b[r][c]
    ensures a == b
  {
    forall r | 0 <= r < rows
      ensures a[r] == b[r]
    {
      assert forall c :: 0 <= c < cols ==> a[r][c] == b[r][c];
    }
  }

  // ---------------------------------------------------------------------------
  // The seed's weights are cell counts.

  /** Number of columns c < n of row r that the initialiser assigns to region k. */
  function CountInRow(rows: nat, cols: nat, r: nat, k: Region, n: nat): nat
    requires r < rows && n <= cols
  {
    if n == 0 then 0
    else CountInRow(rows, cols, r, k, n - 1) + (if Classify(rows, cols, r, n - 1) == k then 1 else 0)
  }

  /** Number of cells in rows r < m that the initialiser assigns to region k. */
  function CountCells(rows: nat, cols: nat, k: Region, m: nat): nat
    requires m <= rows
  {
    if m == 0 then 0
    else CountCells(rows, cols, k, m - 1) + CountInRow(rows, cols, m - 1, k, cols)
  }

  /** Counting the columns of a row whose region-k cells form the interval [lo, hi). */
  lemma {:induction false} CountInterval(rows: nat, cols: nat, r: nat, k: Region, n: nat, lo: nat, hi: nat)
    requires r < rows && n <= cols && lo <= hi
    requires forall c :: 0 <= c < n ==> (Classify(rows, cols, r, c) == k <==> lo <= c < hi)
    ensures CountInRow(rows, cols, r, k, n) == if n <= lo then 0 else if n <= hi then n - lo else hi - lo
  {
    if n > 0 {
      CountInterval(rows, cols, r, k, n - 1, lo, hi);
    }
  }

  /** How many cells of row r belong to region k. */
  function RowWeight(rows: nat, cols: nat, r: nat, k: Region): nat
    requires rows >= 2 && cols >= 2
  {
    match k
    case Top => if r == 0 then cols - 2 else 0
    case Left => if r <= rows - 2 then 1 else 0
    case Right => if r <= rows - 2 then 1 else 0
    case Bottom => if r == rows - 1 then cols else 0
    case Interior => if 1 <= r <= rows - 2 then cols - 2 else 0
  }

  lemma RowCount(rows: nat, cols: nat, r: nat, k: Region)
    requires rows >= 2 && cols >= 2 && r < rows
    ensures CountInRow(rows, cols, r, k, cols) == RowWeight(rows, cols, r, k)
  {
    var lo: nat, hi: nat := 0, 0;
    match k {
      case Top => if r == 0 { lo, hi := 1, cols - 1; }
      case Left => if r <= rows - 2 { lo, hi := 0, 1; }
      case Right => if r <= rows - 2 { lo, hi := cols - 1, cols; }
      case Bottom => if r == rows - 1 { lo, hi := 0, cols; }
      case Interior => if 1 <= r <= rows - 2 { lo, hi := 1, cols - 1; }
    }
    CountInterval(rows, cols, r, k, cols, lo, hi);
  }

  /** How many cells of rows r < m belong to region k. */
  function PrefixWeight(rows: nat, cols: nat, k: Region, m: nat): nat
    requires rows >= 2 && cols >= 2 && m <= rows
  {
    match k
    case Top => if m >= 1 then cols - 2 else 0
    case Left => if m <= rows - 1 then m else rows - 1
    case Right => if m <= rows - 1 then m else rows - 1
    case Bottom => if m == rows then cols else 0
    case Interior => (if m <= 1 then 0 else if m <= rows - 1 then m - 1 else rows - 2) * (cols - 2)
  }

  lemma {:induction false} PrefixCount(rows: nat, cols: nat, k: Region, m: nat)
    requires rows >= 2 && cols >= 2 && m <= rows
    ensures CountCells(rows, cols, k, m) == PrefixWeight(rows, cols, k, m)
  {
    if m > 0 {
      PrefixCount(rows, cols, k, m - 1);
      RowCount(rows, cols, m - 1, k);
      if k == Interior && 2 <= m <= rows - 1 {
        assert (m - 1) * (cols - 2) == (m - 2) * (cols - 2) + (cols - 2);
      }
    }
  }

  /** The weights of the seed formula are exactly the numbers of cells the initialiser
      gives each edge, they add up to the formula's divisor, and the cells left over
      are the interior. */
  lemma SeedWeightsAreCellCounts(rows: nat, cols: nat)
    requires rows >= 2 && cols >= 2
    ensures CountCells(rows, cols, Top, rows) == cols - 2
    ensures CountCells(rows, cols, Left, rows) == rows - 1
    ensures CountCells(rows, cols, Right, rows) == rows - 1
    ensures CountCells(rows, cols, Bottom, rows) == cols
    ensures CountCells(rows, cols, Interior, rows) == (rows - 2) * (cols - 2)
    ensures CountCells(rows, cols, Top, rows) + CountCells(rows, cols, Left, rows)
          + CountCells(rows, cols, Right, rows) + CountCells(rows, cols, Bottom, rows)
         == Perimeter(rows, cols)
  {
    PrefixCount(rows, cols, Top, rows);
    PrefixCount(rows, cols, Left, rows);
    PrefixCount(rows, cols, Right, rows);
    PrefixCount(rows, cols, Bottom, rows);
    PrefixCount(rows, cols, Interior, rows);
  }

  function MinTemp(t: Temps): int
  {
    var a := if t.top <= t.left then t.top else t.left;
    var b := if t.right <= t.bottom then t.right else t.bottom;
    if a <= b then a else b
  }

  function MaxTemp(t: Temps): int
  {
    var a := if t.top >= t.left then t.top else t.left;
    var b := if t.right >= t.bottom then t.right else t.bottom;
    if a >= b then a else b
  }

  lemma MulNonneg(a: int, b: int)
    requires 0 <= a && 0 <= b
    ensures 0 <= a * b
  {
  }

  lemma CastMul(a: int, b: int)
    ensures (a * b) as real == a as real * b as real
  {
  }

  /** A quotient by a positive divisor keeps the bounds its dividend has on multiples. */
  lemma QuotientBetween(s: int, p: int, lo: int, hi: int)
    requires 0 < p && lo * p <= s <= hi * p
    ensures lo as real <= s as real / p as real <= hi as real
  {
    CastMul(lo, p);
    CastMul(hi, p);
    var q := s as real / p as real;
    assert q * p as real == s as real;
  }

  lemma Distrib(a: int, b: int, k: int)
    ensures (a - b) * k == a * k - b * k
  {
  }

  /** A sum weighted by the seed formula's weights, of values all at least `lo`,
      is at least `lo` times the divisor. */
  lemma WeightedSumAbove(rows: nat, cols: nat, t: Temps, lo: int)
    requires rows >= 2 && cols >= 2
    requires lo <= t.top && lo <= t.left && lo <= t.right && lo <= t.bottom
    ensures lo * Perimeter(rows, cols) <= WeightedEdgeSum(rows, cols, t)
  {
    MulNonneg(t.top - lo, cols - 2);
    MulNonneg(t.left - lo, rows - 1);
    MulNonneg(t.bottom - lo, cols);
    MulNonneg(t.right - lo, rows - 1);
    Distrib(t.top, lo, cols - 2);
    Distrib(t.left, lo, rows - 1);
    Distrib(t.bottom, lo, cols);
    Distrib(t.right, lo, rows - 1);
    assert lo * Perimeter(rows, cols) == lo * (cols - 2) + lo * (rows - 1) + lo * cols + lo * (rows - 1);
  }

  /** The mirror image of `WeightedSumAbove`. */
  lemma WeightedSumBelow(rows: nat, cols: nat, t: Temps, hi: int)
    requires rows >= 2 && cols >= 2
    requires t.top <= hi && t.left <= hi && t.right <= hi && t.bottom <= hi
    ensures WeightedEdgeSum(rows, cols, t) <= hi * Perimeter(rows, cols)
  {
    MulNonneg(hi - t.top, cols - 2);
    MulNonneg(hi - t.left, rows - 1);
    MulNonneg(hi - t.bottom, cols);
    MulNonneg(hi - t.right, rows - 1);
    Distrib(hi, t.top, cols - 2);
    Distrib(hi, t.left, rows - 1);
    Distrib(hi, t.bottom, cols);
    Distrib(hi, t.right, rows - 1);
    assert hi * Perimeter(rows, cols) == hi * (cols - 2) + hi * (rows - 1) + hi * cols + hi * (rows - 1);
  }

  /** Being a weighted average with non-negative weights, the seed lies between the
      coldest and the hottest edge. */
  lemma SeedWithinEdgeTemps(rows: nat, cols: nat, t: Temps)
    requires rows >= 2 && cols >= 2
    ensures Perimeter(rows, cols) > 0
    ensures MinTemp(t) as real <= Seed(rows, cols, t) <= MaxTemp(t) as real
  {
    WeightedSumAbove(rows, cols, t, MinTemp(t));
    WeightedSumBelow(rows, cols, t, MaxTemp(t));
    QuotientBetween(WeightedEdgeSum(rows, cols, t), Perimeter(rows, cols), MinTemp(t), MaxTemp(t));
  }

  /** The five-by-five example with only the top edge hot: 300 / 16. */
  lemma SeedExample()
    ensures Seed(5, 5, Temps(100, 0, 0, 0)) == 18.75
  {
  }
}
