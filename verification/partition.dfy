/** The division of the plate's rows among the workers (the setup loop in `main`). */
module Partition {

  /** The half-open row range [start, stop) one worker sweeps. */
  datatype Range = Range(start: int, stop: int)

  /** Row r is one the range sweeps. */
  predicate Owns(g: Range, r: int)
  {
    g.start <= r < g.stop
  }

  /** `row_per_thread`: the row count divided by the worker count, rounded up. The
      operands are non-negative, so the program's truncating division is Dafny's. */
  function RowsPerWorker(rows: nat, n: nat): (rpt: nat)
    requires n >= 1
    ensures rpt * n >= rows
    ensures (rpt - 1) * n < rows
  {
    var q, m := (rows + n - 1) / n, (rows + n - 1) % n;
    assert rows + n - 1 == q * n + m;
    assert (q - 1) * n == q * n - n;
    q
  }

  /** The plan `main` builds: worker i gets [i*rpt, (i+1)*rpt), then the first start is
      forced to 1 and the last stop to rows-1. */
  function AsWritten(rows: nat, n: nat): (p: seq<Range>)
    requires n >= 1
    ensures |p| == n
    ensures p[0].start == 1 && p[n - 1].stop == rows - 1
    ensures forall i :: 0 < i < n ==> p[i].start == i * RowsPerWorker(rows, n)
    ensures forall i :: 0 <= i < n - 1 ==> p[i].stop == p[i + 1].start
  {
    var rpt := RowsPerWorker(rows, n);
    seq(n, i requires 0 <= i < n =>
      Range(if i == 0 then 1 else i * rpt, if i == n - 1 then rows - 1 else (i + 1) * rpt))
  }

  /** `p` is a chain of non-inverted ranges, each starting where the previous stops,
      running from `lo` to `hi`. */
  predicate Tiles(p: seq<Range>, lo: int, hi: int)
  {
    && |p| >= 1
    && p[0].start == lo
    && p[|p| - 1].stop == hi
    && (forall i :: 0 <= i < |p| ==> p[i].start <= p[i].stop)
    && (forall i :: 0 <= i < |p| - 1 ==> p[i].stop == p[i + 1].start)
  }

  /** Dropping the first range of a chain leaves a chain from where it stopped. */
  lemma TilesTail(p: seq<Range>, lo: int, hi: int)
    requires Tiles(p, lo, hi) && |p| >= 2
    ensures Tiles(p[1..], p[0].stop, hi)
  {
    assert forall i :: 0 <= i < |p| - 1 ==> p[1..][i] == p[i + 1];
  }

  /** Dropping the last range of a chain leaves a chain up to where that range starts. */
  lemma TilesFront(p: seq<Range>, lo: int, hi: int)
    requires Tiles(p, lo, hi) && |p| >= 2
    ensures Tiles(p[..|p| - 1], lo, p[|p| - 1].start)
  {
  }

  /** In a chain, ranges are ordered and stay within [lo, hi]. */
  lemma {:induction false} TilesOrdered(p: seq<Range>, lo: int, hi: int)
    requires Tiles(p, lo, hi)
    ensures lo <= hi
    ensures forall i, j :: 0 <= i < j < |p| ==> p[i].stop <= p[j].start
    ensures forall i :: 0 <= i < |p| ==> lo <= p[i].start && p[i].stop <= hi
    decreases |p|
  {
    if |p| >= 2 {
      TilesTail(p, lo, hi);
      TilesOrdered(p[1..], p[0].stop, hi);
      forall i, j | 0 <= i < j < |p|
        ensures p[i].stop <= p[j].start
      {
        assert p[j] == p[1..][j - 1];
        if i > 0 {
          assert p[i] == p[1..][i - 1];
        }
      }
      forall i | 0 <= i < |p|
        ensures lo <= p[i].start && p[i].stop <= hi
      {
        if i > 0 {
          assert p[i] == p[1..][i - 1];
        }
      }
    }
  }

  /** Some range of the plan sweeps row r. */
  predicate Covered(p: seq<Range>, r: int)
  {
    exists i :: 0 <= i < |p| && Owns(p[i], r)
  }

  /** Every row in [lo, hi) lies in some range of the chain. */
  lemma {:induction false} TilesCover(p: seq<Range>, lo: int, hi: int, r: int)
    requires Tiles(p, lo, hi) && lo <= r < hi
    ensures Covered(p, r)
    decreases |p|
  {
    if r < p[0].stop {
      assert Owns(p[0], r);
    } else {
      TilesTail(p, lo, hi);
      TilesCover(p[1..], p[0].stop, hi, r);
      var j :| 0 <= j < |p| - 1 && Owns(p[1..][j], r);
      assert Owns(p[j + 1], r);
    }
  }

  /** A chain from lo to hi covers exactly the rows [lo, hi), each one exactly once. */
  lemma TilesExactlyOnce(p: seq<Range>, lo: int, hi: int)
    requires Tiles(p, lo, hi)
    ensures forall r :: lo <= r < hi <==> Covered(p, r)
    ensures forall i, j, r :: 0 <= i < |p| && 0 <= j < |p| && Owns(p[i], r) && Owns(p[j], r) ==> i == j
  {
    TilesOrdered(p, lo, hi);
    forall r | lo <= r < hi
      ensures Covered(p, r)
    {
      TilesCover(p, lo, hi, r);
    }
  }

  lemma MulMono(a: int, b: int, k: int)
    requires a <= b && 0 <= k
    ensures a * k <= b * k
  {
  }

  /** While the last worker's generic start (n-1)*rpt does not pass rows-1, the plan
      `main` builds tiles the interior rows [1, rows-1): no gap, no overlap, and no
      range reaching a boundary row. */
  lemma AsWrittenTiles(rows: nat, n: nat)
    requires n >= 1 && rows >= 2
    requires (n - 1) * RowsPerWorker(rows, n) <= rows - 1
    ensures Tiles(AsWritten(rows, n), 1, rows - 1)
    ensures forall i :: 0 <= i < n ==> 1 <= AsWritten(rows, n)[i].start <= AsWritten(rows, n)[i].stop <= rows - 1
    ensures forall r :: 1 <= r < rows - 1 <==> Covered(AsWritten(rows, n), r)
    ensures forall i, j, r ::
              0 <= i < n && 0 <= j < n && Owns(AsWritten(rows, n)[i], r) && Owns(AsWritten(rows, n)[j], r)
              ==> i == j
  {
    var p := AsWritten(rows, n);
    var rpt := RowsPerWorker(rows, n);
    assert rpt >= 1;
    forall i | 0 <= i < n
      ensures p[i].start <= p[i].stop
    {
      if i < n - 1 {
        MulMono(i + 1, n - 1, rpt);
        if i > 0 {
          MulMono(i, i + 1, rpt);
        } else {
          MulMono(1, i + 1, rpt);
        }
      } else if i > 0 {
        assert p[i].start == (n - 1) * rpt;
      }
    }
    TilesOrdered(p, 1, rows - 1);
    TilesExactlyOnce(p, 1, rows - 1);
  }

  /** With 5 rows and 4 workers the plan `main` builds gives worker 2 the rows [4, 6):
      row 4 is the bottom boundary and row 5 lies past the plate. */
  lemma AsWrittenOverrunsBottom()
    ensures RowsPerWorker(5, 4) == 2
    ensures AsWritten(5, 4)[2] == Range(4, 6)
    ensures AsWritten(5, 4)[2].stop > 5 - 1
    ensures !Tiles(AsWritten(5, 4), 1, 5 - 1)
  {
    assert AsWritten(5, 4)[3] == Range(6, 4);
  }

  function Clamp(x: int, lo: int, hi: int): int
    requires lo <= hi
  {
    if x < lo then lo else if x > hi then hi else x
  }

  /** The generic boundary k*rpt, clamped into [1, rows-1]. */
  function Cut(rows: nat, rpt: nat, k: nat): (b: int)
    requires rows >= 2
    ensures 1 <= b <= rows - 1
  {
    Clamp(k * rpt, 1, rows - 1)
  }

  lemma CutMono(rows: nat, rpt: nat, k: nat)
    requires rows >= 2
    ensures Cut(rows, rpt, k) <= Cut(rows, rpt, k + 1)
  {
    MulMono(k, k + 1, rpt);
  }

  /** The plan with every generic boundary clamped into [1, rows-1]: workers past the
      interior get empty ranges instead of rows beyond it. */
  function Clamped(rows: nat, n: nat): (p: seq<Range>)
    requires n >= 1 && rows >= 2
    ensures |p| == n
    ensures Tiles(p, 1, rows - 1)
  {
    var rpt := RowsPerWorker(rows, n);
    var p := seq(n, i requires 0 <= i < n =>
      Range(if i == 0 then 1 else Cut(rows, rpt, i), if i == n - 1 then rows - 1 else Cut(rows, rpt, i + 1)));
    assert forall i :: 0 <= i < n ==> p[i].start <= p[i].stop by {
      forall i | 0 <= i < n
        ensures p[i].start <= p[i].stop
      {
        CutMono(rows, rpt, i);
      }
    }
    p
  }

  /** Under the bound of `AsWrittenTiles` clamping changes nothing. */
  lemma ClampedAgreesWithAsWritten(rows: nat, n: nat)
    requires n >= 1 && rows >= 2
    requires (n - 1) * RowsPerWorker(rows, n) <= rows - 1
    ensures Clamped(rows, n) == AsWritten(rows, n)
  {
    AsWrittenTiles(rows, n);
    var p, q := Clamped(rows, n), AsWritten(rows, n);
    var rpt := RowsPerWorker(rows, n);
    forall i | 0 <= i < n
      ensures p[i] == q[i]
    {
      if 0 < i {
        assert q[i].start == i * rpt;
      }
      if i < n - 1 {
        assert q[i].stop == q[i + 1].start == (i + 1) * rpt;
      }
    }
  }
}
