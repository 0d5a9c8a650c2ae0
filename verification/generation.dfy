/** One generation of the solver: every worker sweeps its range of the plan, then the
    reports are reduced. The workers only read the current buffer and write disjoint
    rows of the scratch buffer, so running them one after another in plan order
    computes what the threads compute between two barriers. */
module Generation {
  import opened Plate
  import opened Partition
  import opened Relax
  import opened Reduce

  /** Every range of the plan can be swept without leaving the plate. */
  predicate PlanFits(rows: nat, p: seq<Range>)
  {
    forall i :: 0 <= i < |p| ==> ValidRange(rows, p[i].start, p[i].stop)
  }

  /** The scratch buffer after the workers of plan `p` have swept in order. */
  function SweepAll(cur: Grid, scr: Grid, rows: nat, cols: nat, p: seq<Range>): (out: Grid)
    requires IsGrid(cur, rows, cols) && IsGrid(scr, rows, cols) && PlanFits(rows, p)
    ensures IsGrid(out, rows, cols)
    decreases |p|
  {
    if |p| == 0 then scr
    else
      var last := p[|p| - 1];
      Sweep(cur, SweepAll(cur, scr, rows, cols, p[..|p| - 1]), rows, cols, last.start, last.stop)
  }

  /** The reports the workers of plan `p` publish. */
  function Reports(cur: Grid, rows: nat, cols: nat, p: seq<Range>): (d: seq<real>)
    requires IsGrid(cur, rows, cols) && PlanFits(rows, p)
    ensures |d| == |p|
  {
    seq(|p|, i requires 0 <= i < |p| => RangeMax(cur, rows, cols, p[i].start, p[i].stop))
  }

  /** Running one more worker of the plan extends the sweep and the reports by its range. */
  lemma PlanStep(cur: Grid, scr: Grid, rows: nat, cols: nat, p: seq<Range>, i: nat)
    requires IsGrid(cur, rows, cols) && IsGrid(scr, rows, cols) && PlanFits(rows, p) && i < |p|
    ensures PlanFits(rows, p[..i]) && PlanFits(rows, p[..i + 1])
    ensures SweepAll(cur, scr, rows, cols, p[..i + 1])
         == Sweep(cur, SweepAll(cur, scr, rows, cols, p[..i]), rows, cols, p[i].start, p[i].stop)
    ensures Reports(cur, rows, cols, p[..i + 1])
         == Reports(cur, rows, cols, p[..i]) + [RangeMax(cur, rows, cols, p[i].start, p[i].stop)]
  {
    assert p[..i + 1][..i] == p[..i];
  }

  /** A chain inside a range that fits the plate fits the plate range by range. */
  lemma TilesFit(rows: nat, p: seq<Range>, lo: int, hi: int)
    requires Tiles(p, lo, hi) && ValidRange(rows, lo, hi)
    ensures PlanFits(rows, p)
  {
    TilesOrdered(p, lo, hi);
  }

  /** Partition independence: however [lo, hi) is cut into a chain of worker ranges,
      the workers together leave the scratch buffer a single sweep of [lo, hi) leaves,
      and the largest of their reports is the report of that single sweep. */
  lemma {:induction false} SweepAllTiles(cur: Grid, scr: Grid, rows: nat, cols: nat, p: seq<Range>, lo: int, hi: int)
    requires IsGrid(cur, rows, cols) && IsGrid(scr, rows, cols)
    requires Tiles(p, lo, hi) && ValidRange(rows, lo, hi)
    ensures PlanFits(rows, p)
    ensures SweepAll(cur, scr, rows, cols, p) == Sweep(cur, scr, rows, cols, lo, hi)
    ensures SeqMax(Reports(cur, rows, cols, p)) == RangeMax(cur, rows, cols, lo, hi)
    decreases |p|
  {
    TilesFit(rows, p, lo, hi);
    TilesOrdered(p, lo, hi);
    if |p| >= 2 {
      var front := p[..|p| - 1];
      var mid := p[|p| - 1].start;
      TilesFront(p, lo, hi);
      SweepAllTiles(cur, scr, rows, cols, front, lo, mid);
      SweepSplit(cur, scr, rows, cols, lo, mid, hi);
      RangeMaxSplit(cur, rows, cols, lo, mid, hi);
      assert Reports(cur, rows, cols, p)[..|p| - 1] == Reports(cur, rows, cols, front);
    }
  }

  /** Some worker of plan `p` sweeps cell (r, c). */
  predicate SweptBy(p: seq<Range>, cols: int, r: int, c: int)
  {
    exists i :: 0 <= i < |p| && Swept(cols, p[i].start, p[i].stop, r, c)
  }

  /** Whatever the plan, each cell some worker sweeps ends up holding its neighbour
      mean, and every other cell keeps its scratch value. */
  lemma {:induction false} SweepAllPointwise(cur: Grid, scr: Grid, rows: nat, cols: nat, p: seq<Range>)
    requires IsGrid(cur, rows, cols) && IsGrid(scr, rows, cols) && PlanFits(rows, p)
    ensures forall r, c :: InGrid(rows, cols, r, c) ==>
      SweepAll(cur, scr, rows, cols, p)[r][c]
        == if SweptBy(p, cols, r, c) then Avg4(cur, rows, cols, r, c) else scr[r][c]
    decreases |p|
  {
    if |p| > 0 {
      var front := p[..|p| - 1];
      SweepAllPointwise(cur, scr, rows, cols, front);
      forall r, c | InGrid(rows, cols, r, c)
        ensures SweptBy(p, cols, r, c) <==> SweptBy(front, cols, r, c) || Swept(cols, p[|p| - 1].start, p[|p| - 1].stop, r, c)
      {
        if SweptBy(p, cols, r, c) {
          var i :| 0 <= i < |p| && Swept(cols, p[i].start, p[i].stop, r, c);
          if i < |p| - 1 {
            assert front[i] == p[i];
          }
        }
        if SweptBy(front, cols, r, c) {
          var i :| 0 <= i < |front| && Swept(cols, front[i].start, front[i].stop, r, c);
          assert front[i] == p[i];
        }
      }
    }
  }

  /** Two plans that are rearrangements of each other have the same length, and each
      range of one appears in the other. */
  lemma RearrangedRanges(p: seq<Range>, q: seq<Range>)
    requires multiset(p) == multiset(q)
    ensures |p| == |q|
    ensures forall j :: 0 <= j < |q| ==> q[j] in p
    ensures forall i :: 0 <= i < |p| ==> p[i] in q
  {
    assert |q| == |multiset(q)| == |multiset(p)| == |p|;
    forall j | 0 <= j < |q|
      ensures q[j] in p
    {
      assert q[j] in multiset(p);
    }
    forall i | 0 <= i < |p|
      ensures p[i] in q
    {
      assert p[i] in multiset(q);
    }
  }

  /** Rearranging a plan leaves the scratch buffer its workers produce unchanged. */
  lemma RearrangedSweep(cur: Grid, scr: Grid, rows: nat, cols: nat, p: seq<Range>, q: seq<Range>)
    requires IsGrid(cur, rows, cols) && IsGrid(scr, rows, cols) && PlanFits(rows, p)
    requires forall j :: 0 <= j < |q| ==> q[j] in p
    requires forall i :: 0 <= i < |p| ==> p[i] in q
    ensures PlanFits(rows, q)
    ensures SweepAll(cur, scr, rows, cols, q) == SweepAll(cur, scr, rows, cols, p)
  {
    forall j | 0 <= j < |q|
      ensures ValidRange(rows, q[j].start, q[j].stop)
    {
      var i :| 0 <= i < |p| && p[i] == q[j];
    }
    SweepAllPointwise(cur, scr, rows, cols, p);
    SweepAllPointwise(cur, scr, rows, cols, q);
    forall r, c | InGrid(rows, cols, r, c)
      ensures SweptBy(p, cols, r, c) <==> SweptBy(q, cols, r, c)
    {
      if SweptBy(p, cols, r, c) {
        var i :| 0 <= i < |p| && Swept(cols, p[i].start, p[i].stop, r, c);
        var j :| 0 <= j < |q| && q[j] == p[i];
      }
      if SweptBy(q, cols, r, c) {
        var j :| 0 <= j < |q| && Swept(cols, q[j].start, q[j].stop, r, c);
        var i :| 0 <= i < |p| && p[i] == q[j];
      }
    }
    GridExt(SweepAll(cur, scr, rows, cols, q), SweepAll(cur, scr, rows, cols, p), rows, cols);
  }

  /** Rearranging a plan leaves the largest report unchanged. */
  lemma RearrangedReports(cur: Grid, rows: nat, cols: nat, p: seq<Range>, q: seq<Range>)
    requires IsGrid(cur, rows, cols) && PlanFits(rows, p) && PlanFits(rows, q) && |p| >= 1 && |q| >= 1
    requires forall j :: 0 <= j < |q| ==> q[j] in p
    requires forall i :: 0 <= i < |p| ==> p[i] in q
    ensures SeqMax(Reports(cur, rows, cols, q)) == SeqMax(Reports(cur, rows, cols, p))
  {
    var dp, dq := Reports(cur, rows, cols, p), Reports(cur, rows, cols, q);
    forall i | 0 <= i < |dp|
      ensures dp[i] in dq
    {
      var j :| 0 <= j < |q| && q[j] == p[i];
      assert dq[j] == dp[i];
    }
    forall j | 0 <= j < |dq|
      ensures dq[j] in dp
    {
      var i :| 0 <= i < |p| && p[i] == q[j];
      assert dp[i] == dq[j];
    }
    SeqMaxSameElements(dp, dq);
  }

  /** The threads of one generation may run and finish in any order: the workers of any
      rearrangement of a plan leave the same scratch buffer and the same largest report. */
  lemma PlanOrderIrrelevant(cur: Grid, scr: Grid, rows: nat, cols: nat, p: seq<Range>, q: seq<Range>)
    requires IsGrid(cur, rows, cols) && IsGrid(scr, rows, cols) && PlanFits(rows, p)
    requires multiset(p) == multiset(q)
    ensures PlanFits(rows, q)
    ensures SweepAll(cur, scr, rows, cols, q) == SweepAll(cur, scr, rows, cols, p)
    ensures |p| >= 1 ==> SeqMax(Reports(cur, rows, cols, q)) == SeqMax(Reports(cur, rows, cols, p))
  {
    RearrangedRanges(p, q);
    RearrangedSweep(cur, scr, rows, cols, p, q);
    if |p| >= 1 {
      RearrangedReports(cur, rows, cols, p, q);
    }
  }

  /** One generation: build the (clamped) plan, run every worker on the current buffer
      and the shared scratch buffer, then reduce the reports with `max_max_diff`. The
      outcome is that of a single worker sweeping every interior row, whatever the
      number of workers. */
  method RunGeneration(cur: Grid, scr: Grid, rows: nat, cols: nat, n: nat)
    returns (next: Grid, metric: real)
    requires IsGrid(cur, rows, cols) && IsGrid(scr, rows, cols) && rows >= 2 && n >= 1
    ensures metric == RangeMax(cur, rows, cols, 1, rows - 1)
    ensures next == Sweep(cur, scr, rows, cols, 1, rows - 1)
  {
    var plan := Clamped(rows, n);
    TilesFit(rows, plan, 1, rows - 1);
    next := scr;
    var reports: seq<real> := [];
    var i := 0;
    assert plan[..0] == [];
    while i < n
      invariant 0 <= i <= n && PlanFits(rows, plan[..i])
      invariant next == SweepAll(cur, scr, rows, cols, plan[..i])
      invariant reports == Reports(cur, rows, cols, plan[..i])
    {
      PlanStep(cur, scr, rows, cols, plan, i);
      var d;
      next, d := GenerateHeat(cur, next, rows, cols, plan[i].start, plan[i].stop);
      reports := reports + [d];
      i := i + 1;
    }
    metric := MaxMaxDiff(reports, n);
    assert plan[..n] == plan;
    assert reports[..n] == reports;
    SweepAllTiles(cur, scr, rows, cols, plan, 1, rows - 1);
  }

  /** Current and scratch buffers hold the same value on every border cell. */
  predicate BordersAgree(a: Grid, b: Grid, rows: nat, cols: nat)
    requires IsGrid(a, rows, cols) && IsGrid(b, rows, cols)
  {
    forall r, c :: 0 <= r < rows && 0 <= c < cols && !OffBorder(rows, cols, r, c) ==> a[r][c] == b[r][c]
  }

  /** The initialiser writes the same edge values into both buffers. */
  lemma InitialBordersAgree(rows: nat, cols: nat, t: Temps, clone0: Grid)
    requires IsGrid(clone0, rows, cols)
    ensures BordersAgree(Initialize(rows, cols, t, clone0).current, Initialize(rows, cols, t, clone0).scratch, rows, cols)
  {
  }

  /** After a generation the scratch buffer becomes current. Because no worker writes a
      border cell, the new current buffer has the old one's borders, so the swapped pair
      still agrees on the borders, and every interior cell holds its neighbour mean. */
  lemma SwapKeepsBorders(cur: Grid, scr: Grid, rows: nat, cols: nat)
    requires IsGrid(cur, rows, cols) && IsGrid(scr, rows, cols) && rows >= 2
    requires BordersAgree(cur, scr, rows, cols)
    ensures BordersAgree(Sweep(cur, scr, rows, cols, 1, rows - 1), cur, rows, cols)
    ensures forall r, c :: 1 <= r <= rows - 2 && 1 <= c <= cols - 2 ==>
      Sweep(cur, scr, rows, cols, 1, rows - 1)[r][c] == Avg4(cur, rows, cols, r, c)
  {
  }

  /** The scratch buffer's interior is left uninitialised by the initialiser, but the
      first generation overwrites all of it: its result does not depend on that content. */
  lemma UninitialisedScratchUnobservable(rows: nat, cols: nat, t: Temps, clone1: Grid, clone2: Grid)
    requires rows >= 2 && IsGrid(clone1, rows, cols) && IsGrid(clone2, rows, cols)
    ensures
      var b1, b2 := Initialize(rows, cols, t, clone1), Initialize(rows, cols, t, clone2);
      Sweep(b1.current, b1.scratch, rows, cols, 1, rows - 1) == Sweep(b2.current, b2.scratch, rows, cols, 1, rows - 1)
  {
    var b1, b2 := Initialize(rows, cols, t, clone1), Initialize(rows, cols, t, clone2);
    GridExt(b1.current, b2.current, rows, cols);
    GridExt(Sweep(b1.current, b1.scratch, rows, cols, 1, rows - 1), Sweep(b2.current, b2.scratch, rows, cols, 1, rows - 1), rows, cols);
  }

  /** On a 3 by 3 plate the single interior cell only has border neighbours: once a
      generation has written their mean, the next generation moves nothing. */
  lemma MinimalPlateSettles(cur: Grid, scr: Grid)
    requires IsGrid(cur, 3, 3) && IsGrid(scr, 3, 3) && BordersAgree(cur, scr, 3, 3)
    ensures RangeMax(Sweep(cur, scr, 3, 3, 1, 2), 3, 3, 1, 2) == 0.0
  {
    var next := Sweep(cur, scr, 3, 3, 1, 2);
    assert next[0][1] == cur[0][1] && next[1][0] == cur[1][0];
    assert next[2][1] == cur[2][1] && next[1][2] == cur[1][2];
    assert Delta(next, 3, 3, 1, 1) == 0.0;
  }
}
