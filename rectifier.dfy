/**
 * The rectifier: the forward table that straightens the sloped disparity
 * field of the two refracted images into horizontal rows, and the inverse
 * table built by scattering each forward entry into a 3x3 neighbourhood.
 */
module Rectification {
  import opened Images

  /** A `cv::Point2f`: a two-channel map entry, column `x` first. */
  datatype Vec2 = Vec2(x: real, y: real)

  const Zero := Vec2(0.0, 0.0)

  function Add(a: Vec2, b: Vec2): Vec2
  {
    Vec2(a.x + b.x, a.y + b.y)
  }

  /**
   * Bilinear remapping of one point: the value of a field at a fractional
   * position (`cv::remap` with `INTER_LINEAR`). It is a parameter of the
   * model, as the interpolation rule itself is not modelled.
   */
  type Sampler = (Grid<Vec2>, Vec2) -> Vec2

  // ---------------------------------------------------------------------
  // The forward table
  // ---------------------------------------------------------------------

  /** `cv::subtract(bO2D, bE2D, bO2E)`: the depth-independent displacement. */
  function Difference(a: Grid<Vec2>, b: Grid<Vec2>, d: Dims): (r: Grid<Vec2>)
    requires Shaped(a, d) && Shaped(b, d)
    ensures Shaped(r, d)
    ensures forall y, x {:trigger r[y][x]} :: InGrid(d, y, x) ==>
      r[y][x] == Vec2(a[y][x].x - b[y][x].x, a[y][x].y - b[y][x].y)
  {
    seq(d.rows, y requires 0 <= y < d.rows =>
      seq(d.cols, x requires 0 <= x < d.cols => Vec2(a[y][x].x - b[y][x].x, a[y][x].y - b[y][x].y)))
  }

  function RowSumX(row: seq<Vec2>): real
  {
    if |row| == 0 then 0.0 else RowSumX(row[..|row| - 1]) + row[|row| - 1].x
  }

  function SumX(g: Grid<Vec2>): real
  {
    if |g| == 0 then 0.0 else SumX(g[..|g| - 1]) + RowSumX(g[|g| - 1])
  }

  /** `cv::mean(bO2E)[0]`: the mean of the first channel over all pixels. */
  function MeanX(g: Grid<Vec2>, d: Dims): real
    requires d.rows > 0 && d.cols > 0
  {
    SumX(g) / ((d.rows * d.cols) as real)
  }

  /** `cv::divide(bO2E, baseline, bO2E)`: both channels divided by the baseline. */
  function Normalised(g: Grid<Vec2>, b: real, d: Dims): (r: Grid<Vec2>)
    requires Shaped(g, d) && b != 0.0
    ensures Shaped(r, d)
    ensures forall y, x {:trigger r[y][x]} :: InGrid(d, y, x) ==>
      r[y][x] == Vec2(g[y][x].x / b, g[y][x].y / b)
  {
    seq(d.rows, y requires 0 <= y < d.rows =>
      seq(d.cols, x requires 0 <= x < d.cols => Vec2(g[y][x].x / b, g[y][x].y / b)))
  }

  /** `scaled` is `row` with the first channel divided by `b`. */
  predicate RowScaled(row: seq<Vec2>, scaled: seq<Vec2>, b: real)
    requires b != 0.0
  {
    |scaled| == |row| && forall x :: 0 <= x < |row| ==> scaled[x].x == row[x].x / b
  }

  lemma DivideSum(a: real, c: real, b: real)
    requires b != 0.0
    ensures (a + c) / b == a / b + c / b
  {
  }

  lemma {:induction false} RowSumXScales(row: seq<Vec2>, scaled: seq<Vec2>, b: real)
    requires b != 0.0 && RowScaled(row, scaled, b)
    ensures RowSumX(scaled) == RowSumX(row) / b
  {
    if |row| > 0 {
      var n := |row| - 1;
      RowSumXScales(row[..n], scaled[..n], b);
      DivideSum(RowSumX(row[..n]), row[n].x, b);
    }
  }

  lemma {:induction false} SumXScales(g: Grid<Vec2>, scaled: Grid<Vec2>, b: real)
    requires b != 0.0 && |scaled| == |g|
    requires forall y :: 0 <= y < |g| ==> RowScaled(g[y], scaled[y], b)
    ensures SumX(scaled) == SumX(g) / b
  {
    if |g| > 0 {
      var n := |g| - 1;
      RowSumXScales(g[n], scaled[n], b);
      assert forall y :: 0 <= y < n ==> g[..n][y] == g[y] && scaled[..n][y] == scaled[y];
      SumXScales(g[..n], scaled[..n], b);
      DivideSum(SumX(g[..n]), RowSumX(g[n]), b);
    }
  }

  lemma ProductPositive(a: nat, b: nat)
    requires a > 0 && b > 0
    ensures a * b > 0
  {
    assert a * b == (a - 1) * b + b;
  }

  lemma MeanOfScaled(total: real, n: real, b: real)
    requires n > 0.0 && b == total / n && b != 0.0
    ensures (total / b) / n == 1.0
  {
    assert total == b * n;
  }

  /**
   * Dividing by the baseline makes it one: the normalised field has a mean
   * horizontal displacement of exactly one pixel.
   */
  lemma NormalisedMeanIsOne(g: Grid<Vec2>, d: Dims, b: real)
    requires Shaped(g, d) && d.rows > 0 && d.cols > 0
    requires b == MeanX(g, d) && b != 0.0
    ensures MeanX(Normalised(g, b, d), d) == 1.0
  {
    var scaled := Normalised(g, b, d);
    forall y | 0 <= y < |g|
      ensures RowScaled(g[y], scaled[y], b)
    {
      assert forall x :: 0 <= x < d.cols ==> scaled[y][x].x == g[y][x].x / b;
    }
    SumXScales(g, scaled, b);
    ProductPositive(d.rows, d.cols);
    MeanOfScaled(SumX(g), (d.rows * d.cols) as real, b);
  }

  /**
   * Entry (i, j) of the forward table: column 0 is the identity
   * `(0, i * rows / rows)`, and column j adds to column j - 1 the field
   * sampled where column j - 1 points.
   */
  function Forward(field: Grid<Vec2>, sample: Sampler, rows: nat, i: nat, j: nat): Vec2
    requires rows > 0
    decreases j
  {
    if j == 0 then Vec2(0.0, (i as real) * (rows as real) / (rows as real))
    else
      var p := Forward(field, sample, rows, i, j - 1);
      Add(p, sample(field, p))
  }

  /** Column 0 maps every row to itself. */
  lemma IdentityColumn(field: Grid<Vec2>, sample: Sampler, rows: nat, i: nat)
    requires rows > 0
    ensures Forward(field, sample, rows, i, 0) == Vec2(0.0, i as real)
  {
    assert (i as real) * (rows as real) / (rows as real) == i as real;
  }

  /**
   * Each column depends only on the previous one: two rows that agree in
   * column c agree in every later column.
   */
  lemma {:induction false} RowsThatMeetStayTogether(field: Grid<Vec2>, sample: Sampler, rows: nat, i1: nat, i2: nat, c: nat, j: nat)
    requires rows > 0 && c <= j
    requires Forward(field, sample, rows, i1, c) == Forward(field, sample, rows, i2, c)
    ensures Forward(field, sample, rows, i1, j) == Forward(field, sample, rows, i2, j)
    decreases j
  {
    if j > c {
      RowsThatMeetStayTogether(field, sample, rows, i1, i2, c, j - 1);
    }
  }

  /** A field of unit horizontal displacements rectifies to the identity grid `(j, i)`. */
  lemma {:induction false} UnitFieldIsIdentity(field: Grid<Vec2>, sample: Sampler, rows: nat, i: nat, j: nat)
    requires rows > 0
    requires forall p {:trigger sample(field, p)} :: sample(field, p) == Vec2(1.0, 0.0)
    ensures Forward(field, sample, rows, i, j) == Vec2(j as real, i as real)
    decreases j
  {
    if j == 0 {
      IdentityColumn(field, sample, rows, i);
    } else {
      UnitFieldIsIdentity(field, sample, rows, i, j - 1);
    }
  }

  /** Where the field always points right, every row of the table moves strictly right. */
  lemma {:induction false} ColumnsAdvance(field: Grid<Vec2>, sample: Sampler, rows: nat, i: nat, j1: nat, j2: nat)
    requires rows > 0 && j1 < j2
    requires forall p {:trigger sample(field, p)} :: sample(field, p).x > 0.0
    ensures Forward(field, sample, rows, i, j1).x < Forward(field, sample, rows, i, j2).x
    decreases j2
  {
    if j1 < j2 - 1 {
      ColumnsAdvance(field, sample, rows, i, j1, j2 - 1);
    }
  }

  /**
   * `buildRectification`: allocates the forward table, 30 columns wider
   * than the calibration maps, fills column 0 with the identity and then
   * every later column from the one before it. It returns the baseline;
   * the inverse table is neither read nor written.
   */
  method BuildRectification(bO2D: Grid<Vec2>, bE2D: Grid<Vec2>, d: Dims, sample: Sampler, invInd: array2<Vec2>)
    returns (baseline: real, tformInd: array2<Vec2>)
    requires Shaped(bO2D, d) && Shaped(bE2D, d) && d.rows > 0 && d.cols > 0
    requires MeanX(Difference(bO2D, bE2D, d), d) != 0.0
    ensures fresh(tformInd) && unchanged(invInd)
    ensures tformInd.Length0 == d.rows && tformInd.Length1 == d.cols + 30
    ensures baseline == MeanX(Difference(bO2D, bE2D, d), d)
    ensures forall i, j {:trigger tformInd[i, j]} :: 0 <= i < d.rows && 0 <= j < d.cols + 30 ==>
      tformInd[i, j] == Forward(Normalised(Difference(bO2D, bE2D, d), baseline, d), sample, d.rows, i, j)
  {
    var bO2E := Difference(bO2D, bE2D, d);
    baseline := MeanX(bO2E, d);
    var field := Normalised(bO2E, baseline, d);
    tformInd := new Vec2[d.rows, d.cols + 30]((_, _) => Zero);
    for i := 1 to d.rows
      invariant forall r {:trigger tformInd[r, 0]} :: 0 <= r < i ==> tformInd[r, 0] == Forward(field, sample, d.rows, r, 0)
    {
      tformInd[i, 0] := Vec2(0.0, (i as real) * (d.rows as real) / (d.rows as real));
    }
    for j := 1 to d.cols + 30
      invariant forall r, c {:trigger tformInd[r, c]} :: 0 <= r < d.rows && 0 <= c < j ==> tformInd[r, c] == Forward(field, sample, d.rows, r, c)
    {
      FillColumn(tformInd, field, sample, j);
    }
  }

  /**
   * Column j of the forward table from column j - 1: the field remapped
   * where column j - 1 points (`cv::remap`), added to column j - 1 (`cv::add`).
   */
  method FillColumn(tformInd: array2<Vec2>, field: Grid<Vec2>, sample: Sampler, j: int)
    modifies tformInd
    requires tformInd.Length0 > 0 && 1 <= j < tformInd.Length1
    requires forall r, c {:trigger tformInd[r, c]} :: 0 <= r < tformInd.Length0 && 0 <= c < j ==>
      tformInd[r, c] == Forward(field, sample, tformInd.Length0, r, c)
    ensures forall r, c {:trigger tformInd[r, c]} :: 0 <= r < tformInd.Length0 && 0 <= c <= j ==>
      tformInd[r, c] == Forward(field, sample, tformInd.Length0, r, c)
  {
    for i := 0 to tformInd.Length0
      invariant forall r, c {:trigger tformInd[r, c]} :: 0 <= r < tformInd.Length0 && 0 <= c < j ==>
        tformInd[r, c] == Forward(field, sample, tformInd.Length0, r, c)
      invariant forall r {:trigger tformInd[r, j]} :: 0 <= r < i ==> tformInd[r, j] == Forward(field, sample, tformInd.Length0, r, j)
    {
      var previous := tformInd[i, j - 1];
      var moved := sample(field, previous);
      tformInd[i, j] := Add(previous, moved);
    }
  }

  // ---------------------------------------------------------------------
  // The inverse table
  // ---------------------------------------------------------------------

  /** The two tables the scatter updates: the inverse map and, per cell, the best distance so far. */
  datatype Tables = Tables(inv: Grid<Vec2>, best: Grid<real>)

  predicate TablesShaped(s: Tables, invD: Dims, td: Dims)
  {
    Shaped(s.inv, invD) && Shaped(s.best, td)
  }

  /** The inverse map starts at (0, 0) everywhere and every best distance at 1. */
  function Initial(invD: Dims, td: Dims): (r: Tables)
    ensures TablesShaped(r, invD, td)
  {
    Tables(Fill(invD, Zero), Fill(td, 1.0))
  }

  /** Half the squared distance between a forward entry and cell (x, y). */
  function Sq(r: real): real
  {
    r * r
  }

  function HalfDist2(p: Vec2, x: int, y: int): real
  {
    (Sq(p.x - x as real) + Sq(p.y - y as real)) / 2.0
  }

  lemma SqNonNegative(r: real)
    ensures Sq(r) >= 0.0
  {
  }

  /** Moving at most one cell away from within half a cell never brings a point closer. */
  lemma SqNoSmaller(e: real, dx: int)
    requires -0.5 <= e <= 0.5 && -1 <= dx <= 1
    ensures Sq(e - dx as real) >= Sq(e)
  {
    assert Sq(e - dx as real) == Sq(e) - 2.0 * e * (dx as real) + (dx * dx) as real;
  }

  /**
   * The guard on the cell `(cx, cy)` a forward entry points at: it and its
   * 3x3 neighbourhood lie inside the inverse table, clear of row 0 and column 0.
   */
  predicate Targets(cx: int, cy: int, invD: Dims)
  {
    1 < cx < invD.cols - 1 && 1 < cy < invD.rows - 1
  }

  /** Neighbour k of the pointed cell, row by row from its upper-left corner. */
  function NeighbourX(cx: int, k: int): int
    requires 0 <= k
  {
    cx - 1 + k % 3
  }

  function NeighbourY(cy: int, k: int): int
    requires 0 <= k
  {
    cy - 1 + k / 3
  }

  function Set<T>(g: Grid<T>, y: int, x: int, v: T): Grid<T>
    requires 0 <= y < |g| && 0 <= x < |g[y]|
  {
    g[y := g[y][x := v]]
  }

  /** The tables fit the scatter: the best-distance table covers the inverse table. */
  predicate Fits(invD: Dims, td: Dims)
  {
    invD.rows <= td.rows && invD.cols <= td.cols
  }

  /**
   * Step k of the neighbourhood loop of source (i, j), whose forward entry is
   * p: neighbour k takes the source when its distance beats the best distance
   * of the pointed (centre) cell.
   */
  function Visit(s: Tables, invD: Dims, td: Dims, p: Vec2, i: int, j: int, k: int): (r: Tables)
    requires TablesShaped(s, invD, td) && Fits(invD, td)
    requires Targets(RoundNearest(p.x), RoundNearest(p.y), invD) && 0 <= k < 9
    ensures TablesShaped(r, invD, td)
  {
    var cx, cy := RoundNearest(p.x), RoundNearest(p.y);
    var x, y := NeighbourX(cx, k), NeighbourY(cy, k);
    var diff := HalfDist2(p, x, y);
    if diff < s.best[cy][cx] then Tables(Set(s.inv, y, x, Vec2(j as real, i as real)), Set(s.best, y, x, diff))
    else s
  }

  /** The first k steps of the neighbourhood loop. */
  function VisitUpTo(s: Tables, invD: Dims, td: Dims, p: Vec2, i: int, j: int, k: nat): (r: Tables)
    requires TablesShaped(s, invD, td) && Fits(invD, td)
    requires Targets(RoundNearest(p.x), RoundNearest(p.y), invD) && k <= 9
    ensures TablesShaped(r, invD, td)
  {
    if k == 0 then s else Visit(VisitUpTo(s, invD, td, p, i, j, k - 1), invD, td, p, i, j, k - 1)
  }

  /** Source (i, j) of the forward table: scattered only when its pointed cell passes the guard. */
  function ScatterSource(s: Tables, t: Grid<Vec2>, invD: Dims, td: Dims, i: int, j: int): (r: Tables)
    requires TablesShaped(s, invD, td) && Fits(invD, td) && Shaped(t, td) && InGrid(td, i, j)
    ensures TablesShaped(r, invD, td)
  {
    var p := t[i][j];
    if Targets(RoundNearest(p.x), RoundNearest(p.y), invD) then VisitUpTo(s, invD, td, p, i, j, 9) else s
  }

  /** One past the last row (column) the scatter visits: it skips the first and the last. */
  function LastRow(td: Dims): nat
  {
    if td.rows >= 2 then td.rows - 1 else 1
  }

  function LastCol(td: Dims): nat
  {
    if td.cols >= 2 then td.cols - 1 else 1
  }

  /** The tables after every source of rows 1 .. i - 1 and of row i, columns 1 .. j - 1. */
  function RowPrefix(t: Grid<Vec2>, invD: Dims, td: Dims, i: nat, j: nat): (r: Tables)
    requires Shaped(t, td) && Fits(invD, td)
    requires 1 <= i < LastRow(td) && 1 <= j <= LastCol(td)
    ensures TablesShaped(r, invD, td)
    decreases i, j
  {
    if j == 1 then RowsBefore(t, invD, td, i)
    else ScatterSource(RowPrefix(t, invD, td, i, j - 1), t, invD, td, i, j - 1)
  }

  /** The tables after every source of rows 1 .. i - 1, in row-major order. */
  function RowsBefore(t: Grid<Vec2>, invD: Dims, td: Dims, i: nat): (r: Tables)
    requires Shaped(t, td) && Fits(invD, td)
    requires 1 <= i <= LastRow(td)
    ensures TablesShaped(r, invD, td)
    decreases i, 0
  {
    if i == 1 then Initial(invD, td) else RowPrefix(t, invD, td, i - 1, LastCol(td))
  }

  /** The tables once every inner source has been scattered. */
  function ScatterAll(t: Grid<Vec2>, invD: Dims, td: Dims): (r: Tables)
    requires Shaped(t, td) && Fits(invD, td)
    ensures TablesShaped(r, invD, td)
  {
    RowsBefore(t, invD, td, LastRow(td))
  }

  // ---------------------------------------------------------------------
  // What the scatter keeps
  // ---------------------------------------------------------------------

  /** `v` is the coordinate `(j, i)` of an inner source of the forward table. */
  predicate IsSource(v: Vec2, td: Dims)
  {
    v == Vec2(v.x.Floor as real, v.y.Floor as real)
    && 1 <= v.x.Floor < td.cols - 1 && 1 <= v.y.Floor < td.rows - 1
  }

  /** A forward entry that passes the guard and points within one cell of (x, y). */
  predicate PointsNear(p: Vec2, y: int, x: int, invD: Dims)
  {
    var cx, cy := RoundNearest(p.x), RoundNearest(p.y);
    Targets(cx, cy, invD) && -1 <= x - cx <= 1 && -1 <= y - cy <= 1
  }

  /**
   * Cell (x, y) of the inverse map is matched exactly when its best distance
   * is below 1, and a matched cell holds an inner source that points next to
   * it, with that source's distance as its best distance.
   */
  ghost predicate CellMatched(s: Tables, t: Grid<Vec2>, invD: Dims, td: Dims, y: int, x: int)
    requires TablesShaped(s, invD, td) && Shaped(t, td) && InGrid(invD, y, x) && Fits(invD, td)
  {
    var v := s.inv[y][x];
    (v != Zero <==> s.best[y][x] < 1.0)
    && (v != Zero ==>
          IsSource(v, td)
          && PointsNear(t[v.y.Floor][v.x.Floor], y, x, invD)
          && s.best[y][x] == HalfDist2(t[v.y.Floor][v.x.Floor], x, y))
  }

  /** Every best distance lies in [0, 1], those outside the inverse map stay 1, and every cell is matched as above. */
  ghost predicate Consistent(s: Tables, t: Grid<Vec2>, invD: Dims, td: Dims)
    requires TablesShaped(s, invD, td) && Shaped(t, td) && Fits(invD, td)
  {
    (forall y, x :: InGrid(td, y, x) ==> 0.0 <= s.best[y][x] <= 1.0)
    && (forall y, x :: InGrid(td, y, x) && !InGrid(invD, y, x) ==> s.best[y][x] == 1.0)
    && (forall y, x :: InGrid(invD, y, x) ==> CellMatched(s, t, invD, td, y, x))
  }

  lemma InitialConsistent(t: Grid<Vec2>, invD: Dims, td: Dims)
    requires Shaped(t, td) && Fits(invD, td)
    ensures Consistent(Initial(invD, td), t, invD, td)
  {
  }

  lemma HalfDist2NonNegative(p: Vec2, x: int, y: int)
    ensures HalfDist2(p, x, y) >= 0.0
  {
    SqNonNegative(p.x - x as real);
    SqNonNegative(p.y - y as real);
  }

  /** One step of the neighbourhood loop keeps the tables consistent. */
  lemma VisitConsistent(s: Tables, t: Grid<Vec2>, invD: Dims, td: Dims, i: int, j: int, k: int)
    requires TablesShaped(s, invD, td) && Shaped(t, td) && Fits(invD, td)
    requires 1 <= i < td.rows - 1 && 1 <= j < td.cols - 1 && 0 <= k < 9
    requires Targets(RoundNearest(t[i][j].x), RoundNearest(t[i][j].y), invD)
    requires Consistent(s, t, invD, td)
    ensures Consistent(Visit(s, invD, td, t[i][j], i, j, k), t, invD, td)
  {
    var p := t[i][j];
    var cx, cy := RoundNearest(p.x), RoundNearest(p.y);
    var x, y := NeighbourX(cx, k), NeighbourY(cy, k);
    var diff := HalfDist2(p, x, y);
    var r := Visit(s, invD, td, p, i, j, k);
    if diff < s.best[cy][cx] {
      HalfDist2NonNegative(p, x, y);
      var v := Vec2(j as real, i as real);
      assert v.x.Floor == j && v.y.Floor == i;
      assert r.inv[y][x] == v && r.best[y][x] == diff;
      assert CellMatched(r, t, invD, td, y, x);
      forall y', x' | InGrid(invD, y', x')
        ensures CellMatched(r, t, invD, td, y', x')
      {
        if y' != y || x' != x {
          assert r.inv[y'][x'] == s.inv[y'][x'] && r.best[y'][x'] == s.best[y'][x'];
          assert CellMatched(s, t, invD, td, y', x');
        }
      }
    }
  }

  lemma {:induction false} VisitUpToConsistent(s: Tables, t: Grid<Vec2>, invD: Dims, td: Dims, i: int, j: int, k: nat)
    requires TablesShaped(s, invD, td) && Shaped(t, td) && Fits(invD, td)
    requires 1 <= i < td.rows - 1 && 1 <= j < td.cols - 1 && k <= 9
    requires Targets(RoundNearest(t[i][j].x), RoundNearest(t[i][j].y), invD)
    requires Consistent(s, t, invD, td)
    ensures Consistent(VisitUpTo(s, invD, td, t[i][j], i, j, k), t, invD, td)
  {
    if k > 0 {
      VisitUpToConsistent(s, t, invD, td, i, j, k - 1);
      VisitConsistent(VisitUpTo(s, invD, td, t[i][j], i, j, k - 1), t, invD, td, i, j, k - 1);
    }
  }

  lemma {:induction false} RowPrefixConsistent(t: Grid<Vec2>, invD: Dims, td: Dims, i: nat, j: nat)
    requires Shaped(t, td) && Fits(invD, td)
    requires 1 <= i < LastRow(td) && 1 <= j <= LastCol(td)
    ensures Consistent(RowPrefix(t, invD, td, i, j), t, invD, td)
    decreases i, j
  {
    if j == 1 {
      RowsBeforeConsistent(t, invD, td, i);
    } else {
      RowPrefixConsistent(t, invD, td, i, j - 1);
      var p := t[i][j - 1];
      if Targets(RoundNearest(p.x), RoundNearest(p.y), invD) {
        VisitUpToConsistent(RowPrefix(t, invD, td, i, j - 1), t, invD, td, i, j - 1, 9);
      }
    }
  }

  lemma {:induction false} RowsBeforeConsistent(t: Grid<Vec2>, invD: Dims, td: Dims, i: nat)
    requires Shaped(t, td) && Fits(invD, td)
    requires 1 <= i <= LastRow(td)
    ensures Consistent(RowsBefore(t, invD, td, i), t, invD, td)
    decreases i, 0
  {
    if i == 1 {
      InitialConsistent(t, invD, td);
    } else {
      RowPrefixConsistent(t, invD, td, i - 1, LastCol(td));
    }
  }

  /**
   * What the finished scatter guarantees about cell (x, y) of the inverse
   * map: row 0 and column 0 are never written; its best distance is in
   * [0, 1]; it is matched (not (0, 0)) exactly when that distance is below 1;
   * and a matched cell holds the coordinate (j, i) of an inner source whose
   * forward entry rounds to within one cell of it, at that source's distance.
   */
  lemma ScatterTables(t: Grid<Vec2>, invD: Dims, td: Dims, s: Tables, y: int, x: int)
    requires Shaped(t, td) && Fits(invD, td) && InGrid(invD, y, x)
    requires s == ScatterAll(t, invD, td)
    ensures y == 0 || x == 0 ==> s.inv[y][x] == Zero
    ensures 0.0 <= s.best[y][x] <= 1.0
    ensures s.inv[y][x] != Zero <==> s.best[y][x] < 1.0
    ensures s.inv[y][x] != Zero ==>
      IsSource(s.inv[y][x], td)
      && PointsNear(t[s.inv[y][x].y.Floor][s.inv[y][x].x.Floor], y, x, invD)
      && s.best[y][x] == HalfDist2(t[s.inv[y][x].y.Floor][s.inv[y][x].x.Floor], x, y)
  {
    RowsBeforeConsistent(t, invD, td, LastRow(td));
    assert CellMatched(s, t, invD, td, y, x);
  }

  /**
   * A source either leaves a cell of the inverse map as it was or writes its
   * own coordinate (j, i) there.
   */
  lemma {:induction false} VisitUpToWrites(s: Tables, invD: Dims, td: Dims, p: Vec2, i: int, j: int, k: nat, y: int, x: int)
    requires TablesShaped(s, invD, td) && Fits(invD, td)
    requires Targets(RoundNearest(p.x), RoundNearest(p.y), invD) && k <= 9 && InGrid(invD, y, x)
    ensures VisitUpTo(s, invD, td, p, i, j, k).inv[y][x] in {s.inv[y][x], Vec2(j as real, i as real)}
  {
    if k > 0 {
      VisitUpToWrites(s, invD, td, p, i, j, k - 1, y, x);
    }
  }

  lemma ScatterSourceWrites(s: Tables, t: Grid<Vec2>, invD: Dims, td: Dims, i: int, j: int, y: int, x: int)
    requires TablesShaped(s, invD, td) && Fits(invD, td) && Shaped(t, td) && InGrid(td, i, j) && InGrid(invD, y, x)
    ensures ScatterSource(s, t, invD, td, i, j).inv[y][x] in {s.inv[y][x], Vec2(j as real, i as real)}
  {
    var p := t[i][j];
    if Targets(RoundNearest(p.x), RoundNearest(p.y), invD) {
      VisitUpToWrites(s, invD, td, p, i, j, 9, y, x);
    }
  }

  /** The prefix `RowPrefix(i1, j1)` contains source (i, j): it comes later in row-major order. */
  predicate Includes(i1: int, j1: int, i: int, j: int)
  {
    i1 > i || (i1 == i && j1 > j)
  }

  /** The prefix `RowPrefix(i1, j1)` is no longer than `RowPrefix(i2, j2)`. */
  predicate PrefixWithin(i1: int, j1: int, i2: int, j2: int)
  {
    i1 < i2 || (i1 == i2 && j1 <= j2)
  }

  /** Before source (i, j) is scattered no cell holds its coordinate: only that source writes it. */
  lemma {:induction false} NotYetWritten(t: Grid<Vec2>, invD: Dims, td: Dims, i1: nat, j1: nat, i: int, j: int, y: int, x: int)
    requires Shaped(t, td) && Fits(invD, td) && InGrid(invD, y, x)
    requires 1 <= i1 < LastRow(td) && 1 <= j1 <= LastCol(td)
    requires j >= 1 && !Includes(i1, j1, i, j)
    ensures RowPrefix(t, invD, td, i1, j1).inv[y][x] != Vec2(j as real, i as real)
    decreases i1, j1
  {
    if j1 == 1 {
      if i1 > 1 {
        NotYetWritten(t, invD, td, i1 - 1, LastCol(td), i, j, y, x);
      }
    } else {
      NotYetWritten(t, invD, td, i1, j1 - 1, i, j, y, x);
      ScatterSourceWrites(RowPrefix(t, invD, td, i1, j1 - 1), t, invD, td, i1, j1 - 1, y, x);
    }
  }

  /**
   * Once prefix (i2, j2), which contains source (i, j), still holds that
   * source's coordinate at a cell, so does every prefix between source
   * (i, j) and it: no source scattered in between wrote the cell.
   */
  lemma {:induction false} KeptSince(t: Grid<Vec2>, invD: Dims, td: Dims, i2: nat, j2: nat, i: int, j: int, y: int, x: int)
    requires Shaped(t, td) && Fits(invD, td) && InGrid(invD, y, x)
    requires 1 <= i2 < LastRow(td) && 1 <= j2 <= LastCol(td)
    requires 1 <= i && 1 <= j < LastCol(td) && Includes(i2, j2, i, j)
    requires RowPrefix(t, invD, td, i2, j2).inv[y][x] == Vec2(j as real, i as real)
    ensures forall i1, j1 {:trigger RowPrefix(t, invD, td, i1, j1)} ::
      1 <= i1 < LastRow(td) && 1 <= j1 <= LastCol(td) && Includes(i1, j1, i, j) && PrefixWithin(i1, j1, i2, j2) ==>
        RowPrefix(t, invD, td, i1, j1).inv[y][x] == Vec2(j as real, i as real)
    decreases i2, j2
  {
    if j2 == 1 {
      KeptSince(t, invD, td, i2 - 1, LastCol(td), i, j, y, x);
    } else if i2 == i && j2 - 1 == j {
    } else {
      var prev := RowPrefix(t, invD, td, i2, j2 - 1);
      ScatterSourceWrites(prev, t, invD, td, i2, j2 - 1, y, x);
      assert Vec2((j2 - 1) as real, i2 as real) != Vec2(j as real, i as real);
      KeptSince(t, invD, td, i2, j2 - 1, i, j, y, x);
    }
  }

  /**
   * The last writer wins: when the finished scatter holds the coordinate
   * (j, i) at a cell, source (i, j) is an inner source, the cell did not
   * hold it before that source was scattered, it did right after, and no
   * later source in row-major order changed it.
   */
  lemma LastWriterWins(t: Grid<Vec2>, invD: Dims, td: Dims, y: int, x: int, i: int, j: int)
    requires Shaped(t, td) && Fits(invD, td) && InGrid(invD, y, x)
    requires ScatterAll(t, invD, td).inv[y][x] == Vec2(j as real, i as real) != Zero
    ensures 1 <= i < LastRow(td) && 1 <= j < LastCol(td)
    ensures RowPrefix(t, invD, td, i, j).inv[y][x] != Vec2(j as real, i as real)
    ensures RowPrefix(t, invD, td, i, j + 1).inv[y][x] == Vec2(j as real, i as real)
    ensures forall i1, j1 {:trigger RowPrefix(t, invD, td, i1, j1)} ::
      1 <= i1 < LastRow(td) && 1 <= j1 <= LastCol(td) && Includes(i1, j1, i, j) ==>
        RowPrefix(t, invD, td, i1, j1).inv[y][x] == Vec2(j as real, i as real)
  {
    var v := Vec2(j as real, i as real);
    ScatterTables(t, invD, td, ScatterAll(t, invD, td), y, x);
    assert v.x.Floor == j && v.y.Floor == i;
    NotYetWritten(t, invD, td, i, j, i, j, y, x);
    KeptSince(t, invD, td, LastRow(td) - 1, LastCol(td), i, j, y, x);
  }

  /** A rounding error of at most one half squares to at most one quarter. */
  lemma SqOfHalf(e: real)
    requires -0.5 <= e <= 0.5
    ensures Sq(e) <= 0.25
  {
    if e >= 0.0 {
      assert e * e <= 0.5 * e;
    } else {
      assert e * e <= -0.5 * e;
    }
  }

  /** A forward entry is within distance 1/4 of the cell it rounds to. */
  lemma CentreIsClose(p: Vec2)
    ensures HalfDist2(p, RoundNearest(p.x), RoundNearest(p.y)) <= 0.25
  {
    RoundNearestClose(p.x);
    RoundNearestClose(p.y);
    SqOfHalf(p.x - RoundNearest(p.x) as real);
    SqOfHalf(p.y - RoundNearest(p.y) as real);
  }

  /** Step 4 of source (i, j) leaves its pointed cell matched: either it writes (j, i), or the cell's best distance is already at most 1/4, so it was matched before. */
  lemma CentreMatchedAfterStep4(s: Tables, t: Grid<Vec2>, invD: Dims, td: Dims, i: int, j: int)
    requires TablesShaped(s, invD, td) && Shaped(t, td) && Fits(invD, td)
    requires 1 <= i < td.rows - 1 && 1 <= j < td.cols - 1
    requires Targets(RoundNearest(t[i][j].x), RoundNearest(t[i][j].y), invD)
    requires Consistent(s, t, invD, td)
    ensures VisitUpTo(s, invD, td, t[i][j], i, j, 5).inv[RoundNearest(t[i][j].y)][RoundNearest(t[i][j].x)] != Zero
  {
    var p := t[i][j];
    var cx, cy := RoundNearest(p.x), RoundNearest(p.y);
    var s4 := VisitUpTo(s, invD, td, p, i, j, 4);
    VisitUpToConsistent(s, t, invD, td, i, j, 4);
    assert CellMatched(s4, t, invD, td, cy, cx);
    CentreIsClose(p);
    assert NeighbourX(cx, 4) == cx && NeighbourY(cy, 4) == cy;
  }

  /** Later steps of the same source keep a matched cell matched: they only write (j, i), which is not (0, 0). */
  lemma {:induction false} VisitKeepsMatched(s: Tables, invD: Dims, td: Dims, p: Vec2, i: int, j: int, k: nat, y: int, x: int)
    requires TablesShaped(s, invD, td) && Fits(invD, td)
    requires Targets(RoundNearest(p.x), RoundNearest(p.y), invD) && 5 <= k <= 9 && InGrid(invD, y, x) && 1 <= j
    requires VisitUpTo(s, invD, td, p, i, j, 5).inv[y][x] != Zero
    ensures VisitUpTo(s, invD, td, p, i, j, k).inv[y][x] != Zero
  {
    if k > 5 {
      VisitKeepsMatched(s, invD, td, p, i, j, k - 1, y, x);
    }
  }

  /** Once a cell is matched after source (i, j), every later prefix of the scatter keeps it matched. */
  lemma {:induction false} StaysMatched(t: Grid<Vec2>, invD: Dims, td: Dims, i2: nat, j2: nat, i: nat, j: nat, y: int, x: int)
    requires Shaped(t, td) && Fits(invD, td) && InGrid(invD, y, x)
    requires 1 <= i2 < LastRow(td) && 1 <= j2 <= LastCol(td)
    requires 1 <= i && 1 <= j < LastCol(td) && Includes(i2, j2, i, j)
    requires RowPrefix(t, invD, td, i, j + 1).inv[y][x] != Zero
    ensures RowPrefix(t, invD, td, i2, j2).inv[y][x] != Zero
    decreases i2, j2
  {
    if j2 == 1 {
      StaysMatched(t, invD, td, i2 - 1, LastCol(td), i, j, y, x);
    } else if Includes(i2, j2 - 1, i, j) {
      StaysMatched(t, invD, td, i2, j2 - 1, i, j, y, x);
      ScatterSourceWrites(RowPrefix(t, invD, td, i2, j2 - 1), t, invD, td, i2, j2 - 1, y, x);
    }
  }

  /**
   * The 3x3 scatter fills in every cell a source points at: when inner
   * source (i, j) passes the guard, the cell its forward entry rounds to is
   * matched in the finished inverse table.
   */
  lemma PointedCellMatched(t: Grid<Vec2>, invD: Dims, td: Dims, i: nat, j: nat)
    requires Shaped(t, td) && Fits(invD, td)
    requires 1 <= i < td.rows - 1 && 1 <= j < td.cols - 1
    requires Targets(RoundNearest(t[i][j].x), RoundNearest(t[i][j].y), invD)
    ensures ScatterAll(t, invD, td).inv[RoundNearest(t[i][j].y)][RoundNearest(t[i][j].x)] != Zero
    ensures ScatterAll(t, invD, td).best[RoundNearest(t[i][j].y)][RoundNearest(t[i][j].x)] < 1.0
  {
    var p := t[i][j];
    var cx, cy := RoundNearest(p.x), RoundNearest(p.y);
    var before := RowPrefix(t, invD, td, i, j);
    RowPrefixConsistent(t, invD, td, i, j);
    CentreMatchedAfterStep4(before, t, invD, td, i, j);
    VisitKeepsMatched(before, invD, td, p, i, j, 9, cy, cx);
    assert RowPrefix(t, invD, td, i, j + 1) == ScatterSource(before, t, invD, td, i, j);
    StaysMatched(t, invD, td, LastRow(td) - 1, LastCol(td), i, j, cy, cx);
    ScatterTables(t, invD, td, ScatterAll(t, invD, td), cy, cx);
  }

  /**
   * No neighbour is closer to a forward entry than the cell it points at:
   * rounding leaves the entry within half a cell of that cell.
   */
  lemma NeighbourNoCloser(p: Vec2, k: int)
    requires 0 <= k < 9
    ensures HalfDist2(p, NeighbourX(RoundNearest(p.x), k), NeighbourY(RoundNearest(p.y), k))
            >= HalfDist2(p, RoundNearest(p.x), RoundNearest(p.y))
  {
    RoundNearestClose(p.x);
    RoundNearestClose(p.y);
    var cx, cy := RoundNearest(p.x), RoundNearest(p.y);
    var ex, ey := p.x - cx as real, p.y - cy as real;
    var x, y := NeighbourX(cx, k), NeighbourY(cy, k);
    assert -1 <= x - cx <= 1 && -1 <= y - cy <= 1;
    SqNoSmaller(ex, x - cx);
    SqNoSmaller(ey, y - cy);
    assert p.x - x as real == ex - (x - cx) as real;
    assert p.y - y as real == ey - (y - cy) as real;
  }

  /**
   * The comparison is against the best distance of the pointed cell, which
   * step 4 (the centre itself) may lower: a source that wins its centre cell
   * writes none of the neighbours after it, steps 5 to 8.
   */
  lemma CentreWinEndsSource(s: Tables, invD: Dims, td: Dims, p: Vec2, i: int, j: int)
    requires TablesShaped(s, invD, td) && Fits(invD, td)
    requires Targets(RoundNearest(p.x), RoundNearest(p.y), invD)
    requires HalfDist2(p, RoundNearest(p.x), RoundNearest(p.y))
             < VisitUpTo(s, invD, td, p, i, j, 4).best[RoundNearest(p.y)][RoundNearest(p.x)]
    ensures VisitUpTo(s, invD, td, p, i, j, 9) == VisitUpTo(s, invD, td, p, i, j, 5)
  {
    var cx, cy := RoundNearest(p.x), RoundNearest(p.y);
    var r5 := VisitUpTo(s, invD, td, p, i, j, 5);
    assert NeighbourX(cx, 4) == cx && NeighbourY(cy, 4) == cy;
    assert r5.best[cy][cx] == HalfDist2(p, cx, cy);
    NeighbourNoCloser(p, 5);
    assert VisitUpTo(s, invD, td, p, i, j, 6) == r5;
    NeighbourNoCloser(p, 6);
    assert VisitUpTo(s, invD, td, p, i, j, 7) == r5;
    NeighbourNoCloser(p, 7);
    assert VisitUpTo(s, invD, td, p, i, j, 8) == r5;
    NeighbourNoCloser(p, 8);
  }

  /** The two arrays hold the tables `s`. */
  ghost predicate Mirrors(inv: array2<Vec2>, best: array2<real>, s: Tables, invD: Dims, td: Dims)
    reads inv, best
  {
    TablesShaped(s, invD, td)
    && inv.Length0 == invD.rows && inv.Length1 == invD.cols
    && best.Length0 == td.rows && best.Length1 == td.cols
    && (forall y, x :: InGrid(invD, y, x) ==> inv[y, x] == s.inv[y][x])
    && (forall y, x :: InGrid(td, y, x) ==> best[y, x] == s.best[y][x])
  }

  /** Step k of the neighbourhood loop of source (i, j), in place. */
  method VisitStep(inv: array2<Vec2>, best: array2<real>, invD: Dims, td: Dims, p: Vec2, i: int, j: int, k: int, ghost s: Tables)
    returns (ghost r: Tables)
    modifies inv, best
    requires Mirrors(inv, best, s, invD, td) && Fits(invD, td)
    requires Targets(RoundNearest(p.x), RoundNearest(p.y), invD) && 0 <= k < 9
    ensures r == Visit(s, invD, td, p, i, j, k) && Mirrors(inv, best, r, invD, td)
  {
    var cx, cy := RoundNearest(p.x), RoundNearest(p.y);
    var x, y := cx - 1 + k % 3, cy - 1 + k / 3;
    var diff := HalfDist2(p, x, y);
    if diff < best[cy, cx] {
      var v := Vec2(j as real, i as real);
      best[y, x] := diff;
      inv[y, x] := v;
      r := Tables(Set(s.inv, y, x, v), Set(s.best, y, x, diff));
      assert forall y', x' :: InGrid(invD, y', x') ==> inv[y', x'] == r.inv[y'][x'];
      assert forall y', x' :: InGrid(td, y', x') ==> best[y', x'] == r.best[y'][x'];
    } else {
      r := s;
    }
  }

  /** The neighbourhood loop of source (i, j), in place. */
  method VisitNeighbours(inv: array2<Vec2>, best: array2<real>, invD: Dims, td: Dims, p: Vec2, i: int, j: int, ghost s: Tables)
    returns (ghost r: Tables)
    modifies inv, best
    requires Mirrors(inv, best, s, invD, td) && Fits(invD, td)
    requires Targets(RoundNearest(p.x), RoundNearest(p.y), invD)
    ensures r == VisitUpTo(s, invD, td, p, i, j, 9) && Mirrors(inv, best, r, invD, td)
  {
    r := s;
    for k := 0 to 9
      invariant r == VisitUpTo(s, invD, td, p, i, j, k) && Mirrors(inv, best, r, invD, td)
    {
      r := VisitStep(inv, best, invD, td, p, i, j, k, r);
    }
  }

  /** Source (i, j) of the scatter loop, in place. */
  method ScatterSourceInPlace(inv: array2<Vec2>, best: array2<real>, t: Grid<Vec2>, invD: Dims, td: Dims, i: int, j: int, ghost s: Tables)
    returns (ghost r: Tables)
    modifies inv, best
    requires Shaped(t, td) && Fits(invD, td) && InGrid(td, i, j)
    requires Mirrors(inv, best, s, invD, td)
    ensures r == ScatterSource(s, t, invD, td, i, j) && Mirrors(inv, best, r, invD, td)
  {
    var p := t[i][j];
    var cx, cy := RoundNearest(p.x), RoundNearest(p.y);
    if cx > 1 && cy > 1 && cx < invD.cols - 1 && cy < invD.rows - 1 {
      r := VisitNeighbours(inv, best, invD, td, p, i, j, s);
    } else {
      r := s;
    }
  }

  /** Row i of the scatter loop, in place. */
  method ScatterRow(inv: array2<Vec2>, best: array2<real>, t: Grid<Vec2>, invD: Dims, td: Dims, i: int, ghost s: Tables)
    returns (ghost r: Tables)
    modifies inv, best
    requires Shaped(t, td) && Fits(invD, td) && 1 <= i < LastRow(td)
    requires s == RowsBefore(t, invD, td, i) && Mirrors(inv, best, s, invD, td)
    ensures r == RowsBefore(t, invD, td, i + 1) && Mirrors(inv, best, r, invD, td)
  {
    r := s;
    var j := 1;
    while j < td.cols - 1
      invariant 1 <= j <= LastCol(td)
      invariant r == RowPrefix(t, invD, td, i, j) && Mirrors(inv, best, r, invD, td)
    {
      r := ScatterSourceInPlace(inv, best, t, invD, td, i, j, r);
      j := j + 1;
    }
  }

  /**
   * The scatter loop of `reverseRectification` over the enlarged forward
   * table `t`: every inner source (i, j) whose rounded entry passes the guard
   * offers itself to the 3x3 neighbourhood of that cell.
   */
  method Scatter(t: Grid<Vec2>, invD: Dims, td: Dims) returns (inv: array2<Vec2>, best: array2<real>)
    requires Shaped(t, td) && Fits(invD, td)
    ensures fresh(inv) && fresh(best)
    ensures Mirrors(inv, best, ScatterAll(t, invD, td), invD, td)
  {
    inv := new Vec2[invD.rows, invD.cols]((_, _) => Zero);
    best := new real[td.rows, td.cols]((_, _) => 1.0);
    ghost var s := Initial(invD, td);
    var i := 1;
    while i < td.rows - 1
      invariant 1 <= i <= LastRow(td)
      invariant s == RowsBefore(t, invD, td, i) && Mirrors(inv, best, s, invD, td)
    {
      s := ScatterRow(inv, best, t, invD, td, i, s);
      i := i + 1;
    }
  }

  // ---------------------------------------------------------------------
  // reverseRectification
  // ---------------------------------------------------------------------

  /**
   * `cv::resize` to a given size. The interpolation is a parameter of the
   * model; only the size of its result is fixed.
   */
  type Resizer = (Grid<Vec2>, Dims) -> Grid<Vec2>

  ghost predicate ResizesTo(resize: Resizer)
  {
    forall g, d {:trigger resize(g, d)} :: Shaped(resize(g, d), d)
  }

  /** Both channels multiplied by `f` (`cv::multiply` by a scalar). */
  function ScaleEntries(g: Grid<Vec2>, f: real, d: Dims): (r: Grid<Vec2>)
    requires Shaped(g, d)
    ensures Shaped(r, d)
    ensures forall y, x {:trigger r[y][x]} :: InGrid(d, y, x) ==> r[y][x] == Vec2(g[y][x].x * f, g[y][x].y * f)
  {
    seq(d.rows, y requires 0 <= y < d.rows =>
      seq(d.cols, x requires 0 <= x < d.cols => Vec2(g[y][x].x * f, g[y][x].y * f)))
  }

  /** `cv::subtract(invInd, cv::Scalar(1, 1), invInd)`. */
  function ShiftBack(g: Grid<Vec2>, d: Dims): (r: Grid<Vec2>)
    requires Shaped(g, d)
    ensures Shaped(r, d)
    ensures forall y, x {:trigger r[y][x]} :: InGrid(d, y, x) ==> r[y][x] == Vec2(g[y][x].x - 1.0, g[y][x].y - 1.0)
  {
    seq(d.rows, y requires 0 <= y < d.rows =>
      seq(d.cols, x requires 0 <= x < d.cols => Vec2(g[y][x].x - 1.0, g[y][x].y - 1.0)))
  }

  /** The size of `cv::resize(src, dst, cv::Size(), scale, scale)`: each side times the scale, rounded. */
  function Enlarged(d: Dims, scale: real): Dims
    requires scale > 0.0
  {
    Dims(RoundNearest(d.rows as real * scale), RoundNearest(d.cols as real * scale))
  }

  /** `cv::Size(invInd.cols * scale, invInd.rows * scale)`: each side times the scale, truncated. */
  function ScatterSize(d: Dims, scale: real): Dims
    requires scale > 0.0
  {
    Dims((d.rows as real * scale).Floor, (d.cols as real * scale).Floor)
  }

  function Cells(a: array2<Vec2>): (r: Grid<Vec2>)
    reads a
    ensures Shaped(r, Dims(a.Length0, a.Length1))
    ensures forall y, x {:trigger r[y][x]} :: InGrid(Dims(a.Length0, a.Length1), y, x) ==> r[y][x] == a[y, x]
  {
    seq(a.Length0, y requires 0 <= y < a.Length0 reads a =>
      seq(a.Length1, x requires 0 <= x < a.Length1 reads a => a[y, x]))
  }

  /**
   * `reverseRectification`: the forward table is enlarged by `scale` and its
   * entries multiplied by `scale`; the scatter fills an inverse map of the
   * enlarged inverse size; that map is resized back to the inverse size, its
   * entries multiplied by 1 / scale and shifted by (-1, -1).
   */
  method ReverseRectification(tformInd: Grid<Vec2>, td: Dims, invD: Dims, scale: real, resize: Resizer)
    returns (invInd: Grid<Vec2>)
    requires Shaped(tformInd, td) && scale > 0.0 && ResizesTo(resize)
    requires Fits(ScatterSize(invD, scale), Enlarged(td, scale))
    ensures Shaped(invInd, invD)
    ensures forall y, x {:trigger invInd[y][x]} :: InGrid(invD, y, x) ==>
      var q := resize(ScatterAll(ScaleEntries(resize(tformInd, Enlarged(td, scale)), scale, Enlarged(td, scale)),
                                 ScatterSize(invD, scale), Enlarged(td, scale)).inv, invD)[y][x];
      invInd[y][x] == Vec2(q.x * (1.0 / scale) - 1.0, q.y * (1.0 / scale) - 1.0)
  {
    var gd := Enlarged(td, scale);
    var greater := ScaleEntries(resize(tformInd, gd), scale, gd);
    var sd := ScatterSize(invD, scale);
    var invMat, bestDiff := Scatter(greater, sd, gd);
    ghost var s := ScatterAll(greater, sd, gd);
    var scattered := Cells(invMat);
    assert scattered == s.inv by {
      forall y | 0 <= y < sd.rows
        ensures scattered[y] == s.inv[y]
      {
        assert forall x :: 0 <= x < sd.cols ==> scattered[y][x] == s.inv[y][x];
      }
    }
    var back := resize(scattered, invD);
    invInd := ShiftBack(ScaleEntries(back, 1.0 / scale, invD), invD);
  }
}
