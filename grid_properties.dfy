/**
 * Properties that relate the operations of the grid data set to each
 * other, for grids whose axes are uniformly spaced (the grids the lookup
 * and the interpolation are written for).
 */
module GridProperties {
  import opened Wrappers
  import opened GridIndex
  import opened Grid

  /** A grid the point queries apply to, with both axes uniformly spaced. */
  predicate UniformGrid(g: GridData)
  {
    g.Valid() && Uniform(g.x) && Uniform(g.y)
  }

  /** Every sample that is present lies in [lo, hi]. */
  predicate SamplesWithin(g: GridData, lo: real, hi: real)
  {
    forall i, j :: 0 <= i < |g.data| && 0 <= j < |g.data[i]| && g.data[i][j].Some? ==>
      lo <= g.data[i][j].value <= hi
  }

  // ---------------------------------------------------------------------
  // Helpers about the offset of a point inside its cell.

  /** At grid line `k` the offset inside the chosen cell is 0, or 1 on the last line. */
  lemma NodeOffset(a: seq<real>, k: nat)
    requires Uniform(a) && k < |a|
    ensures a[0] <= a[k] <= a[|a| - 1]
    ensures CellIndex(a, a[k]) == Min(k, |a| - 2) && Offset(a, a[k]) == (if k <= |a| - 2 then 0.0 else 1.0)
  {
    var h := a[1] - a[0];
    UniformBounds(a, k);
    CellIndexAtNode(a, k);
    if k == |a| - 1 {
      UniformStep(a, k - 1);
      DivSelf(h);
    } else {
      DivZero(h);
    }
  }

  /** Inside the chosen cell the offset of a point is between 0 and 1. */
  lemma OffsetInUnit(a: seq<real>, v: real)
    requires Uniform(a) && a[0] <= v <= a[|a| - 1]
    ensures 0.0 <= Offset(a, v) <= 1.0
  {
    var h := a[1] - a[0];
    var c := CellIndex(a, v);
    CellIndexBrackets(a, v);
    UniformStep(a, c);
    assert 0.0 <= v - a[c] <= h;
    DivLe(0.0, v - a[c], h);
    DivLe(v - a[c], h, h);
    DivZero(h);
    DivSelf(h);
  }

  /** Adding two lower bounds whose sum is `lo`. */
  lemma SumAbove(a: real, b: real, c: real, d: real, lo: real)
    requires a <= b && c <= d && a + c == lo
    ensures lo <= b + d
  {
  }

  /** Adding two upper bounds whose sum is `hi`. */
  lemma SumBelow(a: real, b: real, c: real, d: real, hi: real)
    requires b <= a && d <= c && a + c == hi
    ensures b + d <= hi
  {
  }

  lemma ScaleLe(h: real, p: real, q: real)
    requires p <= q && 0.0 <= h
    ensures h * p <= h * q
  {
  }

  lemma Split(t: real, v: real)
    ensures (1.0 - t) * v + t * v == v
  {
  }

  /** Linear interpolation from `p` at t = 0 to `q` at t = 1. */
  function Lerp(p: real, q: real, t: real): real
  {
    (1.0 - t) * p + t * q
  }

  lemma LerpAbove(p: real, q: real, t: real, lo: real)
    requires 0.0 <= t <= 1.0 && lo <= p && lo <= q
    ensures lo <= Lerp(p, q, t)
  {
    ScaleLe(1.0 - t, lo, p);
    ScaleLe(t, lo, q);
    Split(t, lo);
    SumAbove((1.0 - t) * lo, (1.0 - t) * p, t * lo, t * q, lo);
  }

  lemma LerpBelow(p: real, q: real, t: real, hi: real)
    requires 0.0 <= t <= 1.0 && p <= hi && q <= hi
    ensures Lerp(p, q, t) <= hi
  {
    ScaleLe(1.0 - t, p, hi);
    ScaleLe(t, q, hi);
    Split(t, hi);
    SumBelow((1.0 - t) * hi, (1.0 - t) * p, t * hi, t * q, hi);
  }

  lemma LerpWithin(p: real, q: real, t: real, lo: real, hi: real)
    requires 0.0 <= t <= 1.0 && lo <= p <= hi && lo <= q <= hi
    ensures lo <= Lerp(p, q, t) <= hi
  {
    LerpAbove(p, q, t, lo);
    LerpBelow(p, q, t, hi);
  }

  /** The blend is a convex combination of the corners, so it stays within their range. */
  lemma BlendWithin(q00: real, q01: real, q10: real, q11: real, ax: real, ay: real, lo: real, hi: real)
    requires 0.0 <= ax <= 1.0 && 0.0 <= ay <= 1.0
    requires lo <= q00 <= hi && lo <= q01 <= hi && lo <= q10 <= hi && lo <= q11 <= hi
    ensures lo <= Blend(q00, q01, q10, q11, ax, ay) <= hi
  {
    var bottom := Lerp(q00, q01, ax);
    var top := Lerp(q10, q11, ax);
    LerpWithin(q00, q01, ax, lo, hi);
    LerpWithin(q10, q11, ax, lo, hi);
    LerpWithin(bottom, top, ay, lo, hi);
    assert Blend(q00, q01, q10, q11, ax, ay) == Lerp(bottom, top, ay);
  }

  // ---------------------------------------------------------------------
  // Evaluation.

  /** At a corner of the unit square the blend is that corner's sample. */
  lemma BlendAtCorners(q00: real, q01: real, q10: real, q11: real)
    ensures Blend(q00, q01, q10, q11, 0.0, 0.0) == q00 && Blend(q00, q01, q10, q11, 1.0, 0.0) == q01
    ensures Blend(q00, q01, q10, q11, 0.0, 1.0) == q10 && Blend(q00, q01, q10, q11, 1.0, 1.0) == q11
  {
  }

  /** On the bottom and the top edge of the unit square the blend is linear along the edge. */
  lemma BlendOnRow(q00: real, q01: real, q10: real, q11: real, t: real)
    ensures Blend(q00, q01, q10, q11, t, 0.0) == Lerp(q00, q01, t)
    ensures Blend(q00, q01, q10, q11, t, 1.0) == Lerp(q10, q11, t)
  {
  }

  /** On the left and the right edge of the unit square the blend is linear along the edge. */
  lemma BlendOnColumn(q00: real, q01: real, q10: real, q11: real, t: real)
    ensures Blend(q00, q01, q10, q11, 0.0, t) == Lerp(q00, q10, t)
    ensures Blend(q00, q01, q10, q11, 1.0, t) == Lerp(q01, q11, t)
  {
  }

  /** The blend over cell (ci, cj) at a corner of the cell is that corner's sample. */
  lemma CellAtCorner(q: Samples, ci: nat, cj: nat, i: nat, j: nat, ax: real, ay: real)
    requires HasCell(q, ci, cj) && !IsMissing(q, ci, cj)
    requires (i == ci && ay == 0.0) || (i == ci + 1 && ay == 1.0)
    requires (j == cj && ax == 0.0) || (j == cj + 1 && ax == 1.0)
    ensures q[i][j] == Some(CellBlend(q, ci, cj, ax, ay))
  {
    BlendAtCorners(q[ci][cj].value, q[ci][cj + 1].value, q[ci + 1][cj].value, q[ci + 1][cj + 1].value);
  }

  /** The blend over cell (ci, cj) on its bottom or top row is linear along that row. */
  lemma CellOnRow(q: Samples, ci: nat, cj: nat, i: nat, t: real, ay: real)
    requires HasCell(q, ci, cj) && !IsMissing(q, ci, cj)
    requires (i == ci && ay == 0.0) || (i == ci + 1 && ay == 1.0)
    ensures CellBlend(q, ci, cj, t, ay) == Lerp(q[i][cj].value, q[i][cj + 1].value, t)
  {
    BlendOnRow(q[ci][cj].value, q[ci][cj + 1].value, q[ci + 1][cj].value, q[ci + 1][cj + 1].value, t);
  }

  /** The blend over cell (ci, cj) on its left or right column is linear along that column. */
  lemma CellOnColumn(q: Samples, ci: nat, cj: nat, j: nat, t: real, ax: real)
    requires HasCell(q, ci, cj) && !IsMissing(q, ci, cj)
    requires (j == cj && ax == 0.0) || (j == cj + 1 && ax == 1.0)
    ensures CellBlend(q, ci, cj, ax, t) == Lerp(q[ci][j].value, q[ci + 1][j].value, t)
  {
    BlendOnColumn(q[ci][cj].value, q[ci][cj + 1].value, q[ci + 1][cj].value, q[ci + 1][cj + 1].value, t);
  }

  /** The interpolant reproduces the samples at the grid nodes, last row and column included. */
  lemma EvaluateAtNode(g: GridData, i: nat, j: nat)
    requires UniformGrid(g) && i < |g.y| && j < |g.x|
    ensures var r := g.Call((g.x[j], g.y[i]));
      (r.Success? || r == Failure(NotEnoughData)) &&
      (r.Success? ==> g.At(i, j) == Some(r.value))
  {
    NodeOffset(g.x, j);
    NodeOffset(g.y, i);
    var X, Y := g.x[j], g.y[i];
    var r := BilinearInterp(g, X, Y);
    if r.Success? {
      var ci, cj := CellIndex(g.y, Y), CellIndex(g.x, X);
      CellAtCorner(g.data, ci, cj, i, j, Offset(g.x, X), Offset(g.y, Y));
    }
  }

  /** Grid line `k` of axis `a` is a corner of the cell the lookup finds for it, at offset 0 or 1. */
  predicate AtNode(a: seq<real>, k: nat)
    requires Indexable(a) && k < |a|
  {
    a[0] <= a[k] && CellIndex(a, a[k]) == Min(k, |a| - 2) &&
    Offset(a, a[k]) == (if k <= |a| - 2 then 0.0 else 1.0)
  }

  /** Along grid line y[i] the interpolant is the linear interpolant between the row's two samples. */
  lemma EvaluateAlongRow(g: GridData, i: nat, X: real)
    requires UniformGrid(g) && i < |g.y| && g.x[0] <= X <= g.x[|g.x| - 1]
    ensures var j, t := CellIndex(g.x, X), Offset(g.x, X);
      0.0 <= t <= 1.0 &&
      var r := g.Call((X, g.y[i]));
      (r.Success? ==>
        g.At(i, j).Some? && g.At(i, j + 1).Some? &&
        r.value == Lerp(g.At(i, j).value, g.At(i, j + 1).value, t))
  {
    NodeOffset(g.y, i);
    OffsetInUnit(g.x, X);
    CallOnRow(g, i, X);
  }

  /** The row case of the interpolant on a grid line, once the line's cell and offset are known. */
  lemma CallOnRow(g: GridData, i: nat, X: real)
    requires g.Valid() && i < |g.y| && AtNode(g.y, i) && g.x[0] <= X <= g.x[|g.x| - 1]
    ensures var j, t := CellIndex(g.x, X), Offset(g.x, X);
      var r := g.Call((X, g.y[i]));
      (r.Success? ==>
        g.At(i, j).Some? && g.At(i, j + 1).Some? &&
        r.value == Lerp(g.At(i, j).value, g.At(i, j + 1).value, t))
  {
    var Y := g.y[i];
    var q: Samples := g.data;
    var t, ay := Offset(g.x, X), Offset(g.y, Y);
    var r := g.Call((X, Y));
    assert r == BilinearInterp(g, X, Y);
    if r.Success? {
      var ci, cj := CellIndex(g.y, Y), CellIndex(g.x, X);
      CellOnRow(q, ci, cj, i, t, ay);
    }
  }

  /** Along grid line x[j] the interpolant is the linear interpolant between the column's two samples. */
  lemma EvaluateAlongColumn(g: GridData, j: nat, Y: real)
    requires UniformGrid(g) && j < |g.x| && g.y[0] <= Y <= g.y[|g.y| - 1]
    ensures var i, t := CellIndex(g.y, Y), Offset(g.y, Y);
      0.0 <= t <= 1.0 &&
      var r := g.Call((g.x[j], Y));
      (r.Success? ==>
        g.At(i, j).Some? && g.At(i + 1, j).Some? &&
        r.value == Lerp(g.At(i, j).value, g.At(i + 1, j).value, t))
  {
    NodeOffset(g.x, j);
    OffsetInUnit(g.y, Y);
    CallOnColumn(g, j, Y);
  }

  /** The column case of the interpolant on a grid line, once the line's cell and offset are known. */
  lemma CallOnColumn(g: GridData, j: nat, Y: real)
    requires g.Valid() && j < |g.x| && AtNode(g.x, j) && g.y[0] <= Y <= g.y[|g.y| - 1]
    ensures var i, t := CellIndex(g.y, Y), Offset(g.y, Y);
      var r := g.Call((g.x[j], Y));
      (r.Success? ==>
        g.At(i, j).Some? && g.At(i + 1, j).Some? &&
        r.value == Lerp(g.At(i, j).value, g.At(i + 1, j).value, t))
  {
    var X := g.x[j];
    var q: Samples := g.data;
    var t, ax := Offset(g.y, Y), Offset(g.x, X);
    var r := g.Call((X, Y));
    assert r == BilinearInterp(g, X, Y);
    if r.Success? {
      var ci, cj := CellIndex(g.y, Y), CellIndex(g.x, X);
      CellOnColumn(q, ci, cj, j, t, ax);
    }
  }

  /** The blend over a cell whose corners are present and within [lo, hi] stays within [lo, hi]. */
  lemma CellBlendWithin(q: Samples, i: nat, j: nat, ax: real, ay: real, lo: real, hi: real)
    requires HasCell(q, i, j) && !IsMissing(q, i, j)
    requires 0.0 <= ax <= 1.0 && 0.0 <= ay <= 1.0
    requires lo <= q[i][j].value <= hi && lo <= q[i][j + 1].value <= hi
    requires lo <= q[i + 1][j].value <= hi && lo <= q[i + 1][j + 1].value <= hi
    ensures lo <= CellBlend(q, i, j, ax, ay) <= hi
  {
    BlendWithin(q[i][j].value, q[i][j + 1].value, q[i + 1][j].value, q[i + 1][j + 1].value, ax, ay, lo, hi);
  }

  /** The interpolant never leaves the range of the samples: there is no extrapolation. */
  lemma EvaluateWithinSampleRange(g: GridData, p: (real, real), lo: real, hi: real)
    requires UniformGrid(g) && SamplesWithin(g, lo, hi)
    ensures g.Call(p).Success? ==> lo <= g.Call(p).value <= hi
  {
    var r := BilinearInterp(g, p.0, p.1);
    assert g.Call(p) == r;
    if r.Success? {
      var X, Y := p.0, p.1;
      OffsetInUnit(g.x, X);
      OffsetInUnit(g.y, Y);
      var i, j := CellIndex(g.y, Y), CellIndex(g.x, X);
      assert g.data[i][j].Some? && g.data[i][j + 1].Some? && g.data[i + 1][j].Some? && g.data[i + 1][j + 1].Some?;
      assert lo <= g.data[i][j].value <= hi;
      assert lo <= g.data[i][j + 1].value <= hi;
      assert lo <= g.data[i + 1][j].value <= hi;
      assert lo <= g.data[i + 1][j + 1].value <= hi;
      CellBlendWithin(g.data, i, j, Offset(g.x, X), Offset(g.y, Y), lo, hi);
    }
  }

  /** Every point of cell (i, j) is masked exactly when the cell has a masked corner, and then evaluation fails. */
  lemma MaskedThroughoutCell(g: GridData, i: nat, j: nat, X: real, Y: real)
    requires UniformGrid(g) && i + 1 < |g.y| && j + 1 < |g.x| && InCell(g.x, j, X) && InCell(g.y, i, Y)
    ensures HasCell(g.data, i, j)
    ensures g.IsMasked((X, Y)) == Success(IsMissing(g.data, i, j))
    ensures IsMissing(g.data, i, j) ==> g.Call((X, Y)) == Failure(NotEnoughData)
  {
    CellIndexUnique(g.x, X, j);
    CellIndexUnique(g.y, Y, i);
    UniformBounds(g.x, j + 1);
    UniformBounds(g.y, i + 1);
  }

  /** The concrete case x = [0, 1], y = [0, 1], samples [[0, 1], [2, 3]]: the centre evaluates to 1.5. */
  lemma EvaluateUnitSquareCentre()
    ensures var g := Make([0.0, 1.0], [0.0, 1.0], Masked([[Some(0.0), Some(1.0)], [Some(2.0), Some(3.0)]]), None, None);
      g.Success? && g.value.Valid() && g.value.Call((0.5, 0.5)) == Success(1.5)
  {
    var a := [0.0, 1.0];
    var q := [[Some(0.0), Some(1.0)], [Some(2.0), Some(3.0)]];
    var g := GridData(a, a, q);
    assert Make(a, a, Masked(q), None, None) == Success(g);
    UnitAxisCentre();
    assert Blend(0.0, 1.0, 2.0, 3.0, 0.5, 0.5) == 1.5;
    assert g.Call((0.5, 0.5)) == BilinearInterp(g, 0.5, 0.5);
  }

  /** On the axis [0, 1] the point 0.5 lies in the first cell, half way along. */
  lemma UnitAxisCentre()
    ensures CellIndex([0.0, 1.0], 0.5) == 0 && Offset([0.0, 1.0], 0.5) == 0.5
  {
    assert Trunc(0.5) == 0;
  }

  // ---------------------------------------------------------------------
  // Construction.

  /**
   * The three ways of giving the mask agree: a boolean mask, a sentinel
   * value that marks the same entries, and a masked array built from the
   * same mask give the same grid.
   */
  lemma MaskSourcesAgree(x: seq<real>, y: seq<real>, values: seq<seq<real>>, mask: seq<seq<bool>>, v: real)
    requires HasShape(values, |y|, |x|) && HasShape(mask, |y|, |x|)
    requires forall i, j :: 0 <= i < |y| && 0 <= j < |x| ==> (mask[i][j] <==> values[i][j] == v)
    ensures var byMask := Make(x, y, Plain(values), Some(mask), None);
      byMask.Success? &&
      byMask == Make(x, y, Plain(values), None, Some(v)) &&
      byMask == Make(x, y, Masked(ApplyMask(values, mask)), None, None)
  {
    var a := MaskedEqual(values, v);
    var b := ApplyMask(values, mask);
    forall i | 0 <= i < |a|
      ensures a[i] == b[i]
    {
      forall j | 0 <= j < |a[i]|
        ensures a[i][j] == b[i][j]
      {
      }
    }
    assert a == b;
  }

  // ---------------------------------------------------------------------
  // Sub-grids.

  /** `b` is a uniform axis with the spacing of `a` that spans [lo, hi]. */
  predicate AxisCover(a: seq<real>, b: seq<real>, lo: real, hi: real)
    requires Indexable(a)
  {
    Uniform(b) && b[1] - b[0] == a[1] - a[0] && b[0] <= lo && hi <= b[|b| - 1]
  }

  /**
   * `s` is a uniform grid with the spacing of `g` whose rectangle covers
   * [X0, X1] x [Y0, Y1]; in particular UniformGrid(s) holds.
   */
  predicate UniformCover(g: GridData, s: GridData, X0: real, Y0: real, X1: real, Y1: real)
    requires UniformGrid(g)
  {
    s.Shaped() && AxisCover(g.x, s.x, X0, X1) && AxisCover(g.y, s.y, Y0, Y1)
  }

  /**
   * A shaped grid whose axes are runs of a uniform grid's axes for the
   * rectangle [X0, X1] x [Y0, Y1] is uniform with the same spacing and
   * covers the rectangle.
   */
  lemma WindowCovers(g: GridData, s: GridData, X0: real, Y0: real, X1: real, Y1: real)
    requires UniformGrid(g) && X0 <= X1 && Y0 <= Y1 && s.Shaped()
    requires AxisRun(g.x, s.x, X0, X1) && AxisRun(g.y, s.y, Y0, Y1)
    ensures UniformCover(g, s, X0, Y0, X1, Y1)
  {
    RunOfWindowCovers(g.x, s.x, X0, X1);
    RunOfWindowCovers(g.y, s.y, Y0, Y1);
  }

  /** Each axis of a clamped window is the run of the grid's axis from the clamped rectangle's cells. */
  lemma ClampedRuns(g: GridData, s: GridData, xmin: real, ymin: real, xmax: real, ymax: real)
    requires g.Valid() && ClampedWindow(g, s, xmin, ymin, xmax, ymax)
    ensures s.Shaped()
    ensures AxisRun(g.x, s.x, MaxR(xmin, g.x[0]), MinR(xmax, g.x[|g.x| - 1]))
    ensures AxisRun(g.y, s.y, MaxR(ymin, g.y[0]), MinR(ymax, g.y[|g.y| - 1]))
  {
  }

  /**
   * `b` is the run of axis `a` from the cell of `lo` to one grid line past
   * the cell of `hi`, both points inside the axis, as a window takes it.
   */
  predicate AxisRun(a: seq<real>, b: seq<real>, lo: real, hi: real)
    requires Indexable(a)
  {
    a[0] <= lo <= a[|a| - 1] && a[0] <= hi <= a[|a| - 1] &&
    var c0, c1 := CellIndex(a, lo), CellIndex(a, hi);
    |b| == (if c0 < c1 + 2 then c1 + 2 - c0 else 0) && c0 + |b| <= |a| && b == a[c0..c0 + |b|]
  }

  /** The run of a uniform axis for lo <= hi is uniform with the same spacing and spans [lo, hi]. */
  lemma RunOfWindowCovers(a: seq<real>, b: seq<real>, lo: real, hi: real)
    requires Uniform(a) && lo <= hi && AxisRun(a, b, lo, hi)
    ensures AxisCover(a, b, lo, hi)
  {
    var c0, c1 := CellIndex(a, lo), CellIndex(a, hi);
    RunCovers(a, lo, hi);
    assert b == a[c0..c1 + 2];
  }

  /**
   * A sub-grid of a uniform grid is a uniform grid with the same spacing,
   * and it covers the requested rectangle clamped to the grid.
   */
  lemma SubsetCovers(g: GridData, xmin: real, ymin: real, xmax: real, ymax: real)
    requires UniformGrid(g) && xmin <= xmax && ymin <= ymax
    requires g.Subset(xmin, ymin, xmax, ymax).Success?
    ensures UniformCover(g, g.Subset(xmin, ymin, xmax, ymax).value,
                         MaxR(xmin, g.x[0]), MaxR(ymin, g.y[0]), MinR(xmax, g.x[|g.x| - 1]), MinR(ymax, g.y[|g.y| - 1]))
  {
    var s := g.Subset(xmin, ymin, xmax, ymax).value;
    ClampedRuns(g, s, xmin, ymin, xmax, ymax);
    WindowCovers(g, s, MaxR(xmin, g.x[0]), MaxR(ymin, g.y[0]), MinR(xmax, g.x[|g.x| - 1]), MinR(ymax, g.y[|g.y| - 1]));
  }

  /** On the right edge of the unit square the blend ignores the left column, and so does the left edge of the next square. */
  lemma BlendShiftX(q00: real, q01: real, q10: real, q11: real, r01: real, r11: real, ay: real)
    ensures Blend(q00, q01, q10, q11, 1.0, ay) == Blend(q01, r01, q11, r11, 0.0, ay)
  {
  }

  /** On the top edge of the unit square the blend ignores the bottom row, and so does the bottom edge of the next square. */
  lemma BlendShiftY(q00: real, q01: real, q10: real, q11: real, r10: real, r11: real, ax: real)
    ensures Blend(q00, q01, q10, q11, ax, 1.0) == Blend(q10, q11, r10, r11, ax, 0.0)
  {
  }

  /**
   * Looking `v` up in a run `b` of a uniform axis `a` starting at `lo`:
   * the same cell at the same offset, or the run's last cell at offset 1
   * where the axis has the next cell at offset 0.
   */
  lemma RunOffset(a: seq<real>, b: seq<real>, lo: nat, v: real)
    requires Uniform(a) && 2 <= |b| && lo + |b| <= |a| && b == a[lo..lo + |b|] && b[0] <= v <= b[|b| - 1]
    ensures Uniform(b) && a[0] <= v <= a[|a| - 1]
    ensures var c, c' := CellIndex(a, v), CellIndex(b, v);
      SameOrNext(c, c', lo, Offset(a, v), Offset(b, v))
  {
    assert b[0] == a[lo] && b[|b| - 1] == a[lo + |b| - 1];
    SliceOffset(a, lo, |b|, v);
    UniformBounds(a, lo + |b| - 1);
  }

  /**
   * The blend over cell (i', j') of a window, at offsets (ax', ay'), equals
   * the blend over cell (i, j) of the grid at (ax, ay) when the cells are the
   * same or the point sits on the shared edge of neighbouring cells.
   */
  lemma WindowBlend(g: GridData, s: GridData, i0: nat, j0: nat,
                                       i: nat, j: nat, i': nat, j': nat, ax: real, ay: real, ax': real, ay': real)
    requires Window(g, s, i0, j0) && i' + 1 < |s.y| && j' + 1 < |s.x|
    requires HasCell(g.data, i, j) && !IsMissing(g.data, i, j)
    requires HasCell(s.data, i', j') && !IsMissing(s.data, i', j')
    requires SameOrNext(j, j', j0, ax, ax') && SameOrNext(i, i', i0, ay, ay')
    ensures CellBlend(s.data, i', j', ax', ay') == CellBlend(g.data, i, j, ax, ay)
  {
    var I, J := i0 + i', j0 + j';
    var q: Samples := g.data;
    var s00, s01, s10, s11 := s.data[i'][j'].value, s.data[i'][j' + 1].value, s.data[i' + 1][j'].value, s.data[i' + 1][j' + 1].value;
    assert s00 == q[I][J].value && s01 == q[I][J + 1].value;
    assert s10 == q[I + 1][J].value && s11 == q[I + 1][J + 1].value;
    var g01, g10, g11 := q[i][j + 1].value, q[i + 1][j].value, q[i + 1][j + 1].value;
    if j != J && i == I {
      BlendShiftX(s00, s01, s10, s11, g01, g11, ay);
    } else if j == J && i != I {
      BlendShiftY(s00, s01, s10, s11, g10, g11, ax);
    } else if j != J && i != I {
      BlendShiftY(s00, s01, s10, s11, g10, q[I + 1][J].value, 1.0);
      BlendShiftX(s10, s11, g10, g11, g01, g11, 0.0);
    }
  }

  /** A point of a window lies in a cell of the window and of the grid whose blends agree. */
  lemma WindowCellAgrees(g: GridData, s: GridData, i0: nat, j0: nat, X: real, Y: real)
    requires UniformGrid(g) && Window(g, s, i0, j0) && s.Valid() && s.Contains(X, Y) && g.Contains(X, Y)
    ensures var i', j' := CellIndex(s.y, Y), CellIndex(s.x, X);
      var i, j := CellIndex(g.y, Y), CellIndex(g.x, X);
      !IsMissing(s.data, i', j') && !IsMissing(g.data, i, j) ==>
        CellBlend(s.data, i', j', Offset(s.x, X), Offset(s.y, Y)) == CellBlend(g.data, i, j, Offset(g.x, X), Offset(g.y, Y))
  {
    RunOffset(g.x, s.x, j0, X);
    RunOffset(g.y, s.y, i0, Y);
    var i', j' := CellIndex(s.y, Y), CellIndex(s.x, X);
    var i, j := CellIndex(g.y, Y), CellIndex(g.x, X);
    if !IsMissing(s.data, i', j') && !IsMissing(g.data, i, j) {
      WindowBlend(g, s, i0, j0, i, j, i', j', Offset(g.x, X), Offset(g.y, Y), Offset(s.x, X), Offset(s.y, Y));
    }
  }

  /** A window of a uniform grid evaluates like the grid wherever both can. */
  lemma WindowAgrees(g: GridData, s: GridData, i0: nat, j0: nat, X: real, Y: real)
    requires UniformGrid(g) && Window(g, s, i0, j0) && s.Valid()
    requires BilinearInterp(s, X, Y).Success? && BilinearInterp(g, X, Y).Success?
    ensures BilinearInterp(s, X, Y) == BilinearInterp(g, X, Y)
  {
    WindowCellAgrees(g, s, i0, j0, X, Y);
  }

  /** The clamped window of a uniform grid evaluates like the grid wherever both can. */
  lemma ClampedWindowAgrees(g: GridData, s: GridData, xmin: real, ymin: real, xmax: real, ymax: real, X: real, Y: real)
    requires UniformGrid(g) && s.Valid() && ClampedWindow(g, s, xmin, ymin, xmax, ymax)
    requires BilinearInterp(s, X, Y).Success? && BilinearInterp(g, X, Y).Success?
    ensures BilinearInterp(s, X, Y) == BilinearInterp(g, X, Y)
  {
    var i0, j0 := CellIndex(g.y, MaxR(ymin, g.y[0])), CellIndex(g.x, MaxR(xmin, g.x[0]));
    WindowAgrees(g, s, i0, j0, X, Y);
  }

  /** Where both the grid and its sub-grid can evaluate a point, they give the same value. */
  lemma SubsetAgrees(g: GridData, xmin: real, ymin: real, xmax: real, ymax: real, p: (real, real))
    requires UniformGrid(g) && xmin <= xmax && ymin <= ymax
    requires g.Subset(xmin, ymin, xmax, ymax).Success?
    ensures var s := g.Subset(xmin, ymin, xmax, ymax).value;
      s.Valid() && (s.Call(p).Success? && g.Call(p).Success? ==> s.Call(p) == g.Call(p))
  {
    SubsetCovers(g, xmin, ymin, xmax, ymax);
    var s := g.Subset(xmin, ymin, xmax, ymax).value;
    if s.Call(p).Success? && g.Call(p).Success? {
      ClampedWindowAgrees(g, s, xmin, ymin, xmax, ymax, p.0, p.1);
    }
  }

  /** The three by four grid of ones used below, on x = [0, 1, 2, 3] and y = [0, 1, 2]. */
  function SmallGrid(): (g: GridData)
    ensures g.Valid() && |g.x| == 4 && |g.y| == 3
  {
    var one := Some(1.0);
    GridData([0.0, 1.0, 2.0, 3.0], [0.0, 1.0, 2.0], [[one, one, one, one], [one, one, one, one], [one, one, one, one]])
  }

  /** In the small grid, 0.5 lies in the first cell and 1.5 in the second along both axes. */
  lemma SmallGridCells()
    ensures var g := SmallGrid();
      CellIndex(g.x, 0.5) == 0 && CellIndex(g.x, 1.5) == 1 &&
      CellIndex(g.y, 0.5) == 0 && CellIndex(g.y, 1.5) == 1
  {
    assert Trunc(0.5) == 0 && Trunc(1.5) == 1;
  }

  /** The clamped window of the small grid for [0.5, 1.5]^2 is its first three rows and columns. */
  lemma SmallGridWindow(s: GridData)
    requires ClampedWindow(SmallGrid(), s, 0.5, 0.5, 1.5, 1.5)
    ensures var one := Some(1.0);
      s == GridData([0.0, 1.0, 2.0], [0.0, 1.0, 2.0], [[one, one, one], [one, one, one], [one, one, one]])
  {
    var g := SmallGrid();
    var one := Some(1.0);
    SmallGridCells();
    assert MaxR(0.5, g.x[0]) == 0.5 && MinR(1.5, g.x[|g.x| - 1]) == 1.5;
    assert MaxR(0.5, g.y[0]) == 0.5 && MinR(1.5, g.y[|g.y| - 1]) == 1.5;
    assert Window(g, s, 0, 0) && |s.x| == 3 && |s.y| == 3;
    assert s.x == [0.0, 1.0, 2.0] && s.y == [0.0, 1.0, 2.0];
    var row := [one, one, one];
    forall i | 0 <= i < 3
      ensures s.data[i] == row
    {
      assert |s.data[i]| == 3;
      assert s.data[i][0] == g.data[i][0] && s.data[i][1] == g.data[i][1] && s.data[i][2] == g.data[i][2];
    }
    assert s.data == [row, row, row];
  }

  /** The sub-grid of the small grid for [0.5, 1.5]^2 spans [0, 2] on both axes. */
  lemma SubsetOfSmallGrid()
    ensures var one := Some(1.0);
      SmallGrid().Subset(0.5, 0.5, 1.5, 1.5) == Success(GridData([0.0, 1.0, 2.0], [0.0, 1.0, 2.0], [[one, one, one], [one, one, one], [one, one, one]]))
  {
    var g := SmallGrid();
    assert g.Subset(0.5, 0.5, 1.5, 1.5).Success?;
    SmallGridWindow(g.Subset(0.5, 0.5, 1.5, 1.5).value);
  }
}
