/**
 * The regular-grid data set of icepack/grid/grid_data.py: two coordinate
 * axes and a len(y) by len(x) array of samples, some of them masked.
 * A sample is an Option: None stands for a masked entry.
 *
 * The grid is immutable after construction, so it is a datatype and every
 * operation is a function returning a new value or a Result.
 */
module Grid {
  import opened Wrappers
  import opened GridIndex

  /** Rows of samples, indexed [i][j] with `i` along `y` and `j` along `x`. */
  type Samples = seq<seq<Option<real>>>

  /** `rows` is an `ny` by `nx` array. */
  predicate HasShape<T>(rows: seq<seq<T>>, ny: nat, nx: nat)
  {
    |rows| == ny && forall i :: 0 <= i < |rows| ==> |rows[i]| == nx
  }

  /** All four corners of cell (i, j) are inside the array. */
  predicate HasCell(q: Samples, i: nat, j: nat)
  {
    i + 1 < |q| && j + 1 < |q[i]| && j + 1 < |q[i + 1]|
  }

  /** Python's `max` and `min` on two floats. */
  function MaxR(a: real, b: real): (r: real)
    ensures a <= r && b <= r && (r == a || r == b)
  {
    if b > a then b else a
  }

  function MinR(a: real, b: real): (r: real)
    ensures r <= a && r <= b && (r == a || r == b)
  {
    if b < a then b else a
  }

  /** Python slicing `s[lo:hi]` for indices that are not negative and `hi` within bounds. */
  function Slice<T>(s: seq<T>, lo: nat, hi: nat): (r: seq<T>)
    requires hi <= |s|
    ensures |r| == if lo < hi then hi - lo else 0
    ensures forall k :: 0 <= k < |r| ==> r[k] == s[lo + k]
  {
    if lo < hi then s[lo..hi] else []
  }

  /** numpy's two-axis slicing `q[i0:i1, j0:j1]`. */
  function SliceRows(q: Samples, i0: nat, i1: nat, j0: nat, j1: nat): (r: Samples)
    requires i1 <= |q| && forall i :: 0 <= i < |q| ==> j1 <= |q[i]|
    ensures |r| == if i0 < i1 then i1 - i0 else 0
    ensures forall k :: 0 <= k < |r| ==> r[k] == Slice(q[i0 + k], j0, j1)
  {
    var rows := Slice(q, i0, i1);
    seq(|rows|, k requires 0 <= k < |rows| => Slice(rows[k], j0, j1))
  }

  /** Whether any of the four corners of cell (i, j) is masked (`_is_missing`). */
  function IsMissing(q: Samples, i: nat, j: nat): (r: bool)
    requires HasCell(q, i, j)
    ensures r <==> q[i][j].None? || q[i][j + 1].None? || q[i + 1][j].None? || q[i + 1][j + 1].None?
  {
    exists k, l | k in [i, i + 1] && l in [j, j + 1] :: q[k][l].None?
  }

  /**
   * The textbook bilinear interpolant on the unit square: each corner is
   * weighted by the area of the sub-rectangle opposite it.
   */
  function Blend(q00: real, q01: real, q10: real, q11: real, ax: real, ay: real): real
  {
    (1.0 - ax) * (1.0 - ay) * q00 + ax * (1.0 - ay) * q01 + (1.0 - ax) * ay * q10 + ax * ay * q11
  }

  /** The blend over cell (i, j) of `q`, whose four corners must be present. */
  function CellBlend(q: Samples, i: nat, j: nat, ax: real, ay: real): real
    requires HasCell(q, i, j) && !IsMissing(q, i, j)
  {
    Blend(q[i][j].value, q[i][j + 1].value, q[i + 1][j].value, q[i + 1][j + 1].value, ax, ay)
  }

  /** The forward-difference form that `_bilinear_interp` evaluates is the textbook blend. */
  lemma ForwardDifferences(q00: real, q01: real, q10: real, q11: real, ax: real, ay: real)
    ensures q00 + ax * (q01 - q00) + ay * (q10 - q00) + ax * ay * (q00 + q11 - q10 - q01)
         == Blend(q00, q01, q10, q11, ax, ay)
  {
    var b := ax * ay;
    assert (1.0 - ax) * (1.0 - ay) * q00 == q00 - ax * q00 - ay * q00 + b * q00;
    assert ax * (1.0 - ay) * q01 == ax * q01 - b * q01;
    assert (1.0 - ax) * ay * q10 == ay * q10 - b * q10;
    assert ax * ay * q11 == b * q11;
    assert ax * ay * (q00 + q11 - q10 - q01) == b * q00 + b * q11 - b * q10 - b * q01;
  }

  /**
   * The arithmetic of `_bilinear_interp` on a cell with corners q00 (lower
   * left), q01, q10 and q11 (upper right): the first corner plus the forward
   * differences along each axis and the cross difference.
   */
  function DifferenceForm(q00: real, q01: real, q10: real, q11: real, ax: real, ay: real): (v: real)
    ensures v == Blend(q00, q01, q10, q11, ax, ay)
  {
    var dq_dx := q01 - q00;
    var dq_dy := q10 - q00;
    var d2q_dx_dy := q00 + q11 - q10 - q01;
    assert q00 + ax * dq_dx + ay * dq_dy + ax * ay * d2q_dx_dy == Blend(q00, q01, q10, q11, ax, ay) by {
      ForwardDifferences(q00, q01, q10, q11, ax, ay);
    }
    q00 + ax * dq_dx + ay * dq_dy + ax * ay * d2q_dx_dy
  }

  /** The sample array as handed to the constructor: a plain array or a masked array. */
  datatype DataArg =
    | Plain(values: seq<seq<real>>)
    | Masked(entries: Samples)
  {
    /** numpy's `data.shape == (ny, nx)`. */
    predicate ShapeIs(ny: nat, nx: nat)
    {
      match this
      case Plain(v) => HasShape(v, ny, nx)
      case Masked(e) => HasShape(e, ny, nx)
    }
  }

  /** `ma.masked_equal(values, v)`: mask exactly the entries equal to `v`. */
  function MaskedEqual(values: seq<seq<real>>, v: real): (r: Samples)
    ensures |r| == |values|
    ensures forall i :: 0 <= i < |r| ==> |r[i]| == |values[i]|
    ensures forall i, j :: 0 <= i < |r| && 0 <= j < |r[i]| ==>
      (r[i][j].None? <==> values[i][j] == v) && (r[i][j].Some? ==> r[i][j].value == values[i][j])
  {
    seq(|values|, i requires 0 <= i < |values| =>
      seq(|values[i]|, j requires 0 <= j < |values[i]| =>
        if values[i][j] == v then None else Some(values[i][j])))
  }

  /** `ma.MaskedArray(data=values, mask=mask)` for a mask of the same shape. */
  function ApplyMask(values: seq<seq<real>>, mask: seq<seq<bool>>): (r: Samples)
    requires |mask| == |values| && forall i :: 0 <= i < |values| ==> |mask[i]| == |values[i]|
    ensures |r| == |values|
    ensures forall i :: 0 <= i < |r| ==> |r[i]| == |values[i]|
    ensures forall i, j :: 0 <= i < |r| && 0 <= j < |r[i]| ==>
      (r[i][j].None? <==> mask[i][j]) && (r[i][j].Some? ==> r[i][j].value == values[i][j])
  {
    seq(|values|, i requires 0 <= i < |values| =>
      seq(|values[i]|, j requires 0 <= j < |values[i]| =>
        if mask[i][j] then None else Some(values[i][j])))
  }

  /**
   * `GridData.__init__`: check the shape, then take the mask from the first
   * of these that is given: a masked array as `data`, `missing_data_value`,
   * `mask`.
   */
  function Make(x: seq<real>, y: seq<real>, data: DataArg,
                mask: Option<seq<seq<bool>>>, missingDataValue: Option<real>): (r: Result<GridData, Error>)
    ensures r.Failure? <==>
      !data.ShapeIs(|y|, |x|) ||
      (data.Plain? && missingDataValue.None? && (mask.None? || !HasShape(mask.value, |y|, |x|)))
    ensures !data.ShapeIs(|y|, |x|) ==> r == Failure(ShapeMismatch)
    ensures data.ShapeIs(|y|, |x|) && data.Plain? && missingDataValue.None? && mask.None? ==>
      r == Failure(NoMaskGiven)
    ensures (data.ShapeIs(|y|, |x|) && data.Plain? && missingDataValue.None? && mask.Some? &&
             !HasShape(mask.value, |y|, |x|)) ==> r == Failure(MaskShapeMismatch)
    ensures r.Success? ==> r.value.x == x && r.value.y == y && r.value.Shaped()
    ensures r.Success? && data.Masked? ==> r.value.data == data.entries
    ensures r.Success? && data.Plain? && missingDataValue.Some? ==>
      forall i, j :: 0 <= i < |y| && 0 <= j < |x| ==>
        r.value.At(i, j) == if data.values[i][j] == missingDataValue.value then None else Some(data.values[i][j])
    ensures r.Success? && data.Plain? && missingDataValue.None? ==>
      mask.Some? && forall i, j :: 0 <= i < |y| && 0 <= j < |x| ==>
        r.value.At(i, j) == if mask.value[i][j] then None else Some(data.values[i][j])
  {
    if !data.ShapeIs(|y|, |x|) then
      Failure(ShapeMismatch)
    else
      match data
      case Masked(e) => Success(GridData(x, y, e))
      case Plain(v) =>
        if missingDataValue.Some? then
          Success(GridData(x, y, MaskedEqual(v, missingDataValue.value)))
        else if mask.Some? then
          if HasShape(mask.value, |y|, |x|) then Success(GridData(x, y, ApplyMask(v, mask.value)))
          else Failure(MaskShapeMismatch)
        else
          Failure(NoMaskGiven)
  }

  /** The grid data set. */
  datatype GridData = GridData(x: seq<real>, y: seq<real>, data: Samples)
  {
    /** The sample array is len(y) by len(x), as the constructor checks. */
    predicate Shaped()
    {
      HasShape(data, |y|, |x|)
    }

    /** What point queries need: a shaped grid whose axes the lookup can divide by. */
    predicate Valid()
    {
      Shaped() && Indexable(x) && Indexable(y)
    }

    /** The point lies in the closed rectangle spanned by the axes. */
    predicate Contains(X: real, Y: real)
      requires Valid()
    {
      x[0] <= X <= x[|x| - 1] && y[0] <= Y <= y[|y| - 1]
    }

    /** The spacing the lookup and the interpolation divide by. */
    function Dx(): real requires Valid() { x[1] - x[0] }
    function Dy(): real requires Valid() { y[1] - y[0] }

    /** `__getitem__`: the raw sample at (i, j), None when masked. */
    function At(i: nat, j: nat): (r: Option<real>)
      requires i < |data| && j < |data[i]|
      ensures r == data[i][j]
    {
      data[i][j]
    }

    /** `is_masked`: whether the data is too sparse to interpolate at `p`. */
    function IsMasked(p: (real, real)): (r: Result<bool, Error>)
      requires Valid()
      ensures r.Failure? <==> !Contains(p.0, p.1)
      ensures r.Failure? ==> r.error == OutOfDomain
      ensures r.Success? ==>
        var i, j := CellIndex(y, p.1), CellIndex(x, p.0);
        (r.value <==> At(i, j).None? || At(i, j + 1).None? || At(i + 1, j).None? || At(i + 1, j + 1).None?)
    {
      match IndexOfPoint(x, y, p.0, p.1)
      case Failure(e) => Failure(e)
      case Success(c) => Success(IsMissing(data, c.0, c.1))
    }

    /** `__call__`: evaluate the data set at `p`; it fails exactly where `is_masked` does not say false. */
    function Call(p: (real, real)): (r: Result<real, Error>)
      requires Valid()
      ensures r.Success? <==> IsMasked(p) == Success(false)
      ensures r == Failure(NotEnoughData) <==> IsMasked(p) == Success(true)
      ensures r == Failure(OutOfDomain) <==> IsMasked(p) == Failure(OutOfDomain)
    {
      BilinearInterp(this, p.0, p.1)
    }

    /**
     * `subset`: the sub-grid covering the rectangle [xmin, xmax] x [ymin, ymax]
     * clamped to the grid, with one extra grid line beyond the cell of the
     * upper corner.
     */
    function Subset(xmin: real, ymin: real, xmax: real, ymax: real): (r: Result<GridData, Error>)
      requires Valid()
      ensures r.Failure? ==> r.error == OutOfDomain
      ensures r.Success? <==>
        x[0] <= x[|x| - 1] && y[0] <= y[|y| - 1] &&
        xmin <= x[|x| - 1] && x[0] <= xmax && ymin <= y[|y| - 1] && y[0] <= ymax
      ensures r.Success? ==> ClampedWindow(this, r.value, xmin, ymin, xmax, ymax)
    {
      var Xmin, Ymin := MaxR(xmin, x[0]), MaxR(ymin, y[0]);
      var Xmax, Ymax := MinR(xmax, x[|x| - 1]), MinR(ymax, y[|y| - 1]);
      match IndexOfPoint(x, y, Xmin, Ymin)
      case Failure(e) => Failure(e)
      case Success(lo) =>
        match IndexOfPoint(x, y, Xmax, Ymax)
        case Failure(e) => Failure(e)
        case Success(hi) => Cut(lo.0, hi.0 + 2, lo.1, hi.1 + 2)
    }

    /**
     * The tail of `subset`: slice rows i0 to i1 and columns j0 to j1 and
     * build a grid from them. The result is always a window of this grid.
     */
    function Cut(i0: nat, i1: nat, j0: nat, j1: nat): (r: Result<GridData, Error>)
      requires Shaped() && i0 <= |y| && j0 <= |x| && i1 <= |y| && j1 <= |x|
      ensures r.Success? && Sliced(this, r.value, i0, i1, j0, j1)
    {
      SliceWindow(this, i0, i1, j0, j1);
      Make(Slice(x, j0, j1), Slice(y, i0, i1), Masked(SliceRows(data, i0, i1, j0, j1)), None, None)
    }
  }

  /**
   * Both corners of [xmin, xmax] x [ymin, ymax], clamped to the grid, lie
   * in the grid, and `s` is the window of `p` from the cell of the lower
   * one to one grid line past the cell of the upper one, with Python's
   * empty slice when the first comes after the second.
   */
  predicate ClampedWindow(p: GridData, s: GridData, xmin: real, ymin: real, xmax: real, ymax: real)
    requires p.Valid()
  {
    var x, y := p.x, p.y;
    var Xmin, Ymin := MaxR(xmin, x[0]), MaxR(ymin, y[0]);
    var Xmax, Ymax := MinR(xmax, x[|x| - 1]), MinR(ymax, y[|y| - 1]);
    x[0] <= Xmin <= x[|x| - 1] && y[0] <= Ymin <= y[|y| - 1] &&
    x[0] <= Xmax <= x[|x| - 1] && y[0] <= Ymax <= y[|y| - 1] &&
    Sliced(p, s, CellIndex(y, Ymin), CellIndex(y, Ymax) + 2, CellIndex(x, Xmin), CellIndex(x, Xmax) + 2)
  }

  /**
   * `s` is rows i0 to i1 and columns j0 to j1 of `p`, as numpy slices them:
   * empty along an axis whose first index is not below the second.
   */
  predicate Sliced(p: GridData, s: GridData, i0: nat, i1: nat, j0: nat, j1: nat)
  {
    |s.y| == (if i0 < i1 then i1 - i0 else 0) &&
    |s.x| == (if j0 < j1 then j1 - j0 else 0) &&
    Window(p, s, i0, j0)
  }

  /** Slicing rows i0 to i1 and columns j0 to j1 of a grid gives a window of it. */
  lemma SliceWindow(g: GridData, i0: nat, i1: nat, j0: nat, j1: nat)
    requires g.Shaped() && i0 <= |g.y| && j0 <= |g.x| && i1 <= |g.y| && j1 <= |g.x|
    ensures var s := GridData(Slice(g.x, j0, j1), Slice(g.y, i0, i1), SliceRows(g.data, i0, i1, j0, j1));
      Make(s.x, s.y, Masked(s.data), None, None) == Success(s) && Window(g, s, i0, j0)
  {
    var s := GridData(Slice(g.x, j0, j1), Slice(g.y, i0, i1), SliceRows(g.data, i0, i1, j0, j1));
    assert s.x == g.x[j0..j0 + |s.x|];
    assert s.y == g.y[i0..i0 + |s.y|];
  }

  /**
   * `s` is the part of `p` whose lower-left grid point is (i0, j0): its axes
   * are contiguous runs of `p`'s axes and its samples, masks included, are
   * `p`'s samples at the shifted indices.
   */
  predicate Window(p: GridData, s: GridData, i0: nat, j0: nat)
  {
    p.Shaped() && s.Shaped() &&
    i0 + |s.y| <= |p.y| && j0 + |s.x| <= |p.x| &&
    s.x == p.x[j0..j0 + |s.x|] && s.y == p.y[i0..i0 + |s.y|] &&
    forall i, j :: 0 <= i < |s.y| && 0 <= j < |s.x| ==> s.data[i][j] == p.data[i0 + i][j0 + j]
  }

  /**
   * `_bilinear_interp`: find the cell, refuse a cell with a masked corner,
   * then add forward differences and the cross term. The result is the
   * textbook bilinear blend of the four corners.
   */
  function BilinearInterp(q: GridData, X: real, Y: real): (r: Result<real, Error>)
    requires q.Valid()
    ensures r == Failure(OutOfDomain) <==> !q.Contains(X, Y)
    ensures r == Failure(NotEnoughData) <==>
      q.Contains(X, Y) && IsMissing(q.data, CellIndex(q.y, Y), CellIndex(q.x, X))
    ensures r.Success? <==> q.Contains(X, Y) && !IsMissing(q.data, CellIndex(q.y, Y), CellIndex(q.x, X))
    ensures r.Success? ==>
      q.Contains(X, Y) &&
      var i, j := CellIndex(q.y, Y), CellIndex(q.x, X);
      !IsMissing(q.data, i, j) &&
      r.value == CellBlend(q.data, i, j, Offset(q.x, X), Offset(q.y, Y))
  {
    match IndexOfPoint(q.x, q.y, X, Y)
    case Failure(e) => Failure(e)
    case Success(c) =>
      var i, j := c.0, c.1;
      if IsMissing(q.data, i, j) then
        Failure(NotEnoughData)
      else
        var ax, ay := (X - q.x[j]) / q.Dx(), (Y - q.y[i]) / q.Dy();
        Success(DifferenceForm(q.data[i][j].value, q.data[i][j + 1].value,
                               q.data[i + 1][j].value, q.data[i + 1][j + 1].value, ax, ay))
  }
}
