# Regular-grid data sets of icepack, in Dafny

This project models `icepack/grid/grid_data.py`: a data set sampled on a
regular rectangular grid, with some samples missing. A grid holds two
coordinate axes `x` and `y` and a `len(y)` by `len(x)` array of samples.
It answers four kinds of question:

- **Which cell contains a point?** `_index_of_point` finds the cell with
  `int()` of the scaled distance from the first grid line, clamped to the
  last cell.
- **Can the point be interpolated?** `_is_missing` and `is_masked` say
  whether any of the cell's four corners is missing.
- **What is the value at a point?** `_bilinear_interp` and `__call__`
  evaluate the bilinear interpolant. It is written as forward differences
  plus a cross term, and it refuses cells with a missing corner.
- **What is the sub-grid over a rectangle?** `subset` clamps the rectangle
  to the grid and slices from the cell of the lower corner to one grid line
  past the cell of the upper corner.

Construction (`__init__`) checks the shape of the samples. It takes the
missing-data mask from the first source given, in this order: a masked
array, a sentinel value, a boolean mask.

The model is pure, like the source: a grid never changes after it is built.

| file | module | contents |
|---|---|---|
| `wrappers.dfy` | `Wrappers` | `Option` and `Result` |
| `grid_index.dfy` | `GridIndex` | the errors, the per-axis lookup `CellIndex`, the cell offset `Offset`, `IndexOfPoint`, and lemmas about lookup on uniformly spaced axes and on runs of them |
| `grid_data.dfy` | `Grid` | the `GridData` datatype with `At` (`__getitem__`), `IsMasked`, `Call`, `Subset` and `Cut`; `IsMissing`; `BilinearInterp` and its forward-difference arithmetic; `Make` (`__init__`) |
| `grid_properties.dfy` | `GridProperties` | lemmas that relate the operations: reproduction at nodes, linearity along grid lines, no extrapolation, the worked examples, agreement of the mask sources, and coverage and agreement of sub-grids |

Conventions:
- Each `ValueError` is a `Failure` carrying one of the `Error` values:
  - `OutOfDomain`: the point is outside the grid;
  - `NotEnoughData`: a corner of the cell is missing;
  - `ShapeMismatch`: the samples do not match the axes;
  - `MaskShapeMismatch`: the mask does not match the samples;
  - `NoMaskGiven`: construction was given no mask source.
- A sample is an `Option<real>`, where `None` is a masked entry.
- Points are `(X, Y)` pairs. Index `i` runs along `y` and index `j` along `x`.
- Python's `int()` is `Trunc`, which rounds toward zero. Python's `max` and `min` are `MaxR` and `MinR`.
- Python and numpy slicing are `Slice` and `SliceRows`. A slice is empty when its start is not below its end.

The geometric properties are stated for uniformly spaced, increasing axes
(`Uniform`), which are the axes the code is written for. The lookup
itself needs only `Indexable`: at least two entries, the second above the
first.

## Model

| member | source | states |
|---|---|---|
| GridIndex.IndexOfPoint | icepack/grid/grid_data.py:5-13 | fails exactly when X is outside the closed interval [x[0], x[-1]] or Y is outside [y[0], y[-1]], and then with OutOfDomain; otherwise i <= len(y)-2 and j <= len(x)-2, so all four corners are in range |
| GridIndex.Trunc | icepack/grid/grid_data.py:10-11 | `int()` rounds toward zero: for r >= 0 the result n satisfies n <= r < n+1, and for r < 0 it satisfies r <= n < r+1 with n <= 0 |
| GridIndex.CellIndex | icepack/grid/grid_data.py:10-13 | the clamped cell index along one axis leaves room for the cell's upper corner (c + 1 < len) |
| GridIndex.Offset | icepack/grid/grid_data.py:27 | the offset `ax` (or `ay`) of a point in its cell, in steps of the axis: the cell's lower grid line plus the offset times the step gives back the point |
| GridIndex.CellIndexBrackets | icepack/grid/grid_data.py:10-13 | on a uniform axis the chosen cell contains the point: a[c] <= v, and either v < a[c+1] or c is the last cell and v = a[c+1] (the clamp) |
| GridIndex.CellIndexUnique | icepack/grid/grid_data.py:10-13 | conversely, any cell that contains v in that sense is the one the lookup chooses |
| GridIndex.CellIndexAtNode | icepack/grid/grid_data.py:10-13 | at grid line k the lookup gives min(k, len-2) |
| GridIndex.CellIndexMonotone | icepack/grid/grid_data.py:96-97 | a point further along an axis gets the same cell or a later one, so subset's lower corner index never exceeds the upper one |
| GridIndex.SliceUniform | icepack/grid/grid_data.py:99-100 | a run of two or more entries of a uniform axis is uniform with the same step |
| GridIndex.SliceCellIndex | icepack/grid/grid_data.py:96-100 | looking a point up in a run a[lo..lo+n] gives the axis's cell shifted by lo, except on the run's last grid line, where the axis gives the next cell and v equals its first grid line |
| GridIndex.SliceOffset | icepack/grid/grid_data.py:27 | the offset `ax` within the cell is the same in the run as in the axis, or the run has 1 where the axis has 0 in the next cell |
| GridIndex.RunCovers | icepack/grid/grid_data.py:96-100 | the run from the cell of lo to one grid line past the cell of hi is uniform with the axis's step, and its first and last entries enclose [lo, hi] |
| Grid.MaxR | icepack/grid/grid_data.py:93 | Python's `max` of two floats: at least both arguments, and equal to one of them |
| Grid.MinR | icepack/grid/grid_data.py:94 | Python's `min` of two floats: at most both arguments, and equal to one of them |
| Grid.Slice | icepack/grid/grid_data.py:99-100 | Python slicing `s[lo:hi]`: hi - lo entries when lo < hi and none otherwise, entry k being s[lo + k] |
| Grid.SliceRows | icepack/grid/grid_data.py:101 | numpy slicing `q[i0:i1, j0:j1]`: i1 - i0 rows when i0 < i1 and none otherwise, row k being the column slice j0:j1 of row i0 + k |
| Grid.IsMissing | icepack/grid/grid_data.py:16-17 | true exactly when at least one of (i,j), (i,j+1), (i+1,j), (i+1,j+1) is masked |
| Grid.ForwardDifferences | icepack/grid/grid_data.py:28-32 | q00 + ax·dq_dx + ay·dq_dy + ax·ay·d2q_dx_dy is the textbook bilinear blend, each corner weighted by the area of the opposite sub-rectangle |
| Grid.DifferenceForm | icepack/grid/grid_data.py:27-32 | the arithmetic of `_bilinear_interp` equals the textbook blend `Blend` of the four corners |
| Grid.BilinearInterp | icepack/grid/grid_data.py:20-32 | fails with OutOfDomain exactly outside the grid; fails with NotEnoughData exactly when the point is inside and its cell has a masked corner; succeeds exactly when the point is inside and no corner of its cell is masked, and then returns the blend of the cell's four samples at the point's offsets within the cell |
| Grid.MaskedEqual | icepack/grid/grid_data.py:71 | `ma.masked_equal`: same shape; an entry is masked exactly when it equals the sentinel, and the other entries keep their values |
| Grid.ApplyMask | icepack/grid/grid_data.py:73 | `ma.MaskedArray(data, mask)`: same shape; an entry is masked exactly when the mask says so, and the other entries keep their values |
| Grid.Make | icepack/grid/grid_data.py:61-75 | fails with ShapeMismatch when the samples are not len(y) by len(x); a masked array is kept as given; otherwise a sentinel masks exactly the equal entries; otherwise a mask masks its true entries; a mask of another shape fails with MaskShapeMismatch; with no mask source it fails with NoMaskGiven; on success the axes are kept and the grid is shaped |
| Grid.GridData.At | icepack/grid/grid_data.py:77-81 | `__getitem__`: returns the stored sample at (i, j), None when masked |
| Grid.GridData.IsMasked | icepack/grid/grid_data.py:83-87 | fails with OutOfDomain exactly outside the grid (the lookup's failure passed on); otherwise true exactly when a corner of the point's cell is masked |
| Grid.GridData.Call | icepack/grid/grid_data.py:104-107 | succeeds exactly when `is_masked` says false; fails with NotEnoughData exactly when it says true; fails with OutOfDomain exactly when it fails that way |
| Grid.GridData.Subset | icepack/grid/grid_data.py:89-102 | fails only with OutOfDomain, and exactly when the rectangle lies wholly outside the grid on an axis (or an axis ends below its start); on success the result is the window of the grid from the cell of the clamped lower corner to one grid line past the cell of the clamped upper corner, masks carried along (`ClampedWindow`) |
| Grid.GridData.Cut | icepack/grid/grid_data.py:99-102 | slicing rows i0:i1 and columns j0:j1 and building a grid from them always succeeds; the result is those rows and columns, with numpy's empty slice when a start is not below its end |
| Grid.SliceWindow | icepack/grid/grid_data.py:99-102 | the sliced axes and samples pass the inner constructor's shape check unchanged, and form a window of the grid: contiguous axis runs, with each sample equal to the parent sample at the shifted indices |
| GridProperties.NodeOffset | icepack/grid/grid_data.py:27 | at grid line k the lookup gives min(k, len-2), with offset 0, or offset 1 on the last grid line |
| GridProperties.OffsetInUnit | icepack/grid/grid_data.py:27 | inside the grid on a uniform axis, the offset `ax` or `ay` lies in [0, 1] |
| GridProperties.BlendAtCorners | icepack/grid/grid_data.py:32 | at the corners of the unit square the blend is the corner's sample |
| GridProperties.BlendOnRow | icepack/grid/grid_data.py:32 | at ay = 0 and at ay = 1 the blend is linear in ax between that row's two samples |
| GridProperties.BlendOnColumn | icepack/grid/grid_data.py:32 | at ax = 0 and at ax = 1 the blend is linear in ay between that column's two samples |
| GridProperties.BlendWithin | icepack/grid/grid_data.py:32 | for offsets in [0, 1] the blend stays within any range holding all four corners |
| GridProperties.CellAtCorner | icepack/grid/grid_data.py:27-32 | the blend over a cell, at a corner's offsets, is that corner's sample |
| GridProperties.CellOnRow | icepack/grid/grid_data.py:27-32 | the blend over a cell, on its bottom or top row, is linear between that row's samples |
| GridProperties.CellOnColumn | icepack/grid/grid_data.py:27-32 | the blend over a cell, on its left or right column, is linear between that column's samples |
| GridProperties.EvaluateAtNode | icepack/grid/grid_data.py:27-32 | on uniform axes, evaluating at (x[j], y[i]) either fails with NotEnoughData or returns data[i][j], last row and column included |
| GridProperties.EvaluateAlongRow | icepack/grid/grid_data.py:27-32 | along grid line y[i], a successful evaluation at X is (1-t)·data[i][j] + t·data[i][j+1], with j the cell of X and t in [0, 1] its offset |
| GridProperties.CallOnRow | icepack/grid/grid_data.py:27-32 | the row case above, once the grid line's cell and offset are known |
| GridProperties.EvaluateAlongColumn | icepack/grid/grid_data.py:27-32 | along grid line x[j], a successful evaluation at Y is (1-t)·data[i][j] + t·data[i+1][j], with i the cell of Y and t in [0, 1] its offset |
| GridProperties.CallOnColumn | icepack/grid/grid_data.py:27-32 | the column case above, once the grid line's cell and offset are known |
| GridProperties.CellBlendWithin | icepack/grid/grid_data.py:27-32 | the blend over a cell whose samples all lie in [lo, hi] stays in [lo, hi] |
| GridProperties.EvaluateWithinSampleRange | icepack/grid/grid_data.py:20-32 | on uniform axes a successful evaluation lies within any range that holds every present sample: there is no extrapolation |
| GridProperties.MaskedThroughoutCell | icepack/grid/grid_data.py:83-87 | for every point of cell (i, j), `is_masked` gives whether the cell has a masked corner, and evaluation then fails with NotEnoughData |
| GridProperties.UnitAxisCentre | icepack/grid/grid_data.py:10-13 | on the axis [0, 1], the point 0.5 is in cell 0 at offset 0.5 |
| GridProperties.EvaluateUnitSquareCentre | icepack/grid/grid_data.py:27-32 | x = y = [0, 1] with samples [[0, 1], [2, 3]] builds a grid, and evaluating it at (0.5, 0.5) gives 1.5 |
| GridProperties.MaskSourcesAgree | icepack/grid/grid_data.py:68-73 | a boolean mask, a sentinel marking the same entries, and a masked array built from the mask all give the same grid |
| GridProperties.ClampedRuns | icepack/grid/grid_data.py:93-101 | each axis of a clamped window is the run of the grid's axis from the cell of the clamped lower bound to one past the cell of the clamped upper bound, and the window is shaped |
| GridProperties.RunOfWindowCovers | icepack/grid/grid_data.py:99-100 | such a run, for lo <= hi, is uniform with the axis's step and spans [lo, hi] |
| GridProperties.WindowCovers | icepack/grid/grid_data.py:93-101 | a shaped grid whose axes are such runs of a uniform grid is uniform with the same spacing and covers the rectangle |
| GridProperties.SubsetCovers | icepack/grid/grid_data.py:89-102 | for xmin <= xmax and ymin <= ymax, the sub-grid is uniform with the grid's spacing and covers the clamped rectangle: x'[0] <= Xmin, Xmax <= x'[-1], and likewise for y |
| GridProperties.BlendShiftX | icepack/grid/grid_data.py:32 | the blend at ax = 1 in one cell equals the blend at ax = 0 in the next cell along x |
| GridProperties.BlendShiftY | icepack/grid/grid_data.py:32 | the blend at ay = 1 in one cell equals the blend at ay = 0 in the next cell along y |
| GridProperties.RunOffset | icepack/grid/grid_data.py:27 | a point inside a run of a uniform axis is inside the axis, and it lies in the same cell at the same offset, or at offset 1 of the run's last cell and offset 0 of the axis's next cell |
| GridProperties.WindowBlend | icepack/grid/grid_data.py:27-32 | blends over a window cell and a grid cell related that way agree |
| GridProperties.WindowCellAgrees | icepack/grid/grid_data.py:27-32 | at a point inside both a window and its uniform grid, the two cells found for the point blend to the same value when neither has a masked corner |
| GridProperties.WindowAgrees | icepack/grid/grid_data.py:104-107 | a window of a uniform grid evaluates like the grid wherever both succeed |
| GridProperties.ClampedWindowAgrees | icepack/grid/grid_data.py:89-107 | the clamped window evaluates like the grid wherever both succeed |
| GridProperties.SubsetAgrees | icepack/grid/grid_data.py:89-107 | for a sub-grid of a uniform grid, with xmin <= xmax and ymin <= ymax, the sub-grid is valid and evaluates like the grid wherever both succeed |
| GridProperties.SmallGridCells | icepack/grid/grid_data.py:10-13 | on the axes 0, 1, 2, ... the points 0.5 and 1.5 lie in cells 0 and 1 |
| GridProperties.SmallGridWindow | icepack/grid/grid_data.py:93-101 | the clamped window of that grid for [0.5, 1.5] x [0.5, 1.5] is its first three rows and columns |
| GridProperties.SubsetOfSmallGrid | icepack/grid/grid_data.py:89-102 | `subset(0.5, 0.5, 1.5, 1.5)` of that grid returns the grid on [0, 1, 2] x [0, 1, 2] |

## Left out

- Floating point: coordinates and samples are mathematical reals. The divisions by `x[1] - x[0]` are exact, with no rounding, overflow, NaN or infinity.
- Aliasing: `__init__` keeps the caller's arrays without copying them, and `subset` returns numpy views. The model treats all arrays as immutable values, so a later write by the caller is not modelled.
- Error messages: a failure carries an `Error` value, not the message text.
- GridIndex.IndexOfPoint: requires both axes to have at least two entries, the second above the first. The source behaves differently on other numpy axes, and those paths are not modelled: an axis of one entry raises IndexError for a point on its single grid line (the only point that passes the domain check, after which `x[1]` or `y[1]` is read) and otherwise fails the domain check with the ordinary ValueError; an axis with x[1] == x[0] divides by zero, which numpy turns into inf or nan with a warning, and `int()` then raises OverflowError (X > x[0]) or ValueError (X == x[0]); an axis that decreases throughout (x[-1] < x[0]) fails every domain check with the ordinary ValueError; only an axis whose first step goes down while x[-1] >= x[0] yields negative indices, which Python counts from the end.
- Non-uniform axes: the lookup and the interpolation are modelled on any `Indexable` axis, but the geometric lemmas (cell bracketing, node reproduction, coverage and agreement of sub-grids) assume `Uniform` axes, as the code silently does.
- Grid.GridData.At: takes non-negative, in-range indices only. Negative indices, which numpy counts from the end, are not modelled.
- Grid.Make: a mask whose shape differs from the samples' is refused with MaskShapeMismatch. numpy instead reshapes a mask with as many entries as the data, broadcasts a one-entry mask, and raises MaskError otherwise.
- Grid.Make: samples with zero rows carry no column count, so `HasShape` accepts them for any `len(x)`. numpy would still compare its recorded column count with `len(x)`.
- Arrays that are not two-dimensional (where unpacking `data.shape` fails) are outside the `DataArg` type.
- icepack/models/friction.py is not part of this model: it builds symbolic expressions through a finite-element framework.
- scripts/ucd.py is not part of this model: it is file input and text conversion.
