/**
 * Mapping a point to the lower-left corner of its grid cell
 * (`_index_of_point` in icepack/grid/grid_data.py).
 *
 * The lookup divides by the spacing of the first two axis entries, so it
 * is only geometrically meaningful on uniformly spaced axes; the index
 * bounds hold on any axis whose first step is positive.
 */
module GridIndex {
  import opened Wrappers

  /** The errors raised by the grid (each is a ValueError in the source). */
  datatype Error =
    | OutOfDomain        // the query point is outside the gridded rectangle
    | NotEnoughData      // a corner of the enclosing cell is masked
    | ShapeMismatch      // the sample array is not len(y) by len(x)
    | MaskShapeMismatch  // the explicit mask is not shaped like the samples
    | NoMaskGiven        // no way of finding the missing data was given

  /** What the lookup needs of an axis: a second entry to divide by, above the first. */
  predicate Indexable(a: seq<real>)
  {
    |a| >= 2 && a[0] < a[1]
  }

  /** The axes the grid is designed for: evenly spaced and increasing. */
  predicate Uniform(a: seq<real>)
  {
    Indexable(a) && forall k :: 0 <= k < |a| ==> a[k] == a[0] + k as real * (a[1] - a[0])
  }

  /** `v` lies in cell `k` of axis `a`: the cell is half-open, except the last, which is closed. */
  predicate InCell(a: seq<real>, k: nat, v: real)
    requires k + 1 < |a|
  {
    a[k] <= v && (v < a[k + 1] || (k == |a| - 2 && v == a[k + 1]))
  }

  /** Python's `int(r)` on a float: rounds toward zero. */
  function Trunc(r: real): (n: int)
    ensures 0.0 <= r ==> 0 <= n && n as real <= r < n as real + 1.0
    ensures r < 0.0 ==> n <= 0 && r <= n as real < r + 1.0
  {
    if r >= 0.0 then r.Floor else -((-r).Floor)
  }

  function Min(a: int, b: int): int { if b < a then b else a }

  /** The cell index along one axis: truncate the scaled offset, clamp to the last cell. */
  function CellIndex(a: seq<real>, v: real): (c: nat)
    requires Indexable(a) && a[0] <= v
    ensures c + 1 < |a|
  {
    var t := (v - a[0]) / (a[1] - a[0]);
    assert 0.0 <= t;
    Min(Trunc(t), |a| - 2)
  }

  /** How far `v` lies into its cell, in steps of the axis (`ax` and `ay` in `_bilinear_interp`). */
  function Offset(a: seq<real>, v: real): (t: real)
    requires Indexable(a) && a[0] <= v
    ensures a[CellIndex(a, v)] + t * (a[1] - a[0]) == v
  {
    var d, h := v - a[CellIndex(a, v)], a[1] - a[0];
    assert (d / h) * h == d by { DivMul(d, h); }
    d / h
  }

  /** The point's enclosing cell as (i, j): `i` indexes `y`, `j` indexes `x`. */
  function IndexOfPoint(x: seq<real>, y: seq<real>, X: real, Y: real): (r: Result<(nat, nat), Error>)
    requires Indexable(x) && Indexable(y)
    ensures r.Failure? <==> !(x[0] <= X <= x[|x| - 1] && y[0] <= Y <= y[|y| - 1])
    ensures r.Failure? ==> r.error == OutOfDomain
    ensures r.Success? ==> r.value.0 <= |y| - 2 && r.value.1 <= |x| - 2
    ensures r.Success? ==> r.value == (CellIndex(y, Y), CellIndex(x, X))
  {
    if !(x[0] <= X <= x[|x| - 1] && y[0] <= Y <= y[|y| - 1]) then
      Failure(OutOfDomain)
    else
      Success((CellIndex(y, Y), CellIndex(x, X)))
  }

  // ---------------------------------------------------------------------
  // Arithmetic facts, each about a single product or quotient.

  lemma DivMul(d: real, h: real)
    requires h != 0.0
    ensures (d / h) * h == d
  {
  }

  lemma DivLe(d1: real, d2: real, h: real)
    requires 0.0 < h
    ensures d1 <= d2 <==> d1 / h <= d2 / h
  {
  }

  lemma DivLt(d1: real, d2: real, h: real)
    requires 0.0 < h
    ensures d1 < d2 <==> d1 / h < d2 / h
  {
  }

  lemma MulDiv(p: real, h: real)
    requires 0.0 < h
    ensures (p * h) / h == p
  {
  }

  lemma DivSelf(h: real)
    requires h != 0.0
    ensures h / h == 1.0
  {
  }

  lemma DivZero(h: real)
    requires h != 0.0
    ensures 0.0 / h == 0.0
  {
  }

  lemma Distribute(p: real, q: real, h: real)
    ensures (p + q) * h == p * h + q * h
  {
  }

  // ---------------------------------------------------------------------
  // Properties of the per-axis lookup on uniform axes.

  /** Grid line `k` of a uniform axis is `k` steps from the first. */
  lemma NodeScaled(a: seq<real>, k: nat)
    requires Uniform(a) && k < |a|
    ensures (a[k] - a[0]) / (a[1] - a[0]) == k as real
  {
    var h := a[1] - a[0];
    assert a[k] - a[0] == k as real * h;
    MulDiv(k as real, h);
  }

  /** A uniform axis is increasing. */
  lemma UniformMonotone(a: seq<real>, k: nat, m: nat)
    requires Uniform(a) && k <= m < |a|
    ensures a[k] <= a[m]
  {
    NodeScaled(a, k);
    NodeScaled(a, m);
    DivLe(a[k] - a[0], a[m] - a[0], a[1] - a[0]);
  }

  /** Every entry of a uniform axis lies between its first and its last. */
  lemma UniformBounds(a: seq<real>, k: nat)
    requires Uniform(a) && k < |a|
    ensures a[0] <= a[k] <= a[|a| - 1]
  {
    UniformMonotone(a, 0, k);
    UniformMonotone(a, k, |a| - 1);
  }

  /** Consecutive entries of a uniform axis are one step apart. */
  lemma UniformStep(a: seq<real>, k: nat)
    requires Uniform(a) && k + 1 < |a|
    ensures a[k + 1] - a[k] == a[1] - a[0] && a[k] < a[k + 1]
  {
    var h := a[1] - a[0];
    assert a[k] == a[0] + k as real * h;
    assert a[k + 1] == a[0] + (k as real + 1.0) * h;
    Distribute(k as real, 1.0, h);
  }

  /** The cell the lookup picks contains `v`; this includes `v` on the last grid line. */
  lemma CellIndexBrackets(a: seq<real>, v: real)
    requires Uniform(a) && a[0] <= v <= a[|a| - 1]
    ensures InCell(a, CellIndex(a, v), v)
  {
    var h := a[1] - a[0];
    var t := (v - a[0]) / h;
    var c := CellIndex(a, v);
    DivLe(0.0, v - a[0], h);
    NodeScaled(a, c);
    NodeScaled(a, c + 1);
    DivLe(a[c] - a[0], v - a[0], h);
    if Trunc(t) <= |a| - 2 {
      DivLt(v - a[0], a[c + 1] - a[0], h);
    }
  }

  /** Conversely, a cell that contains `v` is the one the lookup picks. */
  lemma CellIndexUnique(a: seq<real>, v: real, k: nat)
    requires Uniform(a) && k + 1 < |a| && InCell(a, k, v)
    ensures a[0] <= v && CellIndex(a, v) == k
  {
    var h := a[1] - a[0];
    var t := (v - a[0]) / h;
    UniformBounds(a, k);
    NodeScaled(a, k);
    NodeScaled(a, k + 1);
    DivLe(a[k] - a[0], v - a[0], h);
    if v < a[k + 1] {
      DivLt(v - a[0], a[k + 1] - a[0], h);
      assert Trunc(t) == k;
    } else {
      assert Trunc(t) == k + 1;
    }
  }

  /** At grid line `k` the lookup answers `k`, clamped to the last cell. */
  lemma CellIndexAtNode(a: seq<real>, k: nat)
    requires Uniform(a) && k < |a|
    ensures a[0] <= a[k] && CellIndex(a, a[k]) == Min(k, |a| - 2)
  {
    UniformBounds(a, k);
    if k + 1 < |a| {
      UniformStep(a, k);
      CellIndexUnique(a, a[k], k);
    } else {
      CellIndexUnique(a, a[k], |a| - 2);
    }
  }

  /** The lookup is monotone: a point further along lands in the same or a later cell. */
  lemma CellIndexMonotone(a: seq<real>, v: real, w: real)
    requires Indexable(a) && a[0] <= v <= w
    ensures CellIndex(a, v) <= CellIndex(a, w)
  {
    DivLe(v - a[0], w - a[0], a[1] - a[0]);
  }

  /** A run of at least two entries of a uniform axis is a uniform axis with the same step. */
  lemma SliceUniform(a: seq<real>, lo: nat, n: nat)
    requires Uniform(a) && 2 <= n && lo + n <= |a|
    ensures Uniform(a[lo..lo + n]) && a[lo + 1] - a[lo] == a[1] - a[0]
  {
    var h := a[1] - a[0];
    var s := a[lo..lo + n];
    UniformStep(a, lo);
    forall k | 0 <= k < n
      ensures s[k] == s[0] + k as real * (s[1] - s[0])
    {
      assert s[k] == a[lo + k] == a[0] + (lo + k) as real * h;
      assert s[0] == a[0] + lo as real * h;
      Distribute(lo as real, k as real, h);
    }
  }

  /**
   * Looking `v` up in a run `a[lo..lo+n]` of a uniform axis finds the same
   * cell as looking it up in `a`, shifted by `lo`, except when `v` is the
   * run's last grid line but not the axis's: then `a` puts `v` at the start
   * of the next cell.
   */
  lemma SliceCellIndex(a: seq<real>, lo: nat, n: nat, v: real)
    requires Uniform(a) && 2 <= n && lo + n <= |a| && a[lo] <= v <= a[lo + n - 1]
    ensures Uniform(a[lo..lo + n]) && a[0] <= v
    ensures var c, c' := CellIndex(a, v), CellIndex(a[lo..lo + n], v);
      c == lo + c' || (c == lo + c' + 1 && v == a[c])
  {
    var s := a[lo..lo + n];
    SliceUniform(a, lo, n);
    CellIndexBrackets(s, v);
    var c' := CellIndex(s, v);
    var k := lo + c';
    assert s[c'] == a[k] && s[c' + 1] == a[k + 1];
    if v < a[k + 1] {
      CellIndexUnique(a, v, k);
    } else if k + 2 < |a| {
      UniformStep(a, k + 1);
      CellIndexUnique(a, v, k + 1);
    } else {
      CellIndexUnique(a, v, k);
    }
  }

  /**
   * Cell `c` at offset `t` of an axis and cell `c'` at offset `t'` of its
   * run starting at `lo` locate the same point: the same cell at the same
   * offset, or the run's cell ends where the axis's next cell begins.
   */
  predicate SameOrNext(c: int, c': int, lo: int, t: real, t': real)
  {
    (c == lo + c' && t == t') || (c == lo + c' + 1 && t == 0.0 && t' == 1.0)
  }

  /**
   * The offset of `v` within its cell, as a fraction of the step, seen from
   * the axis and from a run `a[lo..lo+n]` of it: either the two lookups pick
   * the same cell and the offsets agree, or `v` is the run's last grid line
   * but not the axis's, the axis puts it at offset 0 of the next cell and
   * the run at offset 1 of its last cell.
   */
  lemma SliceOffset(a: seq<real>, lo: nat, n: nat, v: real)
    requires Uniform(a) && 2 <= n && lo + n <= |a| && a[lo] <= v <= a[lo + n - 1]
    ensures Uniform(a[lo..lo + n]) && a[0] <= v
    ensures var s := a[lo..lo + n];
      var c, c' := CellIndex(a, v), CellIndex(s, v);
      s[1] - s[0] == a[1] - a[0] &&
      SameOrNext(c, c', lo, Offset(a, v), Offset(s, v))
  {
    var s := a[lo..lo + n];
    SliceUniform(a, lo, n);
    SliceCellIndex(a, lo, n, v);
    var c, c' := CellIndex(a, v), CellIndex(s, v);
    var h := a[1] - a[0];
    assert s[c'] == a[lo + c'] && s[1] - s[0] == h;
    assert Offset(a, v) == (v - a[c]) / h;
    assert Offset(s, v) == (v - s[c']) / h;
    if c != lo + c' {
      UniformStep(a, lo + c');
      assert v - s[c'] == h && v - a[c] == 0.0;
      DivSelf(h);
      DivZero(h);
    }
  }

  /**
   * The run of a uniform axis from the cell of `lo` to one grid line past
   * the cell of `hi` is a uniform axis with the same step that covers [lo, hi].
   */
  lemma RunCovers(a: seq<real>, lo: real, hi: real)
    requires Uniform(a) && a[0] <= lo <= hi <= a[|a| - 1]
    ensures var c0, c1 := CellIndex(a, lo), CellIndex(a, hi);
      c0 <= c1 && Uniform(a[c0..c1 + 2]) && a[c0 + 1] - a[c0] == a[1] - a[0] &&
      a[c0] <= lo && hi <= a[c1 + 1]
  {
    var c0, c1 := CellIndex(a, lo), CellIndex(a, hi);
    CellIndexMonotone(a, lo, hi);
    CellIndexBrackets(a, lo);
    CellIndexBrackets(a, hi);
    SliceUniform(a, c0, c1 + 2 - c0);
  }
}
