/** The along-track resampling `show` and `waterfall_img` apply before shading: each
    column of the waterfall (one beam across all pings) is linearly interpolated at
    `n * k` evenly spaced points, `k` being the isometric stretch factor, and cells
    equal to 0.0 are masked as "no data". */
module Resample {
  import opened Common

  /** Why `show` or `waterfall_img` produce no image: no rows, a start index past the
      last row, rows of different widths (`np.array` refuses a ragged list), or a
      stretch factor that is not a usable width. */
  datatype ShowError = NoData | StartOutOfRange | Ragged | InvalidStretch

  /** The i-th of `m` points of `np.linspace(0, stop, m)`. */
  function Linspace(stop: real, m: nat, j: nat): (y: real)
    requires j < m
    ensures j == 0 ==> y == 0.0
    ensures m >= 2 && j == m - 1 ==> y == stop
  {
    if m == 1 then 0.0 else j as real * stop / (m - 1) as real
  }

  /** The point a fraction `t` of the way from `a` to `b`. */
  function Lerp(a: real, b: real, t: real): real
  {
    a + t * (b - a)
  }

  /** `np.interp(y, np.arange(n), col, left=0.0, right=0.0)`: linear interpolation
      between the samples at 0, 1, ..., n-1, and 0.0 outside `[0, n-1]`. */
  function Interp(col: seq<real>, y: real): (v: real)
    requires |col| >= 1
    ensures y < 0.0 || y > (|col| - 1) as real ==> v == 0.0
    ensures 0.0 <= y && y == y.Floor as real && y.Floor < |col| ==> v == col[y.Floor]
  {
    var n := |col|;
    if y < 0.0 || y > (n - 1) as real then 0.0
    else
      var i := y.Floor;
      if i == n - 1 then col[n - 1]
      else Lerp(col[i], col[i + 1], y - i as real)
  }

  lemma MulNonNeg(x: real, y: real)
    requires x >= 0.0 && y >= 0.0
    ensures x * y >= 0.0
  {
  }

  /** Inside the support the interpolated value lies between the smallest and the
      largest sample. */
  lemma InterpWithinColumn(col: seq<real>, y: real)
    requires |col| >= 1 && 0.0 <= y <= (|col| - 1) as real
    ensures Le(MinOf(col), Finite(Interp(col, y))) && Le(Finite(Interp(col, y)), MaxOf(col))
  {
    var n, i := |col|, y.Floor;
    var lo, hi := MinOf(col), MaxOf(col);
    assert Le(lo, Finite(col[0])) && Le(Finite(col[0]), hi);
    var l, h := lo.v, hi.v;
    if i < n - 1 {
      var t := y - i as real;
      var a, b := col[i], col[i + 1];
      assert 0.0 <= t <= 1.0;
      assert Interp(col, y) == Lerp(a, b, t);
      assert Le(lo, Finite(a)) && Le(lo, Finite(b));
      assert Le(Finite(a), hi) && Le(Finite(b), hi);
      SegmentWithin(a, b, t, l, h);
    } else {
      assert Interp(col, y) == col[n - 1];
      assert Le(lo, Finite(col[n - 1])) && Le(Finite(col[n - 1]), hi);
    }
  }

  /** A point of a segment whose ends lie in `[l, h]` lies there too. */
  lemma SegmentWithin(a: real, b: real, t: real, l: real, h: real)
    requires 0.0 <= t <= 1.0 && l <= a <= h && l <= b <= h
    ensures l <= Lerp(a, b, t) <= h
  {
    var d := t * (b - a);
    if a <= b {
      MulNonNeg(t, b - a);
      MulNonNeg(1.0 - t, b - a);
      assert (1.0 - t) * (b - a) == (b - a) - d;
      assert 0.0 <= d <= b - a;
    } else {
      var e := t * (a - b);
      MulNonNeg(t, a - b);
      MulNonNeg(1.0 - t, a - b);
      assert (1.0 - t) * (a - b) == (a - b) - e;
      assert d == -e;
      assert 0.0 <= e <= a - b;
    }
  }

  /** One column as `show` resamples it:
      `np.interp(np.linspace(0, n, n * k), np.arange(n), col, left=0.0, right=0.0)`. */
  function ResampleColumn(col: seq<real>, k: nat): (w: seq<real>)
    requires |col| >= 1
    ensures |w| == |col| * k
    // the first query, at 0, returns the first (newest) sample
    ensures k >= 1 ==> w[0] == col[0]
    // a query past the last sample index returns the fill value ...
    ensures forall j :: 0 <= j < |w| && Linspace(|col| as real, |w|, j) > (|col| - 1) as real ==> w[j] == 0.0
    // ... and so does the final query, which stands at n
    ensures |w| >= 2 ==> w[|w| - 1] == 0.0
  {
    var n, m := |col|, |col| * k;
    seq(m, j requires 0 <= j < m => Interp(col, Linspace(n as real, m, j)))
  }

  /** A two-ping column stretched by 1 loses its older sample: [5, 7] becomes [5, 0]. */
  lemma ResampleColumnDropsLastSample()
    ensures ResampleColumn([5.0, 7.0], 1) == [5.0, 0.0]
    ensures ResampleColumnIntended([5.0, 7.0], 1) == [5.0, 7.0]
  {
    var w := ResampleColumn([5.0, 7.0], 1);
    assert w[0] == 5.0 && w[1] == 0.0;
    ResampleColumnIntendedIdentity([5.0, 7.0]);
  }

  /** The resampling the isometry comment of `show` calls for: the query points span
      the sample indices `[0, n-1]`, `np.linspace(0, n - 1, n * k)`. */
  function ResampleColumnIntended(col: seq<real>, k: nat): (w: seq<real>)
    requires |col| >= 1
    ensures |w| == |col| * k
    ensures k >= 1 ==> w[0] == col[0] && w[|w| - 1] == col[|col| - 1]
  {
    var n, m := |col|, |col| * k;
    assert k >= 1 ==> m >= n;
    assert k >= 1 && n >= 2 ==> Linspace((n - 1) as real, m, m - 1) == (n - 1) as real;
    seq(m, j requires 0 <= j < m => Interp(col, Linspace((n - 1) as real, m, j)))
  }

  lemma LinspaceWithin(stop: real, m: nat, j: nat)
    requires j < m && stop >= 0.0
    ensures 0.0 <= Linspace(stop, m, j) <= stop
  {
    if m > 1 {
      var q := j as real / (m - 1) as real;
      assert 0.0 <= q <= 1.0;
      assert Linspace(stop, m, j) == q * stop;
    }
  }

  /** Every intended sample lies between the column's extremes. */
  lemma ResampleColumnIntendedWithin(col: seq<real>, k: nat)
    requires |col| >= 1
    ensures var w := ResampleColumnIntended(col, k);
      forall j :: 0 <= j < |w| ==> Le(MinOf(col), Finite(w[j])) && Le(Finite(w[j]), MaxOf(col))
  {
    var w := ResampleColumnIntended(col, k);
    forall j | 0 <= j < |w| ensures Le(MinOf(col), Finite(w[j])) && Le(Finite(w[j]), MaxOf(col)) {
      LinspaceWithin((|col| - 1) as real, |w|, j);
      InterpWithinColumn(col, Linspace((|col| - 1) as real, |w|, j));
    }
  }

  /** With a stretch factor of 1 the intended resampling returns the column itself. */
  lemma ResampleColumnIntendedIdentity(col: seq<real>)
    requires |col| >= 1
    ensures ResampleColumnIntended(col, 1) == col
  {
    var w, n := ResampleColumnIntended(col, 1), |col|;
    forall j | 0 <= j < n ensures w[j] == col[j] {
      var y := Linspace((n - 1) as real, n, j);
      if n > 1 {
        assert y == j as real;
      }
      assert y.Floor == j;
    }
  }

  /** `np.ceil((y_res / x_res) * zoom)`. It is not a usable integer when `x_res` is NaN
      or 0 (the quotient is NaN or infinite and `int()` raises). */
  function StretchFactor(xRes: Option<real>, yRes: real, zoom: real): (r: Result<int, ShowError>)
    ensures r.Ok? <==> xRes.Some? && xRes.value != 0.0
    ensures r.Ok? ==> yRes / xRes.value * zoom <= r.value as real < yRes / xRes.value * zoom + 1.0
  {
    if xRes.None? || xRes.value == 0.0 then Err(InvalidStretch)
    else Ok(Ceil(yRes / xRes.value * zoom))
  }

  /** The transposed, stretched grid: one row per column of `grid`, each `|grid| * k`
      samples long. */
  function StretchedGrid(grid: seq<seq<real>>, k: nat): (g: seq<seq<real>>)
    requires Rectangular(grid)
    ensures |g| == Width(grid)
    ensures forall c :: 0 <= c < |g| ==> g[c] == ResampleColumn(Column(grid, c), k)
    ensures forall c :: 0 <= c < |g| ==> |g[c]| == |grid| * k
  {
    seq(Width(grid), c requires 0 <= c < Width(grid) => ResampleColumn(Column(grid, c), k))
  }

  /** The loop `for column in np_grid.T: ... stretched_grid = np.append(stretched_grid, [w2], axis=0)`. */
  method StretchColumns(grid: seq<seq<real>>, k: nat) returns (stretched: seq<seq<real>>)
    requires Rectangular(grid)
    ensures stretched == StretchedGrid(grid, k)
  {
    stretched := [];
    for c := 0 to Width(grid)
      invariant |stretched| == c
      invariant forall i :: 0 <= i < c ==> stretched[i] == ResampleColumn(Column(grid, i), k)
    {
      var column := Column(grid, c);
      var w2 := ResampleColumn(column, k);
      stretched := stretched + [w2];
    }
  }

  /** A cell of a masked array. */
  datatype Cell = Masked | Data(depth: real)

  /** `np.ma.masked_values(x, 0.0)` compares with `isclose`, whose default absolute
      tolerance is 1e-8, so every value within 1e-8 of 0.0 is masked. */
  const MaskTolerance: real := 0.00000001

  function MaskGrid(g: seq<seq<real>>): (m: seq<seq<Cell>>)
    ensures |m| == |g|
    ensures forall i :: 0 <= i < |g| ==> |m[i]| == |g[i]|
    ensures forall i, j :: 0 <= i < |g| && 0 <= j < |g[i]| ==>
      (m[i][j].Masked? <==> -MaskTolerance <= g[i][j] <= MaskTolerance)
      && (m[i][j].Data? ==> m[i][j].depth == g[i][j])
  {
    seq(|g|, i requires 0 <= i < |g| =>
      seq(|g[i]|, j requires 0 <= j < |g[i]| =>
        if -MaskTolerance <= g[i][j] <= MaskTolerance then Masked else Data(g[i][j])))
  }

  /** Lines 194-205 of utils/emb.py, shared by every variant of `show`: the stretch
      factor, the stretched grid and its mask. `np.empty` refuses a negative width,
      which a non-empty grid with a negative factor asks for. */
  function Isometric(grid: seq<seq<real>>, xRes: Option<real>, yRes: real, zoom: real): (r: Result<seq<seq<Cell>>, ShowError>)
    requires Rectangular(grid)
    ensures r.Err? <==> StretchFactor(xRes, yRes, zoom).Err? || (|grid| > 0 && StretchFactor(xRes, yRes, zoom).value < 0)
    ensures r.Ok? ==> |r.value| == Width(grid)
    ensures r.Ok? && |grid| > 0 ==> forall c :: 0 <= c < |r.value| ==>
      |r.value[c]| == |grid| * StretchFactor(xRes, yRes, zoom).value
  {
    match StretchFactor(xRes, yRes, zoom)
    case Err(e) => Err(e)
    case Ok(k) =>
      if |grid| > 0 && k < 0 then Err(InvalidStretch)
      else Ok(MaskGrid(StretchedGrid(grid, if k < 0 then 0 else k)))
  }

  /** Lines 194-205 of utils/emb.py as statements: the factor, the loop over the
      columns, and the mask. */
  method StretchIsometric(grid: seq<seq<real>>, xRes: Option<real>, yRes: real, zoom: real)
    returns (r: Result<seq<seq<Cell>>, ShowError>)
    requires Rectangular(grid)
    ensures r == Isometric(grid, xRes, yRes, zoom)
  {
    var factor := StretchFactor(xRes, yRes, zoom);
    if factor.Err? {
      return Err(factor.error);
    }
    var k := factor.value;
    if |grid| > 0 && k < 0 {
      return Err(InvalidStretch);
    }
    var stretched := StretchColumns(grid, if k < 0 then 0 else k);
    r := Ok(MaskGrid(stretched));
  }

  /** When the resolutions agree and the zoom is 1 the factor is 1, so each column keeps
      its length; its first sample is kept and its last becomes masked fill. */
  lemma IsometricEqualResolutions(grid: seq<seq<real>>, res: real)
    requires Rectangular(grid) && |grid| >= 2 && |grid[0]| >= 1 && res != 0.0
    ensures var r := Isometric(grid, Some(res), res, 1.0);
      && r.Ok? && |r.value| == |grid[0]|
      && forall c :: 0 <= c < |grid[0]| ==>
           |r.value[c]| == |grid|
           && r.value[c][|grid| - 1] == Masked
           && (!(-MaskTolerance <= grid[0][c] <= MaskTolerance) ==> r.value[c][0] == Data(grid[0][c]))
  {
    assert res / res * 1.0 == 1.0;
    assert StretchFactor(Some(res), res, 1.0) == Ok(1);
  }
}
