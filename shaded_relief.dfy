/** The finite-difference helpers of utils/shaded_relief.py: the centred slope of a
    profile (a loop form and a slice form), the one-cell edge padding of a grid, the
    slopes of a grid in both directions, and the shape of the hillshade built on them. */
module ShadedRelief {
  import opened Common

  // ---------------------------------------------------------------------------
  // Centred slope of a profile

  /** `npCenteredSlope(y, dx)`: `(y[2:] - y[:-2]) / (2*dx)`. The i-th value is the
      centred difference around `y[i + 1]`; a profile of fewer than three points has
      no interior point and gives no value (both slices are then empty). */
  function NpCenteredSlope(y: seq<real>, dx: real): (d: seq<real>)
    requires |y| >= 3 ==> dx != 0.0
    ensures |d| == Max(|y| - 2, 0)
    ensures forall i :: 0 <= i < |d| ==> d[i] == (y[i + 2] - y[i]) / (2.0 * dx)
  {
    var hi, lo := PySlice(y, 2, |y|), PySlice(y, 0, -2);
    assert |hi| == |lo| == Max(|y| - 2, 0);
    seq(|hi|, i requires 0 <= i < |hi| => (hi[i] - lo[i]) / (2.0 * dx))
  }

  /** `IterateCenteredSlope(y, dx)`: one value per point not at either end. It yields
      the same values as the slice form. */
  method IterateCenteredSlope(y: seq<real>, dx: real) returns (dydx: seq<real>)
    requires |y| >= 3 ==> dx != 0.0
    ensures |dydx| == Max(|y| - 2, 0)
    ensures forall i :: 0 <= i < |dydx| ==> dydx[i] == (y[i + 2] - y[i]) / (2.0 * dx)
    ensures dydx == NpCenteredSlope(y, dx)
  {
    dydx := [];
    var i := 1;
    while i < |y| - 1
      invariant 1 <= i <= Max(|y| - 1, 1)
      invariant |dydx| == i - 1
      invariant forall k :: 0 <= k < |dydx| ==> dydx[k] == (y[k + 2] - y[k]) / (2.0 * dx)
    {
      dydx := dydx + [(y[i + 1] - y[i - 1]) / (2.0 * dx)];
      i := i + 1;
    }
  }

  // ---------------------------------------------------------------------------
  // Edge padding

  /** `elevGrid[0, :]` or `elevGrid[:, 0]` of a grid with no rows or no columns. */
  datatype SlopeError = IndexError

  /** A grid `assignBCs` can pad: a 2-D array with at least one row and one column. */
  predicate Paddable(g: seq<seq<real>>)
  {
    Rectangular(g) && g != [] && g[0] != []
  }

  /** The index an edge-replicating pad reads for padded index `k + 1`. */
  function Clamp(k: int, n: int): (r: nat)
    requires n > 0
    ensures r < n
    ensures 0 <= k < n ==> r == k
  {
    if k < 0 then 0 else if k >= n then n - 1 else k
  }

  /** An independent reference: replicate the first and last rows, then the first and
      last cell of every row, as `np.pad(g, 1, mode='edge')`. Every padded cell copies
      the input cell nearest to it. */
  function EdgePad(g: seq<seq<real>>): (z: seq<seq<real>>)
    requires Paddable(g)
    ensures |z| == |g| + 2
    ensures forall i :: 0 <= i < |z| ==> |z[i]| == |g[0]| + 2
    ensures forall i, j :: 0 <= i < |z| && 0 <= j < |z[i]| ==>
      z[i][j] == g[Clamp(i - 1, |g|)][Clamp(j - 1, |g[0]|)]
  {
    var rows := [g[0]] + g + [g[|g| - 1]];
    assert forall i :: 0 <= i < |rows| ==> rows[i] == g[Clamp(i - 1, |g|)];
    seq(|rows|, i requires 0 <= i < |rows| => [rows[i][0]] + rows[i] + [rows[i][|rows[i]| - 1]])
  }

  /** Cell `(i, j)` of `assignBCs(g)`: the interior copies the grid, the padded rows and
      columns copy the adjacent edge row or column, and the corners are written last. */
  function PadCell(g: seq<seq<real>>, i: nat, j: nat): real
    requires Paddable(g) && i < |g| + 2 && j < |g[0]| + 2
  {
    var ny, nx := |g|, |g[0]|;
    if i == 0 && j == 0 then g[0][0]
    else if i == 0 && j == nx + 1 then g[0][nx - 1]
    else if i == ny + 1 && j == 0 then g[ny - 1][0]
    else if i == ny + 1 && j == nx + 1 then g[ny - 1][0]
    else if i == 0 then g[0][j - 1]
    else if i == ny + 1 then g[ny - 1][j - 1]
    else if j == 0 then g[i - 1][0]
    else if j == nx + 1 then g[i - 1][nx - 1]
    else g[i - 1][j - 1]
  }

  /** `assignBCs(elevGrid)` as a value: every cell but the bottom-right corner copies
      the input cell nearest to it, as the edge pad does; the bottom-right corner copies
      the bottom-left input cell. */
  function Padded(g: seq<seq<real>>): (z: seq<seq<real>>)
    requires Paddable(g)
    ensures |z| == |g| + 2
    ensures forall i :: 0 <= i < |z| ==> |z[i]| == |g[0]| + 2
    ensures forall i, j :: 0 <= i < |z| && 0 <= j < |z[i]| && !(i == |g| + 1 && j == |g[0]| + 1) ==>
      z[i][j] == EdgePad(g)[i][j]
    ensures z[|g| + 1][|g[0]| + 1] == g[|g| - 1][0]
  {
    seq(|g| + 2, i requires 0 <= i < |g| + 2 =>
      seq(|g[0]| + 2, j requires 0 <= j < |g[0]| + 2 => PadCell(g, i, j)))
  }

  /** The bottom-right corner differs from the edge pad as soon as the last row's
      first and last cells differ: for `[[0, 1]]` it is 0 where the edge pad has 1. */
  lemma BottomRightCornerCounterexample()
    ensures Padded([[0.0, 1.0]])[2][3] == 0.0
    ensures EdgePad([[0.0, 1.0]])[2][3] == 1.0
  {
    var g := [[0.0, 1.0]];
    assert Paddable(g);
    assert Clamp(1, 1) == 0 && Clamp(2, 2) == 1;
  }

  /** The rows of a 2-D array. */
  function Rows(a: array2<real>): (g: seq<seq<real>>)
    reads a
    ensures |g| == a.Length0
    ensures forall i :: 0 <= i < |g| ==> |g[i]| == a.Length1
    ensures forall i, j :: 0 <= i < a.Length0 && 0 <= j < a.Length1 ==> g[i][j] == a[i, j]
  {
    seq(a.Length0, i requires 0 <= i < a.Length0 reads a =>
      seq(a.Length1, j requires 0 <= j < a.Length1 reads a => a[i, j]))
  }

  /** `assignBCs(elevGrid)`: a new array two rows and two columns larger than the grid,
      filled in place. A grid without rows or columns fails when its first row or
      column is read. */
  method AssignBCs(g: array2<real>) returns (r: Result<array2<real>, SlopeError>)
    ensures r.Err? <==> g.Length0 == 0 || g.Length1 == 0
    ensures r.Ok? ==> fresh(r.value)
    ensures r.Ok? ==>
      && r.value.Length0 == g.Length0 + 2 && r.value.Length1 == g.Length1 + 2
      && Paddable(Rows(g))
      && forall i, j :: 0 <= i < r.value.Length0 && 0 <= j < r.value.Length1 ==>
           r.value[i, j] == Padded(Rows(g))[i][j]
  {
    var ny, nx := g.Length0, g.Length1;
    var z := new real[ny + 2, nx + 2]((i, j) => 0.0);
    for i := 0 to ny
      invariant forall a, b :: 1 <= a <= i && 1 <= b <= nx ==> z[a, b] == g[a - 1, b - 1]
    {
      var row := i + 1;
      for j := 0 to nx
        invariant forall a, b :: 1 <= a <= i && 1 <= b <= nx ==> z[a, b] == g[a - 1, b - 1]
        invariant forall b :: 1 <= b <= j ==> z[row, b] == g[i, b - 1]
      {
        z[row, j + 1] := g[i, j];
      }
    }
    if ny == 0 || nx == 0 {
      return Err(IndexError);
    }
    PadCells(z, g);
    r := Ok(z);
  }

  /** The cells of the padded array `z` already written, by region. */
  ghost predicate InteriorDone(z: array2<real>, G: seq<seq<real>>)
    requires Paddable(G) && z.Length0 == |G| + 2 && z.Length1 == |G[0]| + 2
    reads z
  {
    forall a, b :: 1 <= a <= |G| && 1 <= b <= |G[0]| ==> z[a, b] == PadCell(G, a, b)
  }

  ghost predicate RowsDone(z: array2<real>, G: seq<seq<real>>)
    requires Paddable(G) && z.Length0 == |G| + 2 && z.Length1 == |G[0]| + 2
    reads z
  {
    var bottom := |G| + 1;
    forall b :: 1 <= b <= |G[0]| ==> z[0, b] == PadCell(G, 0, b) && z[bottom, b] == PadCell(G, bottom, b)
  }

  ghost predicate ColumnsDone(z: array2<real>, G: seq<seq<real>>)
    requires Paddable(G) && z.Length0 == |G| + 2 && z.Length1 == |G[0]| + 2
    reads z
  {
    var right := |G[0]| + 1;
    forall a :: 1 <= a <= |G| ==> z[a, 0] == PadCell(G, a, 0) && z[a, right] == PadCell(G, a, right)
  }

  /** The sides and corners of `assignBCs`, written into `z` whose interior already
      holds `g`. */
  method PadCells(z: array2<real>, g: array2<real>)
    requires z != g
    requires g.Length0 > 0 && g.Length1 > 0
    requires z.Length0 == g.Length0 + 2 && z.Length1 == g.Length1 + 2
    requires forall a, b :: 1 <= a <= g.Length0 && 1 <= b <= g.Length1 ==> z[a, b] == g[a - 1, b - 1]
    modifies z
    ensures Paddable(Rows(g))
    ensures forall i, j :: 0 <= i < z.Length0 && 0 <= j < z.Length1 ==> z[i, j] == Padded(Rows(g))[i][j]
  {
    var ny, nx := g.Length0, g.Length1;
    ghost var G := Rows(g);
    assert Paddable(G);
    assert InteriorDone(z, G);
    PadRows(z, g, G);
    PadColumns(z, g, G);
    PadCorners(z, g, G);
    PadComplete(z, G);
  }

  /** `Zbc[0, 1:-1] = elevGrid[0, :]` and `Zbc[-1, 1:-1] = elevGrid[-1, :]`. */
  method PadRows(z: array2<real>, g: array2<real>, ghost G: seq<seq<real>>)
    requires z != g && G == Rows(g) && Paddable(G)
    requires z.Length0 == g.Length0 + 2 && z.Length1 == g.Length1 + 2
    requires InteriorDone(z, G)
    modifies z
    ensures InteriorDone(z, G) && RowsDone(z, G)
  {
    var ny, nx := g.Length0, g.Length1;
    var bottom := ny + 1;
    for j := 0 to nx
      invariant InteriorDone(z, G)
      invariant forall b :: 1 <= b <= j ==> z[0, b] == PadCell(G, 0, b) && z[bottom, b] == PadCell(G, bottom, b)
    {
      z[0, j + 1] := g[0, j];
      z[bottom, j + 1] := g[ny - 1, j];
    }
  }

  /** `Zbc[1:-1, 0] = elevGrid[:, 0]` and `Zbc[1:-1, -1] = elevGrid[:, -1]`. */
  method PadColumns(z: array2<real>, g: array2<real>, ghost G: seq<seq<real>>)
    requires z != g && G == Rows(g) && Paddable(G)
    requires z.Length0 == g.Length0 + 2 && z.Length1 == g.Length1 + 2
    requires InteriorDone(z, G) && RowsDone(z, G)
    modifies z
    ensures InteriorDone(z, G) && RowsDone(z, G) && ColumnsDone(z, G)
  {
    var ny, nx := g.Length0, g.Length1;
    var right := nx + 1;
    for i := 0 to ny
      invariant InteriorDone(z, G) && RowsDone(z, G)
      invariant forall a :: 1 <= a <= i ==> z[a, 0] == PadCell(G, a, 0) && z[a, right] == PadCell(G, a, right)
    {
      z[i + 1, 0] := g[i, 0];
      z[i + 1, right] := g[i, nx - 1];
    }
  }

  /** The four corners; the bottom-right one is copied from `elevGrid[-1, 0]`. */
  method PadCorners(z: array2<real>, g: array2<real>, ghost G: seq<seq<real>>)
    requires z != g && G == Rows(g) && Paddable(G)
    requires z.Length0 == g.Length0 + 2 && z.Length1 == g.Length1 + 2
    requires InteriorDone(z, G) && RowsDone(z, G) && ColumnsDone(z, G)
    modifies z
    ensures InteriorDone(z, G) && RowsDone(z, G) && ColumnsDone(z, G)
    ensures z[0, 0] == G[0][0] && z[0, |G[0]| + 1] == G[0][|G[0]| - 1]
    ensures z[|G| + 1, 0] == G[|G| - 1][0] && z[|G| + 1, |G[0]| + 1] == G[|G| - 1][0]
  {
    var ny, nx := g.Length0, g.Length1;
    z[0, 0] := g[0, 0];
    z[0, nx + 1] := g[0, nx - 1];
    z[ny + 1, 0] := g[ny - 1, 0];
    z[ny + 1, nx + 1] := g[ny - 1, 0];
  }

  /** Once every region and the four corners are written, `z` is `assignBCs(g)`. */
  lemma PadComplete(z: array2<real>, G: seq<seq<real>>)
    requires Paddable(G) && z.Length0 == |G| + 2 && z.Length1 == |G[0]| + 2
    requires InteriorDone(z, G) && RowsDone(z, G) && ColumnsDone(z, G)
    requires z[0, 0] == G[0][0] && z[0, |G[0]| + 1] == G[0][|G[0]| - 1]
    requires z[|G| + 1, 0] == G[|G| - 1][0] && z[|G| + 1, |G[0]| + 1] == G[|G| - 1][0]
    ensures forall i, j :: 0 <= i < z.Length0 && 0 <= j < z.Length1 ==> z[i, j] == Padded(G)[i][j]
  {
    forall i, j | 0 <= i < z.Length0 && 0 <= j < z.Length1
      ensures z[i, j] == Padded(G)[i][j]
    {
      assert Padded(G)[i][j] == PadCell(G, i, j);
      if (i == 0 || i == |G| + 1) && (j == 0 || j == |G[0]| + 1) {
      } else if i == 0 || i == |G| + 1 {
      } else if j == 0 || j == |G[0]| + 1 {
      } else {
      }
    }
  }

  // ---------------------------------------------------------------------------
  // Slopes of a grid

  /** `(Z[1:-1, 2:] - Z[1:-1, :-2]) / (2*dx)` of a padded grid `z`. */
  function SlopesX(z: seq<seq<real>>, dx: real): (sx: seq<seq<real>>)
    requires Rectangular(z) && |z| >= 2 && |z[0]| >= 2 && dx != 0.0
    ensures |sx| == |z| - 2 && forall r :: 0 <= r < |sx| ==> |sx[r]| == |z[0]| - 2
  {
    seq(|z| - 2, r requires 0 <= r < |z| - 2 =>
      seq(|z[0]| - 2, c requires 0 <= c < |z[0]| - 2 => (z[r + 1][c + 2] - z[r + 1][c]) / (2.0 * dx)))
  }

  /** `(Z[2:, 1:-1] - Z[:-2, 1:-1]) / (2*dx)` of a padded grid `z`. */
  function SlopesY(z: seq<seq<real>>, dx: real): (sy: seq<seq<real>>)
    requires Rectangular(z) && |z| >= 2 && |z[0]| >= 2 && dx != 0.0
    ensures |sy| == |z| - 2 && forall r :: 0 <= r < |sy| ==> |sy[r]| == |z[0]| - 2
  {
    seq(|z| - 2, r requires 0 <= r < |z| - 2 =>
      seq(|z[0]| - 2, c requires 0 <= c < |z[0]| - 2 => (z[r + 2][c + 1] - z[r][c + 1]) / (2.0 * dx)))
  }

  /** Each column-direction slope of the padded grid in terms of the grid itself. */
  lemma PaddedSlopesX(g: seq<seq<real>>, dx: real)
    requires Paddable(g) && dx != 0.0
    ensures forall k, c :: 0 <= k < |g| && 0 <= c < |g[0]| ==>
      SlopesX(Padded(g), dx)[k][c] == (g[k][Min(c + 1, |g[0]| - 1)] - g[k][Max(c - 1, 0)]) / (2.0 * dx)
  {
    var z := Padded(g);
    forall k, c | 0 <= k < |g| && 0 <= c < |g[0]|
      ensures SlopesX(z, dx)[k][c] == (g[k][Min(c + 1, |g[0]| - 1)] - g[k][Max(c - 1, 0)]) / (2.0 * dx)
    {
      assert z[k + 1][c + 2] == g[k][Min(c + 1, |g[0]| - 1)];
      assert z[k + 1][c] == g[k][Max(c - 1, 0)];
    }
  }

  /** Each row-direction slope of the padded grid in terms of the grid itself. */
  lemma PaddedSlopesY(g: seq<seq<real>>, dx: real)
    requires Paddable(g) && dx != 0.0
    ensures forall k, c :: 0 <= k < |g| && 0 <= c < |g[0]| ==>
      SlopesY(Padded(g), dx)[k][c] == (g[Min(k + 1, |g| - 1)][c] - g[Max(k - 1, 0)][c]) / (2.0 * dx)
  {
    var z := Padded(g);
    forall k, c | 0 <= k < |g| && 0 <= c < |g[0]|
      ensures SlopesY(z, dx)[k][c] == (g[Min(k + 1, |g| - 1)][c] - g[Max(k - 1, 0)][c]) / (2.0 * dx)
    {
      assert z[k + 2][c + 1] == g[Min(k + 1, |g| - 1)][c];
      assert z[k][c + 1] == g[Max(k - 1, 0)][c];
    }
  }

  /** `calcFiniteSlopes(elevGrid, dx)`: the slopes in the column and row directions,
      with the grid's own shape. At an edge the missing neighbour is replaced by the
      cell itself, so the difference there spans one cell but is still divided by
      `2*dx`. */
  function CalcFiniteSlopes(g: seq<seq<real>>, dx: real): (r: Result<(seq<seq<real>>, seq<seq<real>>), SlopeError>)
    requires Rectangular(g)
    requires Paddable(g) ==> dx != 0.0
    ensures r.Err? <==> !Paddable(g)
    ensures r.Ok? ==> var (sx, sy) := r.value;
      && |sx| == |g| && |sy| == |g|
      && (forall k :: 0 <= k < |g| ==> |sx[k]| == |g[0]| && |sy[k]| == |g[0]|)
      && (forall k, c :: 0 <= k < |g| && 0 <= c < |g[0]| ==>
            sx[k][c] == (g[k][Min(c + 1, |g[0]| - 1)] - g[k][Max(c - 1, 0)]) / (2.0 * dx))
      && (forall k, c :: 0 <= k < |g| && 0 <= c < |g[0]| ==>
            sy[k][c] == (g[Min(k + 1, |g| - 1)][c] - g[Max(k - 1, 0)][c]) / (2.0 * dx))
  {
    if !Paddable(g) then Err(IndexError)
    else
      var z := Padded(g);
      var sx, sy := SlopesX(z, dx), SlopesY(z, dx);
      PaddedSlopesX(g, dx);
      PaddedSlopesY(g, dx);
      Ok((sx, sy))
  }

  /** Whether `(i, j)` is one of the four corners of a `rows` by `cols` grid. */
  predicate Corner(i: int, j: int, rows: int, cols: int)
  {
    (i == 0 || i == rows - 1) && (j == 0 || j == cols - 1)
  }

  /** The slopes never read a corner of the padded grid: two padded grids that agree
      everywhere else give the same slopes. */
  lemma CornersNeverRead(z: seq<seq<real>>, z': seq<seq<real>>, dx: real)
    requires Rectangular(z) && |z| >= 2 && |z[0]| >= 2 && dx != 0.0
    requires Rectangular(z') && |z'| == |z| && |z'[0]| == |z[0]|
    requires forall i, j :: 0 <= i < |z| && 0 <= j < |z[0]| && !Corner(i, j, |z|, |z[0]|) ==> z[i][j] == z'[i][j]
    ensures SlopesX(z, dx) == SlopesX(z', dx) && SlopesY(z, dx) == SlopesY(z', dx)
  {
    var n, m := |z|, |z[0]|;
    forall r, c | 0 <= r < n - 2 && 0 <= c < m - 2
      ensures SlopesX(z, dx)[r][c] == SlopesX(z', dx)[r][c] && SlopesY(z, dx)[r][c] == SlopesY(z', dx)[r][c]
    {
      assert !Corner(r + 1, c + 2, n, m) && !Corner(r + 1, c, n, m);
      assert !Corner(r + 2, c + 1, n, m) && !Corner(r, c + 1, n, m);
    }
    assert forall r :: 0 <= r < n - 2 ==> SlopesX(z, dx)[r] == SlopesX(z', dx)[r];
    assert forall r :: 0 <= r < n - 2 ==> SlopesY(z, dx)[r] == SlopesY(z', dx)[r];
  }

  /** So the slopes of `calcFiniteSlopes` are those of the edge pad: the wrong
      bottom-right corner of `assignBCs` has no effect on them. */
  lemma SlopesIgnoreBottomRightCorner(g: seq<seq<real>>, dx: real)
    requires Paddable(g) && dx != 0.0
    ensures Rectangular(Padded(g)) && Rectangular(EdgePad(g))
    ensures CalcFiniteSlopes(g, dx) == Ok((SlopesX(EdgePad(g), dx), SlopesY(EdgePad(g), dx)))
  {
    var z, e := Padded(g), EdgePad(g);
    forall i, j | 0 <= i < |z| && 0 <= j < |z[0]| && !Corner(i, j, |z|, |z[0]|)
      ensures z[i][j] == e[i][j]
    {
      assert !(i == |g| + 1 && j == |g[0]| + 1);
    }
    CornersNeverRead(z, e, dx);
  }

  /** A flat grid has no slope anywhere. */
  lemma ConstantGridFlat(g: seq<seq<real>>, dx: real, h: real)
    requires Paddable(g) && dx != 0.0
    requires forall k, c :: 0 <= k < |g| && 0 <= c < |g[k]| ==> g[k][c] == h
    ensures CalcFiniteSlopes(g, dx).Ok?
    ensures var (sx, sy) := CalcFiniteSlopes(g, dx).value;
      forall k, c :: 0 <= k < |g| && 0 <= c < |g[0]| ==> sx[k][c] == 0.0 && sy[k][c] == 0.0
  {
    var (sx, sy) := CalcFiniteSlopes(g, dx).value;
    forall k, c | 0 <= k < |g| && 0 <= c < |g[0]|
      ensures sx[k][c] == 0.0 && sy[k][c] == 0.0
    {
      assert g[k][Min(c + 1, |g[0]| - 1)] == h && g[k][Max(c - 1, 0)] == h;
      assert g[Min(k + 1, |g| - 1)][c] == h && g[Max(k - 1, 0)][c] == h;
    }
  }

  // ---------------------------------------------------------------------------
  // Hillshade

  /** `calcHillshade(elevGrid, dx, az, elev)` with the ESRI intensity for the chosen
      light direction given as `shade`, a function of the two slopes at a cell. The
      image has the grid's shape, and its cell is the shading of the slopes there. */
  function CalcHillshade(g: seq<seq<real>>, dx: real, shade: (real, real) -> real)
    : (r: Result<seq<seq<real>>, SlopeError>)
    requires Rectangular(g)
    requires Paddable(g) ==> dx != 0.0
    ensures r.Err? <==> !Paddable(g)
    ensures r.Ok? ==> |r.value| == |g| && forall k :: 0 <= k < |g| ==> |r.value[k]| == |g[0]|
    ensures r.Ok? ==> forall k, c :: 0 <= k < |g| && 0 <= c < |g[0]| ==>
      r.value[k][c] == shade(CalcFiniteSlopes(g, dx).value.0[k][c], CalcFiniteSlopes(g, dx).value.1[k][c])
  {
    match CalcFiniteSlopes(g, dx)
    case Err(e) => Err(e)
    case Ok((sx, sy)) =>
      Ok(seq(|g|, k requires 0 <= k < |g| =>
        seq(|g[0]|, c requires 0 <= c < |g[0]| => shade(sx[k][c], sy[k][c]))))
  }

  /** A flat grid is shaded evenly: every cell gets the intensity of a level surface. */
  lemma FlatGridEvenShade(g: seq<seq<real>>, dx: real, h: real, shade: (real, real) -> real)
    requires Paddable(g) && dx != 0.0
    requires forall k, c :: 0 <= k < |g| && 0 <= c < |g[k]| ==> g[k][c] == h
    ensures CalcHillshade(g, dx, shade).Ok?
    ensures forall k, c :: 0 <= k < |g| && 0 <= c < |g[0]| ==>
      CalcHillshade(g, dx, shade).value[k][c] == shade(0.0, 0.0)
  {
    ConstantGridFlat(g, dx, h);
  }
}
