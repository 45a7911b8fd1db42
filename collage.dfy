/** The collage assembly of the main loop (scanalyzer.py:199-239): per grid
    column `c`, the `nrows` cell crops are joined side by side with
    `cv2.hconcat`; the strips are then stacked with `cv2.vconcat`. */
module CollageAssembly {
  import opened Image

  /** The concatenation of a list of sequences, in order. */
  function Flatten<T>(xs: seq<seq<T>>): seq<T> {
    if |xs| == 0 then [] else Flatten(xs[..|xs| - 1]) + xs[|xs| - 1]
  }

  lemma {:induction false} FlattenLength<T>(xs: seq<seq<T>>, m: nat)
    requires forall k :: 0 <= k < |xs| ==> |xs[k]| == m
    ensures |Flatten(xs)| == |xs| * m
  {
    if |xs| > 0 {
      FlattenLength(xs[..|xs| - 1], m);
      assert (|xs| - 1) * m + m == |xs| * m;
    }
  }

  /** Joining blocks of `m` items puts item `r` of block `c` at position `c * m + r`. */
  lemma {:induction false} FlattenAt<T>(xs: seq<seq<T>>, m: nat, c: nat, r: nat)
    requires forall k :: 0 <= k < |xs| ==> |xs[k]| == m
    requires c < |xs| && r < m
    ensures c * m + r < |Flatten(xs)| && Flatten(xs)[c * m + r] == xs[c][r]
  {
    var n := |xs| - 1;
    FlattenLength(xs, m);
    FlattenLength(xs[..n], m);
    CellInGrid(c, |xs|, m, r);
    if c < n {
      FlattenAt(xs[..n], m, c, r);
      CellInGrid(c, n, m, r);
      assert xs[..n][c] == xs[c];
    } else {
      assert c * m == n * m;
    }
  }

  /** Every tile has the height of the first, as `cv2.hconcat` demands. */
  predicate SameHeight<T>(tiles: seq<seq<seq<T>>>) {
    forall k :: 0 <= k < |tiles| ==> |tiles[k]| == |tiles[0]|
  }

  /** `cv2.hconcat(tiles)`: row `x` of the result is row `x` of every tile,
      left to right. */
  function HConcat<T>(tiles: seq<seq<seq<T>>>): seq<seq<T>>
    requires SameHeight(tiles)
  {
    if |tiles| == 0 then []
    else seq(|tiles[0]|, x requires 0 <= x < |tiles[0]| =>
           Flatten(seq(|tiles|, k requires 0 <= k < |tiles| => tiles[k][x])))
  }

  /** `cv2.vconcat(strips)`: the rows of the strips, top to bottom. */
  function VConcat<T>(strips: seq<seq<seq<T>>>): seq<seq<T>> {
    Flatten(strips)
  }

  /** The crops of grid column `c`, for `r` in `0 .. nrows`, in the order
      the inner loop appends them. */
  function StripTiles<T>(scan: seq<seq<T>>, c: nat, dx: nat, dy: nat, nrows: nat): (r: seq<seq<seq<T>>>)
    ensures |r| == nrows && SameHeight(r)
  {
    seq(nrows, k requires 0 <= k < nrows => Crop(scan, c, k, dx, dy))
  }

  /** `row_leaves = cv2.hconcat(leaves_annotated)` for grid column `c`. */
  function Strip<T>(scan: seq<seq<T>>, c: nat, dx: nat, dy: nat, nrows: nat): seq<seq<T>> {
    HConcat(StripTiles(scan, c, dx, dy, nrows))
  }

  /** The strips of the first `n` grid columns, as the outer loop appends them. */
  function Strips<T>(scan: seq<seq<T>>, dx: nat, dy: nat, nrows: nat, n: nat): seq<seq<seq<T>>> {
    seq(n, c requires 0 <= c < n => Strip(scan, c, dx, dy, nrows))
  }

  /** Proof step for the outer loop: one more column appends its strip. */
  lemma StripsNext<T>(scan: seq<seq<T>>, dx: nat, dy: nat, nrows: nat, n: nat)
    ensures Strips(scan, dx, dy, nrows, n + 1) == Strips(scan, dx, dy, nrows, n) + [Strip(scan, n, dx, dy, nrows)]
  {
  }

  /** `cv2.vconcat(leaves_annotated_collage)` over the `ncols` strips. */
  function Collage<T>(scan: seq<seq<T>>, dx: nat, dy: nat, nrows: nat, ncols: nat): seq<seq<T>> {
    VConcat(Strips(scan, dx, dy, nrows, ncols))
  }

  /** Proof step: adjacent clamped slices join up. */
  lemma SliceSplit<T>(s: seq<T>, a: nat, b: nat, c: nat)
    requires a <= b <= c
    ensures Slice(s, a, b) + Slice(s, b, c) == Slice(s, a, c)
  {
  }

  /** The `n` consecutive slices of width `m` of `s`. */
  function Bands<T>(s: seq<T>, m: nat, n: nat): (r: seq<seq<T>>)
    ensures |r| == n
  {
    seq(n, k requires 0 <= k < n => Slice(s, k * m, (k + 1) * m))
  }

  /** Proof step for `FlattenSlices`: dropping the last band, and what that band is. */
  lemma BandsPrefix<T>(s: seq<T>, m: nat, n: nat)
    requires n > 0
    ensures Bands(s, m, n)[..n - 1] == Bands(s, m, n - 1)
    ensures Bands(s, m, n)[n - 1] == Slice(s, (n - 1) * m, n * m)
  {
  }

  /** Proof step for `FlattenSlices`, kept apart to spare the solver nonlinear arithmetic. */
  lemma MulStep(n: nat, m: nat)
    requires n > 0
    ensures (n - 1) * m <= n * m
  {
  }

  /** Consecutive slices of width `m` join up to the slice of the first `n * m`. */
  lemma {:induction false} FlattenSlices<T>(s: seq<T>, m: nat, n: nat)
    ensures Flatten(Bands(s, m, n)) == Slice(s, 0, n * m)
  {
    if n > 0 {
      FlattenSlices(s, m, n - 1);
      BandsPrefix(s, m, n);
      MulStep(n, m);
      SliceSplit(s, 0, (n - 1) * m, n * m);
    }
  }

  /** The rows of `rows`, each cut to columns `[a, b)`. */
  function CutRows<T>(rows: seq<seq<T>>, a: nat, b: nat): seq<seq<T>> {
    seq(|rows|, i requires 0 <= i < |rows| => Slice(rows[i], a, b))
  }

  lemma {:induction false} FlattenCutRows<T>(xs: seq<seq<seq<T>>>, a: nat, b: nat)
    ensures Flatten(seq(|xs|, k requires 0 <= k < |xs| => CutRows(xs[k], a, b))) == CutRows(Flatten(xs), a, b)
  {
    if |xs| > 0 {
      var n := |xs| - 1;
      FlattenCutRows(xs[..n], a, b);
      assert seq(|xs|, k requires 0 <= k < |xs| => CutRows(xs[k], a, b))[..n]
          == seq(n, k requires 0 <= k < n => CutRows(xs[..n][k], a, b));
      assert CutRows(Flatten(xs[..n]) + xs[n], a, b) == CutRows(Flatten(xs[..n]), a, b) + CutRows(xs[n], a, b);
    }
  }

  /** The strip of grid column `c` is the crop of that column with the
      width of `nrows` cells. */
  lemma StripIsCrop<T>(scan: seq<seq<T>>, c: nat, dx: nat, dy: nat, nrows: nat)
    requires nrows > 0
    ensures Strip(scan, c, dx, dy, nrows) == Crop(scan, c, 0, dx, nrows * dy)
  {
    var tiles := StripTiles(scan, c, dx, dy, nrows);
    var s := Strip(scan, c, dx, dy, nrows);
    var want := Crop(scan, c, 0, dx, nrows * dy);
    assert |s| == |tiles[0]| == |want|;
    forall x | 0 <= x < |s| ensures s[x] == want[x] {
      var line := scan[c * dx + x];
      assert seq(|tiles|, k requires 0 <= k < |tiles| => tiles[k][x]) == Bands(line, dy, nrows);
      FlattenSlices(line, dy, nrows);
    }
  }

  /** A crop starting at column 0 is a band of rows, each cut to width `w`. */
  lemma CropAsCut<T>(scan: seq<seq<T>>, row: nat, dx: nat, w: nat)
    ensures Crop(scan, row, 0, dx, w) == CutRows(Slice(scan, row * dx, (row + 1) * dx), 0, w)
  {
    assert 0 * w == 0 && (0 + 1) * w == w;
  }

  /** The collage is the scan cut to the grid: its first `ncols * dx` rows,
      each cut to its first `nrows * dy` pixels (both truncated where the
      scan ends). */
  lemma CollageIsCrop<T>(scan: seq<seq<T>>, dx: nat, dy: nat, nrows: nat, ncols: nat)
    requires nrows > 0
    ensures Collage(scan, dx, dy, nrows, ncols) == Crop(scan, 0, 0, ncols * dx, nrows * dy)
  {
    var w := nrows * dy;
    var bands := Bands(scan, dx, ncols);
    StripsAsCut(scan, dx, dy, nrows, ncols);
    FlattenCutRows(bands, 0, w);
    FlattenSlices(scan, dx, ncols);
    CropAsCut(scan, 0, ncols * dx, w);
    assert 0 * (ncols * dx) == 0 && (0 + 1) * (ncols * dx) == ncols * dx;
  }

  /** Each strip is its band of `dx` rows cut to the width of the grid. */
  lemma StripsAsCut<T>(scan: seq<seq<T>>, dx: nat, dy: nat, nrows: nat, ncols: nat)
    requires nrows > 0
    ensures var bands := Bands(scan, dx, ncols);
            Strips(scan, dx, dy, nrows, ncols)
              == seq(|bands|, k requires 0 <= k < |bands| => CutRows(bands[k], 0, nrows * dy))
  {
    var w := nrows * dy;
    var bands := Bands(scan, dx, ncols);
    var strips := Strips(scan, dx, dy, nrows, ncols);
    var cut := seq(|bands|, k requires 0 <= k < |bands| => CutRows(bands[k], 0, w));
    forall c | 0 <= c < ncols ensures strips[c] == cut[c] {
      StripIsCrop(scan, c, dx, dy, nrows);
      CropAsCut(scan, c, dx, w);
    }
  }

  /** The collage mirrors the crops: every pixel `(x, y)` of the crop of
      cell `(c, r)` that the scan holds sits at `(c*dx + x, r*dy + y)` of
      the collage. */
  lemma CollagePixel<T>(scan: seq<seq<T>>, dx: nat, dy: nat, nrows: nat, ncols: nat, c: nat, r: nat, x: nat, y: nat)
    requires c < ncols && r < nrows && x < dx && y < dy
    requires HasPixel(scan, c * dx + x, r * dy + y)
    ensures HasPixel(Crop(scan, c, r, dx, dy), x, y)
    ensures HasPixel(Collage(scan, dx, dy, nrows, ncols), c * dx + x, r * dy + y)
    ensures Collage(scan, dx, dy, nrows, ncols)[c * dx + x][r * dy + y] == Crop(scan, c, r, dx, dy)[x][y]
  {
    CropHasPixel(scan, c, r, dx, dy, x, y);
    CollageIsCrop(scan, dx, dy, nrows, ncols);
    ScanPixelInGrid(scan, dx, dy, nrows, ncols, c, r, x, y);
  }

  /** Proof step for `CollagePixel`: a cell's scan pixel lies inside the grid-sized crop. */
  lemma ScanPixelInGrid<T>(scan: seq<seq<T>>, dx: nat, dy: nat, nrows: nat, ncols: nat, c: nat, r: nat, x: nat, y: nat)
    requires c < ncols && r < nrows
    requires x < dx && y < dy && c * dx + x < |scan| && r * dy + y < |scan[c * dx + x]|
    ensures var whole := Crop(scan, 0, 0, ncols * dx, nrows * dy);
            && c * dx + x < |whole| && r * dy + y < |whole[c * dx + x]|
            && whole[c * dx + x][r * dy + y] == scan[c * dx + x][r * dy + y]
  {
    CellInGrid(c, ncols, dx, x);
    CellInGrid(r, nrows, dy, y);
    OriginPixel(scan, ncols * dx, nrows * dy, c * dx + x, r * dy + y);
  }

  /** Proof step: a crop at the origin keeps the scan's own coordinates. */
  lemma OriginPixel<T>(scan: seq<seq<T>>, h: nat, w: nat, gx: nat, gy: nat)
    requires gx < h && gx < |scan| && gy < w && gy < |scan[gx]|
    ensures var whole := Crop(scan, 0, 0, h, w);
            gx < |whole| && gy < |whole[gx]| && whole[gx][gy] == scan[gx][gy]
  {
    CropAsCut(scan, 0, h, w);
    assert 0 * h == 0 && (0 + 1) * h == h;
  }

  /** Offset `x` of cell `c` of `n` cells of size `d` lies inside the grid. */
  lemma CellInGrid(c: nat, n: nat, d: nat, x: nat)
    requires c < n && x < d
    ensures c * d + x < n * d
  {
    assert (c + 1) * d <= n * d;
  }

  /** When the scan covers the grid, the collage has exactly the grid's
      size, `ncols * dx` rows of `nrows * dy` pixels. */
  lemma CollageShape<T>(scan: seq<seq<T>>, dx: nat, dy: nat, nrows: nat, ncols: nat)
    requires nrows > 0
    requires ncols * dx <= |scan| && forall i :: 0 <= i < |scan| ==> nrows * dy <= |scan[i]|
    ensures HasShape(Collage(scan, dx, dy, nrows, ncols), ncols * dx, nrows * dy)
  {
    CollageIsCrop(scan, dx, dy, nrows, ncols);
    assert (0 + 1) * (ncols * dx) == ncols * dx && (0 + 1) * (nrows * dy) == nrows * dy;
    CropShape(scan, 0, 0, ncols * dx, nrows * dy);
  }
}
