/** Images as numpy holds them in scanalyzer.py: rectangular grids of pixels,
    indexed first by row (numpy axis 0, stepped by `dx` in the grid) and then
    by column (axis 1, stepped by `dy`). This module holds the pixel types,
    numpy's clamped slicing, the grid crop and the white-pixel count. */
module Image {

  /** An 8-bit channel value (numpy `uint8`). */
  type Byte = x: int | 0 <= x < 256

  /** A pixel after OpenCV's BGR-to-HSV conversion, one byte per channel. */
  datatype Hsv = Hsv(h: Byte, s: Byte, v: Byte)

  /** A pixel of a scan as `cv2.imread` loads it. */
  datatype Bgr = Bgr(b: Byte, g: Byte, r: Byte)

  /** The value OpenCV writes for a selected pixel of a binary mask. */
  const White: Byte := 255

  /** Every row of `img` has `w` pixels: numpy arrays are rectangular. */
  predicate IsRect<T>(img: seq<seq<T>>, w: nat) {
    forall i :: 0 <= i < |img| ==> |img[i]| == w
  }

  /** `img` is `h` rows of `w` pixels. */
  predicate HasShape<T>(img: seq<seq<T>>, h: nat, w: nat) {
    |img| == h && IsRect(img, w)
  }

  /** `img` has a pixel at `(i, j)`. */
  predicate HasPixel<T>(img: seq<seq<T>>, i: nat, j: nat) {
    i < |img| && j < |img[i]|
  }

  /** Python's `s[a:b]` for non-negative bounds: both ends are clamped to
      the length of `s`, and an empty or inverted range gives `[]`. */
  function Slice<T>(s: seq<T>, a: nat, b: nat): (r: seq<T>)
    ensures |r| == if b <= a || |s| <= a then 0 else (if b < |s| then b else |s|) - a
    ensures forall k :: 0 <= k < |r| ==> a + k < |s| && r[k] == s[a + k]
  {
    var lo := if a < |s| then a else |s|;
    var hi := if b < |s| then b else |s|;
    if hi <= lo then [] else s[lo..hi]
  }

  /** `crop(scan, row, column)`: the numpy view
      `scan[row*dx : (row+1)*dx, column*dy : (column+1)*dy]`. */
  function Crop<T>(scan: seq<seq<T>>, row: nat, column: nat, dx: nat, dy: nat): seq<seq<T>>
  {
    var rows := Slice(scan, row * dx, (row + 1) * dx);
    seq(|rows|, i requires 0 <= i < |rows| => Slice(rows[i], column * dy, (column + 1) * dy))
  }

  /** The crop holds exactly the scan's pixels at rows `row*dx ..` and
      columns `column*dy ..`, shifted to the origin, and nothing else. */
  lemma CropPixels<T>(scan: seq<seq<T>>, row: nat, column: nat, dx: nat, dy: nat, i: nat, j: nat)
    requires i < |Crop(scan, row, column, dx, dy)|
    requires j < |Crop(scan, row, column, dx, dy)[i]|
    ensures i < dx && j < dy
    ensures row * dx + i < |scan| && column * dy + j < |scan[row * dx + i]|
    ensures Crop(scan, row, column, dx, dy)[i][j] == scan[row * dx + i][column * dy + j]
  {
    var r := Crop(scan, row, column, dx, dy);
    assert (row + 1) * dx == row * dx + dx;
    assert (column + 1) * dy == column * dy + dy;
    assert r[i] == Slice(scan[row * dx + i], column * dy, (column + 1) * dy);
  }

  /** Conversely, every scan pixel of the addressed cell that the scan
      holds appears in the crop, shifted to the origin. */
  lemma CropHasPixel<T>(scan: seq<seq<T>>, row: nat, column: nat, dx: nat, dy: nat, i: nat, j: nat)
    requires i < dx && j < dy
    requires HasPixel(scan, row * dx + i, column * dy + j)
    ensures HasPixel(Crop(scan, row, column, dx, dy), i, j)
    ensures Crop(scan, row, column, dx, dy)[i][j] == scan[row * dx + i][column * dy + j]
  {
    assert (row + 1) * dx == row * dx + dx;
    assert (column + 1) * dy == column * dy + dy;
    var rows := Slice(scan, row * dx, (row + 1) * dx);
    assert rows[i] == scan[row * dx + i];
  }

  /** When the scan reaches the end of the addressed cell, the crop is
      exactly `dx` by `dy`. */
  lemma CropShape<T>(scan: seq<seq<T>>, row: nat, column: nat, dx: nat, dy: nat)
    requires (row + 1) * dx <= |scan|
    requires forall i :: 0 <= i < |scan| ==> (column + 1) * dy <= |scan[i]|
    ensures HasShape(Crop(scan, row, column, dx, dy), dx, dy)
  {
    assert (row + 1) * dx == row * dx + dx;
    assert (column + 1) * dy == column * dy + dy;
    var r := Crop(scan, row, column, dx, dy);
    forall i | 0 <= i < |r| ensures |r[i]| == dy {
      assert (column + 1) * dy <= |scan[row * dx + i]|;
    }
  }

  /** A `h` by `w` image has `h * w` pixels. */
  lemma {:induction false} PixelCountShape<T>(img: seq<seq<T>>, h: nat, w: nat)
    requires HasShape(img, h, w)
    ensures PixelCount(img) == h * w
  {
    if h > 0 {
      PixelCountShape(img[..h - 1], h - 1, w);
      assert (h - 1) * w + w == h * w;
    }
  }

  /** Number of pixels of `img`. */
  function PixelCount<T>(img: seq<seq<T>>): nat {
    if |img| == 0 then 0 else PixelCount(img[..|img| - 1]) + |img[|img| - 1]|
  }

  /** Count of the white (255) entries of one row. */
  function RowArea(row: seq<Byte>): (n: nat)
    ensures n <= |row|
  {
    if |row| == 0 then 0
    else RowArea(row[..|row| - 1]) + (if row[|row| - 1] == White then 1 else 0)
  }

  /** `calculate_area(binary_img)`: `np.sum(binary_img == 255)`, summed row by row. */
  function Area(img: seq<seq<Byte>>): (n: nat)
    ensures n <= PixelCount(img)
  {
    if |img| == 0 then 0 else Area(img[..|img| - 1]) + RowArea(img[|img| - 1])
  }

  /** The white pixels of row `i`, as coordinates. */
  function RowSelected(i: int, row: seq<Byte>): set<(int, int)> {
    set j | 0 <= j < |row| && row[j] == White :: (i, j)
  }

  /** The white pixels of `img`, as coordinates: the reference meaning of an area. */
  function Selected(img: seq<seq<Byte>>): set<(int, int)> {
    set i, j | 0 <= i < |img| && 0 <= j < |img[i]| && img[i][j] == White :: (i, j)
  }

  lemma {:induction false} RowAreaIsCount(i: int, row: seq<Byte>)
    ensures RowArea(row) == |RowSelected(i, row)|
  {
    if |row| > 0 {
      var m := |row| - 1;
      var init := row[..m];
      RowAreaIsCount(i, init);
      var last := if row[m] == White then {(i, m)} else {};
      assert RowSelected(i, row) == RowSelected(i, init) + last;
      assert (i, m) !in RowSelected(i, init);
    } else {
      assert RowSelected(i, row) == {};
    }
  }

  /** `calculate_area` is exactly the number of pixels equal to 255. */
  lemma {:induction false} AreaIsCount(img: seq<seq<Byte>>)
    ensures Area(img) == |Selected(img)|
  {
    if |img| > 0 {
      var n := |img| - 1;
      var init := img[..n];
      AreaIsCount(init);
      RowAreaIsCount(n, img[n]);
      assert Selected(img) == Selected(init) + RowSelected(n, img[n]);
      assert Selected(init) !! RowSelected(n, img[n]);
    } else {
      assert Selected(img) == {};
    }
  }

  /** An all-black mask has area 0. */
  lemma BlackArea(img: seq<seq<Byte>>)
    requires forall i, j :: 0 <= i < |img| && 0 <= j < |img[i]| ==> img[i][j] == 0
    ensures Area(img) == 0
  {
    AreaIsCount(img);
    assert Selected(img) == {};
  }

  /** If every white pixel of `a` is white in `b`, `a` has no more area than `b`. */
  lemma AreaMonotone(a: seq<seq<Byte>>, b: seq<seq<Byte>>)
    requires forall i, j :: 0 <= i < |a| && 0 <= j < |a[i]| && a[i][j] == White ==>
               i < |b| && j < |b[i]| && b[i][j] == White
    ensures Area(a) <= Area(b)
  {
    AreaIsCount(a);
    AreaIsCount(b);
    SubsetCard(Selected(a), Selected(b));
  }

  lemma {:induction false} SubsetCard<X>(s: set<X>, t: set<X>)
    requires s <= t
    ensures |s| <= |t|
  {
    if s != {} {
      var x :| x in s;
      SubsetCard(s - {x}, t - {x});
    }
  }
}
