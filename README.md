# ScAnalyzer per-cell quantification, modelled in Dafny

ScAnalyzer measures leaves on a fixed grid of 18 columns by 7 rows (cells of
261 by 477 pixels). It uses two aligned scans: a colour scan of the leaves
and a scan of the film that shows bacterial signal. For every grid cell it:

- crops both scans to the cell;
- finds the leaf as the largest contour of the saturated pixels;
- counts the bacterial pixels inside the leaf and sums the areas of the
  chlorotic (yellow) regions;
- writes one record with the cell's labels, five metadata values read from
  a CSV sample list, and the three areas.

Leaves of 400 pixels or fewer give "NA" in all three area fields. The
annotated crops are joined into two collages.

The model keeps the source's structure:

- `Image` (image.dfy): pixel types, numpy's clamped slicing, `crop` and
  `calculate_area`.
- `Threshold` (threshold.dfy): the pixel rules built from `inRange`,
  `bitwise_and` with a mask, and `~`.
- `Contours` (contours.dfy): the choice of the largest contour, the filled
  leaf mask, and the `find_chlorosis` loop. That loop is a method that
  paints an `array2` mask in place.
- `Metadata` (metadata.dfy): `read_metadata` over the rows that `csv.reader`
  yields.
- `CollageAssembly` (collage.dfy): `hconcat`/`vconcat` and the theorem that
  the collage is the scan cut to the grid.
- `Scanalyzer` (scanalyzer.dfy): the record of a cell, and the nested
  column-major traversal as methods over sequences.
- `Wrappers` (wrappers.dfy): `Option` and `Result`.

The grid is a `Config` value; `Scanalyzer.Grid` holds the source's constants.
OpenCV's colour conversions and contour finder are passed in as the `Vision`
value (see "Left out").

Where the code is explicit about a behaviour, the model follows the code:

- An invalid cell's record holds "NA" for the leaf area too, not only for
  the bacteria and chlorosis areas (scanalyzer.py:226).
- `read_metadata` does not check that the five tables have equal sizes. A
  table that is too small only fails when the main loop indexes it.
- `crop` silently truncates at the scan's edge.
- `find_leaf` returns `None` when there is no contour. `calculate_area(None)`
  is then 0.

## Model

| member | source | states |
|---|---|---|
| Image.CropPixels | scanalyzer.py:40-44 | every crop pixel `(i, j)` has `i < dx`, `j < dy` and equals scan pixel `(row*dx + i, column*dy + j)` |
| Image.CropHasPixel | scanalyzer.py:40-44 | conversely, every scan pixel of the addressed cell that the scan holds is in the crop, at its offset from the cell's corner |
| Image.CropShape | scanalyzer.py:40-44 | when the scan reaches `(row+1)*dx` rows and `(column+1)*dy` columns, the crop is exactly `dx` by `dy` |
| Image.Area | scanalyzer.py:52-56 | the white-pixel count never exceeds the number of pixels |
| Image.AreaIsCount | scanalyzer.py:52-56 | `calculate_area` equals the number of coordinates whose pixel is 255 |
| Image.BlackArea | scanalyzer.py:52-56 | an all-zero mask has area 0 |
| Image.AreaMonotone | scanalyzer.py:52-56 | a mask whose white pixels are all white in another has no larger area |
| Image.PixelCountShape | scanalyzer.py:145 | a `dx` by `dy` mask has `dx * dy` pixels |
| Threshold.BitAnd | scanalyzer.py:70 | uint8 `&` never exceeds either operand, and a value anded with itself is unchanged |
| Threshold.HsvAnd | scanalyzer.py:95 | channel-wise `&` of an HSV pixel with itself leaves it unchanged |
| Threshold.BitwiseAndSelf | scanalyzer.py:70 | `bitwise_and(img, img, mask=m)` keeps a pixel where `m` is non-zero and sets it to zero elsewhere; with no mask the result is the image itself |
| Threshold.LeafBand | scanalyzer.py:132-137 | a leaf-band pixel is 255 exactly when its saturation is above 75, else 0: the hue and value bounds cover every byte |
| Threshold.BacteriaMask | scanalyzer.py:64-73 | a bacteria pixel is 255 exactly when the leaf-masked inverted grey value exceeds the threshold, else 0 |
| Threshold.YellowMask | scanalyzer.py:94-108 | a chlorosis pixel is 255 exactly when it passes the leaf mask and `12<=H<=37`, `50<=S<=210`, `V>=170`; a pixel the mask zeroes is never selected |
| Threshold.BacteriaWithinLeaf | scanalyzer.py:67-73 | with threshold >= 0, every bacteria pixel lies inside the binary leaf mask, so the bacteria area is at most the leaf area |
| Contours.Largest | scanalyzer.py:146 | `max(contours, key=contourArea)` returns a contour of maximal area, and no contour before it has that area (the first of equal maxima wins) |
| Contours.FillArea | scanalyzer.py:145-146 | the area of a filled mask is the number of distinct in-bounds drawn points |
| Contours.FindLeaf | scanalyzer.py:126-150 | `None` exactly when there are no contours; otherwise a binary `dx` by `dy` mask that is white exactly on the fill of the largest contour |
| Contours.FindLeafArea | scanalyzer.py:208-209 | the leaf area is 0 when `find_leaf` finds no contour, and otherwise the number of distinct in-bounds pixels the largest contour fills |
| Contours.TotalAreaNonNegative | scanalyzer.py:112-118 | the chlorosis area, summed from 0, is non-negative when every contour area is |
| Contours.CoveredIff | scanalyzer.py:113-122 | a pixel is painted exactly when some contour's fill contains it |
| Contours.Paint | scanalyzer.py:122 | filling one contour sets its in-bounds points to 255 and leaves every other pixel unchanged |
| Contours.FindChlorosis | scanalyzer.py:111-124 | the loop returns a fresh `dx` by `dy` mask, white exactly on the pixels some contour fills, and an area equal to the sum of the contour areas |
| Metadata.BlockContents | scanalyzer.py:163-169 | a block is read exactly when its first row exists and its rows share one length; the table is rows `start+1 ..` of the block without their first cell |
| Metadata.BlockShape | scanalyzer.py:165-169 | eight rows of width `w >= 1` give a table of 7 rows of `w - 1` values |
| Metadata.ReadMetadataFields | scanalyzer.py:152-172 | a successful read returns `csvraw[0][1]`, `[1][1]`, `[2][1]` and exactly the blocks at rows 4, 13, 22, 31 and 40 |
| Metadata.ReadMetadataFails | scanalyzer.py:152-172 | reading fails exactly when a header cell is missing or a block is malformed |
| Metadata.ReadMetadataShape | scanalyzer.py:152-172 | a 48-row file of uniform width `w >= 2` reads to five tables of 7 by `w - 1` |
| CollageAssembly.FlattenAt | scanalyzer.py:199-228 | appending blocks of `m` items puts item `r` of block `c` at position `c*m + r` |
| CollageAssembly.StripIsCrop | scanalyzer.py:231-235 | the `hconcat` strip of grid column `c` is the crop of that column `nrows*dy` pixels wide |
| CollageAssembly.CollageIsCrop | scanalyzer.py:231-239 | the collage equals the scan cut to its first `ncols*dx` rows and `nrows*dy` columns |
| CollageAssembly.CollagePixel | scanalyzer.py:231-239 | every pixel `(x, y)` of the crop of cell `(c, r)` that the scan holds is pixel `(c*dx + x, r*dy + y)` of the collage |
| CollageAssembly.CollageShape | scanalyzer.py:231-239 | when the scans cover the grid, the collage is exactly `ncols*dx` by `nrows*dy` |
| Scanalyzer.CellCropShape | scanalyzer.py:204-205 | every crop of a scan that covers the grid is a full `dx` by `dy` cell |
| Scanalyzer.MakeRecord | scanalyzer.py:222-226 | labels are `c+1` and `nrows-r`; the metadata come from index `[nrows-r-1][c]`, that is `[row-1][column-1]`; the areas are reported exactly when the leaf area exceeds 400, otherwise all three are NA |
| Scanalyzer.CellBacteriaWithinLeaf | scanalyzer.py:208-214 | when a leaf is found, the cell's bacteria area is at most its leaf area, which is at most `dx*dy` |
| Scanalyzer.CellAreas | scanalyzer.py:208-226 | a reported record has `400 < leaf <= dx*dy` and `bacteria <= leaf` |
| Scanalyzer.RecordAt | scanalyzer.py:199-228 | the traversal gives `ncols*nrows` records, and cell `(c, r)` is record `c*nrows + r` |
| Scanalyzer.MeasureCell | scanalyzer.py:204-226 | one pass of the loop body yields the cell's record |
| Scanalyzer.TraverseColumn | scanalyzer.py:200-228 | the inner loop yields the records of column `c` in row order and that column's crops |
| Scanalyzer.Traverse | scanalyzer.py:194-239 | the nested loops yield all records in column-major order and the two collages |
| Scanalyzer.Analyze | scanalyzer.py:191-239 | a metadata read error stops the run with that error; the run succeeds exactly when the metadata reads and the scans and tables cover the grid, and then yields the traversal's records and collages |
| Scanalyzer.FirstCellLabels | scanalyzer.py:222-224 | on the 18 by 7 grid, cell `(0, 0)` is labelled column 1, row 7, and reads metadata row 6, column 0 |

## Left out

- `cv2.cvtColor` is not modelled. The BGR-to-HSV and BGR-to-grey conversions are per-pixel functions passed in as `Vision.toHsv` and `Vision.toGrey`.
- `cv2.findContours` and `cv2.contourArea` are not modelled. A contour is given as its area (a real number, with no floating-point rounding) and the pixels that a filled `drawContours` covers. `Vision.findContours` supplies the contours of a mask.
- Annotation drawing (scanalyzer.py:79, 86, 102, 119) is not modelled. It draws on numpy views of the scans themselves. The model's collages are therefore the un-annotated crops. The unused `output` (scanalyzer.py:138) and `scan_crop_masked` (scanalyzer.py:96) are also not modelled.
- When `find_leaf` returns `None`, the detectors pass `None` on to OpenCV. `bitwise_and` without a mask keeps every pixel, and the model does the same. What `cv2.findContours(None)` then does is foreign behaviour and is not modelled. If it returns, the record is "NA", because the leaf area is 0. If it raises, the run stops with no output.
- Scanalyzer.Analyze: the source has no explicit size checks. A scan smaller than the grid, or a metadata table too small for it, fails inside OpenCV or as a numpy `IndexError`. The model reports `GridMismatch` or `MetadataOutOfRange` before the loop. Nothing is written before the loop ends, so the outcome is the same. One difference: when no leaf is found in the truncated cells, the source may run on with truncated crops.
- `overlay` (scanalyzer.py:46-50) is not modelled. It refers to an undefined global and nothing calls it.
- Serialization is not modelled: `str()` of the labels, the CSV text of the records (including `0` versus `0.0` for an empty chlorosis sum), and `data_writer`.
- I/O and process plumbing are not modelled: `is_valid_file`, `argparse`, `cv2.imread`, `cv2.imwrite` and the `Rscript` call.
