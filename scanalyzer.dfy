/** The main program of scanalyzer.py (lines 174-239): read the metadata,
    walk the grid column by column and, per cell, crop both scans, find the
    leaf, the bacterial signal and the chlorosis, build one output record,
    and collect the crops into two collages. */
module Scanalyzer {
  import opened Image
  import opened Wrappers
  import opened Threshold
  import opened Contours
  import opened Metadata
  import opened CollageAssembly

  /** Grid geometry: cell size `dx` (rows) by `dy` (columns), and the grid
      extents `nrows` and `ncols`. */
  datatype Config = Config(dx: nat, dy: nat, nrows: nat, ncols: nat)

  /** The module-level constants of scanalyzer.py:12-18. */
  const Grid := Config(261, 477, 7, 18)

  /** The threshold `find_bacteria` is called with (scanalyzer.py:213). */
  const BacteriaThreshold := 126

  /** Leaf areas up to this are not reported (scanalyzer.py:223). */
  const MinLeafArea := 400

  /** The OpenCV calls whose workings the model does not look into: the
      per-pixel colour conversions `cv2.cvtColor(..., COLOR_BGR2HSV)` and
      `COLOR_BGR2GRAY`, and `cv2.findContours` together with
      `cv2.contourArea`. */
  datatype Vision = Vision(
    toHsv: Bgr -> Hsv,
    toGrey: Bgr -> Byte,
    findContours: seq<seq<Byte>> -> seq<Contour>)

  /** The last three fields of a record: the three areas, or "NA" for all
      three when the leaf is too small. */
  datatype Areas = Measured(leaf: nat, bacteria: nat, chlorosis: real) | NotAvailable

  /** One row of the output table (scanalyzer.py:36): column and row labels,
      the five metadata values and the areas. */
  datatype Record = Record(
    column: nat, row: nat,
    bioassay: string, dpi: string, genotype: string, pathogen: string, treatment: string,
    areas: Areas)

  /** What a run produces: the records in traversal order and the two collages. */
  datatype Output = Output(records: seq<Record>, leavesCollage: seq<seq<Bgr>>, filmCollage: seq<seq<Bgr>>)

  /** Why a run stops before producing anything. */
  datatype RunError = BadMetadata(cause: MetadataError) | GridMismatch | MetadataOutOfRange

  /** The scan reaches the far edge of the grid along both axes. */
  predicate CoversGrid<T>(scan: seq<seq<T>>, cfg: Config) {
    cfg.ncols * cfg.dx <= |scan| && forall i :: 0 <= i < |scan| ==> cfg.nrows * cfg.dy <= |scan[i]|
  }

  /** `table[nrows-r-1][c]` is in range for every cell of the grid. */
  predicate TableCovers(table: Table, cfg: Config) {
    cfg.nrows <= |table| && forall i :: 0 <= i < cfg.nrows ==> cfg.ncols <= |table[i]|
  }

  predicate MetadataCovers(meta: Metadata, cfg: Config) {
    && TableCovers(meta.bioassays, cfg) && TableCovers(meta.dpis, cfg)
    && TableCovers(meta.genotypes, cfg) && TableCovers(meta.pathogens, cfg)
    && TableCovers(meta.treatments, cfg)
  }

  /** Every crop of a scan that covers the grid is one full cell. */
  lemma CellCropShape<T>(scan: seq<seq<T>>, cfg: Config, c: nat, r: nat)
    requires CoversGrid(scan, cfg) && c < cfg.ncols && r < cfg.nrows
    ensures HasShape(Crop(scan, c, r, cfg.dx, cfg.dy), cfg.dx, cfg.dy)
  {
    assert (c + 1) * cfg.dx <= cfg.ncols * cfg.dx;
    assert (r + 1) * cfg.dy <= cfg.nrows * cfg.dy;
    CropShape(scan, c, r, cfg.dx, cfg.dy);
  }

  /** The record of cell `(c, r)` from its three areas (scanalyzer.py:222-226).
      The labels count from 1, the row label from the bottom, and the
      metadata are read at row `row - 1`, column `column - 1` of each
      table. The areas are reported only when the leaf area exceeds 400;
      otherwise all three are "NA". */
  function MakeRecord(cfg: Config, meta: Metadata, c: nat, r: nat, leafArea: nat, bacteriaArea: nat, chlorosisArea: real): (rec: Record)
    requires c < cfg.ncols && r < cfg.nrows && MetadataCovers(meta, cfg)
    ensures 1 <= rec.column <= cfg.ncols && 1 <= rec.row <= cfg.nrows
    ensures rec.column - 1 == c && cfg.nrows - rec.row == r
    ensures var i, j := rec.row - 1, rec.column - 1;
            && rec.bioassay == meta.bioassays[i][j] && rec.dpi == meta.dpis[i][j]
            && rec.genotype == meta.genotypes[i][j] && rec.pathogen == meta.pathogens[i][j]
            && rec.treatment == meta.treatments[i][j]
    ensures rec.areas.Measured? <==> leafArea > MinLeafArea
    ensures rec.areas.Measured? ==> rec.areas == Measured(leafArea, bacteriaArea, chlorosisArea)
  {
    var i := cfg.nrows - r - 1;
    var areas := if leafArea > MinLeafArea then Measured(leafArea, bacteriaArea, chlorosisArea) else NotAvailable;
    Record(c + 1, cfg.nrows - r,
           meta.bioassays[i][c], meta.dpis[i][c], meta.genotypes[i][c], meta.pathogens[i][c], meta.treatments[i][c],
           areas)
  }

  /** The leaf cell in HSV: `cv2.cvtColor(crop(leaves, c, r), COLOR_BGR2HSV)`. */
  function CellHsv(cfg: Config, vision: Vision, leaves: seq<seq<Bgr>>, c: nat, r: nat): (hsv: seq<seq<Hsv>>)
    requires CoversGrid(leaves, cfg) && c < cfg.ncols && r < cfg.nrows
    ensures HasShape(hsv, cfg.dx, cfg.dy)
  {
    CellCropShape(leaves, cfg, c, r);
    MapImage(Crop(leaves, c, r, cfg.dx, cfg.dy), vision.toHsv)
  }

  /** The leaf mask of cell `(c, r)`: `find_leaf(crop(leaves, c, r))`. */
  function CellLeafMask(cfg: Config, vision: Vision, leaves: seq<seq<Bgr>>, c: nat, r: nat): Option<seq<seq<Byte>>>
    requires CoversGrid(leaves, cfg) && c < cfg.ncols && r < cfg.nrows
  {
    FindLeaf(vision.findContours(LeafBand(CellHsv(cfg, vision, leaves, c, r))), cfg.dx, cfg.dy)
  }

  /** `calculate_area(find_bacteria(crop(film, c, r), leaf_mask, 126)[0])`. */
  function CellBacteriaArea(cfg: Config, vision: Vision, leaves: seq<seq<Bgr>>, film: seq<seq<Bgr>>, c: nat, r: nat): nat
    requires CoversGrid(leaves, cfg) && CoversGrid(film, cfg) && c < cfg.ncols && r < cfg.nrows
  {
    CellCropShape(film, cfg, c, r);
    var grey := MapImage(Crop(film, c, r, cfg.dx, cfg.dy), vision.toGrey);
    Area(BacteriaMask(grey, CellLeafMask(cfg, vision, leaves, c, r), BacteriaThreshold))
  }

  /** The `yellow_area` that `find_chlorosis(crop(leaves, c, r), leaf_mask)` returns. */
  function CellChlorosisArea(cfg: Config, vision: Vision, leaves: seq<seq<Bgr>>, c: nat, r: nat): real
    requires CoversGrid(leaves, cfg) && c < cfg.ncols && r < cfg.nrows
  {
    TotalArea(vision.findContours(YellowMask(CellHsv(cfg, vision, leaves, c, r), CellLeafMask(cfg, vision, leaves, c, r))))
  }

  /** The loop body of scanalyzer.py:204-228 for cell `(c, r)`, as a value. */
  function Cell(cfg: Config, vision: Vision, meta: Metadata, leaves: seq<seq<Bgr>>, film: seq<seq<Bgr>>, c: nat, r: nat): Record
    requires c < cfg.ncols && r < cfg.nrows
    requires CoversGrid(leaves, cfg) && CoversGrid(film, cfg) && MetadataCovers(meta, cfg)
  {
    MakeRecord(cfg, meta, c, r,
               LeafArea(CellLeafMask(cfg, vision, leaves, c, r)),
               CellBacteriaArea(cfg, vision, leaves, film, c, r),
               CellChlorosisArea(cfg, vision, leaves, c, r))
  }

  /** Whenever a leaf is found, the cell's bacteria area is at most its
      leaf area, and the leaf area at most the cell's `dx * dy` pixels. */
  lemma CellBacteriaWithinLeaf(cfg: Config, vision: Vision, leaves: seq<seq<Bgr>>, film: seq<seq<Bgr>>, c: nat, r: nat)
    requires CoversGrid(leaves, cfg) && CoversGrid(film, cfg) && c < cfg.ncols && r < cfg.nrows
    requires CellLeafMask(cfg, vision, leaves, c, r).Some?
    ensures CellBacteriaArea(cfg, vision, leaves, film, c, r) <= LeafArea(CellLeafMask(cfg, vision, leaves, c, r)) <= cfg.dx * cfg.dy
  {
    CellCropShape(film, cfg, c, r);
    var m := CellLeafMask(cfg, vision, leaves, c, r).value;
    var grey := MapImage(Crop(film, c, r, cfg.dx, cfg.dy), vision.toGrey);
    PixelCountShape(m, cfg.dx, cfg.dy);
    BacteriaWithinLeaf(grey, m, BacteriaThreshold);
  }

  /** A reported cell has a leaf of more than 400 pixels, no more than the
      cell holds, and a bacteria area no larger than its leaf area: the
      bacteria mask only selects pixels inside the leaf. */
  lemma CellAreas(cfg: Config, vision: Vision, meta: Metadata, leaves: seq<seq<Bgr>>, film: seq<seq<Bgr>>, c: nat, r: nat)
    requires c < cfg.ncols && r < cfg.nrows
    requires CoversGrid(leaves, cfg) && CoversGrid(film, cfg) && MetadataCovers(meta, cfg)
    ensures var a := Cell(cfg, vision, meta, leaves, film, c, r).areas;
            a.Measured? ==> MinLeafArea < a.leaf <= cfg.dx * cfg.dy && a.bacteria <= a.leaf
  {
    if CellLeafMask(cfg, vision, leaves, c, r).Some? {
      CellBacteriaWithinLeaf(cfg, vision, leaves, film, c, r);
    }
  }

  /** The records of grid column `c`, rows `0 .. nrows`. */
  function ColumnRecords(cfg: Config, vision: Vision, meta: Metadata, leaves: seq<seq<Bgr>>, film: seq<seq<Bgr>>, c: nat): (rs: seq<Record>)
    requires c < cfg.ncols
    requires CoversGrid(leaves, cfg) && CoversGrid(film, cfg) && MetadataCovers(meta, cfg)
    ensures |rs| == cfg.nrows
  {
    seq(cfg.nrows, r requires 0 <= r < cfg.nrows => Cell(cfg, vision, meta, leaves, film, c, r))
  }

  /** The records of the first `n` grid columns, column by column, as the
      nested loop appends them. */
  function Records(cfg: Config, vision: Vision, meta: Metadata, leaves: seq<seq<Bgr>>, film: seq<seq<Bgr>>, n: nat): seq<Record>
    requires n <= cfg.ncols
    requires CoversGrid(leaves, cfg) && CoversGrid(film, cfg) && MetadataCovers(meta, cfg)
  {
    if n == 0 then []
    else Records(cfg, vision, meta, leaves, film, n - 1) + ColumnRecords(cfg, vision, meta, leaves, film, n - 1)
  }

  /** The records of the first `n` columns are the columns' records joined. */
  lemma {:induction false} RecordsFlatten(cfg: Config, vision: Vision, meta: Metadata, leaves: seq<seq<Bgr>>, film: seq<seq<Bgr>>, n: nat)
    requires n <= cfg.ncols
    requires CoversGrid(leaves, cfg) && CoversGrid(film, cfg) && MetadataCovers(meta, cfg)
    ensures Records(cfg, vision, meta, leaves, film, n)
         == Flatten(seq(n, c requires 0 <= c < n => ColumnRecords(cfg, vision, meta, leaves, film, c)))
  {
    if n > 0 {
      RecordsFlatten(cfg, vision, meta, leaves, film, n - 1);
      var cols := seq(n, c requires 0 <= c < n => ColumnRecords(cfg, vision, meta, leaves, film, c));
      assert cols[..n - 1] == seq(n - 1, c requires 0 <= c < n - 1 => ColumnRecords(cfg, vision, meta, leaves, film, c));
    }
  }

  /** The traversal is column-major: the whole grid gives `ncols * nrows`
      records, and cell `(c, r)` is record number `c * nrows + r`. */
  lemma RecordAt(cfg: Config, vision: Vision, meta: Metadata, leaves: seq<seq<Bgr>>, film: seq<seq<Bgr>>, c: nat, r: nat)
    requires CoversGrid(leaves, cfg) && CoversGrid(film, cfg) && MetadataCovers(meta, cfg)
    requires c < cfg.ncols && r < cfg.nrows
    ensures |Records(cfg, vision, meta, leaves, film, cfg.ncols)| == cfg.ncols * cfg.nrows
    ensures c * cfg.nrows + r < cfg.ncols * cfg.nrows
    ensures Records(cfg, vision, meta, leaves, film, cfg.ncols)[c * cfg.nrows + r] == Cell(cfg, vision, meta, leaves, film, c, r)
  {
    var n := cfg.ncols;
    RecordsFlatten(cfg, vision, meta, leaves, film, n);
    var cols := seq(n, k requires 0 <= k < n => ColumnRecords(cfg, vision, meta, leaves, film, k));
    FlattenLength(cols, cfg.nrows);
    FlattenAt(cols, cfg.nrows, c, r);
  }

  /** One pass of the inner loop body (scanalyzer.py:204-226): crop both
      scans, find the leaf, measure the leaf and the bacterial signal, run
      the chlorosis loop and build the record, which is the cell's record. */
  method MeasureCell(cfg: Config, vision: Vision, meta: Metadata, leaves: seq<seq<Bgr>>, film: seq<seq<Bgr>>, c: nat, r: nat)
    returns (dataRow: Record)
    requires c < cfg.ncols && r < cfg.nrows
    requires CoversGrid(leaves, cfg) && CoversGrid(film, cfg) && MetadataCovers(meta, cfg)
    ensures dataRow == Cell(cfg, vision, meta, leaves, film, c, r)
  {
    var cropLeaf := Crop(leaves, c, r, cfg.dx, cfg.dy);
    var cropFilm := Crop(film, c, r, cfg.dx, cfg.dy);
    CellCropShape(leaves, cfg, c, r);
    CellCropShape(film, cfg, c, r);
    var leafHsv := MapImage(cropLeaf, vision.toHsv);
    var leafMask := FindLeaf(vision.findContours(LeafBand(leafHsv)), cfg.dx, cfg.dy);
    var leafArea := LeafArea(leafMask);
    var bacteriaMask := BacteriaMask(MapImage(cropFilm, vision.toGrey), leafMask, BacteriaThreshold);
    var bacteriaArea := Area(bacteriaMask);
    var yellowMask, yellowArea := FindChlorosis(vision.findContours(YellowMask(leafHsv, leafMask)), cfg.dx, cfg.dy);
    dataRow := MakeRecord(cfg, meta, c, r, leafArea, bacteriaArea, yellowArea);
  }

  /** Proof step for the loops: the prefix grows by one element. */
  lemma TakeOneMore<T>(s: seq<T>, r: nat)
    requires r < |s|
    ensures s[..r + 1] == s[..r] + [s[r]]
  {
  }

  /** Proof step for the loops: the full prefix is the sequence. */
  lemma TakeAll<T>(s: seq<T>)
    ensures s[..|s|] == s
  {
  }

  /** The inner loop of the traversal (scanalyzer.py:200-228) for grid
      column `c`: for each row `r`, measure the cell, append its record
      and its two crops. */
  method TraverseColumn(cfg: Config, vision: Vision, meta: Metadata, leaves: seq<seq<Bgr>>, film: seq<seq<Bgr>>, c: nat)
    returns (dataRows: seq<Record>, leavesAnnotated: seq<seq<seq<Bgr>>>, filmAnnotated: seq<seq<seq<Bgr>>>)
    requires c < cfg.ncols
    requires CoversGrid(leaves, cfg) && CoversGrid(film, cfg) && MetadataCovers(meta, cfg)
    ensures dataRows == ColumnRecords(cfg, vision, meta, leaves, film, c)
    ensures leavesAnnotated == StripTiles(leaves, c, cfg.dx, cfg.dy, cfg.nrows)
    ensures filmAnnotated == StripTiles(film, c, cfg.dx, cfg.dy, cfg.nrows)
  {
    ghost var column := ColumnRecords(cfg, vision, meta, leaves, film, c);
    ghost var leafTiles := StripTiles(leaves, c, cfg.dx, cfg.dy, cfg.nrows);
    ghost var filmTiles := StripTiles(film, c, cfg.dx, cfg.dy, cfg.nrows);
    dataRows, leavesAnnotated, filmAnnotated := [], [], [];
    for r := 0 to cfg.nrows
      invariant dataRows == column[..r]
      invariant leavesAnnotated == leafTiles[..r]
      invariant filmAnnotated == filmTiles[..r]
    {
      var cropLeaf := Crop(leaves, c, r, cfg.dx, cfg.dy);
      var cropFilm := Crop(film, c, r, cfg.dx, cfg.dy);
      var dataRow := MeasureCell(cfg, vision, meta, leaves, film, c, r);
      leavesAnnotated := leavesAnnotated + [cropLeaf];
      filmAnnotated := filmAnnotated + [cropFilm];
      dataRows := dataRows + [dataRow];
      TakeOneMore(column, r);
      TakeOneMore(leafTiles, r);
      TakeOneMore(filmTiles, r);
    }
    TakeAll(column);
    TakeAll(leafTiles);
    TakeAll(filmTiles);
  }

  /** The grid traversal of the main loop (scanalyzer.py:194-239): for
      each grid column, run the inner loop, append its records, join its
      crops with `hconcat` into one strip per scan; at the end stack the
      strips with `vconcat`. */
  method Traverse(cfg: Config, vision: Vision, meta: Metadata, leaves: seq<seq<Bgr>>, film: seq<seq<Bgr>>)
    returns (out: Output)
    requires CoversGrid(leaves, cfg) && CoversGrid(film, cfg) && MetadataCovers(meta, cfg)
    ensures out.records == Records(cfg, vision, meta, leaves, film, cfg.ncols)
    ensures out.leavesCollage == Collage(leaves, cfg.dx, cfg.dy, cfg.nrows, cfg.ncols)
    ensures out.filmCollage == Collage(film, cfg.dx, cfg.dy, cfg.nrows, cfg.ncols)
  {
    var dataRows: seq<Record> := [];
    var leavesStrips: seq<seq<seq<Bgr>>> := [];
    var filmStrips: seq<seq<seq<Bgr>>> := [];
    for c := 0 to cfg.ncols
      invariant dataRows == Records(cfg, vision, meta, leaves, film, c)
      invariant leavesStrips == Strips(leaves, cfg.dx, cfg.dy, cfg.nrows, c)
      invariant filmStrips == Strips(film, cfg.dx, cfg.dy, cfg.nrows, c)
    {
      var columnRows, leavesAnnotated, filmAnnotated := TraverseColumn(cfg, vision, meta, leaves, film, c);
      dataRows := dataRows + columnRows;
      leavesStrips := leavesStrips + [HConcat(leavesAnnotated)];
      filmStrips := filmStrips + [HConcat(filmAnnotated)];
      StripsNext(leaves, cfg.dx, cfg.dy, cfg.nrows, c);
      StripsNext(film, cfg.dx, cfg.dy, cfg.nrows, c);
    }
    out := Output(dataRows, VConcat(leavesStrips), VConcat(filmStrips));
  }

  /** The run (scanalyzer.py:191-239): read the metadata, then traverse the
      grid. A file the reader rejects, a scan smaller than the grid or a
      metadata table too small for the grid stops the run before any
      output. */
  method Analyze(cfg: Config, vision: Vision, csv: Csv, leaves: seq<seq<Bgr>>, film: seq<seq<Bgr>>)
    returns (out: Result<Output, RunError>)
    ensures ReadMetadata(csv).Failure? ==> out == Failure(BadMetadata(ReadMetadata(csv).error))
    ensures out.Success? <==>
              && ReadMetadata(csv).Success?
              && CoversGrid(leaves, cfg) && CoversGrid(film, cfg)
              && MetadataCovers(ReadMetadata(csv).value, cfg)
    ensures out.Success? ==>
              var meta := ReadMetadata(csv).value;
              && out.value.records == Records(cfg, vision, meta, leaves, film, cfg.ncols)
              && out.value.leavesCollage == Collage(leaves, cfg.dx, cfg.dy, cfg.nrows, cfg.ncols)
              && out.value.filmCollage == Collage(film, cfg.dx, cfg.dy, cfg.nrows, cfg.ncols)
  {
    var read := ReadMetadata(csv);
    if read.Failure? {
      return Failure(BadMetadata(read.error));
    }
    var meta := read.value;
    if !CoversGrid(leaves, cfg) || !CoversGrid(film, cfg) {
      return Failure(GridMismatch);
    }
    if !MetadataCovers(meta, cfg) {
      return Failure(MetadataOutOfRange);
    }
    var output := Traverse(cfg, vision, meta, leaves, film);
    return Success(output);
  }

  /** On the configured grid, cell `(0, 0)` is labelled column 1, row 7 and
      reads metadata row 6, column 0. */
  lemma FirstCellLabels(meta: Metadata, leafArea: nat, bacteriaArea: nat, chlorosisArea: real)
    requires MetadataCovers(meta, Grid)
    ensures var rec := MakeRecord(Grid, meta, 0, 0, leafArea, bacteriaArea, chlorosisArea);
            rec.column == 1 && rec.row == 7 && rec.genotype == meta.genotypes[6][0]
  {
  }
}
