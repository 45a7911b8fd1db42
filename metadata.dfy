/** `read_metadata` (scanalyzer.py:152-172) after `csv.reader` has split
    the file into rows of cells: three header values and five fixed blocks
    of eight rows, each stripped of its header row and label column. */
module Metadata {
  import opened Image
  import opened Wrappers

  /** The rows of the comma-separated file, as `csv.reader` yields them. */
  type Csv = seq<seq<string>>

  /** A 2-D numpy array of strings. */
  type Table = seq<seq<string>>

  /** Why reading stops: Python raises on a missing header cell
      (`IndexError`) or on a block numpy cannot turn into a 2-D array
      and slice twice (`IndexError` or `ValueError`). */
  datatype MetadataError = MissingHeader(row: nat) | MalformedBlock(start: nat)

  datatype Metadata = Metadata(
    bioassay: string, dpi: string, dateSampling: string,
    bioassays: Table, dpis: Table, genotypes: Table, pathogens: Table, treatments: Table)

  /** Rows per block, header row included. */
  const BlockRows: nat := 8

  /** First rows of the genotype, pathogen, treatment, bioassay-id and dpi blocks. */
  const GenotypeStart: nat := 4
  const PathogenStart: nat := 13
  const TreatmentStart: nat := 22
  const BioassayStart: nat := 31
  const DpiStart: nat := 40

  /** `csvraw[row][1]`. */
  function Header(csv: Csv, row: nat): Result<string, MetadataError>
  {
    if row < |csv| && 1 < |csv[row]| then Success(csv[row][1]) else Failure(MissingHeader(row))
  }

  /** `np.array(csvraw[start:start+8])[1:, 1:]`. numpy builds a 2-D array
      only from a non-empty slice whose rows all have the same length;
      anything else makes the double slice raise. */
  function Block(csv: Csv, start: nat): (r: Result<Table, MetadataError>)
  {
    var rows := Slice(csv, start, start + BlockRows);
    if |rows| == 0 || !IsRect(rows, |rows[0]|) then Failure(MalformedBlock(start))
    else Success(seq(|rows| - 1, i requires 0 <= i < |rows| - 1 => Slice(rows[i + 1], 1, |rows[i + 1]|)))
  }

  /** The block starting at `start` is read whenever the file has a row
      there and the rows it holds share one length; the table is then the
      block without its first row and first column, entry for entry. */
  lemma BlockContents(csv: Csv, start: nat)
    ensures Block(csv, start).Success? <==>
              start < |csv| && IsRect(Slice(csv, start, start + BlockRows), |csv[start]|)
    ensures Block(csv, start).Failure? ==> Block(csv, start).error == MalformedBlock(start)
    ensures Block(csv, start).Success? ==>
              var t := Block(csv, start).value;
              && |t| == |Slice(csv, start, start + BlockRows)| - 1
              && (forall i :: 0 <= i < |t| ==>
                    && start + 1 + i < |csv| && |csv[start + 1 + i]| == |csv[start]|
                    && |t[i]| == (if |csv[start]| == 0 then 0 else |csv[start]| - 1))
              && (forall i, j :: 0 <= i < |t| && 0 <= j < |t[i]| ==> t[i][j] == csv[start + 1 + i][1 + j])
  {
    var rows := Slice(csv, start, start + BlockRows);
    if start < |csv| {
      assert rows[0] == csv[start];
      if Block(csv, start).Success? {
        var t := Block(csv, start).value;
        forall i | 0 <= i < |t|
          ensures start + 1 + i < |csv| && |csv[start + 1 + i]| == |csv[start]|
          ensures |t[i]| == (if |csv[start]| == 0 then 0 else |csv[start]| - 1)
        {
          assert rows[i + 1] == csv[start + 1 + i];
          assert |rows[i + 1]| == |rows[0]|;
          assert t[i] == Slice(rows[i + 1], 1, |rows[i + 1]|);
        }
        forall i, j | 0 <= i < |t| && 0 <= j < |t[i]|
          ensures t[i][j] == csv[start + 1 + i][1 + j]
        {
          assert rows[i + 1] == csv[start + 1 + i];
          assert t[i] == Slice(rows[i + 1], 1, |rows[i + 1]|);
        }
      }
    }
  }

  /** A file with all 48 rows and a block whose rows share a width `w >= 1`
      yields a table of 7 rows of `w - 1` values. */
  lemma BlockShape(csv: Csv, start: nat, w: nat)
    requires start + BlockRows <= |csv| && w >= 1
    requires forall i :: start <= i < start + BlockRows ==> |csv[i]| == w
    ensures Block(csv, start).Success?
    ensures HasShape(Block(csv, start).value, BlockRows - 1, w - 1)
  {
    BlockContents(csv, start);
    var rows := Slice(csv, start, start + BlockRows);
    assert forall i :: 0 <= i < |rows| ==> rows[i] == csv[start + i];
  }

  /** `read_metadata`: the header values in rows 0..2 and the five tables,
      failing at the first missing header cell or malformed block, in the
      order the source reads them. */
  function ReadMetadata(csv: Csv): (r: Result<Metadata, MetadataError>)
  {
    match Header(csv, 0)
    case Failure(e) => Failure(e)
    case Success(bioassay) =>
      match Header(csv, 1)
      case Failure(e) => Failure(e)
      case Success(dpi) =>
        match Header(csv, 2)
        case Failure(e) => Failure(e)
        case Success(date) =>
          match Block(csv, GenotypeStart)
          case Failure(e) => Failure(e)
          case Success(genotypes) =>
            match Block(csv, PathogenStart)
            case Failure(e) => Failure(e)
            case Success(pathogens) =>
              match Block(csv, TreatmentStart)
              case Failure(e) => Failure(e)
              case Success(treatments) =>
                match Block(csv, BioassayStart)
                case Failure(e) => Failure(e)
                case Success(bioassays) =>
                  match Block(csv, DpiStart)
                  case Failure(e) => Failure(e)
                  case Success(dpis) =>
                    Success(Metadata(bioassay, dpi, date, bioassays, dpis, genotypes, pathogens, treatments))
  }

  /** A file read successfully gives the header values of cells `[0][1]`,
      `[1][1]`, `[2][1]`, and tables that are exactly the five blocks. */
  lemma ReadMetadataFields(csv: Csv)
    requires ReadMetadata(csv).Success?
    ensures var m := ReadMetadata(csv).value;
            && m.bioassay == csv[0][1] && m.dpi == csv[1][1] && m.dateSampling == csv[2][1]
            && Block(csv, GenotypeStart) == Success(m.genotypes)
            && Block(csv, PathogenStart) == Success(m.pathogens)
            && Block(csv, TreatmentStart) == Success(m.treatments)
            && Block(csv, BioassayStart) == Success(m.bioassays)
            && Block(csv, DpiStart) == Success(m.dpis)
  {
  }

  /** Reading fails exactly when a header cell is missing or a block is
      malformed. */
  lemma ReadMetadataFails(csv: Csv)
    ensures ReadMetadata(csv).Failure? <==>
              (exists row :: 0 <= row < 3 && (|csv| <= row || |csv[row]| <= 1)) ||
              (exists s :: s in [GenotypeStart, PathogenStart, TreatmentStart, BioassayStart, DpiStart] && Block(csv, s).Failure?)
  {
  }

  /** A well-formed 48-row file whose rows all have the width `w >= 1`
      (and at least two cells in each header row) reads to five tables of
      7 rows of `w - 1` values. */
  lemma ReadMetadataShape(csv: Csv, w: nat)
    requires |csv| >= DpiStart + BlockRows && w >= 2
    requires forall i :: 0 <= i < |csv| ==> |csv[i]| == w
    ensures ReadMetadata(csv).Success?
    ensures var m := ReadMetadata(csv).value;
            && HasShape(m.genotypes, 7, w - 1) && HasShape(m.pathogens, 7, w - 1)
            && HasShape(m.treatments, 7, w - 1) && HasShape(m.bioassays, 7, w - 1)
            && HasShape(m.dpis, 7, w - 1)
  {
    BlockShape(csv, GenotypeStart, w);
    BlockShape(csv, PathogenStart, w);
    BlockShape(csv, TreatmentStart, w);
    BlockShape(csv, BioassayStart, w);
    BlockShape(csv, DpiStart, w);
  }
}
