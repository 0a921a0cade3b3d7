/**
 * The earlier imagedescr.py: the same ImageDescr (path equality and path
 * hash, shared with the ImageDescriptors module) and a fixed split of the
 * 16 x 48 grid into four named quadrants.
 */
module OldImageDescriptors {
  import opened Wrappers
  import opened ImageDescriptors

  /** The four quadrant averages, one field each. */
  datatype QuadrantAverages = QuadrantAverages(imdesc: ImageDescr, nw: real, ne: real, sw: real, se: real)

  /** QuadrantAverages.__eq__: same image and all four averages equal. */
  predicate QuadEq(p: QuadrantAverages, q: QuadrantAverages) {
    && SameImage(p.imdesc, q.imdesc)
    && p.nw == q.nw && p.ne == q.ne && p.sw == q.sw && p.se == q.se
  }

  /** QuadrantAverages.__hash__ hashes the five fields. */
  function QuadHashKey(p: QuadrantAverages): (k: (string, real, real, real, real))
    ensures k == (HashKey(p.imdesc), p.nw, p.ne, p.sw, p.se)
  {
    (HashKey(p.imdesc), p.nw, p.ne, p.sw, p.se)
  }

  /** Equal quadrant averages hash alike, and the equality is an equivalence. */
  lemma QuadEqIsConsistent(p: QuadrantAverages, q: QuadrantAverages, r: QuadrantAverages)
    ensures QuadEq(p, q) ==> QuadHashKey(p) == QuadHashKey(q)
    ensures QuadEq(p, p)
    ensures QuadEq(p, q) ==> QuadEq(q, p)
    ensures QuadEq(p, q) && QuadEq(q, r) ==> QuadEq(p, r)
  {
  }

  const HalfRows: nat := Rows / 2
  const HalfCols: nat := Cols / 2

  /**
   * The mean of the quadrant in half-row `row` and half-column `col`
   * (0 is north or west, 1 is south or east).
   */
  function Quadrant(fp: seq<Byte>, row: nat, col: nat): (m: real)
    requires |fp| == FingerprintLength && row < 2 && col < 2
    ensures 0.0 <= m <= 255.0
  {
    CellMeanBounds(fp, row * HalfRows, HalfRows, col * HalfCols, HalfCols);
    CellMean(fp, row * HalfRows, HalfRows, col * HalfCols, HalfCols)
  }

  /**
   * calc_quadrants(imdesc): the fingerprint's size is asserted (the even
   * grid dimensions are constant and always hold), then each half by half
   * quadrant is averaged. The record is built as (nw, ne, sw, se).
   */
  function CalcQuadrants(d: ImageDescr): (r: Result<QuadrantAverages, GridError>)
    ensures r.Ok? <==> |d.fingerprint| == FingerprintLength
    ensures r.Err? ==> r.error == FingerprintSize
    ensures r.Ok? ==> r.value.imdesc == d
    ensures r.Ok? ==>
      && r.value.nw == Quadrant(d.fingerprint, 0, 0) && r.value.ne == Quadrant(d.fingerprint, 0, 1)
      && r.value.sw == Quadrant(d.fingerprint, 1, 0) && r.value.se == Quadrant(d.fingerprint, 1, 1)
  {
    var fp := d.fingerprint;
    if |fp| != FingerprintLength then Err(FingerprintSize)
    else
      var nw := Quadrant(fp, 0, 0);
      var ne := Quadrant(fp, 0, 1);
      var sw := Quadrant(fp, 1, 0);
      var se := Quadrant(fp, 1, 1);
      Ok(QuadrantAverages.QuadrantAverages(d, nw, ne, sw, se))
  }

  /**
   * Each quadrant is the cell of the later calc_quadrants on a 2 by 2 grid
   * at the same row and column.
   */
  lemma QuadrantIsGridCell(d: ImageDescr, row: nat, col: nat)
    requires |d.fingerprint| == FingerprintLength && row < 2 && col < 2
    ensures ImageDescriptors.CalcQuadrants(d, 2, 2).Ok?
    ensures |ImageDescriptors.CalcQuadrants(d, 2, 2).value.quadrants| == 4
    ensures ImageDescriptors.CalcQuadrants(d, 2, 2).value.quadrants[row * 2 + col] == Quadrant(d.fingerprint, row, col)
  {
    CalcQuadrantsShape(d, 2, 2);
    QuadrantsAreCells(d, 2, 2);
    GridCellAt(d.fingerprint, 2, 2, HalfRows, HalfCols, row, col);
  }

  /**
   * The fixed split is the later calc_quadrants on a 2 by 2 grid: both fail
   * on the same descriptors, and otherwise the four averages are the 2 x 2
   * cells in the order nw, ne, sw, se.
   */
  lemma SameAsTwoByTwo(d: ImageDescr)
    ensures CalcQuadrants(d).Ok? <==> ImageDescriptors.CalcQuadrants(d, 2, 2).Ok?
    ensures CalcQuadrants(d).Ok? ==>
      var q := CalcQuadrants(d).value;
      ImageDescriptors.CalcQuadrants(d, 2, 2).value.quadrants == [q.nw, q.ne, q.sw, q.se]
  {
    if |d.fingerprint| == FingerprintLength {
      QuadrantIsGridCell(d, 0, 0);
      QuadrantIsGridCell(d, 0, 1);
      QuadrantIsGridCell(d, 1, 0);
      QuadrantIsGridCell(d, 1, 1);
    }
  }
}
