/**
 * Image descriptors and grid averaging of imagecmp/imagedescr.py.
 *
 * A fingerprint is the 16x16 RGB thumbnail of an image as 768 bytes, row
 * after row, three bytes per pixel; the grid it is averaged on is therefore
 * 16 rows by 48 byte columns. Computing the fingerprint (image decoding,
 * autocontrast, resizing) is not modelled; it is a field of the descriptor.
 */
module ImageDescriptors {
  import opened Wrappers

  type Byte = x: int | 0 <= x < 256

  /** FINGERPRINT_SIZE: 16 by 16 pixels. */
  const Rows: nat := 16
  const PixelCols: nat := 16
  /** Byte columns of the grid: three bytes (R, G, B) per pixel. */
  const Cols: nat := PixelCols * 3
  const FingerprintLength: nat := Rows * Cols

  datatype ImageDescr = ImageDescr(filepath: string, fingerprint: seq<Byte>)

  /** ImageDescr.__eq__: two descriptors are the same image when their paths are equal. */
  predicate SameImage(d: ImageDescr, e: ImageDescr) {
    d.filepath == e.filepath
  }

  /** ImageDescr.__hash__ hashes the path alone; this is the value hashed. */
  function HashKey(d: ImageDescr): (k: string)
    ensures k == d.filepath
  {
    d.filepath
  }

  /** Equal descriptors hash alike, and descriptor equality is an equivalence. */
  lemma SameImageIsConsistent(d: ImageDescr, e: ImageDescr, f: ImageDescr)
    ensures SameImage(d, e) ==> HashKey(d) == HashKey(e)
    ensures SameImage(d, d)
    ensures SameImage(d, e) ==> SameImage(e, d)
    ensures SameImage(d, e) && SameImage(e, f) ==> SameImage(d, f)
  {
  }

  /**
   * Descriptors built from paths by one fingerprinting function are the same
   * image exactly when they are equal values, so the model may compare them
   * with value equality.
   */
  lemma SameImageIsEquality(p: string, q: string, fingerprintOf: string -> seq<Byte>)
    ensures SameImage(ImageDescr(p, fingerprintOf(p)), ImageDescr(q, fingerprintOf(q)))
        <==> ImageDescr(p, fingerprintOf(p)) == ImageDescr(q, fingerprintOf(q))
  {
  }

  // ---------------------------------------------------------------------------
  // Quadrant averages
  // ---------------------------------------------------------------------------

  /** The cell averages of one image, in row-major order. */
  datatype QuadrantAverages = QuadrantAverages(imdesc: ImageDescr, quadrants: seq<real>)

  /** QuadrantAverages.__eq__ as written: the averages are compared with themselves. */
  predicate QuadEqAsWritten(p: QuadrantAverages, q: QuadrantAverages) {
    SameImage(p.imdesc, q.imdesc) && p.quadrants == p.quadrants
  }

  /** QuadrantAverages.__eq__ as intended: same image and the same averages. */
  predicate QuadEq(p: QuadrantAverages, q: QuadrantAverages) {
    SameImage(p.imdesc, q.imdesc) && p.quadrants == q.quadrants
  }

  /** QuadrantAverages.__hash__ hashes the pair (descriptor, averages). */
  function QuadHashKey(p: QuadrantAverages): (k: (string, seq<real>))
    ensures k.0 == HashKey(p.imdesc) && k.1 == p.quadrants
  {
    (HashKey(p.imdesc), p.quadrants)
  }

  /**
   * As written, two averages of one image with different values are equal,
   * yet hash differently: equality no longer implies equal hashes.
   */
  lemma QuadEqAsWrittenBreaksHash()
    ensures var d := ImageDescr("a.png", []);
      && QuadEqAsWritten(QuadrantAverages(d, [1.0]), QuadrantAverages(d, [2.0]))
      && QuadHashKey(QuadrantAverages(d, [1.0])) != QuadHashKey(QuadrantAverages(d, [2.0]))
  {
    var d := ImageDescr("a.png", []);
    assert QuadHashKey(QuadrantAverages(d, [1.0])).1[0] != QuadHashKey(QuadrantAverages(d, [2.0])).1[0];
  }

  /** The intended equality is the descriptor's equality plus equal values, and agrees with the hash. */
  lemma QuadEqIsConsistent(p: QuadrantAverages, q: QuadrantAverages)
    ensures QuadEq(p, q) <==> SameImage(p.imdesc, q.imdesc) && p.quadrants == q.quadrants
    ensures QuadEq(p, q) ==> QuadHashKey(p) == QuadHashKey(q)
    ensures QuadEq(p, q) ==> QuadEqAsWritten(p, q)
  {
  }

  // ---------------------------------------------------------------------------
  // Cell averages on the 16 x 48 grid
  // ---------------------------------------------------------------------------

  /** The byte at row r and byte column c of the reshaped fingerprint. */
  function At(fp: seq<Byte>, r: nat, c: nat): Byte
    requires |fp| == FingerprintLength && r < Rows && c < Cols
  {
    fp[r * Cols + c]
  }

  /** The bytes of row r, columns left to left + w - 1, added up. */
  function RowSum(fp: seq<Byte>, r: nat, left: nat, w: nat): (s: nat)
    requires |fp| == FingerprintLength && r < Rows && left + w <= Cols
    ensures s <= 255 * w
    decreases w
  {
    if w == 0 then 0 else RowSum(fp, r, left, w - 1) + At(fp, r, left + w - 1)
  }

  /** The bytes of the cell of h rows from top and w columns from left, added up. */
  function CellSum(fp: seq<Byte>, top: nat, h: nat, left: nat, w: nat): (s: nat)
    requires |fp| == FingerprintLength && top + h <= Rows && left + w <= Cols
    decreases h
  {
    if h == 0 then 0 else CellSum(fp, top, h - 1, left, w) + RowSum(fp, top + h - 1, left, w)
  }

  /** numpy's mean of the cell, taken exactly. */
  function CellMean(fp: seq<Byte>, top: nat, h: nat, left: nat, w: nat): real
    requires |fp| == FingerprintLength && top + h <= Rows && left + w <= Cols
    requires h > 0 && w > 0
  {
    CellSum(fp, top, h, left, w) as real / (h * w) as real
  }

  lemma {:induction false} CellSumBound(fp: seq<Byte>, top: nat, h: nat, left: nat, w: nat)
    requires |fp| == FingerprintLength && top + h <= Rows && left + w <= Cols
    ensures CellSum(fp, top, h, left, w) <= 255 * (h * w)
    decreases h
  {
    if h > 0 {
      CellSumBound(fp, top, h - 1, left, w);
      assert 255 * ((h - 1) * w) + 255 * w == 255 * (h * w);
    }
  }

  /** Every cell average is a byte value: between 0 and 255. */
  lemma CellMeanBounds(fp: seq<Byte>, top: nat, h: nat, left: nat, w: nat)
    requires |fp| == FingerprintLength && top + h <= Rows && left + w <= Cols
    requires h > 0 && w > 0
    ensures 0.0 <= CellMean(fp, top, h, left, w) <= 255.0
  {
    CellSumBound(fp, top, h, left, w);
    MeanBound(CellSum(fp, top, h, left, w), h * w);
  }

  lemma MeanBound(s: nat, n: nat)
    requires 0 < n && s <= 255 * n
    ensures 0.0 <= s as real / n as real <= 255.0
  {
    assert s as real <= 255.0 * n as real;
  }

  // ---------------------------------------------------------------------------
  // calc_quadrants
  // ---------------------------------------------------------------------------

  datatype GridError =
    | FingerprintSize      // the assert on the fingerprint's size fails
    | ZeroDivision         // divmod by n_x or n_y = 0
    | RowsNotDivisible     // 16 is not a multiple of n_x
    | ColumnsNotDivisible  // 48 is not a multiple of n_y

  /**
   * Python's floor division: the largest q with b * q <= a for a positive
   * divisor, the largest q with b * q >= a for a negative one. For a
   * positive divisor it agrees with Dafny's Euclidean division; for a
   * negative one it differs whenever the division is not exact.
   */
  function FloorDiv(a: int, b: int): (q: int)
    requires b != 0
    ensures b > 0 ==> q == a / b
    ensures b > 0 ==> b * q <= a < b * q + b
    ensures b < 0 ==> b * q >= a > b * q + b
  {
    if b > 0 then a / b
    else
      assert -a == (-b) * ((-a) / (-b)) + (-a) % (-b);
      (-a) / (-b)
  }

  /** Python's remainder, which takes the divisor's sign. */
  function FloorMod(a: int, b: int): (r: int)
    requires b != 0
    ensures b > 0 ==> r == a % b
    ensures b > 0 ==> 0 <= r < b
    ensures b < 0 ==> b < r <= 0
  {
    a - b * FloorDiv(a, b)
  }

  /**
   * Python's divmod(a, b) is the only pair (q, r) with a == b * q + r whose
   * remainder lies between 0 and the divisor, on the divisor's side.
   */
  lemma DivModUnique(a: int, b: int, q: int, r: int)
    requires b != 0 && a == b * q + r
    requires b > 0 ==> 0 <= r < b
    requires b < 0 ==> b < r <= 0
    ensures q == FloorDiv(a, b) && r == FloorMod(a, b)
  {
    var q', r' := FloorDiv(a, b), FloorMod(a, b);
    assert b * (q - q') == r' - r by {
      assert b * (q - q') == b * q - b * q';
    }
    if q < q' {
      MulGap(b, q' - q);
    } else if q > q' {
      MulGap(b, q - q');
    }
  }

  /** A non-zero multiple of b is at least |b| away from 0. */
  lemma MulGap(b: int, k: int)
    requires b != 0 && k >= 1
    ensures b > 0 ==> b * k >= b
    ensures b < 0 ==> b * k <= b
  {
    if k > 1 {
      MulGap(b, k - 1);
      assert b * k == b * (k - 1) + b;
    }
  }

  /** divmod(16, -5) is (-4, -4) in Python, where Dafny's Euclidean division gives (-3, 1). */
  lemma NegativeDivisorRoundsDown()
    ensures FloorDiv(16, -5) == -4 && FloorMod(16, -5) == -4
    ensures 16 / -5 == -3 && 16 % -5 == 1
  {
    DivModUnique(16, -5, -4, -4);
  }

  /** Python's range(start, stop, step) for a positive step. */
  function RangeFrom(start: nat, stop: nat, step: nat): (r: seq<nat>)
    requires step > 0
    ensures forall k :: 0 <= k < |r| ==> start <= r[k] < stop
    decreases stop - start
  {
    if start >= stop then [] else [start] + RangeFrom(start + step, stop, step)
  }

  /** The k-th element of range(start, stop, step) is start + k * step. */
  lemma {:induction false} RangeFromAt(start: nat, stop: nat, step: nat, k: nat)
    requires step > 0 && k < |RangeFrom(start, stop, step)|
    ensures RangeFrom(start, stop, step)[k] == start + k * step
    decreases stop - start
  {
    if k > 0 {
      RangeFromAt(start + step, stop, step, k - 1);
      MulSucc(k - 1, step);
    }
  }

  /** range(0, stop, step): empty for a negative step. */
  function PyRange(stop: nat, step: int): seq<nat>
    requires step != 0
  {
    if step < 0 then [] else RangeFrom(0, stop, step)
  }

  lemma {:induction false} RangeLength(m: nat, n: nat, step: nat)
    requires step > 0 && m <= n
    ensures |RangeFrom(m * step, n * step, step)| == n - m
    decreases n - m
  {
    if m < n {
      assert m * step + step == (m + 1) * step;
      RangeLength(m + 1, n, step);
    }
  }

  /** The cells at the given row starts and column starts, row by row: the generator of calc_quadrants. */
  function Cells<X>(tops: seq<nat>, lefts: seq<nat>, cell: (nat, nat) -> X): (r: seq<X>)
  {
    if tops == [] then [] else RowCells(tops[0], lefts, cell) + Cells(tops[1..], lefts, cell)
  }

  /** The cells of one band of rows, left to right. */
  function RowCells<X>(top: nat, lefts: seq<nat>, cell: (nat, nat) -> X): (r: seq<X>)
    ensures |r| == |lefts|
    ensures forall k :: 0 <= k < |lefts| ==> r[k] == cell(top, lefts[k])
  {
    if lefts == [] then [] else [cell(top, lefts[0])] + RowCells(top, lefts[1..], cell)
  }

  lemma {:induction false} CellsLength<X>(tops: seq<nat>, lefts: seq<nat>, cell: (nat, nat) -> X)
    ensures |Cells(tops, lefts, cell)| == |tops| * |lefts|
  {
    if tops != [] {
      CellsLength(tops[1..], lefts, cell);
      MulSucc(|tops| - 1, |lefts|);
    }
  }

  /** Cells lays its values out row-major: cell (a, b) sits at a * |lefts| + b. */
  lemma {:induction false} CellsAt<X>(tops: seq<nat>, lefts: seq<nat>, cell: (nat, nat) -> X, a: nat, b: nat)
    requires a < |tops| && b < |lefts|
    ensures a * |lefts| + b < |Cells(tops, lefts, cell)|
    ensures Cells(tops, lefts, cell)[a * |lefts| + b] == cell(tops[a], lefts[b])
  {
    CellsLength(tops, lefts, cell);
    RowMajorIndex(a, b, |lefts|, |tops|);
    var len := |lefts|;
    var row, rest := RowCells(tops[0], lefts, cell), Cells(tops[1..], lefts, cell);
    assert Cells(tops, lefts, cell) == row + rest;
    if a == 0 {
      assert a * len + b == b;
      assert (row + rest)[b] == row[b];
    } else {
      var j := (a - 1) * len + b;
      CellsAt(tops[1..], lefts, cell, a - 1, b);
      assert tops[1..][a - 1] == tops[a];
      assert a * len + b == len + j;
      assert (row + rest)[len + j] == rest[j] == cell(tops[a], lefts[b]);
    }
  }

  lemma MulSucc(a: nat, n: nat)
    ensures a * n + n == (a + 1) * n
  {
  }

  /** Row a, column b of a row-major n by len layout. */
  lemma RowMajorIndex(a: nat, b: nat, len: nat, n: nat)
    requires a < n && b < len
    ensures a * len + b < n * len
    ensures a > 0 ==> a * len + b == len + ((a - 1) * len + b)
  {
    MulSucc(a, len);
    MulLe(a + 1, n, len);
    if a > 0 {
      MulSucc(a - 1, len);
    }
  }

  lemma MulLe(a: nat, b: nat, n: nat)
    requires a <= b
    ensures a * n <= b * n
  {
  }

  /** A remainder of zero leaves a quotient of the divisor's sign that multiplies back. */
  lemma ExactQuotient(a: int, b: int)
    requires a > 0 && b != 0 && FloorMod(a, b) == 0
    ensures b > 0 ==> FloorDiv(a, b) > 0 && a == b * FloorDiv(a, b)
    ensures b < 0 ==> FloorDiv(a, b) < 0
  {
    if b > 0 {
      assert a == b * (a / b) + a % b;
    } else {
      assert (-a) / (-b) < 0;
    }
  }

  /**
   * calc_quadrants(imdesc, n_x, n_y): the fingerprint's size is asserted,
   * both divmods run before either remainder is checked, the rows are
   * checked before the columns, and the cells are averaged row by row.
   */
  function CalcQuadrants(d: ImageDescr, nx: int, ny: int): (r: Result<QuadrantAverages, GridError>)
    ensures |d.fingerprint| != FingerprintLength ==> r == Err(FingerprintSize)
    ensures |d.fingerprint| == FingerprintLength && (nx == 0 || ny == 0) ==> r == Err(ZeroDivision)
    ensures |d.fingerprint| == FingerprintLength && nx != 0 && ny != 0 && FloorMod(Rows, nx) != 0 ==>
      r == Err(RowsNotDivisible)
    ensures |d.fingerprint| == FingerprintLength && nx != 0 && ny != 0 && FloorMod(Rows, nx) == 0 && FloorMod(Cols, ny) != 0 ==>
      r == Err(ColumnsNotDivisible)
    ensures r.Ok? ==> r.value.imdesc == d
    ensures r.Ok? && (nx < 0 || ny < 0) ==> r.value.quadrants == []
    ensures r.Ok? ==> |r.value.quadrants| == 0 || (nx > 0 && ny > 0)
  {
    var fp := d.fingerprint;
    if |fp| != FingerprintLength then Err(FingerprintSize)
    else if nx == 0 || ny == 0 then Err(ZeroDivision)
    else
      var quadX, remX := FloorDiv(Rows, nx), FloorMod(Rows, nx);
      var quadY, remY := FloorDiv(Cols, ny), FloorMod(Cols, ny);
      if remX != 0 then Err(RowsNotDivisible)
      else if remY != 0 then Err(ColumnsNotDivisible)
      else
        ExactQuotient(Rows, nx);
        ExactQuotient(Cols, ny);
        var tops, lefts := PyRange(Rows, quadX), PyRange(Cols, quadY);
        CellsLength(tops, lefts, MeanOf(fp, quadX, quadY));
        Ok(QuadrantAverages(d, Cells(tops, lefts, MeanOf(fp, quadX, quadY))))
  }

  /**
   * The mean of the quadX by quadY cell at (i, j). Every cell calc_quadrants
   * asks for fits the grid (CellStartsFit); the guard only makes the
   * function total.
   */
  function MeanOf(fp: seq<Byte>, h: int, w: int): (nat, nat) -> real {
    (i: nat, j: nat) =>
      if |fp| == FingerprintLength && h > 0 && w > 0 && i + h <= Rows && j + w <= Cols
      then CellMean(fp, i, h, j, w) else 0.0
  }

  /** With step = stop / n exactly, every cell start leaves room for a whole cell. */
  lemma CellStartsFit(n: int, step: int, stop: nat)
    requires n > 0 && step > 0 && stop == n * step
    ensures forall k :: 0 <= k < |RangeFrom(0, stop, step)| ==> RangeFrom(0, stop, step)[k] + step <= stop
  {
    var r := RangeFrom(0, stop, step);
    forall k | 0 <= k < |r| ensures r[k] + step <= stop {
      RangeFromAt(0, stop, step, k);
      MulLtCancel(k, n, step);
      MulLe(k + 1, n, step);
      MulSucc(k, step);
    }
  }

  lemma MulLtCancel(k: nat, n: nat, step: nat)
    requires k * step < n * step
    ensures k < n
  {
  }

  /** For a grid of nx by ny cells that fits, calc_quadrants yields nx * ny averages. */
  lemma CalcQuadrantsShape(d: ImageDescr, nx: int, ny: int)
    requires |d.fingerprint| == FingerprintLength && nx > 0 && ny > 0
    requires Rows % nx == 0 && Cols % ny == 0
    ensures CalcQuadrants(d, nx, ny).Ok?
    ensures |CalcQuadrants(d, nx, ny).value.quadrants| == nx * ny
  {
    var quadX, quadY := Rows / nx, Cols / ny;
    ExactQuotient(Rows, nx);
    ExactQuotient(Cols, ny);
    var tops, lefts := RangeFrom(0, Rows, quadX), RangeFrom(0, Cols, quadY);
    StartsOfExactRange(nx, quadX);
    StartsOfExactRange(ny, quadY);
    QuadrantsAreCells(d, nx, ny);
    CellsLength(tops, lefts, MeanOf(d.fingerprint, quadX, quadY));
  }

  /**
   * The cells of an nx by ny grid of h by w cells are in row-major order:
   * cell (row, col) averages the rows from row * h and the byte columns
   * from col * w.
   */
  lemma GridCellAt(fp: seq<Byte>, nx: nat, ny: nat, h: nat, w: nat, row: nat, col: nat)
    requires h > 0 && w > 0 && nx * h == Rows && ny * w == Cols
    requires row < nx && col < ny
    ensures row * ny + col < |Cells(RangeFrom(0, Rows, h), RangeFrom(0, Cols, w), MeanOf(fp, h, w))|
    ensures row * h + h <= Rows && col * w + w <= Cols
    ensures Cells(RangeFrom(0, Rows, h), RangeFrom(0, Cols, w), MeanOf(fp, h, w))[row * ny + col]
      == MeanOf(fp, h, w)(row * h, col * w)
  {
    var tops, lefts := RangeFrom(0, Rows, h), RangeFrom(0, Cols, w);
    StartsOfExactRange(nx, h);
    StartsOfExactRange(ny, w);
    CellStartsFit(nx, h, Rows);
    CellStartsFit(ny, w, Cols);
    var cell := MeanOf(fp, h, w);
    CellsLength(tops, lefts, cell);
    RowMajorIndex(row, col, ny, nx);
    CellsAt(tops, lefts, cell, row, col);
    RangeFromAt(0, Rows, h, row);
    RangeFromAt(0, Cols, w, col);
    assert |lefts| == ny;
    assert tops[row] == row * h && lefts[col] == col * w;
  }

  /** range(0, n * step, step) is 0, step, ..., (n - 1) * step. */
  lemma StartsOfExactRange(n: nat, step: nat)
    requires step > 0
    ensures |RangeFrom(0, n * step, step)| == n
  {
    RangeLength(0, n, step);
    assert 0 * step == 0;
  }

  /** Every average calc_quadrants yields lies between 0 and 255. */
  lemma CalcQuadrantsBounds(d: ImageDescr, nx: int, ny: int, k: nat)
    requires CalcQuadrants(d, nx, ny).Ok?
    requires k < |CalcQuadrants(d, nx, ny).value.quadrants|
    ensures 0.0 <= CalcQuadrants(d, nx, ny).value.quadrants[k] <= 255.0
  {
    QuadrantsAreCells(d, nx, ny);
    var quadX, quadY := FloorDiv(Rows, nx), FloorDiv(Cols, ny);
    CellsBounded(PyRange(Rows, quadX), PyRange(Cols, quadY), d.fingerprint, quadX, quadY, k);
  }

  lemma CellsBounded(tops: seq<nat>, lefts: seq<nat>, fp: seq<Byte>, h: int, w: int, k: nat)
    requires k < |Cells(tops, lefts, MeanOf(fp, h, w))|
    ensures 0.0 <= Cells(tops, lefts, MeanOf(fp, h, w))[k] <= 255.0
  {
    var cell := MeanOf(fp, h, w);
    CellsLength(tops, lefts, cell);
    RowMajorSplit(k, |lefts|, |tops|);
    var row, col := k / |lefts|, k % |lefts|;
    CellsAt(tops, lefts, cell, row, col);
    MeanOfBounds(fp, h, w, tops[row], lefts[col]);
  }

  lemma MeanOfBounds(fp: seq<Byte>, h: int, w: int, i: nat, j: nat)
    ensures 0.0 <= MeanOf(fp, h, w)(i, j) <= 255.0
  {
    if |fp| == FingerprintLength && h > 0 && w > 0 && i + h <= Rows && j + w <= Cols {
      CellMeanBounds(fp, i, h, j, w);
    }
  }

  /** A successful calc_quadrants holds the generated cells. */
  lemma QuadrantsAreCells(d: ImageDescr, nx: int, ny: int)
    requires CalcQuadrants(d, nx, ny).Ok?
    ensures nx != 0 && ny != 0
    ensures CalcQuadrants(d, nx, ny).value.quadrants
      == Cells(PyRange(Rows, FloorDiv(Rows, nx)), PyRange(Cols, FloorDiv(Cols, ny)),
               MeanOf(d.fingerprint, FloorDiv(Rows, nx), FloorDiv(Cols, ny)))
  {
  }

  /** An index into a row-major n by len layout has a row and a column. */
  lemma RowMajorSplit(k: nat, len: nat, n: nat)
    requires k < n * len
    ensures len > 0 && k / len < n && k % len < len && k == (k / len) * len + k % len
  {
    PositiveFactor(n, len);
    assert k == (k / len) * len + k % len;
    MulLtCancel(k / len, n, len);
  }

  lemma PositiveFactor(n: nat, len: nat)
    requires n * len > 0
    ensures len > 0
  {
  }
}
