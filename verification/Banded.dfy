/** The deterministic banded matrix in CSR form, and its product. */
module Banded {
  import opened Sparse

  const INT64_MAX: nat := 0x7fff_ffff_ffff_ffff

  // The columns Lo .. Hi - 1 of row r lie in the band.
  function Lo(r: nat, band: nat): nat {
    if r < band then 0 else r - band
  }

  function Hi(r: nat, band: nat, rows: nat): nat {
    if r + band >= rows then rows else r + band + 1
  }

  function Dist(r: nat, c: nat): nat {
    if r > c then r - c else c - r
  }

  lemma {:induction false} BandColumns(r: nat, c: nat, band: nat, rows: nat)
    requires r < rows
    ensures Lo(r, band) <= c < Hi(r, band, rows) <==> c < rows && Dist(r, c) <= band
    ensures Lo(r, band) <= r < Hi(r, band, rows)
  {
  }

  lemma {:induction false} DistBand(r: nat, c: nat, band: nat)
    ensures Dist(r, c) <= band <==> r <= c + band && c <= r + band
  {
  }

  // Values stored before row r.
  function Start(r: nat, band: nat, rows: nat): nat
    requires r <= rows
  {
    if r == 0 then 0 else Start(r - 1, band, rows) + (Hi(r - 1, band, rows) - Lo(r - 1, band))
  }

  function Weight(r: nat, c: nat): real {
    1.0 / (1.0 + Dist(r, c) as real)
  }

  lemma {:induction false} StartMonotone(r: nat, s: nat, band: nat, rows: nat)
    requires r <= s <= rows
    ensures Start(r, band, rows) + (s - r) <= Start(s, band, rows)
  {
    if r < s {
      StartMonotone(r, s - 1, band, rows);
      BandColumns(s - 1, s - 1, band, rows);
    }
  }

  // Row r is stored up to column upTo: ascending columns, 32 bits wide, with their weights.
  ghost predicate RowStored(values: seq<real>, col: seq<nat>, band: nat, rows: nat, r: nat, upTo: nat)
    requires r < rows && Lo(r, band) <= upTo
  {
    var at := Start(r, band, rows);
    && at + (upTo - Lo(r, band)) <= |values| && at + (upTo - Lo(r, band)) <= |col|
    && forall c :: Lo(r, band) <= c < upTo ==>
         col[at + (c - Lo(r, band))] == U32(c) && values[at + (c - Lo(r, band))] == Weight(r, c)
  }

  // The rows below r are stored.
  ghost predicate RowsStored(values: seq<real>, col: seq<nat>, band: nat, rows: nat, r: nat)
    requires r <= rows
  {
    forall q :: 0 <= q < r ==> RowStored(values, col, band, rows, q, Hi(q, band, rows))
  }

  // The first n entries are the same.
  predicate SamePrefix<T(==)>(s: seq<T>, s': seq<T>, n: nat) {
    |s'| == |s| && n <= |s| && forall i :: 0 <= i < n ==> s'[i] == s[i]
  }

  lemma {:induction false} StartStep(r: nat, band: nat, rows: nat)
    requires r < rows
    ensures Start(r + 1, band, rows) == Start(r, band, rows) + (Hi(r, band, rows) - Lo(r, band))
  {
  }

  lemma {:induction false} RowKept(values: seq<real>, col: seq<nat>, values': seq<real>, col': seq<nat>, band: nat, rows: nat,
                                   r: nat, n: nat)
    requires r < rows && RowStored(values, col, band, rows, r, Hi(r, band, rows))
    requires Start(r + 1, band, rows) <= n && SamePrefix(values, values', n) && SamePrefix(col, col', n)
    ensures RowStored(values', col', band, rows, r, Hi(r, band, rows))
  {
    hide Weight, Lo, Hi, U32, Start;
    var at := Start(r, band, rows);
    StartStep(r, band, rows);
    forall c | Lo(r, band) <= c < Hi(r, band, rows)
      ensures col'[at + (c - Lo(r, band))] == U32(c) && values'[at + (c - Lo(r, band))] == Weight(r, c)
    {
      assert at + (c - Lo(r, band)) < n;
    }
  }

  lemma {:induction false} RowsKept(values: seq<real>, col: seq<nat>, values': seq<real>, col': seq<nat>, band: nat, rows: nat,
                                    r: nat, n: nat)
    requires r <= rows && RowsStored(values, col, band, rows, r)
    requires Start(r, band, rows) <= n && SamePrefix(values, values', n) && SamePrefix(col, col', n)
    ensures RowsStored(values', col', band, rows, r)
  {
    hide RowStored, SamePrefix, Start;
    forall q | 0 <= q < r
      ensures RowStored(values', col', band, rows, q, Hi(q, band, rows))
    {
      StartMonotone(q + 1, r, band, rows);
      RowKept(values, col, values', col', band, rows, q, n);
    }
  }

  // The loop over the columns of a row.
  method StoreRow(values: array<real>, colIdx: array<nat>, row: nat, colStart: nat, colEnd: int, band: nat, rows: nat,
                  nnz0: nat) returns (nnz: nat)
    requires row < rows && nnz0 == Start(row, band, rows) && colStart == Lo(row, band) && colEnd + 1 == Hi(row, band, rows)
    requires Start(row + 1, band, rows) <= values.Length && Start(row + 1, band, rows) <= colIdx.Length
    modifies values, colIdx
    ensures nnz == Start(row + 1, band, rows)
    ensures RowStored(values[..], colIdx[..], band, rows, row, Hi(row, band, rows))
    ensures SamePrefix(old(values[..]), values[..], nnz0) && SamePrefix(old(colIdx[..]), colIdx[..], nnz0)
  {
    BandColumns(row, row, band, rows);
    nnz := nnz0;
    var col := colStart;
    while col <= colEnd
      invariant colStart <= col <= colEnd + 1 && nnz == nnz0 + (col - colStart)
      invariant RowStored(values[..], colIdx[..], band, rows, row, col)
      invariant SamePrefix(old(values[..]), values[..], nnz0) && SamePrefix(old(colIdx[..]), colIdx[..], nnz0)
    {
      StoreOne(values, colIdx, row, col, band, rows, nnz);
      col, nnz := col + 1, nnz + 1;
    }
  }

  // The body of that loop.
  method StoreOne(values: array<real>, colIdx: array<nat>, row: nat, col: nat, ghost band: nat, ghost rows: nat, nnz: nat)
    requires row < rows && Lo(row, band) <= col && nnz == Start(row, band, rows) + (col - Lo(row, band))
    requires nnz < values.Length && nnz < colIdx.Length
    requires RowStored(values[..], colIdx[..], band, rows, row, col)
    modifies values, colIdx
    ensures RowStored(values[..], colIdx[..], band, rows, row, col + 1)
    ensures SamePrefix(old(values[..]), values[..], nnz) && SamePrefix(old(colIdx[..]), colIdx[..], nnz)
  {
    colIdx[nnz] := U32(col);
    var dist := if row > col then row - col else col - row;
    values[nnz] := 1.0 / (1.0 + dist as real);
  }

  // generate_banded_matrix: row pointers, columns and weights of the band, and the number of
  // stored values. Signed 64-bit arithmetic must not overflow.
  method GenerateBandedMatrix(values: array<real>, colIdx: array<nat>, rowPtr: array<nat>, numRows: nat,
                              bandWidth: nat) returns (nnz: nat)
    requires numRows + bandWidth <= INT64_MAX && rowPtr != colIdx
    requires rowPtr.Length > numRows
    requires Start(numRows, bandWidth, numRows) <= values.Length && Start(numRows, bandWidth, numRows) <= colIdx.Length
    modifies values, colIdx, rowPtr
    ensures nnz == Start(numRows, bandWidth, numRows)
    ensures forall r :: 0 <= r <= numRows ==> rowPtr[r] == U32(Start(r, bandWidth, numRows))
    ensures RowsStored(values[..], colIdx[..], bandWidth, numRows, numRows)
  {
    hide RowsStored, Start;
    nnz := 0;
    NoRows(values[..], colIdx[..], bandWidth, numRows);
    for row := 0 to numRows
      invariant nnz == Start(row, bandWidth, numRows)
      invariant forall r :: 0 <= r < row ==> rowPtr[r] == U32(Start(r, bandWidth, numRows))
      invariant RowsStored(values[..], colIdx[..], bandWidth, numRows, row)
    {
      rowPtr[row] := U32(nnz);
      nnz := GenerateRow(values, colIdx, row, bandWidth, numRows, nnz);
    }
    rowPtr[numRows] := U32(nnz);
  }

  lemma {:induction false} NoRows(values: seq<real>, col: seq<nat>, band: nat, rows: nat)
    ensures Start(0, band, rows) == 0 && RowsStored(values, col, band, rows, 0)
  {
  }

  // The part of the row loop after the row pointer.
  method GenerateRow(values: array<real>, colIdx: array<nat>, row: nat, bandWidth: nat, numRows: nat,
                     nnz0: nat) returns (nnz: nat)
    requires row < numRows && nnz0 == Start(row, bandWidth, numRows)
    requires Start(numRows, bandWidth, numRows) <= values.Length && Start(numRows, bandWidth, numRows) <= colIdx.Length
    requires RowsStored(values[..], colIdx[..], bandWidth, numRows, row)
    modifies values, colIdx
    ensures nnz == Start(row + 1, bandWidth, numRows)
    ensures RowsStored(values[..], colIdx[..], bandWidth, numRows, row + 1)
  {
    hide RowStored, Lo, Hi, Start;
    var colStart, colEnd := ColumnRange(row, bandWidth, numRows);
    StartMonotone(row + 1, numRows, bandWidth, numRows);
    StartMonotone(row, row + 1, bandWidth, numRows);
    BandColumns(row, row, bandWidth, numRows);
    nnz := StoreRow(values, colIdx, row, colStart, colEnd, bandWidth, numRows, nnz0);
    RowsKept(old(values[..]), old(colIdx[..]), values[..], colIdx[..], bandWidth, numRows, row, nnz0);
  }

  // The column range of a row, clamped to the matrix.
  method ColumnRange(row: nat, bandWidth: nat, numRows: nat) returns (colStart: nat, colEnd: int)
    requires row < numRows
    ensures colStart == Lo(row, bandWidth) && colEnd + 1 == Hi(row, bandWidth, numRows)
  {
    var start: int := row - bandWidth;
    colEnd := row + bandWidth;
    if start < 0 {
      start := 0;
    }
    if colEnd >= numRows {
      colEnd := numRows - 1;
    }
    colStart := start;
  }

  // ---- the matrix the generator denotes --------------------------------------------------------------

  // What GenerateBandedMatrix leaves behind.
  ghost predicate IsBanded(m: Csr, band: nat, rows: nat) {
    && |m.rowPtr| > rows
    && (forall r :: 0 <= r <= rows ==> m.rowPtr[r] == U32(Start(r, band, rows)))
    && RowsStored(m.values, m.col, band, rows, rows)
    && Start(rows, band, rows) <= |m.values| && Start(rows, band, rows) <= |m.col|
  }

  lemma {:induction false} Fits32(x: nat)
    requires x < UINT32
    ensures U32(x) == x
  {
  }

  lemma {:induction false} RowPointers(m: Csr, band: nat, rows: nat, r: nat)
    requires IsBanded(m, band, rows) && r <= rows && Start(rows, band, rows) < UINT32
    ensures m.rowPtr[r] == Start(r, band, rows) <= Start(rows, band, rows)
  {
    hide U32, RowsStored, Start, Weight;
    StartMonotone(r, rows, band, rows);
    Fits32(Start(r, band, rows));
  }

  lemma {:induction false} RowsBelowCount(band: nat, rows: nat)
    ensures rows <= Start(rows, band, rows)
  {
    StartMonotone(0, rows, band, rows);
  }

  lemma {:induction false} HiWithin(r: nat, band: nat, rows: nat)
    ensures Hi(r, band, rows) <= rows
  {
  }

  // Where a stored value of row r lies, and what it is, when the count fits 32 bits.
  lemma {:induction false} StoredAt(m: Csr, band: nat, rows: nat, r: nat, t: nat)
    requires IsBanded(m, band, rows) && r < rows && Start(rows, band, rows) < UINT32
    requires Start(r, band, rows) <= t < Start(r + 1, band, rows)
    ensures t < |m.values| && t < |m.col|
    ensures var c := Lo(r, band) + (t - Start(r, band, rows));
      c < Hi(r, band, rows) <= rows && m.col[t] == c && m.values[t] == Weight(r, c)
  {
    hide Weight, U32, Start, Lo, Hi;
    StartStep(r, band, rows);
    StartMonotone(r + 1, rows, band, rows);
    RowsBelowCount(band, rows);
    BandColumns(r, r, band, rows);
    HiWithin(r, band, rows);
    assert RowStored(m.values, m.col, band, rows, r, Hi(r, band, rows));
    var c := Lo(r, band) + (t - Start(r, band, rows));
    Fits32(c);
  }

  // The columns of a row as stored: ascending, below rows.
  ghost predicate RowAscends(m: Csr, lo: nat, hi: nat, rows: nat)
    requires hi <= |m.col|
  {
    && (forall t :: lo <= t < hi ==> m.col[t] < rows)
    && (forall t, u :: lo <= t < u < hi ==> m.col[t] < m.col[u])
  }

  // A row holds values, within the arrays, in ascending columns.
  ghost predicate RowListed(m: Csr, r: nat, rows: nat)
    requires r + 1 < |m.rowPtr|
  {
    m.rowPtr[r] < m.rowPtr[r + 1] <= |m.col| && RowAscends(m, m.rowPtr[r], m.rowPtr[r + 1], rows)
  }

  // Some value of row r is stored for column c.
  ghost predicate Lists(m: Csr, r: nat, c: nat)
    requires r + 1 < |m.rowPtr|
  {
    exists t :: m.rowPtr[r] <= t < m.rowPtr[r + 1] && t < |m.col| && m.col[t] == c
  }

  lemma {:induction false} BandedRowAscends(m: Csr, band: nat, rows: nat, r: nat)
    requires IsBanded(m, band, rows) && Start(rows, band, rows) < UINT32 && r < rows
    ensures m.rowPtr[r] < m.rowPtr[r + 1] <= |m.col| && m.rowPtr[r + 1] <= |m.values|
    ensures RowAscends(m, m.rowPtr[r], m.rowPtr[r + 1], rows)
  {
    hide RowsStored, U32, Weight, Start, Lo, Hi;
    RowPointers(m, band, rows, r);
    RowPointers(m, band, rows, r + 1);
    StartMonotone(r, r + 1, band, rows);
    forall t | Start(r, band, rows) <= t < Start(r + 1, band, rows)
      ensures m.col[t] == Lo(r, band) + (t - Start(r, band, rows)) < rows
    {
      StoredAt(m, band, rows, r, t);
    }
  }

  // The generator's output while the count fits 32 bits: row pointers ascend strictly from 0 to
  // the count, each row lists exactly the columns of its band, in ascending order.
  lemma {:induction false} BandedRows(m: Csr, band: nat, rows: nat)
    requires IsBanded(m, band, rows) && Start(rows, band, rows) < 0x1_0000_0000
    ensures m.rowPtr[0] == 0 && m.rowPtr[rows] == Start(rows, band, rows) <= |m.values| && m.rowPtr[rows] <= |m.col|
    ensures forall r :: 0 <= r < rows ==> RowListed(m, r, rows)
    ensures forall r, c :: 0 <= r < rows && 0 <= c < rows ==>
      (Lists(m, r, c) <==> r <= c + band && c <= r + band)
  {
    hide RowsStored, Weight, Dist, U32, Start, RowAscends;
    RowPointers(m, band, rows, 0);
    RowPointers(m, band, rows, rows);
    StartZero(band, rows);
    forall r | 0 <= r < rows
      ensures RowListed(m, r, rows)
    {
      BandedRowAscends(m, band, rows, r);
    }
    forall r, c | 0 <= r < rows && 0 <= c < rows
      ensures Lists(m, r, c) <==> r <= c + band && c <= r + band
    {
      ColumnListed(m, band, rows, r, c);
      DistBand(r, c, band);
    }
  }

  // With room for i + 8 the product's accesses are in bounds as well.
  lemma {:induction false} BandedIsCsr(m: Csr, band: nat, rows: nat)
    requires IsBanded(m, band, rows) && Start(rows, band, rows) + 8 < UINT32
    ensures m.Valid(rows, rows)
  {
    hide RowsStored, Weight, Dist, U32, Start, RowAscends;
    forall r | 0 <= r <= rows
      ensures m.rowPtr[r] == Start(r, band, rows) <= Start(rows, band, rows)
    {
      RowPointers(m, band, rows, r);
    }
    forall r | 0 <= r < rows
      ensures RowAscends(m, m.rowPtr[r], m.rowPtr[r + 1], rows)
    {
      BandedRowAscends(m, band, rows, r);
    }
    AscendingIsValid(m, rows);
  }

  lemma {:induction false} StartZero(band: nat, rows: nat)
    ensures Start(0, band, rows) == 0
  {
  }

  lemma {:induction false} AscendingIsValid(m: Csr, rows: nat)
    requires |m.rowPtr| > rows
    requires forall r :: 0 <= r <= rows ==> m.rowPtr[r] <= |m.values| && m.rowPtr[r] <= |m.col| && m.rowPtr[r] + 8 < UINT32
    requires forall r :: 0 <= r < rows ==> RowAscends(m, m.rowPtr[r], m.rowPtr[r + 1], rows)
    ensures m.Valid(rows, rows)
  {
    forall r, t | 0 <= r < rows && m.rowPtr[r] <= t < m.rowPtr[r + 1]
      ensures m.col[t] < rows
    {
      assert RowAscends(m, m.rowPtr[r], m.rowPtr[r + 1], rows);
    }
  }

  lemma {:induction false} ColumnListed(m: Csr, band: nat, rows: nat, r: nat, c: nat)
    requires IsBanded(m, band, rows) && Start(rows, band, rows) < UINT32 && r < rows && c < rows
    ensures m.rowPtr[r] == Start(r, band, rows) && m.rowPtr[r + 1] == Start(r + 1, band, rows) <= |m.col|
    ensures Lists(m, r, c) <==> Dist(r, c) <= band
  {
    hide RowsStored, Weight, U32, Start, Lo, Hi, Dist;
    RowPointers(m, band, rows, r);
    RowPointers(m, band, rows, r + 1);
    BandColumns(r, c, band, rows);
    StartStep(r, band, rows);
    if Lo(r, band) <= c < Hi(r, band, rows) {
      StoredAt(m, band, rows, r, Start(r, band, rows) + (c - Lo(r, band)));
    }
    if t :| m.rowPtr[r] <= t < m.rowPtr[r + 1] && t < |m.col| && m.col[t] == c {
      StoredAt(m, band, rows, r, t);
    }
  }

  lemma {:induction false} BandedCell(m: Csr, band: nat, rows: nat, r: nat, hi: nat, c: nat)
    requires IsBanded(m, band, rows) && Start(rows, band, rows) < UINT32 && r < rows
    requires Start(r, band, rows) <= hi <= Start(r + 1, band, rows) <= Start(rows, band, rows)
    ensures m.Cell(Start(r, band, rows), hi, c) ==
      if Lo(r, band) <= c < Lo(r, band) + (hi - Start(r, band, rows)) then Weight(r, c) else 0.0
    decreases hi
  {
    hide IsBanded, Weight, Start;
    if hi > Start(r, band, rows) {
      InArrays(m, band, rows, hi);
      BandedCell(m, band, rows, r, hi - 1, c);
      StoredAt(m, band, rows, r, hi - 1);
    }
  }

  lemma {:induction false} InArrays(m: Csr, band: nat, rows: nat, hi: nat)
    requires IsBanded(m, band, rows) && hi <= Start(rows, band, rows)
    ensures hi <= |m.values| && hi <= |m.col|
  {
  }

  // The dense matrix: 1 / (1 + |r - c|) inside the band, 0 outside. It is symmetric.
  lemma {:induction false} BandedDense(m: Csr, band: nat, rows: nat, r: nat, c: nat)
    requires IsBanded(m, band, rows) && Start(rows, band, rows) < 0x1_0000_0000 && r < rows && c < rows
    ensures m.rowPtr[r + 1] <= |m.values| && m.rowPtr[r + 1] <= |m.col|
    ensures m.Dense(r, c) ==
      if r <= c + band && c <= r + band then 1.0 / (1.0 + if r > c then (r - c) as real else (c - r) as real) else 0.0
    ensures m.rowPtr[c + 1] <= |m.values| && m.rowPtr[c + 1] <= |m.col| && m.Dense(c, r) == m.Dense(r, c)
  {
    hide IsBanded, Start, Csr.Dense;
    DenseCell(m, band, rows, r, c);
    DenseCell(m, band, rows, c, r);
  }

  lemma {:induction false} DenseCell(m: Csr, band: nat, rows: nat, r: nat, c: nat)
    requires IsBanded(m, band, rows) && Start(rows, band, rows) < UINT32 && r < rows && c < rows
    ensures m.rowPtr[r + 1] <= |m.values| && m.rowPtr[r + 1] <= |m.col|
    ensures m.Dense(r, c) == if Dist(r, c) <= band then Weight(r, c) else 0.0
  {
    hide RowsStored, U32, Start, Weight;
    RowPointers(m, band, rows, r);
    RowPointers(m, band, rows, r + 1);
    StartStep(r, band, rows);
    StartMonotone(r, r + 1, band, rows);
    BandColumns(r, c, band, rows);
    BandedCell(m, band, rows, r, Start(r + 1, band, rows), c);
  }

  // The weighted neighbours of row r from column lo to hi - 1.
  function BandSum(x: seq<real>, r: nat, lo: nat, hi: nat): real
    requires hi <= |x|
    decreases hi
  {
    if hi <= lo then 0.0 else BandSum(x, r, lo, hi - 1) + x[hi - 1] / (1.0 + Dist(r, hi - 1) as real)
  }

  lemma {:induction false} WeightTimes(r: nat, c: nat, y: real)
    ensures Weight(r, c) * y == y / (1.0 + Dist(r, c) as real)
  {
  }

  lemma {:induction false} BandedDot(m: Csr, band: nat, rows: nat, x: seq<real>, r: nat, hi: nat)
    requires IsBanded(m, band, rows) && Start(rows, band, rows) < UINT32 && r < rows && |x| == rows
    requires Start(r, band, rows) <= hi <= Start(r + 1, band, rows) <= Start(rows, band, rows)
    ensures hi <= |m.values| && hi <= |m.col|
    ensures Lo(r, band) + (hi - Start(r, band, rows)) <= rows
    ensures Dot(m.values, Gather(x, m.col), Start(r, band, rows), hi) ==
      BandSum(x, r, Lo(r, band), Lo(r, band) + (hi - Start(r, band, rows)))
    decreases hi
  {
    hide IsBanded, Start, Lo, Hi, Gather;
    InArrays(m, band, rows, hi);
    BandColumns(r, r, band, rows);
    StartStep(r, band, rows);
    HiWithin(r, band, rows);
    if hi > Start(r, band, rows) {
      BandedDot(m, band, rows, x, r, hi - 1);
      BandedTerm(m, band, rows, x, r, hi - 1);
    }
  }

  // One stored value's term of the product.
  lemma {:induction false} BandedTerm(m: Csr, band: nat, rows: nat, x: seq<real>, r: nat, t: nat)
    requires IsBanded(m, band, rows) && Start(rows, band, rows) < UINT32 && r < rows && |x| == rows
    requires Start(r, band, rows) <= t < Start(r + 1, band, rows)
    ensures t < |m.values| && t < |m.col|
    ensures var c := Lo(r, band) + (t - Start(r, band, rows));
      c < rows && m.values[t] * Gather(x, m.col)[t] == x[c] / (1.0 + Dist(r, c) as real)
  {
    hide IsBanded, Start, Lo, Hi, Weight, Dist;
    StoredAt(m, band, rows, r, t);
    WeightTimes(r, m.col[t], x[m.col[t]]);
  }

  // The product of the generated matrix with x: y[r] is the sum over |r - c| <= band of
  // x[c] / (1 + |r - c|).
  lemma {:induction false} BandedProduct(m: Csr, band: nat, rows: nat, x: seq<real>, r: nat)
    requires IsBanded(m, band, rows) && Start(rows, band, rows) + 8 < UINT32 && r < rows && |x| == rows
    ensures m.Valid(rows, rows) && Hi(r, band, rows) <= rows
    ensures DenseRow(m, r, x) == BandSum(x, r, Lo(r, band), Hi(r, band, rows))
  {
    hide IsBanded, Start, BandSum, CellDot, Dot, Gather, Weight;
    BandedIsCsr(m, band, rows);
    RowPointers(m, band, rows, r);
    RowPointers(m, band, rows, r + 1);
    StartStep(r, band, rows);
    StartMonotone(r, r + 1, band, rows);
    BandedDot(m, band, rows, x, r, Start(r + 1, band, rows));
    StoredIsDense(m, m.rowPtr[r], m.rowPtr[r + 1], x);
  }

  // ---- how many values --------------------------------------------------------------------------------

  // Columns of the band on one side of the diagonal, over the first m rows.
  function Side(m: nat, band: nat): nat {
    if m == 0 then 0 else Side(m - 1, band) + if m - 1 < band then m - 1 else band
  }

  lemma {:induction false} SideClosed(m: nat, band: nat)
    ensures m <= band + 1 ==> 2 * Side(m, band) == m * (m - 1)
    ensures m > band ==> 2 * Side(m, band) == band * (band + 1) + 2 * ((m - band - 1) * band)
  {
    if m > 0 {
      SideClosed(m - 1, band);
      Triangle(m);
      if m > band + 1 {
        OneMoreRow(m - band - 1, band);
      }
    }
  }

  lemma {:induction false} Triangle(m: nat)
    ensures (m - 1) * (m - 2) + 2 * (m - 1) == m * (m - 1)
  {
  }

  lemma {:induction false} OneMoreRow(d: nat, band: nat)
    ensures (d - 1) * band + band == d * band
  {
  }

  lemma {:induction false} StartIsSides(r: nat, band: nat, rows: nat)
    requires r <= rows
    ensures Start(r, band, rows) == r + Side(r, band) + Side(rows, band) - Side(rows - r, band)
  {
    if r > 0 {
      StartIsSides(r - 1, band, rows);
    }
  }

  // The generator stores N(2b + 1) - b(b + 1) values, all N * N once the band covers the matrix.
  lemma {:induction false} BandedCount(band: nat, rows: nat)
    ensures band <= rows ==> Start(rows, band, rows) == rows * (2 * band + 1) - band * (band + 1)
    ensures band >= rows ==> Start(rows, band, rows) == rows * rows
  {
    StartIsSides(rows, band, rows);
    SideClosed(rows, band);
    CountAlgebra(band, rows, Side(rows, band));
  }

  // (a - b - 1) * b, and the other products of CountAlgebra, multiplied out.
  lemma {:induction false} Products(a: nat, b: nat)
    requires a > b
    ensures (a - b - 1) * b == a * b - b * b - b
  {
    assert (a - b - 1) * b + (b + 1) * b == a * b;
    assert (b + 1) * b == b * b + b;
  }

  lemma {:induction false} Distribute(a: nat, b: nat)
    ensures a * (2 * b + 1) == 2 * (a * b) + a && a * (a - 1) == a * a - a && b * (b + 1) == b * b + b
  {
  }

  lemma {:induction false} CountAlgebra(band: nat, rows: nat, side: nat)
    requires rows <= band + 1 ==> 2 * side == rows * (rows - 1)
    requires rows > band ==> 2 * side == band * (band + 1) + 2 * ((rows - band - 1) * band)
    ensures band <= rows ==> rows + 2 * side == rows * (2 * band + 1) - band * (band + 1)
    ensures band >= rows ==> rows + 2 * side == rows * rows
  {
    Distribute(rows, band);
    if rows > band {
      Products(rows, band);
    }
  }

  // The row pointers are the true counts if and only if the total fits 32 bits.
  lemma {:induction false} RowPointersExact(m: Csr, band: nat, rows: nat)
    requires IsBanded(m, band, rows)
    ensures (forall r :: 0 <= r <= rows ==> m.rowPtr[r] == Start(r, band, rows)) <==> Start(rows, band, rows) < 0x1_0000_0000
  {
    hide RowsStored, Start;
    if Start(rows, band, rows) < UINT32 {
      forall r | 0 <= r <= rows
        ensures m.rowPtr[r] == Start(r, band, rows)
      {
        RowPointers(m, band, rows, r);
      }
    } else {
      assert m.rowPtr[rows] == U32(Start(rows, band, rows)) < UINT32;
    }
  }
}
