/**
 Dot product and sparse matrix-vector product over exact arithmetic: the eight lanes regroup
 the sums, so they are compared with plain sums over the reals.
 */
module Sparse {
  import opened Numbers

  const UINT32: nat := 0x1_0000_0000

  // (uint32_t) x
  function U32(x: nat): nat {
    x % UINT32
  }

  // The sum of v[t] * w[t] over lo <= t < hi.
  function Dot(v: seq<real>, w: seq<real>, lo: nat, hi: nat): real
    requires hi <= |v| && hi <= |w|
    decreases hi
  {
    if hi <= lo then 0.0 else Dot(v, w, lo, hi - 1) + v[hi - 1] * w[hi - 1]
  }

  // The eight lanes of a vector register.
  type Lanes = s: seq<real> | |s| == 8 witness [0.0, 0.0, 0.0, 0.0, 0.0, 0.0, 0.0, 0.0]

  const NO_SUM: Lanes := [0.0, 0.0, 0.0, 0.0, 0.0, 0.0, 0.0, 0.0]

  function Fmadd(v: Lanes, w: Lanes, s: Lanes): Lanes {
    seq(8, l requires 0 <= l < 8 => v[l] * w[l] + s[l])
  }

  // The lanes added up to the l-th, in the order the store-and-add loop takes them.
  function LaneSum(s: Lanes, l: nat): real
    requires l <= 8
  {
    if l == 0 then 0.0 else LaneSum(s, l - 1) + s[l - 1]
  }

  lemma {:induction false} DotJoin(v: seq<real>, w: seq<real>, lo: nat, mid: nat, hi: nat)
    requires lo <= mid <= hi <= |v| && hi <= |w|
    ensures Dot(v, w, lo, mid) + Dot(v, w, mid, hi) == Dot(v, w, lo, hi)
  {
    if mid < hi {
      DotJoin(v, w, lo, mid, hi - 1);
    }
  }

  lemma {:induction false} FmaddLanes(v: seq<real>, w: seq<real>, i: nat, s: Lanes, l: nat)
    requires i + 8 <= |v| && i + 8 <= |w| && l <= 8
    ensures LaneSum(Fmadd(v[i..i + 8], w[i..i + 8], s), l) == LaneSum(s, l) + Dot(v, w, i, i + l)
  {
    if l > 0 {
      FmaddLanes(v, w, i, s, l - 1);
      assert v[i..i + 8][l - 1] == v[i + l - 1] && w[i..i + 8][l - 1] == w[i + l - 1];
    }
  }

  // One vector step adds the next eight products to the lanes' total.
  lemma {:induction false} FmaddAdds(v: seq<real>, w: seq<real>, lo: nat, i: nat, s: Lanes)
    requires lo <= i && i + 8 <= |v| && i + 8 <= |w|
    requires LaneSum(s, 8) == Dot(v, w, lo, i)
    ensures LaneSum(Fmadd(v[i..i + 8], w[i..i + 8], s), 8) == Dot(v, w, lo, i + 8)
  {
    FmaddLanes(v, w, i, s, 8);
    DotJoin(v, w, lo, i, i + 8);
  }

  lemma {:induction false} NoLanes(l: nat)
    requires l <= 8
    ensures LaneSum(NO_SUM, l) == 0.0
  {
  }

  // The loop that stores the register and adds the lanes.
  method AddLanes(s: Lanes) returns (total: real)
    ensures total == LaneSum(s, 8)
  {
    total := 0.0;
    for k := 0 to 8
      invariant total == LaneSum(s, k)
    {
      total := total + s[k];
    }
  }

  // ---- dot_product ----------------------------------------------------------------------------

  // Reads whole vectors: the products up to the next multiple of 8 all count.
  method DotProduct(a: array<real>, b: array<real>, count: nat) returns (total: real)
    requires Padded(count) <= a.Length && Padded(count) <= b.Length
    ensures total == Dot(a[..], b[..], 0, Padded(count))
  {
    hide Dot, LaneSum, Fmadd;
    var sumVec: Lanes := NO_SUM;
    NoLanes(8);
    DotNone(a[..], b[..], 0);
    var i := 0;
    while i < count
      invariant i % 8 == 0 && i <= Padded(count)
      invariant LaneSum(sumVec, 8) == Dot(a[..], b[..], 0, i)
    {
      FmaddAdds(a[..], b[..], 0, i, sumVec);
      sumVec := Fmadd(a[..][i..i + 8], b[..][i..i + 8], sumVec);
      i := i + 8;
    }
    total := AddLanes(sumVec);
  }

  // The result is the dot product when the padding products are zero.
  lemma {:induction false} ZeroPadding(v: seq<real>, w: seq<real>, count: nat, hi: nat)
    requires count <= hi <= |v| && hi <= |w|
    requires forall t :: count <= t < hi ==> v[t] * w[t] == 0.0
    ensures Dot(v, w, 0, hi) == Dot(v, w, 0, count)
  {
    if hi > count {
      ZeroPadding(v, w, count, hi - 1);
    }
  }

  // ---- spmv_csr ---------------------------------------------------------------------------------

  // x at the column of each stored value; entries that are no columns do not matter.
  function Gather(x: seq<real>, col: seq<nat>): (g: seq<real>)
    ensures |g| == |col|
  {
    seq(|col|, t requires 0 <= t < |col| => if col[t] < |x| then x[col[t]] else 0.0)
  }

  // A CSR matrix: the values of row r are values[rowPtr[r]..rowPtr[r + 1]].
  datatype Csr = Csr(values: seq<real>, col: seq<nat>, rowPtr: seq<nat>) {

    // What the accesses need: row pointers within the arrays and far enough from 2^32 that i + 8
    // does not wrap, and columns below cols where there are values.
    ghost predicate Valid(rows: nat, cols: nat) {
      && |rowPtr| > rows
      && (forall r :: 0 <= r <= rows ==> rowPtr[r] <= |values| && rowPtr[r] <= |col| && rowPtr[r] + 8 < UINT32)
      && (forall r, t :: 0 <= r < rows && rowPtr[r] <= t < rowPtr[r + 1] ==> col[t] < cols)
    }

    // The matrix the arrays denote: stored values of one cell add up.
    function Cell(lo: nat, hi: nat, c: nat): real
      requires hi <= |values| && hi <= |col|
      decreases hi
    {
      if hi <= lo then 0.0 else Cell(lo, hi - 1, c) + if col[hi - 1] == c then values[hi - 1] else 0.0
    }

    function Dense(r: nat, c: nat): real
      requires r + 1 < |rowPtr| && rowPtr[r + 1] <= |values| && rowPtr[r + 1] <= |col|
    {
      Cell(rowPtr[r], rowPtr[r + 1], c)
    }
  }

  // The first cols terms of the product of a dense row, given by its cells, with x.
  function CellDot(m: Csr, lo: nat, hi: nat, x: seq<real>, cols: nat): real
    requires hi <= |m.values| && hi <= |m.col| && cols <= |x|
  {
    if cols == 0 then 0.0 else CellDot(m, lo, hi, x, cols - 1) + m.Cell(lo, hi, cols - 1) * x[cols - 1]
  }

  // Row r of the dense matrix times x.
  function DenseRow(m: Csr, r: nat, x: seq<real>): real
    requires r + 1 < |m.rowPtr| && m.rowPtr[r + 1] <= |m.values| && m.rowPtr[r + 1] <= |m.col|
  {
    CellDot(m, m.rowPtr[r], m.rowPtr[r + 1], x, |x|)
  }

  lemma {:induction false} EmptyRow(m: Csr, lo: nat, hi: nat, x: seq<real>, cols: nat)
    requires hi <= lo && hi <= |m.values| && hi <= |m.col| && cols <= |x|
    ensures CellDot(m, lo, hi, x, cols) == 0.0
  {
    if cols > 0 {
      EmptyRow(m, lo, hi, x, cols - 1);
    }
  }

  // One more stored value changes the term of its own column only.
  lemma {:induction false} OneMoreValue(m: Csr, lo: nat, hi: nat, x: seq<real>, cols: nat)
    requires lo < hi <= |m.values| && hi <= |m.col| && cols <= |x|
    ensures CellDot(m, lo, hi, x, cols) == CellDot(m, lo, hi - 1, x, cols)
      + if m.col[hi - 1] < cols then m.values[hi - 1] * x[m.col[hi - 1]] else 0.0
  {
    if cols > 0 {
      OneMoreValue(m, lo, hi, x, cols - 1);
      var c, v := cols - 1, m.values[hi - 1];
      if m.col[hi - 1] == c {
        assert (m.Cell(lo, hi - 1, c) + v) * x[c] == m.Cell(lo, hi - 1, c) * x[c] + v * x[c];
      }
    }
  }

  // The sum over the stored values of a row is the row of the dense product.
  lemma {:induction false} StoredIsDense(m: Csr, lo: nat, hi: nat, x: seq<real>)
    requires hi <= |m.values| && hi <= |m.col| && forall t :: lo <= t < hi ==> m.col[t] < |x|
    ensures Dot(m.values, Gather(x, m.col), lo, hi) == CellDot(m, lo, hi, x, |x|)
    decreases hi
  {
    if hi <= lo {
      EmptyRow(m, lo, hi, x, |x|);
    } else {
      StoredIsDense(m, lo, hi - 1, x);
      OneMoreValue(m, lo, hi, x, |x|);
    }
  }

  // Eight values of x at the columns i .. i + 7.
  method GatherLanes(colIdx: array<nat>, x: array<real>, i: nat) returns (xVec: Lanes)
    requires i + 8 <= colIdx.Length && forall t :: i <= t < i + 8 ==> colIdx[t] < x.Length
    ensures xVec == Gather(x[..], colIdx[..])[i..i + 8]
  {
    xVec := [x[colIdx[i]], x[colIdx[i + 1]], x[colIdx[i + 2]], x[colIdx[i + 3]],
             x[colIdx[i + 4]], x[colIdx[i + 5]], x[colIdx[i + 6]], x[colIdx[i + 7]]];
  }

  // One row: whole vectors first, their lanes added up, then the tail one by one.
  method SpmvRow(values: array<real>, colIdx: array<nat>, x: array<real>, start: nat, end: nat) returns (sum: real)
    requires start <= values.Length && start <= colIdx.Length && end <= values.Length && end <= colIdx.Length
    requires start + 8 < UINT32 && end + 8 < UINT32
    requires forall t :: start <= t < end ==> colIdx[t] < x.Length
    ensures sum == Dot(values[..], Gather(x[..], colIdx[..]), start, end)
  {
    hide Gather, Dot, LaneSum, Fmadd;
    ghost var v, g := values[..], Gather(x[..], colIdx[..]);
    var sumVec: Lanes := NO_SUM;
    NoLanes(8);
    DotNone(v, g, start);
    var i := start;
    while U32(i + 8) <= end
      invariant start <= i <= values.Length && i <= colIdx.Length && (i == start || i <= end)
      invariant LaneSum(sumVec, 8) == Dot(v, g, start, i)
    {
      var xVec := GatherLanes(colIdx, x, i);
      FmaddAdds(v, g, start, i, sumVec);
      assert values[i..i + 8] == v[i..i + 8];
      sumVec := Fmadd(values[i..i + 8], xVec, sumVec);
      i := i + 8;
    }
    sum := AddLanes(sumVec);
    sum := SpmvTail(values, colIdx, x, start, i, end, sum);
  }

  lemma {:induction false} DotNone(v: seq<real>, w: seq<real>, i: nat)
    requires i <= |v| && i <= |w|
    ensures Dot(v, w, i, i) == 0.0
  {
  }

  // The loop over the tail.
  method SpmvTail(values: array<real>, colIdx: array<nat>, x: array<real>, ghost start: nat, from: nat, end: nat,
                  sum0: real) returns (sum: real)
    requires start <= from <= values.Length && from <= colIdx.Length && end <= values.Length && end <= colIdx.Length
    requires from == start || from <= end
    requires forall t :: start <= t < end ==> colIdx[t] < x.Length
    requires sum0 == Dot(values[..], Gather(x[..], colIdx[..]), start, from)
    ensures sum == Dot(values[..], Gather(x[..], colIdx[..]), start, end)
  {
    ghost var v, g := values[..], Gather(x[..], colIdx[..]);
    sum := sum0;
    var i := from;
    while i < end
      invariant from <= i <= values.Length && i <= colIdx.Length && (i == from || i <= end)
      invariant sum == Dot(v, g, start, i)
    {
      sum := sum + values[i] * x[colIdx[i]];
      i := i + 1;
    }
  }

  // spmv_csr: y becomes the dense product of the matrix the arrays denote with x. y is assigned,
  // whatever it held, and nothing past numRows is written.
  method SpmvCsr(values: array<real>, colIdx: array<nat>, rowPtr: array<nat>, x: array<real>, y: array<real>, numRows: nat)
    requires y != values && y != x && numRows <= y.Length
    requires Csr(values[..], colIdx[..], rowPtr[..]).Valid(numRows, x.Length)
    modifies y
    ensures forall r :: 0 <= r < numRows ==> y[r] == DenseRow(Csr(values[..], colIdx[..], rowPtr[..]), r, x[..])
    ensures y[numRows..] == old(y[numRows..])
  {
    ghost var m := Csr(values[..], colIdx[..], rowPtr[..]);
    for row := 0 to numRows
      invariant forall r :: 0 <= r < row ==> y[r] == DenseRow(m, r, x[..])
      invariant y[numRows..] == old(y[numRows..])
    {
      assert m.rowPtr[row] == rowPtr[row] && m.rowPtr[row + 1] == rowPtr[row + 1];
      var start, end := rowPtr[row], rowPtr[row + 1];
      assert forall t :: start <= t < end ==> colIdx[t] == m.col[t];
      var sum := SpmvRow(values, colIdx, x, start, end);
      StoredIsDense(m, start, end, x[..]);
      y[row] := sum;
    }
  }
}
