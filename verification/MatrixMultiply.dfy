/**
 The tiled, vectorised matrix product. Scalars and the fused multiply-add are uninterpreted:
 the result is the one nested loops in ascending k give, rounding included.
 */
module MatrixMultiply {
  import opened Numbers

  const TILE_SIZE: nat := 64

  // Row-major index.
  function Ix(r: nat, c: nat, stride: nat): nat {
    r * stride + c
  }

  lemma {:induction false} RowsApart(r: nat, r': nat, stride: nat)
    requires r < r'
    ensures r * stride + stride <= r' * stride
  {
    assert (r' - 1) * stride + stride == r' * stride;
    if r < r' - 1 {
      RowsApart(r, r' - 1, stride);
    }
  }

  lemma {:induction false} IxBelow(r: nat, c: nat, rows: nat, stride: nat)
    requires r < rows && c < stride
    ensures Ix(r, c, stride) < rows * stride
  {
    RowsApart(r, rows, stride);
  }

  // The operands: an n by n matrix with stride n, an n by np matrix with stride np.
  datatype Product<!T> = Product(a: seq<T>, b: seq<T>, n: nat, zero: T, fma: (T, T, T) -> T) {

    function Elem(s: seq<T>, i: nat): T {
      if i < |s| then s[i] else zero
    }

    // Cell (r, c) after the terms 0 .. k - 1, in that order, starting from zero.
    function Fold(r: nat, c: nat, k: nat): T {
      if k == 0 then zero
      else fma(Elem(a, Ix(r, k - 1, n)), Elem(b, Ix(k - 1, c, Padded(n))), Fold(r, c, k - 1))
    }

    // Each cell of out holds its fold over the terms counted for it.
    ghost predicate Holds(out: seq<T>, count: (nat, nat) -> nat) {
      && forall r: nat, c: nat :: r < Padded(n) && c < Padded(n) ==>
           Ix(r, c, Padded(n)) < |out| && out[Ix(r, c, Padded(n))] == Fold(r, c, count(r, c))
    }
  }

  // One more term in the cells of row ii from j to jEnd.
  function Bump(count: (nat, nat) -> nat, ii: nat, j: nat, jEnd: nat): (nat, nat) -> nat {
    (r: nat, c: nat) => if r == ii && j <= c < jEnd then count(r, c) + 1 else count(r, c)
  }

  // Eight lanes loaded, multiplied by a common factor, added, and stored back.
  method FmaStore8<T>(out: array<T>, b: array<T>, factor: T, outAt: nat, bAt: nat, fma: (T, T, T) -> T)
    requires outAt + 8 <= out.Length && bAt + 8 <= b.Length && out != b
    modifies out
    ensures forall i :: 0 <= i < out.Length ==>
      out[i] == if outAt <= i < outAt + 8 then fma(factor, b[bAt + (i - outAt)], old(out[i])) else old(out[i])
  {
    forall lane | 0 <= lane < 8 {
      out[outAt + lane] := fma(factor, b[bAt + lane], out[outAt + lane]);
    }
  }

  // Where the eight lanes of a store at (ii, jj) lie among the cells.
  lemma {:induction false} LaneCell(ii: nat, jj: nat, np: nat, r: nat, c: nat)
    requires jj + 8 <= np && c < np
    ensures Ix(ii, jj, np) <= Ix(r, c, np) < Ix(ii, jj, np) + 8 <==> r == ii && jj <= c < jj + 8
    ensures r == ii ==> Ix(r, c, np) - Ix(ii, jj, np) == c - jj
  {
    if r < ii {
      RowsApart(r, ii, np);
    } else if r > ii {
      RowsApart(ii, r, np);
    }
  }

  lemma {:induction false} IxShift(r: nat, c: nat, d: nat, np: nat)
    ensures Ix(r, c + d, np) == Ix(r, c, np) + d
  {
  }

  // now is was with the eight lanes at (ii, jj) advanced by factor times those of b at (kk, jj).
  ghost predicate Stored<T(!new)>(p: Product<T>, was: seq<T>, now: seq<T>, factor: T, ii: nat, kk: nat, jj: nat) {
    var outAt, bAt := Ix(ii, jj, Padded(p.n)), Ix(kk, jj, Padded(p.n));
    && |now| == |was| && bAt + 8 <= |p.b|
    && forall i :: 0 <= i < |now| ==>
         now[i] == if outAt <= i < outAt + 8 then p.fma(factor, p.b[bAt + (i - outAt)], was[i]) else was[i]
  }

  lemma {:induction false} CellAdvances<T(!new)>(p: Product<T>, was: seq<T>, now: seq<T>, factor: T, ii: nat, kk: nat, jj: nat,
                                                 r: nat, c: nat, k: nat)
    requires factor == p.Elem(p.a, Ix(ii, kk, p.n)) && jj + 8 <= Padded(p.n)
    requires Stored(p, was, now, factor, ii, kk, jj)
    requires r < Padded(p.n) && c < Padded(p.n)
    requires Ix(r, c, Padded(p.n)) < |was| && was[Ix(r, c, Padded(p.n))] == p.Fold(r, c, k)
    requires r == ii && jj <= c < jj + 8 ==> k == kk
    ensures now[Ix(r, c, Padded(p.n))] == p.Fold(r, c, if r == ii && jj <= c < jj + 8 then k + 1 else k)
  {
    hide Ix, Padded;
    var np := Padded(p.n);
    LaneCell(ii, jj, np, r, c);
    if r == ii && jj <= c < jj + 8 {
      IxShift(kk, jj, c - jj, np);
    }
  }

  // The effect of one store on all cells.
  lemma {:induction false} StoreAdvances<T(!new)>(p: Product<T>, was: seq<T>, now: seq<T>, factor: T, ii: nat, kk: nat, j: nat,
                                                  jj: nat, count: (nat, nat) -> nat)
    requires factor == p.Elem(p.a, Ix(ii, kk, p.n)) && j <= jj && jj + 8 <= Padded(p.n)
    requires p.Holds(was, Bump(count, ii, j, jj)) && Stored(p, was, now, factor, ii, kk, jj)
    requires forall c: nat :: jj <= c < jj + 8 ==> count(ii, c) == kk
    ensures p.Holds(now, Bump(count, ii, j, jj + 8))
  {
    hide Ix, Padded, Product.Fold;
    var np := Padded(p.n);
    forall r: nat, c: nat | r < np && c < np
      ensures Ix(r, c, np) < |now| && now[Ix(r, c, np)] == p.Fold(r, c, Bump(count, ii, j, jj + 8)(r, c))
    {
      CellAdvances(p, was, now, factor, ii, kk, jj, r, c, Bump(count, ii, j, jj)(r, c));
    }
  }

  lemma {:induction false} LaneBounds(r: nat, c: nat, rows: nat, np: nat)
    requires r < rows && c + 8 <= np
    ensures Ix(r, c, np) + 8 <= Ix(rows, 0, np)
  {
    RowsApart(r, rows, np);
  }

  // The arrays hold the operands and the padded result.
  ghost predicate Fits<T>(p: Product<T>, a: seq<T>, b: seq<T>, out: seq<T>) {
    && a == p.a && b == p.b
    && |a| >= Ix(p.n, 0, p.n) && |b| >= Ix(p.n, 0, Padded(p.n))
    && |out| >= Ix(Padded(p.n), 0, Padded(p.n))
  }

  // now keeps what lies beyond the padded result in was.
  ghost predicate SameTail<T(!new)>(p: Product<T>, was: seq<T>, now: seq<T>) {
    && |now| == |was|
    && forall i :: Ix(Padded(p.n), 0, Padded(p.n)) <= i < |was| ==> now[i] == was[i]
  }

  // The body of the innermost loop.
  method LaneStep<T(!new)>(ghost p: Product<T>, a: array<T>, b: array<T>, out: array<T>, factor: T, ii: nat, kk: nat,
                           ghost j: nat, jj: nat, np: nat, fma: (T, T, T) -> T, ghost count: (nat, nat) -> nat)
    requires out != b && out != a && np == Padded(p.n) && fma == p.fma && Fits(p, a[..], b[..], out[..])
    requires ii < p.n && kk < p.n && factor == p.Elem(p.a, Ix(ii, kk, p.n)) && j <= jj && jj + 8 <= np
    requires p.Holds(out[..], Bump(count, ii, j, jj)) && forall c: nat :: jj <= c < jj + 8 ==> count(ii, c) == kk
    modifies out
    ensures p.Holds(out[..], Bump(count, ii, j, jj + 8)) && SameTail(p, old(out[..]), out[..])
  {
    hide Product.Holds, Bump, Ix, Product.Elem, Product.Fold, Padded;
    LaneBounds(ii, jj, np, np);
    LaneBounds(kk, jj, p.n, np);
    FmaStore8(out, b, factor, Ix(ii, jj, np), Ix(kk, jj, np), fma);
    assert Stored(p, old(out[..]), out[..], factor, ii, kk, jj);
    StoreAdvances(p, old(out[..]), out[..], factor, ii, kk, j, jj, count);
  }

  lemma {:induction false} NoBump<T(!new)>(p: Product<T>, out: seq<T>, count: (nat, nat) -> nat, ii: nat, j: nat)
    requires p.Holds(out, count)
    ensures p.Holds(out, Bump(count, ii, j, j))
  {
  }

  // The loop over jj: one term for the cells (ii, j .. jEnd - 1), eight at a time.
  method RowUpdate<T(!new)>(ghost p: Product<T>, a: array<T>, b: array<T>, out: array<T>, factor: T, ii: nat, kk: nat, j: nat,
                            jEnd: nat, np: nat, fma: (T, T, T) -> T, ghost count: (nat, nat) -> nat)
    requires out != b && out != a && np == Padded(p.n) && fma == p.fma && Fits(p, a[..], b[..], out[..])
    requires ii < p.n && kk < p.n && factor == p.Elem(p.a, Ix(ii, kk, p.n))
    requires j <= jEnd <= np && j % 8 == 0 && jEnd % 8 == 0
    requires p.Holds(out[..], count) && forall c: nat :: j <= c < jEnd ==> count(ii, c) == kk
    modifies out
    ensures p.Holds(out[..], Bump(count, ii, j, jEnd)) && SameTail(p, old(out[..]), out[..])
  {
    hide Product.Holds, Bump, Ix, Product.Elem, Product.Fold, Padded;
    var jj := j;
    NoBump(p, out[..], count, ii, j);
    while jj < jEnd
      invariant j <= jj <= jEnd && jj % 8 == 0
      invariant p.Holds(out[..], Bump(count, ii, j, jj)) && SameTail(p, old(out[..]), out[..])
    {
      LaneStep(p, a, b, out, factor, ii, kk, j, jj, np, fma, count);
      jj := jj + 8;
    }
  }

  // ---- a tile -------------------------------------------------------------------------------------

  // v terms in the cells of the rectangle.
  function SetCount(count: (nat, nat) -> nat, i: nat, iEnd: nat, j: nat, jEnd: nat, v: nat): (nat, nat) -> nat {
    (r: nat, c: nat) => if i <= r < iEnd && j <= c < jEnd then v else count(r, c)
  }

  lemma {:induction false} HoldsSame<T(!new)>(p: Product<T>, out: seq<T>, count: (nat, nat) -> nat, count': (nat, nat) -> nat)
    requires p.Holds(out, count)
    requires forall r: nat, c: nat :: r < Padded(p.n) && c < Padded(p.n) ==> count(r, c) == count'(r, c)
    ensures p.Holds(out, count')
  {
    hide Ix, Padded, Product.Fold;
  }

  // The loop over kk for row ii of a tile.
  method TileRow<T(!new)>(ghost p: Product<T>, a: array<T>, b: array<T>, out: array<T>, n: nat, np: nat,
                          ii: nat, k: nat, kEnd: nat, j: nat, jEnd: nat, fma: (T, T, T) -> T, ghost count: (nat, nat) -> nat)
    requires out != b && out != a && n == p.n && np == Padded(n) && fma == p.fma && Fits(p, a[..], b[..], out[..])
    requires ii < n && k <= kEnd <= n && j <= jEnd <= np && j % 8 == 0 && jEnd % 8 == 0
    requires p.Holds(out[..], SetCount(count, ii, ii + 1, j, jEnd, k))
    modifies out
    ensures p.Holds(out[..], SetCount(count, ii, ii + 1, j, jEnd, kEnd)) && SameTail(p, old(out[..]), out[..])
  {
    hide Product.Holds, Product.Fold, Padded, Ix;
    for kk := k to kEnd
      invariant p.Holds(out[..], SetCount(count, ii, ii + 1, j, jEnd, kk)) && SameTail(p, old(out[..]), out[..])
    {
      CellInBounds(ii, kk, n);
      var factor := a[Ix(ii, kk, n)];
      RowUpdate(p, a, b, out, factor, ii, kk, j, jEnd, np, fma, SetCount(count, ii, ii + 1, j, jEnd, kk));
      HoldsSame(p, out[..], Bump(SetCount(count, ii, ii + 1, j, jEnd, kk), ii, j, jEnd), SetCount(count, ii, ii + 1, j, jEnd, kk + 1));
    }
  }

  lemma {:induction false} CellInBounds(r: nat, c: nat, n: nat)
    requires r < n && c < n
    ensures Ix(r, c, n) < Ix(n, 0, n)
  {
    IxBelow(r, c, n, n);
  }

  // The loops over ii and kk: the terms k .. kEnd - 1 for every cell of a tile.
  method Tile<T(!new)>(ghost p: Product<T>, a: array<T>, b: array<T>, out: array<T>, n: nat, np: nat,
                       i: nat, iEnd: nat, k: nat, kEnd: nat, j: nat, jEnd: nat, fma: (T, T, T) -> T,
                       ghost count: (nat, nat) -> nat)
    requires out != b && out != a && n == p.n && np == Padded(n) && fma == p.fma && Fits(p, a[..], b[..], out[..])
    requires i <= iEnd <= n && k <= kEnd <= n && j <= jEnd <= np && j % 8 == 0 && jEnd % 8 == 0
    requires p.Holds(out[..], count) && forall r: nat, c: nat :: i <= r < iEnd && j <= c < jEnd ==> count(r, c) == k
    modifies out
    ensures p.Holds(out[..], SetCount(count, i, iEnd, j, jEnd, kEnd)) && SameTail(p, old(out[..]), out[..])
  {
    hide Product.Holds, Product.Fold, Padded, Ix;
    HoldsSame(p, out[..], count, SetCount(count, i, i, j, jEnd, kEnd));
    for ii := i to iEnd
      invariant p.Holds(out[..], SetCount(count, i, ii, j, jEnd, kEnd)) && SameTail(p, old(out[..]), out[..])
    {
      ghost var done := SetCount(count, i, ii, j, jEnd, kEnd);
      HoldsSame(p, out[..], done, SetCount(done, ii, ii + 1, j, jEnd, k));
      TileRow(p, a, b, out, n, np, ii, k, kEnd, j, jEnd, fma, done);
      HoldsSame(p, out[..], SetCount(done, ii, ii + 1, j, jEnd, kEnd), SetCount(count, i, ii + 1, j, jEnd, kEnd));
    }
  }

  // ---- all tiles ------------------------------------------------------------------------------------

  // Rows below i are finished; rows below iEnd have k terms, kEnd in the columns below j.
  function Progress(n: nat, i: nat, iEnd: nat, k: nat, kEnd: nat, j: nat): (nat, nat) -> nat {
    (r: nat, c: nat) => if r < i then n else if r < iEnd then (if c < j then kEnd else k) else 0
  }

  // The loop over j.
  method TilesAcross<T(!new)>(ghost p: Product<T>, a: array<T>, b: array<T>, out: array<T>, n: nat, np: nat,
                              i: nat, k: nat, fma: (T, T, T) -> T)
    requires out != b && out != a && n == p.n && np == Padded(n) && fma == p.fma && Fits(p, a[..], b[..], out[..])
    requires i < n && k < n
    requires p.Holds(out[..], Progress(n, i, Min(i + TILE_SIZE, n), k, k, 0))
    modifies out
    ensures p.Holds(out[..], Progress(n, i, Min(i + TILE_SIZE, n), Min(k + TILE_SIZE, n), 0, 0))
    ensures SameTail(p, old(out[..]), out[..])
  {
    hide Product.Holds, Product.Fold, Ix;
    var j := 0;
    HoldsSame(p, out[..], Progress(n, i, Min(i + TILE_SIZE, n), k, k, 0), Progress(n, i, Min(i + TILE_SIZE, n), k, Min(k + TILE_SIZE, n), 0));
    while j < np
      invariant j % 8 == 0
      invariant p.Holds(out[..], Progress(n, i, Min(i + TILE_SIZE, n), k, Min(k + TILE_SIZE, n), j))
      invariant SameTail(p, old(out[..]), out[..])
    {
      var iEnd := if i + TILE_SIZE < n then i + TILE_SIZE else n;
      var kEnd := if k + TILE_SIZE < n then k + TILE_SIZE else n;
      var jEnd := if j + TILE_SIZE < np then j + TILE_SIZE else np;
      ghost var count := Progress(n, i, iEnd, k, kEnd, j);
      Tile(p, a, b, out, n, np, i, iEnd, k, kEnd, j, jEnd, fma, count);
      HoldsSame(p, out[..], SetCount(count, i, iEnd, j, jEnd, kEnd), Progress(n, i, iEnd, k, kEnd, j + TILE_SIZE));
      j := j + TILE_SIZE;
    }
    HoldsSame(p, out[..], Progress(n, i, Min(i + TILE_SIZE, n), k, Min(k + TILE_SIZE, n), j),
              Progress(n, i, Min(i + TILE_SIZE, n), Min(k + TILE_SIZE, n), 0, 0));
  }

  // The loop over k.
  method TilesDown<T(!new)>(ghost p: Product<T>, a: array<T>, b: array<T>, out: array<T>, n: nat, np: nat,
                            i: nat, fma: (T, T, T) -> T)
    requires out != b && out != a && n == p.n && np == Padded(n) && fma == p.fma && Fits(p, a[..], b[..], out[..])
    requires i < n && p.Holds(out[..], Progress(n, i, i, 0, 0, 0))
    modifies out
    ensures p.Holds(out[..], Progress(n, Min(i + TILE_SIZE, n), Min(i + TILE_SIZE, n), 0, 0, 0))
    ensures SameTail(p, old(out[..]), out[..])
  {
    hide Product.Holds, Product.Fold, Ix;
    var k := 0;
    ghost var iEnd := Min(i + TILE_SIZE, n);
    HoldsSame(p, out[..], Progress(n, i, i, 0, 0, 0), Progress(n, i, iEnd, 0, 0, 0));
    while k < n
      invariant p.Holds(out[..], Progress(n, i, iEnd, Min(k, n), 0, 0))
      invariant SameTail(p, old(out[..]), out[..])
    {
      HoldsSame(p, out[..], Progress(n, i, iEnd, k, 0, 0), Progress(n, i, iEnd, k, k, 0));
      TilesAcross(p, a, b, out, n, np, i, k, fma);
      k := k + TILE_SIZE;
    }
    HoldsSame(p, out[..], Progress(n, i, iEnd, n, 0, 0), Progress(n, iEnd, iEnd, 0, 0, 0));
  }

  // ---- the whole product ----------------------------------------------------------------------------

  lemma {:induction false} ZeroedHolds<T(!new)>(p: Product<T>, out: seq<T>)
    requires |out| >= Ix(Padded(p.n), 0, Padded(p.n))
    requires forall i :: 0 <= i < Ix(Padded(p.n), 0, Padded(p.n)) ==> out[i] == p.zero
    ensures p.Holds(out, Progress(p.n, 0, 0, 0, 0, 0))
  {
    hide Padded;
    var np := Padded(p.n);
    forall r: nat, c: nat | r < np && c < np
      ensures Ix(r, c, np) < |out| && out[Ix(r, c, np)] == p.Fold(r, c, 0)
    {
      CellInBounds(r, c, np);
    }
  }

  // matrix_multiply: cell (i, j) of the padded result is the fold of fma over k = 0 .. n - 1 in
  // ascending order, starting from zero; the rows past n stay zero, and nothing past the padded
  // result is written. The lengths are all the accesses need.
  method MatrixMultiply<T(!new)>(a: array<T>, b: array<T>, out: array<T>, n: nat, zero: T, fma: (T, T, T) -> T)
    requires a != out && b != out
    requires a.Length >= n * n && b.Length >= n * Padded(n) && out.Length >= Padded(n) * Padded(n)
    modifies out
    ensures forall r: nat, c: nat :: Ix(r, c, Padded(n)) == r * ((n + 7) / 8 * 8) + c
    ensures var p := Product(a[..], b[..], n, zero, fma);
      && (forall r: nat, c: nat :: r < n && c < Padded(n) ==>
            Ix(r, c, Padded(n)) < out.Length && out[Ix(r, c, Padded(n))] == p.Fold(r, c, n))
      && (forall r: nat, c: nat :: n <= r < Padded(n) && c < Padded(n) ==>
            Ix(r, c, Padded(n)) < out.Length && out[Ix(r, c, Padded(n))] == zero)
      && SameTail(p, old(out[..]), out[..])
  {
    var np := Padded(n);
    ghost var p := Product(a[..], b[..], n, zero, fma);
    for i := 0 to np * np
      invariant forall x :: 0 <= x < i ==> out[x] == zero
      invariant forall x :: np * np <= x < out.Length ==> out[x] == old(out[x])
    {
      out[i] := zero;
    }
    ZeroedHolds(p, out[..]);
    Tiles(p, a, b, out, n, np, fma);
    Finished(p, out[..]);
  }

  // The loop over i.
  method Tiles<T(!new)>(ghost p: Product<T>, a: array<T>, b: array<T>, out: array<T>, n: nat, np: nat, fma: (T, T, T) -> T)
    requires out != b && out != a && n == p.n && np == Padded(n) && fma == p.fma && Fits(p, a[..], b[..], out[..])
    requires p.Holds(out[..], Progress(n, 0, 0, 0, 0, 0))
    modifies out
    ensures p.Holds(out[..], Progress(n, n, n, 0, 0, 0)) && SameTail(p, old(out[..]), out[..])
  {
    hide Product.Holds, Product.Fold, Ix;
    var i := 0;
    while i < n
      invariant p.Holds(out[..], Progress(n, Min(i, n), Min(i, n), 0, 0, 0))
      invariant SameTail(p, old(out[..]), out[..])
    {
      TilesDown(p, a, b, out, n, np, i, fma);
      i := i + TILE_SIZE;
    }
  }

  lemma {:induction false} Finished<T(!new)>(p: Product<T>, out: seq<T>)
    requires p.Holds(out, Progress(p.n, p.n, p.n, 0, 0, 0))
    ensures forall r: nat, c: nat :: r < p.n && c < Padded(p.n) ==>
      Ix(r, c, Padded(p.n)) < |out| && out[Ix(r, c, Padded(p.n))] == p.Fold(r, c, p.n)
    ensures forall r: nat, c: nat :: p.n <= r < Padded(p.n) && c < Padded(p.n) ==>
      Ix(r, c, Padded(p.n)) < |out| && out[Ix(r, c, Padded(p.n))] == p.zero
  {
    hide Ix;
  }

  // ---- the fold over exact arithmetic ------------------------------------------------------------------

  // a[r][k] * b[k][c], with the rows of b padded to whole vectors of eight.
  function Term(p: Product<real>, r: nat, c: nat, k: nat): real {
    p.Elem(p.a, r * p.n + k) * p.Elem(p.b, k * ((p.n + 7) / 8 * 8) + c)
  }

  // The sum of the first k terms of the inner product of row r and column c.
  function InnerProduct(p: Product<real>, r: nat, c: nat, k: nat): real {
    if k == 0 then 0.0 else InnerProduct(p, r, c, k - 1) + Term(p, r, c, k - 1)
  }

  // With exact multiply-add the fold is the matrix product.
  lemma {:induction false} FoldIsInnerProduct(p: Product<real>, r: nat, c: nat, k: nat)
    requires p.zero == 0.0 && forall x, y, z :: p.fma(x, y, z) == x * y + z
    ensures p.Fold(r, c, k) == InnerProduct(p, r, c, k)
  {
    if k > 0 {
      FoldIsInnerProduct(p, r, c, k - 1);
    }
  }

  // Where b's padding columns are zero, so are the result's.
  lemma {:induction false} PaddingStaysZero(p: Product<real>, r: nat, c: nat, k: nat)
    requires p.zero == 0.0 && forall x, y, z :: p.fma(x, y, z) == x * y + z
    requires forall kk: nat :: kk < k ==> p.Elem(p.b, Ix(kk, c, Padded(p.n))) == 0.0
    ensures p.Fold(r, c, k) == 0.0
  {
    if k > 0 {
      PaddingStaysZero(p, r, c, k - 1);
    }
  }
}
