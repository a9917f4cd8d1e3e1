/** The dense byte-matrix builders of `Basic2DFactory`. A matrix is the
    rectangular `byte[rows][columns]` array the factory allocates and fills;
    Java zero-fills a new array, so every allocation below starts at 0. */
module Basic2DFactory {
  import opened JavaTypes
  import opened Exceptions

  /** Java array dimensions are `int`s, so no length exceeds `Integer.MAX_VALUE`. */
  predicate JavaSized(m: array2<int8>) {
    m.Length0 <= INT32_MAX && m.Length1 <= INT32_MAX
  }

  /** `Arrays.fill(array[i], value)`: row `i` becomes `value`, the other rows
      are untouched. */
  method FillRow(m: array2<int8>, i: nat, value: int8)
    requires i < m.Length0
    modifies m
    ensures forall j :: 0 <= j < m.Length1 ==> m[i, j] == value
    ensures forall p, j :: 0 <= p < m.Length0 && p != i && 0 <= j < m.Length1 ==> m[p, j] == old(m[p, j])
  {
    for j := 0 to m.Length1
      invariant forall q :: 0 <= q < j ==> m[i, q] == value
      invariant forall p, q :: 0 <= p < m.Length0 && p != i && 0 <= q < m.Length1 ==> m[p, q] == old(m[p, q])
    {
      m[i, j] := value;
    }
  }

  /** `createConstantMatrix(rows, columns, value)`: a `rows` x `columns`
      matrix whose every entry is `value`. */
  method CreateConstantMatrix(rows: int32, columns: int32, value: int8) returns (r: Result<array2<int8>>)
    ensures r.Failure? <==> rows < 0 || columns < 0
    ensures r.Failure? ==> r.error == NegativeArraySize
    ensures r.Success? ==> fresh(r.value)
    ensures r.Success? ==> r.value.Length0 == rows as int && r.value.Length1 == columns as int
    ensures r.Success? ==> forall i, j :: 0 <= i < rows as int && 0 <= j < columns as int ==> r.value[i, j] == value
  {
    if rows < 0 || columns < 0 {
      return Failure(NegativeArraySize);
    }
    var m := new int8[rows as int, columns as int]((_, _) => 0);
    for i := 0 to rows as int
      invariant forall p, q :: 0 <= p < i && 0 <= q < m.Length1 ==> m[p, q] == value
    {
      FillRow(m, i, value);
    }
    return Success(m);
  }

  /** `createRandomMatrix(rows, columns, random)`: drawn row by row, entry
      `(i, j)` is the low byte of the `(i * columns + j)`-th `nextInt()` of
      this call, and exactly `rows * columns` values are drawn. */
  method CreateRandomMatrix(rows: int32, columns: int32, random: RandomSource) returns (r: Result<array2<int8>>)
    modifies random
    ensures r.Failure? <==> rows < 0 || columns < 0
    ensures r.Failure? ==> r.error == NegativeArraySize && random.drawn == old(random.drawn)
    ensures r.Success? ==> fresh(r.value)
    ensures r.Success? ==> r.value.Length0 == rows as int && r.value.Length1 == columns as int
    ensures r.Success? ==> random.drawn == old(random.drawn) + rows as int * columns as int
    ensures r.Success? ==> forall i, j :: 0 <= i < rows as int && 0 <= j < columns as int ==>
              r.value[i, j] == ByteCast(random.values(old(random.drawn) + RowMajor(columns as int, i, j)))
  {
    if rows < 0 || columns < 0 {
      return Failure(NegativeArraySize);
    }
    var n, c := rows as int, columns as int;
    ghost var start := random.drawn;
    var m := new int8[n, c]((_, _) => 0);
    for i := 0 to n
      invariant random.drawn == start + i * c
      invariant forall p, q :: 0 <= p < i && 0 <= q < c ==> m[p, q] == ByteCast(random.values(start + RowMajor(c, p, q)))
    {
      for j := 0 to c
        invariant random.drawn == start + i * c + j
        invariant forall p, q :: 0 <= p < i && 0 <= q < c ==> m[p, q] == ByteCast(random.values(start + RowMajor(c, p, q)))
        invariant forall q :: 0 <= q < j ==> m[i, q] == ByteCast(random.values(start + RowMajor(c, i, q)))
      {
        var x := random.NextInt();
        m[i, j] := ByteCast(x);
      }
      assert (i + 1) * c == i * c + c;
    }
    return Success(m);
  }

  /** The position of entry `(i, j)` in row-major order. */
  function RowMajor(columns: int, i: int, j: int): int {
    i * columns + j
  }

  /** Row-major order numbers the `rows * columns` entries one-to-one onto
      `[0, rows * columns)`: every draw of `CreateRandomMatrix` lands in
      exactly one entry. */
  lemma RowMajorIsBijective(rows: nat, columns: nat, i: nat, j: nat, i': nat, j': nat)
    requires i < rows && j < columns && i' < rows && j' < columns
    ensures 0 <= RowMajor(columns, i, j) < rows * columns
    ensures RowMajor(columns, i, j) == RowMajor(columns, i', j') ==> i == i' && j == j'
  {
    assert i * columns + columns == (i + 1) * columns;
    assert (i + 1) * columns <= rows * columns by {
      MulMono(i + 1, rows, columns);
    }
    if i < i' {
      MulMono(i + 1, i', columns);
      assert (i + 1) * columns == i * columns + columns;
    } else if i' < i {
      MulMono(i' + 1, i, columns);
      assert (i' + 1) * columns == i' * columns + columns;
    }
  }

  lemma MulMono(x: nat, y: nat, c: nat)
    requires x <= y
    ensures x * c <= y * c
  {
  }

  /** The number of upper-triangle entries `(p, q)`, `p <= q < size`, in the
      rows before row `i`: `createRandomSymmetricMatrix` draws them first. */
  function RowStart(size: nat, i: nat): nat
    requires i <= size
  {
    if i == 0 then 0 else RowStart(size, i - 1) + (size - (i - 1))
  }

  /** The draw, counted from the start of the call, that
      `createRandomSymmetricMatrix` stores at `(i, j)` and `(j, i)`, `i <= j`. */
  function UpperIndex(size: nat, i: nat, j: nat): nat
    requires i <= j <= size
  {
    RowStart(size, i) + (j - i)
  }

  /** The upper triangle of a `size` x `size` matrix has `size * (size + 1) / 2`
      entries: the rows before row `i` hold `i * (2 * size - i + 1) / 2`. */
  lemma {:induction false} RowStartClosedForm(size: nat, i: nat)
    requires i <= size
    ensures 2 * RowStart(size, i) == i * (2 * size - i + 1)
  {
    if i > 0 {
      RowStartClosedForm(size, i - 1);
      assert i * (2 * size - i + 1) == (i - 1) * (2 * size - (i - 1) + 1) + 2 * (size - (i - 1));
    }
  }

  /** `RowStart` grows by the length of each row, so it is monotonic. */
  lemma {:induction false} RowStartMono(size: nat, i: nat, i': nat)
    requires i <= i' <= size
    ensures RowStart(size, i) + (i' - i) <= RowStart(size, i')
  {
    if i < i' {
      RowStartMono(size, i, i' - 1);
    }
  }

  /** The draws of `createRandomSymmetricMatrix` go one-to-one to the upper
      triangle: each index lies in `[0, size * (size + 1) / 2)` and no two
      entries `(i, j)`, `i <= j`, share one. */
  lemma UpperIndexIsBijective(size: nat, i: nat, j: nat, i': nat, j': nat)
    requires i <= j < size && i' <= j' < size
    ensures 0 <= UpperIndex(size, i, j) < size * (size + 1) / 2
    ensures UpperIndex(size, i, j) == UpperIndex(size, i', j') ==> i == i' && j == j'
  {
    RowStartMono(size, 0, i);
    RowStartMono(size, i + 1, size);
    RowStartClosedForm(size, size);
    assert RowStart(size, i + 1) == RowStart(size, i) + (size - i);
    if i < i' {
      RowStartMono(size, i + 1, i');
    } else if i' < i {
      RowStartMono(size, i' + 1, i);
      assert RowStart(size, i' + 1) == RowStart(size, i') + (size - i');
    }
  }

  /** `createRandomSymmetricMatrix(size, random)`: a symmetric `size` x `size`
      matrix; the upper triangle is drawn row by row, each value written to
      `(i, j)` and `(j, i)`, and exactly `size * (size + 1) / 2` values are
      drawn. */
  method CreateRandomSymmetricMatrix(size: int32, random: RandomSource) returns (r: Result<array2<int8>>)
    modifies random
    ensures r.Failure? <==> size < 0
    ensures r.Failure? ==> r.error == NegativeArraySize && random.drawn == old(random.drawn)
    ensures r.Success? ==> fresh(r.value)
    ensures r.Success? ==> r.value.Length0 == size as int && r.value.Length1 == size as int
    ensures r.Success? ==> random.drawn == old(random.drawn) + size as int * (size as int + 1) / 2
    ensures r.Success? ==> forall i, j :: 0 <= i < size as int && 0 <= j < size as int ==> r.value[i, j] == r.value[j, i]
    ensures r.Success? ==> forall i, j :: 0 <= i <= j < size as int ==>
              r.value[i, j] == ByteCast(random.values(old(random.drawn) + UpperIndex(size as int, i, j)))
  {
    if size < 0 {
      return Failure(NegativeArraySize);
    }
    var n := size as int;
    ghost var start := random.drawn;
    var m := new int8[n, n]((_, _) => 0);
    for i := 0 to n
      invariant random.drawn == start + RowStart(n, i)
      invariant forall p, q :: 0 <= p < i && p <= q < n ==>
                  m[p, q] == ByteCast(random.values(start + UpperIndex(n, p, q))) && m[q, p] == m[p, q]
    {
      for j := i to n
        invariant random.drawn == start + RowStart(n, i) + (j - i)
        invariant forall p, q :: 0 <= p < i && p <= q < n ==>
                    m[p, q] == ByteCast(random.values(start + UpperIndex(n, p, q))) && m[q, p] == m[p, q]
        invariant forall q :: i <= q < j ==>
                    m[i, q] == ByteCast(random.values(start + UpperIndex(n, i, q))) && m[q, i] == m[i, q]
      {
        var x := random.NextInt();
        var value := ByteCast(x);
        m[i, j] := value;
        m[j, i] := value;
      }
    }
    RowStartClosedForm(n, n);
    return Success(m);
  }

  /** `createIdentityMatrix(size)`: 1 on the diagonal and 0 elsewhere. */
  method CreateIdentityMatrix(size: int32) returns (r: Result<array2<int8>>)
    ensures r.Failure? <==> size < 0
    ensures r.Failure? ==> r.error == NegativeArraySize
    ensures r.Success? ==> fresh(r.value)
    ensures r.Success? ==> r.value.Length0 == size as int && r.value.Length1 == size as int
    ensures r.Success? ==> forall i, j :: 0 <= i < size as int && 0 <= j < size as int ==>
              r.value[i, j] == if i == j then 1 else 0
  {
    if size < 0 {
      return Failure(NegativeArraySize);
    }
    var n := size as int;
    var m := new int8[n, n]((_, _) => 0);
    for i := 0 to n
      invariant forall p, q :: 0 <= p < n && 0 <= q < n ==> m[p, q] == if p == q && p < i then 1 else 0
    {
      m[i, i] := 1;
    }
    return Success(m);
  }

  /** `createDiagonalMatrix(diagonal)`: an `n` x `n` matrix, `n` the length of
      `diagonal`, holding `diagonal[i]` at `(i, i)` and 0 elsewhere. */
  method CreateDiagonalMatrix(diagonal: array<int8>) returns (m: array2<int8>)
    ensures fresh(m)
    ensures m.Length0 == diagonal.Length && m.Length1 == diagonal.Length
    ensures forall i, j :: 0 <= i < diagonal.Length && 0 <= j < diagonal.Length ==>
              m[i, j] == if i == j then diagonal[i] else 0
  {
    var n := diagonal.Length;
    m := new int8[n, n]((_, _) => 0);
    for i := 0 to n
      invariant forall p, q :: 0 <= p < n && 0 <= q < n ==> m[p, q] == if p == q && p < i then diagonal[p] else 0
    {
      m[i, i] := diagonal[i];
    }
  }

  /** `createBlockMatrix(a, b, c, d)` lays out `a | b` above `c | d`, so `a`
      and `b` must have equal heights, `c` and `d` too, `a` and `c` equal
      widths, and `b` and `d` too. */
  predicate SidesCompatible(a: array2<int8>, b: array2<int8>, c: array2<int8>, d: array2<int8>) {
    a.Length0 == b.Length0 && a.Length1 == c.Length1 && c.Length0 == d.Length0 && b.Length1 == d.Length1
  }

  /** Whether the `int` sums `a.rows() + c.rows()` and `a.columns() + b.columns()`
      stay within `Integer.MAX_VALUE`. */
  predicate SumsFit(a: array2<int8>, b: array2<int8>, c: array2<int8>) {
    a.Length0 + c.Length0 <= INT32_MAX && a.Length1 + b.Length1 <= INT32_MAX
  }

  /** Which block an entry of the block matrix is copied from. */
  datatype Quadrant = TopLeft | TopRight | BottomLeft | BottomRight | Seam

  /** The block that `createBlockMatrix`, as written, copies into entry
      `(i, j)` when `a` is `aRows` x `aColumns`. Its tests against `aRows` and
      `aColumns` are strict on both sides, so row `aRows` and column `aColumns`
      belong to no block. */
  function QuadrantAsWritten(aRows: int, aColumns: int, i: int, j: int): Quadrant {
    if i < aRows && j < aColumns then TopLeft
    else if i < aRows && j > aColumns then TopRight
    else if i > aRows && j < aColumns then BottomLeft
    else if i > aRows && j > aColumns then BottomRight
    else Seam
  }

  /** Whether the `get` that `createBlockMatrix`, as written, makes for entry
      `(i, j)` is inside the block it reads: `b`, `c` and `d` are read at the
      unshifted `(i, j)`. */
  predicate ReadInBounds(a: array2<int8>, b: array2<int8>, c: array2<int8>, d: array2<int8>, i: nat, j: nat) {
    match QuadrantAsWritten(a.Length0, a.Length1, i, j)
    case TopLeft => true
    case TopRight => i < b.Length0 && j < b.Length1
    case BottomLeft => i < c.Length0 && j < c.Length1
    case BottomRight => i < d.Length0 && j < d.Length1
    case Seam => true
  }

  /** Whether no `get` of `createBlockMatrix`, as written, leaves its block. */
  predicate AllReadsInBounds(a: array2<int8>, b: array2<int8>, c: array2<int8>, d: array2<int8>) {
    forall i, j :: 0 <= i < a.Length0 + c.Length0 && 0 <= j < a.Length1 + b.Length1 ==> ReadInBounds(a, b, c, d, i, j)
  }

  /** The shapes for which every read of `createBlockMatrix`, as written, is
      inside its block: `b` is read beyond its width unless `a` is empty or
      `b` has at most one column; `c` below its height unless `a` is empty or
      `c` has at most one row; `d` out of range unless `a` is 0 x 0 or `d` has
      at most one row or column. */
  predicate DegenerateShapes(aRows: nat, aColumns: nat, bColumns: nat, cRows: nat) {
    && (aRows == 0 || aColumns == 0 || bColumns <= 1)
    && (aRows == 0 || aColumns == 0 || cRows <= 1)
    && ((aRows == 0 && aColumns == 0) || cRows <= 1 || bColumns <= 1)
  }

  /** The entry that `createBlockMatrix`, as written, stores at `(i, j)`: the
      unshifted entry of the block its strict tests select, or the 0 the
      allocation left on the seam. */
  function CellAsWritten(a: array2<int8>, b: array2<int8>, c: array2<int8>, d: array2<int8>, i: nat, j: nat): int8
    reads a, b, c, d
    requires ReadInBounds(a, b, c, d, i, j)
  {
    match QuadrantAsWritten(a.Length0, a.Length1, i, j)
    case TopLeft => a[i, j]
    case TopRight => b[i, j]
    case BottomLeft => c[i, j]
    case BottomRight => d[i, j]
    case Seam => 0
  }

  /** The entry at `(i, j)` of the block matrix `a | b` above `c | d`. */
  function CellIntended(a: array2<int8>, b: array2<int8>, c: array2<int8>, d: array2<int8>, i: nat, j: nat): int8
    reads a, b, c, d
    requires SidesCompatible(a, b, c, d)
    requires i < a.Length0 + c.Length0 && j < a.Length1 + b.Length1
  {
    if i < a.Length0 then
      (if j < a.Length1 then a[i, j] else b[i, j - a.Length1])
    else
      (if j < a.Length1 then c[i - a.Length0, j] else d[i - a.Length0, j - a.Length1])
  }

  /** For compatible blocks, the reads of `createBlockMatrix`, as written,
      all stay in range exactly for the degenerate shapes. */
  lemma AllReadsInBoundsIffDegenerate(a: array2<int8>, b: array2<int8>, c: array2<int8>, d: array2<int8>)
    requires SidesCompatible(a, b, c, d)
    ensures AllReadsInBounds(a, b, c, d) <==> DegenerateShapes(a.Length0, a.Length1, b.Length1, c.Length0)
  {
    var ar, ac, bc, cr := a.Length0, a.Length1, b.Length1, c.Length0;
    if !(ar == 0 || ac == 0 || bc <= 1) {
      assert !ReadInBounds(a, b, c, d, 0, ac + bc - 1);
    } else if !(ar == 0 || ac == 0 || cr <= 1) {
      assert !ReadInBounds(a, b, c, d, ar + cr - 1, 0);
    } else if !((ar == 0 && ac == 0) || cr <= 1 || bc <= 1) {
      assert !ReadInBounds(a, b, c, d, ar + cr - 1, ac + bc - 1);
    }
  }

  /** `createBlockMatrix(a, b, c, d)` as written: incompatible sides throw
      `IllegalArgumentException`; sums past `Integer.MAX_VALUE` wrap negative
      and the allocation throws; a `get` outside its block throws; otherwise
      entry `(i, j)` is `CellAsWritten`, which keeps `a` in the top-left
      corner, leaves row `a.rows()` and column `a.columns()` at 0 and reads
      `b`, `c` and `d` at the unshifted `(i, j)`. */
  method CreateBlockMatrix(a: array2<int8>, b: array2<int8>, c: array2<int8>, d: array2<int8>)
    returns (r: Result<array2<int8>>)
    requires JavaSized(a) && JavaSized(b) && JavaSized(c) && JavaSized(d)
    ensures (r.Failure? && r.error == IllegalArgument) <==> !SidesCompatible(a, b, c, d)
    ensures (r.Failure? && r.error == NegativeArraySize) <==> SidesCompatible(a, b, c, d) && !SumsFit(a, b, c)
    ensures (r.Failure? && r.error == IndexOutOfBounds) <==>
              SidesCompatible(a, b, c, d) && SumsFit(a, b, c) && !AllReadsInBounds(a, b, c, d)
    ensures r.Success? ==> fresh(r.value)
    ensures r.Success? ==> r.value.Length0 == a.Length0 + c.Length0 && r.value.Length1 == a.Length1 + b.Length1
    ensures r.Success? ==> forall i, j :: 0 <= i < a.Length0 && 0 <= j < a.Length1 ==> r.value[i, j] == a[i, j]
    ensures r.Success? ==> forall i, j :: 0 <= i < r.value.Length0 && 0 <= j < r.value.Length1 ==>
              ReadInBounds(a, b, c, d, i, j) && r.value[i, j] == CellAsWritten(a, b, c, d, i, j)
  {
    if a.Length0 != b.Length0 || a.Length1 != c.Length1 || c.Length0 != d.Length0 || b.Length1 != d.Length1 {
      return Failure(IllegalArgument);
    }
    var rows := WrapAdd(a.Length0 as int32, c.Length0 as int32);
    var cols := WrapAdd(a.Length1 as int32, b.Length1 as int32);
    if rows < 0 || cols < 0 {
      return Failure(NegativeArraySize);
    }
    var ar, ac, n, k := a.Length0, a.Length1, rows as int, cols as int;
    var m := new int8[n, k]((_, _) => 0);
    for i := 0 to n
      invariant forall p, q :: 0 <= p < i && 0 <= q < k ==>
                  ReadInBounds(a, b, c, d, p, q) && m[p, q] == CellAsWritten(a, b, c, d, p, q)
      invariant forall p, q :: i <= p < n && 0 <= q < k ==> m[p, q] == 0
    {
      for j := 0 to k
        invariant forall p, q :: 0 <= p < i && 0 <= q < k ==>
                    ReadInBounds(a, b, c, d, p, q) && m[p, q] == CellAsWritten(a, b, c, d, p, q)
        invariant forall q :: 0 <= q < j ==> ReadInBounds(a, b, c, d, i, q) && m[i, q] == CellAsWritten(a, b, c, d, i, q)
        invariant forall q :: j <= q < k ==> m[i, q] == 0
        invariant forall p, q :: i < p < n && 0 <= q < k ==> m[p, q] == 0
      {
        if i < ar && j < ac {
          m[i, j] := a[i, j];
        }
        if i < ar && j > ac {
          if !(i < b.Length0 && j < b.Length1) {
            assert !ReadInBounds(a, b, c, d, i, j);
            return Failure(IndexOutOfBounds);
          }
          m[i, j] := b[i, j];
        }
        if i > ar && j < ac {
          if !(i < c.Length0 && j < c.Length1) {
            assert !ReadInBounds(a, b, c, d, i, j);
            return Failure(IndexOutOfBounds);
          }
          m[i, j] := c[i, j];
        }
        if i > ar && j > ac {
          if !(i < d.Length0 && j < d.Length1) {
            assert !ReadInBounds(a, b, c, d, i, j);
            return Failure(IndexOutOfBounds);
          }
          m[i, j] := d[i, j];
        }
      }
    }
    assert AllReadsInBounds(a, b, c, d);
    return Success(m);
  }

  /** `createBlockMatrix` with the tests made `>=` and `b`, `c`, `d` read at
      indices shifted by `a`'s shape: the result is `a | b` above `c | d`,
      every block recovered entry for entry. */
  method CreateBlockMatrixIntended(a: array2<int8>, b: array2<int8>, c: array2<int8>, d: array2<int8>)
    returns (r: Result<array2<int8>>)
    requires JavaSized(a) && JavaSized(b) && JavaSized(c) && JavaSized(d)
    ensures (r.Failure? && r.error == IllegalArgument) <==> !SidesCompatible(a, b, c, d)
    ensures (r.Failure? && r.error == NegativeArraySize) <==> SidesCompatible(a, b, c, d) && !SumsFit(a, b, c)
    ensures r.Failure? ==> r.error != IndexOutOfBounds
    ensures r.Success? ==> fresh(r.value)
    ensures r.Success? ==> r.value.Length0 == a.Length0 + c.Length0 && r.value.Length1 == a.Length1 + b.Length1
    ensures r.Success? ==> forall i, j :: 0 <= i < a.Length0 && 0 <= j < a.Length1 ==> r.value[i, j] == a[i, j]
    ensures r.Success? ==> forall i, j :: 0 <= i < b.Length0 && 0 <= j < b.Length1 ==> r.value[i, a.Length1 + j] == b[i, j]
    ensures r.Success? ==> forall i, j :: 0 <= i < c.Length0 && 0 <= j < c.Length1 ==> r.value[a.Length0 + i, j] == c[i, j]
    ensures r.Success? ==> forall i, j :: 0 <= i < d.Length0 && 0 <= j < d.Length1 ==>
              r.value[a.Length0 + i, a.Length1 + j] == d[i, j]
  {
    if a.Length0 != b.Length0 || a.Length1 != c.Length1 || c.Length0 != d.Length0 || b.Length1 != d.Length1 {
      return Failure(IllegalArgument);
    }
    var rows := WrapAdd(a.Length0 as int32, c.Length0 as int32);
    var cols := WrapAdd(a.Length1 as int32, b.Length1 as int32);
    if rows < 0 || cols < 0 {
      return Failure(NegativeArraySize);
    }
    var ar, ac, n, k := a.Length0, a.Length1, rows as int, cols as int;
    var m := new int8[n, k]((_, _) => 0);
    for i := 0 to n
      invariant forall p, q :: 0 <= p < i && 0 <= q < k ==> m[p, q] == CellIntended(a, b, c, d, p, q)
    {
      for j := 0 to k
        invariant forall p, q :: 0 <= p < i && 0 <= q < k ==> m[p, q] == CellIntended(a, b, c, d, p, q)
        invariant forall q :: 0 <= q < j ==> m[i, q] == CellIntended(a, b, c, d, i, q)
      {
        if i < ar && j < ac {
          m[i, j] := a[i, j];
        }
        if i < ar && j >= ac {
          m[i, j] := b[i, j - ac];
        }
        if i >= ar && j < ac {
          m[i, j] := c[i - ar, j];
        }
        if i >= ar && j >= ac {
          m[i, j] := d[i - ar, j - ac];
        }
      }
    }
    return Success(m);
  }

  /** As written, the seam row `a.rows()` and seam column `a.columns()` are
      never assigned: where they exist, their entries stay 0, although in the
      intended layout they hold the first column of `b`, the first row of `c`
      or an entry of `d`. */
  lemma SeamStaysZero(a: array2<int8>, b: array2<int8>, c: array2<int8>, d: array2<int8>, i: nat, j: nat)
    requires SidesCompatible(a, b, c, d)
    requires i < a.Length0 + c.Length0 && j < a.Length1 + b.Length1
    requires i == a.Length0 || j == a.Length1
    ensures ReadInBounds(a, b, c, d, i, j) && CellAsWritten(a, b, c, d, i, j) == 0
    ensures i < a.Length0 ==> j == a.Length1 && CellIntended(a, b, c, d, i, j) == b[i, 0]
    ensures a.Length0 <= i && j < a.Length1 ==> i == a.Length0 && CellIntended(a, b, c, d, i, j) == c[0, j]
    ensures a.Length0 <= i && a.Length1 <= j ==> CellIntended(a, b, c, d, i, j) == d[i - a.Length0, j - a.Length1]
  {
  }

  /** Four 1 x 1 blocks: every read is in range, yet the as-written result
      has 0 at `(0, 1)` where `b`'s entry belongs. */
  lemma UnitBlocksCounterexample(a: array2<int8>, b: array2<int8>, c: array2<int8>, d: array2<int8>)
    requires a.Length0 == a.Length1 == b.Length0 == b.Length1 == 1
    requires c.Length0 == c.Length1 == d.Length0 == d.Length1 == 1
    requires b[0, 0] != 0
    ensures AllReadsInBounds(a, b, c, d)
    ensures CellAsWritten(a, b, c, d, 0, 1) == 0 != CellIntended(a, b, c, d, 0, 1)
  {
  }

  /** A 1 x 1 `a` beside a 1 x 2 `b` (with matching `c` and `d`): the sides are
      compatible, but the as-written loop reads `b` at column 2 and throws. */
  lemma WideBlockCounterexample(a: array2<int8>, b: array2<int8>, c: array2<int8>, d: array2<int8>)
    requires a.Length0 == a.Length1 == b.Length0 == 1 && b.Length1 == 2
    requires c.Length0 == c.Length1 == d.Length0 == 1 && d.Length1 == 2
    ensures SidesCompatible(a, b, c, d) && SumsFit(a, b, c)
    ensures !AllReadsInBounds(a, b, c, d)
  {
    assert !ReadInBounds(a, b, c, d, 0, 2);
  }
}
