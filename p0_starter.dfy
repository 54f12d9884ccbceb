/** A row-major integer matrix and its operations (addition,
    multiplication, and the simplified GEMM A * B + C).

    The element type is fixed to `int`. Element (i, j) lives at index
    i * cols + j of the flat array `linear`; `rowStart` plays the role of the
    array of row pointers, row i starting at `linear + rowStart[i]`. */
module Primer {

  /** a * b by repeated addition. Offsets are stated through it so that
      the solver never sees a product of two variables;
      ProductIsMultiplication says it is the product. */
  function Product(a: nat, b: nat): nat
  {
    if a == 0 then 0 else Product(a - 1, b) + b
  }

  lemma {:induction false} ProductIsMultiplication(a: nat, b: nat)
    ensures Product(a, b) == a * b
  {
    if a > 0 {
      ProductIsMultiplication(a - 1, b);
    }
  }

  lemma {:induction false} ProductMonotone(a: nat, b: nat, c: nat)
    requires a <= b
    ensures Product(a, c) <= Product(b, c)
    decreases b - a
  {
    if a < b {
      ProductMonotone(a, b - 1, c);
    }
  }

  /** The row-major index of cell (i, j): i * cols + j. */
  function RowMajor(i: nat, j: nat, cols: nat): nat
  {
    Product(i, cols) + j
  }

  /** A cell of a rows-by-cols matrix has its index inside the flat array. */
  lemma RowMajorInRange(i: nat, j: nat, rows: nat, cols: nat)
    requires i < rows && j < cols
    ensures RowMajor(i, j, cols) < Product(rows, cols)
  {
    ProductMonotone(i + 1, rows, cols);
  }

  /** Different cells have different indices. */
  lemma RowMajorDistinct(i: nat, j: nat, p: nat, q: nat, cols: nat)
    requires j < cols && q < cols && (i != p || j != q)
    ensures RowMajor(i, j, cols) != RowMajor(p, q, cols)
  {
    if i < p {
      ProductMonotone(i + 1, p, cols);
    } else if p < i {
      ProductMonotone(p + 1, i, cols);
    }
  }

  class RowMatrix {
    const rows: nat
    const cols: nat
    /** The flattened matrix, row-major. */
    const linear: array<int>
    /** The row pointers: row i starts at linear + rowStart[i]. */
    const rowStart: array<nat>

    ghost predicate Valid()
      reads rowStart
    {
      && linear.Length == Product(rows, cols)
      && rowStart.Length == rows
      && forall i :: 0 <= i < rows ==> rowStart[i] == Product(i, cols)
    }

    /** Element (i, j): the cell at its row-major index. */
    function Elem(i: nat, j: nat): int
      reads rowStart, linear
      requires Valid() && i < rows && j < cols
    {
      RowMajorInRange(i, j, rows, cols);
      linear[RowMajor(i, j, cols)]
    }

    constructor (r: nat, c: nat)
      ensures Valid() && rows == r && cols == c
      ensures fresh(linear) && fresh(rowStart)
    {
      rows, cols := r, c;
      ProductIsMultiplication(r, c);
      linear := new int[r * c];
      var starts := new nat[r];
      var i := 0;
      while i < r
        invariant 0 <= i <= r
        invariant forall k :: 0 <= k < i ==> starts[k] == Product(k, c)
      {
        ProductIsMultiplication(i, c);
        starts[i] := i * c;
        i := i + 1;
      }
      rowStart := starts;
    }

    method GetRows() returns (n: nat)
      ensures n == rows
    {
      n := rows;
    }

    method GetColumns() returns (n: nat)
      ensures n == cols
    {
      n := cols;
    }

    /** Reads through the row pointer; the value is the flat array's cell
        at the row-major index of (i, j), which is what Elem(i, j) is. */
    method GetElem(i: nat, j: nat) returns (v: int)
      requires Valid() && i < rows && j < cols
      ensures v == Elem(i, j)
    {
      RowMajorInRange(i, j, rows, cols);
      v := linear[rowStart[i] + j];
    }

    /** Writes through the row pointer: the one cell changes, no other. */
    method SetElem(i: nat, j: nat, val: int)
      requires Valid() && i < rows && j < cols
      modifies linear
      ensures Valid()
      ensures Elem(i, j) == val
      ensures forall p, q :: 0 <= p < rows && 0 <= q < cols && (p != i || q != j) ==> Elem(p, q) == old(Elem(p, q))
    {
      RowMajorInRange(i, j, rows, cols);
      linear[rowStart[i] + j] := val;
      forall p: nat, q: nat | p < rows && q < cols && (p != i || q != j)
        ensures Elem(p, q) == old(Elem(p, q))
      {
        RowMajorInRange(p, q, rows, cols);
        RowMajorDistinct(i, j, p, q, cols);
      }
    }

    /** Copies arr[i * cols + j] into cell (i, j), row by row. */
    method MatImport(arr: array<int>)
      requires Valid() && Product(rows, cols) <= arr.Length
      modifies linear
      ensures Valid()
      ensures linear[..] == old(arr[..Product(rows, cols)])
      ensures forall i, j :: 0 <= i < rows && 0 <= j < cols ==>
                RowMajor(i, j, cols) < arr.Length && Elem(i, j) == old(arr[RowMajor(i, j, cols)])
    {
      ghost var size := Product(rows, cols);
      var i := 0;
      while i < rows
        invariant 0 <= i <= rows && Product(i, cols) <= size
        invariant forall k :: 0 <= k < Product(i, cols) ==> linear[k] == old(arr[k])
        invariant forall k :: Product(i, cols) <= k < size ==> linear[k] == old(linear[k])
        invariant arr != linear ==> arr[..] == old(arr[..])
      {
        var j := 0;
        while j < cols
          invariant 0 <= j <= cols && RowMajor(i, j, cols) <= size
          invariant forall k :: 0 <= k < RowMajor(i, j, cols) ==> linear[k] == old(arr[k])
          invariant forall k :: RowMajor(i, j, cols) <= k < size ==> linear[k] == old(linear[k])
          invariant arr != linear ==> arr[..] == old(arr[..])
        {
          RowMajorInRange(i, j, rows, cols);
          ProductIsMultiplication(i, cols);
          linear[rowStart[i] + j] := arr[i * cols + j];
          j := j + 1;
        }
        i := i + 1;
      }
      assert linear[..] == old(arr[..size]);
      forall i: nat, j: nat | i < rows && j < cols
        ensures RowMajor(i, j, cols) < arr.Length && Elem(i, j) == old(arr[RowMajor(i, j, cols)])
      {
        RowMajorInRange(i, j, rows, cols);
        assert linear[..][RowMajor(i, j, cols)] == old(arr[..size])[RowMajor(i, j, cols)];
      }
    }
  }

  /** Sum over k < n of a(i, k) * b(k, j). */
  function DotProduct(a: RowMatrix, b: RowMatrix, i: nat, j: nat, n: nat): int
    reads a.rowStart, a.linear, b.rowStart, b.linear
    requires a.Valid() && b.Valid()
    requires i < a.rows && j < b.cols && n <= a.cols && n <= b.rows
    decreases n
  {
    if n == 0 then 0 else DotProduct(a, b, i, j, n - 1) + a.Elem(i, n - 1) * b.Elem(n - 1, j)
  }

  /** The inner loop of AddMatrices: fills row i of m with the sums of
      row i of mat1 and row i of mat2. */
  method FillSumRow(m: RowMatrix, mat1: RowMatrix, mat2: RowMatrix, i: nat)
    requires m.Valid() && mat1.Valid() && mat2.Valid()
    requires mat1.rows == mat2.rows && mat1.cols == mat2.cols
    requires i < m.rows && m.rows == mat1.rows && m.cols == mat1.cols
    requires m.linear != mat1.linear && m.linear != mat2.linear
    modifies m.linear
    ensures m.Valid()
    ensures forall q :: 0 <= q < m.cols ==> m.Elem(i, q) == mat1.Elem(i, q) + mat2.Elem(i, q)
    ensures forall p, q :: 0 <= p < m.rows && 0 <= q < m.cols && p != i ==> m.Elem(p, q) == old(m.Elem(p, q))
  {
    var j := 0;
    while j < m.cols
      invariant 0 <= j <= m.cols
      invariant m.Valid()
      invariant forall q :: 0 <= q < j ==> m.Elem(i, q) == mat1.Elem(i, q) + mat2.Elem(i, q)
      invariant forall p, q :: 0 <= p < m.rows && 0 <= q < m.cols && p != i ==> m.Elem(p, q) == old(m.Elem(p, q))
    {
      var x := mat1.GetElem(i, j);
      var y := mat2.GetElem(i, j);
      m.SetElem(i, j, x + y);
      j := j + 1;
    }
  }

  /** mat1 + mat2, or null when the dimensions differ. */
  method AddMatrices(mat1: RowMatrix, mat2: RowMatrix) returns (r: RowMatrix?)
    requires mat1.Valid() && mat2.Valid()
    ensures r == null <==> mat1.rows != mat2.rows || mat1.cols != mat2.cols
    ensures r != null ==> fresh(r) && fresh(r.linear) && fresh(r.rowStart) && r.Valid()
    ensures r != null ==> r.rows == mat1.rows && r.cols == mat1.cols
    ensures r != null ==> forall i, j :: 0 <= i < r.rows && 0 <= j < r.cols ==>
              r.Elem(i, j) == mat1.Elem(i, j) + mat2.Elem(i, j)
  {
    var m1Rows := mat1.GetRows();
    var m2Rows := mat2.GetRows();
    var m1Columns := mat1.GetColumns();
    var m2Columns := mat2.GetColumns();
    if m1Rows != m2Rows || m1Columns != m2Columns {
      return null;
    }
    var m := new RowMatrix(m1Rows, m1Columns);
    var i := 0;
    while i < m1Rows
      invariant 0 <= i <= m1Rows
      invariant m.Valid()
      invariant forall p, q :: 0 <= p < i && 0 <= q < m1Columns ==> m.Elem(p, q) == mat1.Elem(p, q) + mat2.Elem(p, q)
      modifies m.linear
    {
      FillSumRow(m, mat1, mat2, i);
      i := i + 1;
    }
    r := m;
  }

  /** The accumulator loop of MultiplyMatrices: row i of mat1 times column
      j of mat2. */
  method RowTimesColumn(mat1: RowMatrix, mat2: RowMatrix, i: nat, j: nat) returns (elem: int)
    requires mat1.Valid() && mat2.Valid() && mat1.cols == mat2.rows
    requires i < mat1.rows && j < mat2.cols
    ensures elem == DotProduct(mat1, mat2, i, j, mat1.cols)
  {
    elem := 0;
    var k := 0;
    while k < mat1.cols
      invariant 0 <= k <= mat1.cols
      invariant elem == DotProduct(mat1, mat2, i, j, k)
    {
      var x := mat1.GetElem(i, k);
      var y := mat2.GetElem(k, j);
      elem := elem + x * y;
      k := k + 1;
    }
  }

  /** The middle loop of MultiplyMatrices: fills row i of m with the
      products of row i of mat1 and each column of mat2. */
  method FillProductRow(m: RowMatrix, mat1: RowMatrix, mat2: RowMatrix, i: nat)
    requires m.Valid() && mat1.Valid() && mat2.Valid() && mat1.cols == mat2.rows
    requires i < mat1.rows && m.rows == mat1.rows && m.cols == mat2.cols
    requires m.linear != mat1.linear && m.linear != mat2.linear
    modifies m.linear
    ensures m.Valid()
    ensures forall q :: 0 <= q < m.cols ==> m.Elem(i, q) == DotProduct(mat1, mat2, i, q, mat1.cols)
    ensures forall p, q :: 0 <= p < m.rows && 0 <= q < m.cols && p != i ==> m.Elem(p, q) == old(m.Elem(p, q))
  {
    var j := 0;
    while j < m.cols
      invariant 0 <= j <= m.cols
      invariant m.Valid()
      invariant forall q :: 0 <= q < j ==> m.Elem(i, q) == DotProduct(mat1, mat2, i, q, mat1.cols)
      invariant forall p, q :: 0 <= p < m.rows && 0 <= q < m.cols && p != i ==> m.Elem(p, q) == old(m.Elem(p, q))
    {
      var elem := RowTimesColumn(mat1, mat2, i, j);
      m.SetElem(i, j, elem);
      j := j + 1;
    }
  }

  /** mat1 * mat2, or null when mat1's column count is not mat2's row count. */
  method MultiplyMatrices(mat1: RowMatrix, mat2: RowMatrix) returns (r: RowMatrix?)
    requires mat1.Valid() && mat2.Valid()
    ensures r == null <==> mat1.cols != mat2.rows
    ensures r != null ==> fresh(r) && fresh(r.linear) && fresh(r.rowStart) && r.Valid()
    ensures r != null ==> r.rows == mat1.rows && r.cols == mat2.cols
    ensures r != null ==> forall i, j :: 0 <= i < r.rows && 0 <= j < r.cols ==>
              r.Elem(i, j) == DotProduct(mat1, mat2, i, j, mat1.cols)
  {
    var m1Rows := mat1.GetRows();
    var m2Rows := mat2.GetRows();
    var m1Columns := mat1.GetColumns();
    var m2Columns := mat2.GetColumns();
    if m1Columns != m2Rows {
      return null;
    }
    var m := new RowMatrix(m1Rows, m2Columns);
    var i := 0;
    while i < m1Rows
      invariant 0 <= i <= m1Rows
      invariant m.Valid()
      invariant forall p, q :: 0 <= p < i && 0 <= q < m2Columns ==> m.Elem(p, q) == DotProduct(mat1, mat2, p, q, m1Columns)
      modifies m.linear
    {
      FillProductRow(m, mat1, mat2, i);
      i := i + 1;
    }
    r := m;
  }

  /** matA * matB + matC, or null when either step's dimensions mismatch. */
  method GemmMatrices(matA: RowMatrix, matB: RowMatrix, matC: RowMatrix) returns (r: RowMatrix?)
    requires matA.Valid() && matB.Valid() && matC.Valid()
    ensures r == null <==> matA.cols != matB.rows || matC.rows != matA.rows || matC.cols != matB.cols
    ensures r != null ==> fresh(r) && fresh(r.linear) && fresh(r.rowStart) && r.Valid()
    ensures r != null ==> r.rows == matA.rows && r.cols == matB.cols
    ensures r != null ==> forall i, j :: 0 <= i < r.rows && 0 <= j < r.cols ==>
              r.Elem(i, j) == DotProduct(matA, matB, i, j, matA.cols) + matC.Elem(i, j)
  {
    var product := MultiplyMatrices(matA, matB);
    if product == null {
      return null;
    }
    r := AddMatrices(product, matC);
  }
}
