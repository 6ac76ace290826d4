/**
 * The sudoku grid (src/model/grid.py): an n×n array of naturals, n a perfect
 * square, split into n blocks of side b = sqrt(n) that are numbered left to
 * right, top to bottom. 0 marks an empty cell.
 *
 * `SudokuGrid` is a frozen dataclass holding a mutable numpy array, so here it
 * is a class whose fields are constants and whose array contents change in
 * place. `ToList()` is its abstract value, and the sudoku rules are stated as
 * predicates on that value (`Matrix`).
 */
module Grid {
  import opened Wrappers

  type Matrix = seq<seq<nat>>

  /** `m` has `n` rows of `n` cells each. */
  predicate IsSquare(m: Matrix, n: nat)
  {
    |m| == n && forall r :: 0 <= r < n ==> |m[r]| == n
  }

  /* ---------------------------------------------------------------------- */
  /* Block size and shape checks                                            */
  /* ---------------------------------------------------------------------- */

  /** The integer square root; `math.sqrt` restricted to exact arithmetic. */
  function ISqrt(n: nat): (s: nat)
    ensures s * s <= n < (s + 1) * (s + 1)
  {
    if n == 0 then 0
    else
      var s := ISqrt(n - 1);
      if (s + 1) * (s + 1) <= n then s + 1 else s
  }

  /** `float(math.sqrt(n)).is_integer()`. */
  predicate IsPerfectSquare(n: nat)
  {
    ISqrt(n) * ISqrt(n) == n
  }

  lemma SquareMonotone(a: nat, b: nat)
    requires a <= b
    ensures a * a <= b * b
  {
    assert a * a <= a * b;
    assert a * b <= b * b;
  }

  /** Only `b` itself has its square between its own square and the next. */
  lemma SquareBetween(s: nat, b: nat)
    requires s * s <= b * b < (s + 1) * (s + 1)
    ensures s == b
  {
    if s < b {
      SquareMonotone(s + 1, b);
    } else if b < s {
      SquareMonotone(b + 1, s);
    }
  }

  /** `ISqrt` recovers the side of a square. */
  lemma PerfectSquareOf(b: nat)
    ensures IsPerfectSquare(b * b) && ISqrt(b * b) == b
  {
    SquareBetween(ISqrt(b * b), b);
  }

  /** A number is a perfect square exactly when it is the square of some natural. */
  lemma PerfectSquareIff(n: nat)
    ensures IsPerfectSquare(n) <==> exists b: nat :: b * b == n
  {
    if exists b: nat :: b * b == n {
      var b: nat :| b * b == n;
      PerfectSquareOf(b);
    }
  }

  const NotTwoDimensional := "The grid-array should be 2-dimensional"
  const NotSquare := "The grid-array should form a square"
  const NotBlockDivisible := "The grid-array should be divisible into blocks"
  const InvalidGridText := "the text doesn't contain a valid sudoku grid"

  /** `np.uint` holds values below 2^64; numpy raises `OverflowError` for others. */
  const UIntLimit: int := 0x1_0000_0000_0000_0000

  /** A value of numpy's `np.uint` (unsigned 64-bit) cell type. */
  type UInt = x: nat | x < UIntLimit

  /**
   * The checks of `__post_init__` on a 2-D array with `rows` rows and `cols`
   * columns; on success the result is the block size. Values are not checked
   * for repeats: every square, block-divisible array is accepted.
   */
  function CheckShape(rows: nat, cols: nat): (r: Result<nat, Error>)
    ensures r.Ok? <==> rows == cols && exists b: nat :: b * b == rows
    ensures r.Ok? ==> r.value * r.value == rows
    ensures rows != cols ==> r == Err(ValueError(NotSquare))
  {
    if rows != cols then Err(ValueError(NotSquare))
    else if !IsPerfectSquare(rows) then
      PerfectSquareIff(rows);
      Err(ValueError(NotBlockDivisible))
    else
      PerfectSquareIff(rows);
      Ok(ISqrt(rows))
  }

  /* ---------------------------------------------------------------------- */
  /* Block arithmetic                                                       */
  /* ---------------------------------------------------------------------- */

  /** `block_index(row, col)` of a grid with block side `blockSize`. */
  function BlockIndex(blockSize: nat, row: nat, col: nat): (i: nat)
    requires blockSize > 0
    ensures row < blockSize * blockSize && col < blockSize * blockSize ==> i < blockSize * blockSize
  {
    var q, c := row / blockSize, col / blockSize;
    BlockIndexBound(blockSize, row, col, q, c);
    q * blockSize + c
  }

  lemma MulSucc(k: nat, f: nat)
    ensures (k + 1) * f == k * f + f
  {
  }

  lemma MulAtLeast(k: nat, b: nat)
    requires k >= 1
    ensures k * b >= b
  {
  }

  /** Euclidean division of `q * b + j` for `j < b`. */
  lemma DivMulAdd(q: nat, b: nat, j: nat)
    requires j < b
    ensures (q * b + j) / b == q && (q * b + j) % b == j
  {
    var x := q * b + j;
    var d, m := x / b, x % b;
    assert x == d * b + m;
    if d > q {
      MulAtLeast(d - q, b);
      assert false;
    } else if d < q {
      MulAtLeast(q - d, b);
      assert false;
    }
  }

  /** Counting up by one crosses a multiple of `b` exactly when the new value is one. */
  lemma DivSucc(k: nat, b: nat)
    requires b > 0
    ensures (k + 1) / b == k / b + (if (k + 1) % b == 0 then 1 else 0)
  {
    var q, m := k / b, k % b;
    assert k == q * b + m;
    if m + 1 < b {
      DivMulAdd(q, b, m + 1);
    } else {
      assert k + 1 == (q + 1) * b + 0;
      DivMulAdd(q + 1, b, 0);
    }
  }

  lemma DivBound(x: nat, b: nat)
    requires 0 < b && x < b * b
    ensures x / b < b
  {
  }

  /** The block-row and block-column of a cell of an n×n grid make a block number below n. */
  lemma BlockIndexBound(b: nat, row: nat, col: nat, q: nat, c: nat)
    requires 0 < b && q == row / b && c == col / b
    ensures row < b * b && col < b * b ==> q * b + c < b * b
  {
    if row < b * b && col < b * b {
      DivBound(row, b);
      DivBound(col, b);
      MulLe(q, b - 1, b);
      MulSucc(b - 1, b);
      assert q * b + c <= (b - 1) * b + (b - 1);
    }
  }

  /** The block of cell (row, col) has block-row `row / b` and block-column `col / b`. */
  lemma BlockIndexParts(b: nat, row: nat, col: nat)
    requires 0 < b && col < b * b
    ensures BlockIndex(b, row, col) / b == row / b
    ensures BlockIndex(b, row, col) % b == col / b
  {
    DivBound(col, b);
    DivMulAdd(row / b, b, col / b);
  }

  /** Top row of block `i`, as `block` computes it. */
  function BlockTop(b: nat, i: nat): nat
    requires b > 0
  {
    (i / b) * b
  }

  /** Leftmost column of block `i`, as `block` computes it. */
  function BlockLeft(b: nat, i: nat): nat
    requires b > 0
  {
    (i % b) * b
  }

  lemma MulLe(x: nat, y: nat, b: nat)
    requires x <= y
    ensures x * b <= y * b
  {
  }

  /** Block `i` of an n×n grid lies inside the grid. */
  lemma BlockCorner(b: nat, i: nat)
    requires 0 < b && i < b * b
    ensures BlockTop(b, i) + b <= b * b && BlockLeft(b, i) + b <= b * b
  {
    DivBound(i, b);
    MulLe(i / b + 1, b, b);
    MulLe(i % b + 1, b, b);
  }

  /** The cells of the b×b square at the corner of block `i` all have block index `i`. */
  lemma BlockCellIndex(b: nat, i: nat, j: nat, k: nat)
    requires 0 < b && i < b * b && j < b && k < b
    ensures BlockTop(b, i) + j < b * b && BlockLeft(b, i) + k < b * b
    ensures BlockIndex(b, BlockTop(b, i) + j, BlockLeft(b, i) + k) == i
  {
    BlockCorner(b, i);
    var q, m := i / b, i % b;
    DivMulAdd(q, b, j);
    DivMulAdd(m, b, k);
    assert (q * b + j) / b == q;
    assert (m * b + k) / b == m;
    assert i == q * b + m;
  }

  /** Conversely, a cell lies in the square at the corner of its own block. */
  lemma CellInItsBlock(b: nat, row: nat, col: nat)
    requires 0 < b && row < b * b && col < b * b
    ensures var i := BlockIndex(b, row, col);
      BlockTop(b, i) <= row < BlockTop(b, i) + b && BlockLeft(b, i) <= col < BlockLeft(b, i) + b
  {
    BlockIndexParts(b, row, col);
  }

  /* ---------------------------------------------------------------------- */
  /* The sudoku rules on grid values                                        */
  /* ---------------------------------------------------------------------- */

  /** Two cells share a row, a column or a block. */
  predicate SameUnit(b: nat, r1: nat, c1: nat, r2: nat, c2: nat)
  {
    r1 == r2 || c1 == c2 || (b > 0 && BlockIndex(b, r1, c1) == BlockIndex(b, r2, c2))
  }

  /** Some cell sharing a unit with (row, col) holds `val` (the cell itself included). */
  ghost predicate SeenFrom(m: Matrix, n: nat, b: nat, row: nat, col: nat, val: nat)
    requires IsSquare(m, n)
  {
    exists r, c :: 0 <= r < n && 0 <= c < n && SameUnit(b, row, col, r, c) && m[r][c] == val
  }

  /** No other cell in the row, column or block of (r, c) holds its value. */
  ghost predicate ConsistentAt(m: Matrix, b: nat, r: nat, c: nat)
    requires IsSquare(m, b * b) && r < b * b && c < b * b
  {
    forall r2: nat, c2: nat :: r2 < b * b && c2 < b * b && (r2 != r || c2 != c) && SameUnit(b, r, c, r2, c2)
      ==> m[r2][c2] != m[r][c]
  }

  /** No row, column or block holds a repeated non-zero value. */
  ghost predicate NoRepeats(m: Matrix, b: nat)
    requires IsSquare(m, b * b)
  {
    forall r: nat, c: nat :: r < b * b && c < b * b && m[r][c] != 0 ==> ConsistentAt(m, b, r, c)
  }

  /** Every cell is empty or holds one of 1..n. */
  ghost predicate ValuesInRange(m: Matrix, n: nat)
    requires IsSquare(m, n)
  {
    forall r, c :: 0 <= r < n && 0 <= c < n ==> m[r][c] <= n
  }

  /** A solved grid: every cell holds one of 1..n and nothing repeats. */
  ghost predicate IsSolution(m: Matrix, b: nat)
    requires IsSquare(m, b * b)
  {
    && (forall r, c :: 0 <= r < b * b && 0 <= c < b * b ==> 1 <= m[r][c] <= b * b)
    && NoRepeats(m, b)
  }

  /** `solution` keeps every filled cell of `puzzle`. */
  ghost predicate Extends(solution: Matrix, puzzle: Matrix, n: nat)
    requires IsSquare(solution, n) && IsSquare(puzzle, n)
  {
    forall r, c :: 0 <= r < n && 0 <= c < n && puzzle[r][c] != 0 ==> solution[r][c] == puzzle[r][c]
  }

  /** `m` with cell (r, c) set to `v`. */
  function Update(m: Matrix, r: nat, c: nat, v: nat): (m': Matrix)
    requires r < |m| && c < |m[r]|
    ensures |m'| == |m| && forall i :: 0 <= i < |m| ==> |m'[i]| == |m[i]|
    ensures forall i, j :: 0 <= i < |m| && 0 <= j < |m[i]| ==> m'[i][j] == if i == r && j == c then v else m[i][j]
  {
    var newRow: seq<nat> := m[r][c := v];
    m[r := newRow]
  }

  /** Writing a cell's old value back undoes a write. */
  lemma UpdateUndo(m: Matrix, r: nat, c: nat, v: nat)
    requires r < |m| && c < |m[r]|
    ensures Update(Update(m, r, c, v), r, c, m[r][c]) == m
  {
    var m' := Update(Update(m, r, c, v), r, c, m[r][c]);
    assert m'[r] == m[r];
    assert forall i :: 0 <= i < |m| ==> m'[i] == m[i];
  }

  /** Column `c` of a matrix (numpy `m[:, c]`). */
  function Column(m: Matrix, c: nat): (col: seq<nat>)
    requires forall r :: 0 <= r < |m| ==> c < |m[r]|
    ensures |col| == |m| && forall r :: 0 <= r < |m| ==> col[r] == m[r][c]
  {
    seq(|m|, r requires 0 <= r < |m| => m[r][c])
  }

  /** Cell (r1, c1) comes strictly before cell (r2, c2) in row-major order. */
  predicate Before(r1: nat, c1: nat, r2: nat, c2: nat)
  {
    r1 < r2 || (r1 == r2 && c1 < c2)
  }

  /** Writing a cell's own value changes nothing. */
  lemma UpdateSame(m: Matrix, r: nat, c: nat)
    requires r < |m| && c < |m[r]|
    ensures Update(m, r, c, m[r][c]) == m
  {
    assert forall i :: 0 <= i < |m| ==> Update(m, r, c, m[r][c])[i] == m[i];
  }

  /** Row-major concatenation of the rows (numpy `flatten`). */
  function Concat(m: Matrix): seq<nat>
  {
    if |m| == 0 then [] else Concat(m[..|m| - 1]) + m[|m| - 1]
  }

  /** Cell (r, c) of a matrix with rows of width `w` sits at index `r * w + c` of its concatenation. */
  lemma {:induction false} ConcatIndex(m: Matrix, w: nat, r: nat, c: nat)
    requires forall i :: 0 <= i < |m| ==> |m[i]| == w
    requires r < |m| && c < w
    ensures |Concat(m)| == |m| * w
    ensures r * w + c < |Concat(m)| && Concat(m)[r * w + c] == m[r][c]
  {
    var k := |m| - 1;
    ConcatLength(m[..k], w);
    if r < k {
      ConcatIndex(m[..k], w, r, c);
      assert (m[..k])[r] == m[r];
    } else {
      assert Concat(m)[k * w + c] == m[k][c];
    }
  }

  lemma {:induction false} ConcatLength(m: Matrix, w: nat)
    requires forall i :: 0 <= i < |m| ==> |m[i]| == w
    ensures |Concat(m)| == |m| * w
  {
    if |m| > 0 {
      ConcatLength(m[..|m| - 1], w);
    }
  }

  /** numpy's reading of an index into an axis of length `n`: negative indices count from the end. */
  function AxisIndex(i: int, n: nat): (j: Option<nat>)
    ensures j.Some? <==> -(n as int) <= i < n
    ensures j.Some? ==> j.value < n && (j.value == i || j.value == i + n)
  {
    if 0 <= i < n then Some(i)
    else if -(n as int) <= i < 0 then Some(i + n)
    else None
  }

  /* ---------------------------------------------------------------------- */
  /* The grid object                                                        */
  /* ---------------------------------------------------------------------- */

  class SudokuGrid {
    /** `size`: the side of the grid. */
    const size: nat
    /** `block_size`: the side of one block, `int(math.sqrt(size))`. */
    const blockSize: nat
    /** `_array`: its contents change in place, the array itself never does. */
    const cells: array2<UInt>

    /** The shape invariant `__post_init__` establishes. */
    predicate Valid()
    {
      cells.Length0 == size && cells.Length1 == size && blockSize * blockSize == size
    }

    constructor Wrap(a: array2<UInt>, b: nat)
      requires a.Length0 == b * b && a.Length1 == b * b
      ensures Valid() && cells == a && blockSize == b && size == b * b
    {
      size := b * b;
      blockSize := b;
      cells := a;
    }

    /**
     * `SudokuGrid(array)`: the dataclass constructor with its `__post_init__`
     * checks. The array is kept, not copied. A Dafny `array2` is always
     * two-dimensional, so the 2-D check can only fail in `FromList`.
     */
    static method New(a: array2<UInt>) returns (r: Result<SudokuGrid, Error>)
      ensures r.Ok? <==> a.Length0 == a.Length1 && exists b: nat :: b * b == a.Length0
      ensures r.Err? ==> r.error == CheckShape(a.Length0, a.Length1).error
      ensures r.Ok? ==> (fresh(r.value) && r.value.Valid() && r.value.cells == a
                         && r.value.blockSize == ISqrt(a.Length0))
    {
      var shape := CheckShape(a.Length0, a.Length1);
      if shape.Err? {
        return Err(shape.error);
      }
      PerfectSquareOf(shape.value);
      var g := new SudokuGrid.Wrap(a, shape.value);
      return Ok(g);
    }

    /** `to_list()`: the rows of the grid. */
    function ToList(): (m: Matrix)
      reads cells
      requires Valid()
      ensures IsSquare(m, size)
      ensures forall r, c :: 0 <= r < size && 0 <= c < size ==> m[r][c] == cells[r, c]
    {
      seq(size, r requires 0 <= r < size reads cells =>
        seq(size, c requires 0 <= c < size reads cells => cells[r, c]))
    }

    /** `grid[row, col]`: the value of one cell; out-of-range coordinates raise `IndexError`. */
    function Get(row: int, col: int): (v: Result<nat, Error>)
      reads cells
      requires Valid()
      ensures v.Ok? <==> -(size as int) <= row < size && -(size as int) <= col < size
      ensures v.Ok? ==> v.value == ToList()[AxisIndex(row, size).value][AxisIndex(col, size).value]
      ensures v.Err? ==> v.error == IndexError
    {
      var r, c := AxisIndex(row, size), AxisIndex(col, size);
      if r.None? || c.None? then Err(IndexError) else Ok(cells[r.value, c.value])
    }

    /**
     * `grid[row, col] = value`: writes one cell and nothing else. Coordinates
     * outside the grid raise `IndexError`; a value `np.uint` cannot hold
     * raises `OverflowError`.
     */
    method Set(row: int, col: int, value: int) returns (err: Option<Error>)
      requires Valid()
      modifies cells
      ensures err.None? <==> -(size as int) <= row < size && -(size as int) <= col < size && 0 <= value < UIntLimit
      ensures err.Some? ==> ToList() == old(ToList())
      ensures err.Some? && !(-(size as int) <= row < size && -(size as int) <= col < size) ==> err.value == IndexError
      ensures err.Some? && -(size as int) <= row < size && -(size as int) <= col < size ==> err.value == OverflowError
      ensures err.None? ==>
        ToList() == Update(old(ToList()), AxisIndex(row, size).value, AxisIndex(col, size).value, value as nat)
    {
      var r, c := AxisIndex(row, size), AxisIndex(col, size);
      if r.None? || c.None? {
        return Some(IndexError);
      }
      if !(0 <= value < UIntLimit) {
        return Some(OverflowError);
      }
      ghost var before := ToList();
      cells[r.value, c.value] := value as UInt;
      ghost var expected := Update(before, r.value, c.value, value as nat);
      assert forall i :: 0 <= i < size ==> ToList()[i] == expected[i];
      return None;
    }

    /** `flatten()`: the cells in row-major order. */
    function Flatten(): (flat: seq<nat>)
      reads cells
      requires Valid()
      ensures |flat| == size * size
    {
      ConcatLength(ToList(), size);
      Concat(ToList())
    }

    /** `flatten()` has n² cells, cell (r, c) at index `r * n + c`. */
    lemma FlattenIsRowMajor(r: nat, c: nat)
      requires Valid() && r < size && c < size
      ensures |Flatten()| == size * size
      ensures r * size + c < size * size && Flatten()[r * size + c] == cells[r, c]
    {
      ConcatIndex(ToList(), size, r, c);
    }

    /**
     * `block(i)`: the b×b sub-matrix whose top-left corner is
     * `((i / b) * b, (i % b) * b)`. For `i >= n` numpy's slice is empty.
     * A block size of 0 (the 0×0 grid) divides by zero in the source.
     */
    function Block(i: nat): (blk: Matrix)
      reads cells
      requires Valid() && blockSize > 0
      ensures i < size ==> IsSquare(blk, blockSize)
      ensures i >= size ==> blk == []
    {
      if i >= size then []
      else
        var b := blockSize;
        BlockCorner(b, i);
        seq(b, j requires 0 <= j < b reads cells =>
          seq(b, k requires 0 <= k < b reads cells => cells[BlockTop(b, i) + j, BlockLeft(b, i) + k]))
    }

    /** Each entry of the slice `block(i)` is a cell whose `block_index` is `i`. */
    lemma BlockEntryIsInBlock(i: nat, j: nat, k: nat)
      requires Valid() && blockSize > 0 && i < size && j < blockSize && k < blockSize
      ensures var r, c := BlockTop(blockSize, i) + j, BlockLeft(blockSize, i) + k;
        r < size && c < size && BlockIndex(blockSize, r, c) == i && Block(i)[j][k] == ToList()[r][c]
    {
      BlockCellIndex(blockSize, i, j, k);
    }

    /** Each cell is an entry of the slice `block(block_index(row, col))`. */
    lemma CellIsInItsBlock(row: nat, col: nat)
      requires Valid() && blockSize > 0 && row < size && col < size
      ensures var i := BlockIndex(blockSize, row, col);
        && i < size
        && BlockTop(blockSize, i) <= row < BlockTop(blockSize, i) + blockSize
        && BlockLeft(blockSize, i) <= col < BlockLeft(blockSize, i) + blockSize
        && Block(i)[row - BlockTop(blockSize, i)][col - BlockLeft(blockSize, i)] == ToList()[row][col]
    {
      CellInItsBlock(blockSize, row, col);
    }

    /** `val in block(i)`: some cell whose `block_index` is `i` holds `val`. */
    lemma BlockContains(i: nat, val: nat)
      requires Valid() && blockSize > 0 && i < size
      ensures (exists j :: 0 <= j < blockSize && val in Block(i)[j])
          <==> exists r, c :: 0 <= r < size && 0 <= c < size && BlockIndex(blockSize, r, c) == i && ToList()[r][c] == val
    {
      var blk := Block(i);
      if j :| 0 <= j < blockSize && val in blk[j] {
        var k :| 0 <= k < blockSize && blk[j][k] == val;
        BlockEntryIsInBlock(i, j, k);
        var r, c := BlockTop(blockSize, i) + j, BlockLeft(blockSize, i) + k;
        assert BlockIndex(blockSize, r, c) == i && ToList()[r][c] == val;
      }
      if r, c :| 0 <= r < size && 0 <= c < size && BlockIndex(blockSize, r, c) == i && ToList()[r][c] == val {
        CellIsInItsBlock(r, c);
        var j := r - BlockTop(blockSize, i);
        assert blk[j][c - BlockLeft(blockSize, i)] == val;
      }
    }

    /** `copy()`: a new grid over a new array with the same contents. */
    method Copy() returns (g: SudokuGrid)
      requires Valid()
      ensures fresh(g) && fresh(g.cells) && g.Valid()
      ensures g.size == size && g.blockSize == blockSize && g.ToList() == ToList()
    {
      var a := new UInt[size, size]((r, c) requires 0 <= r < size && 0 <= c < size reads cells => cells[r, c]);
      g := new SudokuGrid.Wrap(a, blockSize);
      assert forall r :: 0 <= r < size ==> g.ToList()[r] == ToList()[r];
    }

    /**
     * What `from_list` accepts: a non-empty, rectangular list of values that
     * fit numpy's unsigned 64-bit integers, forming a block-divisible square.
     */
    static predicate IsGridList(rows: seq<seq<int>>)
    {
      && |rows| > 0
      && (forall r :: 0 <= r < |rows| ==> |rows[r]| == |rows[0]|)
      && (forall r, c :: 0 <= r < |rows| && 0 <= c < |rows[r]| ==> 0 <= rows[r][c] < UIntLimit)
      && |rows[0]| == |rows|
      && IsPerfectSquare(|rows|)
    }

    /**
     * `from_list(puzzle)`: `np.array(puzzle, np.uint)` followed by the
     * dataclass checks. An empty list makes a 1-D array, a ragged one or a
     * negative value makes numpy raise; every failure is re-raised as
     * `ValueError(InvalidGridText)`.
     */
    static method FromList(rows: seq<seq<int>>) returns (r: Result<SudokuGrid, Error>)
      ensures r.Ok? <==> IsGridList(rows)
      ensures r.Err? ==> r.error == ValueError(InvalidGridText)
      ensures r.Ok? ==> fresh(r.value) && fresh(r.value.cells) && r.value.Valid()
      ensures r.Ok? ==> r.value.size == |rows| && r.value.ToList() == rows
    {
      if |rows| == 0 {
        // numpy builds a 1-D array of shape (0,): "should be 2-dimensional"
        return Err(ValueError(InvalidGridText));
      }
      var n0, n1 := |rows|, |rows[0]|;
      if exists i :: 0 <= i < n0 && |rows[i]| != n1 {
        return Err(ValueError(InvalidGridText));
      }
      if exists i, j :: 0 <= i < n0 && 0 <= j < n1 && !(0 <= rows[i][j] < UIntLimit) {
        return Err(ValueError(InvalidGridText));
      }
      var a := new UInt[n0, n1]((i, j) requires 0 <= i < n0 && 0 <= j < n1 => rows[i][j] as UInt);
      var g := New(a);
      if g.Err? {
        ghost var b := ISqrt(n0);
        assert n0 == n1 ==> !IsPerfectSquare(n0);
        return Err(ValueError(InvalidGridText));
      }
      PerfectSquareOf(g.value.blockSize);
      assert forall i :: 0 <= i < n0 ==> g.value.ToList()[i] == rows[i];
      return Ok(g.value);
    }

    /** `to_list()` of any non-empty grid is accepted by `from_list`, which rebuilds the same contents. */
    lemma ToListIsGridList()
      requires Valid() && size > 0
      ensures IsGridList(ToList())
    {
      PerfectSquareOf(blockSize);
    }

    /**
     * The 0×0 grid, which the dataclass accepts, does not survive the round
     * trip: `to_list()` is `[]`, which `from_list` rejects.
     */
    lemma EmptyGridDoesNotRoundTrip()
      requires Valid() && size == 0
      ensures ToList() == [] && !IsGridList(ToList())
    {
    }
  }
}
