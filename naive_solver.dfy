/**
 * The naive backtracking solver (src/solvers/naive_solver.py). It visits the
 * cells in row-major order, writes each candidate value into the grid in
 * place, recurses on the next cell, and writes 0 back when the recursion
 * fails.
 *
 * What a successful search leaves behind is stated by `Completes`: cells
 * before the starting cell and pre-filled cells are untouched, every other
 * cell holds one of 1..n that no other cell of its row, column or block
 * holds. A failed search leaves the grid as it found it, and fails only when
 * no such completion exists.
 */
module NaiveSolver {
  import opened Wrappers
  import opened Grid

  /** `_increment_coordinates(row, col)` for a grid of side `n`: the next cell. */
  function IncrementCoordinates(n: nat, row: nat, col: nat): (next: (nat, nat))
    ensures col < n ==> next.1 < n
    ensures col < n ==> next.0 * n + next.1 == row * n + col + 1
  {
    MulSucc(row, n);
    if col + 1 < n then (row, col + 1) else (row + 1, 0)
  }

  /**
   * The next cell is the successor of (row, col): exactly the cells up to
   * and including (row, col) come before it.
   */
  lemma IncrementIsSuccessor(n: nat, row: nat, col: nat, r: nat, c: nat)
    requires col < n && c < n
    ensures var next := IncrementCoordinates(n, row, col);
      Before(r, c, next.0, next.1) <==> Before(r, c, row, col) || (r == row && c == col)
  {
  }

  /**
   * At an empty cell the value 0 is always excluded, since the cell itself
   * holds it: the loop over 0..n effectively tries 1..n in order.
   */
  lemma ZeroIsSeenAtEmptyCell(m: Matrix, n: nat, b: nat, row: nat, col: nat)
    requires IsSquare(m, n) && row < n && col < n && m[row][col] == 0
    ensures SeenFrom(m, n, b, row, col, 0)
  {
    assert SameUnit(b, row, col, row, col);
  }

  /**
   * `m` completes `m0` from cell (row, col) on: the cells before it and the
   * pre-filled cells are kept; each other cell holds a value in 1..n that
   * no other cell of its row, column or block holds.
   */
  ghost predicate Completes(m: Matrix, m0: Matrix, n: nat, b: nat, row: nat, col: nat)
    requires n == b * b && IsSquare(m, n) && IsSquare(m0, n)
  {
    forall r, c :: 0 <= r < n && 0 <= c < n ==>
      if Before(r, c, row, col) || m0[r][c] != 0 then m[r][c] == m0[r][c]
      else 1 <= m[r][c] <= n && ConsistentAt(m, b, r, c)
  }

  /** Some grid completes `m0` from (row, col) on. */
  ghost predicate HasCompletion(m0: Matrix, n: nat, b: nat, row: nat, col: nat)
    requires n == b * b && IsSquare(m0, n)
  {
    exists m :: IsSquare(m, n) && Completes(m, m0, n, b, row, col)
  }

  /** Past the last row there is nothing left to fill. */
  lemma CompletesAtEnd(m0: Matrix, n: nat, b: nat, row: nat, col: nat)
    requires n == b * b && IsSquare(m0, n) && row >= n
    ensures Completes(m0, m0, n, b, row, col)
  {
  }

  /** A pre-filled cell is skipped: completing from the next cell completes from this one. */
  lemma CompletesSkip(m: Matrix, m0: Matrix, n: nat, b: nat, row: nat, col: nat)
    requires n == b * b && IsSquare(m, n) && IsSquare(m0, n) && row < n && col < n
    requires m0[row][col] != 0
    ensures var next := IncrementCoordinates(n, row, col);
      Completes(m, m0, n, b, next.0, next.1) <==> Completes(m, m0, n, b, row, col)
  {
    var next := IncrementCoordinates(n, row, col);
    forall r, c | 0 <= r < n && 0 <= c < n
      ensures Before(r, c, next.0, next.1) <==> Before(r, c, row, col) || (r == row && c == col)
    {
      IncrementIsSuccessor(n, row, col, r, c);
    }
  }

  /**
   * Placing a value no unit of (row, col) holds and completing from the
   * next cell completes from (row, col).
   */
  lemma CompletesPlace(m: Matrix, m1: Matrix, m0: Matrix, n: nat, b: nat, row: nat, col: nat, val: nat)
    requires n == b * b && IsSquare(m, n) && IsSquare(m0, n) && row < n && col < n
    requires m0[row][col] == 0 && val <= n && !SeenFrom(m0, n, b, row, col, val)
    requires m1 == Update(m0, row, col, val)
    requires var next := IncrementCoordinates(n, row, col);
      Completes(m, m1, n, b, next.0, next.1)
    ensures Completes(m, m0, n, b, row, col)
  {
    var next := IncrementCoordinates(n, row, col);
    assert IsSquare(m1, n);
    forall r, c | 0 <= r < n && 0 <= c < n
      ensures Before(r, c, next.0, next.1) <==> Before(r, c, row, col) || (r == row && c == col)
    {
      IncrementIsSuccessor(n, row, col, r, c);
    }
    assert m[row][col] == val;
    assert val != 0 by {
      assert SameUnit(b, row, col, row, col);
    }
    forall r2: nat, c2: nat | r2 < n && c2 < n && (r2 != row || c2 != col) && SameUnit(b, row, col, r2, c2)
      ensures m[r2][c2] != m[row][col]
    {
      assert m1[r2][c2] == m0[r2][c2];
      if Before(r2, c2, next.0, next.1) || m1[r2][c2] != 0 {
        assert m[r2][c2] == m0[r2][c2];
      } else {
        assert ConsistentAt(m, b, r2, c2);
        assert SameUnit(b, r2, c2, row, col);
      }
    }
  }

  /** A value some unit of (row, col) already holds is not the value any completion puts there. */
  lemma SeenValueIsNoCompletion(m: Matrix, m0: Matrix, n: nat, b: nat, row: nat, col: nat, val: nat)
    requires n == b * b && IsSquare(m, n) && IsSquare(m0, n) && row < n && col < n
    requires m0[row][col] == 0 && SeenFrom(m0, n, b, row, col, val)
    requires Completes(m, m0, n, b, row, col)
    ensures m[row][col] != val
  {
    var r, c :| 0 <= r < n && 0 <= c < n && SameUnit(b, row, col, r, c) && m0[r][c] == val;
    if m0[r][c] != 0 {
      assert m[r][c] == val;
      assert ConsistentAt(m, b, row, col);
    }
  }

  /** A completion from (row, col) that puts `val` there completes the grid with `val` placed from the next cell. */
  lemma CompletionAfterPlace(m: Matrix, m1: Matrix, m0: Matrix, n: nat, b: nat, row: nat, col: nat, val: nat)
    requires n == b * b && IsSquare(m, n) && IsSquare(m0, n) && row < n && col < n
    requires m0[row][col] == 0 && m1 == Update(m0, row, col, val)
    requires Completes(m, m0, n, b, row, col) && m[row][col] == val
    ensures var next := IncrementCoordinates(n, row, col);
      IsSquare(m1, n) && Completes(m, m1, n, b, next.0, next.1)
  {
    var next := IncrementCoordinates(n, row, col);
    assert IsSquare(m1, n);
    forall r, c | 0 <= r < n && 0 <= c < n
      ensures Before(r, c, next.0, next.1) <==> Before(r, c, row, col) || (r == row && c == col)
    {
      IncrementIsSuccessor(n, row, col, r, c);
    }
  }

  /** A completion of the whole grid solves it when the clues themselves break no rule. */
  lemma CompletionIsSolution(m: Matrix, m0: Matrix, n: nat, b: nat)
    requires n == b * b && IsSquare(m, n) && IsSquare(m0, n)
    requires Completes(m, m0, n, b, 0, 0)
    requires NoRepeats(m0, b) && ValuesInRange(m0, n)
    ensures IsSolution(m, b) && Extends(m, m0, n)
  {
    forall r: nat, c: nat | r < n && c < n && m[r][c] != 0 ensures ConsistentAt(m, b, r, c) {
      if m0[r][c] != 0 {
        forall r2: nat, c2: nat | r2 < n && c2 < n && (r2 != r || c2 != c) && SameUnit(b, r, c, r2, c2)
          ensures m[r2][c2] != m[r][c]
        {
          if m0[r2][c2] != 0 {
            assert ConsistentAt(m0, b, r, c);
          } else {
            assert ConsistentAt(m, b, r2, c2);
            assert SameUnit(b, r2, c2, r, c);
          }
        }
      }
    }
  }

  class NaiveSudokuSolver {
    /** `_puzzle`: the grid the search fills in place. */
    const puzzle: SudokuGrid

    constructor (puzzle: SudokuGrid)
      ensures this.puzzle == puzzle
    {
      this.puzzle := puzzle;
    }

    /**
     * `_is_excluded(row, col, val)`: `val` occurs in the row, the column or
     * the block of (row, col).
     */
    function IsExcluded(row: nat, col: nat, val: nat): (excluded: bool)
      reads puzzle.cells
      requires puzzle.Valid() && row < puzzle.size && col < puzzle.size
      ensures excluded <==> SeenFrom(puzzle.ToList(), puzzle.size, puzzle.blockSize, row, col, val)
    {
      var m, b := puzzle.ToList(), puzzle.blockSize;
      var i := BlockIndex(b, row, col);
      puzzle.BlockContains(i, val);
      ScanMeaning(m, puzzle.size, b, row, col, val);
      val in m[row] || val in Column(m, col) || exists j :: 0 <= j < b && val in puzzle.Block(i)[j]
    }

    /**
     * `_dfs(row, col)`. On success the grid completes its entry state from
     * (row, col) on; on failure the grid is as it was on entry, and no
     * completion from (row, col) exists.
     */
    method Dfs(row: nat, col: nat) returns (solved: bool)
      requires puzzle.Valid() && puzzle.size < UIntLimit
      requires row < puzzle.size ==> col < puzzle.size
      modifies puzzle.cells
      ensures solved ==> Completes(puzzle.ToList(), old(puzzle.ToList()), puzzle.size, puzzle.blockSize, row, col)
      ensures !solved ==> puzzle.ToList() == old(puzzle.ToList())
      ensures solved <==> HasCompletion(old(puzzle.ToList()), puzzle.size, puzzle.blockSize, row, col)
      decreases puzzle.size - row, puzzle.size - col
    {
      var n, b := puzzle.size, puzzle.blockSize;
      ghost var m0 := puzzle.ToList();
      if row >= n {
        CompletesAtEnd(m0, n, b, row, col);
        return true;
      }
      var current := puzzle.Get(row, col);
      if current.value > 0 {
        var (newRow, newCol) := IncrementCoordinates(n, row, col);
        solved := Dfs(newRow, newCol);
        forall m | IsSquare(m, n) ensures Completes(m, m0, n, b, newRow, newCol) <==> Completes(m, m0, n, b, row, col) {
          CompletesSkip(m, m0, n, b, row, col);
        }
        if solved {
          CompletesSkip(puzzle.ToList(), m0, n, b, row, col);
        }
        return;
      }
      for val := 0 to n + 1
        invariant puzzle.ToList() == m0
        invariant forall m :: IsSquare(m, n) && Completes(m, m0, n, b, row, col) ==> m[row][col] >= val
      {
        if IsExcluded(row, col, val) {
          forall m | IsSquare(m, n) && Completes(m, m0, n, b, row, col) ensures m[row][col] != val {
            SeenValueIsNoCompletion(m, m0, n, b, row, col, val);
          }
          continue;
        }
        var err := puzzle.Set(row, col, val);
        ghost var m1 := puzzle.ToList();
        var (newRow, newCol) := IncrementCoordinates(n, row, col);
        solved := Dfs(newRow, newCol);
        if solved {
          CompletesPlace(puzzle.ToList(), m1, m0, n, b, row, col, val);
          return;
        }
        forall m | IsSquare(m, n) && Completes(m, m0, n, b, row, col) ensures m[row][col] != val {
          if m[row][col] == val {
            CompletionAfterPlace(m, m1, m0, n, b, row, col, val);
          }
        }
        err := puzzle.Set(row, col, 0);
        UpdateUndo(m0, row, col, val);
      }
      return false;
    }

    /** `run_algorithm()`: the solved grid itself, or `None`. */
    method RunAlgorithm() returns (r: Option<SudokuGrid>)
      requires puzzle.Valid() && puzzle.size < UIntLimit
      modifies puzzle.cells
      ensures r.Some? <==> HasCompletion(old(puzzle.ToList()), puzzle.size, puzzle.blockSize, 0, 0)
      ensures r.Some? ==> r.value == puzzle
      ensures r.Some? ==> Completes(puzzle.ToList(), old(puzzle.ToList()), puzzle.size, puzzle.blockSize, 0, 0)
      ensures r.None? ==> puzzle.ToList() == old(puzzle.ToList())
    {
      var solved := Dfs(0, 0);
      if solved {
        return Some(puzzle);
      }
      return None;
    }
  }

  /** The three scans of `_is_excluded` together find exactly the values some unit of (row, col) holds. */
  lemma ScanMeaning(m: Matrix, n: nat, b: nat, row: nat, col: nat, val: nat)
    requires n == b * b && IsSquare(m, n) && row < n && col < n
    ensures b > 0
    ensures (val in m[row] || val in Column(m, col)
          || exists r, c :: 0 <= r < n && 0 <= c < n && BlockIndex(b, r, c) == BlockIndex(b, row, col) && m[r][c] == val)
        <==> SeenFrom(m, n, b, row, col, val)
  {
    if val in m[row] {
      var c :| 0 <= c < n && m[row][c] == val;
      assert SameUnit(b, row, col, row, c);
    }
    if val in Column(m, col) {
      var r :| 0 <= r < n && Column(m, col)[r] == val;
      assert SameUnit(b, row, col, r, col);
    }
  }
}
