/**
 * The first-fail backtracking solver (src/solvers/first_fail_solver.py).
 *
 * A `State` keeps, next to the grid, the set of free (empty) cells and, for
 * each row, column and block, the set of values still available there. The
 * search repeatedly picks the free cell with the fewest values available in
 * its row, column and block (minimum remaining values), tries each of them
 * and undoes the assignment when the recursion fails.
 *
 * `Consistent` is the invariant the state keeps: each domain is 1..n minus
 * the values its row, column or block already holds, the free variables are
 * exactly the empty cells, and no rule of the puzzle is broken.
 */
module FirstFailSolver {
  import opened Wrappers
  import opened Grid

  /** `Variable`: a cell's (row index, column index, block index). */
  datatype Variable = Variable(row: nat, col: nat, block: nat)

  /** `set(range(1, n + 1))`. */
  function AllValues(n: nat): (values: set<nat>)
    ensures forall v :: v in values <==> 1 <= v <= n
  {
    if n == 0 then {} else AllValues(n - 1) + {n}
  }

  /* ---------------------------------------------------------------------- */
  /* The domains a grid value determines                                    */
  /* ---------------------------------------------------------------------- */

  /** The values of 1..n that row `r` does not hold. */
  ghost function RowDomain(m: Matrix, n: nat, r: nat): set<nat>
    requires IsSquare(m, n) && r < n
  {
    set v | v in AllValues(n) && forall c :: 0 <= c < n ==> m[r][c] != v
  }

  /** The values of 1..n that column `c` does not hold. */
  ghost function ColDomain(m: Matrix, n: nat, c: nat): set<nat>
    requires IsSquare(m, n) && c < n
  {
    set v | v in AllValues(n) && forall r :: 0 <= r < n ==> m[r][c] != v
  }

  /** The values of 1..n that block `i` does not hold. */
  ghost function BlockDomain(m: Matrix, n: nat, b: nat, i: nat): set<nat>
    requires n == b * b && IsSquare(m, n)
  {
    set v | v in AllValues(n) && forall r, c :: 0 <= r < n && 0 <= c < n && BlockIndex(b, r, c) == i ==> m[r][c] != v
  }

  ghost function RowDomains(m: Matrix, n: nat): seq<set<nat>>
    requires IsSquare(m, n)
  {
    seq(n, r requires 0 <= r < n => RowDomain(m, n, r))
  }

  ghost function ColDomains(m: Matrix, n: nat): seq<set<nat>>
    requires IsSquare(m, n)
  {
    seq(n, c requires 0 <= c < n => ColDomain(m, n, c))
  }

  ghost function BlockDomains(m: Matrix, n: nat, b: nat): seq<set<nat>>
    requires n == b * b && IsSquare(m, n)
  {
    seq(n, i requires 0 <= i < n => BlockDomain(m, n, b, i))
  }

  /** The variables of the empty cells that come before (row, col) in row-major order. */
  ghost function FreeCells(m: Matrix, n: nat, b: nat, row: nat, col: nat): set<Variable>
    requires n == b * b && IsSquare(m, n)
  {
    set r: nat, c: nat | r < n && c < n && Before(r, c, row, col) && m[r][c] == 0 :: Variable(r, c, BlockIndex(b, r, c))
  }

  /** The variables of all empty cells. */
  ghost function FreeVariables(m: Matrix, n: nat, b: nat): set<Variable>
    requires n == b * b && IsSquare(m, n)
  {
    FreeCells(m, n, b, n, 0)
  }

  /** A value is in the row, column and block domains of a cell exactly when no unit of the cell holds it. */
  lemma InDomainsIffUnseen(m: Matrix, n: nat, b: nat, r: nat, c: nat, x: nat)
    requires n == b * b && IsSquare(m, n) && r < n && c < n && m[r][c] == 0
    ensures b > 0
    ensures x in RowDomain(m, n, r) && x in ColDomain(m, n, c) && x in BlockDomain(m, n, b, BlockIndex(b, r, c))
        <==> 1 <= x <= n && !SeenFrom(m, n, b, r, c, x)
  {
    if 1 <= x <= n && !SeenFrom(m, n, b, r, c, x) {
      forall c2 | 0 <= c2 < n ensures m[r][c2] != x {
        assert SameUnit(b, r, c, r, c2);
      }
      forall r2 | 0 <= r2 < n ensures m[r2][c] != x {
        assert SameUnit(b, r, c, r2, c);
      }
      forall r2, c2 | 0 <= r2 < n && 0 <= c2 < n && BlockIndex(b, r2, c2) == BlockIndex(b, r, c)
        ensures m[r2][c2] != x
      {
        assert SameUnit(b, r, c, r2, c2);
      }
    }
  }

  /* ---------------------------------------------------------------------- */
  /* The state as a value, and what assign and remove_assignment do to it   */
  /* ---------------------------------------------------------------------- */

  /** The value of a `State`: grid contents, free variables and the three lists of domains. */
  datatype StateView = StateView(grid: Matrix, free: set<Variable>,
                                 rows: seq<set<nat>>, cols: seq<set<nat>>, blocks: seq<set<nat>>)

  /** The indices of `v` are inside the grid and the three domain lists. */
  predicate Addresses(s: StateView, v: Variable)
  {
    v.row < |s.grid| && v.col < |s.grid[v.row]| && v.row < |s.rows| && v.col < |s.cols| && v.block < |s.blocks|
  }

  /** `domain(v)`: the values available in the row, the column and the block of `v`. */
  function Domain(s: StateView, v: Variable): (d: set<nat>)
    requires Addresses(s, v)
    ensures d <= s.rows[v.row] && d <= s.cols[v.col] && d <= s.blocks[v.block]
  {
    s.rows[v.row] * s.cols[v.col] * s.blocks[v.block]
  }

  /** The state invariant of the search. */
  ghost predicate Consistent(s: StateView, n: nat, b: nat)
  {
    && n == b * b && IsSquare(s.grid, n)
    && NoRepeats(s.grid, b) && ValuesInRange(s.grid, n)
    && s.rows == RowDomains(s.grid, n)
    && s.cols == ColDomains(s.grid, n)
    && s.blocks == BlockDomains(s.grid, n, b)
    && s.free == FreeVariables(s.grid, n, b)
  }

  /** The new state `assign(v, x)` leaves. */
  function AssignSpec(s: StateView, v: Variable, x: nat): StateView
    requires Addresses(s, v)
  {
    StateView(Update(s.grid, v.row, v.col, x), s.free - {v},
              s.rows[v.row := s.rows[v.row] - {x}],
              s.cols[v.col := s.cols[v.col] - {x}],
              s.blocks[v.block := s.blocks[v.block] - {x}])
  }

  /** The new state the intended `remove_assignment(v)` leaves. */
  function RemoveSpec(s: StateView, v: Variable): StateView
    requires Addresses(s, v)
  {
    var x := s.grid[v.row][v.col];
    StateView(Update(s.grid, v.row, v.col, 0), s.free + {v},
              s.rows[v.row := s.rows[v.row] + {x}],
              s.cols[v.col := s.cols[v.col] + {x}],
              s.blocks[v.block := s.blocks[v.block] + {x}])
  }

  /**
   * The new state `remove_assignment(v)` leaves as written: the free set and
   * the cell are reset, then the misspelt attribute raises before any domain
   * is touched.
   */
  function RemoveAsWrittenSpec(s: StateView, v: Variable): StateView
    requires Addresses(s, v)
  {
    StateView(Update(s.grid, v.row, v.col, 0), s.free + {v}, s.rows, s.cols, s.blocks)
  }

  /** A free variable names an empty cell and its own block. */
  lemma FreeVariableIsEmptyCell(s: StateView, n: nat, b: nat, v: Variable)
    requires Consistent(s, n, b) && v in s.free
    ensures v.row < n && v.col < n && v.block == BlockIndex(b, v.row, v.col) && v.block < n
    ensures Addresses(s, v) && s.grid[v.row][v.col] == 0
  {
  }

  /** `domain(v)` of a free variable is the set of values no unit of its cell holds yet. */
  lemma DomainIsUnseenValues(s: StateView, n: nat, b: nat, v: Variable, x: nat)
    requires Consistent(s, n, b) && v in s.free
    ensures Addresses(s, v)
    ensures x in Domain(s, v) <==> 1 <= x <= n && !SeenFrom(s.grid, n, b, v.row, v.col, x)
  {
    FreeVariableIsEmptyCell(s, n, b, v);
    InDomainsIffUnseen(s.grid, n, b, v.row, v.col, x);
  }

  /** Removing the assignment just made restores the state exactly. */
  lemma RemoveUndoesAssign(s: StateView, v: Variable, x: nat)
    requires Addresses(s, v) && v in s.free && s.grid[v.row][v.col] == 0 && x in Domain(s, v)
    ensures Addresses(AssignSpec(s, v, x), v)
    ensures RemoveSpec(AssignSpec(s, v, x), v) == s
  {
    var t := AssignSpec(s, v, x);
    assert t.grid[v.row][v.col] == x;
    UpdateUndo(s.grid, v.row, v.col, x);
    assert t.free + {v} == s.free;
    assert t.rows[v.row] + {x} == s.rows[v.row];
    assert t.cols[v.col] + {x} == s.cols[v.col];
    assert t.blocks[v.block] + {x} == s.blocks[v.block];
  }

  /** As written, the first backtrack leaves the domains without the value it clears. */
  lemma RemoveAsWrittenLosesValue(s: StateView, v: Variable, x: nat)
    requires Addresses(s, v) && v in s.free && s.grid[v.row][v.col] == 0 && x in Domain(s, v)
    ensures Addresses(AssignSpec(s, v, x), v)
    ensures x !in RemoveAsWrittenSpec(AssignSpec(s, v, x), v).rows[v.row]
    ensures RemoveAsWrittenSpec(AssignSpec(s, v, x), v) != s
  {
    var t := RemoveAsWrittenSpec(AssignSpec(s, v, x), v);
    assert x in s.rows[v.row] && x !in t.rows[v.row];
  }

  /** The row domains of a grid after an empty cell gets a value. */
  lemma RowDomainsAfterPlace(m: Matrix, n: nat, r: nat, c: nat, x: nat)
    requires IsSquare(m, n) && r < n && c < n && m[r][c] == 0 && x > 0
    ensures IsSquare(Update(m, r, c, x), n)
    ensures RowDomains(Update(m, r, c, x), n) == RowDomains(m, n)[r := RowDomains(m, n)[r] - {x}]
  {
    var m' := Update(m, r, c, x);
    forall i | 0 <= i < n ensures RowDomain(m', n, i) == RowDomains(m, n)[r := RowDomains(m, n)[r] - {x}][i] {
      if i == r {
        assert forall v :: v in RowDomain(m', n, i) <==> v in RowDomain(m, n, i) - {x} by {
          forall v ensures v in RowDomain(m', n, i) <==> v in RowDomain(m, n, i) - {x} {
            if v in RowDomain(m, n, i) - {x} {
              assert forall c2 :: 0 <= c2 < n ==> m'[i][c2] != v;
            }
          }
        }
      } else {
        assert forall c2 :: 0 <= c2 < n ==> m'[i][c2] == m[i][c2];
      }
    }
  }

  /** The column domains of a grid after an empty cell gets a value. */
  lemma ColDomainsAfterPlace(m: Matrix, n: nat, r: nat, c: nat, x: nat)
    requires IsSquare(m, n) && r < n && c < n && m[r][c] == 0 && x > 0
    ensures IsSquare(Update(m, r, c, x), n)
    ensures ColDomains(Update(m, r, c, x), n) == ColDomains(m, n)[c := ColDomains(m, n)[c] - {x}]
  {
    var m' := Update(m, r, c, x);
    forall j | 0 <= j < n ensures ColDomain(m', n, j) == ColDomains(m, n)[c := ColDomains(m, n)[c] - {x}][j] {
      if j == c {
        assert forall v :: v in ColDomain(m', n, j) <==> v in ColDomain(m, n, j) - {x} by {
          forall v ensures v in ColDomain(m', n, j) <==> v in ColDomain(m, n, j) - {x} {
            if v in ColDomain(m, n, j) - {x} {
              assert forall r2 :: 0 <= r2 < n ==> m'[r2][j] != v;
            }
          }
        }
      } else {
        assert forall r2 :: 0 <= r2 < n ==> m'[r2][j] == m[r2][j];
      }
    }
  }

  /** The block domains of a grid after an empty cell gets a value. */
  lemma BlockDomainsAfterPlace(m: Matrix, n: nat, b: nat, r: nat, c: nat, x: nat)
    requires n == b * b && IsSquare(m, n) && r < n && c < n && m[r][c] == 0 && x > 0
    requires BlockIndex(b, r, c) < n
    ensures IsSquare(Update(m, r, c, x), n)
    ensures var i := BlockIndex(b, r, c);
      BlockDomains(Update(m, r, c, x), n, b) == BlockDomains(m, n, b)[i := BlockDomains(m, n, b)[i] - {x}]
  {
    var m' := Update(m, r, c, x);
    var i := BlockIndex(b, r, c);
    forall k | 0 <= k < n ensures BlockDomain(m', n, b, k) == BlockDomains(m, n, b)[i := BlockDomains(m, n, b)[i] - {x}][k] {
      if k == i {
        assert forall v :: v in BlockDomain(m', n, b, k) <==> v in BlockDomain(m, n, b, k) - {x} by {
          forall v ensures v in BlockDomain(m', n, b, k) <==> v in BlockDomain(m, n, b, k) - {x} {
            if v in BlockDomain(m, n, b, k) - {x} {
              assert forall r2, c2 :: 0 <= r2 < n && 0 <= c2 < n && BlockIndex(b, r2, c2) == k ==> m'[r2][c2] != v;
            }
          }
        }
      } else {
        assert forall r2, c2 :: 0 <= r2 < n && 0 <= c2 < n && BlockIndex(b, r2, c2) == k ==> m'[r2][c2] == m[r2][c2];
      }
    }
  }

  /** Writing a value no unit of an empty cell holds keeps the puzzle's rules. */
  lemma PlaceKeepsRules(m: Matrix, n: nat, b: nat, r: nat, c: nat, x: nat)
    requires n == b * b && IsSquare(m, n) && r < n && c < n && m[r][c] == 0
    requires 1 <= x <= n && !SeenFrom(m, n, b, r, c, x)
    requires NoRepeats(m, b) && ValuesInRange(m, n)
    ensures IsSquare(Update(m, r, c, x), n)
    ensures NoRepeats(Update(m, r, c, x), b) && ValuesInRange(Update(m, r, c, x), n)
  {
    var m' := Update(m, r, c, x);
    forall r1: nat, c1: nat | r1 < n && c1 < n && m'[r1][c1] != 0 ensures ConsistentAt(m', b, r1, c1) {
      forall r2: nat, c2: nat | r2 < n && c2 < n && (r2 != r1 || c2 != c1) && SameUnit(b, r1, c1, r2, c2)
        ensures m'[r2][c2] != m'[r1][c1]
      {
        if r1 == r && c1 == c {
          assert m[r2][c2] != x;
        } else if r2 == r && c2 == c {
          assert SameUnit(b, r, c, r1, c1);
          assert m[r1][c1] != x;
        } else {
          assert ConsistentAt(m, b, r1, c1);
        }
      }
    }
  }

  /** The free variables after an empty cell gets a value. */
  lemma FreeAfterPlace(m: Matrix, n: nat, b: nat, r: nat, c: nat, x: nat)
    requires n == b * b && IsSquare(m, n) && r < n && c < n && m[r][c] == 0 && x > 0
    ensures IsSquare(Update(m, r, c, x), n)
    ensures FreeVariables(Update(m, r, c, x), n, b) == FreeVariables(m, n, b) - {Variable(r, c, BlockIndex(b, r, c))}
  {
    var m' := Update(m, r, c, x);
    var v := Variable(r, c, BlockIndex(b, r, c));
    forall w ensures w in FreeVariables(m', n, b) <==> w in FreeVariables(m, n, b) - {v} {
      if w in FreeVariables(m, n, b) - {v} {
        var r2: nat, c2: nat :| r2 < n && c2 < n && Before(r2, c2, n, 0) && m[r2][c2] == 0
          && w == Variable(r2, c2, BlockIndex(b, r2, c2));
        assert m'[r2][c2] == 0;
      }
    }
  }

  /** `assign` keeps the invariant and uses up one free variable. */
  lemma AssignKeepsConsistent(s: StateView, n: nat, b: nat, v: Variable, x: nat)
    requires Consistent(s, n, b) && v in s.free
    requires Addresses(s, v) && x in Domain(s, v)
    ensures Consistent(AssignSpec(s, v, x), n, b)
    ensures |AssignSpec(s, v, x).free| == |s.free| - 1
  {
    FreeVariableIsEmptyCell(s, n, b, v);
    DomainIsUnseenValues(s, n, b, v, x);
    var m := s.grid;
    RowDomainsAfterPlace(m, n, v.row, v.col, x);
    ColDomainsAfterPlace(m, n, v.row, v.col, x);
    BlockDomainsAfterPlace(m, n, b, v.row, v.col, x);
    PlaceKeepsRules(m, n, b, v.row, v.col, x);
    FreeAfterPlace(m, n, b, v.row, v.col, x);
  }

  /** With no free variable left, a consistent state holds a solved grid. */
  lemma ConsistentWithoutFreeIsSolved(s: StateView, n: nat, b: nat)
    requires Consistent(s, n, b) && s.free == {}
    ensures IsSolution(s.grid, b) && HasSolution(s.grid, n, b)
  {
    forall r, c | 0 <= r < n && 0 <= c < n ensures 1 <= s.grid[r][c] {
      assert Variable(r, c, BlockIndex(b, r, c)) !in s.free;
    }
  }

  /** Some solved grid keeps every filled cell of `m0`. */
  ghost predicate HasSolution(m0: Matrix, n: nat, b: nat)
    requires n == b * b && IsSquare(m0, n)
  {
    exists m :: IsSquare(m, n) && IsSolution(m, b) && Extends(m, m0, n)
  }

  /** The value a solution puts in a free cell is in that cell's domain. */
  lemma SolutionValueInDomain(s: StateView, n: nat, b: nat, v: Variable, m: Matrix)
    requires Consistent(s, n, b) && v in s.free
    requires IsSquare(m, n) && IsSolution(m, b) && Extends(m, s.grid, n)
    ensures Addresses(s, v) && v.row < n && v.col < n && m[v.row][v.col] in Domain(s, v)
  {
    FreeVariableIsEmptyCell(s, n, b, v);
    var x := m[v.row][v.col];
    DomainIsUnseenValues(s, n, b, v, x);
  }

  /** A solution of the grid that puts `x` in `v` is a solution of the grid after `assign(v, x)`. */
  lemma SolutionExtendsAssignment(s: StateView, n: nat, b: nat, v: Variable, x: nat, m: Matrix)
    requires Consistent(s, n, b) && v in s.free
    requires IsSquare(m, n) && Extends(m, s.grid, n)
    requires Addresses(s, v) && v.row < n && v.col < n && m[v.row][v.col] == x
    ensures IsSquare(AssignSpec(s, v, x).grid, n) && Extends(m, AssignSpec(s, v, x).grid, n)
  {
  }

  /* ---------------------------------------------------------------------- */
  /* from_grid: the scan over the cells                                     */
  /* ---------------------------------------------------------------------- */

  /** The grid with the cells from (row, col) on cleared: what the scan has seen so far. */
  ghost function Prefix(m: Matrix, n: nat, row: nat, col: nat): (p: Matrix)
    requires IsSquare(m, n)
    ensures IsSquare(p, n)
  {
    seq(n, r requires 0 <= r < n => seq(n, c requires 0 <= c < n => if Before(r, c, row, col) then m[r][c] else 0))
  }

  /** The state of the scan of `from_grid` once every cell before (row, col) is processed. */
  ghost predicate Scanned(m: Matrix, n: nat, b: nat, row: nat, col: nat, s: StateView)
    requires n == b * b && IsSquare(m, n)
  {
    && s.grid == Prefix(m, n, row, col)
    && NoRepeats(s.grid, b) && ValuesInRange(s.grid, n)
    && s.rows == RowDomains(s.grid, n)
    && s.cols == ColDomains(s.grid, n)
    && s.blocks == BlockDomains(s.grid, n, b)
    && s.free == FreeCells(m, n, b, row, col)
  }

  /** Before the scan: all domains are 1..n and nothing is free yet. */
  lemma ScanStart(m: Matrix, n: nat, b: nat)
    requires n == b * b && IsSquare(m, n)
    ensures var all := seq(n, _ => AllValues(n));
      Scanned(m, n, b, 0, 0, StateView(Prefix(m, n, 0, 0), {}, all, all, all))
  {
    var p := Prefix(m, n, 0, 0);
    var all := seq(n, _ => AllValues(n));
    assert forall r, c :: 0 <= r < n && 0 <= c < n ==> p[r][c] == 0;
    forall i | 0 <= i < n
      ensures RowDomain(p, n, i) == AllValues(n) && ColDomain(p, n, i) == AllValues(n)
      ensures BlockDomain(p, n, b, i) == AllValues(n)
    {
      assert forall v :: v in RowDomain(p, n, i) <==> v in AllValues(n);
      assert forall v :: v in ColDomain(p, n, i) <==> v in AllValues(n);
      assert forall v :: v in BlockDomain(p, n, b, i) <==> v in AllValues(n);
    }
    assert RowDomains(p, n) == all;
    assert ColDomains(p, n) == all;
    assert BlockDomains(p, n, b) == all;
    assert FreeCells(m, n, b, 0, 0) == {};
  }

  /** Processing cell (row, col): the grid seen so far gains that cell. */
  lemma PrefixStep(m: Matrix, n: nat, row: nat, col: nat)
    requires IsSquare(m, n) && row < n && col < n
    ensures Prefix(m, n, row, col)[row][col] == 0
    ensures Prefix(m, n, row, col + 1) == Update(Prefix(m, n, row, col), row, col, m[row][col])
  {
    var p, q := Prefix(m, n, row, col), Prefix(m, n, row, col + 1);
    var u := Update(p, row, col, m[row][col]);
    forall r | 0 <= r < n ensures q[r] == u[r] {
      assert forall c :: 0 <= c < n ==> q[r][c] == u[r][c];
    }
  }

  /** An empty cell leaves the domains alone and becomes a free variable. */
  lemma ScanEmpty(m: Matrix, n: nat, b: nat, row: nat, col: nat, s: StateView)
    requires n == b * b && IsSquare(m, n) && row < n && col < n
    requires Scanned(m, n, b, row, col, s) && m[row][col] == 0
    ensures Scanned(m, n, b, row, col + 1,
                    s.(grid := Prefix(m, n, row, col + 1), free := s.free + {Variable(row, col, BlockIndex(b, row, col))}))
  {
    PrefixStep(m, n, row, col);
    UpdateSame(Prefix(m, n, row, col), row, col);
    FreeCellsStep(m, n, b, row, col);
  }

  /** A filled cell whose value is in its three domains is taken out of them. */
  lemma ScanFilled(m: Matrix, n: nat, b: nat, row: nat, col: nat, s: StateView)
    requires n == b * b && IsSquare(m, n) && row < n && col < n
    requires Scanned(m, n, b, row, col, s)
    requires var x, i := m[row][col], BlockIndex(b, row, col);
      x != 0 && i < |s.blocks| && x in s.rows[row] && x in s.cols[col] && x in s.blocks[i]
    ensures var x, i := m[row][col], BlockIndex(b, row, col);
      Scanned(m, n, b, row, col + 1,
              StateView(Prefix(m, n, row, col + 1), s.free,
                        s.rows[row := s.rows[row] - {x}],
                        s.cols[col := s.cols[col] - {x}],
                        s.blocks[i := s.blocks[i] - {x}]))
  {
    var p, x := s.grid, m[row][col];
    PrefixStep(m, n, row, col);
    InDomainsIffUnseen(p, n, b, row, col, x);
    RowDomainsAfterPlace(p, n, row, col, x);
    ColDomainsAfterPlace(p, n, row, col, x);
    BlockDomainsAfterPlace(p, n, b, row, col, x);
    PlaceKeepsRules(p, n, b, row, col, x);
    FreeCellsStep(m, n, b, row, col);
  }

  /** A filled cell whose value is missing from one of its domains breaks a rule of the whole grid. */
  lemma ScanConflict(m: Matrix, n: nat, b: nat, row: nat, col: nat, s: StateView)
    requires n == b * b && IsSquare(m, n) && row < n && col < n
    requires Scanned(m, n, b, row, col, s)
    requires var x, i := m[row][col], BlockIndex(b, row, col);
      x != 0 && i < |s.blocks| && !(x in s.rows[row] && x in s.cols[col] && x in s.blocks[i])
    ensures !(NoRepeats(m, b) && ValuesInRange(m, n))
  {
    var p, x := s.grid, m[row][col];
    PrefixStep(m, n, row, col);
    InDomainsIffUnseen(p, n, b, row, col, x);
    if x <= n {
      var r2, c2 :| 0 <= r2 < n && 0 <= c2 < n && SameUnit(b, row, col, r2, c2) && p[r2][c2] == x;
      assert Before(r2, c2, row, col) && m[r2][c2] == x;
      assert !ConsistentAt(m, b, row, col);
    }
  }

  lemma {:induction false} FreeCellsStep(m: Matrix, n: nat, b: nat, row: nat, col: nat)
    requires n == b * b && IsSquare(m, n) && row < n && col < n
    ensures FreeCells(m, n, b, row, col + 1)
         == FreeCells(m, n, b, row, col) + (if m[row][col] == 0 then {Variable(row, col, BlockIndex(b, row, col))} else {})
  {
  }

  /** The end of one row of the scan is the start of the next. */
  lemma ScanNextRow(m: Matrix, n: nat, b: nat, row: nat, s: StateView)
    requires n == b * b && IsSquare(m, n)
    requires Scanned(m, n, b, row, n, s)
    ensures Scanned(m, n, b, row + 1, 0, s)
  {
    assert Prefix(m, n, row, n) == Prefix(m, n, row + 1, 0) by {
      forall r | 0 <= r < n ensures Prefix(m, n, row, n)[r] == Prefix(m, n, row + 1, 0)[r] {
      }
    }
    assert FreeCells(m, n, b, row, n) == FreeCells(m, n, b, row + 1, 0);
  }

  /** After the last row the scan has built a consistent state of the whole grid. */
  lemma ScanEnd(m: Matrix, n: nat, b: nat, s: StateView)
    requires n == b * b && IsSquare(m, n)
    requires Scanned(m, n, b, n, 0, s)
    ensures s.grid == m && Consistent(s, n, b)
  {
    assert forall r :: 0 <= r < n ==> Prefix(m, n, n, 0)[r] == m[r];
  }

  /** Every solution extending `m0` puts one of `vals` into cell (r, c). */
  ghost predicate SolutionsPick(m0: Matrix, n: nat, b: nat, r: nat, c: nat, vals: set<nat>)
    requires n == b * b && IsSquare(m0, n)
  {
    forall m :: IsSquare(m, n) && IsSolution(m, b) && Extends(m, m0, n) && r < n && c < n ==> m[r][c] in vals
  }

  /** The search over a variable's domain misses no solution. */
  lemma SolutionsPickDomain(s: StateView, n: nat, b: nat, v: Variable)
    requires Consistent(s, n, b) && v in s.free
    ensures Addresses(s, v) && SolutionsPick(s.grid, n, b, v.row, v.col, Domain(s, v))
  {
    FreeVariableIsEmptyCell(s, n, b, v);
    forall m | IsSquare(m, n) && IsSolution(m, b) && Extends(m, s.grid, n) && v.row < n && v.col < n
      ensures m[v.row][v.col] in Domain(s, v)
    {
      SolutionValueInDomain(s, n, b, v, m);
    }
  }

  /** A value whose assignment has no solution can be dropped from the candidates. */
  lemma SolutionsPickRemove(s: StateView, n: nat, b: nat, v: Variable, x: nat, vals: set<nat>)
    requires Consistent(s, n, b) && v in s.free && Addresses(s, v) && x in Domain(s, v)
    requires SolutionsPick(s.grid, n, b, v.row, v.col, vals)
    requires Consistent(AssignSpec(s, v, x), n, b) && !HasSolution(AssignSpec(s, v, x).grid, n, b)
    ensures SolutionsPick(s.grid, n, b, v.row, v.col, vals - {x})
  {
    forall m | IsSquare(m, n) && IsSolution(m, b) && Extends(m, s.grid, n) && v.row < n && v.col < n
      ensures m[v.row][v.col] in vals - {x}
    {
      if m[v.row][v.col] == x {
        SolutionExtendsAssignment(s, n, b, v, x, m);
        assert false;
      }
    }
  }

  /** No candidate left: no solution at all. */
  lemma SolutionsPickNone(m0: Matrix, n: nat, b: nat, r: nat, c: nat)
    requires n == b * b && IsSquare(m0, n) && r < n && c < n && SolutionsPick(m0, n, b, r, c, {})
    ensures !HasSolution(m0, n, b)
  {
  }

  /** A solution reached after `assign(v, x)` on an empty cell solves the grid before it. */
  lemma AssignedSolutionSolves(s: StateView, n: nat, b: nat, v: Variable, x: nat, m: Matrix)
    requires Consistent(s, n, b) && v in s.free && Addresses(s, v) && x in Domain(s, v)
    requires IsSquare(m, n) && IsSquare(AssignSpec(s, v, x).grid, n)
    requires IsSolution(m, b) && Extends(m, AssignSpec(s, v, x).grid, n)
    ensures Extends(m, s.grid, n) && HasSolution(s.grid, n, b)
  {
    FreeVariableIsEmptyCell(s, n, b, v);
  }

  /* ---------------------------------------------------------------------- */
  /* The mutable state and the solver                                       */
  /* ---------------------------------------------------------------------- */

  /**
   * `State`: a frozen dataclass whose free set and domain lists change in
   * place; the fields here are the values those containers hold.
   */
  class State {
    const grid: SudokuGrid
    var freeVariables: set<Variable>
    var rowDomains: seq<set<nat>>
    var colDomains: seq<set<nat>>
    var blockDomains: seq<set<nat>>

    constructor (grid: SudokuGrid, freeVariables: set<Variable>,
                 rowDomains: seq<set<nat>>, colDomains: seq<set<nat>>, blockDomains: seq<set<nat>>)
      ensures this.grid == grid && this.freeVariables == freeVariables
      ensures this.rowDomains == rowDomains && this.colDomains == colDomains && this.blockDomains == blockDomains
    {
      this.grid := grid;
      this.freeVariables := freeVariables;
      this.rowDomains := rowDomains;
      this.colDomains := colDomains;
      this.blockDomains := blockDomains;
    }

    /** The value of the state. */
    function View(): StateView
      reads this, grid.cells
      requires grid.Valid()
    {
      StateView(grid.ToList(), freeVariables, rowDomains, colDomains, blockDomains)
    }

    /** The invariant the search keeps on this state. */
    ghost predicate Invariant()
      reads this, grid.cells
    {
      grid.Valid() && Consistent(View(), grid.size, grid.blockSize)
    }

    /**
     * `assign(variable, value)`: the variable stops being free, the cell gets
     * the value and the value leaves the three domains. A variable that is
     * not free or a value missing from a domain makes `set.remove` raise
     * `KeyError`; callers never do that.
     */
    method Assign(v: Variable, x: nat)
      requires grid.Valid() && Addresses(View(), v)
      requires v in freeVariables && x in Domain(View(), v) && x < UIntLimit
      modifies this, grid.cells
      ensures View() == AssignSpec(old(View()), v, x)
    {
      freeVariables := freeVariables - {v};
      var err := grid.Set(v.row, v.col, x);
      rowDomains := rowDomains[v.row := rowDomains[v.row] - {x}];
      colDomains := colDomains[v.col := colDomains[v.col] - {x}];
      blockDomains := blockDomains[v.block := blockDomains[v.block] - {x}];
    }

    /** `remove_assignment(variable)` as intended: the exact inverse of `assign`. */
    method RemoveAssignment(v: Variable)
      requires grid.Valid() && Addresses(View(), v)
      modifies this, grid.cells
      ensures View() == RemoveSpec(old(View()), v)
    {
      freeVariables := freeVariables + {v};
      var value := grid.Get(v.row, v.col);
      var err := grid.Set(v.row, v.col, 0);
      rowDomains := rowDomains[v.row := rowDomains[v.row] + {value.value}];
      colDomains := colDomains[v.col := colDomains[v.col] + {value.value}];
      blockDomains := blockDomains[v.block := blockDomains[v.block] + {value.value}];
    }

    /**
     * `remove_assignment(variable)` as written: after resetting the free set
     * and the cell it reads the attribute `row_domais`, which a slotted
     * dataclass does not have, and raises `AttributeError`.
     */
    method RemoveAssignmentAsWritten(v: Variable) returns (err: Error)
      requires grid.Valid() && Addresses(View(), v)
      modifies this, grid.cells
      ensures err == AttributeError("row_domais")
      ensures View() == RemoveAsWrittenSpec(old(View()), v)
    {
      freeVariables := freeVariables + {v};
      var value := grid.Get(v.row, v.col);
      var e := grid.Set(v.row, v.col, 0);
      return AttributeError("row_domais");
    }

    /**
     * `from_grid(grid)`: scans the cells in row-major order; an empty cell
     * becomes a free variable, a filled one is removed from its row, column
     * and block domains, in that order. A value already removed, or outside
     * 1..n, makes `set.remove` raise `KeyError`. The state holds a copy of
     * the grid.
     */
    static method FromGrid(grid: SudokuGrid) returns (r: Result<State, Error>)
      requires grid.Valid()
      ensures r.Ok? <==> NoRepeats(grid.ToList(), grid.blockSize) && ValuesInRange(grid.ToList(), grid.size)
      ensures r.Err? ==> r.error.KeyError?
      ensures r.Ok? ==> fresh(r.value) && fresh(r.value.grid) && fresh(r.value.grid.cells)
      ensures r.Ok? ==> r.value.Invariant() && r.value.grid.size == grid.size && r.value.grid.blockSize == grid.blockSize
      ensures r.Ok? ==> r.value.grid.ToList() == grid.ToList()
    {
      var n, b := grid.size, grid.blockSize;
      ghost var m := grid.ToList();
      var free: set<Variable> := {};
      var values := AllValues(n);
      var rows, cols, blocks := seq(n, _ => values), seq(n, _ => values), seq(n, _ => values);
      ScanStart(m, n, b);
      for row := 0 to n
        invariant Scanned(m, n, b, row, 0, StateView(Prefix(m, n, row, 0), free, rows, cols, blocks))
      {
        for col := 0 to n
          invariant Scanned(m, n, b, row, col, StateView(Prefix(m, n, row, col), free, rows, cols, blocks))
        {
          ghost var s := StateView(Prefix(m, n, row, col), free, rows, cols, blocks);
          var block := BlockIndex(b, row, col);
          var cell := grid.Get(row, col);
          var val := cell.value;
          if val == 0 {
            ScanEmpty(m, n, b, row, col, s);
            free := free + {Variable(row, col, block)};
            continue;
          }
          if val !in rows[row] || val !in cols[col] || val !in blocks[block] {
            ScanConflict(m, n, b, row, col, s);
            return Err(KeyError(val));
          }
          ScanFilled(m, n, b, row, col, s);
          rows := rows[row := rows[row] - {val}];
          cols := cols[col := cols[col] - {val}];
          blocks := blocks[block := blocks[block] - {val}];
        }
        ScanNextRow(m, n, b, row, StateView(Prefix(m, n, row, n), free, rows, cols, blocks));
      }
      ScanEnd(m, n, b, StateView(Prefix(m, n, n, 0), free, rows, cols, blocks));
      var copy := grid.Copy();
      var state := new State(copy, free, rows, cols, blocks);
      return Ok(state);
    }
  }

  class FirstFailSudokuSolver {
    /** `_puzzle`: the grid the solver was given; the search works on a copy. */
    const puzzle: SudokuGrid
    const state: State

    constructor Wrap(puzzle: SudokuGrid, state: State)
      ensures this.puzzle == puzzle && this.state == state
    {
      this.puzzle := puzzle;
      this.state := state;
    }

    /** `FirstFailSudokuSolver(puzzle)`: `from_grid`'s `KeyError` propagates. */
    static method New(puzzle: SudokuGrid) returns (r: Result<FirstFailSudokuSolver, Error>)
      requires puzzle.Valid()
      ensures r.Ok? <==> NoRepeats(puzzle.ToList(), puzzle.blockSize) && ValuesInRange(puzzle.ToList(), puzzle.size)
      ensures r.Err? ==> r.error.KeyError?
      ensures r.Ok? ==> fresh(r.value) && fresh(r.value.state) && fresh(r.value.state.grid.cells)
      ensures r.Ok? ==> r.value.puzzle == puzzle && r.value.state.Invariant()
      ensures r.Ok? ==> r.value.state.grid.size == puzzle.size && r.value.state.grid.ToList() == puzzle.ToList()
    {
      var state := State.FromGrid(puzzle);
      if state.Err? {
        return Err(state.error);
      }
      var solver := new FirstFailSudokuSolver.Wrap(puzzle, state.value);
      return Ok(solver);
    }

    /**
     * `_choose_variable()`: `None` when nothing is free, otherwise a free
     * variable with the smallest domain, together with that domain. The
     * candidates are visited in an arbitrary order, as a Python set is; the
     * first smallest one seen wins.
     */
    method ChooseVariable() returns (r: Option<(Variable, set<nat>)>)
      requires state.grid.Valid()
      requires forall w :: w in state.freeVariables ==> Addresses(state.View(), w)
      ensures r.None? <==> state.freeVariables == {}
      ensures r.Some? ==> r.value.0 in state.freeVariables && r.value.1 == Domain(state.View(), r.value.0)
      ensures r.Some? ==> forall w :: w in state.freeVariables ==> |r.value.1| <= |Domain(state.View(), w)|
    {
      if |state.freeVariables| == 0 {
        return None;
      }
      var todo := state.freeVariables;
      var best :| best in todo;
      var bestDomain := Domain(state.View(), best);
      todo := todo - {best};
      while todo != {}
        invariant todo <= state.freeVariables && best in state.freeVariables
        invariant bestDomain == Domain(state.View(), best)
        invariant forall w :: w in state.freeVariables && w !in todo ==> |bestDomain| <= |Domain(state.View(), w)|
        decreases |todo|
      {
        var w :| w in todo;
        var d := Domain(state.View(), w);
        if |d| < |bestDomain| {
          best, bestDomain := w, d;
        }
        todo := todo - {w};
      }
      return Some((best, bestDomain));
    }

    /**
     * `_dfs()`: true exactly when no free variable is left at the end. On
     * success the grid is a solution keeping every filled cell; on failure
     * the state is as it was on entry and no such solution exists.
     */
    method Dfs() returns (solved: bool)
      requires state.Invariant() && state.grid.size < UIntLimit
      modifies state, state.grid.cells
      ensures state.Invariant()
      ensures solved <==> state.freeVariables == {}
      ensures !solved ==> state.View() == old(state.View())
      ensures solved ==> IsSolution(state.grid.ToList(), state.grid.blockSize)
      ensures solved ==> Extends(state.grid.ToList(), old(state.grid.ToList()), state.grid.size)
      ensures solved <==> HasSolution(old(state.grid.ToList()), state.grid.size, state.grid.blockSize)
      decreases |state.freeVariables|, 1
    {
      var n, b := state.grid.size, state.grid.blockSize;
      ghost var s0 := state.View();
      forall w | w in state.freeVariables ensures Addresses(s0, w) {
        FreeVariableIsEmptyCell(s0, n, b, w);
      }
      var varDom := ChooseVariable();
      if varDom.None? {
        ConsistentWithoutFreeIsSolved(s0, n, b);
        return true;
      }
      var (v, domain) := varDom.value;
      SolutionsPickDomain(s0, n, b, v);
      FreeVariableIsEmptyCell(s0, n, b, v);
      var remaining := domain;
      while remaining != {}
        invariant remaining <= domain
        invariant state.View() == s0
        invariant SolutionsPick(s0.grid, n, b, v.row, v.col, remaining)
        decreases |remaining|
      {
        var x :| x in remaining;
        DomainIsUnseenValues(s0, n, b, v, x);
        solved := TryValue(v, x);
        if solved {
          return;
        }
        SolutionsPickRemove(s0, n, b, v, x, remaining);
        remaining := remaining - {x};
      }
      SolutionsPickNone(s0.grid, n, b, v.row, v.col);
      return false;
    }

    /**
     * One pass of `_dfs`'s loop over the domain: assign the value, search
     * deeper and, when that fails, remove the assignment again.
     */
    method TryValue(v: Variable, x: nat) returns (solved: bool)
      requires state.Invariant() && state.grid.size < UIntLimit
      requires v in state.freeVariables && Addresses(state.View(), v) && x in Domain(state.View(), v)
      modifies state, state.grid.cells
      ensures state.Invariant()
      ensures solved <==> state.freeVariables == {}
      ensures !solved ==> state.View() == old(state.View())
      ensures !solved ==> Consistent(AssignSpec(old(state.View()), v, x), state.grid.size, state.grid.blockSize)
      ensures !solved ==> !HasSolution(AssignSpec(old(state.View()), v, x).grid, state.grid.size, state.grid.blockSize)
      ensures solved ==> IsSolution(state.grid.ToList(), state.grid.blockSize)
      ensures solved ==> Extends(state.grid.ToList(), old(state.grid.ToList()), state.grid.size)
      ensures solved ==> HasSolution(old(state.grid.ToList()), state.grid.size, state.grid.blockSize)
      decreases |state.freeVariables|, 0
    {
      var n, b := state.grid.size, state.grid.blockSize;
      ghost var s0 := state.View();
      AssignKeepsConsistent(s0, n, b, v, x);
      state.Assign(v, x);
      solved := Dfs();
      if solved {
        AssignedSolutionSolves(s0, n, b, v, x, state.grid.ToList());
        return;
      }
      state.RemoveAssignment(v);
      RemoveUndoesAssign(s0, v, x);
    }

    /**
     * `_dfs()` as written, with the `remove_assignment` that raises
     * `AttributeError`. The first failed pass of the loop over the domain
     * raises, so every pass ends the call: the search either succeeds without
     * ever backtracking or finds the chosen variable's domain empty. The
     * loop is therefore modelled as its first pass.
     */
    method DfsAsWritten() returns (r: Result<bool, Error>)
      requires state.Invariant() && state.grid.size < UIntLimit
      modifies state, state.grid.cells
      ensures r.Err? ==> r.error == AttributeError("row_domais")
      ensures r == Ok(true) ==> state.grid.Valid() && state.freeVariables == {}
      ensures r == Ok(true) ==> IsSolution(state.grid.ToList(), state.grid.blockSize)
      ensures r == Ok(true) ==> Extends(state.grid.ToList(), old(state.grid.ToList()), state.grid.size)
      ensures r == Ok(false) ==> state.View() == old(state.View())
      ensures r == Ok(false) ==> !HasSolution(old(state.grid.ToList()), state.grid.size, state.grid.blockSize)
      decreases |state.freeVariables|, 1
    {
      var n, b := state.grid.size, state.grid.blockSize;
      ghost var s0 := state.View();
      forall w | w in state.freeVariables ensures Addresses(s0, w) {
        FreeVariableIsEmptyCell(s0, n, b, w);
      }
      var varDom := ChooseVariable();
      if varDom.None? {
        ConsistentWithoutFreeIsSolved(s0, n, b);
        return Ok(true);
      }
      var (v, domain) := varDom.value;
      SolutionsPickDomain(s0, n, b, v);
      FreeVariableIsEmptyCell(s0, n, b, v);
      if domain == {} {
        SolutionsPickNone(s0.grid, n, b, v.row, v.col);
        return Ok(false);
      }
      var x :| x in domain;
      DomainIsUnseenValues(s0, n, b, v, x);
      r := TryValueAsWritten(v, x);
    }

    /**
     * One pass of the loop as written: assign, search deeper and, when that
     * fails, call the `remove_assignment` that raises. A pass never reports
     * plain failure.
     */
    method TryValueAsWritten(v: Variable, x: nat) returns (r: Result<bool, Error>)
      requires state.Invariant() && state.grid.size < UIntLimit
      requires v in state.freeVariables && Addresses(state.View(), v) && x in Domain(state.View(), v)
      modifies state, state.grid.cells
      ensures r.Err? ==> r.error == AttributeError("row_domais")
      ensures r.Ok? ==> r.value && state.grid.Valid() && state.freeVariables == {}
      ensures r.Ok? ==> IsSolution(state.grid.ToList(), state.grid.blockSize)
      ensures r.Ok? ==> Extends(state.grid.ToList(), old(state.grid.ToList()), state.grid.size)
      decreases |state.freeVariables|, 0
    {
      var n, b := state.grid.size, state.grid.blockSize;
      ghost var s0 := state.View();
      AssignKeepsConsistent(s0, n, b, v, x);
      state.Assign(v, x);
      r := DfsAsWritten();
      if r.Err? {
        return;
      }
      if r.value {
        AssignedSolutionSolves(s0, n, b, v, x, state.grid.ToList());
        return;
      }
      var err := state.RemoveAssignmentAsWritten(v);
      return Err(err);
    }

    /**
     * `run_algorithm()` as written: `TimeoutError` aside, it returns a
     * solution, returns `None` only when no solution exists, or raises the
     * `AttributeError` of the first backtrack. The puzzle passed in is left
     * alone in every case.
     */
    method RunAlgorithmAsWritten() returns (r: Result<Option<SudokuGrid>, Error>)
      requires state.Invariant() && state.grid.size < UIntLimit
      requires puzzle.Valid() && puzzle.cells != state.grid.cells
      modifies state, state.grid.cells
      ensures r.Err? ==> r.error == AttributeError("row_domais")
      ensures r.Ok? && r.value.Some? ==> r.value.value == state.grid && state.grid.Valid()
      ensures r.Ok? && r.value.Some? ==> IsSolution(state.grid.ToList(), state.grid.blockSize)
      ensures r.Ok? && r.value.Some? ==> Extends(state.grid.ToList(), old(state.grid.ToList()), state.grid.size)
      ensures r == Ok(None) ==> !HasSolution(old(state.grid.ToList()), state.grid.size, state.grid.blockSize)
      ensures r == Ok(None) ==> state.View() == old(state.View())
      ensures puzzle.ToList() == old(puzzle.ToList())
    {
      var solved := DfsAsWritten();
      if solved.Err? {
        return Err(solved.error);
      }
      if solved.value {
        return Ok(Some(state.grid));
      }
      return Ok(None);
    }

    /** `run_algorithm()`: the solved grid, or `None`; the puzzle passed in is left alone. */
    method RunAlgorithm() returns (r: Option<SudokuGrid>)
      requires state.Invariant() && state.grid.size < UIntLimit
      requires puzzle.Valid() && puzzle.cells != state.grid.cells
      modifies state, state.grid.cells
      ensures r.Some? <==> HasSolution(old(state.grid.ToList()), state.grid.size, state.grid.blockSize)
      ensures r.Some? ==> r.value == state.grid && IsSolution(r.value.ToList(), r.value.blockSize)
      ensures r.Some? ==> Extends(r.value.ToList(), old(state.grid.ToList()), state.grid.size)
      ensures r.None? ==> state.View() == old(state.View())
      ensures puzzle.ToList() == old(puzzle.ToList())
    {
      var solved := Dfs();
      if solved {
        return Some(state.grid);
      }
      return None;
    }
  }
}
