/**
 * The two text forms of a sudoku grid (src/model/grid.py): the comma-separated
 * lines `from_text` reads, and the boxed drawing `__str__` prints, e.g. for a
 * 4×4 grid
 *
 *     -------------
 *     | 1,2 | 3,4 |
 *     | 3,4 | 1,2 |
 *     -------------
 *     | 2,1 | 4,3 |
 *     | 4,3 | 2,1 |
 *     -------------
 *
 * Every cell is right-aligned to the width of the grid's largest value.
 */
module GridText {
  import opened Wrappers
  import opened Text
  import opened Grid

  /* ---------------------------------------------------------------------- */
  /* Reading: from_text                                                     */
  /* ---------------------------------------------------------------------- */

  /** `[int(el) for el in tokens]`; `None` when some `int()` raises. */
  function ParseInts(tokens: seq<string>): (r: Option<seq<int>>)
    ensures r.Some? <==> forall i :: 0 <= i < |tokens| ==> ParseInt(tokens[i]).Some?
    ensures r.Some? ==> |r.value| == |tokens|
    ensures r.Some? ==> forall i :: 0 <= i < |tokens| ==> r.value[i] == ParseInt(tokens[i]).value
  {
    if forall i :: 0 <= i < |tokens| ==> ParseInt(tokens[i]).Some?
    then Some(seq(|tokens|, i requires 0 <= i < |tokens| => ParseInt(tokens[i]).value))
    else None
  }

  /** `[[int(el) for el in line.split(",")] for line in lines]`. */
  function ParseLines(lines: seq<string>): (r: Option<seq<seq<int>>>)
    ensures r.Some? <==> forall l :: 0 <= l < |lines| ==> ParseInts(Split(lines[l], ',')).Some?
    ensures r.Some? ==> |r.value| == |lines|
    ensures r.Some? ==> forall l :: 0 <= l < |lines| ==> r.value[l] == ParseInts(Split(lines[l], ',')).value
  {
    if forall l :: 0 <= l < |lines| ==> ParseInts(Split(lines[l], ',')).Some?
    then Some(seq(|lines|, l requires 0 <= l < |lines| => ParseInts(Split(lines[l], ',')).value))
    else None
  }

  /**
   * `SudokuGrid.from_text(lines)`: parses every line, then builds the grid as
   * `from_list` does. Any failure is re-raised as `ValueError(InvalidGridText)`.
   */
  method FromText(lines: seq<string>) returns (r: Result<SudokuGrid, Error>)
    ensures r.Ok? <==> ParseLines(lines).Some? && SudokuGrid.IsGridList(ParseLines(lines).value)
    ensures r.Err? ==> r.error == ValueError(InvalidGridText)
    ensures r.Ok? ==> fresh(r.value) && fresh(r.value.cells) && r.value.Valid()
    ensures r.Ok? ==> r.value.ToList() == ParseLines(lines).value
  {
    var rows := ParseLines(lines);
    if rows.None? {
      return Err(ValueError(InvalidGridText));
    }
    r := SudokuGrid.FromList(rows.value);
  }

  /** The basic textual representation of a list of rows: one comma-separated line per row. */
  function BasicText(m: Matrix): (lines: seq<string>)
    ensures |lines| == |m|
  {
    seq(|m|, r requires 0 <= r < |m| => Join(seq(|m[r]|, c requires 0 <= c < |m[r]| => NatToString(m[r][c])), ','))
  }

  /** `from_text` reads the basic representation of any list of rows back to that list. */
  lemma ParseBasicText(m: Matrix)
    requires forall r :: 0 <= r < |m| ==> |m[r]| > 0
    ensures ParseLines(BasicText(m)) == Some(m)
  {
    var lines := BasicText(m);
    forall l | 0 <= l < |lines| ensures ParseInts(Split(lines[l], ',')) == Some(m[l]) {
      var tokens := seq(|m[l]|, c requires 0 <= c < |m[l]| => NatToString(m[l][c]));
      forall c | 0 <= c < |tokens| ensures ',' !in tokens[c] {
        PaddedNumberAvoids(',', m[l][c], 0);
      }
      SplitJoin(tokens, ',');
      forall c | 0 <= c < |tokens| ensures ParseInt(tokens[c]) == Some(m[l][c] as int) {
        ParseIntPadded(m[l][c], 0);
      }
      assert ParseInts(tokens).value == m[l];
    }
    assert ParseLines(lines).value == m;
  }

  /** A grid round-trips through its basic text form. */
  lemma FromTextOfBasicText(g: SudokuGrid)
    requires g.Valid() && g.size > 0
    ensures ParseLines(BasicText(g.ToList())) == Some(g.ToList())
    ensures SudokuGrid.IsGridList(g.ToList())
  {
    ParseBasicText(g.ToList());
    g.ToListIsGridList();
  }

  /* ---------------------------------------------------------------------- */
  /* Writing: __str__                                                       */
  /* ---------------------------------------------------------------------- */

  /** `numpy.max`: the largest value of a non-empty sequence. */
  function SeqMax(s: seq<nat>): (mx: nat)
    requires |s| > 0
    ensures mx in s
    ensures forall i :: 0 <= i < |s| ==> s[i] <= mx
  {
    if |s| == 1 then s[0]
    else
      var rest := SeqMax(s[..|s| - 1]);
      if s[|s| - 1] > rest then s[|s| - 1] else rest
  }

  function Min(a: nat, b: nat): nat
  {
    if a < b then a else b
  }

  /**
   * The slices `row[col:col + b]` for `col` in `range(0, len(row), b)`; numpy
   * clips the last slice at the end of the row.
   */
  function BlockRows(row: seq<nat>, b: nat): seq<seq<nat>>
    requires b > 0
    decreases |row|
  {
    if |row| == 0 then [] else [row[..Min(b, |row|)]] + BlockRows(row[Min(b, |row|)..], b)
  }

  /** One cell, right-aligned to width `w`. */
  function Cell(v: nat, w: nat): string
  {
    PadLeft(NatToString(v), w)
  }

  /** The cells of one block-row, each right-aligned, joined by commas. */
  function CellList(vs: seq<nat>, w: nat): string
  {
    if |vs| == 0 then ""
    else if |vs| == 1 then Cell(vs[0], w)
    else Cell(vs[0], w) + "," + CellList(vs[1..], w)
  }

  /** `CellList` is `",".join` of the right-aligned cells. */
  lemma {:induction false} CellListIsJoin(vs: seq<nat>, w: nat)
    ensures CellList(vs, w) == Join(seq(|vs|, j requires 0 <= j < |vs| => Cell(vs[j], w)), ',')
  {
    var cells := seq(|vs|, j requires 0 <= j < |vs| => Cell(vs[j], w));
    if |vs| > 1 {
      CellListIsJoin(vs[1..], w);
      assert cells[1..] == seq(|vs| - 1, j requires 0 <= j < |vs| - 1 => Cell(vs[1..][j], w));
    }
  }

  /** Each block-row framed as `" a,b,c |"`, one after the other. */
  function Frames(chunks: seq<seq<nat>>, w: nat): string
  {
    if |chunks| == 0 then "" else " " + CellList(chunks[0], w) + " |" + Frames(chunks[1..], w)
  }

  /** The printed form of one row of a grid with block side `b`. */
  function RowLine(row: seq<nat>, b: nat, w: nat): string
    requires b > 0
  {
    "|" + Frames(BlockRows(row, b), w)
  }

  /** The horizontal rule of an n×n grid with block side `b` and cell width `w`. */
  function HLine(n: nat, b: nat, w: nat): string
  {
    seq((1 + w) * n + 2 * b + 1, _ => '-')
  }

  /**
   * The lines printed for the first `k` of the already printed `rows`: a rule
   * first and one more after every `b`-th row.
   */
  function Layout(rows: seq<string>, rule: string, b: nat, k: nat): seq<string>
    requires b > 0 && k <= |rows|
  {
    if k == 0 then [rule]
    else Layout(rows, rule, b, k - 1) + [rows[k - 1]] + (if k % b == 0 then [rule] else [])
  }

  /** The printed form of every row of `m`. */
  function RowLines(m: Matrix, b: nat, w: nat): (lines: seq<string>)
    requires b > 0
    ensures |lines| == |m|
  {
    seq(|m|, r requires 0 <= r < |m| => RowLine(m[r], b, w))
  }

  /** The lines of the drawing of `m` for its first `k` rows. */
  function Lines(m: Matrix, b: nat, w: nat, k: nat): seq<string>
    requires b > 0 && k <= |m|
  {
    Layout(RowLines(m, b, w), HLine(|m|, b, w), b, k)
  }

  /** Each line followed by a newline. */
  function JoinLines(lines: seq<string>): string
  {
    if |lines| == 0 then "" else JoinLines(lines[..|lines| - 1]) + lines[|lines| - 1] + "\n"
  }

  /** The text `__str__` returns for grid value `m` with block side `b` and cell width `w`. */
  function Render(m: Matrix, b: nat, w: nat): (text: string)
    requires b > 0
    ensures |text| > 0 && text[|text| - 1] == '\n'
  {
    JoinLines(Lines(m, b, w, |m|))
  }

  /** The cell width of a non-empty grid: the length of its largest value. */
  function CellWidth(g: SudokuGrid): (w: nat)
    reads g.cells
    requires g.Valid() && g.size > 0
    ensures w > 0 && exists x :: x in g.Flatten() && w == |NatToString(x)|
  {
    g.FlattenIsRowMajor(0, 0);
    |NatToString(SeqMax(g.Flatten()))|
  }

  lemma JoinLinesSnoc(lines: seq<string>, line: string)
    ensures JoinLines(lines + [line]) == JoinLines(lines) + line + "\n"
  {
    assert (lines + [line])[..|lines|] == lines;
  }

  lemma MulStrict(k: nat, b: nat)
    requires k < b
    ensures k * b + b <= b * b
  {
    MulLe(k + 1, b, b);
  }

  /**
   * `str(grid)`. numpy's `max` of an empty array raises `ValueError`, so the
   * 0×0 grid cannot be printed.
   */
  method ToString(g: SudokuGrid) returns (r: Result<string, Error>)
    requires g.Valid()
    ensures g.size == 0 ==> r.Err? && r.error.ValueError?
    ensures g.size > 0 ==> r == Ok(Render(g.ToList(), g.blockSize, CellWidth(g)))
  {
    if g.size == 0 {
      return Err(ValueError("zero-size array to reduction operation maximum which has no identity"));
    }
    var w := CellWidth(g);
    var text := DrawRows(g.ToList(), g.blockSize, w);
    return Ok(text);
  }

  /**
   * The row loop of `__str__`: a rule, then each row in turn, with another
   * rule after every `b`-th row.
   */
  method DrawRows(m: Matrix, b: nat, w: nat) returns (text: string)
    requires b > 0
    ensures text == Render(m, b, w)
  {
    var n := |m|;
    var hLine := HLine(n, b, w);
    ghost var rowLines := RowLines(m, b, w);
    text := hLine + "\n";
    var row := 0;
    while row < n
      invariant 0 <= row <= n
      invariant text == JoinLines(Layout(rowLines, hLine, b, row))
    {
      LayoutStep(rowLines, hLine, b, row);
      ghost var before := text;
      text := AppendRow(m[row], b, w, text);
      assert text == before + rowLines[row];
      // a horizontal rule after every `block_size`-th row
      var rule := if (row + 1) % b == 0 then hLine + "\n" else "";
      text := text + "\n" + rule;
      row := row + 1;
    }
  }

  /** Printing one more row appends it, and a rule after every `b`-th row. */
  lemma LayoutStep(rows: seq<string>, rule: string, b: nat, k: nat)
    requires b > 0 && k < |rows|
    ensures JoinLines(Layout(rows, rule, b, k + 1))
      == JoinLines(Layout(rows, rule, b, k)) + rows[k] + "\n" + (if (k + 1) % b == 0 then rule + "\n" else "")
  {
    var printed := Layout(rows, rule, b, k);
    JoinLinesSnoc(printed, rows[k]);
    if (k + 1) % b == 0 {
      JoinLinesSnoc(printed + [rows[k]], rule);
    } else {
      assert Layout(rows, rule, b, k + 1) == printed + [rows[k]];
    }
  }

  /**
   * The body of the row loop of `__str__`: prints the values of one row after
   * `text`, one framed slice `col:col + b` for each `col` in `range(0, n, b)`.
   */
  method AppendRow(values: seq<nat>, b: nat, w: nat, text: string) returns (text': string)
    requires b > 0
    ensures text' == text + RowLine(values, b, w)
  {
    var n := |values|;
    ghost var goal := text + RowLine(values, b, w);
    text' := text + "|";
    var col := 0;
    assert values[Min(col, n)..] == values;
    while col < n
      invariant text' + Frames(BlockRows(values[Min(col, n)..], b), w) == goal
    {
      // numpy clips the slice `col:col + block_size` at the end of the row
      var next := col + b;
      var elements := values[col..Min(next, n)];
      var piece := " " + CellList(elements, w) + " |";
      PrintBlockRow(text', piece, goal, values, b, w, col, next);
      text' := text' + piece;
      col := next;
    }
    assert values[Min(col, n)..] == [];
  }

  /** One step of the column loop: printing the slice at `col` consumes the first block-row of `row[col..]`. */
  lemma PrintBlockRow(printed: string, piece: string, goal: string, row: seq<nat>, b: nat, w: nat, col: nat, next: nat)
    requires 0 < b && col < |row| && next == col + b
    requires printed + Frames(BlockRows(row[col..], b), w) == goal
    requires piece == " " + CellList(row[col..Min(next, |row|)], w) + " |"
    ensures (printed + piece) + Frames(BlockRows(row[Min(next, |row|)..], b), w) == goal
  {
    var rest := row[col..];
    var h := Min(b, |rest|);
    assert rest[..h] == row[col..Min(next, |row|)];
    assert rest[h..] == row[Min(next, |row|)..];
    var tail := Frames(BlockRows(row[Min(next, |row|)..], b), w);
    assert Frames(BlockRows(rest, b), w) == piece + tail;
    assert printed + (piece + tail) == (printed + piece) + tail;
  }

  /* Properties of the drawing */

  /** A row of `k * b` cells splits into `k` block-rows of `b` cells each. */
  lemma {:induction false} BlockRowsShape(row: seq<nat>, b: nat, k: nat)
    requires b > 0 && |row| == k * b
    ensures |BlockRows(row, b)| == k
    ensures forall i :: 0 <= i < k ==> |BlockRows(row, b)[i]| == b
  {
    if k > 0 {
      var j := k - 1;
      var rest := row[b..];
      assert |row| == j * b + b;
      assert |rest| == j * b;
      BlockRowsShape(rest, b, j);
      assert BlockRows(row, b) == [row[..b]] + BlockRows(rest, b);
    }
  }

  /** The block-rows put back together are the row. */
  lemma {:induction false} BlockRowsPartition(row: seq<nat>, b: nat)
    requires b > 0
    ensures Concat(BlockRows(row, b)) == row
    decreases |row|
  {
    if |row| > 0 {
      var h := Min(b, |row|);
      BlockRowsPartition(row[h..], b);
      ConcatCons(row[..h], BlockRows(row[h..], b));
      assert row[..h] + row[h..] == row;
    }
  }

  /** Every value of a block-row is a value of the row. */
  lemma {:induction false} BlockRowsValues(row: seq<nat>, b: nat)
    requires b > 0
    ensures forall i, v :: 0 <= i < |BlockRows(row, b)| && v in BlockRows(row, b)[i] ==> v in row
    decreases |row|
  {
    if |row| > 0 {
      var h := Min(b, |row|);
      BlockRowsValues(row[h..], b);
      assert forall v :: v in row[..h] ==> v in row;
      assert forall v :: v in row[h..] ==> v in row;
    }
  }

  lemma {:induction false} ConcatCons(x: seq<nat>, xs: Matrix)
    ensures Concat([x] + xs) == x + Concat(xs)
    decreases |xs|
  {
    if |xs| > 0 {
      var init := xs[..|xs| - 1];
      ConcatCons(x, init);
      assert ([x] + xs)[..|xs|] == [x] + init;
    } else {
      assert [x] + xs == [x];
    }
  }

  /** `k` rows print with `1 + k / b` rules. */
  lemma {:induction false} LayoutCount(rows: seq<string>, rule: string, b: nat, k: nat)
    requires b > 0 && k <= |rows|
    ensures |Layout(rows, rule, b, k)| == 1 + k + k / b
  {
    if k > 0 {
      var j := k - 1;
      LayoutCount(rows, rule, b, j);
      DivSucc(j, b);
      var extra := if k % b == 0 then 1 else 0;
      assert |Layout(rows, rule, b, k)| == |Layout(rows, rule, b, j)| + 1 + extra;
      assert k / b == j / b + extra;
    }
  }

  /** Lines already printed are never changed by printing more rows. */
  lemma {:induction false} LayoutPrefix(rows: seq<string>, rule: string, b: nat, k: nat, k': nat)
    requires b > 0 && k <= k' <= |rows|
    ensures Layout(rows, rule, b, k) <= Layout(rows, rule, b, k')
  {
    if k < k' {
      LayoutPrefix(rows, rule, b, k, k' - 1);
    }
  }

  /** Lines of one width lay out as lines of that width. */
  lemma {:induction false} LayoutWidth(rows: seq<string>, rule: string, b: nat, k: nat, width: nat)
    requires b > 0 && k <= |rows| && |rule| == width
    requires forall r :: 0 <= r < |rows| ==> |rows[r]| == width
    ensures forall i :: 0 <= i < |Layout(rows, rule, b, k)| ==> |Layout(rows, rule, b, k)[i]| == width
  {
    if k > 0 {
      LayoutWidth(rows, rule, b, k - 1, width);
    }
  }

  /**
   * Where things are in the drawing of an n×n grid: n + b + 1 lines; the first
   * is a rule; row `r` is line `1 + r + r / b`; and a rule follows every `b`-th row.
   */
  lemma RenderLayout(m: Matrix, b: nat, w: nat, r: nat, q: nat)
    requires b > 0 && |m| == b * b && r < |m| && q == r / b
    ensures |Lines(m, b, w, |m|)| == |m| + b + 1
    ensures Lines(m, b, w, |m|)[0] == HLine(|m|, b, w)
    ensures q < b
    ensures Lines(m, b, w, |m|)[1 + r + q] == RowLine(m[r], b, w)
    ensures (r + 1) % b == 0 ==> Lines(m, b, w, |m|)[2 + r + q] == HLine(|m|, b, w)
  {
    var n := |m|;
    var rows, rule := RowLines(m, b, w), HLine(n, b, w);
    LayoutCount(rows, rule, b, n);
    DivMulAdd(b, b, 0);
    assert n / b == b;
    LayoutCount(rows, rule, b, r);
    DivBound(r, b);
    LayoutPrefix(rows, rule, b, 0, n);
    LayoutPrefix(rows, rule, b, r + 1, n);
    var before := Layout(rows, rule, b, r);
    var upTo := Layout(rows, rule, b, r + 1);
    assert upTo[|before|] == rows[r];
    if (r + 1) % b == 0 {
      assert upTo[|before| + 1] == rule;
    }
  }

  /** A value no longer than the width prints exactly `w` characters wide. */
  lemma CellLength(v: nat, w: nat)
    requires |NatToString(v)| <= w
    ensures |Cell(v, w)| == w
  {
  }

  lemma {:induction false} JoinLength(parts: seq<string>, sep: char, w: nat)
    requires |parts| > 0 && forall i :: 0 <= i < |parts| ==> |parts[i]| == w
    ensures |Join(parts, sep)| == |parts| * (w + 1) - 1
  {
    if |parts| > 1 {
      JoinLength(parts[1..], sep, w);
    }
  }

  /** A block-row of `b` values that fit the width prints `b * (w + 1) - 1` characters wide. */
  lemma CellListLength(vs: seq<nat>, w: nat)
    requires |vs| > 0
    requires forall v :: v in vs ==> |NatToString(v)| <= w
    ensures |CellList(vs, w)| == |vs| * (w + 1) - 1
  {
    var cells := seq(|vs|, j requires 0 <= j < |vs| => Cell(vs[j], w));
    forall j | 0 <= j < |cells| ensures |cells[j]| == w {
      CellLength(vs[j], w);
    }
    JoinLength(cells, ',', w);
    CellListIsJoin(vs, w);
  }

  /** The width of `k` frames around cell lists of width `cw`. */
  function FramesWidth(k: nat, cw: nat): nat
  {
    if k == 0 then 0 else FramesWidth(k - 1, cw) + cw + 3
  }

  lemma {:induction false} FramesWidthIsProduct(k: nat, cw: nat)
    ensures FramesWidth(k, cw) == k * (cw + 3)
  {
    if k > 0 {
      FramesWidthIsProduct(k - 1, cw);
      MulSucc(k - 1, cw + 3);
    }
  }

  lemma {:induction false} FramesLength(chunks: seq<seq<nat>>, w: nat, cw: nat)
    requires forall i :: 0 <= i < |chunks| ==> |CellList(chunks[i], w)| == cw
    ensures |Frames(chunks, w)| == FramesWidth(|chunks|, cw)
  {
    if |chunks| > 0 {
      var rest := chunks[1..];
      assert forall i :: 0 <= i < |rest| ==> rest[i] == chunks[i + 1];
      FramesLength(rest, w, cw);
      var head := CellList(chunks[0], w);
      assert Frames(chunks, w) == " " + head + " |" + Frames(rest, w);
      assert |head| == cw;
    }
  }

  lemma RowWidth(b: nat, w: nat)
    ensures 1 + b * (b * (w + 1) + 2) == (1 + w) * (b * b) + 2 * b + 1
  {
    var bb := b * b;
    assert b * (b * (w + 1)) == bb * (w + 1);
    assert bb * (w + 1) == (1 + w) * bb;
  }

  /** A row of an n×n grid whose values fit width `w` prints as wide as the rule. */
  lemma RowLineLength(row: seq<nat>, b: nat, w: nat)
    requires b > 0 && |row| == b * b
    requires forall v :: v in row ==> |NatToString(v)| <= w
    ensures |RowLine(row, b, w)| == (1 + w) * (b * b) + 2 * b + 1
  {
    var chunks := BlockRows(row, b);
    BlockRowsShape(row, b, b);
    BlockRowsValues(row, b);
    forall i | 0 <= i < |chunks| ensures |CellList(chunks[i], w)| == b * (w + 1) - 1 {
      forall v | v in chunks[i] ensures |NatToString(v)| <= w {
      }
      CellListLength(chunks[i], w);
    }
    FramesLength(chunks, w, b * (w + 1) - 1);
    FramesWidthIsProduct(b, b * (w + 1) - 1);
    RowWidth(b, w);
  }

  /** Every value of a grid fits the cell width `__str__` computes. */
  lemma ValuesFitCellWidth(g: SudokuGrid)
    requires g.Valid() && g.size > 0
    ensures forall r, c :: 0 <= r < g.size && 0 <= c < g.size ==> |NatToString(g.ToList()[r][c])| <= CellWidth(g)
  {
    forall r, c | 0 <= r < g.size && 0 <= c < g.size
      ensures |NatToString(g.ToList()[r][c])| <= CellWidth(g)
    {
      g.FlattenIsRowMajor(r, c);
      NatToStringMonotone(g.ToList()[r][c], SeqMax(g.Flatten()));
    }
  }

  /**
   * The drawing determines the grid: the comma-separated fields of a printed
   * block-row, read with `int()`, are the values of that block-row.
   */
  lemma CellListReadsBack(vs: seq<nat>, w: nat)
    requires |vs| > 0
    ensures |Split(CellList(vs, w), ',')| == |vs|
    ensures forall j :: 0 <= j < |vs| ==> ParseInt(Split(CellList(vs, w), ',')[j]) == Some(vs[j] as int)
  {
    var cells := seq(|vs|, j requires 0 <= j < |vs| => Cell(vs[j], w));
    forall j | 0 <= j < |cells| ensures ',' !in cells[j] {
      PaddedNumberAvoids(',', vs[j], w);
    }
    SplitJoin(cells, ',');
    CellListIsJoin(vs, w);
    forall j | 0 <= j < |vs| ensures ParseInt(cells[j]) == Some(vs[j] as int) {
      ParseIntPadded(vs[j], w);
    }
  }

  /** The drawing of an n×n grid whose values fit width `w`: n + b + 1 lines of one width. */
  lemma RenderShape(m: Matrix, b: nat, w: nat)
    requires b > 0 && IsSquare(m, b * b)
    requires forall r, c :: 0 <= r < |m| && 0 <= c < |m| ==> |NatToString(m[r][c])| <= w
    ensures |Lines(m, b, w, |m|)| == |m| + b + 1
    ensures forall i :: 0 <= i < |Lines(m, b, w, |m|)| ==> |Lines(m, b, w, |m|)[i]| == (1 + w) * |m| + 2 * b + 1
  {
    var n := |m|;
    RenderLayout(m, b, w, 0, 0);
    var rows := RowLines(m, b, w);
    forall r | 0 <= r < n ensures |rows[r]| == (1 + w) * n + 2 * b + 1 {
      forall v | v in m[r] ensures |NatToString(v)| <= w {
        var c :| 0 <= c < |m[r]| && m[r][c] == v;
      }
      RowLineLength(m[r], b, w);
    }
    LayoutWidth(rows, HLine(n, b, w), b, n, (1 + w) * n + 2 * b + 1);
  }

  /** A printed row of an n×n grid shows `b` block-rows of `b` cells that together are the row. */
  lemma RowLineBlocks(row: seq<nat>, b: nat)
    requires b > 0 && |row| == b * b
    ensures |BlockRows(row, b)| == b
    ensures forall i :: 0 <= i < b ==> |BlockRows(row, b)[i]| == b
    ensures Concat(BlockRows(row, b)) == row
  {
    BlockRowsShape(row, b, b);
    BlockRowsPartition(row, b);
  }
}
