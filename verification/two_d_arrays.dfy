/** The 2-D array container (src/utils/dataStructures/twoDArrays.js): a
    matrix of elements, and the steps of its five operations, including the
    four traversal orders. Fresh ids come from an injected counter `nextId`;
    the random fill draws its values from an injected source `draw`. */
module TwoDArrays {
  import opened Steps

  /** What a 2-D array step says. */
  datatype GridDesc =
    | DimensionError
    | InvalidToken(text: string)
    | CountMismatch(count: nat, rows: int, cols: int)
    | GridCreated(rows: int, cols: int, custom: bool)
    | CellOutOfBounds(row: int, col: int)
    | Focusing(row: int, col: int)
    | CellAccessed(row: int, col: int, v: int)
    | CellUpdatePreparing(row: int, col: int, value: int)
    | CellUpdated(row: int, col: int, value: int)
    | GridSearchStart(target: int)
    | CellChecking(row: int, col: int, v: int)
    | CellFound(target: int, row: int, col: int)
    | CellNotFound(target: int)
    | TraverseStart(name: string)
    | Visiting(row: int, col: int)
    | UnknownTraversal(name: string)
    | TraverseDone(name: string)

  type GridStep = Step<Matrix, GridMarks, GridDesc>

  /** Every row as long as the first: the shape `create` builds. */
  predicate Rect(m: Matrix)
  {
    forall i :: 0 <= i < |m| ==> |m[i]| == |m[0]|
  }

  /** `[row][col]` names a cell of the matrix, judged, as the source does,
      against the number of rows and the length of the first row. */
  predicate InBounds(m: Matrix, row: int, col: int)
  {
    0 <= row < |m| && 0 <= col < |m[0]|
  }

  // ---------------------------------------------------------------------
  // create

  /** A token of the custom input after splitting on commas and white
      space: an empty piece, a number `parseInt` accepts, or anything else. */
  datatype Token = Blank | Number(n: int) | Garbage(text: string)

  /** Parsing the custom tokens: the numbers in order with blanks dropped,
      or the first token that is not a number. */
  datatype Parsed = Numbers(values: seq<int>) | BadToken(text: string)

  /** The token list mapped through `parseInt`, throwing at the first
      non-number, then filtered of the blanks. */
  function Parse(tokens: seq<Token>): (r: Parsed)
    ensures r.Numbers? <==> forall k :: 0 <= k < |tokens| ==> !tokens[k].Garbage?
    ensures r.BadToken? ==> exists k :: 0 <= k < |tokens| && tokens[k] == Garbage(r.text)
  {
    if tokens == [] then Numbers([])
    else match tokens[0]
      case Garbage(text) => BadToken(text)
      case Blank => Parse(tokens[1..])
      case Number(n) =>
        var rest := Parse(tokens[1..]);
        if rest.Numbers? then Numbers([n] + rest.values) else rest
  }

  /** The numbers a token list without garbage carries, in order. */
  function NumbersOf(tokens: seq<Token>): seq<int>
  {
    if tokens == [] then []
    else if tokens[0].Number? then [tokens[0].n] + NumbersOf(tokens[1..])
    else NumbersOf(tokens[1..])
  }

  /** Parsing keeps exactly the numbers, in order, when there is no garbage,
      and otherwise reports the first garbage token. */
  lemma {:induction false} ParseNumbers(tokens: seq<Token>)
    ensures var r := Parse(tokens);
      && (r.Numbers? ==> r.values == NumbersOf(tokens))
      && (r.BadToken? ==> exists k :: 0 <= k < |tokens| && tokens[k] == Garbage(r.text)
                                  && forall j :: 0 <= j < k ==> !tokens[j].Garbage?)
  {
    if tokens != [] {
      ParseNumbers(tokens[1..]);
      var r := Parse(tokens);
      if r.BadToken? && !tokens[0].Garbage? {
        var k :| 1 <= k + 1 < |tokens| + 1 && 0 <= k < |tokens[1..]| && tokens[1..][k] == Garbage(r.text)
                && forall j :: 0 <= j < k ==> !tokens[1..][j].Garbage?;
        assert tokens[k + 1] == Garbage(r.text);
        assert forall j :: 1 <= j < k + 1 ==> tokens[j] == tokens[1..][j - 1];
      }
    }
  }

  /** The row-major position of `[i][j]` in a matrix `cols` wide. */
  function Flat(i: int, j: int, cols: int): int
  {
    i * cols + j
  }

  /** The row-major position of a cell lies inside the grid. */
  lemma FlatIndex(i: int, j: int, rows: int, cols: int)
    requires 0 <= i < rows && 0 <= j < cols
    ensures 0 <= Flat(i, j, cols) < rows * cols
  {
    assert i * cols <= (rows - 1) * cols;
  }

  /** `m` is a `rows x cols` matrix whose cell `[i][j]` is the value at the
      row-major position of the cell, with the fresh id at that position:
      filled in row-major order. */
  predicate Filled(m: Matrix, rows: nat, cols: nat, values: seq<int>, nextId: nat)
  {
    && |m| == rows && (forall i :: 0 <= i < rows ==> |m[i]| == cols)
    && forall i, j :: 0 <= i < rows && 0 <= j < cols ==>
         0 <= Flat(i, j, cols) < |values|
         && m[i][j] == Element(nextId + Flat(i, j, cols), values[Flat(i, j, cols)])
  }

  /** One cell of the built matrix. */
  function BuildCell(i: int, j: int, rows: nat, cols: nat, values: seq<int>, nextId: nat): Element
    requires |values| == rows * cols && 0 <= i < rows && 0 <= j < cols
  {
    FlatIndex(i, j, rows, cols);
    Element(nextId + Flat(i, j, cols), values[Flat(i, j, cols)])
  }

  /** A `rows x cols` matrix filled in row-major order from `values`. */
  function Build(rows: nat, cols: nat, values: seq<int>, nextId: nat): (m: Matrix)
    requires |values| == rows * cols
    ensures Filled(m, rows, cols, values, nextId)
  {
    var m := seq(rows, i requires 0 <= i < rows =>
      seq(cols, j requires 0 <= j < cols => BuildCell(i, j, rows, cols, values, nextId)));
    assert forall i, j :: 0 <= i < rows && 0 <= j < cols ==> 0 <= Flat(i, j, cols) < |values| by {
      forall i, j | 0 <= i < rows && 0 <= j < cols
        ensures 0 <= Flat(i, j, cols) < |values|
      {
        FlatIndex(i, j, rows, cols);
      }
    }
    m
  }

  /** The values `draw(0)`, ..., `draw(n - 1)`. */
  function Drawn(n: nat, draw: nat -> int): (r: seq<int>)
    ensures |r| == n && forall k :: 0 <= k < n ==> r[k] == draw(k)
  {
    seq(n, k requires 0 <= k => draw(k))
  }

  /** `visualizations.create`. Dimensions are `None` when not a number.
      Dimensions that are not numbers between 1 and 10 give one error step
      over an empty matrix. Custom tokens, when there are any, must all be
      numbers, `rows * cols` of them, which fill the matrix in row-major
      order; otherwise one error step. Without custom tokens the cells take
      the drawn values `draw(0)`, `draw(1)`, ... in row-major order. */
  function Create(rows: Option<int>, cols: Option<int>, custom: seq<Token>, nextId: nat, draw: nat -> int): (r: seq<GridStep>)
    ensures |r| == 1 && r[0].marks == NoGridMarks
    ensures r[0].desc.GridCreated? <==>
      && rows.Some? && cols.Some? && 1 <= rows.value <= 10 && 1 <= cols.value <= 10
      && (custom != [] ==> Parse(custom).Numbers? && |Parse(custom).values| == rows.value * cols.value)
    ensures !r[0].desc.GridCreated? ==> r[0].snapshot == []
    ensures r[0].desc.GridCreated? ==>
      var rs := rows.value; var cs := cols.value;
      && r[0].desc == GridCreated(rs, cs, custom != [])
      && Filled(r[0].snapshot, rs, cs, if custom != [] then Parse(custom).values else Drawn(rs * cs, draw), nextId)
  {
    if rows.None? || cols.None? || rows.value <= 0 || cols.value <= 0 || rows.value > 10 || cols.value > 10 then
      [Step([], NoGridMarks, DimensionError, NoMeta)]
    else
      var rs := rows.value;
      var cs := cols.value;
      if custom != [] then
        match Parse(custom)
        case BadToken(text) => [Step([], NoGridMarks, InvalidToken(text), NoMeta)]
        case Numbers(values) =>
          if |values| != rs * cs then [Step([], NoGridMarks, CountMismatch(|values|, rs, cs), NoMeta)]
          else [Step(Build(rs, cs, values, nextId), NoGridMarks, GridCreated(rs, cs, true), NoMeta)]
      else
        [Step(Build(rs, cs, Drawn(rs * cs, draw), nextId), NoGridMarks, GridCreated(rs, cs, false), NoMeta)]
  }

  /** The values of a matrix read row by row. */
  function Flatten(m: Matrix): (r: seq<int>)
  {
    if m == [] then [] else Flatten(m[..|m| - 1]) + Values(m[|m| - 1])
  }

  /** `i` rows of `cols` cells fit in `rows` rows. */
  lemma RowsFit(i: nat, rows: nat, cols: nat)
    requires i <= rows
    ensures i * cols <= rows * cols
  {
  }

  /** Row `i` of a filled matrix holds the `i`-th block of `cols` values. */
  lemma FilledRow(m: Matrix, rows: nat, cols: nat, values: seq<int>, nextId: nat, i: nat)
    requires Filled(m, rows, cols, values, nextId) && |values| == rows * cols && i < rows
    ensures i * cols + cols <= |values|
    ensures Values(m[i]) == values[i * cols..i * cols + cols]
  {
    RowsFit(i + 1, rows, cols);
    var row := Values(m[i]);
    forall j | 0 <= j < cols
      ensures row[j] == values[i * cols + j]
    {
      assert Flat(i, j, cols) == i * cols + j;
    }
  }

  /** Row `k` of `m` holds the `k`-th block of `cols` values. */
  predicate Block(m: Matrix, values: seq<int>, cols: nat, k: nat)
    requires k < |m|
  {
    k * cols + cols <= |values| && Values(m[k]) == values[k * cols..k * cols + cols]
  }

  /** Rows that each hold their block of values, read row by row, give back
      the values. */
  lemma {:induction false} BlocksFlatten(m: Matrix, values: seq<int>, cols: nat, i: nat)
    requires i <= |m| && i * cols <= |values|
    requires forall k :: 0 <= k < i ==> Block(m, values, cols, k)
    ensures Flatten(m[..i]) == values[..i * cols]
  {
    if i > 0 {
      var lo := (i - 1) * cols;
      var hi := i * cols;
      assert lo + cols == hi;
      assert Block(m, values, cols, i - 1);
      BlocksFlatten(m, values, cols, i - 1);
      JoinRows(m, values, i, lo, hi);
    }
  }

  /** Appending row `i - 1` to the first `i - 1` rows appends its block. */
  lemma JoinRows(m: Matrix, values: seq<int>, i: nat, lo: nat, hi: nat)
    requires 0 < i <= |m| && lo <= hi <= |values|
    requires Flatten(m[..i - 1]) == values[..lo] && Values(m[i - 1]) == values[lo..hi]
    ensures Flatten(m[..i]) == values[..hi]
  {
    assert m[..i][..i - 1] == m[..i - 1];
    assert values[..lo] + values[lo..hi] == values[..hi];
  }

  /** Reading a filled matrix row by row gives back the values it was
      filled from, row after row. */
  lemma FilledFlattens(m: Matrix, rows: nat, cols: nat, values: seq<int>, nextId: nat)
    requires Filled(m, rows, cols, values, nextId) && |values| == rows * cols
    ensures Flatten(m) == values
  {
    forall k | 0 <= k < rows
      ensures Block(m, values, cols, k)
    {
      FilledRow(m, rows, cols, values, nextId, k);
    }
    BlocksFlatten(m, values, cols, rows);
    assert m[..rows] == m;
  }

  /** A created matrix read row by row gives back the values it was created
      from: the custom numbers, or the drawn values. */
  lemma CreateFlattens(rows: int, cols: int, custom: seq<Token>, nextId: nat, draw: nat -> int)
    requires Create(Some(rows), Some(cols), custom, nextId, draw)[0].desc.GridCreated?
    ensures Flatten(Create(Some(rows), Some(cols), custom, nextId, draw)[0].snapshot)
         == if custom != [] then NumbersOf(custom) else Drawn(rows * cols, draw)
  {
    var m := Create(Some(rows), Some(cols), custom, nextId, draw)[0].snapshot;
    var values := if custom != [] then Parse(custom).values else Drawn(rows * cols, draw);
    ParseNumbers(custom);
    FilledFlattens(m, rows, cols, values, nextId);
  }

  // ---------------------------------------------------------------------
  // access and update

  /** `visualizations.access`: an out-of-bounds position gives one error
      step; otherwise a spotlight step on the cell, then a step marking it
      primary and reporting its value. The matrix is never changed. */
  function Access(m: Matrix, row: int, col: int): (r: seq<GridStep>)
    requires Rect(m)
    ensures forall k :: 0 <= k < |r| ==> r[k].snapshot == m
    ensures !InBounds(m, row, col) ==> r == [Step(m, NoGridMarks, CellOutOfBounds(row, col), NoMeta)]
    ensures InBounds(m, row, col) ==>
      && |r| == 2
      && r[0].marks == NoGridMarks.(spotlight := Some(Cell(row, col)))
      && r[1].marks == NoGridMarks.(primary := [Cell(row, col)])
      && r[1].desc == CellAccessed(row, col, m[row][col].value)
  {
    if !InBounds(m, row, col) then [Step(m, NoGridMarks, CellOutOfBounds(row, col), NoMeta)]
    else
      [Step(m, NoGridMarks.(spotlight := Some(Cell(row, col))), Focusing(row, col), NoMeta),
       Step(m, NoGridMarks.(primary := [Cell(row, col)]), CellAccessed(row, col, m[row][col].value), NoMeta)]
  }

  /** The matrix with the value of `[row][col]` replaced, its id kept. */
  function Write(m: Matrix, row: int, col: int, value: int): (r: Matrix)
    requires 0 <= row < |m| && 0 <= col < |m[row]|
  {
    m[row := m[row][col := m[row][col].(value := value)]]
  }

  /** `visualizations.update`: an out-of-bounds position gives one error
      step over the unchanged matrix; otherwise a spotlight step on the
      cell, then a success step on it over the matrix in which only that
      cell's value has changed. */
  function Update(m: Matrix, row: int, col: int, value: int): (r: seq<GridStep>)
    requires Rect(m)
    ensures |r| == (if InBounds(m, row, col) then 2 else 1) && r[0].snapshot == m
    ensures !InBounds(m, row, col) ==> r == [Step(m, NoGridMarks, CellOutOfBounds(row, col), NoMeta)]
    ensures InBounds(m, row, col) ==>
      var t := r[1].snapshot;
      && r[0].marks == NoGridMarks.(spotlight := Some(Cell(row, col)))
      && r[1].marks == NoGridMarks.(success := [Cell(row, col)])
      && r[1].desc == CellUpdated(row, col, value)
      && |t| == |m| && (forall i :: 0 <= i < |m| ==> |t[i]| == |m[i]|) && Rect(t)
      && t[row][col] == Element(m[row][col].id, value)
      && forall i, j :: 0 <= i < |m| && 0 <= j < |m[i]| && (i, j) != (row, col) ==> t[i][j] == m[i][j]
  {
    if !InBounds(m, row, col) then [Step(m, NoGridMarks, CellOutOfBounds(row, col), NoMeta)]
    else
      [Step(m, NoGridMarks.(spotlight := Some(Cell(row, col))), CellUpdatePreparing(row, col, value), NoMeta),
       Step(Write(m, row, col, value), NoGridMarks.(success := [Cell(row, col)]), CellUpdated(row, col, value), NoMeta)]
  }

  /** Reading a cell just written gives the written value. */
  lemma UpdateThenAccess(m: Matrix, row: int, col: int, value: int)
    requires Rect(m) && InBounds(m, row, col)
    ensures var t := Last(Update(m, row, col, value)).snapshot;
      Rect(t) && Last(Access(t, row, col)).desc == CellAccessed(row, col, value)
  {
  }

  // ---------------------------------------------------------------------
  // search

  /** `[c.row][c.col]` is a cell of the matrix. */
  predicate HasCell(m: Matrix, c: Cell)
  {
    0 <= c.row < |m| && 0 <= c.col < |m[c.row]|
  }

  /** The cells of rows `i` onwards, starting at column `j` of row `i`, in
      the order of the two nested `for` loops of `search`: along each row,
      one row after the other. */
  function CellsFrom(m: Matrix, i: int, j: int): (r: seq<Cell>)
    requires 0 <= i <= |m| && 0 <= j && (i < |m| ==> j <= |m[i]|)
    ensures forall k :: 0 <= k < |r| ==> HasCell(m, r[k])
    decreases |m| - i, if i < |m| then |m[i]| - j else 0
  {
    if i == |m| then []
    else if j == |m[i]| then CellsFrom(m, i + 1, 0)
    else [Cell(i, j)] + CellsFrom(m, i, j + 1)
  }

  /** The value at a cell of the matrix. */
  function ValueAt(m: Matrix, c: Cell): int
    requires HasCell(m, c)
  {
    m[c.row][c.col].value
  }

  /** The checking step of `search` for one cell. */
  function CheckStep(m: Matrix, c: Cell): GridStep
    requires HasCell(m, c)
  {
    Step(m, NoGridMarks.(secondary := [c]), CellChecking(c.row, c.col, ValueAt(m, c)), NoMeta)
  }

  /** The body of the nested loops of `search` over the remaining `cells`:
      a checking step per cell, a success step at the first match, and a
      not-found step when the cells run out. */
  function ScanCells(m: Matrix, target: int, cells: seq<Cell>): (r: seq<GridStep>)
    requires forall k :: 0 <= k < |cells| ==> HasCell(m, cells[k])
    ensures r != []
  {
    if cells == [] then [Step(m, NoGridMarks, CellNotFound(target), NoMeta)]
    else
      var c := cells[0];
      if ValueAt(m, c) == target then
        [CheckStep(m, c), Step(m, NoGridMarks.(success := [c]), CellFound(target, c.row, c.col), NoMeta)]
      else [CheckStep(m, c)] + ScanCells(m, target, cells[1..])
  }

  /** `visualizations.search`: a starting step, then the scan of every cell
      in row-major order. */
  function Search(m: Matrix, target: int): (r: seq<GridStep>)
    ensures |r| >= 2 && r[0] == Step(m, NoGridMarks, GridSearchStart(target), NoMeta)
  {
    [Step(m, NoGridMarks, GridSearchStart(target), NoMeta)] + ScanCells(m, target, CellsFrom(m, 0, 0))
  }

  /** The position of the first of `cells` holding `target`, or `|cells|`. */
  function FirstHit(m: Matrix, target: int, cells: seq<Cell>): (h: nat)
    requires forall k :: 0 <= k < |cells| ==> HasCell(m, cells[k])
    ensures h <= |cells|
    ensures forall k :: 0 <= k < h ==> ValueAt(m, cells[k]) != target
    ensures h < |cells| ==> ValueAt(m, cells[h]) == target
  {
    if cells == [] || ValueAt(m, cells[0]) == target then 0
    else FirstHit(m, target, cells[1..]) + 1
  }

  /** The scan checks the cells one by one up to and including the first
      match, reports that match, or reports not-found after checking every
      cell; every step shows the unchanged matrix. */
  lemma {:induction false} ScanCellsOutcome(m: Matrix, target: int, cells: seq<Cell>)
    requires forall k :: 0 <= k < |cells| ==> HasCell(m, cells[k])
    ensures var r := ScanCells(m, target, cells); var h := FirstHit(m, target, cells);
      && |r| == (if h < |cells| then h + 2 else h + 1)
      && (forall k :: 0 <= k < |r| - 1 ==> r[k] == CheckStep(m, cells[k]))
      && (forall k :: 0 <= k < |r| ==> r[k].snapshot == m)
      && Last(r) == (if h < |cells|
                     then Step(m, NoGridMarks.(success := [cells[h]]), CellFound(target, cells[h].row, cells[h].col), NoMeta)
                     else Step(m, NoGridMarks, CellNotFound(target), NoMeta))
  {
    if cells != [] && ValueAt(m, cells[0]) != target {
      var r := ScanCells(m, target, cells);
      var rest := cells[1..];
      ScanCellsOutcome(m, target, rest);
      assert r == [CheckStep(m, cells[0])] + ScanCells(m, target, rest);
      LastAppend([CheckStep(m, cells[0])], ScanCells(m, target, rest));
      forall k | 1 <= k < |r| - 1
        ensures r[k] == CheckStep(m, cells[k])
      {
        assert r[k] == ScanCells(m, target, rest)[k - 1];
        assert rest[k - 1] == cells[k];
      }
    }
  }

  // ---------------------------------------------------------------------
  // traversal orders

  /** `c` lies in rows `top..bottom` and columns `left..right`. */
  predicate InBox(c: Cell, top: int, bottom: int, left: int, right: int)
  {
    top <= c.row <= bottom && left <= c.col <= right
  }

  /** `order` lists every cell of a `rows x cols` grid exactly once. */
  ghost predicate ExactlyOnce(order: seq<Cell>, rows: int, cols: int)
  {
    forall c :: multiset(order)[c] == (if InBox(c, 0, rows - 1, 0, cols - 1) then 1 else 0)
  }

  /** Row `row`, columns `first` up to `last`. */
  function Across(row: int, first: int, last: int): seq<Cell>
    decreases last - first
  {
    if first > last then [] else [Cell(row, first)] + Across(row, first + 1, last)
  }

  /** Row `row`, columns `first` down to `last`. */
  function Back(row: int, first: int, last: int): seq<Cell>
    decreases first - last
  {
    if first < last then [] else [Cell(row, first)] + Back(row, first - 1, last)
  }

  /** Column `col`, rows `first` down the matrix to `last`. */
  function Down(col: int, first: int, last: int): seq<Cell>
    decreases last - first
  {
    if first > last then [] else [Cell(first, col)] + Down(col, first + 1, last)
  }

  /** Column `col`, rows `first` up the matrix to `last`. */
  function Up(col: int, first: int, last: int): seq<Cell>
    decreases first - last
  {
    if first < last then [] else [Cell(first, col)] + Up(col, first - 1, last)
  }

  /** How often a cell occurs in each of the four straight runs. */
  lemma {:induction false} AcrossCount(row: int, first: int, last: int, c: Cell)
    ensures multiset(Across(row, first, last))[c] == (if InBox(c, row, row, first, last) then 1 else 0)
    decreases last - first
  {
    if first <= last {
      AcrossCount(row, first + 1, last, c);
    }
  }

  lemma {:induction false} BackCount(row: int, first: int, last: int, c: Cell)
    ensures multiset(Back(row, first, last))[c] == (if InBox(c, row, row, last, first) then 1 else 0)
    decreases first - last
  {
    if first >= last {
      BackCount(row, first - 1, last, c);
    }
  }

  lemma {:induction false} DownCount(col: int, first: int, last: int, c: Cell)
    ensures multiset(Down(col, first, last))[c] == (if InBox(c, first, last, col, col) then 1 else 0)
    decreases last - first
  {
    if first <= last {
      DownCount(col, first + 1, last, c);
    }
  }

  lemma {:induction false} UpCount(col: int, first: int, last: int, c: Cell)
    ensures multiset(Up(col, first, last))[c] == (if InBox(c, last, first, col, col) then 1 else 0)
    decreases first - last
  {
    if first >= last {
      UpCount(col, first - 1, last, c);
    }
  }

  /** Row-major order from row `i`: `for i { for j { visit(i, j) } }`. */
  function RowMajor(i: int, rows: int, cols: int): seq<Cell>
    decreases rows - i
  {
    if i >= rows then [] else Across(i, 0, cols - 1) + RowMajor(i + 1, rows, cols)
  }

  /** Column-major order from column `j`: `for j { for i { visit(i, j) } }`. */
  function ColumnMajor(j: int, rows: int, cols: int): seq<Cell>
    decreases cols - j
  {
    if j >= cols then [] else Down(j, 0, rows - 1) + ColumnMajor(j + 1, rows, cols)
  }

  /** One turn of the spiral loop on the window `top..bottom x
      left..right`: along the top row, down the right column, back along
      the bottom row when one is left, and up the left column when one is
      left. */
  function Ring(top: int, bottom: int, left: int, right: int): seq<Cell>
  {
    Across(top, left, right) + Down(right, top + 1, bottom)
    + BottomRun(top, bottom, left, right) + LeftRun(top, bottom, left, right)
  }

  /** The spiral loop from the window `top..bottom x left..right`: one turn,
      then the loop on the window that remains. `bottom` moves up only when
      the bottom row was walked, and `left` moves right only when the left
      column was. */
  function Spiral(top: int, bottom: int, left: int, right: int): seq<Cell>
    decreases bottom - top + right - left
  {
    if !(top <= bottom && left <= right) then []
    else
      var bottom1 := if top + 1 <= bottom then bottom - 1 else bottom;
      var left1 := if left <= right - 1 then left + 1 else left;
      Ring(top, bottom, left, right) + Spiral(top + 1, bottom1, left1, right - 1)
  }

  /** The cell list of diagonal `d` as the `Map` of the diagonal strategy
      holds it after `cells` were added in order: a cell with `row + col ==
      d` goes to the front of the list when `d` is even and to the back when
      it is odd. */
  function Bucket(cells: seq<Cell>, d: int): seq<Cell>
  {
    if cells == [] then []
    else
      var c := cells[|cells| - 1];
      var b := Bucket(cells[..|cells| - 1], d);
      if c.row + c.col != d then b
      else if d % 2 == 0 then [c] + b
      else b + [c]
  }

  /** The lists of diagonals `d` up to `last`, by ascending key. */
  function Diagonals(cells: seq<Cell>, d: int, last: int): seq<Cell>
    decreases last - d
  {
    if d > last then [] else Bucket(cells, d) + Diagonals(cells, d + 1, last)
  }

  /** The diagonal strategy: every cell, in row-major order, added to the
      list of its diagonal `row + col`, then the lists by ascending key. */
  function Diagonal(rows: int, cols: int): seq<Cell>
  {
    Diagonals(RowMajor(0, rows, cols), 0, rows + cols - 2)
  }

  lemma {:induction false} RowMajorCount(i: int, rows: int, cols: int, c: Cell)
    ensures multiset(RowMajor(i, rows, cols))[c] == (if InBox(c, i, rows - 1, 0, cols - 1) then 1 else 0)
    decreases rows - i
  {
    if i < rows {
      AcrossCount(i, 0, cols - 1, c);
      RowMajorCount(i + 1, rows, cols, c);
      var a, rest := Across(i, 0, cols - 1), RowMajor(i + 1, rows, cols);
      assert multiset(a + rest)[c] == multiset(a)[c] + multiset(rest)[c];
    }
  }

  lemma {:induction false} ColumnMajorCount(j: int, rows: int, cols: int, c: Cell)
    ensures multiset(ColumnMajor(j, rows, cols))[c] == (if InBox(c, 0, rows - 1, j, cols - 1) then 1 else 0)
    decreases cols - j
  {
    if j < cols {
      DownCount(j, 0, rows - 1, c);
      ColumnMajorCount(j + 1, rows, cols, c);
      var a, rest := Down(j, 0, rows - 1), ColumnMajor(j + 1, rows, cols);
      assert multiset(a + rest)[c] == multiset(a)[c] + multiset(rest)[c];
    }
  }

  /** The bottom row of a turn, when one is left. */
  function BottomRun(top: int, bottom: int, left: int, right: int): seq<Cell>
  {
    if top + 1 <= bottom then Back(bottom, right - 1, left) else []
  }

  /** The left column of a turn, when one is left. */
  function LeftRun(top: int, bottom: int, left: int, right: int): seq<Cell>
  {
    if left <= right - 1 then Up(left, bottom - 1, top + 1) else []
  }

  lemma BottomRunCount(top: int, bottom: int, left: int, right: int, c: Cell)
    ensures multiset(BottomRun(top, bottom, left, right))[c]
      == (if top + 1 <= bottom && c.row == bottom && left <= c.col <= right - 1 then 1 else 0)
  {
    if top + 1 <= bottom {
      BackCount(bottom, right - 1, left, c);
    }
  }

  lemma LeftRunCount(top: int, bottom: int, left: int, right: int, c: Cell)
    ensures multiset(LeftRun(top, bottom, left, right))[c]
      == (if left <= right - 1 && top + 1 <= c.row <= bottom - 1 && c.col == left then 1 else 0)
  {
    if left <= right - 1 {
      UpCount(left, bottom - 1, top + 1, c);
    }
  }

  /** One turn of the spiral visits exactly the border of its window. */
  lemma RingCount(top: int, bottom: int, left: int, right: int, c: Cell)
    requires top <= bottom && left <= right
    ensures multiset(Ring(top, bottom, left, right))[c]
      == (if InBox(c, top, bottom, left, right) && !InBox(c, top + 1, bottom - 1, left + 1, right - 1) then 1 else 0)
  {
    var a := Across(top, left, right);
    var b := Down(right, top + 1, bottom);
    var c3 := BottomRun(top, bottom, left, right);
    var d := LeftRun(top, bottom, left, right);
    AcrossCount(top, left, right, c);
    DownCount(right, top + 1, bottom, c);
    BottomRunCount(top, bottom, left, right, c);
    LeftRunCount(top, bottom, left, right, c);
    assert multiset(a + b + c3 + d)[c] == multiset(a)[c] + multiset(b)[c] + multiset(c3)[c] + multiset(d)[c];
  }

  lemma {:induction false} SpiralCount(top: int, bottom: int, left: int, right: int, c: Cell)
    ensures multiset(Spiral(top, bottom, left, right))[c] == (if InBox(c, top, bottom, left, right) then 1 else 0)
    decreases bottom - top + right - left
  {
    if top <= bottom && left <= right {
      var bottom1 := if top + 1 <= bottom then bottom - 1 else bottom;
      var left1 := if left <= right - 1 then left + 1 else left;
      RingCount(top, bottom, left, right, c);
      SpiralCount(top + 1, bottom1, left1, right - 1, c);
      assert InBox(c, top + 1, bottom1, left1, right - 1) <==> InBox(c, top + 1, bottom - 1, left + 1, right - 1);
    }
  }

  lemma {:induction false} BucketCount(cells: seq<Cell>, d: int, c: Cell)
    ensures multiset(Bucket(cells, d))[c] == (if c.row + c.col == d then multiset(cells)[c] else 0)
  {
    if cells != [] {
      var init := cells[..|cells| - 1];
      BucketCount(init, d, c);
      assert cells == init + [cells[|cells| - 1]];
    }
  }

  lemma {:induction false} DiagonalsCount(cells: seq<Cell>, d: int, last: int, c: Cell)
    ensures multiset(Diagonals(cells, d, last))[c] == (if d <= c.row + c.col <= last then multiset(cells)[c] else 0)
    decreases last - d
  {
    if d <= last {
      BucketCount(cells, d, c);
      DiagonalsCount(cells, d + 1, last, c);
    }
  }

  /** Row-major order visits every cell exactly once. */
  lemma RowMajorExactlyOnce(rows: int, cols: int)
    ensures ExactlyOnce(RowMajor(0, rows, cols), rows, cols)
  {
    forall c
      ensures multiset(RowMajor(0, rows, cols))[c] == (if InBox(c, 0, rows - 1, 0, cols - 1) then 1 else 0)
    {
      RowMajorCount(0, rows, cols, c);
    }
  }

  /** Column-major order visits every cell exactly once. */
  lemma ColumnMajorExactlyOnce(rows: int, cols: int)
    ensures ExactlyOnce(ColumnMajor(0, rows, cols), rows, cols)
  {
    forall c
      ensures multiset(ColumnMajor(0, rows, cols))[c] == (if InBox(c, 0, rows - 1, 0, cols - 1) then 1 else 0)
    {
      ColumnMajorCount(0, rows, cols, c);
    }
  }

  /** The spiral visits every cell exactly once. */
  lemma SpiralExactlyOnce(rows: int, cols: int)
    ensures ExactlyOnce(Spiral(0, rows - 1, 0, cols - 1), rows, cols)
  {
    var order := Spiral(0, rows - 1, 0, cols - 1);
    forall c
      ensures multiset(order)[c] == (if InBox(c, 0, rows - 1, 0, cols - 1) then 1 else 0)
    {
      SpiralCount(0, rows - 1, 0, cols - 1, c);
    }
  }

  /** The diagonal strategy visits every cell exactly once. */
  lemma DiagonalExactlyOnce(rows: int, cols: int)
    ensures ExactlyOnce(Diagonal(rows, cols), rows, cols)
  {
    forall c
      ensures multiset(Diagonal(rows, cols))[c] == (if InBox(c, 0, rows - 1, 0, cols - 1) then 1 else 0)
    {
      RowMajorCount(0, rows, cols, c);
      DiagonalsCount(RowMajor(0, rows, cols), 0, rows + cols - 2, c);
    }
  }

  // ---------------------------------------------------------------------
  // traverse

  /** The cell order of the named strategy over a `rows x cols` matrix, or
      `None` for a name the `switch` does not know. */
  function OrderOf(name: string, rows: int, cols: int): Option<seq<Cell>>
  {
    if name == "Row-Major Traversal" then Some(RowMajor(0, rows, cols))
    else if name == "Column-Major Traversal" then Some(ColumnMajor(0, rows, cols))
    else if name == "Spiral Traversal" then Some(Spiral(0, rows - 1, 0, cols - 1))
    else if name == "Diagonal Traversal" then Some(Diagonal(rows, cols))
    else None
  }

  /** The `addStep` frames for a visiting order: the `k`-th marks the `k`-th
      cell primary and every cell visited so far secondary. */
  function Visits(m: Matrix, order: seq<Cell>): (r: seq<GridStep>)
    ensures |r| == |order|
    ensures forall k :: 0 <= k < |order| ==>
      r[k] == Step(m, NoGridMarks.(primary := [order[k]], secondary := order[..k + 1]),
                   Visiting(order[k].row, order[k].col), NoMeta)
  {
    seq(|order|, k requires 0 <= k < |order| =>
      Step(m, NoGridMarks.(primary := [order[k]], secondary := order[..k + 1]),
           Visiting(order[k].row, order[k].col), NoMeta))
  }

  /** `visualizations.traverse`. An empty matrix gives no steps. Otherwise
      a starting step, one visiting step per cell of the strategy's order
      (an error step instead for an unknown strategy), and a completing step
      marking every visited cell as success. The width is the first row's. */
  function Traverse(m: Matrix, name: string): (r: seq<GridStep>)
    ensures |m| == 0 <==> r == []
    ensures forall k :: 0 <= k < |r| ==> r[k].snapshot == m
    ensures |m| > 0 ==>
      var order := OrderOf(name, |m|, |m[0]|);
      var visited := if order.Some? then order.value else [];
      && r[0] == Step(m, NoGridMarks, TraverseStart(name), NoMeta)
      && |r| == (if order.Some? then |visited| + 2 else 3)
      && (order.None? ==> r[1] == Step(m, NoGridMarks, UnknownTraversal(name), NoMeta))
      && (order.Some? ==> r[1..|r| - 1] == Visits(m, visited))
      && Last(r) == Step(m, NoGridMarks.(success := visited), TraverseDone(name), NoMeta)
  {
    if |m| == 0 then []
    else
      var start := Step(m, NoGridMarks, TraverseStart(name), NoMeta);
      match OrderOf(name, |m|, |m[0]|)
      case Some(order) =>
        [start] + Visits(m, order) + [Step(m, NoGridMarks.(success := order), TraverseDone(name), NoMeta)]
      case None =>
        [start, Step(m, NoGridMarks, UnknownTraversal(name), NoMeta),
         Step(m, NoGridMarks.(success := []), TraverseDone(name), NoMeta)]
  }

  /** Each of the four strategies visits every cell of a rectangular matrix
      exactly once, and the completing step lists them all. */
  lemma TraverseVisitsAll(m: Matrix, name: string)
    requires Rect(m) && |m| > 0 && OrderOf(name, |m|, |m[0]|).Some?
    ensures ExactlyOnce(Last(Traverse(m, name)).marks.success, |m|, |m[0]|)
  {
    var rows, cols := |m|, |m[0]|;
    RowMajorExactlyOnce(rows, cols);
    ColumnMajorExactlyOnce(rows, cols);
    SpiralExactlyOnce(rows, cols);
    DiagonalExactlyOnce(rows, cols);
  }

  /** The spiral over a 3 x 3 matrix holding 1 to 9 row by row reads
      1, 2, 3, 6, 9, 8, 7, 4, 5. */
  lemma SpiralThreeByThree()
    ensures Spiral(0, 2, 0, 2)
      == [Cell(0, 0), Cell(0, 1), Cell(0, 2), Cell(1, 2), Cell(2, 2), Cell(2, 1), Cell(2, 0), Cell(1, 0), Cell(1, 1)]
  {
    assert Ring(1, 1, 1, 1) == [Cell(1, 1)];
    assert Spiral(2, 1, 2, 0) == [];
    assert Ring(0, 2, 0, 2) == [Cell(0, 0), Cell(0, 1), Cell(0, 2), Cell(1, 2), Cell(2, 2), Cell(2, 1), Cell(2, 0), Cell(1, 0)];
  }

  /** On a rectangular matrix the search scans the cells in row-major
      order, the order of the row-major traversal. */
  lemma {:induction false} SearchOrder(m: Matrix, i: int, j: int)
    requires Rect(m) && 0 <= i < |m| && 0 <= j <= |m[0]|
    ensures CellsFrom(m, i, j) == Across(i, j, |m[0]| - 1) + RowMajor(i + 1, |m|, |m[0]|)
    decreases |m| - i, |m[0]| - j
  {
    var cols := |m[0]|;
    assert |m[i]| == cols;
    var rest := RowMajor(i + 1, |m|, cols);
    if j == cols {
      assert CellsFrom(m, i, j) == CellsFrom(m, i + 1, 0);
      if i + 1 < |m| {
        SearchOrder(m, i + 1, 0);
        assert rest == Across(i + 1, 0, cols - 1) + RowMajor(i + 2, |m|, cols);
      }
    } else {
      var tail := CellsFrom(m, i, j + 1);
      assert CellsFrom(m, i, j) == [Cell(i, j)] + tail;
      SearchOrder(m, i, j + 1);
      assert Across(i, j, cols - 1) == [Cell(i, j)] + Across(i, j + 1, cols - 1);
    }
  }

  /** `search` checks the cells of a rectangular matrix in row-major order
      up to and including the first holding the target, which it reports;
      when no cell holds it, it checks them all and reports not-found. */
  lemma SearchOutcome(m: Matrix, target: int)
    requires Rect(m)
    ensures var r := Search(m, target); var cells := CellsFrom(m, 0, 0);
      var h := FirstHit(m, target, cells);
      && cells == RowMajor(0, |m|, if |m| > 0 then |m[0]| else 0)
      && |r| == (if h < |cells| then h + 3 else h + 2)
      && (forall k :: 0 <= k < |r| - 2 ==> r[k + 1] == CheckStep(m, cells[k]))
      && (forall k :: 0 <= k < |r| ==> r[k].snapshot == m)
      && Last(r).desc == (if h < |cells| then CellFound(target, cells[h].row, cells[h].col) else CellNotFound(target))
  {
    var cells := CellsFrom(m, 0, 0);
    assert cells == RowMajor(0, |m|, if |m| > 0 then |m[0]| else 0) by {
      if |m| > 0 {
        SearchOrder(m, 0, 0);
      }
    }
    var r := Search(m, target);
    var t := ScanCells(m, target, cells);
    assert r == [r[0]] + t;
    ScanCellsOutcome(m, target, cells);
    LastAppend([r[0]], t);
    forall k | 0 <= k < |r| - 2
      ensures r[k + 1] == CheckStep(m, cells[k])
    {
      assert r[k + 1] == t[k];
    }
    forall k | 0 <= k < |r|
      ensures r[k].snapshot == m
    {
      if k > 0 {
        assert r[k] == t[k - 1];
      }
    }
  }
}
