/** The square board of `createSquareBoard`: a `width × width` array of cells
    built once, with bounds-checked lookup, row and column slices and
    neighbour navigation. */
module SquareBoards {
  import opened Options
  import opened Ints
  import opened Cells
  import opened Sequences

  /** The failure raised by Kotlin's `require`. */
  datatype Error = IllegalArgument(message: string)

  const IndexesOutOfRange: string := "Indexes out of range"

  /** The board object: its width and the materialised `cells` array,
      whose slot `[a][b]` holds the cell of row `a + 1`, column `b + 1`. */
  datatype SquareBoard = SquareBoard(width: Width, cells: seq<seq<Cell>>)

  /** The shape and contents `createSquareBoard` gives the array. */
  ghost predicate Valid(b: SquareBoard)
  {
    && |b.cells| == b.width
    && forall a | 0 <= a < |b.cells| ::
         && |b.cells[a]| == b.width
         && forall c | 0 <= c < |b.cells[a]| :: b.cells[a][c].i == a + 1 && b.cells[a][c].j == c + 1
  }

  /** `createSquareBoard(width)`: every slot `[a][b]` gets `Cell(a + 1, b + 1)`. */
  function CreateSquareBoard(width: Width): (b: SquareBoard)
    ensures Valid(b) && b.width == width
  {
    SquareBoard(width, seq(width, a requires 0 <= a < width =>
                                    seq(width, c requires 0 <= c < width => Cell(a + 1, c + 1))))
  }

  /** `getCellOrNull(i, j)`: the cell at row `i`, column `j`, or None off the board. */
  function GetCellOrNull(b: SquareBoard, i: Int32, j: Int32): (r: Option<Cell>)
    requires Valid(b)
    ensures r == (if OnBoard(b.width, Cell(i, j)) then Some(Cell(i, j)) else None)
  {
    var row := GetOrNull(b.cells, Wrap(i - 1));
    if row.None? then None else GetOrNull(row.value, Wrap(j - 1))
  }

  /** `getCell(i, j)`: like `GetCellOrNull`, but off the board it fails. */
  function GetCell(b: SquareBoard, i: Int32, j: Int32): (r: Result<Cell, Error>)
    requires Valid(b)
    ensures r.Success? <==> OnBoard(b.width, Cell(i, j))
    ensures r.Success? ==> r.value == Cell(i, j) && GetCellOrNull(b, i, j) == Some(r.value)
    ensures r.Failure? ==> r.error == IllegalArgument(IndexesOutOfRange) && GetCellOrNull(b, i, j) == None
  {
    var cellOrNull := GetCellOrNull(b, i, j);
    if cellOrNull.None? then Failure(IllegalArgument(IndexesOutOfRange)) else Success(cellOrNull.value)
  }

  /** Cell `k` of a row-major listing of a `width × width` board lies in
      row `k / width + 1`, column `k % width + 1`. */
  ghost predicate RowMajor(width: Width, cells: seq<Cell>)
  {
    && |cells| == width * width
    && forall k | 0 <= k < |cells| :: 0 < width && cells[k].i == k / width + 1 && cells[k].j == k % width + 1
  }

  /** `getAllCells()`: the rows of the array concatenated, so every cell of the
      board exactly once. */
  function GetAllCells(b: SquareBoard): (r: seq<Cell>)
    requires Valid(b)
    ensures Distinct(r)
    ensures forall c :: c in r <==> OnBoard(b.width, c)
  {
    FlattenIsRowMajor(b);
    RowMajorContents(b.width, Flatten(b.cells));
    Flatten(b.cells)
  }

  /** `getAllCells()` lists the board row by row, each row left to right:
      `width * width` cells, the `k`-th in row `k / width + 1`, column `k % width + 1`. */
  lemma AllCellsRowMajor(b: SquareBoard)
    requires Valid(b)
    ensures RowMajor(b.width, GetAllCells(b))
  {
    FlattenIsRowMajor(b);
  }

  lemma FlattenIsRowMajor(b: SquareBoard)
    requires Valid(b)
    ensures RowMajor(b.width, Flatten(b.cells))
  {
    var w := b.width;
    FlattenLength(b.cells, w);
    forall k | 0 <= k < |Flatten(b.cells)|
      ensures 0 < w && Flatten(b.cells)[k].i == k / w + 1 && Flatten(b.cells)[k].j == k % w + 1
    {
      assert 0 < w;
      DivBelow(k, w, w);
      var a, c := k / w, k % w;
      FlattenAt(b.cells, w, a, c);
      assert Flatten(b.cells)[k] == b.cells[a][c];
    }
  }

  /** A row-major listing holds each cell of the board exactly once and nothing else. */
  lemma RowMajorContents(width: Width, cells: seq<Cell>)
    requires RowMajor(width, cells)
    ensures Distinct(cells)
    ensures forall c :: c in cells <==> OnBoard(width, c)
  {
    forall p, q | 0 <= p < q < |cells|
      ensures cells[p] != cells[q]
    {
      RowMajorAt(width, cells, p);
      RowMajorAt(width, cells, q);
    }
    forall c | c in cells
      ensures OnBoard(width, c)
    {
      var k :| 0 <= k < |cells| && cells[k] == c;
      RowMajorAt(width, cells, k);
    }
    forall c | OnBoard(width, c)
      ensures c in cells
    {
      RowMajorHas(width, cells, c);
    }
  }

  /** Index `k` of a row-major listing is the only index of its cell, and that cell is on the board. */
  lemma RowMajorAt(width: Width, cells: seq<Cell>, k: int)
    requires RowMajor(width, cells) && 0 <= k < |cells|
    ensures OnBoard(width, cells[k])
    ensures k == (cells[k].i - 1) * width + (cells[k].j - 1)
  {
    var w := width;
    assert 0 < w;
    DivBelow(k, w, w);
    assert k == (k / w) * w + k % w;
  }

  /** Every cell of the board sits in a row-major listing at index `(i - 1) * width + (j - 1)`. */
  lemma RowMajorHas(width: Width, cells: seq<Cell>, c: Cell)
    requires RowMajor(width, cells) && OnBoard(width, c)
    ensures c in cells
  {
    var w, a, b := width, c.i - 1, c.j - 1;
    IndexBelowSquare(a, b, w);
    var k := a * w + b;
    DivModUnique(k, w, a, b);
    assert cells[k].i == a + 1 && cells[k].j == b + 1;
    assert cells[k] == c;
  }

  /** Row-major index `a * w + b` of a cell of a `w × w` board lies below `w * w`. */
  lemma IndexBelowSquare(a: int, b: int, w: int)
    requires 0 <= a < w && 0 <= b < w
    ensures 0 <= a * w + b < w * w
  {
    assert 0 <= a * w;
    assert w * w == a * w + (w - a) * w;
    MulAtLeast(w - a, w);
  }

  /** `getRow(i, jRange)`: the cells of row `i` at the requested columns, in
      the requested order, skipping columns off the board. */
  function GetRow(b: SquareBoard, i: Int32, jRange: seq<Int32>): (r: seq<Cell>)
    requires Valid(b)
    ensures |r| <= |jRange|
    ensures forall c | c in r :: c.i == i && c.j in jRange && OnBoard(b.width, c)
    ensures forall j | j in jRange && OnBoard(b.width, Cell(i, j)) :: Cell(i, j) in r
  {
    FilterNotNull(Map(LookupInRow(b, i), jRange))
  }

  /** `{ j -> getCellOrNull(i, j) }`, the lookup `getRow` maps over its columns. */
  function LookupInRow(b: SquareBoard, i: Int32): Int32 -> Option<Cell>
    requires Valid(b)
  {
    (j: Int32) => GetCellOrNull(b, i, j)
  }

  /** `{ i -> getCellOrNull(i, j) }`, the lookup `getColumn` maps over its rows. */
  function LookupInColumn(b: SquareBoard, j: Int32): Int32 -> Option<Cell>
    requires Valid(b)
  {
    (i: Int32) => GetCellOrNull(b, i, j)
  }

  /** `getColumn(iRange, j)`: the cells of column `j` at the requested rows, in
      the requested order, skipping rows off the board. */
  function GetColumn(b: SquareBoard, iRange: seq<Int32>, j: Int32): (r: seq<Cell>)
    requires Valid(b)
    ensures |r| <= |iRange|
    ensures forall c | c in r :: c.j == j && c.i in iRange && OnBoard(b.width, c)
    ensures forall i | i in iRange && OnBoard(b.width, Cell(i, j)) :: Cell(i, j) in r
  {
    FilterNotNull(Map(LookupInColumn(b, j), iRange))
  }

  /** The requested indexes that are valid coordinates on a board of the given width, in the requested order. */
  function InRangeIndexes(width: int, ks: seq<Int32>): (r: seq<Int32>)
    ensures |r| <= |ks|
    ensures forall k | k in r :: k in ks && InRange(width, k)
  {
    if |ks| == 0 then []
    else (if InRange(width, ks[0]) then [ks[0]] else []) + InRangeIndexes(width, ks[1..])
  }

  /** The cells of row `i` at columns `js`, in that order. */
  function RowCells(i: Int32, js: seq<Int32>): seq<Cell>
  {
    seq(|js|, n requires 0 <= n < |js| => Cell(i, js[n]))
  }

  /** The cells of column `j` at rows `is_`, in that order. */
  function ColumnCells(is_: seq<Int32>, j: Int32): seq<Cell>
  {
    seq(|is_|, n requires 0 <= n < |is_| => Cell(is_[n], j))
  }

  /** `getRow` keeps exactly the in-range columns, in the requested order,
      and is empty when the row itself is off the board. */
  lemma {:induction false} GetRowIsInRangeSubsequence(b: SquareBoard, i: Int32, jRange: seq<Int32>)
    requires Valid(b)
    ensures GetRow(b, i, jRange) ==
            if InRange(b.width, i) then RowCells(i, InRangeIndexes(b.width, jRange)) else []
  {
    if |jRange| > 0 {
      var j, rest := jRange[0], jRange[1..];
      GetRowIsInRangeSubsequence(b, i, rest);
      var f := LookupInRow(b, i);
      assert Map(f, jRange) == [f(j)] + Map(f, rest);
      FilterNotNullCons(f(j), Map(f, rest));
      var head := if InRange(b.width, j) then [j] else [];
      assert InRangeIndexes(b.width, jRange) == head + InRangeIndexes(b.width, rest);
      RowCellsAppend(i, head, InRangeIndexes(b.width, rest));
    }
  }

  /** `getColumn` keeps exactly the in-range rows, in the requested order,
      and is empty when the column itself is off the board. */
  lemma {:induction false} GetColumnIsInRangeSubsequence(b: SquareBoard, iRange: seq<Int32>, j: Int32)
    requires Valid(b)
    ensures GetColumn(b, iRange, j) ==
            if InRange(b.width, j) then ColumnCells(InRangeIndexes(b.width, iRange), j) else []
  {
    if |iRange| > 0 {
      var i, rest := iRange[0], iRange[1..];
      GetColumnIsInRangeSubsequence(b, rest, j);
      var f := LookupInColumn(b, j);
      assert Map(f, iRange) == [f(i)] + Map(f, rest);
      FilterNotNullCons(f(i), Map(f, rest));
      var head := if InRange(b.width, i) then [i] else [];
      assert InRangeIndexes(b.width, iRange) == head + InRangeIndexes(b.width, rest);
      ColumnCellsAppend(head, InRangeIndexes(b.width, rest), j);
    }
  }

  lemma RowCellsAppend(i: Int32, xs: seq<Int32>, ys: seq<Int32>)
    ensures RowCells(i, xs + ys) == RowCells(i, xs) + RowCells(i, ys)
  {
  }

  lemma ColumnCellsAppend(xs: seq<Int32>, ys: seq<Int32>, j: Int32)
    ensures ColumnCells(xs + ys, j) == ColumnCells(xs, j) + ColumnCells(ys, j)
  {
  }

  /** `lo..hi`: the ascending progression from `lo` to `hi`, empty when `hi < lo`. */
  function UpTo(lo: Int32, hi: Int32): seq<Int32>
  {
    seq(if hi < lo then 0 else hi - lo + 1, n requires 0 <= n < (if hi < lo then 0 else hi - lo + 1) => lo + n)
  }

  /** `hi downTo lo`: the descending progression from `hi` to `lo`, empty when `hi < lo`. */
  function DownTo(hi: Int32, lo: Int32): seq<Int32>
  {
    seq(if hi < lo then 0 else hi - lo + 1, n requires 0 <= n < (if hi < lo then 0 else hi - lo + 1) => hi - n)
  }

  /** A progression that stays on the board loses nothing to the range filter. */
  lemma {:induction false} InRangeIndexesKeepsAll(width: int, ks: seq<Int32>)
    requires forall n | 0 <= n < |ks| :: InRange(width, ks[n])
    ensures InRangeIndexes(width, ks) == ks
  {
    if |ks| > 0 {
      InRangeIndexesKeepsAll(width, ks[1..]);
    }
  }

  /** `getRow(i, 1..width)` is row `i` left to right, and
      `getRow(i, width downTo 1)` the same row right to left. */
  lemma FullRow(b: SquareBoard, i: Int32)
    requires Valid(b) && InRange(b.width, i)
    ensures var r := GetRow(b, i, UpTo(1, b.width));
            |r| == b.width && forall n | 0 <= n < |r| :: r[n] == Cell(i, n + 1)
    ensures var r := GetRow(b, i, DownTo(b.width, 1));
            |r| == b.width && forall n | 0 <= n < |r| :: r[n] == Cell(i, b.width - n)
  {
    ProgressionsWithinBoard(b.width);
    RowWithinBoard(b, i, UpTo(1, b.width));
    RowWithinBoard(b, i, DownTo(b.width, 1));
  }

  /** `getColumn(1..width, j)` is column `j` top to bottom, and
      `getColumn(width downTo 1, j)` the same column bottom to top. */
  lemma FullColumn(b: SquareBoard, j: Int32)
    requires Valid(b) && InRange(b.width, j)
    ensures var r := GetColumn(b, UpTo(1, b.width), j);
            |r| == b.width && forall n | 0 <= n < |r| :: r[n] == Cell(n + 1, j)
    ensures var r := GetColumn(b, DownTo(b.width, 1), j);
            |r| == b.width && forall n | 0 <= n < |r| :: r[n] == Cell(b.width - n, j)
  {
    ProgressionsWithinBoard(b.width);
    ColumnWithinBoard(b, UpTo(1, b.width), j);
    ColumnWithinBoard(b, DownTo(b.width, 1), j);
  }

  lemma RowWithinBoard(b: SquareBoard, i: Int32, jRange: seq<Int32>)
    requires Valid(b) && InRange(b.width, i)
    requires forall n | 0 <= n < |jRange| :: InRange(b.width, jRange[n])
    ensures var r := GetRow(b, i, jRange);
            |r| == |jRange| && forall n | 0 <= n < |r| :: r[n] == Cell(i, jRange[n])
  {
    InRangeIndexesKeepsAll(b.width, jRange);
    GetRowIsInRangeSubsequence(b, i, jRange);
  }

  lemma ColumnWithinBoard(b: SquareBoard, iRange: seq<Int32>, j: Int32)
    requires Valid(b) && InRange(b.width, j)
    requires forall n | 0 <= n < |iRange| :: InRange(b.width, iRange[n])
    ensures var r := GetColumn(b, iRange, j);
            |r| == |iRange| && forall n | 0 <= n < |r| :: r[n] == Cell(iRange[n], j)
  {
    InRangeIndexesKeepsAll(b.width, iRange);
    GetColumnIsInRangeSubsequence(b, iRange, j);
  }

  lemma ProgressionsWithinBoard(w: Width)
    ensures |UpTo(1, w)| == w && |DownTo(w, 1)| == w
    ensures forall n | 0 <= n < w :: UpTo(1, w)[n] == n + 1 && DownTo(w, 1)[n] == w - n
    ensures forall n | 0 <= n < w :: InRange(w, UpTo(1, w)[n]) && InRange(w, DownTo(w, 1)[n])
  {
  }

  /** `cell.getNeighbour(direction)`: the adjacent cell one step in `direction`
      (UP is row - 1, DOWN row + 1, RIGHT column + 1, LEFT column - 1), or None
      when that step leaves the board. The receiver may be any cell, on the board
      or not; only a step past the `Int` range wraps around, and the wrapped cell
      is then looked up like any other. */
  function GetNeighbour(b: SquareBoard, c: Cell, d: Direction): (r: Option<Cell>)
    requires Valid(b)
    ensures r.Some? ==> OnBoard(b.width, r.value)
    ensures var n := match d
                     case Up => Cell(Wrap(c.i - 1), c.j)
                     case Down => Cell(Wrap(c.i + 1), c.j)
                     case Right => Cell(c.i, Wrap(c.j + 1))
                     case Left => Cell(c.i, Wrap(c.j - 1));
            r == if OnBoard(b.width, n) then Some(n) else None
    ensures MinInt32 < c.i < MaxInt32 && MinInt32 < c.j < MaxInt32 ==>
              var n := match d
                       case Up => Cell(c.i - 1, c.j)
                       case Down => Cell(c.i + 1, c.j)
                       case Right => Cell(c.i, c.j + 1)
                       case Left => Cell(c.i, c.j - 1);
              r == if OnBoard(b.width, n) then Some(n) else None
    ensures OnBoard(b.width, c) ==>
              r == match d
                   case Up => if c.i > 1 then Some(Cell(c.i - 1, c.j)) else None
                   case Down => if c.i < b.width then Some(Cell(c.i + 1, c.j)) else None
                   case Right => if c.j < b.width then Some(Cell(c.i, c.j + 1)) else None
                   case Left => if c.j > 1 then Some(Cell(c.i, c.j - 1)) else None
  {
    var (neighbourI, neighbourJ) := match d
      case Up => (Wrap(c.i - 1), c.j)
      case Down => (Wrap(c.i + 1), c.j)
      case Right => (c.i, Wrap(c.j + 1))
      case Left => (c.i, Wrap(c.j - 1));
    GetCellOrNull(b, neighbourI, neighbourJ)
  }

  /** Stepping to a neighbour and back in the opposite direction returns to the start,
      and a neighbour differs from its cell in exactly one coordinate, by one. */
  lemma NeighbourRoundTrip(b: SquareBoard, c: Cell, d: Direction)
    requires Valid(b) && OnBoard(b.width, c)
    ensures GetNeighbour(b, c, d).Some? ==>
              && GetNeighbour(b, GetNeighbour(b, c, d).value, Opposite(d)) == Some(c)
              && Adjacent(c, GetNeighbour(b, c, d).value)
  {
    match d
    case Up =>
    case Down =>
    case Right =>
    case Left =>
  }

  /** Kotlin's `Int` wraps: on a board of width `Int.MAX_VALUE`, stepping UP from row
      `Int.MIN_VALUE` (or LEFT from column `Int.MIN_VALUE`) lands on the last row (column). */
  lemma NeighbourWrapsAround(b: SquareBoard, k: Int32)
    requires Valid(b) && b.width == MaxInt32 && InRange(b.width, k)
    ensures GetNeighbour(b, Cell(MinInt32, k), Up) == Some(Cell(MaxInt32, k))
    ensures GetNeighbour(b, Cell(k, MinInt32), Left) == Some(Cell(k, MaxInt32))
    ensures GetNeighbour(b, Cell(MaxInt32, k), Down) == None
    ensures GetNeighbour(b, Cell(k, MaxInt32), Right) == None
  {
  }
}
