/** The game board of `createGameBoard`: a square board of the same width
    (reached by delegation, here by holding it) plus a map from each of its
    cells to an optional value, with predicate queries over that map. */
module GameBoards {
  import opened Options
  import opened Cells
  import opened Sequences
  import opened Ints
  import SquareBoards

  /** The board object: the square board it delegates to and its `cellToValue` map.
      The map is insertion-ordered; its keys were inserted in `getAllCells()` order
      and `set` only overwrites values, so every scan of it follows that order. */
  datatype GameBoard<T> = GameBoard(board: SquareBoards.SquareBoard, cellToValue: map<Cell, Option<T>>)

  /** The key set of the map is exactly the set of cells of the board. */
  ghost predicate Valid<T>(g: GameBoard<T>)
  {
    && SquareBoards.Valid(g.board)
    && forall c :: c in g.cellToValue <==> OnBoard(g.board.width, c)
  }

  /** The cells in the order the map is scanned. */
  function Order<T>(g: GameBoard<T>): (r: seq<Cell>)
    requires Valid(g)
    ensures forall c :: c in r <==> c in g.cellToValue
  {
    SquareBoards.GetAllCells(g.board)
  }

  /** `createGameBoard(width)`: every cell of a fresh square board mapped to no value. */
  function CreateGameBoard<T>(width: Width): (g: GameBoard<T>)
    ensures Valid(g) && g.board == SquareBoards.CreateSquareBoard(width)
    ensures forall c | c in g.cellToValue :: g.cellToValue[c] == None
  {
    var b := SquareBoards.CreateSquareBoard(width);
    var cells := SquareBoards.GetAllCells(b);
    GameBoard(b, map c | c in cells :: None)
  }

  /** `get(cell)`: the value currently stored for a cell of this board. */
  function Get<T>(g: GameBoard<T>, c: Cell): Option<T>
    requires Valid(g) && OnBoard(g.board.width, c)
  {
    g.cellToValue[c]
  }

  /** `set(cell, value)`: overwrites the value of one cell of this board. */
  function Set<T>(g: GameBoard<T>, c: Cell, v: Option<T>): (r: GameBoard<T>)
    requires Valid(g) && OnBoard(g.board.width, c)
    ensures Valid(r) && r.board == g.board
    ensures r.cellToValue.Keys == g.cellToValue.Keys
    ensures Get(r, c) == v
    ensures forall c' | OnBoard(g.board.width, c') && c' != c :: Get(r, c') == Get(g, c')
  {
    g.(cellToValue := g.cellToValue[c := v])
  }

  /** `all(predicate)`: the predicate holds of the value of every cell. */
  function All<T>(g: GameBoard<T>, p: Option<T> -> bool): (r: bool)
    requires Valid(g)
    ensures r <==> forall c | OnBoard(g.board.width, c) :: p(Get(g, c))
  {
    forall c | c in g.cellToValue :: p(g.cellToValue[c])
  }

  /** `any(predicate)`: the predicate holds of the value of some cell. */
  function Any<T>(g: GameBoard<T>, p: Option<T> -> bool): (r: bool)
    requires Valid(g)
    ensures r <==> exists c | OnBoard(g.board.width, c) :: p(Get(g, c))
  {
    exists c | c in g.cellToValue :: p(g.cellToValue[c])
  }

  /** The cells of `cells` whose value in `m` satisfies `p`, in the order of `cells`. */
  function FilterCells<T>(cells: seq<Cell>, m: map<Cell, Option<T>>, p: Option<T> -> bool): (r: seq<Cell>)
    requires forall c | c in cells :: c in m
    ensures |r| <= |cells|
    ensures forall c :: c in r <==> c in cells && p(m[c])
    ensures Distinct(cells) ==> Distinct(r)
    ensures |r| == |cells| <==> forall c | c in cells :: p(m[c])
  {
    if |cells| == 0 then []
    else
      var rest := FilterCells(cells[1..], m, p);
      assert forall c | c in cells :: c == cells[0] || c in cells[1..];
      if p(m[cells[0]]) then [cells[0]] + rest else rest
  }

  /** Filtering from index `k` either keeps `cells[k]` in front or drops it. */
  lemma FilterCellsStep<T>(cells: seq<Cell>, k: int, m: map<Cell, Option<T>>, p: Option<T> -> bool)
    requires forall c | c in cells :: c in m
    requires 0 <= k < |cells|
    ensures FilterCells(cells[k..], m, p) ==
            if p(m[cells[k]]) then [cells[k]] + FilterCells(cells[k + 1..], m, p) else FilterCells(cells[k + 1..], m, p)
  {
    assert cells[k..][1..] == cells[k + 1..];
  }

  /** `filter(predicate)`: the cells whose value satisfies the predicate, each once,
      in the order of the map. */
  function Filter<T>(g: GameBoard<T>, p: Option<T> -> bool): (r: seq<Cell>)
    requires Valid(g)
    ensures forall c :: c in r <==> OnBoard(g.board.width, c) && p(Get(g, c))
    ensures Distinct(r)
  {
    FilterCells(Order(g), g.cellToValue, p)
  }

  /** `find(predicate)`: the first cell, in the order of the map, whose value satisfies
      the predicate; None when no cell's value does. */
  method Find<T>(g: GameBoard<T>, p: Option<T> -> bool) returns (r: Option<Cell>)
    requires Valid(g)
    ensures r == if |Filter(g, p)| == 0 then None else Some(Filter(g, p)[0])
  {
    var cells := Order(g);
    var k := 0;
    while k < |cells|
      invariant 0 <= k <= |cells|
      invariant FilterCells(cells[k..], g.cellToValue, p) == Filter(g, p)
    {
      FilterCellsStep(cells, k, g.cellToValue, p);
      if p(g.cellToValue[cells[k]]) {
        return Some(cells[k]);
      }
      k := k + 1;
    }
    return None;
  }

  /** Filtering keeps every cell exactly when every cell passes. */
  lemma {:induction false} FilterCellsKeepsAll<T>(cells: seq<Cell>, m: map<Cell, Option<T>>, p: Option<T> -> bool)
    requires forall c | c in cells :: c in m
    requires forall c | c in cells :: p(m[c])
    ensures FilterCells(cells, m, p) == cells
  {
    if |cells| > 0 {
      FilterCellsKeepsAll(cells[1..], m, p);
      assert cells == [cells[0]] + cells[1..];
    }
  }

  /** The four queries agree: `all` holds iff `filter` keeps every cell, `any` iff
      `filter` keeps some cell. */
  lemma QueriesAgree<T>(g: GameBoard<T>, p: Option<T> -> bool)
    requires Valid(g)
    ensures All(g, p) <==> Filter(g, p) == Order(g)
    ensures Any(g, p) <==> |Filter(g, p)| > 0
  {
    if All(g, p) {
      FilterCellsKeepsAll(Order(g), g.cellToValue, p);
    }
    if |Filter(g, p)| > 0 {
      assert Filter(g, p)[0] in Filter(g, p);
    }
  }

  /** A fresh game board stores no value anywhere, so every query sees only "no value":
      `all` is `p(None)` unless the board is empty, `any` is `p(None)` on a non-empty board. */
  lemma FreshBoardQueries<T>(width: Width, p: Option<T> -> bool)
    ensures forall c | OnBoard(width, c) :: Get(CreateGameBoard<T>(width), c) == None
    ensures All(CreateGameBoard<T>(width), p) <==> width == 0 || p(None)
    ensures Any(CreateGameBoard<T>(width), p) <==> width > 0 && p(None)
    ensures Filter(CreateGameBoard<T>(width), p) == if p(None) then Order(CreateGameBoard<T>(width)) else []
  {
    var g := CreateGameBoard<T>(width);
    if width > 0 {
      assert OnBoard(width, Cell(1, 1));
    }
    QueriesAgree(g, p);
  }

  /** A second `set` of the same cell overrides the first, and writing back the
      current value changes nothing. */
  lemma SetLaws<T>(g: GameBoard<T>, c: Cell, u: Option<T>, v: Option<T>)
    requires Valid(g) && OnBoard(g.board.width, c)
    ensures Set(Set(g, c, u), c, v) == Set(g, c, v)
    ensures Set(g, c, Get(g, c)) == g
  {
    assert Set(g, c, Get(g, c)).cellToValue == g.cellToValue;
  }

  /** After `set(cell, value)`, `filter` lists `cell` exactly when the predicate holds
      of `value`, and every other cell exactly as before. */
  lemma FilterAfterSet<T>(g: GameBoard<T>, c: Cell, v: Option<T>, p: Option<T> -> bool)
    requires Valid(g) && OnBoard(g.board.width, c)
    ensures c in Filter(Set(g, c, v), p) <==> p(v)
    ensures forall c' | c' != c :: c' in Filter(Set(g, c, v), p) <==> c' in Filter(g, p)
  {
  }

  /** On a 3 × 3 board holding "X" at (2, 2): the cell above (2, 2) is (1, 2), filtering
      for "X" gives the single cell (2, 2), and `getCell(4, 1)` fails. */
  lemma ScenarioWidthThree(isX: Option<string> -> bool)
    requires forall v :: isX(v) <==> v == Some("X")
    ensures var g := Set(CreateGameBoard<string>(3), Cell(2, 2), Some("X"));
            && SquareBoards.GetNeighbour(g.board, Cell(2, 2), Up) == Some(Cell(1, 2))
            && (forall c :: c in Filter(g, isX) <==> c == Cell(2, 2))
            && Any(g, isX) && !All(g, isX)
            && SquareBoards.GetCell(g.board, 4, 1) == Failure(SquareBoards.IllegalArgument(SquareBoards.IndexesOutOfRange))
  {
    var g0 := CreateGameBoard<string>(3);
    FreshBoardQueries(3, isX);
    var g := Set(g0, Cell(2, 2), Some("X"));
    assert OnBoard(3, Cell(1, 1)) && Get(g, Cell(1, 1)) == None;
  }
}
