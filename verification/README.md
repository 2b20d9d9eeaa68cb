# Square board and game board, modelled in Dafny

This project models `src/main/kotlin/board/BoardImpl.kt`, a small grid library in Kotlin. It has two parts.

* **Square board** (`createSquareBoard(width)`). The board is a `width × width` array of cells with 1-based coordinates. Slot `[a][b]` holds `Cell(a + 1, b + 1)`. It supports:
  * `getCellOrNull`, a bounds-checked lookup that returns absent off the board;
  * `getCell`, the same lookup that fails with "Indexes out of range" off the board;
  * `getAllCells`, every cell, row by row;
  * `getRow` and `getColumn`, slices along a progression of indexes that silently skip indexes off the board;
  * `getNeighbour`, one step UP, DOWN, RIGHT or LEFT, or absent past the edge.
* **Game board** (`createGameBoard(width)`). It is a square board of the same width plus a map `cellToValue` from every cell to an optional value. The map starts with every value absent. The game board supports:
  * `get` and `set`, which read and overwrite a cell's value;
  * `all`, `any`, `find` and `filter`, which are predicate queries over the stored values.

Files:

| file | module | contents |
|---|---|---|
| `options.dfy` | `Options` | `Option` (Kotlin's nullable `T?`) and `Result` (a value or the error `require` raises) |
| `ints.dfy` | `Ints` | Kotlin's 32-bit `Int`, and `Wrap`, the two's-complement overflow of its `+` and `-` |
| `cells.dfy` | `Cells` | `Cell`, `Direction`, `InRange`, `OnBoard`, `Adjacent` |
| `sequences.dfy` | `Sequences` | `getOrNull`, `flatMap`, `map` and `filterNotNull` on sequences; the quotient/remainder facts for row-major indexing |
| `square_board.dfy` | `SquareBoards` | the square board and its operations |
| `game_board.dfy` | `GameBoards` | the game board and its operations |

Modelling choices:

* The square board keeps its materialised `cells` array as `seq<seq<Cell>>`. `SquareBoards.Valid` states the shape `createSquareBoard` gives that array. Each lookup indexes the array the way the code does: first `Wrap(i - 1)`, then `getOrNull`. Each contract then states the result in terms of coordinates.
* Coordinates are Kotlin `Int`s (`Ints.Int32`). The `i - 1`, `i + 1`, `j - 1` and `j + 1` in the source wrap around, so the model writes that wrap out.
  * Inside `getCellOrNull`, the wrap never changes the answer.
  * In `getNeighbour`, the wrap is visible only for cells that are not on the board, and only on a board of width `Int.MAX_VALUE` (`SquareBoards.NeighbourWrapsAround`). The JVM cannot allocate an array that large, so this behaviour cannot actually be reached.
* A game board is a value `GameBoard(board, cellToValue)`. Kotlin's in-place `set` becomes the pure `GameBoards.Set`, which returns the updated board. The delegation `SquareBoard by createSquareBoard(width)` becomes plain composition: every square-board operation on a game board `g` is the same operation on `g.board`.
* `cellToValue` is built by `toMap(mutableMapOf())`, which makes an insertion-ordered map. Its keys are inserted in `getAllCells()` order, and `set` only overwrites existing keys. So every scan that `find` and `filter` make follows `getAllCells()` order (`GameBoards.Order`). `filter` returns the kept cells in that order, each once.
* A progression (`IntProgression`) is a `seq<Int32>` of indexes in iteration order. `SquareBoards.UpTo` (`lo..hi`) and `SquareBoards.DownTo` (`hi downTo lo`) build the two progressions that the full-row and full-column lemmas use.

Ordering in the code:

* `getAllCells` lists the cells row by row (`SquareBoards.AllCellsRowMajor`).
* `find` returns the first matching cell in map order, which is the first cell of `filter`'s result (`GameBoards.Find`).

## Model

| member | source | states |
|---|---|---|
| SquareBoards.CreateSquareBoard | src/main/kotlin/board/BoardImpl.kt:3-8 | The board has the requested width. Its array has `width` rows of `width` cells, and slot `[a][b]` holds the cell of row `a + 1`, column `b + 1`. |
| SquareBoards.GetCellOrNull | src/main/kotlin/board/BoardImpl.kt:10-12 | Returns `Some(Cell(i, j))` when `1 <= i <= width` and `1 <= j <= width`, and None otherwise. This holds at every `Int`, including where `i - 1` or `j - 1` overflows. |
| SquareBoards.GetCell | src/main/kotlin/board/BoardImpl.kt:14-18 | Succeeds exactly on the board. On success it returns `Cell(i, j)`, the same cell `getCellOrNull` gives. Off the board it fails with `IllegalArgument("Indexes out of range")`, where `getCellOrNull` gives None. |
| SquareBoards.GetAllCells | src/main/kotlin/board/BoardImpl.kt:20-24 | The result has no duplicates. A cell is in it exactly when that cell is on the board. |
| SquareBoards.AllCellsRowMajor | src/main/kotlin/board/BoardImpl.kt:20-24 | The result has `width * width` cells. The `k`-th cell is in row `k / width + 1`, column `k % width + 1`, so the listing is row by row and left to right. |
| SquareBoards.RowMajorContents | src/main/kotlin/board/BoardImpl.kt:20-24 | A row-major listing of a `width × width` board has no duplicates and holds exactly the cells of the board. |
| SquareBoards.GetRow | src/main/kotlin/board/BoardImpl.kt:26-28 | The result is never longer than the progression. Every result cell is on the board, in row `i`, at a requested column. Every requested on-board column of row `i` appears. |
| SquareBoards.GetColumn | src/main/kotlin/board/BoardImpl.kt:30-32 | The result is never longer than the progression. Every result cell is on the board, in column `j`, at a requested row. Every requested on-board row of column `j` appears. |
| SquareBoards.GetRowIsInRangeSubsequence | src/main/kotlin/board/BoardImpl.kt:26-28 | `getRow(i, jRange)` is the cells of row `i` at the in-range columns of `jRange`, in the requested order. It is empty when row `i` is off the board. |
| SquareBoards.GetColumnIsInRangeSubsequence | src/main/kotlin/board/BoardImpl.kt:30-32 | `getColumn(iRange, j)` is the cells of column `j` at the in-range rows of `iRange`, in the requested order. It is empty when column `j` is off the board. |
| SquareBoards.FullRow | src/main/kotlin/board/BoardImpl.kt:26-28 | `getRow(i, 1..width)` is the `width` cells of row `i`, left to right. `getRow(i, width downTo 1)` is the same cells, right to left. |
| SquareBoards.FullColumn | src/main/kotlin/board/BoardImpl.kt:30-32 | `getColumn(1..width, j)` is the `width` cells of column `j`, top to bottom. `getColumn(width downTo 1, j)` is the same cells, bottom to top. |
| SquareBoards.GetNeighbour | src/main/kotlin/board/BoardImpl.kt:34-42 | Any result is on the board. For any cell, on the board or not, whose coordinates are strictly inside the `Int` range, the result is the cell one step away (UP `(i - 1, j)`, DOWN `(i + 1, j)`, RIGHT `(i, j + 1)`, LEFT `(i, j - 1)`) when that cell is on the board, and None otherwise. For every cell, including one with a coordinate at `Int.MIN_VALUE` or `Int.MAX_VALUE`, the result is the cell one step away under 32-bit wrap-around when that cell is on the board, and None otherwise. For an on-board cell this means None exactly at the outward edge: UP from row 1, DOWN from row `width`, RIGHT from column `width`, LEFT from column 1. |
| SquareBoards.NeighbourRoundTrip | src/main/kotlin/board/BoardImpl.kt:34-42 | From an on-board cell, a neighbour is adjacent: one coordinate differs, by one. Stepping back in the opposite direction returns to the starting cell. |
| SquareBoards.NeighbourWrapsAround | src/main/kotlin/board/BoardImpl.kt:34-42 | On a board of width `Int.MAX_VALUE`, UP from row `Int.MIN_VALUE` lands on the last row, because `i - 1` overflows. LEFT from column `Int.MIN_VALUE` likewise lands on the last column. DOWN from the last row and RIGHT from the last column give None. |
| GameBoards.CreateGameBoard | src/main/kotlin/board/BoardImpl.kt:45-47 | The game board wraps a fresh square board of the same width. The keys of its map are exactly the board's cells, and every value is absent. |
| GameBoards.Set | src/main/kotlin/board/BoardImpl.kt:76-78 | After `set(c, v)`, `get(c)` is `v` and every other cell keeps its value. The key set and the square board are unchanged. |
| GameBoards.SetLaws | src/main/kotlin/board/BoardImpl.kt:76-78 | A second `set` of the same cell overrides the first. Writing back a cell's current value leaves the board unchanged. |
| GameBoards.All | src/main/kotlin/board/BoardImpl.kt:53-55 | `all(p)` holds exactly when `p` holds of the value of every cell of the board. |
| GameBoards.Any | src/main/kotlin/board/BoardImpl.kt:57-59 | `any(p)` holds exactly when `p` holds of the value of some cell of the board. |
| GameBoards.Filter | src/main/kotlin/board/BoardImpl.kt:72-74 | A cell is in `filter(p)` exactly when it is on the board and `p` holds of its value. The result has no duplicates. |
| GameBoards.Find | src/main/kotlin/board/BoardImpl.kt:68-70 | `find(p)` is None exactly when `filter(p)` is empty. Otherwise it is the first cell of `filter(p)`, which is the first matching cell in map order. |
| GameBoards.QueriesAgree | src/main/kotlin/board/BoardImpl.kt:53-74 | `all(p)` holds exactly when `filter(p)` keeps every cell in map order. `any(p)` holds exactly when `filter(p)` is non-empty. |
| GameBoards.FilterAfterSet | src/main/kotlin/board/BoardImpl.kt:72-78 | After `set(c, v)`, `filter(p)` contains `c` exactly when `p(v)` holds. Every other cell is in it exactly when it was before. |
| GameBoards.FreshBoardQueries | src/main/kotlin/board/BoardImpl.kt:45-74 | On a fresh game board, every `get` is absent. `all(p)` is `p(absent)`, or true when `width = 0`. `any(p)` is `p(absent)` on a non-empty board and false on an empty one. `filter(p)` is every cell or none. |
| GameBoards.ScenarioWidthThree | src/main/kotlin/board/BoardImpl.kt:14-78 | Take a 3 × 3 game board and set `(2, 2)` to "X". The UP neighbour of `(2, 2)` is `(1, 2)`. Filtering for "X" gives only `(2, 2)`. `any` holds and `all` does not. `getCell(4, 1)` fails with "Indexes out of range". |

## Left out

- Kotlin interface delegation (`SquareBoard by createSquareBoard(width)`) is modelled as composition: the game board holds its square board, and square-board operations are applied to that board.
- In-place mutation of `cellToValue` is modelled as a pure update that returns the new game board. Concurrent access is not modelled: the code is single-threaded and unsynchronised.
- Cells from another board passed to `get` or `set` are not modelled. Being on the board is a precondition of `GameBoards.Get` and `GameBoards.Set`, because the code does not check it and would insert an orphan key.
- Negative `width` is excluded by the type `Ints.Width`, because `Array(width)` throws for it. Widths up to `Int.MAX_VALUE` are admitted, although the JVM cannot allocate arrays that large.
- General `IntProgression` (first, last, step) is not modelled. A progression is its sequence of indexes.
- The laziness remark on `find` in the source's comment concerns Kotlin's collection iteration strategy, not observable results, so it is not modelled.
- Kotlin's nullable `T?` is modelled by the explicit `Option<T>`. The ambiguity when `T` is itself nullable therefore does not arise.
- The declarations of `Cell`, `Direction`, `SquareBoard` and `GameBoard` are not part of this model. Minimal datatypes stand in for them.
- The predicates passed to `all`, `any`, `find` and `filter` are modelled as pure, total functions. A Kotlin predicate that throws or has side effects would make the number and order of its calls observable, because `all`, `any` and `find` stop early. This model does not cover that.
- GameBoards.Get has no contract of its own because it is a plain map lookup. What it returns is stated by `GameBoards.Set`, `GameBoards.CreateGameBoard` and `GameBoards.FreshBoardQueries`.
