// One game: the logical fields of `gameState`, the per-cell revealed/flagged
// marks, and the click, flag, placement and reveal operations.
module Minesweeper {
  import opened Config
  import opened Grid
  import opened Draws

  /** What the `revealed` and `flagged` classes of a cell encode. */
  datatype CellState = Hidden | Revealed | Flagged

  const MINE := -1

  /** A cell's mark only ever goes from hidden to revealed. */
  predicate Grew(before: CellState, after: CellState)
  {
    before == after || (before == Hidden && after == Revealed)
  }

  class Game {
    const difficulty: Difficulty
    const rows: nat
    const cols: nat
    const mines: nat
    /** `gameState.board`: MINE or the cell's adjacent-mine count. */
    const board: array2<int>
    /** The revealed/flagged marks of every cell. */
    const state: array2<CellState>
    var mineLocations: seq<Cell>
    var revealed: int
    var gameOver: bool
    /** The outcome `endGame` announces; meaningful once `gameOver` holds. */
    var won: bool
    var firstClick: bool
    var minesLeft: int

    /** Dimensions agree with the preset. */
    ghost predicate Shaped()
    {
      var p := Settings(difficulty);
      rows == p.rows && cols == p.cols && mines == p.mines
      && board.Length0 == rows && board.Length1 == cols
      && state.Length0 == rows && state.Length1 == cols
    }

    /** The cells that hold a mine. */
    ghost function Mines(): set<Cell>
      reads board
    {
      set q | q in Cells(board.Length0, board.Length1) && board[q.0, q.1] == MINE
    }

    /** The cells that show 0. */
    ghost function Zeros(): set<Cell>
      reads board
    {
      set q | q in Cells(board.Length0, board.Length1) && board[q.0, q.1] == 0
    }

    /** The cells in state `s`. */
    ghost function CellsIn(s: CellState): set<Cell>
      reads state
    {
      set q | q in Cells(state.Length0, state.Length1) && state[q.0, q.1] == s
    }

    /** Cell (r, c) holds a mine or the number of mines around it. */
    ghost predicate CountOk(r: int, c: int)
      reads board
      requires 0 <= r < board.Length0 && 0 <= c < board.Length1
    {
      board[r, c] != MINE ==> board[r, c] == AdjacentCount(board.Length0, board.Length1, Mines(), (r, c))
    }

    /** Every non-mine cell holds the number of mines around it. */
    ghost predicate Counted()
      reads board
    {
      forall r, c | 0 <= r < board.Length0 && 0 <= c < board.Length1 :: CountOk(r, c)
    }

    /** No revealed cell holds a mine. */
    ghost predicate Clean()
      reads board, state
    {
      forall r, c | 0 <= r < state.Length0 && 0 <= c < state.Length1 && state[r, c] == Revealed ::
        0 <= r < board.Length0 && 0 <= c < board.Length1 && board[r, c] != MINE
    }

    ghost predicate Listed()
      reads this
    {
      (forall i, j | 0 <= i < j < |mineLocations| :: mineLocations[i] != mineLocations[j])
    }

    /** The part of the invariant that a reveal cascade relies on and keeps:
      * counts are right, no mine is uncovered, `revealed` counts the
      * uncovered cells. */
    ghost predicate Revealing()
      reads this, board, state
    {
      Shaped() && Counted() && Clean() && revealed == |CellsIn(Revealed)|
    }

    /** The invariant that holds between any two steps. */
    ghost predicate Coherent()
      reads this, board, state
    {
      Revealing()
      && minesLeft == mines - |CellsIn(Flagged)|
      && (firstClick ==> Mines() == {} && CellsIn(Revealed) == {} && !gameOver && mineLocations == [])
      && (!firstClick ==> |Mines()| == mines && Listed()
                          && (set p | p in mineLocations) == Mines())
      && (won ==> gameOver)
    }

    /** Coherent, and the win has been recorded exactly when the revealed
      * count reached the safe-cell count. */
    ghost predicate Valid()
      reads this, board, state
    {
      Coherent() && (won <==> revealed == rows * cols - mines)
    }

    /** Resetting `gameState` and building an all-zero board of hidden cells. */
    constructor (d: Difficulty)
      ensures Valid() && difficulty == d
      ensures firstClick && !gameOver && revealed == 0 && minesLeft == mines
      ensures CellsIn(Revealed) == {} && CellsIn(Flagged) == {}
      ensures forall r, c | 0 <= r < rows && 0 <= c < cols :: board[r, c] == 0
      ensures fresh(board) && fresh(state)
    {
      var p := Settings(d);
      difficulty := d;
      rows, cols, mines := p.rows, p.cols, p.mines;
      board := new int[p.rows, p.cols]((r, c) => 0);
      state := new CellState[p.rows, p.cols]((r, c) => Hidden);
      mineLocations := [];
      revealed := 0;
      gameOver, won, firstClick := false, false, true;
      minesLeft := p.mines;
      new;
      assert Mines() == {} by {
        forall q ensures q !in Mines() { }
      }
      assert CellsIn(Revealed) == {} by {
        forall q ensures q !in CellsIn(Revealed) { }
      }
      assert CellsIn(Flagged) == {} by {
        forall q ensures q !in CellsIn(Flagged) { }
      }
      ZeroBoardCounted();
    }

    /** A board of zeros without mines is correctly counted. */
    lemma ZeroBoardCounted()
      requires Shaped()
      requires forall r, c | 0 <= r < rows && 0 <= c < cols :: board[r, c] == 0
      ensures Counted()
    {
      assert Mines() == {} by {
        forall q ensures q !in Mines() { }
      }
      forall r, c | 0 <= r < rows && 0 <= c < cols
        ensures CountOk(r, c)
      {
        assert Neighbours(rows, cols, (r, c)) * {} == {};
      }
    }

    /** One step of the scan along row r: the count grows by one exactly
      * when cell (r, c) holds a mine and is not (row, col) itself. */
    lemma ScanStepAgrees(row: int, col: int, r: int, c: int)
      requires board.Length0 == rows && board.Length1 == cols
      requires row - 1 <= r <= row + 1 && Max(0, col - 1) <= c <= col + 1 && 0 <= r < rows && c < cols
      ensures RowMines(rows, cols, (row, col), Mines(), r, c + 1)
              == RowMines(rows, cols, (row, col), Mines(), r, c) + if (r != row || c != col) && board[r, c] == MINE then 1 else 0
    {
    }

    /** `countAdjacentMines`: scans the clipped 3x3 block around the cell. */
    method CountAdjacentMines(row: int, col: int) returns (count: int)
      requires board.Length0 == rows && board.Length1 == cols
      requires 0 <= row < rows && 0 <= col < cols
      ensures count == AdjacentCount(rows, cols, Mines(), (row, col))
      ensures 0 <= count <= 8
    {
      ghost var m := Mines();
      var rLo, rHi := Max(0, row - 1), Min(rows - 1, row + 1);
      count := 0;
      var r := rLo;
      while r <= rHi
        invariant rLo <= r <= rHi + 1
        invariant count == BlockMines(rows, cols, (row, col), m, r)
      {
        var n := CountRow(row, col, r, m);
        BlockStep(rows, cols, (row, col), m, r);
        count := count + n;
        r := r + 1;
      }
      ScanCountsNeighbours(row, col, count);
    }

    /** A finished scan of the clipped block counts the adjacent mines. */
    lemma ScanCountsNeighbours(row: int, col: int, count: int)
      requires 0 <= row < rows && 0 <= col < cols
      requires count == BlockMines(rows, cols, (row, col), Mines(), Min(rows - 1, row + 1) + 1)
      ensures count == AdjacentCount(rows, cols, Mines(), (row, col))
      ensures 0 <= count <= 8
    {
      BlockMinesAreAdjacent(rows, cols, (row, col), Mines());
      AdjacentCountBound(rows, cols, Mines(), (row, col));
    }

    /** The inner loop of `countAdjacentMines`: the mines of row r within
      * the clipped block, the centre cell skipped. */
    method CountRow(row: int, col: int, r: int, ghost m: set<Cell>) returns (n: int)
      requires board.Length0 == rows && board.Length1 == cols && m == Mines()
      requires 0 <= col < cols && row - 1 <= r <= row + 1 && 0 <= r < rows
      ensures n == RowMines(rows, cols, (row, col), m, r, Min(cols - 1, col + 1) + 1)
    {
      var cLo, cHi := Max(0, col - 1), Min(cols - 1, col + 1);
      n := 0;
      var c := cLo;
      while c <= cHi
        invariant cLo <= c <= cHi + 1
        invariant n == RowMines(rows, cols, (row, col), m, r, c)
      {
        ScanStepAgrees(row, col, r, c);
        if r != row || c != col {
          if board[r, c] == MINE {
            n := n + 1;
          }
        }
        c := c + 1;
      }
    }

    /** Marks a mine, as `gameState.board[row][col] = -1` does. */
    method PutMine(row: int, col: int)
      requires 0 <= row < board.Length0 && 0 <= col < board.Length1
      modifies board
      ensures Mines() == old(Mines()) + {(row, col)}
      ensures forall r, c | 0 <= r < board.Length0 && 0 <= c < board.Length1 && (r != row || c != col) ::
                board[r, c] == old(board[r, c])
    {
      board[row, col] := MINE;
      assert Mines() == old(Mines()) + {(row, col)} by {
        forall q ensures q in Mines() <==> q in old(Mines()) + {(row, col)} { }
      }
    }

    /** Writes a count into a cell that holds no mine. */
    method PutCount(row: int, col: int, v: int)
      requires 0 <= row < board.Length0 && 0 <= col < board.Length1
      requires board[row, col] != MINE && v != MINE
      modifies board
      ensures Mines() == old(Mines())
      ensures board[row, col] == v
      ensures forall r, c | 0 <= r < board.Length0 && 0 <= c < board.Length1 && (r != row || c != col) ::
                board[r, c] == old(board[r, c])
    {
      board[row, col] := v;
      assert Mines() == old(Mines()) by {
        forall q ensures q in Mines() <==> q in old(Mines()) { }
      }
    }

    /** `placeMines`: accepts drawn cells until `mines` are placed, then writes
      * every other cell's adjacent-mine count. `draws` stands for the
      * successive `Math.random` cells. */
    method PlaceMines(firstRow: int, firstCol: int, draws: seq<Cell>)
      requires Shaped()
      requires 0 <= firstRow < rows && 0 <= firstCol < cols
      requires Mines() == {}
      requires Suffices(rows, cols, mines, draws, (firstRow, firstCol))
      modifies this`mineLocations, board
      ensures mineLocations == Accepted(draws, (firstRow, firstCol), mines)
      ensures Mines() == Elems(mineLocations)
      ensures |Mines()| == mines && (firstRow, firstCol) !in Mines()
      ensures Listed() && Counted()
    {
      DrawMines(firstRow, firstCol, draws);
      AcceptedFacts(draws, (firstRow, firstCol), mines);
      DistinctSize(mineLocations);
      FillCounts();
    }

    /** The first half of `placeMines`: draws are taken in order until
      * `mines` of them have been accepted as mines. */
    method DrawMines(firstRow: int, firstCol: int, draws: seq<Cell>)
      requires Shaped()
      requires 0 <= firstRow < rows && 0 <= firstCol < cols
      requires Mines() == {}
      requires Suffices(rows, cols, mines, draws, (firstRow, firstCol))
      modifies this`mineLocations, board
      ensures mineLocations == Accepted(draws, (firstRow, firstCol), mines)
      ensures Mines() == Elems(mineLocations)
    {
      ghost var first := (firstRow, firstCol);
      mineLocations := [];
      var minesPlaced := 0;
      var i := 0;
      AcceptedFacts(draws, first, mines);
      while minesPlaced < mines
        invariant 0 <= i <= |draws|
        invariant mineLocations == Accepted(draws[..i], first, mines)
        invariant minesPlaced == |mineLocations|
        invariant Mines() == Elems(mineLocations)
        decreases |draws| - i
      {
        if i == |draws| {
          AcceptedFacts(draws[..i], first, mines);
          assert draws[..i] == draws;
          DistinctSize(mineLocations);
          assert false;
        }
        var (row, col) := draws[i];
        assert draws[..i + 1][..i] == draws[..i];
        if (row != firstRow || col != firstCol) && board[row, col] != MINE {
          PutMine(row, col);
          mineLocations := mineLocations + [(row, col)];
          minesPlaced := minesPlaced + 1;
        }
        i := i + 1;
      }
      AcceptedSaturates(draws, i, first, mines);
    }

    /** The second half of `placeMines`: every cell without a mine gets its
      * adjacent-mine count; the mines stay where they are. */
    method FillCounts()
      requires board.Length0 == rows && board.Length1 == cols
      modifies board
      ensures Mines() == old(Mines())
      ensures forall r, c | 0 <= r < rows && 0 <= c < cols && board[r, c] != MINE ::
                board[r, c] == AdjacentCount(rows, cols, Mines(), (r, c))
    {
      var row := 0;
      while row < rows
        invariant 0 <= row <= rows
        invariant Mines() == old(Mines())
        invariant forall r, c | 0 <= r < row && 0 <= c < cols && board[r, c] != MINE ::
                    board[r, c] == AdjacentCount(rows, cols, Mines(), (r, c))
      {
        FillRow(row);
        row := row + 1;
      }
    }

    /** One row of the count fill. */
    method FillRow(row: int)
      requires board.Length0 == rows && board.Length1 == cols
      requires 0 <= row < rows
      modifies board
      ensures Mines() == old(Mines())
      ensures forall c | 0 <= c < cols && board[row, c] != MINE ::
                board[row, c] == AdjacentCount(rows, cols, Mines(), (row, c))
      ensures forall r, c | 0 <= r < rows && r != row && 0 <= c < cols :: board[r, c] == old(board[r, c])
    {
      ghost var placed := Mines();
      var col := 0;
      while col < cols
        invariant 0 <= col <= cols
        invariant Mines() == placed
        invariant forall c | 0 <= c < col && board[row, c] != MINE ::
                    board[row, c] == AdjacentCount(rows, cols, placed, (row, c))
        invariant forall r, c | 0 <= r < rows && r != row && 0 <= c < cols :: board[r, c] == old(board[r, c])
      {
        if board[row, col] != MINE {
          var count := CountAdjacentMines(row, col);
          PutCount(row, col, count);
        }
        col := col + 1;
      }
    }

    /** A zero cell has no mine anywhere in its clipped block. */
    lemma SafeAroundZero(row: int, col: int)
      requires Shaped() && Counted()
      requires 0 <= row < rows && 0 <= col < cols && board[row, col] == 0
      ensures forall r, c | row - 1 <= r <= row + 1 && col - 1 <= c <= col + 1 && 0 <= r < rows && 0 <= c < cols
                && (r != row || c != col) :: board[r, c] != MINE
    {
      assert CountOk(row, col);
      forall r, c | row - 1 <= r <= row + 1 && col - 1 <= c <= col + 1 && 0 <= r < rows && 0 <= c < cols
                    && (r != row || c != col)
        ensures board[r, c] != MINE
      {
        ZeroCountMeansSafeNeighbours(rows, cols, Mines(), (row, col), (r, c));
      }
    }

    /** Gives one cell a new mark, as adding or removing its element's
      * `revealed` or `flagged` class does. */
    method Retag(row: int, col: int, mark: CellState)
      requires 0 <= row < state.Length0 && 0 <= col < state.Length1 && state[row, col] != mark
      modifies state
      ensures state[row, col] == mark
      ensures forall r, c | 0 <= r < state.Length0 && 0 <= c < state.Length1 && (r != row || c != col) ::
                state[r, c] == old(state[r, c])
      ensures CellsIn(mark) == old(CellsIn(mark)) + {(row, col)} && (row, col) !in old(CellsIn(mark))
      ensures CellsIn(old(state[row, col])) == old(CellsIn(state[row, col])) - {(row, col)}
      ensures (row, col) in old(CellsIn(state[row, col]))
      ensures forall s | s != mark && s != old(state[row, col]) :: CellsIn(s) == old(CellsIn(s))
    {
      ghost var was := state[row, col];
      state[row, col] := mark;
      forall q ensures q in CellsIn(mark) <==> q in old(CellsIn(mark)) + {(row, col)} { }
      forall q ensures q in CellsIn(was) <==> q in old(CellsIn(was)) - {(row, col)} { }
      forall s | s != mark && s != was ensures CellsIn(s) == old(CellsIn(s)) {
        forall q ensures q in CellsIn(s) <==> q in old(CellsIn(s)) { }
      }
    }

    /** No cell of the clipped block around (row, col) is still hidden: each
      * is revealed or, since `revealCell` skips flagged cells, flagged. */
    ghost predicate NoneHidden(row: int, col: int)
      reads state
    {
      forall r, c | row - 1 <= r <= row + 1 && col - 1 <= c <= col + 1
                    && 0 <= r < state.Length0 && 0 <= c < state.Length1 :: state[r, c] != Hidden
    }

    /** `revealCell`: uncovers a hidden cell and, when it shows 0, every cell
      * around it in turn; revealed and flagged cells are left alone. The
      * cells it uncovers lie in every set that holds (row, col) and is
      * closed under the cascade. */
    method RevealCell(row: int, col: int)
      requires Revealing()
      requires 0 <= row < rows && 0 <= col < cols
      requires state[row, col] == Hidden ==> board[row, col] != MINE
      modifies this`revealed, state
      decreases |CellsIn(Hidden)|, 3
      ensures Revealing()
      ensures state[row, col] != Hidden
      ensures old(state[row, col]) != Hidden ==> revealed == old(revealed) && unchanged(state)
      ensures forall r, c {:trigger state[r, c]} | 0 <= r < rows && 0 <= c < cols :: Grew(old(state[r, c]), state[r, c])
      ensures CellsIn(Hidden) <= old(CellsIn(Hidden)) && |CellsIn(Hidden)| <= old(|CellsIn(Hidden)|)
      ensures forall r, c {:trigger NoneHidden(r, c)} | 0 <= r < rows && 0 <= c < cols && old(state[r, c]) == Hidden
                && state[r, c] == Revealed && board[r, c] == 0 :: NoneHidden(r, c)
      ensures forall s | (row, col) in s && Closed(rows, cols, s, old(CellsIn(Hidden)), Zeros()) ::
                old(CellsIn(Hidden)) - CellsIn(Hidden) <= s
      ensures old(state[row, col]) == Hidden && board[row, col] != 0 ==>
                CellsIn(Hidden) == old(CellsIn(Hidden)) - {(row, col)} && revealed == old(revealed) + 1
    {
      if state[row, col] != Hidden {
        return;
      }
      Uncover(row, col);
    }

    /** The body of `revealCell` for a hidden cell: add the `revealed`
      * class, count it, and cascade when it shows 0. */
    method Uncover(row: int, col: int)
      requires Revealing()
      requires 0 <= row < rows && 0 <= col < cols
      requires state[row, col] == Hidden && board[row, col] != MINE
      modifies this`revealed, state
      decreases |CellsIn(Hidden)|, 2
      ensures Revealing()
      ensures state[row, col] == Revealed
      ensures forall r, c {:trigger state[r, c]} | 0 <= r < rows && 0 <= c < cols :: Grew(old(state[r, c]), state[r, c])
      ensures CellsIn(Hidden) <= old(CellsIn(Hidden)) && |CellsIn(Hidden)| <= old(|CellsIn(Hidden)|)
      ensures forall r, c {:trigger NoneHidden(r, c)} | 0 <= r < rows && 0 <= c < cols && old(state[r, c]) == Hidden
                && state[r, c] == Revealed && board[r, c] == 0 :: NoneHidden(r, c)
      ensures forall s | (row, col) in s && Closed(rows, cols, s, old(CellsIn(Hidden)), Zeros()) ::
                old(CellsIn(Hidden)) - CellsIn(Hidden) <= s
      ensures board[row, col] != 0 ==>
                CellsIn(Hidden) == old(CellsIn(Hidden)) - {(row, col)} && revealed == old(revealed) + 1
    {
      ghost var hidden := CellsIn(Hidden);
      MarkRevealed(row, col);
      if board[row, col] == 0 {
        SafeAroundZero(row, col);
        RevealAround(row, col, hidden);
      }
      forall s | (row, col) in s && Closed(rows, cols, s, hidden, Zeros())
        ensures hidden - CellsIn(Hidden) <= s
      {
        DiffChain(hidden, hidden - {(row, col)}, CellsIn(Hidden), s);
      }
    }

    /** Adds the `revealed` class to a hidden safe cell and counts it. */
    method MarkRevealed(row: int, col: int)
      requires Revealing()
      requires 0 <= row < rows && 0 <= col < cols
      requires state[row, col] == Hidden && board[row, col] != MINE
      modifies this`revealed, state
      ensures Revealing()
      ensures revealed == old(revealed) + 1
      ensures state[row, col] == Revealed
      ensures forall r, c | 0 <= r < rows && 0 <= c < cols && (r != row || c != col) :: state[r, c] == old(state[r, c])
      ensures CellsIn(Hidden) == old(CellsIn(Hidden)) - {(row, col)} && (row, col) in old(CellsIn(Hidden))
    {
      Retag(row, col, Revealed);
      revealed := revealed + 1;
    }

    /** The loop of `revealCell` over the clipped block around a zero cell.
      * `hidden` holds the hidden cells before the cell itself was revealed. */
    method RevealAround(row: int, col: int, ghost hidden: set<Cell>)
      requires Revealing()
      requires 0 <= row < rows && 0 <= col < cols
      requires board[row, col] == 0 && state[row, col] == Revealed
      requires forall r, c | row - 1 <= r <= row + 1 && col - 1 <= c <= col + 1 && 0 <= r < rows && 0 <= c < cols
                 && (r != row || c != col) :: board[r, c] != MINE
      requires CellsIn(Hidden) <= hidden && (row, col) in hidden && |CellsIn(Hidden)| < |hidden|
      modifies this`revealed, state
      decreases |hidden|, 1
      ensures Revealing()
      ensures forall r, c {:trigger state[r, c]} | 0 <= r < rows && 0 <= c < cols :: Grew(old(state[r, c]), state[r, c])
      ensures CellsIn(Hidden) <= old(CellsIn(Hidden)) && |CellsIn(Hidden)| <= old(|CellsIn(Hidden)|)
      ensures NoneHidden(row, col)
      ensures forall r, c {:trigger NoneHidden(r, c)} | 0 <= r < rows && 0 <= c < cols && old(state[r, c]) == Hidden
                && state[r, c] == Revealed && board[r, c] == 0 :: NoneHidden(r, c)
      ensures forall s | (row, col) in s && Closed(rows, cols, s, hidden, Zeros()) ::
                old(CellsIn(Hidden)) - CellsIn(Hidden) <= s
    {
      var r := Max(0, row - 1);
      while r <= Min(rows - 1, row + 1)
        invariant Max(0, row - 1) <= r <= Min(rows - 1, row + 1) + 1
        invariant Revealing() && state[row, col] == Revealed
        invariant forall i, j {:trigger state[i, j]} | 0 <= i < rows && 0 <= j < cols :: Grew(old(state[i, j]), state[i, j])
        invariant CellsIn(Hidden) <= old(CellsIn(Hidden)) && |CellsIn(Hidden)| <= old(|CellsIn(Hidden)|)
        invariant forall i, j | Max(0, row - 1) <= i < r && Max(0, col - 1) <= j <= Min(cols - 1, col + 1) ::
                    state[i, j] != Hidden
        invariant forall i, j {:trigger NoneHidden(i, j)} | 0 <= i < rows && 0 <= j < cols && old(state[i, j]) == Hidden
                    && state[i, j] == Revealed && board[i, j] == 0 :: NoneHidden(i, j)
        invariant forall s | (row, col) in s && Closed(rows, cols, s, hidden, Zeros()) ::
                    old(CellsIn(Hidden)) - CellsIn(Hidden) <= s
      {
        label Before:
        RevealRow(row, col, r, hidden);
        forall i, j {:trigger NoneHidden(i, j)} | 0 <= i < rows && 0 <= j < cols && old(state[i, j]) == Hidden
                      && state[i, j] == Revealed && board[i, j] == 0
          ensures NoneHidden(i, j)
        {
          if old@Before(state[i, j]) != Hidden {
            assert old@Before(NoneHidden(i, j));
          }
        }
        forall i, j | Max(0, row - 1) <= i <= r && Max(0, col - 1) <= j <= Min(cols - 1, col + 1)
          ensures state[i, j] != Hidden
        {
          if i < r {
            assert old@Before(state[i, j]) != Hidden;
            assert Grew(old@Before(state[i, j]), state[i, j]);
          }
        }
        forall s | (row, col) in s && Closed(rows, cols, s, hidden, Zeros())
          ensures old(CellsIn(Hidden)) - CellsIn(Hidden) <= s
        {
          DiffChain(old(CellsIn(Hidden)), old@Before(CellsIn(Hidden)), CellsIn(Hidden), s);
        }
        r := r + 1;
      }
    }

    /** One row of the loop of `revealCell` around a zero cell. */
    method RevealRow(row: int, col: int, r: int, ghost hidden: set<Cell>)
      requires Revealing()
      requires 0 <= row < rows && 0 <= col < cols
      requires board[row, col] == 0 && state[row, col] == Revealed
      requires forall r, c | row - 1 <= r <= row + 1 && col - 1 <= c <= col + 1 && 0 <= r < rows && 0 <= c < cols
                 && (r != row || c != col) :: board[r, c] != MINE
      requires Max(0, row - 1) <= r <= Min(rows - 1, row + 1)
      requires CellsIn(Hidden) <= hidden && (row, col) in hidden && |CellsIn(Hidden)| < |hidden|
      modifies this`revealed, state
      decreases |hidden|, 0
      ensures Revealing() && state[row, col] == Revealed
      ensures forall i, j {:trigger state[i, j]} | 0 <= i < rows && 0 <= j < cols :: Grew(old(state[i, j]), state[i, j])
      ensures CellsIn(Hidden) <= old(CellsIn(Hidden)) && |CellsIn(Hidden)| <= old(|CellsIn(Hidden)|)
      ensures forall j | Max(0, col - 1) <= j <= Min(cols - 1, col + 1) :: state[r, j] != Hidden
      ensures forall i, j {:trigger NoneHidden(i, j)} | 0 <= i < rows && 0 <= j < cols && old(state[i, j]) == Hidden
                && state[i, j] == Revealed && board[i, j] == 0 :: NoneHidden(i, j)
      ensures forall s | (row, col) in s && Closed(rows, cols, s, hidden, Zeros()) ::
                old(CellsIn(Hidden)) - CellsIn(Hidden) <= s
    {
      assert (row, col) in Zeros() by {
        assert (row, col) in Cells(rows, cols);
      }
      var c := Max(0, col - 1);
      while c <= Min(cols - 1, col + 1)
        invariant Max(0, col - 1) <= c <= Min(cols - 1, col + 1) + 1
        invariant Revealing() && state[row, col] == Revealed
        invariant forall i, j {:trigger state[i, j]} | 0 <= i < rows && 0 <= j < cols :: Grew(old(state[i, j]), state[i, j])
        invariant CellsIn(Hidden) <= old(CellsIn(Hidden)) && |CellsIn(Hidden)| <= old(|CellsIn(Hidden)|)
        invariant forall j | Max(0, col - 1) <= j < c :: state[r, j] != Hidden
        invariant forall i, j {:trigger NoneHidden(i, j)} | 0 <= i < rows && 0 <= j < cols && old(state[i, j]) == Hidden
                    && state[i, j] == Revealed && board[i, j] == 0 :: NoneHidden(i, j)
        invariant forall s | (row, col) in s && Closed(rows, cols, s, hidden, Zeros()) ::
                    old(CellsIn(Hidden)) - CellsIn(Hidden) <= s
      {
        label Before:
        if r != row || c != col {
          RevealCell(r, c);
        }
        forall i, j {:trigger NoneHidden(i, j)} | 0 <= i < rows && 0 <= j < cols && old(state[i, j]) == Hidden
                      && state[i, j] == Revealed && board[i, j] == 0
          ensures NoneHidden(i, j)
        {
          if old@Before(state[i, j]) != Hidden {
            assert old@Before(NoneHidden(i, j));
          }
        }
        forall j | Max(0, col - 1) <= j <= c
          ensures state[r, j] != Hidden
        {
          if j < c {
            assert old@Before(state[r, j]) != Hidden;
            assert Grew(old@Before(state[r, j]), state[r, j]);
          }
        }
        forall s | (row, col) in s && Closed(rows, cols, s, hidden, Zeros())
          ensures old(CellsIn(Hidden)) - CellsIn(Hidden) <= s
        {
          if (r != row || c != col) && old@Before(state[r, c]) == Hidden {
            assert (r, c) in old@Before(CellsIn(Hidden)) by {
              assert (r, c) in Cells(rows, cols);
            }
            assert Adjacent(rows, cols, (row, col), (r, c));
            ClosedShrinks(rows, cols, s, hidden, old@Before(CellsIn(Hidden)), Zeros());
          }
          DiffChain(old(CellsIn(Hidden)), old@Before(CellsIn(Hidden)), CellsIn(Hidden), s);
        }
        c := c + 1;
      }
    }

    /** The revealed count reaches rows * cols - mines exactly when every
      * cell without a mine is uncovered. */
    lemma WinMeansAllSafeRevealed()
      requires Revealing() && |Mines()| == mines
      ensures revealed == rows * cols - mines <==> Cells(rows, cols) - Mines() <= CellsIn(Revealed)
    {
      assert CellsIn(Revealed) * Mines() == {} by {
        forall q | q in CellsIn(Revealed) ensures q !in Mines() { }
      }
      WinThreshold(rows, cols, Mines(), CellsIn(Revealed));
    }

    /** `endGame`: the game stops, with the win or loss message. */
    method EndGame(isWin: bool)
      modifies this`gameOver, this`won
      ensures gameOver && won == isWin
    {
      gameOver := true;
      won := isWin;
    }

    /** `checkWin`: ends the game as a win once every safe cell is revealed. */
    method CheckWin()
      requires Coherent() && !firstClick && !gameOver
      modifies this`gameOver, this`won
      ensures Valid()
      ensures gameOver == won == (revealed == rows * cols - mines)
    {
      if revealed == rows * cols - mines {
        EndGame(true);
      }
    }

    /** `handleRightClick`: toggles the flag of a cell that is not revealed,
      * moving the mines-left counter the other way. */
    method RightClick(row: int, col: int)
      requires Valid()
      requires 0 <= row < rows && 0 <= col < cols
      modifies this`minesLeft, state
      ensures Valid()
      ensures old(gameOver) || old(state[row, col]) == Revealed ==> minesLeft == old(minesLeft) && unchanged(state)
      ensures !old(gameOver) && old(state[row, col]) == Flagged ==>
                state[row, col] == Hidden && minesLeft == old(minesLeft) + 1
      ensures !old(gameOver) && old(state[row, col]) == Hidden ==>
                state[row, col] == Flagged && minesLeft == old(minesLeft) - 1
      ensures forall r, c | 0 <= r < rows && 0 <= c < cols && (r != row || c != col) :: state[r, c] == old(state[r, c])
    {
      if gameOver || state[row, col] == Revealed {
        return;
      }
      if state[row, col] == Flagged {
        SetMark(row, col, Hidden);
        minesLeft := minesLeft + 1;
      } else {
        SetMark(row, col, Flagged);
        minesLeft := minesLeft - 1;
      }
    }

    /** Adds or removes the `flagged` class of a cell that is not revealed. */
    method SetMark(row: int, col: int, mark: CellState)
      requires Shaped() && Clean()
      requires 0 <= row < rows && 0 <= col < cols
      requires state[row, col] != Revealed && mark != Revealed && state[row, col] != mark
      modifies state
      ensures Clean()
      ensures state[row, col] == mark
      ensures forall r, c | 0 <= r < rows && 0 <= c < cols && (r != row || c != col) :: state[r, c] == old(state[r, c])
      ensures CellsIn(Revealed) == old(CellsIn(Revealed))
      ensures mark == Flagged ==> |CellsIn(Flagged)| == old(|CellsIn(Flagged)|) + 1
      ensures mark == Hidden ==> |CellsIn(Flagged)| == old(|CellsIn(Flagged)|) - 1
    {
      Retag(row, col, mark);
      if mark == Hidden {
        AddOne(CellsIn(Flagged), (row, col));
      } else {
        AddOne(old(CellsIn(Flagged)), (row, col));
      }
    }

    /** `handleCellClick`: ignored once the game is over or on a flagged cell;
      * the first click places the mines away from the clicked cell; a mine
      * loses the game; any other cell is revealed and the win is checked.
      * `draws` is only consulted on the first click. */
    method Click(row: int, col: int, draws: seq<Cell>)
      requires Valid()
      requires 0 <= row < rows && 0 <= col < cols
      requires firstClick ==> Suffices(rows, cols, mines, draws, (row, col))
      modifies this`firstClick, this`mineLocations, this`revealed, this`gameOver, this`won, board, state
      ensures Valid()
      ensures minesLeft == old(minesLeft) && CellsIn(Flagged) == old(CellsIn(Flagged))
      ensures !old(firstClick) ==> unchanged(board) && mineLocations == old(mineLocations)
      ensures old(gameOver) || old(state[row, col]) == Flagged ==>
                unchanged(this) && unchanged(board) && unchanged(state)
      ensures !old(gameOver) && old(state[row, col]) != Flagged ==> !firstClick
      ensures !old(gameOver) && old(state[row, col]) != Flagged && old(firstClick) ==>
                mineLocations == Accepted(draws, (row, col), mines) && (row, col) !in Mines()
      ensures !old(gameOver) && old(state[row, col]) != Flagged && (row, col) in Mines() ==>
                gameOver && !won && unchanged(state)
      ensures !old(gameOver) && old(state[row, col]) != Flagged && (row, col) !in Mines() ==>
                state[row, col] == Revealed
                && (gameOver <==> won)
                && (won <==> Cells(rows, cols) - Mines() <= CellsIn(Revealed))
                && old(CellsIn(Revealed)) <= CellsIn(Revealed)
                && revealed - old(revealed) == |CellsIn(Revealed) - old(CellsIn(Revealed))|
                && Flood(rows, cols, (row, col), CellsIn(Revealed) - old(CellsIn(Revealed)), old(CellsIn(Hidden)), Zeros())
      ensures !old(gameOver) && old(state[row, col]) == Hidden && (row, col) !in Mines() && board[row, col] != 0 ==>
                CellsIn(Revealed) == old(CellsIn(Revealed)) + {(row, col)}
    {
      if gameOver || state[row, col] == Flagged {
        return;
      }
      if firstClick {
        firstClick := false;
        forall r, c | 0 <= r < rows && 0 <= c < cols ensures state[r, c] != Revealed {
          assert (r, c) in Cells(rows, cols);
          assert (r, c) !in CellsIn(Revealed);
        }
        PlaceMines(row, col, draws);
      }
      if board[row, col] == MINE {
        EndGame(false);
        return;
      }
      RevealAndCheck(row, col);
    }

    /** The end of `handleCellClick` on a cell without a mine: reveal it
      * (with its cascade), then check for the win. */
    method RevealAndCheck(row: int, col: int)
      requires Coherent() && !firstClick && !gameOver
      requires 0 <= row < rows && 0 <= col < cols
      requires board[row, col] != MINE && state[row, col] != Flagged
      modifies this`revealed, this`gameOver, this`won, state
      ensures Valid()
      ensures state[row, col] == Revealed
      ensures gameOver <==> won
      ensures won <==> Cells(rows, cols) - Mines() <= CellsIn(Revealed)
      ensures CellsIn(Flagged) == old(CellsIn(Flagged))
      ensures old(CellsIn(Revealed)) <= CellsIn(Revealed)
      ensures revealed - old(revealed) == |CellsIn(Revealed) - old(CellsIn(Revealed))|
      ensures Flood(rows, cols, (row, col), CellsIn(Revealed) - old(CellsIn(Revealed)), old(CellsIn(Hidden)), Zeros())
      ensures old(state[row, col]) == Hidden && board[row, col] != 0 ==>
                CellsIn(Revealed) == old(CellsIn(Revealed)) + {(row, col)}
    {
      RevealCounted(row, col);
      CheckWin();
      WinMeansAllSafeRevealed();
    }

    /** `revealCell` seen from the click: the cell and its cascade are
      * uncovered, `revealed` rises by the number of newly uncovered cells,
      * and the flags stay as they were. The newly uncovered cells are
      * exactly the least set that holds (row, col) and is closed under the
      * cascade; a hidden cell that does not show 0 uncovers only itself. */
    method RevealCounted(row: int, col: int)
      requires Coherent() && !firstClick && !gameOver
      requires 0 <= row < rows && 0 <= col < cols
      requires board[row, col] != MINE && state[row, col] != Flagged
      modifies this`revealed, state
      ensures Coherent() && !firstClick && !gameOver
      ensures state[row, col] == Revealed
      ensures CellsIn(Flagged) == old(CellsIn(Flagged))
      ensures old(CellsIn(Revealed)) <= CellsIn(Revealed)
      ensures revealed - old(revealed) == |CellsIn(Revealed) - old(CellsIn(Revealed))|
      ensures CellsIn(Revealed) - old(CellsIn(Revealed)) == old(CellsIn(Hidden)) - CellsIn(Hidden)
      ensures Flood(rows, cols, (row, col), CellsIn(Revealed) - old(CellsIn(Revealed)), old(CellsIn(Hidden)), Zeros())
      ensures old(state[row, col]) == Hidden && board[row, col] != 0 ==>
                CellsIn(Revealed) == old(CellsIn(Revealed)) + {(row, col)}
    {
      RevealTracked(row, col);
      GrowthCount(old(CellsIn(Revealed)), CellsIn(Revealed));
      CascadeClosed(old(CellsIn(Hidden)));
      if old(state[row, col]) == Hidden && board[row, col] != 0 {
        assert (row, col) !in Zeros();
        LoneCellClosed(rows, cols, (row, col), old(CellsIn(Hidden)), Zeros());
      }
    }

    /** `revealCell` from the click, in terms of sets: the revealed cells
      * grow by exactly the cells that stop being hidden, the flags stay,
      * and the cascade facts of `RevealCell` carry over. */
    method RevealTracked(row: int, col: int)
      requires Coherent() && !firstClick && !gameOver
      requires 0 <= row < rows && 0 <= col < cols
      requires board[row, col] != MINE && state[row, col] != Flagged
      modifies this`revealed, state
      ensures Coherent() && !firstClick && !gameOver
      ensures state[row, col] == Revealed
      ensures CellsIn(Flagged) == old(CellsIn(Flagged))
      ensures old(CellsIn(Revealed)) <= CellsIn(Revealed)
      ensures CellsIn(Revealed) - old(CellsIn(Revealed)) == old(CellsIn(Hidden)) - CellsIn(Hidden)
      ensures CellsIn(Hidden) <= old(CellsIn(Hidden))
      ensures old(state[row, col]) == Hidden ==> (row, col) in old(CellsIn(Hidden)) - CellsIn(Hidden)
      ensures forall z | z in old(CellsIn(Hidden)) - CellsIn(Hidden) && z in Zeros() :: NoneHidden(z.0, z.1)
      ensures forall s | (row, col) in s && Closed(rows, cols, s, old(CellsIn(Hidden)), Zeros()) ::
                old(CellsIn(Hidden)) - CellsIn(Hidden) <= s
    {
      RevealCell(row, col);
      forall q | q in old(CellsIn(Revealed)) ensures q in CellsIn(Revealed) {
        assert Grew(old(state[q.0, q.1]), state[q.0, q.1]);
      }
      assert CellsIn(Flagged) == old(CellsIn(Flagged)) by {
        forall q ensures q in CellsIn(Flagged) <==> q in old(CellsIn(Flagged)) { }
      }
      forall q | q in Cells(rows, cols)
        ensures q in CellsIn(Revealed) - old(CellsIn(Revealed)) <==> q in old(CellsIn(Hidden)) - CellsIn(Hidden)
      {
        assert Grew(old(state[q.0, q.1]), state[q.0, q.1]);
      }
      forall z | z in old(CellsIn(Hidden)) - CellsIn(Hidden) && z in Zeros() ensures NoneHidden(z.0, z.1) {
        assert Grew(old(state[z.0, z.1]), state[z.0, z.1]);
      }
      assert (row, col) in Cells(rows, cols);
    }

    /** The cells a cascade newly uncovered form a closed set: every zero
      * cell among them has its whole block uncovered. */
    lemma CascadeClosed(hidden: set<Cell>)
      requires Shaped()
      requires CellsIn(Hidden) <= hidden
      requires forall z | z in hidden - CellsIn(Hidden) && z in Zeros() :: NoneHidden(z.0, z.1)
      ensures Closed(rows, cols, hidden - CellsIn(Hidden), hidden, Zeros())
    {
      forall z, q | z in hidden - CellsIn(Hidden) && z in hidden && z in Zeros() && q in hidden
                    && Adjacent(rows, cols, z, q)
        ensures q in hidden - CellsIn(Hidden)
      {
        assert NoneHidden(z.0, z.1);
        assert q in Cells(rows, cols);
      }
    }
  }
}
