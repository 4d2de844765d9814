// Cells of a rows x cols board and their clipped 8-neighbourhoods.
module Grid {
  /** A cell as (row, col), 0-indexed. */
  type Cell = (int, int)

  function Max(a: int, b: int): (m: int)
  {
    if a < b then b else a
  }

  function Min(a: int, b: int): (m: int)
  {
    if a < b then a else b
  }

  predicate InBounds(rows: int, cols: int, p: Cell)
  {
    0 <= p.0 < rows && 0 <= p.1 < cols
  }

  /** Every cell of the board. */
  function Cells(rows: int, cols: int): (s: set<Cell>)
    ensures forall q :: q in s <==> InBounds(rows, cols, q)
  {
    set r, c | 0 <= r < rows && 0 <= c < cols :: (r, c)
  }

  /** The cells of row `r` with a column below `n`. */
  function RowCells(r: int, n: int): (s: set<Cell>)
    ensures forall q :: q in s <==> q.0 == r && 0 <= q.1 < n
  {
    set c | 0 <= c < n :: (r, c)
  }

  /** `q` is one of the up-to-8 cells around `p` that lie on the board. */
  predicate Adjacent(rows: int, cols: int, p: Cell, q: Cell)
  {
    p.0 - 1 <= q.0 <= p.0 + 1 && p.1 - 1 <= q.1 <= p.1 + 1 && InBounds(rows, cols, q) && q != p
  }

  /** The up-to-8 cells around `p`, clipped to the board, without `p` itself. */
  function Neighbours(rows: int, cols: int, p: Cell): (n: set<Cell>)
  {
    set q | q in Cells(rows, cols) && Adjacent(rows, cols, p, q)
  }

  /** The neighbours of `p` that a row-major scan reaches before cell (r, c). */
  function Scanned(rows: int, cols: int, p: Cell, r: int, c: int): (s: set<Cell>)
  {
    set q | q in Neighbours(rows, cols, p) && (q.0 < r || (q.0 == r && q.1 < c))
  }

  /** Scanning cell (r, c) adds it to the scanned set when it is a neighbour. */
  lemma ScanCell(rows: int, cols: int, p: Cell, mines: set<Cell>, r: int, c: int)
    ensures Seen(rows, cols, p, mines, r, c + 1) == Seen(rows, cols, p, mines, r, c) + Hit(rows, cols, p, mines, r, c)
  {
    var before := Scanned(rows, cols, p, r, c);
    assert (r, c) !in before;
    if Adjacent(rows, cols, p, (r, c)) {
      assert Scanned(rows, cols, p, r, c + 1) == before + {(r, c)};
      ScanStep(before, mines, (r, c));
    } else {
      assert Scanned(rows, cols, p, r, c + 1) == before;
    }
  }

  /** Starting row r of the clipped block is finishing row r - 1. */
  lemma ScanNextRow(rows: int, cols: int, p: Cell, r: int)
    ensures Scanned(rows, cols, p, r, Max(0, p.1 - 1)) == Scanned(rows, cols, p, r - 1, Min(cols - 1, p.1 + 1) + 1)
  {
  }

  /** The scan starts empty and ends with the whole neighbourhood. */
  lemma ScanBounds(rows: int, cols: int, p: Cell)
    ensures Scanned(rows, cols, p, Max(0, p.0 - 1), Max(0, p.1 - 1)) == {}
    ensures Scanned(rows, cols, p, Min(rows - 1, p.0 + 1) + 1, Max(0, p.1 - 1)) == Neighbours(rows, cols, p)
  {
  }

  /** 1 when cell (r, c) is a mine next to `p`, else 0. */
  function Hit(rows: int, cols: int, p: Cell, mines: set<Cell>, r: int, c: int): (h: nat)
  {
    if Adjacent(rows, cols, p, (r, c)) && (r, c) in mines then 1 else 0
  }

  /** The mines a scan of row r around `p` meets from the first clipped
    * column up to column c - 1. */
  function RowMines(rows: int, cols: int, p: Cell, mines: set<Cell>, r: int, c: int): (m: nat)
    decreases c
  {
    if c <= Max(0, p.1 - 1) then 0
    else RowMines(rows, cols, p, mines, r, c - 1) + Hit(rows, cols, p, mines, r, c - 1)
  }

  /** The mines a scan of the clipped rows around `p` meets above row r. */
  function BlockMines(rows: int, cols: int, p: Cell, mines: set<Cell>, r: int): (m: nat)
    decreases r
  {
    if r <= Max(0, p.0 - 1) then 0
    else BlockMines(rows, cols, p, mines, r - 1) + RowMines(rows, cols, p, mines, r - 1, Min(cols - 1, p.1 + 1) + 1)
  }

  /** Finishing row r of the clipped block adds that row's mines. */
  lemma BlockStep(rows: int, cols: int, p: Cell, mines: set<Cell>, r: int)
    requires Max(0, p.0 - 1) <= r
    ensures BlockMines(rows, cols, p, mines, r + 1)
            == BlockMines(rows, cols, p, mines, r) + RowMines(rows, cols, p, mines, r, Min(cols - 1, p.1 + 1) + 1)
  {
  }

  /** The mines among the neighbours of `p` that the scan has passed before (r, c). */
  function Seen(rows: int, cols: int, p: Cell, mines: set<Cell>, r: int, c: int): (m: nat)
  {
    |Scanned(rows, cols, p, r, c) * mines|
  }

  /** Within row r, the scan meets RowMines more mines than it had met at
    * the row's start. */
  lemma {:induction false} SeenInRow(rows: int, cols: int, p: Cell, mines: set<Cell>, r: int, c: int)
    requires Max(0, p.1 - 1) <= c
    ensures Seen(rows, cols, p, mines, r, c) == Seen(rows, cols, p, mines, r, Max(0, p.1 - 1)) + RowMines(rows, cols, p, mines, r, c)
    decreases c
  {
    if c > Max(0, p.1 - 1) {
      SeenInRow(rows, cols, p, mines, r, c - 1);
      ScanCell(rows, cols, p, mines, r, c - 1);
      assert RowMines(rows, cols, p, mines, r, c)
             == RowMines(rows, cols, p, mines, r, c - 1) + Hit(rows, cols, p, mines, r, c - 1);
    }
  }

  /** At the start of row r, the scan has met BlockMines mines. */
  lemma {:induction false} SeenAtRowStart(rows: int, cols: int, p: Cell, mines: set<Cell>, r: int)
    requires InBounds(rows, cols, p)
    requires Max(0, p.0 - 1) <= r
    ensures Seen(rows, cols, p, mines, r, Max(0, p.1 - 1)) == BlockMines(rows, cols, p, mines, r)
    decreases r
  {
    if r > Max(0, p.0 - 1) {
      SeenAtRowStart(rows, cols, p, mines, r - 1);
      SeenInRow(rows, cols, p, mines, r - 1, Min(cols - 1, p.1 + 1) + 1);
      ScanNextRow(rows, cols, p, r);
    } else {
      ScanBounds(rows, cols, p);
    }
  }

  /** Scanning the whole clipped block finds exactly the adjacent mines. */
  lemma BlockMinesAreAdjacent(rows: int, cols: int, p: Cell, mines: set<Cell>)
    requires InBounds(rows, cols, p)
    ensures BlockMines(rows, cols, p, mines, Min(rows - 1, p.0 + 1) + 1) == AdjacentCount(rows, cols, mines, p)
  {
    SeenAtRowStart(rows, cols, p, mines, Min(rows - 1, p.0 + 1) + 1);
    ScanBounds(rows, cols, p);
  }

  /** `s` is closed under the reveal cascade: a hidden cell of `s` that
    * shows 0 brings every hidden neighbour into `s`. */
  ghost predicate Closed(rows: int, cols: int, s: set<Cell>, hidden: set<Cell>, zeros: set<Cell>)
  {
    forall z, q | z in s && z in hidden && z in zeros && q in hidden && Adjacent(rows, cols, z, q) :: q in s
  }

  /** `newly` is what a reveal of `p` uncovers: it is closed under the
    * cascade and lies within every closed set that holds `p`. With `p` in
    * it, it is the least such set. */
  ghost predicate Flood(rows: int, cols: int, p: Cell, newly: set<Cell>, hidden: set<Cell>, zeros: set<Cell>)
  {
    Closed(rows, cols, newly, hidden, zeros)
    && forall s | p in s && Closed(rows, cols, s, hidden, zeros) :: newly <= s
  }

  /** Fewer hidden cells leave a closed set closed. */
  lemma ClosedShrinks(rows: int, cols: int, s: set<Cell>, hidden: set<Cell>, fewer: set<Cell>, zeros: set<Cell>)
    requires Closed(rows, cols, s, hidden, zeros) && fewer <= hidden
    ensures Closed(rows, cols, s, fewer, zeros)
  {
  }

  /** A cell that does not show 0 is closed on its own: the cascade stops there. */
  lemma LoneCellClosed(rows: int, cols: int, p: Cell, hidden: set<Cell>, zeros: set<Cell>)
    requires p !in zeros
    ensures Closed(rows, cols, {p}, hidden, zeros)
  {
  }

  /** What leaves `a` on the way to `c` left it on the way to `b` or after. */
  lemma DiffChain<T>(a: set<T>, b: set<T>, c: set<T>, s: set<T>)
    requires a - b <= s && b - c <= s
    ensures a - c <= s
  {
  }

  /** The number a non-mine cell must show: the mines among its neighbours. */
  function AdjacentCount(rows: int, cols: int, mines: set<Cell>, p: Cell): (n: nat)
  {
    |Neighbours(rows, cols, p) * mines|
  }

  lemma AddOne<T>(a: set<T>, x: T)
    requires x !in a
    ensures |a + {x}| == |a| + 1
  {
  }

  /** A set that grows gains exactly as many elements as its size rises by. */
  lemma GrowthCount<T>(a: set<T>, b: set<T>)
    requires a <= b
    ensures |b| - |a| == |b - a|
  {
    assert b == a + (b - a);
  }

  lemma SubsetCardinality<T>(a: set<T>, b: set<T>)
    requires a <= b
    ensures |a| <= |b|
    ensures |a| == |b| ==> a == b
  {
    assert b == a + (b - a);
    assert |b| == |a| + |b - a|;
    if |a| == |b| {
      assert |b - a| == 0;
      assert b - a == {};
    }
  }

  /** Adding one unseen cell to a scanned set raises its mine count by one
    * exactly when that cell is a mine. */
  lemma ScanStep(seen: set<Cell>, mines: set<Cell>, x: Cell)
    requires x !in seen
    ensures |(seen + {x}) * mines| == |seen * mines| + (if x in mines then 1 else 0)
  {
    if x in mines {
      assert (seen + {x}) * mines == seen * mines + {x};
    } else {
      assert (seen + {x}) * mines == seen * mines;
    }
  }

  lemma {:induction false} RowSize(r: int, n: nat)
    ensures |RowCells(r, n)| == n
  {
    if n > 0 {
      RowSize(r, n - 1);
      assert RowCells(r, n) == RowCells(r, n - 1) + {(r, n - 1)} by {
        forall q ensures q in RowCells(r, n) <==> q in RowCells(r, n - 1) + {(r, n - 1)} { }
      }
    } else {
      assert RowCells(r, n) == {};
    }
  }

  lemma MulStep(a: int, b: int)
    ensures a * b == (a - 1) * b + b
  {
  }

  /** The board is the board without its last row, plus that row. */
  lemma LastRowSplit(rows: int, cols: int)
    requires 0 < rows
    ensures Cells(rows, cols) == Cells(rows - 1, cols) + RowCells(rows - 1, cols)
    ensures Cells(rows - 1, cols) !! RowCells(rows - 1, cols)
  {
    var above, last := Cells(rows - 1, cols), RowCells(rows - 1, cols);
    forall q ensures q in Cells(rows, cols) <==> q in above + last { }
    forall q | q in last ensures q !in above { }
  }

  /** The board has exactly rows * cols cells. */
  lemma {:induction false} GridSize(rows: nat, cols: nat)
    ensures |Cells(rows, cols)| == rows * cols
  {
    if rows == 0 {
      assert Cells(rows, cols) == {};
    } else {
      GridSize(rows - 1, cols);
      RowSize(rows - 1, cols);
      LastRowSplit(rows, cols);
      MulStep(rows, cols);
    }
  }

  /** The up-to-8 cells one step away from `p`, ignoring the board's edges. */
  function Ring(p: Cell): (s: set<Cell>)
    ensures |s| <= 8
  {
    var (r, c) := p;
    {(r - 1, c - 1), (r - 1, c), (r - 1, c + 1), (r, c - 1),
     (r, c + 1), (r + 1, c - 1), (r + 1, c), (r + 1, c + 1)}
  }

  /** Every neighbour is one of the ring cells. */
  lemma NeighboursInRing(rows: int, cols: int, p: Cell)
    ensures Neighbours(rows, cols, p) <= Ring(p)
  {
    forall q | q in Neighbours(rows, cols, p)
      ensures q in Ring(p)
    {
      assert Adjacent(rows, cols, p, q);
    }
  }

  /** A cell has at most 8 neighbours. */
  lemma NeighbourhoodSize(rows: int, cols: int, p: Cell)
    ensures |Neighbours(rows, cols, p)| <= 8
  {
    NeighboursInRing(rows, cols, p);
    SubsetCardinality(Neighbours(rows, cols, p), Ring(p));
  }

  /** A cell never has more than 8 mines around it. */
  lemma AdjacentCountBound(rows: int, cols: int, mines: set<Cell>, p: Cell)
    ensures AdjacentCount(rows, cols, mines, p) <= 8
  {
    NeighbourhoodSize(rows, cols, p);
    SubsetCardinality(Neighbours(rows, cols, p) * mines, Neighbours(rows, cols, p));
  }

  /** A zero count rules out a mine on every neighbour: the reason a cascade
    * started from a safe cell never uncovers a mine. */
  lemma ZeroCountMeansSafeNeighbours(rows: int, cols: int, mines: set<Cell>, p: Cell, q: Cell)
    requires AdjacentCount(rows, cols, mines, p) == 0
    requires q in Neighbours(rows, cols, p)
    ensures q !in mines
  {
    assert q in mines ==> q in Neighbours(rows, cols, p) * mines;
  }

  /** Among the cells of `all`, a set disjoint from `mines` has every other
    * cell exactly when its size is |all| - |mines|. */
  lemma AllSafeBySize<T>(all: set<T>, mines: set<T>, revealed: set<T>)
    requires mines <= all && revealed <= all
    requires revealed * mines == {}
    ensures |revealed| == |all| - |mines| <==> all - mines <= revealed
  {
    var safe := all - mines;
    assert all == safe + mines && safe * mines == {};
    assert revealed <= safe by {
      forall q | q in revealed
        ensures q in safe
      {
        assert q !in revealed * mines;
      }
    }
    SubsetCardinality(revealed, safe);
    if safe <= revealed {
      assert revealed == safe;
    }
  }

  /** With mines and revealed cells disjoint subsets of the board, the
    * revealed count reaches rows * cols - |mines| exactly when every safe
    * cell is revealed. */
  lemma WinThreshold(rows: nat, cols: nat, mines: set<Cell>, revealed: set<Cell>)
    requires mines <= Cells(rows, cols) && revealed <= Cells(rows, cols)
    requires revealed * mines == {}
    ensures |revealed| == rows * cols - |mines| <==> Cells(rows, cols) - mines <= revealed
  {
    GridSize(rows, cols);
    AllSafeBySize(Cells(rows, cols), mines, revealed);
  }
}
