// The random cell draws that mine placement consumes, supplied by the caller.
module Draws {
  import opened Grid

  /** Every draw lies on the board, as `Math.floor(Math.random() * n)` does. */
  predicate OnBoard(rows: int, cols: int, draws: seq<Cell>)
  {
    forall i | 0 <= i < |draws| :: InBounds(rows, cols, draws[i])
  }

  /** The drawn cells that placement accepts: every one but the first-clicked cell. */
  function Eligible(draws: seq<Cell>, first: Cell): (e: set<Cell>)
  {
    set d | d in draws && d != first
  }

  /** The draws hold enough distinct acceptable cells for placement to finish. */
  predicate Suffices(rows: int, cols: int, mines: int, draws: seq<Cell>, first: Cell)
  {
    OnBoard(rows, cols, draws) && |Eligible(draws, first)| >= mines
  }

  /** No cell occurs twice. */
  predicate Distinct(s: seq<Cell>)
  {
    forall i, j | 0 <= i < j < |s| :: s[i] != s[j]
  }

  /** The cells of a sequence, as a set. */
  function Elems(s: seq<Cell>): (e: set<Cell>)
    ensures forall d :: d in e <==> d in s
  {
    set d | d in s
  }

  /** The cells placement accepts from the draws `s`, in order: each draw
    * that is neither the first-clicked cell nor already a mine, until `n`
    * have been placed. */
  function Accepted(s: seq<Cell>, first: Cell, n: nat): (a: seq<Cell>)
    ensures |a| <= n && |a| <= |s|
    ensures first !in a && forall d | d in a :: d in s
    decreases |s|
  {
    if s == [] then []
    else
      var a := Accepted(s[..|s| - 1], first, n);
      var d := s[|s| - 1];
      if |a| < n && d != first && d !in a then a + [d] else a
  }

  /** The accepted cells are distinct drawn cells other than the first-clicked
    * one, at most `n` of them, and all eligible draws when fewer than `n`. */
  lemma {:induction false} AcceptedFacts(s: seq<Cell>, first: Cell, n: nat)
    ensures |Accepted(s, first, n)| <= n
    ensures Distinct(Accepted(s, first, n))
    ensures Elems(Accepted(s, first, n)) <= Eligible(s, first)
    ensures |Accepted(s, first, n)| < n ==> Elems(Accepted(s, first, n)) == Eligible(s, first)
    decreases |s|
  {
    if s != [] {
      var init, d := s[..|s| - 1], s[|s| - 1];
      assert s == init + [d];
      AcceptedFacts(init, first, n);
      var a := Accepted(init, first, n);
      assert Eligible(s, first) == Eligible(init, first) + (if d != first then {d} else {});
      if |a| < n && d != first && d !in a {
        assert Elems(a + [d]) == Elems(a) + {d};
      }
    }
  }

  /** A sequence without repeats has as many distinct cells as entries. */
  lemma {:induction false} DistinctSize(s: seq<Cell>)
    requires Distinct(s)
    ensures |Elems(s)| == |s|
  {
    if s != [] {
      var init, d := s[..|s| - 1], s[|s| - 1];
      assert s == init + [d];
      assert Distinct(init);
      DistinctSize(init);
      assert d !in init;
      assert Elems(s) == Elems(init) + {d};
    }
  }

  /** Once `n` cells are accepted, later draws change nothing. */
  lemma {:induction false} AcceptedSaturates(s: seq<Cell>, i: nat, first: Cell, n: nat)
    requires i <= |s|
    requires |Accepted(s[..i], first, n)| >= n
    ensures Accepted(s, first, n) == Accepted(s[..i], first, n)
    decreases |s|
  {
    if |s| > i {
      var init := s[..|s| - 1];
      assert init[..i] == s[..i];
      AcceptedSaturates(init, i, first, n);
    } else {
      assert s[..i] == s;
    }
  }

  /** Draws that suffice make placement accept exactly `n` cells. */
  lemma AcceptedAll(rows: int, cols: int, n: nat, draws: seq<Cell>, first: Cell)
    requires Suffices(rows, cols, n, draws, first)
    ensures |Accepted(draws, first, n)| == n
  {
    AcceptedFacts(draws, first, n);
    DistinctSize(Accepted(draws, first, n));
  }

  /** The cells of row `r` below column `n`, left to right. */
  function RowOrder(r: int, n: nat): (s: seq<Cell>)
    ensures forall d :: d in s <==> d in RowCells(r, n)
  {
    if n == 0 then [] else RowOrder(r, n - 1) + [(r, n - 1)]
  }

  /** Every cell of the board in row-major order. */
  function RowMajor(rows: nat, cols: nat): (s: seq<Cell>)
    ensures forall d :: d in s <==> d in Cells(rows, cols)
  {
    if rows == 0 then []
    else
      var s := RowMajor(rows - 1, cols) + RowOrder(rows - 1, cols);
      assert forall d :: d in s <==> d in Cells(rows - 1, cols) || d in RowCells(rows - 1, cols);
      s
  }

  /** Placement can only be fed enough draws when the board has a cell to
    * spare besides the mines: otherwise its loop never ends. */
  lemma SufficesNeedsFreeCell(rows: nat, cols: nat, mines: int, draws: seq<Cell>, first: Cell)
    requires InBounds(rows, cols, first)
    requires Suffices(rows, cols, mines, draws, first)
    ensures mines < rows * cols
  {
    assert Eligible(draws, first) <= Cells(rows, cols) - {first};
    SubsetCardinality(Eligible(draws, first), Cells(rows, cols) - {first});
    GridSize(rows, cols);
    assert first in Cells(rows, cols);
  }

  /** Conversely, whenever mines < rows * cols some draws suffice: one pass
    * over the board in row-major order. */
  lemma RowMajorSuffices(rows: nat, cols: nat, mines: int, first: Cell)
    requires InBounds(rows, cols, first)
    requires mines < rows * cols
    ensures Suffices(rows, cols, mines, RowMajor(rows, cols), first)
  {
    var s := RowMajor(rows, cols);
    assert Eligible(s, first) == Cells(rows, cols) - {first};
    GridSize(rows, cols);
    assert first in Cells(rows, cols);
    assert OnBoard(rows, cols, s) by {
      forall i | 0 <= i < |s| ensures InBounds(rows, cols, s[i]) {
        assert s[i] in s;
      }
    }
  }
}
