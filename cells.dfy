/**
 * The (column, row) cells of the entry grid visited by the save loops:
 * column by column, and within a column row by row, keeping those a
 * predicate accepts.
 */
module Cells {

  datatype Cell = Cell(col: nat, row: nat)

  /** Column-major order: the order in which the save loops visit cells. */
  predicate Before(a: Cell, b: Cell) {
    a.col < b.col || (a.col == b.col && a.row < b.row)
  }

  /** The cells of `s` are listed in column-major order. */
  predicate ColumnMajor(s: seq<Cell>) {
    forall i, j | 0 <= i < j < |s| :: Before(s[i], s[j])
  }

  /** The accepted cells of column `c` among rows `0..n-1`, in row order. */
  function ColumnCells(c: nat, n: nat, ok: (nat, nat) -> bool): seq<Cell> {
    if n == 0 then []
    else ColumnCells(c, n - 1, ok) + (if ok(c, n - 1) then [Cell(c, n - 1)] else [])
  }

  /** The accepted cells of columns `0..cols-1` and rows `0..n-1`, column-major. */
  function GridCells(cols: nat, n: nat, ok: (nat, nat) -> bool): seq<Cell> {
    if cols == 0 then []
    else GridCells(cols - 1, n, ok) + ColumnCells(cols - 1, n, ok)
  }

  lemma {:induction false} ColumnCellsMembers(c: nat, n: nat, ok: (nat, nat) -> bool)
    ensures forall x | x in ColumnCells(c, n, ok) :: x.col == c && x.row < n && ok(x.col, x.row)
  {
    if n > 0 {
      ColumnCellsMembers(c, n - 1, ok);
    }
  }

  lemma {:induction false} ColumnCellsComplete(c: nat, n: nat, ok: (nat, nat) -> bool)
    ensures forall r | 0 <= r < n && ok(c, r) :: Cell(c, r) in ColumnCells(c, n, ok)
  {
    if n > 0 {
      ColumnCellsComplete(c, n - 1, ok);
    }
  }

  lemma {:induction false} ColumnCellsOrdered(c: nat, n: nat, ok: (nat, nat) -> bool)
    ensures forall i, j | 0 <= i < j < |ColumnCells(c, n, ok)| :: ColumnCells(c, n, ok)[i].row < ColumnCells(c, n, ok)[j].row
  {
    if n > 0 {
      ColumnCellsOrdered(c, n - 1, ok);
      ColumnCellsMembers(c, n - 1, ok);
      var prefix := ColumnCells(c, n - 1, ok);
      var s := ColumnCells(c, n, ok);
      if ok(c, n - 1) {
        assert s == prefix + [Cell(c, n - 1)];
        forall i, j | 0 <= i < j < |s| ensures s[i].row < s[j].row {
          assert s[i] == prefix[i] && prefix[i] in prefix;
          if j < |prefix| {
            assert s[j] == prefix[j];
          }
        }
      } else {
        assert s == prefix;
      }
    }
  }

  /** GridCells holds exactly the accepted cells of the grid, in column-major order. */
  lemma GridCellsSpec(cols: nat, n: nat, ok: (nat, nat) -> bool)
    ensures forall x | x in GridCells(cols, n, ok) :: x.col < cols && x.row < n && ok(x.col, x.row)
    ensures forall c, r | 0 <= c < cols && 0 <= r < n && ok(c, r) :: Cell(c, r) in GridCells(cols, n, ok)
    ensures ColumnMajor(GridCells(cols, n, ok))
  {
    GridCellsMembers(cols, n, ok);
    GridCellsComplete(cols, n, ok);
    GridCellsOrdered(cols, n, ok);
  }

  lemma {:induction false} GridCellsMembers(cols: nat, n: nat, ok: (nat, nat) -> bool)
    ensures forall x | x in GridCells(cols, n, ok) :: x.col < cols && x.row < n && ok(x.col, x.row)
  {
    if cols > 0 {
      GridCellsMembers(cols - 1, n, ok);
      ColumnCellsMembers(cols - 1, n, ok);
      forall x | x in GridCells(cols, n, ok) ensures x.col < cols && x.row < n && ok(x.col, x.row) {
        InAppend(GridCells(cols - 1, n, ok), ColumnCells(cols - 1, n, ok), x);
      }
    }
  }

  lemma InAppend(a: seq<Cell>, b: seq<Cell>, x: Cell)
    requires x in a + b
    ensures x in a || x in b
  {
  }

  lemma {:induction false} GridCellsComplete(cols: nat, n: nat, ok: (nat, nat) -> bool)
    ensures forall c, r | 0 <= c < cols && 0 <= r < n && ok(c, r) :: Cell(c, r) in GridCells(cols, n, ok)
  {
    if cols > 0 {
      GridCellsComplete(cols - 1, n, ok);
      ColumnCellsComplete(cols - 1, n, ok);
      var prefix := GridCells(cols - 1, n, ok);
      var last := ColumnCells(cols - 1, n, ok);
      var s := GridCells(cols, n, ok);
      assert s == prefix + last;
      forall c, r | 0 <= c < cols && 0 <= r < n && ok(c, r) ensures Cell(c, r) in s {
        if c < cols - 1 {
          assert Cell(c, r) in prefix;
        } else {
          assert Cell(c, r) in last;
        }
      }
    }
  }

  lemma {:induction false} GridCellsOrdered(cols: nat, n: nat, ok: (nat, nat) -> bool)
    ensures ColumnMajor(GridCells(cols, n, ok))
  {
    if cols > 0 {
      GridCellsOrdered(cols - 1, n, ok);
      var prefix := GridCells(cols - 1, n, ok);
      var last := ColumnCells(cols - 1, n, ok);
      GridCellsMembers(cols - 1, n, ok);
      ColumnCellsMembers(cols - 1, n, ok);
      ColumnCellsOrdered(cols - 1, n, ok);
      ColumnMajorAppend(prefix, last, cols - 1);
      assert GridCells(cols, n, ok) == prefix + last;
    }
  }

  /** Appending one column, in row order, after earlier columns keeps column-major order. */
  lemma ColumnMajorAppend(prefix: seq<Cell>, last: seq<Cell>, c: nat)
    requires ColumnMajor(prefix) && forall x | x in prefix :: x.col < c
    requires forall x | x in last :: x.col == c
    requires forall i, j | 0 <= i < j < |last| :: last[i].row < last[j].row
    ensures ColumnMajor(prefix + last)
  {
    var s := prefix + last;
    forall i, j | 0 <= i < j < |s| ensures Before(s[i], s[j]) {
      if j < |prefix| {
        assert s[i] == prefix[i] && s[j] == prefix[j];
      } else if i < |prefix| {
        assert s[i] == prefix[i] && prefix[i] in prefix;
        assert s[j] == last[j - |prefix|] && last[j - |prefix|] in last;
      } else {
        assert s[i] == last[i - |prefix|] && s[j] == last[j - |prefix|];
      }
    }
  }

  /** A column none of whose cells is accepted contributes nothing. */
  lemma {:induction false} ColumnCellsNone(c: nat, n: nat, ok: (nat, nat) -> bool)
    requires forall r :: 0 <= r < n ==> !ok(c, r)
    ensures ColumnCells(c, n, ok) == []
  {
    if n > 0 {
      ColumnCellsNone(c, n - 1, ok);
    }
  }

  /** Two predicates that agree on the grid select the same cells. */
  lemma {:induction false} GridCellsAgree(cols: nat, n: nat, ok1: (nat, nat) -> bool, ok2: (nat, nat) -> bool)
    requires forall c, r :: 0 <= c < cols && 0 <= r < n ==> ok1(c, r) == ok2(c, r)
    ensures GridCells(cols, n, ok1) == GridCells(cols, n, ok2)
  {
    if cols > 0 {
      GridCellsAgree(cols - 1, n, ok1, ok2);
      ColumnCellsAgree(cols - 1, n, ok1, ok2);
    }
  }

  lemma {:induction false} ColumnCellsAgree(c: nat, n: nat, ok1: (nat, nat) -> bool, ok2: (nat, nat) -> bool)
    requires forall r :: 0 <= r < n ==> ok1(c, r) == ok2(c, r)
    ensures ColumnCells(c, n, ok1) == ColumnCells(c, n, ok2)
  {
    if n > 0 {
      ColumnCellsAgree(c, n - 1, ok1, ok2);
    }
  }
}
