/** `HandleCompletedRows` as a whole: the completed rows are collected,
    flashed twice through `Redraw(CHANGED)` when there are any, and then
    deleted by the row shift of `Rows`. The flash's terminal output and its
    one-second pauses are not modelled; its effect on the board is, because
    the flashed rows are what the shift later copies when row 0 is complete.
 */
module Clearing {
  import opened Shapes
  import opened Board
  import opened Redraw
  import opened Rows

  /** Every cell of the listed rows set to `c`: the `Gscreen[rows[r]][x] = ...` loop. */
  function FillRows(b: Board, rows: seq<int>, c: Cell): (r: Board)
    requires WellFormed(b)
    ensures WellFormed(r)
    ensures forall y, x :: OnBoard(x, y) ==> r[y][x] == (if y in rows then c else b[y][x])
  {
    seq(GAMEHEIGHT, y requires 0 <= y < GAMEHEIGHT =>
      if y in rows then seq(GAMEWIDTH, _ => c) else b[y])
  }

  /** The two flash passes: the rows set to OLDSHAPE and diffed (erased from
      the terminal), then set to NEWSHAPE and diffed (painted again). */
  function Flash(b: Board, rows: seq<int>): (r: Board)
    requires WellFormed(b)
    ensures WellFormed(r)
    // the listed rows end up all OLDSHAPE whatever they held; every other
    // cell has gone through two diffs
    ensures forall y, x :: OnBoard(x, y) ==>
      r[y][x] == (if y in rows then OLDSHAPE else RedrawCell(RedrawCell(b[y][x]).cell).cell)
  {
    assert RedrawCell(OLDSHAPE).cell == NOSHAPE && RedrawCell(NEWSHAPE).cell == OLDSHAPE;
    var b1 := RedrawChanged(FillRows(b, rows, OLDSHAPE)).board;
    assert forall y, x :: OnBoard(x, y) ==> b1[y][x] == (if y in rows then NOSHAPE else RedrawCell(b[y][x]).cell);
    RedrawChanged(FillRows(b1, rows, NEWSHAPE)).board
  }

  /** The board `PetrifyScreen` leaves: empty or petrified cells only. */
  ghost predicate Settled(b: Board)
    requires WellFormed(b)
  {
    forall y, x :: OnBoard(x, y) ==> b[y][x] in {NOSHAPE, PETRIFIEDSHAPE}
  }

  function OldRow(): (row: Row)
    ensures |row| == GAMEWIDTH && Complete(row)
  {
    seq(GAMEWIDTH, _ => OLDSHAPE)
  }

  /** Cell by cell: on a settled board the flash leaves OLDSHAPE in the
      listed rows and every other cell as it was. */
  lemma FlashCells(b: Board, rows: seq<int>)
    requires WellFormed(b) && Settled(b)
    ensures forall y, x :: OnBoard(x, y) ==>
      Flash(b, rows)[y][x] == (if y in rows then OLDSHAPE else b[y][x])
  {
    assert RedrawCell(PETRIFIEDSHAPE).cell == PETRIFIEDSHAPE;
  }

  /** On a settled board the flash leaves every listed row full of OLDSHAPE
      cells, still complete, and every other row as it was. */
  lemma FlashSettled(b: Board, rows: seq<int>)
    requires WellFormed(b) && Settled(b)
    ensures WellFormed(Flash(b, rows))
    ensures forall y :: 0 <= y < GAMEHEIGHT ==>
      Flash(b, rows)[y] == (if y in rows then OldRow() else b[y])
  {
    forall y | 0 <= y < GAMEHEIGHT
      ensures Flash(b, rows)[y] == (if y in rows then OldRow() else b[y])
    {
      FlashRow(b, rows, y);
    }
  }

  lemma FlashRow(b: Board, rows: seq<int>, y: int)
    requires WellFormed(b) && Settled(b) && 0 <= y < GAMEHEIGHT
    ensures Flash(b, rows)[y] == (if y in rows then OldRow() else b[y])
  {
    var f := Flash(b, rows);
    FlashCells(b, rows);
    if y in rows {
      assert forall x :: 0 <= x < GAMEWIDTH ==> f[y][x] == OldRow()[x];
    } else {
      assert forall x :: 0 <= x < GAMEWIDTH ==> f[y][x] == b[y][x];
    }
  }

  /** On a settled board, deleting the flashed rows keeps exactly the
      incomplete rows of the board before the flash. */
  lemma FlashedShift(b: Board, rows: seq<int>)
    requires WellFormed(b)
    requires forall y :: 0 <= y < GAMEHEIGHT ==> (y in rows <==> Complete(b[y]))
    ensures WellFormed(Flash(b, rows))
    ensures Settled(b) ==> Flash(b, rows)[0] == (if Complete(b[0]) then OldRow() else b[0])
    ensures Settled(b) ==> Keep(Flash(b, rows), rows, 0, GAMEHEIGHT) == IncompleteRows(b, GAMEHEIGHT)
  {
    if Settled(b) {
      var f := Flash(b, rows);
      assert Keep(f, rows, 0, GAMEHEIGHT) == Keep(b, rows, 0, GAMEHEIGHT) by {
        FlashSettled(b, rows);
        KeepSameUnlisted(b, f, rows, 0, GAMEHEIGHT);
      }
      assert f[0] == (if Complete(b[0]) then OldRow() else b[0]) by {
        FlashSettled(b, rows);
      }
      KeepCompleted(b, rows, GAMEHEIGHT);
    }
  }

  /** Flashing and deleting a non-empty list of completed rows. */
  lemma {:induction false} FlashAndDelete(b: Board, rows: seq<int>)
    requires WellFormed(b) && rows == CompletedRows(b, 0)
    ensures WellFormed(ShiftRows(Flash(b, rows), rows))
    ensures Settled(b) ==>
      ShiftRows(Flash(b, rows), rows) ==
        Repeat(if Complete(b[0]) then OldRow() else b[0], |rows|) + IncompleteRows(b, GAMEHEIGHT)
  {
    var f := Flash(b, rows);
    assert WellFormed(ShiftRows(f, rows)) by {
      ShiftRowsWidth(f, rows, GAMEWIDTH);
    }
    if Settled(b) {
      assert ShiftRows(f, rows) == Repeat(f[0], |rows|) + Keep(f, rows, 0, GAMEHEIGHT) by {
        ShiftRowsRemovesListed(f, rows);
      }
      FlashedShift(b, rows);
    }
  }

  datatype Cleared = Cleared(board: Board, count: nat)

  /** `HandleCompletedRows`: collect the completed rows, flash them when there
      are any, delete them, and report how many there were (the amount
      `Grows` grows by). */
  function HandleCompletedRows(b: Board): (r: Cleared)
    requires WellFormed(b)
    ensures WellFormed(r.board)
    // one point per completed row
    ensures r.count + |IncompleteRows(b, GAMEHEIGHT)| == GAMEHEIGHT
    ensures r.count == 0 ==> r.board == b
    // after a piece is petrified: the completed rows are gone, the others
    // sink in order, and the top is refilled with copies of row 0 as it
    // stands after the flash
    ensures Settled(b) ==>
      r.board == Repeat(if Complete(b[0]) then OldRow() else b[0], r.count) + IncompleteRows(b, GAMEHEIGHT)
  {
    var rows := CompletedRows(b, 0);
    KeepCompleted(b, rows, GAMEHEIGHT);
    KeepLength(b, rows, GAMEHEIGHT);
    if |rows| == 0 then
      KeepUnlisted(b, rows, 0, GAMEHEIGHT);
      assert b[0..GAMEHEIGHT] == b;
      Cleared(b, 0)
    else
      FlashAndDelete(b, rows);
      Cleared(ShiftRows(Flash(b, rows), rows), |rows|)
  }
}
