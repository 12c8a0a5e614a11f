/** The detection and deletion halves of `HandleCompletedRows`: find the
    full rows, then delete them by shifting the rows above down.

    Deleting row r copies row y - 1 into row y for y = r down to 1 and leaves
    row 0 as it was. The full rows are found top to bottom and deleted in that
    (ascending) order; since deleting row r only moves rows at or above r, the
    rows still to be deleted keep their indices.
 */
module Rows {
  import opened Shapes
  import opened Board

  predicate Complete(row: Row) {
    forall x :: 0 <= x < |row| ==> row[x] != NOSHAPE
  }

  /** How many cells, from column x on, are filled before the first empty one. */
  function FilledRun(row: Row, x: nat): (n: nat)
    requires x <= |row|
    ensures n <= |row| - x
    ensures n == |row| - x <==> forall j :: x <= j < |row| ==> row[j] != NOSHAPE
    decreases |row| - x
  {
    if x == |row| || row[x] == NOSHAPE then 0 else 1 + FilledRun(row, x + 1)
  }

  /** The C inner loop: `total` starts at GAMEWIDTH, drops by one per filled
      cell, and the scan stops at the first empty cell. */
  function RowTotal(row: Row): int
    requires |row| == GAMEWIDTH
  {
    GAMEWIDTH - FilledRun(row, 0)
  }

  /** A row counts as completed exactly when none of its cells is empty. */
  lemma TotalZeroIffComplete(row: Row)
    requires |row| == GAMEWIDTH
    ensures RowTotal(row) == 0 <==> Complete(row)
  {
  }

  /** The `rows[]` array: the completed rows from row y down, in ascending order. */
  function CompletedRows(b: Board, y: nat): (rows: seq<int>)
    requires WellFormed(b) && y <= GAMEHEIGHT
    ensures forall i :: 0 <= i < |rows| ==> y <= rows[i] < GAMEHEIGHT && Complete(b[rows[i]])
    ensures forall r :: y <= r < GAMEHEIGHT && Complete(b[r]) ==> r in rows
    ensures Ascending(rows)
    decreases GAMEHEIGHT - y
  {
    if y == GAMEHEIGHT then []
    else
      var rest := CompletedRows(b, y + 1);
      TotalZeroIffComplete(b[y]);
      if RowTotal(b[y]) == 0 then
        assert forall i :: 0 <= i < |rest| ==> y < rest[i];
        [y] + rest
      else rest
  }

  predicate Ascending(rows: seq<int>) {
    forall i, j :: 0 <= i < j < |rows| ==> rows[i] < rows[j]
  }

  /** Deleting row y: the rows above it move down one, row 0 stays where it
      was, and the rows below y are untouched. */
  function ShiftDown(b: seq<Row>, y: int): (r: seq<Row>)
    requires 0 <= y < |b|
    ensures |r| == |b| && r[0] == b[0]
    ensures forall i :: 0 < i <= y ==> r[i] == b[i - 1]
    ensures forall i :: y < i < |b| ==> r[i] == b[i]
  {
    [b[0]] + b[..y] + b[y + 1..]
  }

  /** The deletion loop for one row: `for (y = r; y > 0; y--) row[y] = row[y-1]`. */
  method ShiftDownLoop(b: seq<Row>, y: int) returns (r: seq<Row>)
    requires 0 <= y < |b|
    ensures r == ShiftDown(b, y)
  {
    r := b;
    var i := y;
    while i > 0
      invariant 0 <= i <= y && |r| == |b|
      invariant forall j :: 0 <= j <= i ==> r[j] == b[j]
      invariant forall j :: i < j <= y ==> r[j] == b[j - 1]
      invariant forall j :: y < j < |b| ==> r[j] == b[j]
    {
      r := r[i := r[i - 1]];
      i := i - 1;
    }
    assert forall j :: 0 <= j < |r| ==> r[j] == ShiftDown(b, y)[j];
  }

  /** The deletion loop over all the collected rows, in the order given.
      The collected rows are always on the board; an index off the board
      would delete nothing. */
  function ShiftRows(b: seq<Row>, rows: seq<int>): (r: seq<Row>)
    ensures |r| == |b|
    // no deletion ever writes row 0
    ensures |b| > 0 ==> r[0] == b[0]
  {
    if |rows| == 0 then b
    else
      var c := ShiftRows(b, rows[..|rows| - 1]);
      var y := rows[|rows| - 1];
      if 0 <= y < |c| then ShiftDown(c, y) else c
  }

  function Repeat(row: Row, n: nat): (r: seq<Row>)
    ensures |r| == n && forall i :: 0 <= i < n ==> r[i] == row
  {
    seq(n, _ => row)
  }

  /** The rows of b[lo..hi] whose index is not listed in `rows`, in order. */
  function Keep(b: seq<Row>, rows: seq<int>, lo: int, hi: int): seq<Row>
    requires 0 <= lo && hi <= |b|
    decreases hi - lo
  {
    if hi <= lo then []
    else Keep(b, rows, lo, hi - 1) + (if hi - 1 in rows then [] else [b[hi - 1]])
  }

  /** The rows of b[..hi] that are not complete, in order. */
  function IncompleteRows(b: seq<Row>, hi: nat): seq<Row>
    requires hi <= |b|
  {
    if hi == 0 then []
    else IncompleteRows(b, hi - 1) + (if Complete(b[hi - 1]) then [] else [b[hi - 1]])
  }

  lemma {:induction false} KeepUnlisted(b: seq<Row>, rows: seq<int>, lo: int, hi: int)
    requires 0 <= lo <= hi <= |b|
    requires forall j :: 0 <= j < |rows| ==> !(lo <= rows[j] < hi)
    ensures Keep(b, rows, lo, hi) == b[lo..hi]
    decreases hi - lo
  {
    if hi > lo {
      KeepUnlisted(b, rows, lo, hi - 1);
      assert b[lo..hi] == b[lo..hi - 1] + [b[hi - 1]];
    }
  }

  lemma {:induction false} KeepSplit(b: seq<Row>, rows: seq<int>, lo: int, mid: int, hi: int)
    requires 0 <= lo <= mid <= hi <= |b|
    ensures Keep(b, rows, lo, mid) + Keep(b, rows, mid, hi) == Keep(b, rows, lo, hi)
    decreases hi - mid
  {
    if hi > mid {
      KeepSplit(b, rows, lo, mid, hi - 1);
    }
  }

  lemma {:induction false} KeepSameListing(b: seq<Row>, rows: seq<int>, rows': seq<int>, lo: int, hi: int)
    requires 0 <= lo && hi <= |b|
    requires forall i :: lo <= i < hi ==> (i in rows <==> i in rows')
    ensures Keep(b, rows, lo, hi) == Keep(b, rows', lo, hi)
    decreases hi - lo
  {
    if hi > lo {
      KeepSameListing(b, rows, rows', lo, hi - 1);
    }
  }

  lemma {:induction false} KeepCompleted(b: seq<Row>, rows: seq<int>, hi: nat)
    requires hi <= |b|
    requires forall i :: 0 <= i < hi ==> (i in rows <==> Complete(b[i]))
    ensures Keep(b, rows, 0, hi) == IncompleteRows(b, hi)
  {
    if hi > 0 {
      KeepCompleted(b, rows, hi - 1);
    }
  }

  /** Deleting rows keeps every row as wide as the board's rows. */
  lemma {:induction false} ShiftRowsWidth(b: seq<Row>, rows: seq<int>, w: nat)
    requires forall i :: 0 <= i < |b| ==> |b[i]| == w
    ensures forall i :: 0 <= i < |ShiftRows(b, rows)| ==> |ShiftRows(b, rows)[i]| == w
    decreases |rows|
  {
    if |rows| > 0 {
      var c := ShiftRows(b, rows[..|rows| - 1]);
      ShiftRowsWidth(b, rows[..|rows| - 1], w);
      var y := rows[|rows| - 1];
      if 0 <= y < |c| {
        var r := ShiftDown(c, y);
        forall i | 0 <= i < |r|
          ensures |r[i]| == w
        {
          if i == 0 {
          } else if i <= y {
            assert r[i] == c[i - 1];
          } else {
            assert r[i] == c[i];
          }
        }
      }
    }
  }

  /** The last row of an ascending list lies below all the others. */
  lemma LastBelow(rows: seq<int>)
    requires Ascending(rows) && |rows| > 0
    ensures Ascending(rows[..|rows| - 1])
    ensures forall i :: 0 <= i < |rows| - 1 ==> rows[i] < rows[|rows| - 1]
  {
  }

  /** Deleting the listed rows of b[..hi] leaves hi minus that many. */
  lemma {:induction false} KeepLength(b: seq<Row>, rows: seq<int>, hi: nat)
    requires hi <= |b| && Ascending(rows)
    requires forall i :: 0 <= i < |rows| ==> 0 <= rows[i] < hi
    ensures |Keep(b, rows, 0, hi)| == hi - |rows|
  {
    if hi == 0 {
      assert |rows| == 0;
    } else if |rows| > 0 && rows[|rows| - 1] == hi - 1 {
      var rs := rows[..|rows| - 1];
      KeepLength(b, rs, hi - 1);
      KeepSameListing(b, rows, rs, 0, hi - 1);
    } else {
      assert forall i :: 0 <= i < |rows| ==> rows[i] < hi - 1;
      KeepLength(b, rows, hi - 1);
    }
  }

  /** One more deletion, at a row q below every row deleted so far. */
  lemma DeleteBelow(b: seq<Row>, rs: seq<int>, q: int)
    requires 0 <= q < |b|
    requires forall i :: 0 <= i < |rs| ==> rs[i] < q
    requires |Keep(b, rs, 0, q)| + |rs| == q
    requires ShiftRows(b, rs) == Repeat(b[0], |rs|) + Keep(b, rs, 0, |b|)
    ensures ShiftRows(b, rs + [q]) == Repeat(b[0], |rs| + 1) + Keep(b, rs + [q], 0, |b|)
  {
    KeepAbove(b, rs, q);
    ShiftBelow(b, rs, Keep(b, rs, 0, q), q);
    KeepOneMore(b, rs, q);
  }

  /** The shift step of `DeleteBelow`, with the rows kept above q named K. */
  lemma ShiftBelow(b: seq<Row>, rs: seq<int>, K: seq<Row>, q: int)
    requires 0 <= q < |b| && |K| + |rs| == q
    requires ShiftRows(b, rs) == Repeat(b[0], |rs|) + (K + b[q..])
    ensures ShiftRows(b, rs + [q]) == Repeat(b[0], |rs| + 1) + (K + b[q + 1..])
  {
    var x := ShiftRows(b, rs);
    assert ShiftRows(b, rs + [q]) == ShiftDown(x, q) by {
      ShiftRowsSnoc(b, rs, q);
    }
    ShiftDownAt(x, b[0], |rs|, K, b[q..]);
    assert b[q..][1..] == b[q + 1..];
  }

  /** Below a last listed row q every row is kept. */
  lemma KeepAbove(b: seq<Row>, rs: seq<int>, q: int)
    requires 0 <= q < |b|
    requires forall i :: 0 <= i < |rs| ==> rs[i] < q
    ensures Keep(b, rs, 0, |b|) == Keep(b, rs, 0, q) + b[q..]
  {
    KeepSplit(b, rs, 0, q, |b|);
    KeepUnlisted(b, rs, q, |b|);
  }

  /** Listing one more row q, below all listed rows, drops just row q. */
  lemma KeepOneMore(b: seq<Row>, rs: seq<int>, q: int)
    requires 0 <= q < |b|
    requires forall i :: 0 <= i < |rs| ==> rs[i] < q
    ensures Keep(b, rs + [q], 0, |b|) == Keep(b, rs, 0, q) + b[q + 1..]
  {
    KeepUpTo(b, rs, q);
    KeepFrom(b, rs + [q], q);
  }

  lemma KeepUpTo(b: seq<Row>, rs: seq<int>, q: int)
    requires 0 <= q < |b|
    requires forall i :: 0 <= i < |rs| ==> rs[i] < q
    ensures Keep(b, rs + [q], 0, q + 1) == Keep(b, rs, 0, q)
  {
    var rq := rs + [q];
    assert q in rq;
    KeepSameListing(b, rq, rs, 0, q);
  }

  lemma KeepFrom(b: seq<Row>, rq: seq<int>, q: int)
    requires 0 <= q < |b| && forall i :: 0 <= i < |rq| ==> rq[i] <= q
    ensures Keep(b, rq, 0, |b|) == Keep(b, rq, 0, q + 1) + b[q + 1..]
  {
    KeepSplit(b, rq, 0, q + 1, |b|);
    KeepUnlisted(b, rq, q + 1, |b|);
  }

  /** `ShiftRows` deletes the listed rows one after another. */
  lemma ShiftRowsSnoc(b: seq<Row>, rs: seq<int>, q: int)
    requires 0 <= q < |b|
    ensures ShiftRows(b, rs + [q]) == ShiftDown(ShiftRows(b, rs), q)
  {
    assert (rs + [q])[..|rs|] == rs;
  }

  /** Deleting row q of a board whose first q rows are m copies of its row 0
      followed by K. */
  lemma ShiftDownAt(x: seq<Row>, top: Row, m: nat, K: seq<Row>, T: seq<Row>)
    requires x == Repeat(top, m) + (K + T) && |T| > 0 && x[0] == top
    ensures ShiftDown(x, m + |K|) == Repeat(top, m + 1) + (K + T[1..])
  {
    var q, R := m + |K|, Repeat(top, m);
    assert x == (R + K) + T;
    Halves(R + K, T);
    assert x[..q] == R + K;
    assert x[q + 1..] == T[1..];
    var R1 := [top] + R;
    assert R1 == Repeat(top, m + 1);
    calc {
      ShiftDown(x, q);
      [top] + (R + K) + T[1..];
      { assert [top] + (R + K) == R1 + K; }
      (R1 + K) + T[1..];
      R1 + (K + T[1..]);
    }
  }

  lemma Halves(a: seq<Row>, c: seq<Row>)
    ensures (a + c)[..|a|] == a && (a + c)[|a|..] == c
  {
  }

  /** Net effect of deleting all listed rows in ascending order: the listed
      rows are gone, the others keep their order and sink to the bottom, and
      as many copies of the old row 0 fill the top. */
  lemma {:induction false} ShiftRowsRemovesListed(b: seq<Row>, rows: seq<int>)
    requires |b| > 0 && Ascending(rows)
    requires forall i :: 0 <= i < |rows| ==> 0 <= rows[i] < |b|
    ensures ShiftRows(b, rows) == Repeat(b[0], |rows|) + Keep(b, rows, 0, |b|)
    decreases |rows|
  {
    if |rows| == 0 {
      KeepUnlisted(b, rows, 0, |b|);
    } else {
      var rs, q := rows[..|rows| - 1], rows[|rows| - 1];
      LastBelow(rows);
      ShiftRowsRemovesListed(b, rs);
      KeepLength(b, rs, q);
      assert rows == rs + [q];
      DeleteBelow(b, rs, q);
    }
  }

  lemma {:induction false} KeepSameUnlisted(b: seq<Row>, f: seq<Row>, rows: seq<int>, lo: int, hi: int)
    requires 0 <= lo && hi <= |b| == |f|
    requires forall i :: lo <= i < hi && i !in rows ==> f[i] == b[i]
    ensures Keep(f, rows, lo, hi) == Keep(b, rows, lo, hi)
    decreases hi - lo
  {
    if hi > lo {
      KeepSameUnlisted(b, f, rows, lo, hi - 1);
    }
  }

  /** The rows that survive deletion are incomplete rows of the board. */
  lemma {:induction false} IncompleteRowsFrom(b: seq<Row>, hi: nat)
    requires hi <= |b|
    ensures forall i :: 0 <= i < |IncompleteRows(b, hi)| ==>
      IncompleteRows(b, hi)[i] in b[..hi] && !Complete(IncompleteRows(b, hi)[i])
  {
    if hi > 0 {
      IncompleteRowsFrom(b, hi - 1);
      assert b[..hi] == b[..hi - 1] + [b[hi - 1]];
    }
  }
}
