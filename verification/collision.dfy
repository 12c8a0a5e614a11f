/** `CollisionCheck`: classify a candidate pose of the active piece against
    the board edges, the floor and the petrified blocks.

    The mask is scanned row by row, left to right, as cell k = 4 * row + col.
    A block below the floor or on a petrified cell ends the scan with
    `BottomHit`; a block beside the board only records `EdgeHit` and the scan
    goes on, so a later bottom hit still wins.
 */
module Collision {
  import opened Shapes
  import opened Board

  /** The C return codes 0, 1 and 2. */
  datatype Collision = NoHit | EdgeHit | BottomHit

  /** One shape in one rotation, flattened to 16 cells k = 4 * row + col. */
  type Mask = m: seq<bool> | |m| == 16 witness seq(16, _ => false)

  /** The mask of `Gshapes[shape][.][rotation]`. */
  function MaskOf(shape: ShapeId, rotation: Rotation): (m: Mask)
    ensures forall k :: 0 <= k < 16 ==> (m[k] <==> Occupied(shape, k / SHAPEMAX, rotation, k % SHAPEMAX))
  {
    seq(16, k requires 0 <= k < 16 => Occupied(shape, k / SHAPEMAX, rotation, k % SHAPEMAX))
  }

  /** Block k of the mask lies below the floor, or on a petrified cell of the
      board. Blocks above the top row touch nothing. */
  predicate Lands(b: Board, m: Mask, x: int, y: int, k: int)
    requires WellFormed(b) && 0 <= k < 16
  {
    var col, row := x + k % SHAPEMAX, y + k / SHAPEMAX;
    m[k] && (row >= GAMEHEIGHT || (OnBoard(col, row) && b[row][col] == PETRIFIEDSHAPE))
  }

  /** Block k of the mask lies left or right of the board. */
  predicate Sticks(m: Mask, x: int, k: int)
    requires 0 <= k < 16
  {
    m[k] && !(0 <= x + k % SHAPEMAX < GAMEWIDTH)
  }

  /** The classification the scan is meant to compute, stated over the whole
      mask at once: bottom and petrified hits outrank edge hits. */
  ghost function Classify(b: Board, m: Mask, x: int, y: int): Collision
    requires WellFormed(b)
  {
    if exists k :: 0 <= k < 16 && Lands(b, m, x, y, k) then BottomHit
    else if exists k :: 0 <= k < 16 && Sticks(m, x, k) then EdgeHit
    else NoHit
  }

  /** The scan loop of `CollisionCheck` from cell k on, `err` recording an
      edge hit seen earlier. A block above the top row is skipped, the same
      clipping `DrawShape` applies (see `CollisionCheckAsWritten`). */
  function Scan(b: Board, m: Mask, x: int, y: int, k: nat, err: bool): Collision
    requires WellFormed(b) && k <= 16
    decreases 16 - k
  {
    if k == 16 then (if err then EdgeHit else NoHit)
    else
      var col, row := x + k % SHAPEMAX, y + k / SHAPEMAX;
      if !m[k] then Scan(b, m, x, y, k + 1, err)
      else if row >= GAMEHEIGHT then BottomHit
      else if col < 0 || col >= GAMEWIDTH then Scan(b, m, x, y, k + 1, true)
      else if row < 0 then Scan(b, m, x, y, k + 1, err)
      else if b[row][col] == PETRIFIEDSHAPE then BottomHit
      else Scan(b, m, x, y, k + 1, err)
  }

  /** The scan from cell k on reports a bottom hit exactly when one of the
      remaining blocks lands, and otherwise an edge hit exactly when one was
      seen before or one of the remaining blocks sticks out. */
  lemma {:induction false} ScanClassifies(b: Board, m: Mask, x: int, y: int, k: nat, err: bool)
    requires WellFormed(b) && k <= 16
    ensures Scan(b, m, x, y, k, err) == BottomHit <==>
      exists j :: k <= j < 16 && Lands(b, m, x, y, j)
    ensures Scan(b, m, x, y, k, err) == EdgeHit <==>
      && !(exists j :: k <= j < 16 && Lands(b, m, x, y, j))
      && (err || exists j :: k <= j < 16 && Sticks(m, x, j))
    decreases 16 - k
  {
    if k < 16 {
      var col, row := x + k % SHAPEMAX, y + k / SHAPEMAX;
      if !m[k] {
        ScanClassifies(b, m, x, y, k + 1, err);
        Passes(b, m, x, y, k);
      } else if row >= GAMEHEIGHT {
        assert Lands(b, m, x, y, k);
      } else if col < 0 || col >= GAMEWIDTH {
        ScanClassifies(b, m, x, y, k + 1, true);
        assert Sticks(m, x, k);
        assert !Lands(b, m, x, y, k);
        Passes(b, m, x, y, k);
      } else if row < 0 || b[row][col] != PETRIFIEDSHAPE {
        ScanClassifies(b, m, x, y, k + 1, err);
        assert !Lands(b, m, x, y, k) && !Sticks(m, x, k);
        Passes(b, m, x, y, k);
      } else {
        assert Lands(b, m, x, y, k);
      }
    }
  }

  /** Cell k splits off the front of the cells still to scan. */
  lemma Passes(b: Board, m: Mask, x: int, y: int, k: nat)
    requires WellFormed(b) && k < 16
    ensures (exists j :: k <= j < 16 && Lands(b, m, x, y, j)) <==>
      Lands(b, m, x, y, k) || exists j :: k + 1 <= j < 16 && Lands(b, m, x, y, j)
    ensures (exists j :: k <= j < 16 && Sticks(m, x, j)) <==>
      Sticks(m, x, k) || exists j :: k + 1 <= j < 16 && Sticks(m, x, j)
  {
  }

  /** `CollisionCheck(x, y, rotate)` for the current shape. */
  function CollisionCheck(b: Board, shape: ShapeId, x: int, y: int, rotation: Rotation): (c: Collision)
    requires WellFormed(b)
    ensures c == Classify(b, MaskOf(shape, rotation), x, y)
  {
    var m := MaskOf(shape, rotation);
    ScanClassifies(b, m, x, y, 0, false);
    Scan(b, m, x, y, 0, false)
  }

  /** What the scan of `CollisionCheck` can end in as the C code is written:
      a classification, or a read of `Gscreen` at a row above the board. */
  datatype Probe = Finished(c: Collision) | ReadAboveBoard(row: int, col: int)

  /** The scan exactly as written: the petrified lookup is guarded against
      the sides and the floor but not against rows above the top, so a block
      there makes the C code read `Gscreen[row][col]` with row < 0. */
  function ScanAsWritten(b: Board, m: Mask, x: int, y: int, k: nat, err: bool): (p: Probe)
    requires WellFormed(b) && k <= 16
    ensures p.Finished? ==> p.c == Scan(b, m, x, y, k, err)
    ensures p.ReadAboveBoard? ==> p.row < 0 && 0 <= p.col < GAMEWIDTH
    ensures (forall j :: k <= j < 16 && m[j] ==> y + j / SHAPEMAX >= 0) ==> p.Finished?
    decreases 16 - k
  {
    if k == 16 then Finished(if err then EdgeHit else NoHit)
    else
      var col, row := x + k % SHAPEMAX, y + k / SHAPEMAX;
      if !m[k] then ScanAsWritten(b, m, x, y, k + 1, err)
      else if row >= GAMEHEIGHT then Finished(BottomHit)
      else if col < 0 || col >= GAMEWIDTH then ScanAsWritten(b, m, x, y, k + 1, true)
      else if row < 0 then ReadAboveBoard(row, col)
      else if b[row][col] == PETRIFIEDSHAPE then Finished(BottomHit)
      else ScanAsWritten(b, m, x, y, k + 1, err)
  }

  function CollisionCheckAsWritten(b: Board, shape: ShapeId, x: int, y: int, rotation: Rotation): (p: Probe)
    requires WellFormed(b)
    ensures p.Finished? ==> p.c == CollisionCheck(b, shape, x, y, rotation)
  {
    ScanAsWritten(b, MaskOf(shape, rotation), x, y, 0, false)
  }

  /** A freshly spawned piece sits at (3, -3) in rotation 0. A check there,
      or one row down, reaches a block above the top row inside the side
      walls, for every shape: the C code reads outside `Gscreen`. The first
      piece of a game is checked at (3, -2) on the first pass. */
  lemma SpawnCheckReadsAboveBoard(b: Board, shape: ShapeId, yforce: int)
    requires WellFormed(b) && 0 <= yforce <= 1
    ensures CollisionCheckAsWritten(b, shape, 3, -3 + yforce, 0).ReadAboveBoard?
  {
    // the first block of every rotation-0 mask is on mask row 0 or 1,
    // inside columns 0..2, so it lands in row -3 .. -1 and column 3 .. 5
    var y := -3 + yforce;
    var first := if shape == 0 then 5 else if shape <= 4 then 4 else if shape == 5 then 1 else 0;
    SkipsEmpty(b, MaskOf(shape, 0), 3, y, 0, first, false);
  }

  /** A piece spawned by a landing is committed one row down, at (3, -2),
      because landings only happen under gravity; a gravity-only check of
      it next looks at (3, -1). There only shapes 5 and 6, whose rotation-0
      mask has a block in its top row, still read above the board. */
  lemma LandingSpawnCheck(b: Board, shape: ShapeId)
    requires WellFormed(b)
    ensures CollisionCheckAsWritten(b, shape, 3, -1, 0).ReadAboveBoard? <==> shape >= 5
  {
    var m := MaskOf(shape, 0);
    if shape >= 5 {
      SkipsEmpty(b, m, 3, -1, 0, if shape == 5 then 1 else 0, false);
    } else {
      assert forall j :: 0 <= j < SHAPEMAX ==> !m[j];
    }
  }

  /** The scan passes over mask cells that hold no block. */
  lemma {:induction false} SkipsEmpty(b: Board, m: Mask, x: int, y: int, k: nat, k': nat, err: bool)
    requires WellFormed(b) && k <= k' <= 16
    requires forall j :: k <= j < k' ==> !m[j]
    ensures ScanAsWritten(b, m, x, y, k, err) == ScanAsWritten(b, m, x, y, k', err)
    decreases k' - k
  {
    if k < k' {
      SkipOne(b, m, x, y, k, err);
      SkipsEmpty(b, m, x, y, k + 1, k', err);
    }
  }

  lemma SkipOne(b: Board, m: Mask, x: int, y: int, k: nat, err: bool)
    requires WellFormed(b) && k < 16 && !m[k]
    ensures ScanAsWritten(b, m, x, y, k, err) == ScanAsWritten(b, m, x, y, k + 1, err)
  {
  }
}
