/** The playfield `Gscreen`: GAMEHEIGHT rows of GAMEWIDTH cells, each cell a
    C `char` holding bit planes. Bit 0 (NEWSHAPE) marks the piece as drawn this
    frame, bit 1 (OLDSHAPE) the piece as shown on the terminal last frame, and
    PETRIFIEDSHAPE a landed block. Rows are indexed from the top.
 */
module Board {
  import opened Shapes

  type Cell = bv8

  const NOSHAPE: Cell := 0
  const NEWSHAPE: Cell := 1
  const OLDSHAPE: Cell := 2
  const COLLIDESHAPE: Cell := 3
  const PETRIFIEDSHAPE: Cell := 4

  type Row = seq<Cell>
  type Board = seq<Row>

  predicate WellFormed(b: Board) {
    |b| == GAMEHEIGHT && forall y :: 0 <= y < |b| ==> |b[y]| == GAMEWIDTH
  }

  predicate OnBoard(x: int, y: int) {
    0 <= x < GAMEWIDTH && 0 <= y < GAMEHEIGHT
  }

  function EmptyRow(): (row: Row)
    ensures |row| == GAMEWIDTH
    ensures forall x :: 0 <= x < |row| ==> row[x] == NOSHAPE
  {
    seq(GAMEWIDTH, _ => NOSHAPE)
  }

  /** The board the game starts from: the clearing loop of `Clear`. */
  function EmptyBoard(): (b: Board)
    ensures WellFormed(b)
    ensures forall y, x :: OnBoard(x, y) ==> b[y][x] == NOSHAPE
  {
    seq(GAMEHEIGHT, _ => EmptyRow())
  }

  /** True when the mask of `shape` in `rotation`, anchored with its top-left
      corner at (`x0`, `y0`), has a block on board cell (`x`, `y`). */
  predicate Covers(shape: ShapeId, x0: int, y0: int, rotation: Rotation, x: int, y: int) {
    && 0 <= y - y0 < SHAPEMAX && 0 <= x - x0 < SHAPEMAX
    && Occupied(shape, y - y0, rotation, x - x0)
  }

  /** `DrawShape`: OR the NEWSHAPE bit into every on-board cell the piece
      covers. Cells of the mask that fall outside the board (above, below or
      beside it) are skipped. */
  function DrawShape(b: Board, shape: ShapeId, x0: int, y0: int, rotation: Rotation): (r: Board)
    requires WellFormed(b)
    ensures WellFormed(r)
    // only the NEWSHAPE plane changes
    ensures forall y, x :: OnBoard(x, y) ==> r[y][x] & !NEWSHAPE == b[y][x] & !NEWSHAPE
    // and afterwards it is set exactly where it was set before or the piece is
    ensures forall y, x :: OnBoard(x, y) ==>
      (r[y][x] & NEWSHAPE != 0 <==> b[y][x] & NEWSHAPE != 0 || Covers(shape, x0, y0, rotation, x, y))
  {
    seq(GAMEHEIGHT, y requires 0 <= y < GAMEHEIGHT =>
      seq(GAMEWIDTH, x requires 0 <= x < GAMEWIDTH =>
        if Covers(shape, x0, y0, rotation, x, y) then b[y][x] | NEWSHAPE else b[y][x]))
  }

  /** The board half of `PetrifyScreen`: every non-empty cell becomes a
      petrified block and every other cell stays empty. */
  function PetrifyBoard(b: Board): (r: Board)
    requires WellFormed(b)
    ensures WellFormed(r)
    ensures forall y, x :: OnBoard(x, y) ==> r[y][x] in {NOSHAPE, PETRIFIEDSHAPE}
    ensures forall y, x :: OnBoard(x, y) ==> (r[y][x] == NOSHAPE <==> b[y][x] == NOSHAPE)
  {
    seq(GAMEHEIGHT, y requires 0 <= y < GAMEHEIGHT =>
      seq(GAMEWIDTH, x requires 0 <= x < GAMEWIDTH =>
        if b[y][x] != NOSHAPE then PETRIFIEDSHAPE else NOSHAPE))
  }

  /** Petrifying an already petrified board changes nothing. */
  lemma PetrifyIdempotent(b: Board)
    requires WellFormed(b)
    ensures PetrifyBoard(PetrifyBoard(b)) == PetrifyBoard(b)
  {
    var p := PetrifyBoard(b);
    var q := PetrifyBoard(p);
    forall y | 0 <= y < GAMEHEIGHT
      ensures q[y] == p[y]
    {
      assert forall x :: 0 <= x < GAMEWIDTH ==> q[y][x] == p[y][x];
    }
  }
}
