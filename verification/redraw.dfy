/** `Redraw(CHANGED)`: the per-frame diff between the board and the terminal.

    Only the two low bit planes take part. A cell whose NEWSHAPE bit is set
    and OLDSHAPE bit clear is painted on; one with only OLDSHAPE is painted
    off; both bits set (the piece is still where it was shown) needs no paint.
    Each cell is then rewritten so that OLDSHAPE records what the piece just
    put on the screen. Higher bits (the petrified bit) are carried over.

    Terminal output is replaced by the list of paint commands the scan emits,
    in board coordinates, and a model of the terminal as one flag per cell.
 */
module Redraw {
  import opened Shapes
  import opened Board

  datatype Paint = Unchanged | PaintOn | PaintOff

  /** `DrawPixel(on)` at board cell (x, y). */
  datatype Draw = Draw(x: int, y: int, on: bool)

  /** What the terminal shows: one flag per board cell, true when painted. */
  type Display = seq<seq<bool>>

  predicate DisplayFits(d: Display) {
    |d| == GAMEHEIGHT && forall y :: 0 <= y < |d| ==> |d[y]| == GAMEWIDTH
  }

  datatype CellStep = CellStep(cell: Cell, paint: Paint)

  /** The `switch` on the low two bits of one cell. */
  function RedrawCell(c: Cell): (r: CellStep)
    // bits above the low two survive
    ensures r.cell & !COLLIDESHAPE == c & !COLLIDESHAPE
    // afterwards no piece is pending, and OLDSHAPE marks the piece just drawn
    ensures r.cell & NEWSHAPE == 0
    ensures r.cell & OLDSHAPE != 0 <==> c & NEWSHAPE != 0
    // paint exactly the cells whose state differs from what is shown
    ensures r.paint == PaintOn <==> c & COLLIDESHAPE == NEWSHAPE
    ensures r.paint == PaintOff <==> c & COLLIDESHAPE == OLDSHAPE
    ensures c & COLLIDESHAPE == NOSHAPE ==> r.cell == c
  {
    // `Gscreen[y][x] & (COLLIDESHAPE^0xffff)` kept to the cell's eight bits
    var flags := c & !COLLIDESHAPE;
    var low := c & COLLIDESHAPE;
    if low == NEWSHAPE then CellStep(OLDSHAPE | flags, PaintOn)
    else if low == OLDSHAPE then CellStep(NOSHAPE | flags, PaintOff)
    else if low == COLLIDESHAPE then CellStep(OLDSHAPE | flags, Unchanged)
    else CellStep(c, Unchanged)
  }

  const CELLS: int := GAMEHEIGHT * GAMEWIDTH

  /** The cell visited k-th by the row-major scan. */
  function CellAt(b: Board, k: int): Cell
    requires WellFormed(b) && 0 <= k < CELLS
  {
    b[k / GAMEWIDTH][k % GAMEWIDTH]
  }

  function PaintCommand(p: Paint, x: int, y: int): seq<Draw> {
    match p
    case Unchanged => []
    case PaintOn => [Draw(x, y, true)]
    case PaintOff => [Draw(x, y, false)]
  }

  /** The paint commands the scan emits from the k-th cell on. */
  function CommandsFrom(b: Board, k: nat): seq<Draw>
    requires WellFormed(b) && k <= CELLS
    decreases CELLS - k
  {
    if k == CELLS then []
    else PaintCommand(RedrawCell(CellAt(b, k)).paint, k % GAMEWIDTH, k / GAMEWIDTH)
         + CommandsFrom(b, k + 1)
  }

  datatype Frame = Frame(board: Board, draws: seq<Draw>)

  /** `Redraw(CHANGED)`: the rewritten board and the paint commands, in scan order. */
  function RedrawChanged(b: Board): (f: Frame)
    requires WellFormed(b)
    ensures WellFormed(f.board)
    ensures forall y, x :: OnBoard(x, y) ==> f.board[y][x] == RedrawCell(b[y][x]).cell
  {
    var nb := seq(GAMEHEIGHT, y requires 0 <= y < GAMEHEIGHT =>
      seq(GAMEWIDTH, x requires 0 <= x < GAMEWIDTH => RedrawCell(b[y][x]).cell));
    Frame(nb, CommandsFrom(b, 0))
  }

  /** The terminal after one paint command. */
  function Apply(d: Display, c: Draw): (d': Display)
    requires DisplayFits(d)
    ensures DisplayFits(d')
  {
    if OnBoard(c.x, c.y) then d[c.y := d[c.y][c.x := c.on]] else d
  }

  function ApplyAll(d: Display, cs: seq<Draw>): (d': Display)
    requires DisplayFits(d)
    ensures DisplayFits(d')
    decreases |cs|
  {
    if |cs| == 0 then d else ApplyAll(Apply(d, cs[0]), cs[1..])
  }

  /** The state of a terminal cell after `p` is done to it. */
  function Painted(p: Paint, shown: bool): bool {
    match p
    case Unchanged => shown
    case PaintOn => true
    case PaintOff => false
  }

  lemma {:induction false} ApplyAllAppend(d: Display, cs: seq<Draw>, ds: seq<Draw>)
    requires DisplayFits(d)
    ensures ApplyAll(d, cs + ds) == ApplyAll(ApplyAll(d, cs), ds)
    decreases |cs|
  {
    if |cs| > 0 {
      assert (cs + ds)[0] == cs[0] && (cs + ds)[1..] == cs[1..] + ds;
      ApplyAllAppend(Apply(d, cs[0]), cs[1..], ds);
    } else {
      assert cs + ds == ds;
    }
  }

  /** Replaying the commands from the k-th cell on updates exactly the cells
      from the k-th on, each as its own transition says. */
  lemma {:induction false} CommandsFromUpdate(b: Board, d: Display, k: nat)
    requires WellFormed(b) && DisplayFits(d) && k <= CELLS
    ensures forall y, x :: OnBoard(x, y) ==>
      ApplyAll(d, CommandsFrom(b, k))[y][x] ==
        (if y * GAMEWIDTH + x >= k then Painted(RedrawCell(b[y][x]).paint, d[y][x]) else d[y][x])
    decreases CELLS - k
  {
    if k < CELLS {
      var x0, y0 := k % GAMEWIDTH, k / GAMEWIDTH;
      var p := RedrawCell(CellAt(b, k)).paint;
      var head := PaintCommand(p, x0, y0);
      var d1 := ApplyAll(d, head);
      ApplyAllAppend(d, head, CommandsFrom(b, k + 1));
      CommandsFromUpdate(b, d1, k + 1);
      ApplyHead(d, p, x0, y0);
      forall y, x | OnBoard(x, y) && y * GAMEWIDTH + x == k
        ensures y == y0 && x == x0
      {
        CellIndex(x, y, k);
      }
    }
  }

  /** The paint command of one cell changes that terminal cell only. */
  lemma ApplyHead(d: Display, p: Paint, x0: int, y0: int)
    requires DisplayFits(d) && OnBoard(x0, y0)
    ensures forall y, x :: OnBoard(x, y) ==>
      ApplyAll(d, PaintCommand(p, x0, y0))[y][x] == (if y == y0 && x == x0 then Painted(p, d[y][x]) else d[y][x])
  {
    var cs := PaintCommand(p, x0, y0);
    if |cs| > 0 {
      assert ApplyAll(d, cs) == ApplyAll(Apply(d, cs[0]), []);
    }
  }

  /** The scan index of a cell determines the cell. */
  lemma CellIndex(x: int, y: int, k: int)
    requires OnBoard(x, y) && k == y * GAMEWIDTH + x
    ensures y == k / GAMEWIDTH && x == k % GAMEWIDTH
  {
  }

  /** The terminal after replaying a whole frame: every cell transformed by
      its own transition, so each cell is painted at most once. */
  lemma RedrawPaintsEachCell(b: Board, d: Display)
    requires WellFormed(b) && DisplayFits(d)
    ensures forall y, x :: OnBoard(x, y) ==>
      ApplyAll(d, RedrawChanged(b).draws)[y][x] == Painted(RedrawCell(b[y][x]).paint, d[y][x])
  {
    CommandsFromUpdate(b, d, 0);
  }

  /** Where a command falls in the row-major scan. */
  function ScanIndex(c: Draw): int {
    c.y * GAMEWIDTH + c.x
  }

  /** The paint each cell asks for, in scan order. */
  function ScanPaints(b: Board): (ps: seq<Paint>)
    requires WellFormed(b)
    ensures |ps| == CELLS
  {
    seq(CELLS, k requires 0 <= k < CELLS => RedrawCell(CellAt(b, k)).paint)
  }

  /** The commands for a sequence of paints, one cell after another from the k-th. */
  function Emit(ps: seq<Paint>, k: nat): seq<Draw>
    requires k <= |ps|
    decreases |ps| - k
  {
    if k == |ps| then [] else PaintCommand(ps[k], k % GAMEWIDTH, k / GAMEWIDTH) + Emit(ps, k + 1)
  }

  /** The scan's commands are those of its paint sequence. */
  lemma {:induction false} CommandsFromEmit(b: Board, k: nat)
    requires WellFormed(b) && k <= CELLS
    ensures CommandsFrom(b, k) == Emit(ScanPaints(b), k)
    decreases CELLS - k
  {
    if k < CELLS {
      CommandsFromEmit(b, k + 1);
    }
  }

  /** The i-th command from the k-th paint on stands at a scan index from k on,
      inside the sequence, and paints what the paint at that index asks for. */
  lemma {:induction false} EmitAt(ps: seq<Paint>, k: nat, i: int)
    requires k <= |ps|
    ensures 0 <= i < |Emit(ps, k)| ==>
      var c := Emit(ps, k)[i];
      && 0 <= c.x < GAMEWIDTH && k <= ScanIndex(c) < |ps|
      && ps[ScanIndex(c)] == (if c.on then PaintOn else PaintOff)
    decreases |ps| - k
  {
    if 0 <= i < |Emit(ps, k)| {
      var head := PaintCommand(ps[k], k % GAMEWIDTH, k / GAMEWIDTH);
      assert Emit(ps, k) == head + Emit(ps, k + 1);
      if i >= |head| {
        assert Emit(ps, k)[i] == Emit(ps, k + 1)[i - |head|];
        EmitAt(ps, k + 1, i - |head|);
      } else {
        assert Emit(ps, k)[i] == head[i];
      }
    }
  }

  /** The k-th cell's command, if any, stands at scan index k. */
  lemma HeadAtIndex(p: Paint, k: nat)
    ensures var head := PaintCommand(p, k % GAMEWIDTH, k / GAMEWIDTH);
      |head| <= 1 && forall n :: 0 <= n < |head| ==> ScanIndex(head[n]) == k
  {
  }

  /** Each command from the k-th paint on comes before the next one in scan order. */
  lemma {:induction false} EmitAdjacent(ps: seq<Paint>, k: nat, i: int)
    requires k <= |ps|
    ensures 0 <= i && i + 1 < |Emit(ps, k)| ==> ScanIndex(Emit(ps, k)[i]) < ScanIndex(Emit(ps, k)[i + 1])
    decreases |ps| - k
  {
    if 0 <= i && i + 1 < |Emit(ps, k)| {
      var head := PaintCommand(ps[k], k % GAMEWIDTH, k / GAMEWIDTH);
      assert Emit(ps, k) == head + Emit(ps, k + 1);
      assert Emit(ps, k)[i + 1] == Emit(ps, k + 1)[i + 1 - |head|];
      if i >= |head| {
        assert Emit(ps, k)[i] == Emit(ps, k + 1)[i - |head|];
        EmitAdjacent(ps, k + 1, i - |head|);
      } else {
        assert Emit(ps, k)[i] == head[i];
        HeadAtIndex(ps[k], k);
        EmitAt(ps, k + 1, 0);
      }
    }
  }

  /** Commands whose neighbours are in scan order are in scan order throughout. */
  lemma {:induction false} ChainInOrder(ds: seq<Draw>, i: int, j: int)
    requires forall n :: 0 <= n && n + 1 < |ds| ==> ScanIndex(ds[n]) < ScanIndex(ds[n + 1])
    ensures 0 <= i < j < |ds| ==> ScanIndex(ds[i]) < ScanIndex(ds[j])
    decreases j - i
  {
    if 0 <= i && i + 1 < j < |ds| {
      ChainInOrder(ds, i + 1, j);
    }
  }

  /** `Redraw(CHANGED)` visits each cell once: its commands fall on distinct
      cells, in scan order, and each is the paint its cell's transition asks
      for. */
  lemma RedrawPaintsOnce(b: Board)
    requires WellFormed(b)
    ensures var ds := RedrawChanged(b).draws;
      && (forall i :: 0 <= i < |ds| ==>
            && OnBoard(ds[i].x, ds[i].y)
            && RedrawCell(b[ds[i].y][ds[i].x]).paint == (if ds[i].on then PaintOn else PaintOff))
      && (forall i, j :: 0 <= i < j < |ds| ==> ScanIndex(ds[i]) < ScanIndex(ds[j]))
      && (forall i, j :: 0 <= i < j < |ds| ==> (ds[i].x, ds[i].y) != (ds[j].x, ds[j].y))
  {
    var ds, ps := RedrawChanged(b).draws, ScanPaints(b);
    CommandsFromEmit(b, 0);
    assert ds == Emit(ps, 0);
    forall i | 0 <= i < |ds|
      ensures OnBoard(ds[i].x, ds[i].y)
      ensures RedrawCell(b[ds[i].y][ds[i].x]).paint == (if ds[i].on then PaintOn else PaintOff)
    {
      EmitAt(ps, 0, i);
      CellIndex(ds[i].x, ds[i].y, ScanIndex(ds[i]));
    }
    forall n | 0 <= n && n + 1 < |ds|
      ensures ScanIndex(ds[n]) < ScanIndex(ds[n + 1])
    {
      EmitAdjacent(ps, 0, n);
    }
    forall i, j | 0 <= i < j < |ds|
      ensures ScanIndex(ds[i]) < ScanIndex(ds[j])
      ensures (ds[i].x, ds[i].y) != (ds[j].x, ds[j].y)
    {
      ChainInOrder(ds, i, j);
    }
  }

  /** The cell states that arise in play: empty, new, old, both, petrified. */
  predicate PlayCell(c: Cell) {
    c <= PETRIFIEDSHAPE
  }

  /** Before a diff: the terminal shows what was on the board last frame,
      which is the OLDSHAPE plane plus the petrified blocks. */
  ghost predicate ShownLastFrame(b: Board, d: Display)
    requires WellFormed(b) && DisplayFits(d)
  {
    forall y, x :: OnBoard(x, y) ==>
      PlayCell(b[y][x]) && (d[y][x] <==> b[y][x] & OLDSHAPE != 0 || b[y][x] == PETRIFIEDSHAPE)
  }

  /** After a diff: the terminal shows exactly the non-empty cells, and every
      cell is empty, old or petrified. */
  ghost predicate InSync(b: Board, d: Display)
    requires WellFormed(b) && DisplayFits(d)
  {
    forall y, x :: OnBoard(x, y) ==>
      b[y][x] in {NOSHAPE, OLDSHAPE, PETRIFIEDSHAPE} && (d[y][x] <==> b[y][x] != NOSHAPE)
  }

  /** The diff is correct: if the terminal showed last frame's board, then
      after the emitted commands it shows the piece where it was just drawn,
      plus the petrified blocks, and the rewritten board describes it. */
  lemma RedrawBringsDisplayInSync(b: Board, d: Display)
    requires WellFormed(b) && DisplayFits(d) && ShownLastFrame(b, d)
    ensures InSync(RedrawChanged(b).board, ApplyAll(d, RedrawChanged(b).draws))
    ensures forall y, x :: OnBoard(x, y) ==>
      (ApplyAll(d, RedrawChanged(b).draws)[y][x] <==> b[y][x] & NEWSHAPE != 0 || b[y][x] == PETRIFIEDSHAPE)
  {
    RedrawPaintsEachCell(b, d);
  }

  /** A diff made right after another one can still paint: a cell the
      first diff painted on, with nothing drawn since, is painted off by the
      second, whatever the terminal showed before. */
  lemma SecondRedrawErases(b: Board, d: Display, x: int, y: int)
    requires WellFormed(b) && DisplayFits(d) && OnBoard(x, y)
    requires b[y][x] & COLLIDESHAPE == NEWSHAPE
    ensures RedrawCell(b[y][x]).paint == PaintOn
    ensures RedrawCell(RedrawChanged(b).board[y][x]).paint == PaintOff
    ensures ApplyAll(d, RedrawChanged(b).draws)[y][x]
    ensures !ApplyAll(d, RedrawChanged(RedrawChanged(b).board).draws)[y][x]
  {
    RedrawPaintsEachCell(b, d);
    RedrawPaintsEachCell(RedrawChanged(b).board, d);
  }

  /** The smallest instance: one new block in the corner of an empty board
      gives one paint-on command, then one paint-off command. */
  lemma SecondRedrawErasesExample()
    ensures var b := EmptyBoard()[0 := EmptyRow()[0 := NEWSHAPE]];
      && RedrawChanged(b).draws == [Draw(0, 0, true)]
      && RedrawChanged(RedrawChanged(b).board).draws == [Draw(0, 0, false)]
  {
    var b := EmptyBoard()[0 := EmptyRow()[0 := NEWSHAPE]];
    SilentAfterCell(b, 1);
    var b1 := RedrawChanged(b).board;
    SilentAfterCell(b1, 1);
  }

  lemma {:induction false} SilentAfterCell(b: Board, k: nat)
    requires WellFormed(b) && k <= CELLS
    requires forall y, x :: OnBoard(x, y) && y * GAMEWIDTH + x >= k ==> b[y][x] & COLLIDESHAPE == NOSHAPE
    ensures CommandsFrom(b, k) == []
    decreases CELLS - k
  {
    if k < CELLS {
      assert (k / GAMEWIDTH) * GAMEWIDTH + k % GAMEWIDTH == k;
      SilentAfterCell(b, k + 1);
    }
  }

  /** Two diffs in a row clear both low planes, so a third paints nothing. */
  lemma ThirdRedrawIsSilent(b: Board)
    requires WellFormed(b)
    ensures RedrawChanged(RedrawChanged(RedrawChanged(b).board).board).draws == []
  {
    var b2 := RedrawChanged(RedrawChanged(b).board).board;
    SilentAfterCell(b2, 0);
  }
}
