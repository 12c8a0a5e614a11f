/** One pass of the main loop, and the invariant the game keeps between
    passes: after each `Redraw(CHANGED)` the board holds only empty cells,
    the piece as last shown (OLDSHAPE) and petrified blocks; the piece fits
    where it stands; and the top row never petrifies.
 */
module Play {
  import opened Shapes
  import opened Board
  import opened Collision
  import opened Rows
  import opened Clearing
  import opened Redraw
  import Input
  import opened Engine

  /** Every block of the piece is above the floor and between the walls, and
      none of its blocks on the board sits on a petrified cell. */
  ghost predicate Fits(b: Board, shape: ShapeId, x: int, y: int, rotation: Rotation)
    requires WellFormed(b)
  {
    forall cy, cx :: Covers(shape, x, y, rotation, cx, cy) ==>
      cy < GAMEHEIGHT && 0 <= cx < GAMEWIDTH && (cy >= 0 ==> b[cy][cx] != PETRIFIEDSHAPE)
  }

  /** `CollisionCheck` answers 0 exactly for the poses where the piece fits. */
  lemma NoHitIffFits(b: Board, shape: ShapeId, x: int, y: int, rotation: Rotation)
    requires WellFormed(b)
    ensures CollisionCheck(b, shape, x, y, rotation) == NoHit <==> Fits(b, shape, x, y, rotation)
  {
    if CollisionCheck(b, shape, x, y, rotation) == NoHit {
      NoHitFits(b, shape, x, y, rotation);
    }
    if Fits(b, shape, x, y, rotation) {
      FitsNoHit(b, shape, x, y, rotation);
    }
  }

  lemma NoHitFits(b: Board, shape: ShapeId, x: int, y: int, rotation: Rotation)
    requires WellFormed(b) && CollisionCheck(b, shape, x, y, rotation) == NoHit
    ensures Fits(b, shape, x, y, rotation)
  {
    forall cy, cx | Covers(shape, x, y, rotation, cx, cy)
      ensures cy < GAMEHEIGHT && 0 <= cx < GAMEWIDTH && (cy >= 0 ==> b[cy][cx] != PETRIFIEDSHAPE)
    {
      var k := SHAPEMAX * (cy - y) + (cx - x);
      assert k / SHAPEMAX == cy - y && k % SHAPEMAX == cx - x;
      assert MaskOf(shape, rotation)[k];
      assert !Lands(b, MaskOf(shape, rotation), x, y, k) && !Sticks(MaskOf(shape, rotation), x, k);
    }
  }

  lemma FitsNoHit(b: Board, shape: ShapeId, x: int, y: int, rotation: Rotation)
    requires WellFormed(b) && Fits(b, shape, x, y, rotation)
    ensures CollisionCheck(b, shape, x, y, rotation) == NoHit
  {
    forall k | 0 <= k < 16
      ensures !Lands(b, MaskOf(shape, rotation), x, y, k) && !Sticks(MaskOf(shape, rotation), x, k)
    {
      if MaskOf(shape, rotation)[k] {
        assert Covers(shape, x, y, rotation, x + k % SHAPEMAX, y + k / SHAPEMAX);
      }
    }
  }

  /** Only the petrified cells matter to `CollisionCheck`. */
  lemma CheckSeesPetrified(b: Board, b': Board, shape: ShapeId, x: int, y: int, rotation: Rotation)
    requires WellFormed(b) && WellFormed(b')
    requires forall cy, cx :: OnBoard(cx, cy) ==> (b[cy][cx] == PETRIFIEDSHAPE <==> b'[cy][cx] == PETRIFIEDSHAPE)
    ensures CollisionCheck(b, shape, x, y, rotation) == CollisionCheck(b', shape, x, y, rotation)
  {
    assert forall k :: 0 <= k < 16 ==> (Lands(b, MaskOf(shape, rotation), x, y, k) <==> Lands(b', MaskOf(shape, rotation), x, y, k));
  }

  /** The cell on which the current piece is shown. */
  predicate Shows(g: Game, x: int, y: int) {
    Covers(g.shape, g.pose.x, g.pose.y, g.pose.rotation % 4, x, y)
  }

  /** The cells the game can hold between two passes of the main loop. */
  predicate Resting(c: Cell) {
    c == NOSHAPE || c == OLDSHAPE || c == PETRIFIEDSHAPE
  }

  ghost predicate TopRowOpen(b: Board)
    requires WellFormed(b)
  {
    forall x :: 0 <= x < GAMEWIDTH ==> b[0][x] != PETRIFIEDSHAPE
  }

  /** The game invariant. */
  ghost predicate Consistent(g: Game) {
    && WellFormed(g.board)
    && (forall y, x :: OnBoard(x, y) ==> Resting(g.board[y][x]))
    && (forall y, x :: OnBoard(x, y) ==> (g.board[y][x] == OLDSHAPE <==> Shows(g, x, y)))
    && Fits(g.board, g.shape, g.pose.x, g.pose.y, g.pose.rotation % 4)
    && TopRowOpen(g.board)
  }

  /** The game after `Redraw(CHANGED)`: the diff's board rewrite. */
  function Shown(g: Game): (r: Game)
    requires WellFormed(g.board)
    ensures WellFormed(r.board)
  {
    g.(board := RedrawChanged(g.board).board)
  }

  /** One cell through a move: drawn into (if the piece now covers it), then
      diffed. The piece's cells end up OLDSHAPE, the cells it left become
      empty, and petrified cells stay. */
  lemma CellThroughMove(c: Cell, drawn: Cell, covered: bool)
    requires Resting(c) && (covered ==> c != PETRIFIEDSHAPE)
    requires drawn & !NEWSHAPE == c & !NEWSHAPE
    requires drawn & NEWSHAPE != 0 <==> c & NEWSHAPE != 0 || covered
    ensures RedrawCell(drawn).cell == (if covered then OLDSHAPE else if c == PETRIFIEDSHAPE then c else NOSHAPE)
  {
  }

  /** Committing a move to a pose where the piece fits, then redrawing,
      keeps the invariant and leaves every petrified cell as it was. */
  lemma {:induction false} MoveKeeps(g: Game, d: Delta, yforce: int)
    requires Consistent(g) && g.pose.rotation + d.rot >= 0
    requires var p := Moved(g.pose, d, yforce); Fits(g.board, g.shape, p.x, p.y, p.rotation % 4)
    ensures Consistent(Shown(Commit(g, d, yforce)))
    ensures forall y, x :: OnBoard(x, y) ==>
      (Shown(Commit(g, d, yforce)).board[y][x] == PETRIFIEDSHAPE <==> g.board[y][x] == PETRIFIEDSHAPE)
  {
    var c := Commit(g, d, yforce);
    var s := Shown(c);
    var p := c.pose;
    forall y, x | OnBoard(x, y)
      ensures s.board[y][x] == (if Shows(c, x, y) then OLDSHAPE
        else if g.board[y][x] == PETRIFIEDSHAPE then PETRIFIEDSHAPE else NOSHAPE)
    {
      CellThroughMove(g.board[y][x], c.board[y][x], Shows(c, x, y));
    }
    CheckSeesPetrified(g.board, s.board, g.shape, p.x, p.y, p.rotation % 4);
    NoHitIffFits(g.board, g.shape, p.x, p.y, p.rotation % 4);
    NoHitIffFits(s.board, s.shape, p.x, p.y, p.rotation % 4);
  }

  /** A piece spawned on a board whose top row is open fits, whatever the
      shape, at the spawn row or one below it (after this tick's gravity);
      its blocks reach at most two rows below its anchor, so at the spawn
      row the piece is entirely above the board. */
  lemma SpawnFits(b: Board, shape: ShapeId, y: int)
    requires WellFormed(b) && TopRowOpen(b) && SPAWN_Y <= y <= SPAWN_Y + 1
    ensures Fits(b, shape, SPAWN_X, y, 0)
    ensures forall cy, cx :: Covers(shape, SPAWN_X, y, 0, cx, cy) ==> cy <= y + 2
  {
    forall cy, cx | Covers(shape, SPAWN_X, y, 0, cx, cy)
      ensures cy <= y + 2
    {
      RotationZeroRows(shape, cx - SPAWN_X);
    }
  }

  /** When a piece lands below the top row, the board it petrifies into has
      an empty top row. */
  lemma LandedTopEmpty(g: Game)
    requires Consistent(g) && g.pose.y >= 1
    ensures Settled(Landed(g))
    ensures forall x :: 0 <= x < GAMEWIDTH ==> Landed(g)[0][x] == NOSHAPE
  {
    var drawn := DrawShape(g.board, g.shape, g.pose.x, g.pose.y, g.pose.rotation % 4);
    forall x | 0 <= x < GAMEWIDTH
      ensures drawn[0][x] == NOSHAPE
    {
      assert !Shows(g, x, 0);
      assert g.board[0][x] == NOSHAPE;
    }
  }

  /** Clearing rows of a settled board with an empty top row keeps it
      settled with an empty top row. */
  lemma ClearedTopEmpty(b: Board)
    requires WellFormed(b) && Settled(b)
    requires forall x :: 0 <= x < GAMEWIDTH ==> b[0][x] == NOSHAPE
    ensures Settled(HandleCompletedRows(b).board)
    ensures forall x :: 0 <= x < GAMEWIDTH ==> HandleCompletedRows(b).board[0][x] == NOSHAPE
  {
    var r := HandleCompletedRows(b);
    var n := r.count;
    var keep := IncompleteRows(b, GAMEHEIGHT);
    assert !Complete(b[0]) by { assert b[0][0] == NOSHAPE; }
    assert r.board == Repeat(b[0], n) + keep;
    IncompleteRowsFrom(b, GAMEHEIGHT);
    forall y | 0 <= y < GAMEHEIGHT
      ensures exists j :: 0 <= j < GAMEHEIGHT && r.board[y] == b[j]
    {
      if y < n {
        assert r.board[y] == b[0];
      } else {
        assert r.board[y] == keep[y - n];
        assert keep[y - n] in b[..GAMEHEIGHT];
      }
    }
    forall y, x | 0 <= y < GAMEHEIGHT && 0 <= x < GAMEWIDTH
      ensures r.board[y][x] in {NOSHAPE, PETRIFIEDSHAPE}
    {
      var j :| 0 <= j < GAMEHEIGHT && r.board[y] == b[j];
      assert r.board[y][x] == b[j][x];
    }
    if n > 0 {
      assert r.board[0] == b[0];
    }
  }

  /** Locking keeps the invariant: the new piece waits above the board. */
  lemma LockKeeps(g: Game, rnd: nat)
    requires Consistent(g) && g.pose.y >= 1
    ensures Consistent(Lock(g, rnd))
  {
    var l := Lock(g, rnd);
    LandedTopEmpty(g);
    ClearedTopEmpty(Landed(g));
    assert l.board == HandleCompletedRows(Landed(g)).board;
    SpawnFits(l.board, l.shape, SPAWN_Y);
    assert forall y, x :: OnBoard(x, y) ==> !Shows(l, x, y);
  }

  /** Gravity alone cannot push a piece that fits into a wall: whether a
      block sticks out sideways does not depend on the row. */
  lemma GravityNoEdgeHit(b: Board, shape: ShapeId, p: Pose, yforce: int)
    requires WellFormed(b) && CollisionCheck(b, shape, p.x, p.y, p.rotation % 4) == NoHit
    ensures Check(b, shape, p, NoMove, yforce) != EdgeHit
  {
    assert Moved(p, NoMove, yforce) == Pose(p.x, p.y + yforce, p.rotation);
    assert forall k :: 0 <= k < 16 ==> !Sticks(MaskOf(shape, p.rotation % 4), p.x, k);
  }

  /** In play the retry loop never ends in an edge hit. */
  lemma NoEdgeHitInPlay(b: Board, shape: ShapeId, p: Pose, d: Delta, yforce: int)
    requires WellFormed(b) && p.rotation + d.rot >= 0
    requires Fits(b, shape, p.x, p.y, p.rotation % 4)
    ensures Resolve(b, shape, p, d, yforce).verdict != EdgeHit
  {
    NoHitIffFits(b, shape, p.x, p.y, p.rotation % 4);
    GravityNoEdgeHit(b, shape, p, yforce);
  }

  /** Without gravity the retry loop never lands: undoing every key press
      leaves the piece where it stands, and there it fits. So a piece lands
      only on a tick whose timer pulled it down. */
  lemma LandingNeedsGravity(b: Board, shape: ShapeId, p: Pose, d: Delta)
    requires WellFormed(b) && p.rotation + d.rot >= 0
    requires Fits(b, shape, p.x, p.y, p.rotation % 4)
    ensures Resolve(b, shape, p, d, 0).verdict == NoHit
  {
    NoHitIffFits(b, shape, p.x, p.y, p.rotation % 4);
    assert Moved(p, NoMove, 0) == p;
  }

  /** `HandleShape` followed by `Redraw(CHANGED)` keeps the invariant. */
  lemma HandleShapeKeeps(g: Game, d: Delta, yforce: int, rnd: nat)
    requires Consistent(g) && g.pose.rotation + d.rot >= 0 && 0 <= yforce <= 1
    ensures HandleShape(g, d, yforce, rnd).Playing? ==>
      Consistent(Shown(HandleShape(g, d, yforce, rnd).game))
  {
    var r := Resolve(g.board, g.shape, g.pose, d, yforce);
    NoEdgeHitInPlay(g.board, g.shape, g.pose, d, yforce);
    if r.verdict == NoHit {
      MoveBranchKeeps(g, d, yforce, rnd);
    } else if g.pose.y >= 1 {
      LandBranchKeeps(g, d, yforce, rnd);
    } else {
      // a bottom hit at the top ends the game
      assert HandleShape(g, d, yforce, rnd) == GameOver;
    }
  }

  /** A move that fits is committed, and the game stays consistent. */
  lemma MoveBranchKeeps(g: Game, d: Delta, yforce: int, rnd: nat)
    requires Consistent(g) && g.pose.rotation + d.rot >= 0
    ensures Resolve(g.board, g.shape, g.pose, d, yforce).verdict == NoHit ==>
      && HandleShape(g, d, yforce, rnd).Playing?
      && Consistent(Shown(HandleShape(g, d, yforce, rnd).game))
  {
    var r := Resolve(g.board, g.shape, g.pose, d, yforce);
    if r.verdict == NoHit {
      var p := Moved(g.pose, r.delta, yforce);
      NoHitIffFits(g.board, g.shape, p.x, p.y, p.rotation % 4);
      MoveKeeps(g, r.delta, yforce);
    }
  }

  /** A landing that goes on locks the piece and spawns the next one, and
      the game stays consistent. */
  lemma LandBranchKeeps(g: Game, d: Delta, yforce: int, rnd: nat)
    requires Consistent(g) && g.pose.rotation + d.rot >= 0 && 0 <= yforce <= 1
    ensures Resolve(g.board, g.shape, g.pose, d, yforce).verdict == BottomHit && g.pose.y >= 1 ==>
      && HandleShape(g, d, yforce, rnd).Playing?
      && Consistent(Shown(HandleShape(g, d, yforce, rnd).game))
  {
    var r := Resolve(g.board, g.shape, g.pose, d, yforce);
    if r.verdict == BottomHit && g.pose.y >= 1 {
      var l := Lock(g, rnd);
      assert HandleShape(g, d, yforce, rnd) == Playing(Commit(l, NoMove, yforce));
      LockKeeps(g, rnd);
      SpawnFits(l.board, l.shape, SPAWN_Y + yforce);
      MoveKeeps(l, NoMove, yforce);
    }
  }

  /** The result of one pass of the main loop. */
  datatype Pass = Quit | Over | Running(game: Game, lasttime: int, test: bool, draws: seq<Draw>)

  /** One pass of `main`'s loop: the timer, then the buttons, then, if
      anything asked for movement, `HandleShape` and `Redraw(CHANGED)`.
      `now` is the clock, `keys` what `ReadKey` returns call by call, and
      `rnd` the next `rand()`. */
  function Tick(g: Game, lasttime: int, now: int, keys: seq<Input.Command>, rnd: nat, test: bool): (r: Pass)
    requires WellFormed(g.board)
    ensures r == Quit <==> Input.HandleButtons(keys, Input.Buttons(0, 0, 0, 0, test, false)) == Input.QuitGame
    ensures r.Running? ==> WellFormed(r.game.board) && r.game.rows >= g.rows && r.lasttime == now
    // with no movement and no gravity nothing happens; otherwise the pass is
    // `HandleShape` then `Redraw(CHANGED)`, and it is over exactly when
    // `HandleShape` ends the game
    ensures var p := Input.HandleButtons(keys, Input.Buttons(0, 0, 0, 0, test, false));
      var yforce := HandleTimer(lasttime, now).yforce;
      p.Polled? ==>
        var bt := p.buttons;
        if bt.x == 0 && bt.y == 0 && bt.rotate == 0 && yforce == 0 then r == Running(g, now, bt.test, [])
        else
          var o := HandleShape(g, Delta(bt.x, bt.y, bt.rotate), yforce, rnd);
          && (r == Over <==> o.GameOver?)
          && (o.Playing? ==> r == Running(Shown(o.game), now, bt.test, RedrawChanged(o.game.board).draws))
  {
    var t := HandleTimer(lasttime, now);
    match Input.HandleButtons(keys, Input.Buttons(0, 0, 0, 0, test, false))
    case QuitGame => Quit
    case Polled(bt) =>
      if bt.x == 0 && bt.y == 0 && bt.rotate == 0 && t.yforce == 0 then Running(g, t.lasttime, bt.test, [])
      else
        match HandleShape(g, Delta(bt.x, bt.y, bt.rotate), t.yforce, rnd)
        case GameOver => Over
        case Playing(g1) =>
          var f := RedrawChanged(g1.board);
          Running(g1.(board := f.board), t.lasttime, bt.test, f.draws)
  }

  /** The game starts consistent: an empty board and a piece above it. */
  lemma ClearConsistent(rnd1: nat, rnd2: nat)
    ensures Consistent(Clear(rnd1, rnd2))
  {
    var g := Clear(rnd1, rnd2);
    SpawnFits(g.board, g.shape, SPAWN_Y);
    assert forall y, x :: OnBoard(x, y) ==> !Shows(g, x, y);
  }

  /** Every pass of the main loop that goes on keeps the invariant. */
  lemma TickKeeps(g: Game, lasttime: int, now: int, keys: seq<Input.Command>, rnd: nat, test: bool)
    requires Consistent(g)
    ensures Tick(g, lasttime, now, keys, rnd, test).Running? ==> Consistent(Tick(g, lasttime, now, keys, rnd, test).game)
  {
    var t := HandleTimer(lasttime, now);
    var p := Input.HandleButtons(keys, Input.Buttons(0, 0, 0, 0, test, false));
    if p.Polled? {
      var bt := p.buttons;
      HandleShapeKeeps(g, Delta(bt.x, bt.y, bt.rotate), t.yforce, rnd);
    }
  }
}
