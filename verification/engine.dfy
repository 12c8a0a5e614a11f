/** The engine state and `HandleShape`: spawning, the gravity clock, the
    retry loop that undoes button movement until the piece fits, locking a
    landed piece and committing the move.

    `rand()` and `time()` are not called: the random number and the current
    second come in as parameters. `Texit` after a fatal landing becomes the
    `GameOver` outcome.
 */
module Engine {
  import opened Shapes
  import opened Board
  import opened Collision
  import opened Rows
  import opened Clearing

  /** `Gx`, `Gy` and `Grotate`. `Grotate` only ever grows from 0 and is
      reduced modulo 4 wherever a mask is looked up. */
  datatype Pose = Pose(x: int, y: int, rotation: nat)

  /** The engine's globals: `Gscreen`, `Gshape`, `Gnextshape`, the pose and `Grows`. */
  datatype Game = Game(board: Board, shape: ShapeId, next: ShapeId, pose: Pose, rows: nat)

  /** Where `MakeNewShape` puts a new piece: centred, three rows above the board. */
  const SPAWN_X: int := (GAMEWIDTH - SHAPEMAX) / 2
  const SPAWN_Y: int := -3

  /** `MakeNewShape`: the previewed shape becomes the current one at the spawn
      pose, and `rnd` (the value of `rand()`) picks the next preview. */
  function MakeNewShape(g: Game, rnd: nat): (r: Game)
    ensures r.pose.rotation == 0 && r.pose.y == -3 && 2 * r.pose.x + SHAPEMAX == GAMEWIDTH
    ensures r.shape == g.next && r.next == rnd % MAXSHAPES
    ensures r.board == g.board && r.rows == g.rows
  {
    g.(pose := Pose(SPAWN_X, SPAWN_Y, 0), shape := g.next, next := rnd % MAXSHAPES)
  }

  /** `Clear`: an empty board, no rows, and two spawns so that both the
      current and the preview shape come from `rand()`. */
  function Clear(rnd1: nat, rnd2: nat): (g: Game)
    ensures WellFormed(g.board) && forall y, x :: OnBoard(x, y) ==> g.board[y][x] == NOSHAPE
    ensures g.rows == 0 && g.pose == Pose(SPAWN_X, SPAWN_Y, 0)
    ensures g.shape == rnd1 % MAXSHAPES && g.next == rnd2 % MAXSHAPES
  {
    var g0 := Game(EmptyBoard(), 0, 0, Pose(0, -3, 0), 0);
    MakeNewShape(MakeNewShape(g0, rnd1), rnd2)
  }

  datatype Timer = Timer(lasttime: int, yforce: int)

  /** `HandleTimer`: gravity pulls once each time the clock's second changes.
      `now` is the value of `time()`. */
  function HandleTimer(lasttime: int, now: int): (t: Timer)
    ensures t.lasttime == now
    ensures 0 <= t.yforce <= 1
    ensures t.yforce == 1 <==> now != lasttime
  {
    if now != lasttime then Timer(now, 1) else Timer(lasttime, 0)
  }

  /** Asking again within the same second never pulls the piece a second time. */
  lemma TimerOncePerSecond(lasttime: int, now: int)
    ensures HandleTimer(HandleTimer(lasttime, now).lasttime, now).yforce == 0
  {
  }

  /** The movement `HandleButtons` asked for: the `*x`, `*y` and `*rotate`
      that `HandleShape` revises. */
  datatype Delta = Delta(x: int, y: int, rot: int)

  const NoMove := Delta(0, 0, 0)

  /** The retry loop's measure: the total movement still asked for. */
  function Size(d: Delta): nat { Abs(d.rot) + Abs(d.x) + Abs(d.y) }

  /** `a` lies between 0 and `b`: the same sign as `b`, and no larger. */
  predicate Within(a: int, b: int) {
    if b >= 0 then 0 <= a <= b else b <= a <= 0
  }

  predicate Shrinks(e: Delta, d: Delta) {
    Within(e.rot, d.rot) && Within(e.x, d.x) && Within(e.y, d.y)
  }

  /** One pass of the retry loop that `continue`s: the first non-zero
      component, in the order rotation, x, y, moves one unit toward zero. */
  function Undo(d: Delta): (e: Delta)
    requires d != NoMove
    ensures Size(e) == Size(d) - 1 && Shrinks(e, d)
    ensures e.rot != d.rot ==> e.x == d.x && e.y == d.y
    ensures e.x != d.x ==> d.rot == 0 && e.rot == 0 && e.y == d.y
    ensures e.y != d.y ==> d.rot == 0 && d.x == 0 && e.rot == 0 && e.x == 0
  {
    if d.rot != 0 then d.(rot := d.rot - Zsgn(d.rot))
    else if d.x != 0 then d.(x := d.x - Zsgn(d.x))
    else d.(y := d.y - Zsgn(d.y))
  }

  /** The delta after n undo steps. */
  function Undone(d: Delta, n: nat): (e: Delta)
    requires n <= Size(d)
    ensures Size(e) == Size(d) - n && Shrinks(e, d)
    decreases n
  {
    if n == 0 then d else Undone(Undo(d), n - 1)
  }

  /** Undoing n + 1 steps is one step followed by n more. */
  lemma UndoneSucc(d: Delta, n: nat)
    requires n + 1 <= Size(d)
    ensures d != NoMove && Undone(d, n + 1) == Undone(Undo(d), n)
  {
  }

  /** The undo steps empty the components strictly in turn: x only moves once
      the rotation is used up, and y only once both are. */
  lemma {:induction false} UndoneInOrder(d: Delta, n: nat)
    requires n <= Size(d)
    ensures Undone(d, n).x != d.x ==> Undone(d, n).rot == 0
    ensures Undone(d, n).y != d.y ==> Undone(d, n).rot == 0 && Undone(d, n).x == 0
    decreases n
  {
    if n > 0 {
      var e := Undo(d);
      UndoneInOrder(e, n - 1);
    }
  }

  /** The `CollisionCheck` call at the top of the retry loop. */
  function Check(b: Board, shape: ShapeId, p: Pose, d: Delta, yforce: int): Collision
    requires WellFormed(b) && p.rotation + d.rot >= 0
  {
    var q := Moved(p, d, yforce);
    CollisionCheck(b, shape, q.x, q.y, q.rotation % 4)
  }

  /** How the retry loop ends: the revised delta, the verdict of the last
      check, and how many undo steps it took. */
  datatype Resolution = Resolution(delta: Delta, verdict: Collision, undone: nat)

  /** The `while (1)` loop of `HandleShape` over any collision test: undo
      one unit at a time while the delta collides and some movement is left. */
  function ResolveWith(check: Delta -> Collision, d: Delta): (r: Resolution)
    ensures r.undone <= Size(d) && r.delta == Undone(d, r.undone)
    ensures r.verdict == check(r.delta)
    // it stops when nothing is left to undo, or earlier at a delta that fits
    ensures r.verdict != NoHit ==> r.delta == NoMove
    decreases Size(d)
  {
    var v := check(d);
    if v == NoHit || d == NoMove then Resolution(d, v, 0)
    else
      var r := ResolveWith(check, Undo(d));
      Resolution(r.delta, r.verdict, r.undone + 1)
  }

  /** The loop stops at the FIRST undo stage that fits: every stage before
      the one it settles on collided. */
  lemma {:induction false} FirstFitWith(check: Delta -> Collision, d: Delta, m: nat)
    ensures m < ResolveWith(check, d).undone ==> check(Undone(d, m)) != NoHit
    decreases m
  {
    if 0 < m < ResolveWith(check, d).undone {
      UndoneSucc(d, m - 1);
      FirstFitWith(check, Undo(d), m - 1);
    }
  }

  /** The check of `HandleShape`'s loop for the piece at `p`, as a test of
      the delta. Every delta the loop tries keeps the rotation counter
      non-negative, so the fallback is never consulted. */
  function Checker(b: Board, shape: ShapeId, p: Pose, yforce: int): Delta -> Collision
    requires WellFormed(b)
  {
    (e: Delta) => if p.rotation + e.rot >= 0 then Check(b, shape, p, e, yforce) else NoHit
  }

  /** The loop of `HandleShape` for the piece at `p`. `yforce` is never
      undone. */
  function Resolve(b: Board, shape: ShapeId, p: Pose, d: Delta, yforce: int): (r: Resolution)
    requires WellFormed(b) && p.rotation + d.rot >= 0
    ensures r.undone <= Size(d) && r.delta == Undone(d, r.undone)
    ensures p.rotation + r.delta.rot >= 0
    ensures r.verdict == Check(b, shape, p, r.delta, yforce)
    // it stops when nothing is left to undo, or earlier at a delta that fits
    ensures r.verdict != NoHit ==> r.delta == NoMove
  {
    ResolveWith(Checker(b, shape, p, yforce), d)
  }

  /** The retry loop stops at the FIRST undo stage that fits: every stage
      before the one it settles on collided. */
  lemma ResolveFirstFit(b: Board, shape: ShapeId, p: Pose, d: Delta, yforce: int, m: nat)
    requires WellFormed(b) && p.rotation + d.rot >= 0
    ensures m < Resolve(b, shape, p, d, yforce).undone ==> Check(b, shape, p, Undone(d, m), yforce) != NoHit
  {
    FirstFitWith(Checker(b, shape, p, yforce), d, m);
  }

  /** A requested move that fits is made in full. */
  lemma ResolveKeepsFit(b: Board, shape: ShapeId, p: Pose, d: Delta, yforce: int)
    requires WellFormed(b) && p.rotation + d.rot >= 0
    requires Check(b, shape, p, d, yforce) == NoHit
    ensures Resolve(b, shape, p, d, yforce) == Resolution(d, NoHit, 0)
  {
    assert Checker(b, shape, p, yforce)(d) == NoHit;
  }

  /** The pose after `Gx += *x; Gy += *y + *yforce; Grotate += *rotate`. */
  function Moved(p: Pose, d: Delta, yforce: int): Pose
    requires p.rotation + d.rot >= 0
  {
    Pose(p.x + d.x, p.y + d.y + yforce, p.rotation + d.rot)
  }

  /** The tail of `HandleShape`: move the pose and draw the piece there. */
  function Commit(g: Game, d: Delta, yforce: int): (r: Game)
    requires WellFormed(g.board) && g.pose.rotation + d.rot >= 0
    ensures WellFormed(r.board)
    ensures r.pose == Moved(g.pose, d, yforce)
    ensures r.shape == g.shape && r.next == g.next && r.rows == g.rows
  {
    var p := Moved(g.pose, d, yforce);
    g.(pose := p, board := DrawShape(g.board, g.shape, p.x, p.y, p.rotation % 4))
  }

  /** The board once the piece is drawn where it stands and everything is petrified. */
  function Landed(g: Game): (b: Board)
    requires WellFormed(g.board)
    ensures WellFormed(b)
    // every cell is empty or petrified, and petrified exactly where the board
    // held anything before or the piece covers it
    ensures forall y, x :: OnBoard(x, y) ==> b[y][x] == NOSHAPE || b[y][x] == PETRIFIEDSHAPE
    ensures forall y, x :: OnBoard(x, y) ==>
      (b[y][x] == PETRIFIEDSHAPE <==>
        g.board[y][x] != NOSHAPE || Covers(g.shape, g.pose.x, g.pose.y, g.pose.rotation % 4, x, y))
  {
    var drawn := DrawShape(g.board, g.shape, g.pose.x, g.pose.y, g.pose.rotation % 4);
    forall y, x | OnBoard(x, y)
      ensures drawn[y][x] != NOSHAPE <==>
        g.board[y][x] != NOSHAPE || Covers(g.shape, g.pose.x, g.pose.y, g.pose.rotation % 4, x, y)
    {
      NonZeroBits(drawn[y][x]);
      NonZeroBits(g.board[y][x]);
    }
    PetrifyBoard(DrawShape(g.board, g.shape, g.pose.x, g.pose.y, g.pose.rotation % 4))
  }

  /** A landing: draw the piece where it is, petrify the board, spawn the
      next piece, then clear completed rows and score them. */
  function Lock(g: Game, rnd: nat): (r: Game)
    requires WellFormed(g.board)
    ensures WellFormed(r.board)
    ensures r.shape == g.next && r.next == rnd % MAXSHAPES && r.pose == Pose(SPAWN_X, SPAWN_Y, 0)
    // one point per row the landed piece completed
    ensures r.rows == g.rows + (GAMEHEIGHT - |IncompleteRows(Landed(g), GAMEHEIGHT)|)
    // the completed rows of the landed board are gone, the others sink in
    // order, and the top is refilled with copies of (flashed) row 0
    ensures r.rows >= g.rows && r.board ==
      Repeat(if Complete(Landed(g)[0]) then OldRow() else Landed(g)[0], r.rows - g.rows)
        + IncompleteRows(Landed(g), GAMEHEIGHT)
  {
    var spawned := MakeNewShape(g.(board := Landed(g)), rnd);
    var cleared := HandleCompletedRows(spawned.board);
    spawned.(board := cleared.board, rows := g.rows + cleared.count)
  }

  /** A landing that does not end the game: lock the piece, then commit the
      new one with the fully undone delta, so only gravity moves it. After
      it the preview shape is in play at the spawn pose, pulled down by this
      tick's gravity, and the score grew by the rows the landing completed. */
  function Land(g: Game, yforce: int, rnd: nat): (r: Game)
    requires WellFormed(g.board)
    ensures WellFormed(r.board)
    ensures r.shape == g.next && r.next == rnd % MAXSHAPES
    ensures r.pose.x == SPAWN_X && r.pose.y == SPAWN_Y + yforce && r.pose.rotation == 0
    ensures r.rows == g.rows + (GAMEHEIGHT - |IncompleteRows(Landed(g), GAMEHEIGHT)|)
    // the board is the locked board plus the new piece's NEWSHAPE bits
    ensures forall y, x :: OnBoard(x, y) ==>
      && r.board[y][x] & !NEWSHAPE == Lock(g, rnd).board[y][x] & !NEWSHAPE
      && (r.board[y][x] & NEWSHAPE != 0 <==>
            Lock(g, rnd).board[y][x] & NEWSHAPE != 0 || Covers(g.next, SPAWN_X, SPAWN_Y + yforce, 0, x, y))
  {
    var l := Lock(g, rnd);
    SpawnCommit(l, yforce);
    Commit(l, NoMove, yforce)
  }

  /** Committing a freshly spawned piece with no movement draws it at the
      spawn pose moved down by gravity, and touches nothing else. */
  lemma SpawnCommit(l: Game, yforce: int)
    requires WellFormed(l.board) && l.pose == Pose(SPAWN_X, SPAWN_Y, 0)
    ensures var r := Commit(l, NoMove, yforce);
      && r.pose == Pose(SPAWN_X, SPAWN_Y + yforce, 0)
      && forall y, x :: OnBoard(x, y) ==>
        && r.board[y][x] & !NEWSHAPE == l.board[y][x] & !NEWSHAPE
        && (r.board[y][x] & NEWSHAPE != 0 <==>
              l.board[y][x] & NEWSHAPE != 0 || Covers(l.shape, SPAWN_X, SPAWN_Y + yforce, 0, x, y))
  {
    assert Moved(l.pose, NoMove, yforce) == Pose(SPAWN_X, SPAWN_Y + yforce, 0);
  }

  /** A cell is non-empty exactly when its NEWSHAPE bit or one of its other bits is set. */
  lemma NonZeroBits(c: Cell)
    ensures c != NOSHAPE <==> c & NEWSHAPE != 0 || c & !NEWSHAPE != 0
  {
  }

  datatype Outcome = GameOver | Playing(game: Game)

  /** `HandleShape`: resolve the requested move; a landing with the piece
      still touching the top rows ends the game, any other landing locks the
      piece; then the (revised) move is committed. */
  function HandleShape(g: Game, d: Delta, yforce: int, rnd: nat): (o: Outcome)
    requires WellFormed(g.board) && g.pose.rotation + d.rot >= 0
    ensures var r := Resolve(g.board, g.shape, g.pose, d, yforce);
      o == GameOver <==> r.verdict == BottomHit && g.pose.y < 1
    ensures o.Playing? ==> WellFormed(o.game.board) && o.game.rows >= g.rows
  {
    var r := Resolve(g.board, g.shape, g.pose, d, yforce);
    if r.verdict == BottomHit then
      if g.pose.y < 1 then GameOver
      else Playing(Land(g, yforce, rnd))
    else Playing(Commit(g, r.delta, yforce))
  }

  /** Without a landing, `HandleShape` moves the piece by the revised delta
      plus gravity and only adds the piece's NEWSHAPE bits to the board:
      every other bit of every cell, the shapes and the score stay. */
  lemma MoveWithoutLanding(g: Game, d: Delta, yforce: int, rnd: nat)
    requires WellFormed(g.board) && g.pose.rotation + d.rot >= 0
    ensures var r := Resolve(g.board, g.shape, g.pose, d, yforce);
      r.verdict != BottomHit ==>
        && HandleShape(g, d, yforce, rnd) == Playing(Commit(g, r.delta, yforce))
        && Commit(g, r.delta, yforce).pose == Moved(g.pose, r.delta, yforce)
    ensures var o := HandleShape(g, d, yforce, rnd);
      Resolve(g.board, g.shape, g.pose, d, yforce).verdict != BottomHit ==>
        && o.Playing? && o.game.shape == g.shape && o.game.next == g.next && o.game.rows == g.rows
        && forall y, x :: OnBoard(x, y) ==> o.game.board[y][x] & !NEWSHAPE == g.board[y][x] & !NEWSHAPE
  {
  }

  /** A landing that does not end the game brings the preview shape into
      play at the spawn pose, moved down by this tick's gravity only, draws a
      new preview, and scores the rows the landed piece completed. */
  lemma LandingLocks(g: Game, d: Delta, yforce: int, rnd: nat)
    requires WellFormed(g.board) && g.pose.rotation + d.rot >= 0
    ensures var o := HandleShape(g, d, yforce, rnd);
      Resolve(g.board, g.shape, g.pose, d, yforce).verdict == BottomHit && g.pose.y >= 1 ==>
        && o.Playing? && o.game.shape == g.next && o.game.next == rnd % MAXSHAPES
        && o.game.pose == Pose(SPAWN_X, SPAWN_Y + yforce, 0)
        && o.game.rows == g.rows + (GAMEHEIGHT - |IncompleteRows(Landed(g), GAMEHEIGHT)|)
        && forall y, x :: OnBoard(x, y) ==>
          && o.game.board[y][x] & !NEWSHAPE == Lock(g, rnd).board[y][x] & !NEWSHAPE
          && (o.game.board[y][x] & NEWSHAPE != 0 <==>
                Lock(g, rnd).board[y][x] & NEWSHAPE != 0 || Covers(g.next, SPAWN_X, SPAWN_Y + yforce, 0, x, y))
  {
  }
}
