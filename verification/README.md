# Falling-block engine of a terminal Tetris, in Dafny

This project models the game engine of a small Tetris for character
terminals (`tetris.c`) together with the escape-sequence decoder of its UNIX
`ReadKey` (`tetris.c`, `tetris-sysv.c`, `tetris-bsd.c`). The program keeps its
state in globals. Here that state is an immutable `Engine.Game`: the board
`Gscreen`, the current and preview shapes, the pose `Gx`/`Gy`/`Grotate`, and
the row count `Grows`. Every C routine of the engine becomes a pure function
over that state.

- `shapes.dfy` (`Shapes`): the constants, the `ABS` and `ZSGN` macros, and the
  shape table `Gshapes[shape][row][rotation][col]`, kept as the same strings
  of `#` and spaces.
- `board.dfy` (`Board`): the board of 20 × 10 `char` cells.
  - Each cell holds the bit planes NEWSHAPE, OLDSHAPE and PETRIFIEDSHAPE.
  - `DrawShape` ORs the piece into the board, clipped to it.
  - `PetrifyBoard` is the board half of `PetrifyScreen`.
- `collision.dfy` (`Collision`): `CollisionCheck`.
  - The scan of the 4 × 4 mask is proved equal to a whole-mask
    classification: a bottom or petrified hit outranks an edge hit.
  - The scan also exists as written; see Findings.
- `redraw.dfy` (`Redraw`): `Redraw(CHANGED)`.
  - Modelled as the rewritten board plus the list of `DrawPixel` commands.
  - A model of the terminal shows that the diff brings the display in line
    with the board.
- `rows.dfy` (`Rows`): detecting the completed rows and the shift loop that
  deletes them. Proved: the net effect of deleting all completed rows in
  ascending order.
- `clearing.dfy` (`Clearing`): `HandleCompletedRows` as a whole.
  - The two flash passes, with their effect on the board.
  - The deletion.
  - The count added to `Grows`.
- `engine.dfy` (`Engine`):
  - `MakeNewShape`, `Clear` and `HandleTimer`;
  - the undo-until-it-fits loop of `HandleShape`, written once over any collision test and instantiated with `CollisionCheck` at the moved pose;
  - locking a landed piece;
  - committing the move.
- `input.dfy` (`Input`):
  - `ReadKey` as a step function over its static `esc` state;
  - a round trip from key presses to bytes and back to commands;
  - `HandleButtons` as a fold over the successive `ReadKey` results, with a
    count-based reference definition.
- `play.dfy` (`Play`): one pass of `main`'s loop (`Tick`) and the game
  invariant `Consistent`. Between passes the invariant says:
  - every cell is empty, OLDSHAPE or petrified;
  - the OLDSHAPE cells are exactly the cells under the piece;
  - the piece fits where it stands;
  - the top row never holds a petrified block.

  `Consistent` holds after `Clear` and every pass keeps it.

`rand()` and `time()` become parameters (`rnd`, `now`). `Texit` becomes the
`GameOver` outcome of `HandleShape` and the `Quit` outcome of a pass. Terminal
output becomes lists of `Draw` commands.

Two points where the code differs from a plain reading of the game's design,
and where the model follows the code:

- Deleting a row copies rows down for y from r to 1 and never writes row 0.
  After k rows are deleted, the top k rows are copies of row 0 as it stood,
  not empty rows. Row 0 is always empty at that point, because a piece that
  lands while `Gy < 1` ends the game. `Play.LandedTopEmpty` proves that row 0
  is empty once the landed piece is petrified, and `Play.LockKeeps` carries
  that through the deletion, so the game never sees a difference.
- `Redraw(CHANGED)` is not idempotent. A second diff with nothing redrawn in
  between erases every cell the first one painted, because it is still
  marked OLDSHAPE (`Redraw.SecondRedrawErases`). A third diff paints nothing
  (`Redraw.ThirdRedrawIsSilent`).

## Model

| member | source | states |
|---|---|---|
| Shapes.RotationZeroRows | tetris.c:103-140 | in rotation 0 no shape has a block in the bottom row of its 4 × 4 mask |
| Board.EmptyBoard | tetris.c:302-308 | the cleared board has 20 rows of 10 cells, every one NOSHAPE |
| Board.DrawShape | tetris.c:517-533 | drawing changes only the NEWSHAPE bit; afterwards that bit is set exactly where it was set before or where the mask, anchored at (x, y), covers an on-board cell; off-board blocks are clipped |
| Board.PetrifyBoard | tetris.c:536-543 | after petrifying, every cell is empty or petrified, and a cell is empty exactly when it was empty before |
| Board.PetrifyIdempotent | tetris.c:541-543 | petrifying a petrified board changes nothing |
| Collision.ScanClassifies | tetris.c:493-509 | the scan from mask cell k returns 2 iff some later block is below the floor or on a petrified cell, and 1 iff there is no such block but an edge hit was seen or some later block is beside the board |
| Collision.CollisionCheck | tetris.c:488-510 | the verdict is the whole-mask classification: a bottom or petrified hit anywhere outranks an edge hit, and 0 means no block is below, beside or on a petrified cell |
| Collision.ScanAsWritten | tetris.c:493-509 | the scan as written either finishes with the corrected scan's verdict or reads the board at a row above the top, inside the side walls; with no block above the top it always finishes |
| Collision.CollisionCheckAsWritten | tetris.c:499-504 | when the check as written finishes without reading above the board, its verdict equals the corrected check |
| Collision.SpawnCheckReadsAboveBoard | tetris.c:210-212 | for every shape, the check at the spawn pose (3, -3) and one row down at (3, -2), rotation 0, reads `Gscreen` at a negative row; the game's first piece is always checked at (3, -2) on the first pass, because `lasttime` starts at 0 and that pass has gravity |
| Collision.LandingSpawnCheck | tetris.c:493-504 | a piece spawned by a landing stands at (3, -2); its gravity-only check at (3, -1), rotation 0, reads above the board exactly for shapes 5 and 6, whose mask has a block in its top row |
| Redraw.RedrawCell | tetris.c:257-277 | a cell with only NEWSHAPE is painted on and one with only OLDSHAPE painted off, and nothing else is painted; afterwards NEWSHAPE is clear, OLDSHAPE is set iff NEWSHAPE was, and the higher bits survive |
| Redraw.RedrawChanged | tetris.c:255-279 | the rewritten board is the cell transition applied to every cell |
| Redraw.RedrawPaintsEachCell | tetris.c:255-279 | replaying the emitted commands changes each terminal cell exactly as that cell's own transition says |
| Redraw.RedrawPaintsOnce | tetris.c:255-279 | the diff's commands fall on the board in strictly increasing row-major order, so no cell gets two commands; each command is the paint the cell's own transition asks for |
| Redraw.CommandsFromEmit | tetris.c:255-279 | the scan's commands from any cell on are those of the sequence of per-cell paints |
| Redraw.EmitAt | tetris.c:255-279 | every emitted command lies on a board column at a scan position from its start cell on, and paints what that position's paint asks for |
| Redraw.EmitAdjacent | tetris.c:255-279 | each emitted command comes before the next one in row-major order |
| Redraw.RedrawBringsDisplayInSync | tetris.c:255-279 | if the terminal shows last frame's board, then after the diff it shows exactly the drawn piece plus the petrified blocks, and the rewritten board holds only empty, OLDSHAPE and petrified cells matching the display |
| Redraw.SecondRedrawErases | tetris.c:260-271 | on every board and terminal, every cell the first diff paints on (a cell holding only NEWSHAPE) is painted off by a second diff made with nothing redrawn in between, so the terminal no longer shows it |
| Redraw.SecondRedrawErasesExample | tetris.c:260-271 | a one-cell instance of the same: a piece block painted by the first diff is erased by the second |
| Redraw.ThirdRedrawIsSilent | tetris.c:255-279 | three diffs in a row: the third emits no commands |
| Rows.FilledRun | tetris.c:552-555 | the inner scan counts at most the cells from x on, and counts all of them iff none of them is empty |
| Rows.TotalZeroIffComplete | tetris.c:552-556 | `total` reaches 0 exactly when the row has no empty cell |
| Rows.CompletedRows | tetris.c:551-557 | the collected rows are exactly the complete rows, in strictly ascending order |
| Rows.ShiftRows | tetris.c:573-576 | deleting the listed rows one after another keeps the board's height and never writes row 0 |
| Rows.ShiftDown | tetris.c:574-576 | deleting row y removes it, moves every row above it down one, keeps row 0, and leaves the rows below alone |
| Rows.ShiftDownLoop | tetris.c:574-576 | the copy loop, run from row y up to row 1, deletes row y exactly as `ShiftDown` describes |
| Rows.ShiftRowsWidth | tetris.c:573-576 | deleting rows keeps every row as wide as the board's rows |
| Rows.ShiftRowsRemovesListed | tetris.c:573-576 | deleting an ascending list of rows one after another leaves as many copies of row 0 on top, followed by the unlisted rows in their order |
| Clearing.Flash | tetris.c:563-570 | after both flash passes every cell of a listed row is OLDSHAPE, whatever it held; every other cell is its own cell after two diffs |
| Clearing.FillRows | tetris.c:565-567 | every cell of a listed row gets the flash value; the other rows are unchanged |
| Clearing.FlashSettled | tetris.c:563-570 | on a petrified board the two flash passes leave every listed row all OLDSHAPE and every other row as it was |
| Clearing.FlashedShift | tetris.c:563-576 | after the flash, row 0 is all OLDSHAPE when it was complete and unchanged otherwise, and the unlisted rows are exactly the board's incomplete rows |
| Clearing.FlashAndDelete | tetris.c:559-577 | flashing and deleting the completed rows of a petrified board yields copies of (flashed) row 0 followed by the incomplete rows in order |
| Clearing.HandleCompletedRows | tetris.c:548-580 | the count is the number of complete rows; with none the board is untouched; on a petrified board the complete rows are gone, the others sink in order, and the top is refilled with copies of row 0 |
| Engine.MakeNewShape | tetris.c:208-217 | the preview shape becomes current at the centred pose in row -3 and rotation 0; the new preview is `rand() % 7`; the board and the row count are untouched |
| Engine.Clear | tetris.c:287-312 | a new game has an empty board, no rows, the piece at the spawn pose, and both shapes drawn from `rand()` |
| Engine.HandleTimer | tetris.c:440-446 | gravity is 1 exactly when the clock's second differs from the last one seen, else 0, and the last time becomes now |
| Engine.TimerOncePerSecond | tetris.c:444-445 | a second call within the same second gives no gravity |
| Engine.Undo | tetris.c:595-606 | one undo step moves exactly one unit toward zero in the first non-zero of rotation, x and y, in that order, and never changes sign |
| Engine.Undone | tetris.c:591-606 | after n undo steps the total movement left is n less, and each component is between 0 and its requested value |
| Engine.UndoneInOrder | tetris.c:597-606 | x is only undone once the rotation is used up, and y only once both are |
| Engine.ResolveWith | tetris.c:591-606 | for any collision test, the loop ends after some number of undo steps at the delta whose test it reports, and keeps a colliding delta only once all movement is undone |
| Engine.FirstFitWith | tetris.c:591-606 | for any collision test, every undo stage before the one the loop ends at collided |
| Engine.Resolve | tetris.c:591-618 | the loop ends after some number of undo steps, at a delta that fits or with all movement undone; its verdict is the check of that delta; gravity is never undone; the loop terminates because the total movement drops |
| Engine.ResolveFirstFit | tetris.c:591-606 | the loop stops at the first undo stage that fits: every stage before the one it ends at collided |
| Engine.ResolveKeepsFit | tetris.c:592-594 | a requested move that fits is made in full |
| Engine.Commit | tetris.c:620-624 | the pose moves by the revised delta plus gravity; shapes and score are unchanged |
| Engine.Landed | tetris.c:612-613 | drawing the piece where it stands and petrifying leaves only empty and petrified cells, petrified exactly where the board held anything or the piece covers the cell |
| Engine.Lock | tetris.c:608-615 | after a landing the preview shape is current at the spawn pose, a new preview is drawn, and the score grows by the number of rows the landed piece completed; the board is the landed board with its complete rows deleted, the incomplete ones sunk in order and the top refilled with that many copies of (flashed) row 0 |
| Engine.Land | tetris.c:608-624 | a landing that goes on commits the new piece with all movement undone, so it stands at the spawn pose moved down by this tick's gravity; every cell equals the locked board's outside the NEWSHAPE plane, and NEWSHAPE is added exactly where the new piece covers a cell |
| Engine.SpawnCommit | tetris.c:619-624 | committing a freshly spawned piece with no movement puts it at the spawn pose moved down by gravity and only adds its NEWSHAPE bits |
| Engine.HandleShape | tetris.c:587-625 | the game ends exactly when the loop ends in a bottom hit with the piece above row 1; otherwise the board stays well formed and the score does not drop |
| Engine.MoveWithoutLanding | tetris.c:619-624 | without a bottom hit the piece is moved by the revised delta, only the NEWSHAPE plane changes, and the shapes and score stay |
| Engine.LandingLocks | tetris.c:602-615 | a bottom hit with the piece at row 1 or below goes on with the preview shape at the spawn pose moved down by this tick's gravity, a new preview `rnd % 7`, the score raised by the number of complete rows of the landed board, and a board that equals the locked board (complete rows deleted) except for the new piece's NEWSHAPE bits |
| Input.ReadKey | tetris-sysv.c:42-85 | no byte gives no command and keeps the state; commands come only at rest; ESC at rest and '[' after ESC advance the sequence; the byte after ESC '[' ends it as an arrow key; any other byte after ESC, and any byte other than ESC at rest, is read as a plain key |
| Input.OrdinaryKey | tetris-sysv.c:73-84 | a byte that decodes to a command is that command's key |
| Input.ArrowKey | tetris-sysv.c:62-67 | the last byte of an arrow sequence decodes only to ROTATE, DOWN, RIGHT or LEFT, and only from that key's byte |
| Input.OrdinaryKeyInverse | tetris-bsd.c:91-101 | every command has exactly one plain key and every other byte decodes to no command |
| Input.KeystrokeDecodes | tetris-bsd.c:70-88 | one key press, plain or arrow, decodes from rest to its one command and returns to rest |
| Input.DecodeEncode | tetris.c:397-431 | decoding from rest the bytes of any sequence of key presses yields exactly their commands, in order, and ends at rest |
| Input.AfterPause | tetris.c:470 | the pause wait skips the empty reads and swallows exactly the first command after them; a stream of empty reads only is used up |
| Input.Step | tetris.c:464-473 | LEFT, RIGHT, DOWN and ROTATE each add one event and move one unit (x either way, y and rotation only up); no other key moves anything; TEST flips the test flag and REDRAW asks for a full repaint |
| Input.HandleButtons | tetris.c:459-476 | y and rotation deltas never decrease, and every unit of movement is counted as an event |
| Input.Pending | tetris.c:463 | the results the loop acts on contain no empty read |
| Input.ButtonsQuit | tetris.c:463-469 | without a pause pending, the game quits iff a QUIT comes before the first empty read |
| Input.ButtonsCountKeys | tetris.c:463-475 | without a pause or quit pending, the accumulated deltas are the counts of the keys: right minus left, down, rotate; those four are the events; TEST toggles once per press |
| Play.NoHitIffFits | tetris.c:488-510 | the check returns 0 exactly when every block is above the floor, between the walls and off the petrified cells |
| Play.CheckSeesPetrified | tetris.c:495-505 | the check depends only on which cells are petrified |
| Play.CellThroughMove | tetris.c:257-277 | a resting cell drawn into and diffed becomes OLDSHAPE under the piece, stays petrified if petrified, and is empty otherwise |
| Play.MoveKeeps | tetris.c:619-624 | committing a move to a pose that fits, then diffing, keeps the game invariant and every petrified cell |
| Play.SpawnFits | tetris.c:210-212 | a spawned piece fits on any board with an open top row, at the spawn row or one below, and reaches at most two rows below its anchor |
| Play.LandedTopEmpty | tetris.c:608-613 | a piece landing at row 1 or below petrifies into a board whose top row is empty |
| Play.ClearedTopEmpty | tetris.c:573-576 | deleting rows from a petrified board with an empty top row keeps it petrified with an empty top row |
| Play.LockKeeps | tetris.c:608-615 | a landing that goes on keeps the game invariant |
| Play.GravityNoEdgeHit | tetris.c:592-600 | gravity alone cannot push a fitting piece into a wall |
| Play.NoEdgeHitInPlay | tetris.c:595-600 | in play the loop never ends in an edge hit |
| Play.LandingNeedsGravity | tetris.c:591-608 | on a tick without gravity the retry loop ends with no hit, so a piece lands only when the timer pulled it down |
| Play.HandleShapeKeeps | tetris.c:587-625 | `HandleShape` followed by `Redraw(CHANGED)` keeps the game invariant |
| Play.MoveBranchKeeps | tetris.c:619-624 | a move the loop resolves without a hit is committed, and the game stays consistent |
| Play.LandBranchKeeps | tetris.c:608-624 | a landing at row 1 or below locks the piece, commits the next one, and the game stays consistent |
| Play.Tick | tetris.c:652-661 | a pass quits exactly when the buttons ask to; a pass that goes on keeps a well-formed board, never lowers the score, and takes the clock's current second; a pass with no movement and no gravity leaves the game alone and emits nothing, and any other pass is HandleShape followed by the diff, over exactly when HandleShape ends the game |
| Play.ClearConsistent | tetris.c:287-312 | a new game satisfies the invariant |
| Play.TickKeeps | tetris.c:652-661 | every pass of the main loop that goes on keeps the invariant |

## Left out

- Terminal output is left out: cursor moves, `DrawPixel`, `Redraw(ALL)` / `Redraw(GSCREEN)`, the preview and the score display (`UpdateScore`, `Glastrows`). Only the commands of the main loop's `Redraw(CHANGED)` are modelled; the commands of the two diffs inside the flash are dropped. All of these only print and leave the engine's state alone.
- Terminal setup and teardown, signals, the start banner and its `fgets`, and `Texit`'s printing are left out. They are I/O. `Texit` is modelled as the `GameOver` or `Quit` outcome.
- `tetris-win32.c` and the IBM PC `ReadKey` are left out. They read the keyboard through the platform's console API.
- `rand()`, `srand()` and `time()` become parameters (`rnd`, `now`), so the model covers every value they could return.
- `usleep` and the busy-waits are not modelled as time: the pause wait (`while (!ReadKey())`, which only reads keys) and the one-second wait after each flash pass. The flash wait calls `HandleTimer`, which moves `lasttime` on; the model does not carry that change out of `HandleCompletedRows`.
- The keyboard drain at the end of `HandleCompletedRows` (tetris.c:583) is left out. It discards the pending commands up to the first empty read, which a lone ESC also gives, leaving `ReadKey` in its escape state. It leaves the engine state alone, and a pass takes `ReadKey`'s results as a parameter, so any decoder state the drain leaves behind is covered.
- The `Gtest` debug dump is left out because it only prints. TEST is modelled as the toggle of a flag.
- Play.Tick: the full repaint (`Redraw(ALL)`) that REDRAW asks for is not modelled. It only prints, so the flag it sets is ignored.
- Input.AfterPause: when the modelled key stream runs out during a pause, the pause ends. The C code waits for ever.
- 32-bit wrap-around: `Gx`, `Gy`, `Grotate` and `Grows` are C `int`s. They are unbounded here, because the score and the rotation counter would need more than 2^31 moves to wrap.

## Findings

| source | as written | input that shows it | evidently intended | confidence | as-written member | corrected member |
|---|---|---|---|---|---|---|
| tetris.c:499-504 | the petrified lookup `Gscreen[y+t][x+r]` is guarded against the sides (and the floor above it) but not against rows above the top (`TOP`) | the first piece of every game, any shape: `lasttime` starts at 0 (tetris.c:435), so the first pass has gravity and checks pose (3, -2), rotation 0; its first mask block lands in row -2 or -1, so the check reads `Gscreen` at a negative row, outside the array. After a landing the new piece stands at (3, -2), and its gravity-only check at (3, -1) reads above the board only for shapes 5 and 6 | skip blocks above the top row, as `DrawShape`'s `CLIP` does: they touch nothing | not executed | Collision.SpawnCheckReadsAboveBoard | Collision.CollisionCheck |
