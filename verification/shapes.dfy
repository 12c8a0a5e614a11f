/** The constants and arithmetic macros of the game, and the shape catalog. */
module Shapes {

  const GAMEHEIGHT: int := 20
  const GAMEWIDTH: int := 10
  /** Width and height of every shape mask. */
  const SHAPEMAX: int := 4
  const MAXSHAPES: int := 7

  /** The `ABS` macro. */
  function Abs(n: int): nat { if n < 0 then -n else n }

  /** The `ZSGN` macro: the sign of `a` as -1, 0 or 1. */
  function Zsgn(a: int): int { if a < 0 then -1 else if a > 0 then 1 else 0 }

  type ShapeId = s: int | 0 <= s < MAXSHAPES
  type Rotation = r: int | 0 <= r < 4

  /** The C table `Gshapes[shape][row][rotation]`: for each shape and mask row,
      the four-character row in each of the four rotations, left to right;
      '#' marks a block. */
  const Gshapes: seq<seq<seq<string>>> := [
    [ // shape 0
      ["    ", "    ", "    ", "    "],
      [" ## ", " ## ", " ## ", " ## "],
      [" ## ", " ## ", " ## ", " ## "],
      ["    ", "    ", "    ", "    "]
    ],
    [ // shape 1
      ["    ", " #  ", " #  ", " #  "],
      ["### ", " ## ", "### ", "##  "],
      [" #  ", " #  ", "    ", " #  "],
      ["    ", "    ", "    ", "    "]
    ],
    [ // shape 2
      ["    ", " #  ", "    ", " #  "],
      ["####", " #  ", "####", " #  "],
      ["    ", " #  ", "    ", " #  "],
      ["    ", " #  ", "    ", " #  "]
    ],
    [ // shape 3
      ["    ", " #  ", "  # ", "##  "],
      ["### ", " #  ", "### ", " #  "],
      ["#   ", " ## ", "    ", " #  "],
      ["    ", "    ", "    ", "    "]
    ],
    [ // shape 4
      ["    ", " ## ", "#   ", " #  "],
      ["### ", " #  ", "### ", " #  "],
      ["  # ", " #  ", "    ", "##  "],
      ["    ", "    ", "    ", "    "]
    ],
    [ // shape 5
      [" ## ", " #  ", " ## ", " #  "],
      ["##  ", " ## ", "##  ", " ## "],
      ["    ", "  # ", "    ", "  # "],
      ["    ", "    ", "    ", "    "]
    ],
    [ // shape 6
      ["##  ", "  # ", "##  ", "  # "],
      [" ## ", " ## ", " ## ", " ## "],
      ["    ", " #  ", "    ", " #  "],
      ["    ", "    ", "    ", "    "]
    ]
  ]

  /** True when the mask of `shape` in `rotation` has a block at (`row`, `col`). */
  predicate Occupied(shape: ShapeId, row: int, rotation: Rotation, col: int)
    requires 0 <= row < SHAPEMAX && 0 <= col < SHAPEMAX
  {
    && shape < |Gshapes| && row < |Gshapes[shape]| && rotation < |Gshapes[shape][row]|
    && col < |Gshapes[shape][row][rotation]|
    && Gshapes[shape][row][rotation][col] == '#'
  }

  /** In rotation 0 no shape uses the bottom row of its mask. */
  lemma RotationZeroRows(shape: ShapeId, col: int)
    requires 0 <= col < SHAPEMAX
    ensures !Occupied(shape, 3, 0, col)
  {
  }
}
