/** Level geometry: the board's constants, the fixed maze, the dot grid, the
    corner power pellets and the ghost spawn slots. The layout is the same on
    every level; only the ghosts' speed depends on the level number. */
module Layout {
  import opened Geometry
  import opened Entities

  const GameWidth: int := 600
  const GameHeight: int := 500
  /** Side of one border wall cell. */
  const WallCell: int := 20
  /** Spacing of the dot grid. */
  const GridSize: int := 40
  const DotSize: real := 5.0
  const DotValue: int := 10
  const PelletSize: real := 15.0
  const PelletValue: int := 50
  /** Inset of the power pellets from the board's edges. */
  const PelletMargin: int := 60
  const GhostSize: real := 25.0
  const GhostCount: int := 4
  const GhostBonus: int := 200
  const SpawnY: real := 200.0
  const PacmanStartX: real := 50.0
  const PacmanStartY: real := 50.0
  const PacmanSize: real := 30.0
  const PacmanSpeed: real := 5.0

  /** A square border cell with its top-left corner at (x, y). */
  function Cell(x: int, y: int): Rect {
    Rect(x as real, y as real, WallCell as real, WallCell as real)
  }

  /** The five interior rectangles of the maze, in push order. */
  const InnerWalls: seq<Rect> := [
    Rect(100.0, 100.0, 100.0, 20.0),
    Rect(300.0, 100.0, 100.0, 20.0),
    Rect(100.0, 200.0, 20.0, 100.0),
    Rect(400.0, 200.0, 20.0, 100.0),
    Rect(200.0, 300.0, 100.0, 20.0)
  ]

  /** The first n columns of the top and bottom border, two cells per column:
      the top cell, then the bottom cell. */
  function TopAndBottom(n: nat): seq<Rect> {
    seq(2 * n, j => Cell(WallCell * (j / 2), if j % 2 == 0 then 0 else GameHeight - WallCell))
  }

  /** The first n rows of the left and right border, two cells per row. */
  function LeftAndRight(n: nat): seq<Rect> {
    seq(2 * n, j => Cell(if j % 2 == 0 then 0 else GameWidth - WallCell, WallCell * (j / 2)))
  }

  /** The whole wall list of a level, in the order it is built. */
  function MazeWalls(): seq<Rect> {
    TopAndBottom(GameWidth / WallCell) + LeftAndRight(GameHeight / WallCell) + InnerWalls
  }

  lemma TopAndBottomGrows(n: nat)
    ensures TopAndBottom(n + 1) == TopAndBottom(n) + [Cell(WallCell * n, 0), Cell(WallCell * n, GameHeight - WallCell)]
  {
    var a, b := TopAndBottom(n + 1), TopAndBottom(n) + [Cell(WallCell * n, 0), Cell(WallCell * n, GameHeight - WallCell)];
    assert |a| == |b|;
    forall j | 0 <= j < |a| ensures a[j] == b[j] {
      if j >= 2 * n {
        assert j / 2 == n;
      }
    }
  }

  lemma LeftAndRightGrows(n: nat)
    ensures LeftAndRight(n + 1) == LeftAndRight(n) + [Cell(0, WallCell * n), Cell(GameWidth - WallCell, WallCell * n)]
  {
    var a, b := LeftAndRight(n + 1), LeftAndRight(n) + [Cell(0, WallCell * n), Cell(GameWidth - WallCell, WallCell * n)];
    assert |a| == |b|;
    forall j | 0 <= j < |a| ensures a[j] == b[j] {
      if j >= 2 * n {
        assert j / 2 == n;
      }
    }
  }

  /** `createWalls`: the border ring, one 20-unit cell at a time, then the
      interior rectangles. */
  method CreateWalls() returns (walls: seq<Rect>)
    ensures walls == MazeWalls()
    ensures |walls| == 2 * (GameWidth / WallCell) + 2 * (GameHeight / WallCell) + |InnerWalls|
  {
    walls := [];
    var x := 0;
    while x < GameWidth
      invariant 0 <= x <= GameWidth && x % WallCell == 0
      invariant walls == TopAndBottom(x / WallCell)
    {
      TopAndBottomGrows(x / WallCell);
      walls := walls + [Cell(x, 0), Cell(x, GameHeight - WallCell)];
      x := x + WallCell;
    }
    var top := walls;
    walls := [];
    var y := 0;
    while y < GameHeight
      invariant 0 <= y <= GameHeight && y % WallCell == 0
      invariant walls == LeftAndRight(y / WallCell)
    {
      LeftAndRightGrows(y / WallCell);
      walls := walls + [Cell(0, y), Cell(GameWidth - WallCell, y)];
      y := y + WallCell;
    }
    walls := top + walls + InnerWalls;
  }

  /** Every wall is a proper rectangle lying on the board, and each of the
      first 110 walls is a 20-unit cell on the board's outer frame. */
  lemma {:induction false} MazeWallsShape()
    ensures |MazeWalls()| == 115
    ensures forall k :: 0 <= k < |MazeWalls()| ==>
      var w := MazeWalls()[k];
      0.0 < w.width && 0.0 < w.height &&
      0.0 <= w.x && w.x + w.width <= GameWidth as real &&
      0.0 <= w.y && w.y + w.height <= GameHeight as real
    ensures forall k :: 0 <= k < 110 ==>
      var w := MazeWalls()[k];
      w.width == 20.0 && w.height == 20.0 &&
      (w.y == 0.0 || w.y == 480.0 || w.x == 0.0 || w.x == 580.0)
  {
    var ws := MazeWalls();
    assert ws[..60] == TopAndBottom(30);
    assert ws[60..110] == LeftAndRight(25);
    assert ws[110..] == InnerWalls;
    forall k | 0 <= k < 110
      ensures var w := ws[k];
        w.width == 20.0 && w.height == 20.0 &&
        (w.y == 0.0 || w.y == 480.0 || w.x == 0.0 || w.x == 580.0) &&
        0.0 <= w.x && w.x + w.width <= GameWidth as real &&
        0.0 <= w.y && w.y + w.height <= GameHeight as real
    {
      if k < 60 {
        assert ws[k] == TopAndBottom(30)[k];
      } else {
        assert ws[k] == LeftAndRight(25)[k - 60];
      }
    }
    forall k | 110 <= k < 115
      ensures var w := ws[k];
        0.0 < w.width && 0.0 < w.height &&
        0.0 <= w.x && w.x + w.width <= GameWidth as real &&
        0.0 <= w.y && w.y + w.height <= GameHeight as real
    {
      assert ws[k] == InnerWalls[k - 110];
    }
  }

  /** No border cell reaches a circle of radius at most 20 whose centre keeps
      40 units away from every edge of the board. */
  lemma {:induction false} ClearOfBorder(x: real, y: real, r: real)
    requires 40.0 <= x <= 560.0 && 40.0 <= y <= 460.0 && 0.0 < r <= 20.0
    ensures forall k :: 0 <= k < 110 ==> !HitsRect(x, y, r, MazeWalls()[k])
  {
    MazeWallsShape();
    forall k | 0 <= k < 110 ensures !HitsRect(x, y, r, MazeWalls()[k]) {
      var w := MazeWalls()[k];
      var cx, cy := Closest(w.x, x, w.width), Closest(w.y, y, w.height);
      if w.y == 0.0 {
        assert cy == 20.0;
      } else if w.y == 480.0 {
        assert cy == 480.0;
      } else if w.x == 0.0 {
        assert cx == 20.0;
      } else {
        assert cx == 580.0;
      }
      FarOnOneAxis(x, y, cx, cy, r);
    }
  }

  /** The circle misses every wall of the maze, given that it misses the five
      interior rectangles and keeps clear of the border. */
  lemma {:induction false} ClearOfMaze(x: real, y: real, r: real)
    requires 40.0 <= x <= 560.0 && 40.0 <= y <= 460.0 && 0.0 < r <= 20.0
    requires forall k :: 0 <= k < |InnerWalls| ==> !HitsRect(x, y, r, InnerWalls[k])
    ensures !CollidesWithWalls(MazeWalls(), x, y, r)
  {
    ClearOfBorder(x, y, r);
    var ws := MazeWalls();
    MazeWallsShape();
    forall k | 110 <= k < |ws| ensures !HitsRect(x, y, r, ws[k]) {
      assert ws[k] == InnerWalls[k - 110];
    }
  }

  function DotAt(x: int, y: int): Item {
    Item(x as real, y as real, DotSize, DotValue)
  }

  /** The dots that `createDots` emits from grid point (x, y) onwards: columns
      left to right, each column top to bottom, skipping every point where a
      dot would touch a wall. */
  function DotsFrom(walls: seq<Rect>, x: int, y: int): seq<Item>
    decreases GameWidth - x, GameHeight - y
  {
    if x >= GameWidth then []
    else if y >= GameHeight then DotsFrom(walls, x + GridSize, GridSize)
    else
      (if CollidesWithWalls(walls, x as real, y as real, DotSize) then [] else [DotAt(x, y)])
      + DotsFrom(walls, x, y + GridSize)
  }

  /** One row of a column: the dot at (x, y), if it is clear, then the rest. */
  lemma DotsFromStep(walls: seq<Rect>, x: int, y: int)
    requires x < GameWidth && y < GameHeight
    ensures DotsFrom(walls, x, y) ==
      (if CollidesWithWalls(walls, x as real, y as real, DotSize) then [] else [DotAt(x, y)])
      + DotsFrom(walls, x, y + GridSize)
  {
  }

  /** The dot field of a level with the given walls. */
  function DotGrid(walls: seq<Rect>): seq<Item> {
    DotsFrom(walls, GridSize, GridSize)
  }

  /** (x, y) is a point of the 40-unit grid strictly inside the board. */
  predicate OnDotGrid(x: real, y: real) {
    x == x.Floor as real && y == y.Floor as real &&
    x.Floor % GridSize == 0 && y.Floor % GridSize == 0 &&
    0 < x.Floor < GameWidth && 0 < y.Floor < GameHeight
  }

  lemma {:induction false} DotsFromSound(walls: seq<Rect>, x: int, y: int, d: Item)
    requires 0 < x && x % GridSize == 0 && 0 < y && y % GridSize == 0
    requires d in DotsFrom(walls, x, y)
    ensures OnDotGrid(d.x, d.y) && d.size == DotSize && d.value == DotValue
    ensures !CollidesWithWalls(walls, d.x, d.y, DotSize)
    decreases GameWidth - x, GameHeight - y
  {
    if x >= GameWidth {
    } else if y >= GameHeight {
      DotsFromSound(walls, x + GridSize, GridSize, d);
    } else if d in DotsFrom(walls, x, y + GridSize) {
      DotsFromSound(walls, x, y + GridSize, d);
    } else {
      assert d == DotAt(x, y);
      assert (x as real).Floor == x && (y as real).Floor == y;
    }
  }

  lemma {:induction false} DotsFromComplete(walls: seq<Rect>, x: int, y: int, px: int, py: int)
    requires 0 < x && x % GridSize == 0 && 0 < y && y % GridSize == 0
    requires px % GridSize == 0 && py % GridSize == 0
    requires px < GameWidth && 0 < py < GameHeight
    requires x < px || (x == px && y <= py)
    requires !CollidesWithWalls(walls, px as real, py as real, DotSize)
    ensures DotAt(px, py) in DotsFrom(walls, x, y)
    decreases GameWidth - x, GameHeight - y
  {
    if y >= GameHeight {
      NextOnGrid(x, px);
      DotsFromComplete(walls, x + GridSize, GridSize, px, py);
    } else if x == px && y == py {
    } else {
      NextOnGrid(y, py);
      DotsFromComplete(walls, x, y + GridSize, px, py);
    }
  }

  /** The next grid line after a grid line a is on the grid, and does not
      pass any later grid line b. */
  lemma NextOnGrid(a: int, b: int)
    requires a % GridSize == 0
    ensures (a + GridSize) % GridSize == 0
    ensures a < b && b % GridSize == 0 ==> a + GridSize <= b
  {
  }

  /** The dot field holds exactly the grid points that are clear of every wall
      at the dot radius, each as a dot of radius 5 worth 10 points. */
  lemma DotGridMembers(walls: seq<Rect>, d: Item)
    ensures d in DotGrid(walls) <==>
      OnDotGrid(d.x, d.y) && d.size == DotSize && d.value == DotValue &&
      !CollidesWithWalls(walls, d.x, d.y, DotSize)
  {
    if d in DotGrid(walls) {
      DotsFromSound(walls, GridSize, GridSize, d);
    }
    if OnDotGrid(d.x, d.y) && d.size == DotSize && d.value == DotValue &&
       !CollidesWithWalls(walls, d.x, d.y, DotSize) {
      assert d == DotAt(d.x.Floor, d.y.Floor);
      DotsFromComplete(walls, GridSize, GridSize, d.x.Floor, d.y.Floor);
    }
  }

  function PelletAt(x: int, y: int): Item {
    Item(x as real, y as real, PelletSize, PelletValue)
  }

  /** The four power pellets, inset by the margin from each corner, in push order. */
  function CornerPellets(): (ps: seq<Item>)
    ensures |ps| == 4
    ensures forall q | q in ps :: q.size == PelletSize && q.value == PelletValue
  {
    [ PelletAt(PelletMargin, PelletMargin),
      PelletAt(GameWidth - PelletMargin, PelletMargin),
      PelletAt(PelletMargin, GameHeight - PelletMargin),
      PelletAt(GameWidth - PelletMargin, GameHeight - PelletMargin) ]
  }

  /** No power pellet overlaps a wall of the maze, although nothing in their
      placement tests for it. */
  lemma CornerPelletsClearOfMaze()
    ensures forall q | q in CornerPellets() :: !CollidesWithWalls(MazeWalls(), q.x, q.y, q.size)
  {
    var ps := CornerPellets();
    forall q | q in ps ensures !CollidesWithWalls(MazeWalls(), q.x, q.y, q.size) {
      ClearOfMaze(q.x, q.y, q.size);
    }
  }

  /** Pac-Man's start position is clear of the maze at its radius. */
  lemma PacmanStartClearOfMaze()
    ensures !CollidesWithWalls(MazeWalls(), PacmanStartX, PacmanStartY, PacmanSize / 2.0)
  {
    ClearOfMaze(PacmanStartX, PacmanStartY, PacmanSize / 2.0);
  }

  /** Horizontal spawn coordinate of ghost slot i. */
  function SpawnX(i: int): real {
    (300 + i * 40) as real
  }

  /** Ghost base speed on a level, before the random jitter. */
  function BaseSpeed(level: int): real {
    2.0 + (level - 1) as real * 0.5
  }
}
