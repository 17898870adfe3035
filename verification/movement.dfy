/** One simulation tick of movement, as functions of the old entity: the
    player follows the arrow keys and stops at walls; a ghost runs straight,
    takes a random new heading when a wall is in the way and, above level 2,
    sometimes turns toward the player. Random draws come in as arguments. */
module Movement {
  import opened Geometry
  import opened Entities
  import opened Layout

  datatype Option<T> = None | Some(value: T)

  /** The direction the arrow keys ask for. Left wins over right, right over
      up, up over down; no key pressed asks for nothing. */
  function Pressed(k: Keys): (d: Option<Direction>)
    ensures d == Some(Left) <==> k.left
    ensures d == Some(Right) <==> !k.left && k.right
    ensures d == Some(Up) <==> !k.left && !k.right && k.up
    ensures d == Some(Down) <==> !k.left && !k.right && !k.up && k.down
    ensures d == None <==> !k.left && !k.right && !k.up && !k.down
  {
    if k.left then Some(Left)
    else if k.right then Some(Right)
    else if k.up then Some(Up)
    else if k.down then Some(Down)
    else None
  }

  /** The point one step of length s away from (x, y) in direction d
      (screen coordinates: up decreases y). */
  function Step(x: real, y: real, s: real, d: Direction): (real, real) {
    match d
    case Left => (x - s, y)
    case Right => (x + s, y)
    case Up => (x, y - s)
    case Down => (x, y + s)
  }

  /** A step changes one coordinate only, by exactly s, along the axis of d. */
  lemma StepIsOneAxisMove(x: real, y: real, s: real, d: Direction)
    ensures var (nx, ny) := Step(x, y, s, d);
      Dist2(nx, ny, x, y) == Sq(s) &&
      ((d == Left || d == Right) ==> ny == y) &&
      ((d == Up || d == Down) ==> nx == x)
  {
    var (nx, ny) := Step(x, y, s, d);
    assert Sq(0.0) == 0.0;
    SquareNeg(s);
  }

  /** `updatePacman`: the candidate position follows the pressed key, the move
      is kept only when the candidate is clear of every wall at Pac-Man's
      radius, the facing follows the key even when blocked, and the mouth
      toggles. */
  function PacmanStep(p: Pacman, k: Keys, walls: seq<Rect>): Pacman {
    var (nx, ny) := match Pressed(k)
      case None => (p.x, p.y)
      case Some(d) => Step(p.x, p.y, p.speed, d);
    var blocked := CollidesWithWalls(walls, nx, ny, p.size / 2.0);
    p.(x := if blocked then p.x else nx,
       y := if blocked then p.y else ny,
       direction := if Pressed(k).Some? then Pressed(k).value else p.direction,
       mouthOpen := !p.mouthOpen)
  }

  /** Pac-Man either stays where it is or moves by exactly its speed along the
      pressed direction to a point clear of every wall; size and speed never
      change and the mouth flips. */
  lemma PacmanMovesOneClearStep(p: Pacman, k: Keys, walls: seq<Rect>)
    ensures var q := PacmanStep(p, k, walls);
      q.size == p.size && q.speed == p.speed && q.mouthOpen == !p.mouthOpen &&
      ((q.x == p.x && q.y == p.y) ||
       (Pressed(k).Some? && (q.x, q.y) == Step(p.x, p.y, p.speed, Pressed(k).value) &&
        Dist2(q.x, q.y, p.x, p.y) == Sq(p.speed) &&
        !CollidesWithWalls(walls, q.x, q.y, q.size / 2.0)))
  {
    if Pressed(k).Some? {
      StepIsOneAxisMove(p.x, p.y, p.speed, Pressed(k).value);
    }
  }

  /** The facing follows the pressed key, even when the move is refused, and is
      kept when no key is pressed. Pac-Man takes the candidate position exactly
      when it is clear of the walls, and otherwise stays in place. */
  lemma PacmanBlockedByWall(p: Pacman, k: Keys, walls: seq<Rect>)
    ensures var q := PacmanStep(p, k, walls);
      (Pressed(k) == None ==> q.x == p.x && q.y == p.y && q.direction == p.direction) &&
      (Pressed(k).Some? ==> q.direction == Pressed(k).value) &&
      (Pressed(k).Some? ==>
       var (nx, ny) := Step(p.x, p.y, p.speed, Pressed(k).value);
       if CollidesWithWalls(walls, nx, ny, p.size / 2.0) then q.x == p.x && q.y == p.y
       else q.x == nx && q.y == ny)
  {
  }

  /** A Pac-Man clear of the walls is still clear after its step. */
  lemma PacmanStaysClear(p: Pacman, k: Keys, walls: seq<Rect>)
    requires !CollidesWithWalls(walls, p.x, p.y, p.size / 2.0)
    ensures var q := PacmanStep(p, k, walls);
      !CollidesWithWalls(walls, q.x, q.y, q.size / 2.0)
  {
  }

  /** The targeting turn: toward the player along x when the x coordinates
      differ, otherwise along y, otherwise the current heading d is kept. */
  function Chase(gx: real, gy: real, px: real, py: real, d: Direction): (r: Direction)
    ensures gx < px ==> r == Right
    ensures gx > px ==> r == Left
    ensures gx == px && gy < py ==> r == Down
    ensures gx == px && gy > py ==> r == Up
    ensures gx == px && gy == py ==> r == d
  {
    if gx < px then Right
    else if gx > px then Left
    else if gy < py then Down
    else if gy > py then Up
    else d
  }

  /** A step in the chosen direction, no longer than twice the offset on the
      axis it follows, brings the ghost strictly closer to the player. */
  lemma {:induction false} ChaseGetsCloser(gx: real, gy: real, px: real, py: real, s: real, d: Direction)
    requires gx != px || gy != py
    requires 0.0 < s
    requires gx != px ==> s < 2.0 * (if gx < px then px - gx else gx - px)
    requires gx == px ==> s < 2.0 * (if gy < py then py - gy else gy - py)
    ensures var (nx, ny) := Step(gx, gy, s, Chase(gx, gy, px, py, d));
      Dist2(nx, ny, px, py) < Dist2(gx, gy, px, py)
  {
    if gx != px {
      var a := if gx < px then px - gx else gx - px;
      CloserAlongAxis(a, s);
      SquareNeg(a);
      SquareNeg(a - s);
    } else {
      var b := if gy < py then py - gy else gy - py;
      CloserAlongAxis(b, s);
      SquareNeg(b);
      SquareNeg(b - s);
    }
  }

  lemma CloserAlongAxis(a: real, s: real)
    requires 0.0 < s < 2.0 * a
    ensures Sq(a - s) < Sq(a)
  {
    var t := 2.0 * a - s;
    MulPos(s, t);
    assert Sq(a) - Sq(a - s) == s * t;
  }

  /** One ghost's part of `updateGhosts`. The ghost moves along its heading by
      its speed when the candidate is clear of the walls at its radius, and
      otherwise stays and takes the randomly drawn heading `bounce`. Above
      level 2, when the random draw `roll` succeeds, it then turns toward the
      player from its new position. */
  function GhostStep(g: Ghost, walls: seq<Rect>, px: real, py: real, level: int,
                     bounce: Direction, roll: bool): Ghost
  {
    var (nx, ny) := Step(g.x, g.y, g.speed, g.direction);
    var g1 := if CollidesWithWalls(walls, nx, ny, g.size / 2.0) then g.(direction := bounce)
              else g.(x := nx, y := ny);
    if level > 2 && roll then g1.(direction := Chase(g1.x, g1.y, px, py, g1.direction)) else g1
  }

  /** Every ghost's step, each with its own bounce heading and targeting draw. */
  function MovedGhosts(gs: seq<Ghost>, walls: seq<Rect>, px: real, py: real, level: int,
                       bounce: seq<Direction>, rolls: seq<bool>): seq<Ghost>
    requires |bounce| == |gs| && |rolls| == |gs|
  {
    seq(|gs|, i requires 0 <= i < |gs| => GhostStep(gs[i], walls, px, py, level, bounce[i], rolls[i]))
  }

  /** A ghost either moves by exactly its speed along its heading to a point
      clear of the walls, or stays in place because that point is blocked.
      Size, speed, colour and vulnerability never change. */
  lemma GhostMovesOneClearStep(g: Ghost, walls: seq<Rect>, px: real, py: real, level: int,
                               bounce: Direction, roll: bool)
    ensures var h := GhostStep(g, walls, px, py, level, bounce, roll);
      var (nx, ny) := Step(g.x, g.y, g.speed, g.direction);
      h.size == g.size && h.speed == g.speed && h.color == g.color && h.vulnerable == g.vulnerable &&
      (if CollidesWithWalls(walls, nx, ny, g.size / 2.0)
       then h.x == g.x && h.y == g.y
       else h.x == nx && h.y == ny && Dist2(h.x, h.y, g.x, g.y) == Sq(g.speed))
  {
    StepIsOneAxisMove(g.x, g.y, g.speed, g.direction);
  }

  /** Without a successful targeting draw above level 2 the heading is kept
      after a move and replaced by the random draw after a blocked move;
      with one, it is the targeting turn from the ghost's new position. */
  lemma GhostHeading(g: Ghost, walls: seq<Rect>, px: real, py: real, level: int,
                     bounce: Direction, roll: bool)
    ensures var h := GhostStep(g, walls, px, py, level, bounce, roll);
      var (nx, ny) := Step(g.x, g.y, g.speed, g.direction);
      var kept := if CollidesWithWalls(walls, nx, ny, g.size / 2.0) then bounce else g.direction;
      (!(level > 2 && roll) ==> h.direction == kept) &&
      (level > 2 && roll ==> h.direction == Chase(h.x, h.y, px, py, kept))
  {
  }

  /** The ghost in spawn slot 3 starts inside the interior wall at (400, 200). */
  lemma FourthSpawnInsideWall()
    ensures CollidesWithWalls(MazeWalls(), SpawnX(3), SpawnY, GhostSize / 2.0)
  {
    var ws := MazeWalls();
    assert ws[113] == InnerWalls[3];
    assert HitsRect(SpawnX(3), SpawnY, GhostSize / 2.0, ws[113]);
  }

  /** So, while its speed stays below its radius (12.5, that is up to level
      21), that ghost never leaves its spawn slot, whatever its heading. */
  lemma {:induction false} FourthGhostStuck(g: Ghost, px: real, py: real, level: int,
                                            bounce: Direction, roll: bool)
    requires g.x == SpawnX(3) && g.y == SpawnY && g.size == GhostSize
    requires 0.0 < g.speed < GhostSize / 2.0
    ensures var h := GhostStep(g, MazeWalls(), px, py, level, bounce, roll);
      h.x == g.x && h.y == g.y
  {
    var ws := MazeWalls();
    var (nx, ny) := Step(g.x, g.y, g.speed, g.direction);
    var w := ws[113];
    assert w == InnerWalls[3];
    var r := GhostSize / 2.0;
    var cx, cy := Closest(w.x, nx, w.width), Closest(w.y, ny, w.height);
    var s := g.speed;
    SquareStrictMono(s, r);
    assert Sq(0.0) == 0.0;
    match g.direction {
      case Left =>
        assert cx == nx && cy == ny;
      case Right =>
        assert cx == 420.0 && cy == ny;
        assert Dist2(nx, ny, cx, cy) == Sq(s);
      case Up =>
        assert cx == nx && cy == 200.0;
        SquareNeg(s);
        assert Dist2(nx, ny, cx, cy) == Sq(s);
      case Down =>
        assert cx == nx && cy == ny;
    }
    assert HitsRect(nx, ny, r, w);
  }
}
