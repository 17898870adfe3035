/** The `PacmanGame` session: a board, Pac-Man, four ghosts, the dots and
    power pellets still on the board, and the session flags. Every tick moves
    Pac-Man, then the ghosts, then resolves collisions and checks for a
    finished level. Random draws, timer callbacks and the payment result come
    in from the caller. */
module Game {
  import opened Geometry
  import opened Entities
  import opened Layout
  import opened Movement
  import opened Collisions

  /** n speed jitters, each a draw of `Math.random() * 0.5`. */
  predicate Jitters(js: seq<real>, n: int) {
    |js| == n && forall i :: 0 <= i < |js| ==> 0.0 <= js[i] < 0.5
  }

  /** The targeting draws of one tick: `Math.random() < 0.05 * (level - 1)`
      always succeeds once that bound reaches 1, from level 21 on. */
  predicate TargetDraws(rolls: seq<bool>, n: int, level: int) {
    |rolls| == n && (level >= 21 ==> forall i :: 0 <= i < |rolls| ==> rolls[i])
  }

  /** The ghost created in slot i. */
  function SpawnGhost(i: int, speed: real, d: Direction): Ghost
    requires 0 <= i < GhostCount
  {
    Ghost(SpawnX(i), SpawnY, GhostSize, speed, d, Palette[i], false)
  }

  /** Freshly created ghosts, each in its slot colour and not vulnerable,
      satisfy the colour invariant. */
  lemma SpawnedConsistent(gs: seq<Ghost>)
    requires |gs| == GhostCount
    requires forall i :: 0 <= i < GhostCount ==> gs[i].color == Palette[i] && !gs[i].vulnerable
    ensures ColorsConsistent(gs)
  {
    ColorsConsistentIff(gs);
  }

  class PacmanGame {
    var pacman: Pacman
    var ghosts: seq<Ghost>
    var dots: seq<Item>
    var powerPellets: seq<Item>
    var walls: seq<Rect>
    var score: int
    var level: int
    var gameStarted: bool
    var gameOver: bool
    var gamePaid: bool
    var keys: Keys

    /** The session invariant: a level number from 1 on, a score that never
        went negative, the payment gate, Pac-Man clear of the walls, every
        remaining dot one of the level's grid dots, every remaining power
        pellet one of the corner pellets, and every ghost's colour matching
        its vulnerability. */
    ghost predicate Valid()
      reads this
    {
      && level >= 1 && score >= 0
      && (gameStarted ==> gamePaid)
      && !(gameStarted && gameOver)
      && pacman.size == PacmanSize && pacman.speed == PacmanSpeed
      && !CollidesWithWalls(walls, pacman.x, pacman.y, pacman.size / 2.0)
      && (forall d | d in dots :: d in DotGrid(walls))
      && (forall q | q in powerPellets :: q in CornerPellets())
      && ColorsConsistent(ghosts)
    }

    /** So every remaining dot is a 10-point dot clear of the walls, and every
        remaining power pellet a 50-point pellet. */
    lemma ItemsOnBoard()
      requires Valid()
      ensures forall d | d in dots ::
        d.value == DotValue && d.size == DotSize && !CollidesWithWalls(walls, d.x, d.y, DotSize)
      ensures forall q | q in powerPellets :: q.value == PelletValue && q.size == PelletSize
    {
      forall d | d in dots
        ensures d.value == DotValue && d.size == DotSize && !CollidesWithWalls(walls, d.x, d.y, DotSize)
      {
        DotGridMembers(walls, d);
      }
    }

    /** The board as a fresh level leaves it, given the initial headings and
        the speed jitters the ghosts were given. */
    ghost predicate FreshLevel(dirs: seq<Direction>, jitter: seq<real>)
      reads this
    {
      && |dirs| == GhostCount && |jitter| == GhostCount
      && walls == MazeWalls() && dots == DotGrid(walls) && powerPellets == CornerPellets()
      && pacman.x == PacmanStartX && pacman.y == PacmanStartY
      && |ghosts| == GhostCount
      && forall i :: 0 <= i < GhostCount ==> ghosts[i] == SpawnGhost(i, BaseSpeed(level) + jitter[i], dirs[i])
    }

    constructor ()
      ensures Valid()
      ensures pacman == Pacman(0.0, 0.0, PacmanSize, PacmanSpeed, Right, true)
      ensures ghosts == [] && dots == [] && powerPellets == [] && walls == []
      ensures score == 0 && level == 1 && !gameStarted && !gameOver && !gamePaid
      ensures keys == Keys(false, false, false, false)
    {
      pacman := Pacman(0.0, 0.0, PacmanSize, PacmanSpeed, Right, true);
      ghosts, dots, powerPellets, walls := [], [], [], [];
      score, level := 0, 1;
      gameStarted, gameOver, gamePaid := false, false, false;
      keys := Keys(false, false, false, false);
    }

    /** The key listeners: pressing or releasing one arrow key. */
    method SetKey(d: Direction, pressed: bool)
      modifies this`keys
      ensures keys == match d
        case Left => old(keys).(left := pressed)
        case Right => old(keys).(right := pressed)
        case Up => old(keys).(up := pressed)
        case Down => old(keys).(down := pressed)
    {
      match d
      case Left => keys := keys.(left := pressed);
      case Right => keys := keys.(right := pressed);
      case Up => keys := keys.(up := pressed);
      case Down => keys := keys.(down := pressed);
    }

    /** A confirmed fee payment opens the gate; nothing in the game closes it again. */
    method ConfirmPayment()
      requires Valid()
      modifies this`gamePaid
      ensures Valid() && gamePaid
    {
      gamePaid := true;
    }

    /** `isCollidingWithWalls`: scans the walls and stops at the first one the
        circle overlaps. */
    method IsCollidingWithWalls(x: real, y: real, radius: real) returns (hit: bool)
      ensures hit == CollidesWithWalls(walls, x, y, radius)
    {
      var i := 0;
      while i < |walls|
        invariant 0 <= i <= |walls|
        invariant forall k :: 0 <= k < i ==> !HitsRect(x, y, radius, walls[k])
      {
        var wall := walls[i];
        var closestX := Max(wall.x, Min(x, wall.x + wall.width));
        var closestY := Max(wall.y, Min(y, wall.y + wall.height));
        if Within(Dist2(x, y, closestX, closestY), radius) {
          return true;
        }
        i := i + 1;
      }
      return false;
    }

    /** `createDots`: walks the 40-unit grid column by column and appends a dot
        at every point clear of the walls. */
    method CreateDots()
      modifies this`dots
      ensures dots == old(dots) + DotGrid(walls)
    {
      var x := GridSize;
      while x < GameWidth
        invariant GridSize <= x
        invariant old(dots) + DotGrid(walls) == dots + DotsFrom(walls, x, GridSize)
      {
        CreateDotColumn(x);
        x := x + GridSize;
      }
      assert DotsFrom(walls, x, GridSize) == [];
    }

    /** The inner loop of `createDots`: one column of the grid, top to bottom. */
    method CreateDotColumn(x: int)
      requires GridSize <= x < GameWidth
      modifies this`dots
      ensures old(dots) + DotsFrom(walls, x, GridSize) == dots + DotsFrom(walls, x + GridSize, GridSize)
    {
      var y := GridSize;
      while y < GameHeight
        invariant GridSize <= y
        invariant old(dots) + DotsFrom(walls, x, GridSize) == dots + DotsFrom(walls, x, y)
      {
        var hit := IsCollidingWithWalls(x as real, y as real, DotSize);
        ghost var rest := DotsFrom(walls, x, y + GridSize);
        DotsFromStep(walls, x, y);
        if !hit {
          assert dots + ([DotAt(x, y)] + rest) == (dots + [DotAt(x, y)]) + rest;
          dots := dots + [DotAt(x, y)];
        } else {
          assert [] + rest == rest;
        }
        y := y + GridSize;
      }
      assert DotsFrom(walls, x, y) == DotsFrom(walls, x + GridSize, GridSize);
    }

    /** `createPowerPellets`: appends the four corner pellets. */
    method CreatePowerPellets()
      modifies this`powerPellets
      ensures powerPellets == old(powerPellets) + CornerPellets()
    {
      powerPellets := powerPellets + [
        PelletAt(PelletMargin, PelletMargin),
        PelletAt(GameWidth - PelletMargin, PelletMargin),
        PelletAt(PelletMargin, GameHeight - PelletMargin),
        PelletAt(GameWidth - PelletMargin, GameHeight - PelletMargin)];
    }

    /** `createGhosts`: appends one ghost per slot, at (300 + 40 i, 200), in the
        slot's colour, not vulnerable, at the level's base speed plus its
        jitter, heading in its randomly drawn direction. */
    method CreateGhosts(jitter: seq<real>, dirs: seq<Direction>)
      requires Jitters(jitter, GhostCount) && |dirs| == GhostCount
      modifies this`ghosts
      ensures |ghosts| == |old(ghosts)| + GhostCount && ghosts[..|old(ghosts)|] == old(ghosts)
      ensures forall i :: 0 <= i < GhostCount ==>
        ghosts[|old(ghosts)| + i] == SpawnGhost(i, BaseSpeed(level) + jitter[i], dirs[i])
    {
      var baseSpeed := 2.0 + (level - 1) as real * 0.5;
      var i := 0;
      while i < GhostCount
        invariant 0 <= i <= GhostCount
        invariant |ghosts| == |old(ghosts)| + i && ghosts[..|old(ghosts)|] == old(ghosts)
        invariant forall k :: 0 <= k < i ==>
          ghosts[|old(ghosts)| + k] == SpawnGhost(k, BaseSpeed(level) + jitter[k], dirs[k])
      {
        ghosts := ghosts + [Ghost(SpawnX(i), SpawnY, GhostSize, baseSpeed + jitter[i], dirs[i], Palette[i], false)];
        i := i + 1;
      }
    }

    /** `adjustDifficulty`: every ghost's speed is redrawn from
        [base, base + 0.5) for the current level; nothing else changes. */
    method AdjustDifficulty(jitter: seq<real>)
      requires Jitters(jitter, |ghosts|)
      modifies this`ghosts
      ensures |ghosts| == |old(ghosts)|
      ensures forall i :: 0 <= i < |ghosts| ==> ghosts[i] == old(ghosts)[i].(speed := BaseSpeed(level) + jitter[i])
      ensures forall i :: 0 <= i < |ghosts| ==> BaseSpeed(level) <= ghosts[i].speed < BaseSpeed(level) + 0.5
    {
      var i := 0;
      while i < |ghosts|
        invariant 0 <= i <= |ghosts| && |ghosts| == |old(ghosts)|
        invariant forall k :: 0 <= k < i ==> ghosts[k] == old(ghosts)[k].(speed := BaseSpeed(level) + jitter[k])
        invariant forall k :: i <= k < |ghosts| ==> ghosts[k] == old(ghosts)[k]
      {
        ghosts := ghosts[i := ghosts[i].(speed := 2.0 + (level - 1) as real * 0.5 + jitter[i])];
        i := i + 1;
      }
    }

    /** `initializeLevel`: empties the collections, builds the maze, puts
        Pac-Man back at (50, 50) and creates the dots, the pellets and the
        ghosts, whose speeds are then adjusted to the level. */
    method InitializeLevel(createJitter: seq<real>, dirs: seq<Direction>, jitter: seq<real>)
      requires Jitters(createJitter, GhostCount) && |dirs| == GhostCount && Jitters(jitter, GhostCount)
      modifies this`pacman, this`ghosts, this`dots, this`powerPellets, this`walls
      ensures FreshLevel(dirs, jitter)
      ensures pacman == old(pacman).(x := PacmanStartX, y := PacmanStartY)
    {
      dots := [];
      powerPellets := [];
      ghosts := [];
      walls := CreateWalls();
      pacman := pacman.(x := PacmanStartX, y := PacmanStartY);
      CreateDots();
      CreatePowerPellets();
      CreateGhosts(createJitter, dirs);
      AdjustDifficulty(jitter);
    }

    /** A freshly laid-out board satisfies the session invariant. */
    lemma FreshLevelIsValid(dirs: seq<Direction>, jitter: seq<real>)
      requires FreshLevel(dirs, jitter)
      requires level >= 1 && score >= 0 && (gameStarted ==> gamePaid) && !(gameStarted && gameOver)
      requires pacman.size == PacmanSize && pacman.speed == PacmanSpeed
      ensures Valid()
    {
      assert !CollidesWithWalls(walls, pacman.x, pacman.y, pacman.size / 2.0) by {
        PacmanStartClearOfMaze();
      }
      assert ColorsConsistent(ghosts) by {
        SpawnedConsistent(ghosts);
      }
    }

    /** `updatePacman`. */
    method UpdatePacman()
      modifies this`pacman
      ensures pacman == PacmanStep(old(pacman), keys, walls)
    {
      var newX, newY := pacman.x, pacman.y;
      var dir := pacman.direction;
      if keys.left {
        newX := newX - pacman.speed;
        dir := Left;
      } else if keys.right {
        newX := newX + pacman.speed;
        dir := Right;
      } else if keys.up {
        newY := newY - pacman.speed;
        dir := Up;
      } else if keys.down {
        newY := newY + pacman.speed;
        dir := Down;
      }
      pacman := pacman.(direction := dir);
      var hit := IsCollidingWithWalls(newX, newY, pacman.size / 2.0);
      if !hit {
        pacman := pacman.(x := newX, y := newY);
      }
      pacman := pacman.(mouthOpen := !pacman.mouthOpen);
    }

    /** One ghost's part of `updateGhosts`, with its bounce direction and its
        targeting draw. */
    method MoveGhost(current: Ghost, bounce: Direction, roll: bool) returns (g: Ghost)
      ensures g == GhostStep(current, walls, pacman.x, pacman.y, level, bounce, roll)
    {
      g := current;
      var newX, newY := g.x, g.y;
      match g.direction {
        case Left => newX := newX - g.speed;
        case Right => newX := newX + g.speed;
        case Up => newY := newY - g.speed;
        case Down => newY := newY + g.speed;
      }
      assert (newX, newY) == Step(current.x, current.y, current.speed, current.direction);
      var hit := IsCollidingWithWalls(newX, newY, g.size / 2.0);
      if hit {
        g := g.(direction := bounce);
      } else {
        g := g.(x := newX, y := newY);
      }
      if level > 2 && roll {
        g := g.(direction := Chase(g.x, g.y, pacman.x, pacman.y, g.direction));
      }
    }

    /** `updateGhosts`: each ghost in turn takes its step, with its own bounce
        direction and targeting draw. Moving changes no ghost's colour or
        vulnerability, so the colour invariant survives. */
    method UpdateGhosts(bounce: seq<Direction>, rolls: seq<bool>)
      requires Valid()
      requires |bounce| == |ghosts| && TargetDraws(rolls, |ghosts|, level)
      modifies this`ghosts
      ensures Valid() && |ghosts| == |old(ghosts)|
      ensures forall i :: 0 <= i < |ghosts| ==>
        ghosts[i] == GhostStep(old(ghosts)[i], walls, pacman.x, pacman.y, level, bounce[i], rolls[i])
    {
      MoveGhosts(bounce, rolls);
      assert ColorsConsistent(ghosts) by {
        assert forall k :: 0 <= k < |ghosts| ==>
          ghosts[k].color == old(ghosts)[k].color && ghosts[k].vulnerable == old(ghosts)[k].vulnerable;
        ColorsConsistentIff(old(ghosts));
        ColorsConsistentIff(ghosts);
      }
    }

    /** The loop over the ghosts that `updateGhosts` runs. */
    method MoveGhosts(bounce: seq<Direction>, rolls: seq<bool>)
      requires |bounce| == |ghosts| && |rolls| == |ghosts|
      modifies this`ghosts
      ensures |ghosts| == |old(ghosts)|
      ensures forall i :: 0 <= i < |ghosts| ==>
        ghosts[i] == GhostStep(old(ghosts)[i], walls, pacman.x, pacman.y, level, bounce[i], rolls[i])
    {
      var i := 0;
      while i < |ghosts|
        invariant 0 <= i <= |ghosts| && |ghosts| == |old(ghosts)|
        invariant forall k :: 0 <= k < i ==>
          ghosts[k] == GhostStep(old(ghosts)[k], walls, pacman.x, pacman.y, level, bounce[k], rolls[k])
        invariant forall k :: i <= k < |ghosts| ==> ghosts[k] == old(ghosts)[k]
      {
        var g := MoveGhost(ghosts[i], bounce[i], rolls[i]);
        ghosts := ghosts[i := g];
        i := i + 1;
      }
    }

    /** The dot loop of `checkCollisions`: from the last dot down to the
        first, a dot within reach is added to the score and spliced out. */
    method CollectDots()
      modifies this`dots, this`score
      ensures dots == Uneaten(pacman, old(dots))
      ensures score == old(score) + EatenValue(pacman, old(dots))
    {
      ghost var all := dots;
      var i := |dots| - 1;
      while i >= 0
        invariant -1 <= i < |all|
        invariant dots == all[..i + 1] + Uneaten(pacman, all[i + 1..])
        invariant score == old(score) + EatenValue(pacman, all[i + 1..])
      {
        RemovalStep(pacman, all, i);
        var dot := dots[i];
        if Reaches(pacman, dot) {
          score := score + dot.value;
          dots := dots[..i] + dots[i + 1..];
        }
        i := i - 1;
      }
      assert all[0..] == all;
    }

    /** The pellet effect on the board: every ghost becomes vulnerable and blue. */
    method FrightenGhosts()
      modifies this`ghosts
      ensures ghosts == Frightened(old(ghosts))
    {
      var j := 0;
      while j < |ghosts|
        invariant 0 <= j <= |ghosts| && |ghosts| == |old(ghosts)|
        invariant forall k :: 0 <= k < j ==> ghosts[k] == old(ghosts)[k].(vulnerable := true, color := Blue)
        invariant forall k :: j <= k < |ghosts| ==> ghosts[k] == old(ghosts)[k]
      {
        ghosts := ghosts[j := ghosts[j].(vulnerable := true, color := Blue)];
        j := j + 1;
      }
    }

    /** The power-pellet loop of `checkCollisions`: like the dot loop, and
        every pellet eaten also makes every ghost vulnerable and blue and
        schedules one reversion; `eaten` counts those reversions. */
    method CollectPowerPellets() returns (eaten: nat)
      modifies this`powerPellets, this`score, this`ghosts
      ensures powerPellets == Uneaten(pacman, old(powerPellets))
      ensures score == old(score) + EatenValue(pacman, old(powerPellets))
      ensures eaten == |old(powerPellets)| - |powerPellets|
      ensures ghosts == if eaten > 0 then Frightened(old(ghosts)) else old(ghosts)
    {
      ghost var all := powerPellets;
      eaten := 0;
      FrightenedConsistent(old(ghosts));
      var i := |powerPellets| - 1;
      while i >= 0
        invariant -1 <= i < |all|
        invariant powerPellets == all[..i + 1] + Uneaten(pacman, all[i + 1..])
        invariant score == old(score) + EatenValue(pacman, all[i + 1..])
        invariant eaten == |all[i + 1..]| - |Uneaten(pacman, all[i + 1..])|
        invariant ghosts == if eaten > 0 then Frightened(old(ghosts)) else old(ghosts)
      {
        RemovalStep(pacman, all, i);
        var pellet := powerPellets[i];
        if Reaches(pacman, pellet) {
          score := score + pellet.value;
          powerPellets := powerPellets[..i] + powerPellets[i + 1..];
          FrightenGhosts();
          eaten := eaten + 1;
        }
        i := i - 1;
      }
      assert all[0..] == all;
    }

    /** `endGame`, its state part: the session is over and no longer running.
        Submitting the score and re-showing the start button are left out. */
    method EndGame()
      modifies this`gameOver, this`gameStarted
      ensures gameOver && !gameStarted
    {
      gameOver := true;
      gameStarted := false;
    }

    /** The ghost loop of `checkCollisions`: each ghost in turn is resolved
        against Pac-Man, and the loop goes on after a game-ending contact. */
    method ResolveGhostContacts()
      modifies this`ghosts, this`score, this`gameOver, this`gameStarted
      ensures ghosts == Contacted(pacman, old(ghosts))
      ensures score == old(score) + GhostBonus * GhostsEaten(pacman, old(ghosts))
      ensures gameOver == (old(gameOver) || CaughtBy(pacman, old(ghosts)))
      ensures gameStarted == (old(gameStarted) && !CaughtBy(pacman, old(ghosts)))
    {
      ghost var all := ghosts;
      assert ghosts == ContactedUpTo(pacman, all, 0);
      var i := 0;
      while i < |ghosts|
        invariant 0 <= i <= |all| && ghosts == ContactedUpTo(pacman, all, i)
        invariant score == old(score) + GhostBonus * GhostsEaten(pacman, all[..i])
        invariant gameOver == (old(gameOver) || CaughtBy(pacman, all[..i]))
        invariant gameStarted == (old(gameStarted) && !CaughtBy(pacman, all[..i]))
      {
        ContactPrefix(pacman, all, i);
        ResolveContact(i);
        i := i + 1;
      }
      assert all[..|all|] == all;
      assert ghosts == Contacted(pacman, all);
    }

    /** One ghost's contact with Pac-Man: touching it while it is vulnerable
        scores 200 and sends it back to its slot; touching it otherwise ends
        the game. */
    method ResolveContact(i: int)
      requires 0 <= i < |ghosts|
      modifies this`ghosts, this`score, this`gameOver, this`gameStarted
      ensures ghosts == old(ghosts)[i := AfterContact(pacman, old(ghosts)[i], i)]
      ensures var eaten := Catches(pacman, old(ghosts)[i]) && old(ghosts)[i].vulnerable;
        score == old(score) + (if eaten then GhostBonus else 0)
      ensures var caught := Catches(pacman, old(ghosts)[i]) && !old(ghosts)[i].vulnerable;
        gameOver == (old(gameOver) || caught) && gameStarted == (old(gameStarted) && !caught)
    {
      var g := ghosts[i];
      if Catches(pacman, g) {
        if g.vulnerable {
          score := score + GhostBonus;
          g := g.(x := SpawnX(i), y := SpawnY, vulnerable := false);
          g := g.(color := Palette[i % 4]);
          ghosts := ghosts[i := g];
        } else {
          EndGame();
        }
      }
    }

    /** `checkCollisions`: dots, then power pellets, then ghosts. Returns the
        number of reversion timers the pellets scheduled. */
    method CheckCollisions() returns (reversions: nat)
      requires Valid()
      modifies this`dots, this`powerPellets, this`score, this`ghosts, this`gameOver, this`gameStarted
      ensures Valid()
      ensures dots == Uneaten(pacman, old(dots))
      ensures powerPellets == Uneaten(pacman, old(powerPellets))
      ensures reversions == |old(powerPellets)| - |powerPellets|
      ensures score >= old(score)
      ensures var frightened := if reversions > 0 then Frightened(old(ghosts)) else old(ghosts);
        && ghosts == Contacted(pacman, frightened)
        && score == old(score) + EatenValue(pacman, old(dots)) + EatenValue(pacman, old(powerPellets))
                    + GhostBonus * GhostsEaten(pacman, frightened)
        && gameOver == (old(gameOver) || CaughtBy(pacman, frightened))
        && gameStarted == (old(gameStarted) && !CaughtBy(pacman, frightened))
    {
      ghost var dots0, pellets0, ghosts0, score0 := dots, powerPellets, ghosts, score;
      ghost var over0, started0 := gameOver, gameStarted;
      CollectDots();
      reversions := CollectPowerPellets();
      ResolveGhostContacts();
      CollisionsKeepValid(dots0, pellets0, ghosts0, score0, over0, started0, reversions > 0);
    }

    /** The collision pass keeps the session invariant: what remains of the
        dots and pellets was on the board before, the score only grows, the
        colour invariant survives frightening and contact, and a game that
        ends is no longer running. */
    lemma CollisionsKeepValid(dots0: seq<Item>, pellets0: seq<Item>, ghosts0: seq<Ghost>,
                              score0: int, over0: bool, started0: bool, frightened: bool)
      requires level >= 1 && score0 >= 0 && (started0 ==> gamePaid) && !(started0 && over0)
      requires pacman.size == PacmanSize && pacman.speed == PacmanSpeed
      requires !CollidesWithWalls(walls, pacman.x, pacman.y, pacman.size / 2.0)
      requires forall d | d in dots0 :: d in DotGrid(walls)
      requires forall q | q in pellets0 :: q in CornerPellets()
      requires ColorsConsistent(ghosts0)
      requires dots == Uneaten(pacman, dots0) && powerPellets == Uneaten(pacman, pellets0)
      requires var g1 := if frightened then Frightened(ghosts0) else ghosts0;
        && ghosts == Contacted(pacman, g1)
        && score == score0 + EatenValue(pacman, dots0) + EatenValue(pacman, pellets0)
                    + GhostBonus * GhostsEaten(pacman, g1)
        && gameOver == (over0 || CaughtBy(pacman, g1))
        && gameStarted == (started0 && !CaughtBy(pacman, g1))
      ensures Valid() && score >= score0
    {
      ghost var g1 := if frightened then Frightened(ghosts0) else ghosts0;
      assert ColorsConsistent(ghosts) by {
        if frightened {
          FrightenedConsistent(ghosts0);
        }
        ContactedConsistent(pacman, g1);
      }
      assert score >= score0 by {
        forall d | d in dots0 ensures d.value >= 0 {
          DotGridMembers(walls, d);
        }
        assert forall k :: 0 <= k < |dots0| ==> dots0[k] in dots0;
        assert forall k :: 0 <= k < |pellets0| ==> pellets0[k] in pellets0;
        EatenValueNonneg(pacman, dots0);
        EatenValueNonneg(pacman, pellets0);
      }
      forall d | d in dots ensures d in DotGrid(walls) {
        UneatenMembers(pacman, dots0, d);
      }
      forall q | q in powerPellets ensures q in CornerPellets() {
        UneatenMembers(pacman, pellets0, q);
      }
    }

    /** `nextLevel`, its state part: the level number goes up by one. The
        re-initialisation it schedules is `FinishLevelTransition`. */
    method NextLevel()
      requires Valid()
      modifies this`level
      ensures Valid() && level == old(level) + 1
    {
      level := level + 1;
    }

    /** The callback `nextLevel` schedules: the board is rebuilt for the
        current level. */
    method FinishLevelTransition(createJitter: seq<real>, dirs: seq<Direction>, jitter: seq<real>)
      requires Valid()
      requires Jitters(createJitter, GhostCount) && |dirs| == GhostCount && Jitters(jitter, GhostCount)
      modifies this`pacman, this`ghosts, this`dots, this`powerPellets, this`walls
      ensures Valid() && FreshLevel(dirs, jitter)
      ensures pacman == old(pacman).(x := PacmanStartX, y := PacmanStartY)
    {
      InitializeLevel(createJitter, dirs, jitter);
      FreshLevelIsValid(dirs, jitter);
    }

    /** The callback each pellet pickup schedules: every ghost of the current
        board loses its vulnerability and gets its slot colour back, whether
        or not a later pellet was eaten since. */
    method RevertVulnerability()
      requires Valid()
      modifies this`ghosts
      ensures Valid() && ghosts == Reverted(old(ghosts))
    {
      RevertGhosts();
      RevertedConsistent(old(ghosts));
    }

    /** The loop over the ghosts that the reversion callback runs. */
    method RevertGhosts()
      modifies this`ghosts
      ensures ghosts == Reverted(old(ghosts))
    {
      var i := 0;
      while i < |ghosts|
        invariant 0 <= i <= |ghosts| && |ghosts| == |old(ghosts)|
        invariant forall k :: 0 <= k < i ==> ghosts[k] == Reverted(old(ghosts))[k]
        invariant forall k :: i <= k < |ghosts| ==> ghosts[k] == old(ghosts)[k]
      {
        ghosts := ghosts[i := ghosts[i].(vulnerable := false, color := Palette[i % 4])];
        i := i + 1;
      }
    }

    /** The movement half of a tick: Pac-Man, then every ghost. */
    method MoveActors(bounce: seq<Direction>, rolls: seq<bool>)
      requires Valid()
      requires |bounce| == |ghosts| && TargetDraws(rolls, |ghosts|, level)
      modifies this`pacman, this`ghosts
      ensures Valid()
      ensures pacman == PacmanStep(old(pacman), keys, walls)
      ensures ghosts == MovedGhosts(old(ghosts), walls, pacman.x, pacman.y, level, bounce, rolls)
    {
      UpdatePacman();
      assert Valid() by {
        PacmanStaysClear(old(pacman), keys, walls);
      }
      UpdateGhosts(bounce, rolls);
    }

    /** The tick without its level check: the moves, then the collision pass. */
    method MoveAndCollide(bounce: seq<Direction>, rolls: seq<bool>) returns (reversions: nat)
      requires Valid()
      requires |bounce| == |ghosts| && TargetDraws(rolls, |ghosts|, level)
      modifies this`pacman, this`ghosts, this`dots, this`powerPellets, this`score,
               this`gameOver, this`gameStarted
      ensures Valid()
      ensures pacman == PacmanStep(old(pacman), keys, walls)
      ensures dots == Uneaten(pacman, old(dots))
      ensures powerPellets == Uneaten(pacman, old(powerPellets))
      ensures reversions == |old(powerPellets)| - |powerPellets|
      ensures score >= old(score)
      ensures var moved := MovedGhosts(old(ghosts), walls, pacman.x, pacman.y, level, bounce, rolls);
        var frightened := if reversions > 0 then Frightened(moved) else moved;
        && ghosts == Contacted(pacman, frightened)
        && score == old(score) + EatenValue(pacman, old(dots)) + EatenValue(pacman, old(powerPellets))
                    + GhostBonus * GhostsEaten(pacman, frightened)
        && gameOver == (old(gameOver) || CaughtBy(pacman, frightened))
        && gameStarted == (old(gameStarted) && !CaughtBy(pacman, frightened))
    {
      MoveActors(bounce, rolls);
      reversions := CheckCollisions();
    }

    /** `update`: one tick. Pac-Man moves, the ghosts move, collisions are
        resolved, and with no dot and no pellet left the level number goes
        up, on this tick and on every later tick until the board is rebuilt. */
    method Update(bounce: seq<Direction>, rolls: seq<bool>) returns (reversions: nat)
      requires Valid()
      requires |bounce| == |ghosts| && TargetDraws(rolls, |ghosts|, level)
      modifies this`pacman, this`ghosts, this`dots, this`powerPellets, this`score,
               this`level, this`gameOver, this`gameStarted
      ensures Valid()
      ensures pacman == PacmanStep(old(pacman), keys, walls)
      ensures dots == Uneaten(pacman, old(dots))
      ensures powerPellets == Uneaten(pacman, old(powerPellets))
      ensures reversions == |old(powerPellets)| - |powerPellets|
      ensures score >= old(score)
      ensures level == old(level) + (if dots == [] && powerPellets == [] then 1 else 0)
      ensures var moved := MovedGhosts(old(ghosts), walls, pacman.x, pacman.y, old(level), bounce, rolls);
        var frightened := if reversions > 0 then Frightened(moved) else moved;
        && ghosts == Contacted(pacman, frightened)
        && score == old(score) + EatenValue(pacman, old(dots)) + EatenValue(pacman, old(powerPellets))
                    + GhostBonus * GhostsEaten(pacman, frightened)
        && gameOver == (old(gameOver) || CaughtBy(pacman, frightened))
        && gameStarted == (old(gameStarted) && !CaughtBy(pacman, frightened))
    {
      reversions := MoveAndCollide(bounce, rolls);
      if dots == [] && powerPellets == [] {
        NextLevel();
      }
    }

    /** `gameLoop`: a frame runs a tick only while the game is started and not
        over; otherwise it changes nothing. */
    method GameLoop(bounce: seq<Direction>, rolls: seq<bool>) returns (reversions: nat)
      requires Valid()
      requires |bounce| == |ghosts| && TargetDraws(rolls, |ghosts|, level)
      modifies this`pacman, this`ghosts, this`dots, this`powerPellets, this`score,
               this`level, this`gameOver, this`gameStarted
      ensures Valid()
      ensures !old(gameStarted) || old(gameOver) ==> unchanged(this) && reversions == 0
      ensures old(gameStarted) && !old(gameOver) ==>
        && pacman == PacmanStep(old(pacman), keys, walls)
        && dots == Uneaten(pacman, old(dots))
        && powerPellets == Uneaten(pacman, old(powerPellets))
        && reversions == |old(powerPellets)| - |powerPellets|
        && score >= old(score)
        && level == old(level) + (if dots == [] && powerPellets == [] then 1 else 0)
      ensures old(gameStarted) && !old(gameOver) ==>
        var moved := MovedGhosts(old(ghosts), walls, pacman.x, pacman.y, old(level), bounce, rolls);
        var frightened := if reversions > 0 then Frightened(moved) else moved;
        && ghosts == Contacted(pacman, frightened)
        && score == old(score) + EatenValue(pacman, old(dots)) + EatenValue(pacman, old(powerPellets))
                    + GhostBonus * GhostsEaten(pacman, frightened)
        && gameOver == CaughtBy(pacman, frightened)
        && gameStarted == !CaughtBy(pacman, frightened)
    {
      if !gameStarted || gameOver {
        return 0;
      }
      reversions := Update(bounce, rolls);
    }

    /** `startGame`, its state part: without payment nothing changes;
        otherwise the session restarts at level 1 with score 0 on a fresh
        board. */
    method StartGame(createJitter: seq<real>, dirs: seq<Direction>, jitter: seq<real>)
      requires Valid()
      requires Jitters(createJitter, GhostCount) && |dirs| == GhostCount && Jitters(jitter, GhostCount)
      modifies this`pacman, this`ghosts, this`dots, this`powerPellets, this`walls,
               this`score, this`level, this`gameOver, this`gameStarted
      ensures Valid()
      ensures !old(gamePaid) ==> unchanged(this)
      ensures old(gamePaid) ==>
        gameStarted && !gameOver && score == 0 && level == 1 && FreshLevel(dirs, jitter)
      ensures old(gamePaid) ==> pacman == old(pacman).(x := PacmanStartX, y := PacmanStartY)
    {
      if !gamePaid {
        return;
      }
      gameStarted := true;
      gameOver := false;
      score := 0;
      level := 1;
      InitializeLevel(createJitter, dirs, jitter);
      FreshLevelIsValid(dirs, jitter);
    }
  }
}
