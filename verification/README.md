# Pac-Man session model

A Dafny model of the `PacmanGame` simulation in `src/components/game.js`, a
browser Pac-Man game whose players must pay an entry fee before they can start.
The model covers:

- the board: a 600 x 500 field, a fixed maze of 20-unit border cells plus
  five interior walls, a 40-unit grid of 10-point dots that skips every
  point a wall touches, four 50-point power pellets near the corners, and
  four ghosts in fixed spawn slots;
- the session flags: `score`, `level`, `gameStarted`, `gameOver` and
  `gamePaid`;
- the four arrow-key flags;
- one tick of play:
  - Pac-Man steps in the direction of the pressed key unless a wall is in
    the way;
  - each ghost steps along its heading, takes a random new heading when
    blocked and, from level 3, sometimes turns toward Pac-Man;
  - Pac-Man then eats the dots and power pellets within reach;
  - a power pellet makes every ghost vulnerable and blue;
  - touching a vulnerable ghost scores 200 and sends it home;
  - touching any other ghost ends the game;
  - an empty board raises the level.

The project has six modules:

- `Geometry`: the circle-against-rectangle wall test.
- `Entities`: the value types.
- `Layout`: the constants, the maze, the dot grid, the pellets and the
  spawn slots.
- `Movement`: one tick of movement, as functions of the old entity.
- `Collisions`: what one collision pass does, as functions on sequences.
- `Game`: the class `PacmanGame`. It holds the session state in fields and
  updates it with methods that follow the source's loops. Each method is
  proved against the functions of the other modules. The session invariant
  `Valid` is kept by every operation. It requires:
  - the level is at least 1 and the score is not negative;
  - a running game was paid for, and is not over;
  - Pac-Man is clear of the walls;
  - every dot left is a grid dot and every pellet left is a corner pellet;
  - each ghost is blue exactly when it is vulnerable, and otherwise has its
    slot colour.

Distances are compared as squares: `Math.sqrt(d2) < r` is modelled as
`0 < r && d2 < r * r`, which is the same test for every `r`.

Random draws come in as parameters of the operations that use them:

- the ghosts' speed jitters, each in `[0, 0.5)`;
- their initial and bounce headings;
- the targeting draws, which must all succeed from level 21 on, since
  `0.05 * (level - 1)` is then at least 1.

The timer callbacks are explicit methods: `RevertVulnerability` for the
5-second reversion, and `FinishLevelTransition` for the 2-second rebuild
after a level.

Three behaviours of the code worth knowing:

- a confirmed payment is never reset, so after one payment every later
  start is allowed;
- the reversion timer resets every ghost unconditionally, even after a
  later pellet;
- the targeting turn prefers the x axis whenever the x coordinates differ,
  whichever offset is larger.

## Model

| member | source | states |
|---|---|---|
| Geometry.Closest | src/components/game.js:502-503 | The clamped coordinate lies inside the wall's extent, equals the point when the point is inside, and is the nearer edge otherwise |
| Geometry.ClosestIsNearest | src/components/game.js:502-503 | The clamped coordinate is at least as close to the point as any coordinate of the wall's extent |
| Geometry.HitsRectIffSomePointInside | src/components/game.js:502-512 | The per-wall test holds exactly when some point of the rectangle lies strictly within the radius of the centre |
| Game.PacmanGame.IsCollidingWithWalls | src/components/game.js:499-516 | The early-exit scan returns true exactly when some wall's clamped closest point is strictly within the radius |
| Entities.BlueIsNoSlotColor | src/components/game.js:284 | The vulnerable colour `#0000FF` is none of the four slot colours |
| Layout.TopAndBottomGrows | src/components/game.js:236-239 | Each pass of the first border loop appends the top cell and the bottom cell of the next column |
| Layout.LeftAndRightGrows | src/components/game.js:241-244 | Each pass of the second border loop appends the left cell and the right cell of the next row |
| Layout.CreateWalls | src/components/game.js:232-254 | The built list is the maze: 2·30 + 2·25 border cells, then the five interior walls, in push order |
| Layout.MazeWallsShape | src/components/game.js:232-254 | The maze has 115 walls, all proper rectangles on the board; the first 110 are 20 x 20 cells on the outer frame |
| Layout.ClearOfBorder | src/components/game.js:236-244 | A circle of radius at most 20, centred at least 40 from every edge, misses every border cell |
| Layout.ClearOfMaze | src/components/game.js:232-254 | Such a circle that also misses the five interior walls misses the whole maze |
| Layout.DotsFromStep | src/components/game.js:261-267 | One row of the dot column: the dot at the point if it is clear, followed by the rest of the scan |
| Layout.DotsFromSound | src/components/game.js:256-269 | Every generated dot is at a grid point (positive multiples of 40 below 600 and 500), has radius 5 and value 10, and is clear of the walls |
| Layout.DotsFromComplete | src/components/game.js:256-269 | Every clear grid point at or after the scan position gets its dot |
| Layout.DotGridMembers | src/components/game.js:256-269 | A dot is on the board after generation exactly when it is a clear grid point of radius 5 worth 10 |
| Layout.CornerPellets | src/components/game.js:271-281 | There are exactly four pellets, each of radius 15 and value 50 |
| Layout.CornerPelletsClearOfMaze | src/components/game.js:271-281 | No power pellet overlaps a wall, although their placement never tests for it |
| Layout.PacmanStartClearOfMaze | src/components/game.js:216-217 | Pac-Man's start point (50, 50) is clear of the maze at its radius 15 |
| Movement.Pressed | src/components/game.js:351-363 | At most one direction is chosen, with Left over Right over Up over Down, and none when no key is held |
| Movement.StepIsOneAxisMove | src/components/game.js:348-363 | A candidate differs from the position by exactly the speed, on the pressed direction's axis only |
| Movement.PacmanMovesOneClearStep | src/components/game.js:346-373 | Pac-Man either stays or moves exactly one speed-length step to a point clear of the walls; its size and speed are kept and its mouth flips |
| Movement.PacmanBlockedByWall | src/components/game.js:351-369 | The facing follows the pressed key even when the move is refused and is kept with no key; Pac-Man takes the candidate position exactly when it is clear of the walls, and stays in place otherwise |
| Movement.PacmanStaysClear | src/components/game.js:365-369 | A Pac-Man clear of the walls stays clear after its step |
| Movement.Chase | src/components/game.js:406-416 | The targeting turn goes right or left when the x coordinates differ, otherwise down or up, and keeps the heading when the positions coincide |
| Movement.ChaseGetsCloser | src/components/game.js:406-416 | A step short enough along the chosen heading strictly reduces the distance to Pac-Man |
| Movement.GhostMovesOneClearStep | src/components/game.js:376-403 | A ghost moves exactly its speed along its heading to a clear point, or stays put when that point is blocked; size, speed, colour and vulnerability are kept |
| Movement.GhostHeading | src/components/game.js:396-416 | Without a successful targeting draw above level 2, the heading is kept after a move and becomes the drawn bounce after a block; with one, it is the targeting turn from the new position |
| Movement.FourthSpawnInsideWall | src/components/game.js:250 | Ghost slot 3 spawns at (420, 200), inside the interior wall at (400, 200) |
| Movement.FourthGhostStuck | src/components/game.js:376-403 | So that ghost never leaves its slot while its speed is below its radius 12.5, whatever its heading |
| Collisions.UneatenMembers | src/components/game.js:422-435 | An item survives the pass exactly when it was there and is out of Pac-Man's reach |
| Collisions.UneatenAppend | src/components/game.js:422-435 | The pass acts on the parts of a collection separately, so survivors keep their relative order and the eaten values add up |
| Collisions.RemovalStep | src/components/game.js:422-435 | One backward step of the splice loop: splicing out an item within reach, or keeping one out of reach, extends the processed suffix by one |
| Collisions.ValueConserved | src/components/game.js:429-432 | The value eaten plus the value remaining equals the value there was |
| Collisions.EatenValueNonneg | src/components/game.js:429-432 | With non-negative values the score gain is non-negative; with positive values it is positive exactly when something was eaten |
| Collisions.UneatenShorter | src/components/game.js:429-432 | The pass never adds items, and removes one exactly when some item is within reach |
| Collisions.ColorsConsistentIff | src/components/game.js:297-298 | The colour invariant holds exactly when every ghost is blue if vulnerable and has its slot colour otherwise |
| Collisions.VulnerableIffBlue | src/components/game.js:452-455 | Under the colour invariant, a ghost is vulnerable exactly when it is blue |
| Collisions.FrightenedConsistent | src/components/game.js:452-455 | Frightening establishes the colour invariant, is idempotent, makes every ghost vulnerable and moves none |
| Collisions.RevertedConsistent | src/components/game.js:458-465 | Reverting establishes the colour invariant, leaves no ghost vulnerable and moves none |
| Collisions.CaughtByIff | src/components/game.js:470-494 | The slot-by-slot caught test holds exactly when Pac-Man touches some ghost that is not vulnerable |
| Collisions.ContactPrefix | src/components/game.js:470-496 | One forward step of the contact loop resolves ghost i and leaves the later ghosts untouched, and adds that ghost's eaten count and caught test to the prefix's |
| Collisions.ContactedConsistent | src/components/game.js:477-490 | The contact pass keeps the colour invariant, sends each eaten ghost to its slot not vulnerable, and leaves every other ghost untouched |
| Collisions.GhostsEatenBound | src/components/game.js:477-481 | At most every ghost is eaten, and none is when none is vulnerable |
| Game.SpawnedConsistent | src/components/game.js:290-300 | Freshly created ghosts, each in its slot colour and not vulnerable, satisfy the colour invariant |
| Game.PacmanGame.constructor | src/components/game.js:8-45 | A new session has score 0, level 1, no flag set, empty collections, Pac-Man at the origin facing right with its mouth open, and no key held |
| Game.PacmanGame.ItemsOnBoard | src/components/game.js:256-281 | Under the session invariant every remaining dot is a clear 10-point dot and every remaining pellet a 50-point pellet |
| Game.PacmanGame.SetKey | src/components/game.js:96-106 | Pressing or releasing an arrow key sets that key's flag only |
| Game.PacmanGame.ConfirmPayment | src/components/game.js:173 | A confirmed payment opens the start gate and keeps the session invariant |
| Game.PacmanGame.CreateDots | src/components/game.js:256-269 | The column-by-column scan appends exactly the dot grid of the current walls |
| Game.PacmanGame.CreateDotColumn | src/components/game.js:261-267 | The inner scan appends the dots of one column and leaves the rest of the grid to later columns |
| Game.PacmanGame.CreatePowerPellets | src/components/game.js:271-281 | The four corner pellets are appended in push order |
| Game.PacmanGame.CreateGhosts | src/components/game.js:283-301 | Four ghosts are appended; ghost i is at (300 + 40i, 200) in colour i, not vulnerable, at base speed plus its jitter, with its drawn heading |
| Game.PacmanGame.AdjustDifficulty | src/components/game.js:303-311 | Only the speeds change, and each lies in [2 + (level − 1)·0.5, 2 + (level − 1)·0.5 + 0.5) |
| Game.PacmanGame.InitializeLevel | src/components/game.js:206-230 | The board is rebuilt: the maze, the full dot grid, the four pellets, four fresh ghosts at the level's speed, and Pac-Man at (50, 50) with its other fields kept |
| Game.PacmanGame.FreshLevelIsValid | src/components/game.js:206-230 | A freshly built board satisfies the session invariant |
| Game.PacmanGame.UpdatePacman | src/components/game.js:346-373 | Pac-Man takes the step of the pressed key, refused at a wall, with the mouth toggled |
| Game.PacmanGame.MoveGhost | src/components/game.js:376-416 | One ghost takes its step with its bounce heading and targeting draw |
| Game.PacmanGame.MoveGhosts | src/components/game.js:375-418 | Every ghost takes its own step, in place, and their number is kept |
| Game.PacmanGame.UpdateGhosts | src/components/game.js:375-418 | The same, keeping the session invariant, since moving changes no colour or vulnerability |
| Game.PacmanGame.CollectDots | src/components/game.js:422-435 | The reverse splice loop leaves exactly the dots out of reach, in order, and adds exactly the value of those eaten |
| Game.PacmanGame.FrightenGhosts | src/components/game.js:452-455 | Every ghost becomes vulnerable and blue |
| Game.PacmanGame.CollectPowerPellets | src/components/game.js:438-467 | The same for the pellets; one reversion is scheduled per pellet eaten, and the ghosts are frightened exactly when one was eaten |
| Game.PacmanGame.EndGame | src/components/game.js:767-769 | The game is over and no longer running |
| Game.PacmanGame.ResolveContact | src/components/game.js:471-494 | One ghost's contact: a vulnerable ghost within reach scores 200 and is sent home; any other ghost within reach ends the game |
| Game.PacmanGame.ResolveGhostContacts | src/components/game.js:470-496 | The loop resolves every ghost, including those after a game-ending contact; the score grows by 200 per eaten ghost, and the game ends exactly when some non-vulnerable ghost is touched |
| Game.PacmanGame.CheckCollisions | src/components/game.js:420-497 | Dots, then pellets, then ghosts: the combined new state, the score gain, the reversions scheduled, and the session invariant kept |
| Game.PacmanGame.CollisionsKeepValid | src/components/game.js:420-497 | The collision pass keeps the session invariant and never lowers the score |
| Game.PacmanGame.NextLevel | src/components/game.js:754-755 | The level number goes up by exactly one |
| Game.PacmanGame.FinishLevelTransition | src/components/game.js:761-764 | The scheduled rebuild lays out a fresh board for the current level and keeps the session invariant |
| Game.PacmanGame.RevertVulnerability | src/components/game.js:458-465 | Every ghost loses its vulnerability and gets its slot colour back, unconditionally, and the invariant is kept |
| Game.PacmanGame.RevertGhosts | src/components/game.js:459-464 | The loop resets each ghost to not vulnerable in its slot colour |
| Game.PacmanGame.MoveActors | src/components/game.js:330-335 | Pac-Man's step and then every ghost's step toward the moved Pac-Man, keeping the session invariant |
| Game.PacmanGame.MoveAndCollide | src/components/game.js:330-338 | The moves, then the collision pass on the moved ghosts: the new ghosts, the exact score gain, the reversions, and a game that ends exactly when a non-vulnerable moved ghost is touched |
| Game.PacmanGame.Update | src/components/game.js:330-344 | One tick, with the whole new state: Pac-Man's step, the surviving items, the ghosts after moving, frightening and contact, the exact score gain, the game-over flags, and a level that goes up by exactly one whenever the tick ends with no dot and no pellet left |
| Game.PacmanGame.GameLoop | src/components/game.js:313-328 | A frame changes nothing unless the game is started and not over; otherwise it runs one tick with the new state `Update` gives, so touching a non-vulnerable ghost ends the game in that frame and later frames do nothing |
| Game.PacmanGame.StartGame | src/components/game.js:182-204 | Without payment nothing changes; with it, the session restarts running at level 1 with score 0 on a fresh board, Pac-Man at (50, 50) with its facing and mouth kept |

## Left out

- Drawing (`draw`, `drawPacman`, `drawGhost`) is not modelled. It only reads the state.
- The DOM and input plumbing is not modelled: `init`, the touch controls, the score display and the messages. The arrow keys are the four flags that `SetKey` sets.
- `payGameFee` and `submitScore` call a contract asynchronously and are not modelled. Only the success path of the payment is kept, as `ConfirmPayment`.
- The clock is not modelled: `requestAnimationFrame` and the 5000 ms, 2000 ms and 3000 ms timers. Each callback that changes state is a method the caller invokes, so any interleaving of ticks and callbacks can be expressed.
- The 3000 ms callback after a game ends only shows the start button, so it is not modelled.
- `Math.random` is not modelled; its draws are parameters. A targeting draw stands for `Math.random() < 0.05 * (level - 1)`.
- Floating point is not modelled: positions and speeds are exact reals. JavaScript doubles round speeds such as `2 + 0.3`, and their sums drift; the model has no rounding.
- Game.PacmanGame.StartGame: the source also runs the first frame at once. The model ends before it, and the caller runs `GameLoop` next.
- Entities.Pacman: `mouthAngle` and `color` are left out of the record. Only drawing reads them.
- The constructor's DOM, canvas, authentication and contract handles are left out, as are the touch coordinates.
- The width, height, sizes and values held in fields are constants here, because no code changes them.
- `ghosts.indexOf(ghost)` is the loop position. Ghosts are distinct objects owned by the session, so the two agree.
- Game.PacmanGame.UpdateGhosts: the source draws a bounce heading only for a blocked ghost, and a targeting draw only above level 2. The model takes one of each per ghost per tick and ignores the ones the source would not draw.
