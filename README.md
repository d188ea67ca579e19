# oKtopusSnake tick simulation in Dafny

This project models the game core of oKtopusSnake, a networked multiplayer snake game.

- **The board.** It is a `width` by `height` grid that wraps at the edges.
- **Snakes.** Each player owns at most one snake. A snake is stored as its head cell followed by axis-aligned relative *waypoints*, which walk from the head toward the tail. A straight run is a single waypoint.
- **Food.** Food entries lie on cells. A snake whose head lands on food grows, and while the snake is alive its owner scores.
- **Collisions.** A snake that runs into any snake, itself included, is removed. Some of its cells turn into food, the first snake it ran into earns its owner a point, and the removed snake's owner loses their score.
- **New rounds.** When no snake is left, a new round starts with one snake per player where there is room. The food is then topped up to a target that grows with the number of live snakes.

The model mirrors the source's own shape:

- **Modules.**
  - `Directions`, `Coords` and `Config` are values, as the source's enum and final-field classes are.
  - `Players.PlayerInfo` is a class whose `score` field the methods update in place.
  - `Game.Snake` and `Game.GameState` are classes whose fields and loops follow `GameState.java`.
- **Specification functions.**
  - `Waypoints` holds the geometry of the waypoint walk.
  - `Bodies` holds one snake body as a value.
  - `World` holds the board-level specification of every phase of a tick.
- **How state is tied to specs.** `GameState` keeps ghost maps `vals` (each snake's body as a value) and `scores` (each player's score). `Valid()` ties them to the heap objects and states the invariants:
  - every snake is well formed and has an owner;
  - no score is negative;
  - `snakesAlive == |snakes|`.

  Every method's `ensures` gives its new state through the specification functions. What the source promises is proved about those functions as lemmas.

Randomness (`java.util.Random`) is nondeterministic choice:

- an index into the list being drawn from, or a direction, is picked with `:|`;
- the `nextDouble()` draws of `turnIntoFood` are returned as ghost sequences constrained to `[0, 1)`.

The results are therefore stated for every possible draw.

`GameConfig` is an immutable value. Its full constructor is the datatype constructor, so every argument is stored unchanged and no field can change afterwards.

## Model

| member | source | states |
|---|---|---|
| Directions.Opposite | src/application/enums/Direction.java:13-25 | the opposite heading has the negated step and the negated id, and differs from the original |
| Directions.UnitStep | src/application/enums/Direction.java:13-25 | every constant is a unit step along one axis (abs x + abs y == 1) |
| Directions.StepAndIdDetermineDirection | src/application/enums/Direction.java:13-27 | two directions are equal iff their steps agree, and iff their ids agree (the four ids are distinct) |
| Directions.OppositePairs | src/application/enums/Direction.java:10-25 | UP/DOWN and LEFT/RIGHT are each other's negation with negated ids 1/-1 and 2/-2; y grows downward (UP is (0,-1)); opposite is an involution |
| Directions.ValuesListsEveryDirection | src/application/enums/Direction.java:9-25 | `values()` lists each of the four constants exactly once |
| Coords.DirOfRelative | src/application/gamedata/Coord.java:14-25 | x is inspected first: a non-zero x gives LEFT/RIGHT by its sign whatever y is; otherwise y gives UP/DOWN by its sign; the zero vector, which throws, is excluded |
| Coords.DecodeScaled | src/application/gamedata/Coord.java:14-25 | for every direction d and k > 0, the offset (k*d.x, k*d.y) is a waypoint of magnitude k decoding to d, and (-d.x, -d.y) decodes to the opposite of d |
| Coords.UnitBack | src/application/GameState.java:30 | the tail offset of a new snake and a new neck, -heading, is a unit waypoint pointing the opposite way |
| Coords.WaypointIsScaledHeading | src/application/gamedata/Coord.java:14-25 | decoding is inverse to encoding: every waypoint equals its magnitude times the unit step of its heading |
| Coords.EqualsIsStructural | src/application/gamedata/Coord.java:26-33 | equals holds iff x and y agree, is symmetric, and is false for null |
| Coords.ExtendWaypoint | src/application/GameState.java:62-64 | lengthening a waypoint by its own unit step keeps its heading and adds one to its magnitude |
| Coords.ShortenWaypoint | src/application/GameState.java:70-74 | a unit waypoint shortens to the zero vector (the case cutTail drops), a longer one keeps its heading with magnitude one less |
| Config.MinimalsBelowMaximums | src/application/gamedata/GameConfig.java:21-28 | minimals is at or below maximums on every field, and both lie within the bounds |
| Config.DefaultInBounds | src/application/gamedata/GameConfig.java:21-39 | the default configuration is 100 by 100 with foodStatic 1, iterationDelayMs 1, pingDelayMs 100, nodeTimeoutMs 800, and lies within the bounds |
| Config.InBoundsGridPositive | src/application/gamedata/GameConfig.java:21-28 | every in-bounds configuration has a grid of at least 5 by 5, so the floorMod wrap is defined, and deadFoodProb in [0, 1] |
| Players.PlayerInfo.constructor | src/application/gamedata/PlayerInfo.java:8-23 | stores every identity field and the role unchanged and starts the score at 0 |
| Players.PlayerInfo.GetScore | src/application/gamedata/PlayerInfo.java:25-27 | returns the score and changes nothing |
| Players.PlayerInfo.IncrementScore | src/application/gamedata/PlayerInfo.java:29-31 | raises the score by exactly one, changes only `score`, and keeps it non-negative |
| Players.PlayerInfo.NullifyScore | src/application/gamedata/PlayerInfo.java:33-35 | sets the score to 0 from any value (so a second call changes nothing) and changes only `score` |
| Waypoints.FloorMod | src/application/GameState.java:56 | Math.floorMod with a positive modulus: the result lies in [0, m), is the identity on [0, m), maps -1 to m-1 and m to 0 |
| Waypoints.Step | src/application/GameState.java:92-93 | a wrapped unit step always lands on the grid |
| Waypoints.StepBack | src/application/GameState.java:56 | on the grid, stepping one way and then the opposite way returns to the start cell |
| Waypoints.LengthAppend | src/application/GameState.java:45-76 | the body length (sum of abs x + abs y over the waypoints) of a concatenation is the sum of the lengths |
| Waypoints.Segment | src/application/GameState.java:87-98 | the cells painted for one waypoint of magnitude k number exactly k |
| Waypoints.SegmentEnd | src/application/GameState.java:87-98 | the cursor after k steps is the start for k == 0 and the last painted cell otherwise |
| Waypoints.SegmentSnoc | src/application/GameState.java:91-93 | one more iteration of the painting loop appends exactly one wrapped step to the segment and moves the cursor there |
| Waypoints.Walk | src/application/GameState.java:86-99 | the walk over a body's waypoints visits exactly Length(waypoints) cells |
| Waypoints.WalkAppend | src/application/GameState.java:86-99 | walking a concatenation of waypoint lists is walking the first and then the second from where the first ends |
| Waypoints.WalkSnocPrefix | src/application/GameState.java:86-99 | one more waypoint of the for-each loop appends its segment to the walk so far |
| Waypoints.WalkPrefix | src/application/GameState.java:86-99 | the cells painted before the loop stops form a prefix of the whole walk |
| Waypoints.SegmentInWalk | src/application/GameState.java:94-97 | a cell found while painting one waypoint lies on the whole walk |
| Waypoints.WalkInGrid | src/application/GameState.java:290-291 | every cell of a wrapped walk lies on the grid |
| Waypoints.WalkAfterTurn | src/application/GameState.java:54-56 | after a turn (new unit neck -heading, head stepped forward) the body's walk is the old head followed by the old walk |
| Waypoints.WalkAfterStraight | src/application/GameState.java:50-56 | after going straight (neck lengthened, head stepped forward) the walk is the old head followed by the old walk |
| Waypoints.WalkExtendLast | src/application/GameState.java:62-64 | lengthening the last waypoint appends exactly one wrapped step beyond the old tail |
| Waypoints.WalkCutLast | src/application/GameState.java:70-74 | dropping a unit last waypoint, or shortening a longer one, removes exactly the last cell of the walk |
| Waypoints.WalkThenLast | src/application/GameState.java:86-99 | the walk over the waypoints with one more appended is the old walk followed by the new waypoint's segment |
| Waypoints.SegmentLast | src/application/GameState.java:90-97 | a segment of at least one step is its first k-1 steps followed by one more step in the same direction |
| Waypoints.WalkFront | src/application/GameState.java:86-99 | the walk over the waypoints with one more appended, less its last cell, is the old walk followed by all but the last step of the new segment |
| Waypoints.WalkShortened | src/application/GameState.java:74 | a shortened last waypoint walks all but the final step of the original segment |
| Waypoints.UnwrappedSegment | src/application/GameState.java:206-216 | the unwrapped steps of turnIntoFood for one waypoint number exactly abs(x + y) |
| Waypoints.DeadFoodLeavesGrid | src/application/GameState.java:211-212 | as written: on a 10 by 10 grid a head at (0,5) with waypoint (-1,0) has its tail at (9,5), but turnIntoFood's unwrapped walk puts the cell at (-1,5), off the grid |
| Bodies.Cells | src/application/GameState.java:278-296 | a body's cells are the head followed by its walk: Length + 1 cells, head first |
| Bodies.SpawnedBody | src/application/GameState.java:26-33 | a new snake heading d is well formed and occupies exactly its head and the cell one step behind it |
| Bodies.SteeringRule | src/application/GameState.java:35-43 | steering adopts d iff d is not the neck direction, otherwise keeps the heading; head, waypoints and state are unchanged and the body stays well formed |
| Bodies.MovedBody | src/application/GameState.java:45-58 | after moveHead the head is the floorMod step along the heading, the cells are the new head followed by all old cells, the length grows by exactly one, and the neck points back |
| Bodies.MovedStraight | src/application/GameState.java:50-52 | when the heading is the exact opposite of the neck, the first waypoint is lengthened by one in its own direction |
| Bodies.MovedTurn | src/application/GameState.java:53-55 | otherwise a unit waypoint -heading is inserted after the head |
| Bodies.GrownBody | src/application/GameState.java:60-66 | growTail appends exactly one cell, one step beyond the old tail along the last waypoint, and keeps head, heading and state |
| Bodies.CutBody | src/application/GameState.java:68-76 | with at least two cells behind the head, cutTail removes exactly the last cell and keeps at least one waypoint |
| Bodies.CutWalk | src/application/GameState.java:68-76 | cutTail's new walk is the old walk without its last cell |
| Bodies.CutUnit | src/application/GameState.java:72-73 | a unit last waypoint is dropped entirely |
| Bodies.CutLonger | src/application/GameState.java:74 | a longer last waypoint is shortened by one in its own direction |
| Bodies.GrownTimes | src/application/GameState.java:143-150 | growing once per eaten food entry keeps the number of waypoints and their shape |
| Bodies.GrownTimesBody | src/application/GameState.java:143-150 | growing n times keeps the body well formed, its head, heading and state, adds exactly n to the length, and keeps the old cells as a prefix |
| Bodies.GrownTimesAdd | src/application/GameState.java:143-150 | growing n times and then k more is growing n + k times |
| Bodies.TickedBody | src/application/GameState.java:136-156 | over one tick the head stays on the grid, one wrapped step along the heading, and the length grows by exactly the number of food entries eaten; with none eaten the snake slides forward (new head, then all old cells but the last); with one eaten it keeps every old cell behind the new head |
| Bodies.TickedSlides | src/application/GameState.java:136-156 | a snake that eats nothing is the new head followed by all its old cells but the last |
| Bodies.TickedGrows | src/application/GameState.java:136-156 | a snake that eats one entry is the new head followed by all its old cells |
| Bodies.StumblesIntoCells | src/application/GameState.java:78-103 | against another snake stumblesInto holds iff the head lies on any of its cells; against itself iff the head lies on a cell behind its own head, so the own head never counts |
| World.SortedKeys | src/application/GameState.java:108 | the iteration order of a TreeMap's keys: increasing and listing exactly the key set |
| World.IncreasingUnique | src/application/GameState.java:108 | an increasing list is determined by its elements, so an ordered map has exactly one iteration order |
| World.EatCountIsMultiplicity | src/application/GameState.java:139-153 | the number of times a snake grows at a cell is the multiplicity of that cell in the food list |
| World.DistinctFoodEatenOnce | src/application/GameState.java:139-153 | with no duplicate food entries a snake grows at most once per tick, exactly when its head is on food |
| World.UneatenSpec | src/application/GameState.java:139-153 | removeIf keeps every entry not under a head, with its multiplicity, and drops every entry under one |
| World.SomeHeadOnSpec | src/application/GameState.java:143-151 | the removeIf test's flag is set iff some visited snake has its head on the food |
| World.SomeHeadOnEveryone | src/application/GameState.java:143-151 | after visiting every snake the flag is set iff the food is under some head |
| World.AllMovedSnakes | src/application/GameState.java:136-138 | after the move loop every snake is well formed with at least two cells behind its head, each head one wrapped step along its heading |
| World.AllFedSnakes | src/application/GameState.java:139-153 | feeding keeps every snake well formed, its head and state, and never shortens it |
| World.AllCutSnakes | src/application/GameState.java:154-156 | cutting snakes that have two cells behind the head keeps them well formed, with head and state |
| World.VisitSpec | src/application/GameState.java:136-156 | a per-snake loop has applied its phase to exactly the visited snakes and left the others unchanged |
| World.VisitAll | src/application/GameState.java:136-156 | a loop over every key applies its phase to every snake |
| World.MovedEveryone | src/application/GameState.java:136-138 | the move loop over every key is AllMoved |
| World.FedEveryone | src/application/GameState.java:143-150 | the eating loop over every key is AllFed |
| World.CutEveryone | src/application/GameState.java:154-156 | the cut loop over every key is AllCut |
| World.CutAllKeys | src/application/GameState.java:154-156 | the cut loop over an increasing list of exactly the board's keys visits every snake and yields AllCut |
| World.EarnedSpec | src/application/GameState.java:143-150 | visiting each snake once credits its owner exactly when the snake is alive and its head is on the food |
| World.EarnedEveryone | src/application/GameState.java:143-150 | the removeIf test for one entry, over every snake, awards exactly what ScoresAfterEating counts for it |
| World.TickPhases | src/application/GameState.java:136-156 | the three body loops, each over every snake, compose to one tick of every body (TickedAll) |
| World.TickedPhases | src/application/GameState.java:136-156 | for one snake, moving, growing once per entry under the new head and cutting is Ticked |
| World.FeedSnoc | src/application/GameState.java:139-153 | testing one more food entry continues the bodies, the heads and the scores of feeding on the list so far |
| World.FeedNext | src/application/GameState.java:139-153 | removeIf at entry k: bodies, heads, scores and the surviving list all extend those of the prefix |
| World.TickedAgreesWithMoved | src/application/GameState.java:139-156 | the ticked bodies have the heads and states the eating test saw right after moving |
| World.TickSurvivorsSpec | src/application/GameState.java:157-174 | a snake survives a tick exactly when its ticked body runs into no snake on the ticked board, itself included, and a survivor keeps its ticked body |
| World.FirstHitSpec | src/application/GameState.java:158-166 | the inner collision loop finds a candidate iff the snake runs into one, and the one it credits is hit while no earlier candidate is |
| World.CollisionsVictims | src/application/GameState.java:157-166 | a snake is marked iff it is among those tested and runs into some snake (itself included) |
| World.CollisionsScorer | src/application/GameState.java:158-166 | every mark credits the first snake, in ascending id order, that the victim runs into |
| World.CollisionsDistinct | src/application/GameState.java:160-161 | no snake is marked twice |
| World.HitPairNext | src/application/GameState.java:159-165 | one more candidate: skipped once the snake is marked, otherwise recorded iff it is hit |
| World.MarkedNow | src/application/GameState.java:160 | during the inner loop the `toDelete.contains` test is true iff a pair has been recorded for the snake |
| World.TickCollisions | src/application/GameState.java:157-166 | the collision pass of a tick marks distinct snakes that are all on the board |
| World.TickVictims | src/application/GameState.java:157-166 | the snakes one tick removes are distinct and on the board |
| World.TickScores | src/application/GameState.java:139-174 | a tick keeps every score non-negative; an alive removed snake's owner ends at 0; an alive survivor's owner gains one per food entry eaten and one per credited pair, which for a tick's collisions (CollisionsScorer) is one per victim whose first hit, in ascending key order, is this snake; a zombie's owner is unchanged |
| World.CreditSnoc | src/application/GameState.java:162-163 | crediting one more collision raises only the credited alive owner's score, by one |
| World.RemovalSnoc | src/application/GameState.java:170-171 | removing one more victim resets only its owner, and only when it is alive |
| World.SurvivorsSnoc | src/application/GameState.java:172 | removing one more victim removes exactly that snake |
| World.DeadFood | src/application/GameState.java:202-215 | the dead food is drawn from the dead snake's cells, never more than it has |
| World.DeadFoodSnoc | src/application/GameState.java:213-215 | one more draw below deadFoodProb appends exactly that cell, otherwise nothing |
| World.DeadFoodSpec | src/application/GameState.java:194-220 | dead food lies on the snake's cells; probability 0 leaves none and probability 1 turns every cell into food |
| World.DeadFoodsSnoc | src/application/GameState.java:167-169 | each deleted snake appends its own dead food, in deletion order |
| World.DeadFoodsSpec | src/application/GameState.java:167-169 | all dead food of a tick lies on cells the victims occupied, hence on the grid |
| World.TruncToIntSpec | src/application/GameState.java:254 | Java's `(int)` cast truncates toward zero: the result is within one of the value on the side of zero |
| World.FoodTargetBounds | src/application/GameState.java:254 | the target is foodStatic plus the truncated product: at least foodStatic, within one below foodStatic + snakesAlive*foodPerPlayer, and non-decreasing in the number of snakes |
| World.DefaultFoodTarget | src/application/GameState.java:254 | with the default configuration the target is one food per live snake plus one |
| World.Column | src/application/GameState.java:270-272 | the inner grid loop lists (x, 0) .. (x, h-1) |
| World.GridOrderSpec | src/application/GameState.java:268-273 | the grid loop lists every cell of the grid exactly once |
| World.Without | src/application/GameState.java:274-276 | filtering keeps exactly the entries outside the excluded set, in order |
| World.RemoveFirst | src/application/GameState.java:263 | ArrayList.remove(Object) shortens the list by one when the value is present and is the identity otherwise |
| World.RemoveFirstWithout | src/application/GameState.java:274-276 | on a list without repeats, removing a value is filtering it out, so the order of removals does not matter |
| World.BlockedEnds | src/application/GameState.java:274-297 | before the snake loop only food is removed; after it every occupied cell is too |
| World.BlockedAdd | src/application/GameState.java:278-296 | handling one more snake removes exactly its cells |
| World.OccupiedSingle | src/application/GameState.java:278-296 | one snake's board is occupied exactly on its cells |
| World.FreeCellsSpec | src/application/GameState.java:267-299 | a cell is listed as empty iff it is on the grid, holds no food and no snake, and no cell is listed twice |
| World.TopUpSnoc | src/application/GameState.java:260-264 | one more draw appends a free cell not drawn before, and removing it from the list filters it out |
| World.TopUpSpec | src/application/GameState.java:253-265 | at or above the target nothing is added; otherwise exactly target - current distinct free cells are added, or every free cell when there are fewer |
| World.TopUpNone | src/application/GameState.java:256-257 | at or above the target the food list is unchanged |
| World.DistinctCover | src/application/GameState.java:260-264 | drawing as many distinct cells as the empty list has takes all of it |
| World.SuitableInterior | src/application/GameState.java:234-239 | the unwrapped 5 by 5 test keeps every spawn head at least two cells from each edge, and both cells of a snake spawned there, heading anywhere, are empty |
| World.CandidatesSpec | src/application/GameState.java:231-240 | the candidates are exactly the entries of the empty list passing the 5 by 5 test |
| World.SpawnFree | src/application/GameState.java:240-241 | a snake spawned at a candidate is well formed and lies on empty tiles only |
| World.SpawnStepSpec | src/application/GameState.java:188-190 | one turn of startNewGame's loop adds at most the current player's key, only when a tile qualifies, and keeps every earlier snake |
| World.SpawnPrefixNext | src/application/GameState.java:188-190 | the loop's record of boards extends by one turn |
| World.SpawnPrefixKeys | src/application/GameState.java:188-190 | after the loop only players own snakes, and every snake is freshly spawned |
| World.SpawnPrefixOwners | src/application/GameState.java:188-190 | each player owns a snake after the loop iff some tile qualified at its turn: at most one snake per player, one wherever there is room |
| World.RetryLoopSound | src/application/GameState.java:231-245 | as written: whenever the retry loop stops, the list was empty (false) or the head is a candidate of the corrected spawn |
| World.RetryLoopNeverEnds | src/application/GameState.java:231-245 | as written: on a non-empty list without a suitable entry, no sequence of draws ever ends the loop |
| World.OnlyCentreSuitable | src/application/GameState.java:234-239 | on a 5 by 5 board with (2, 2) taken, no entry passes the test |
| World.FreeCellsOneSpawn | src/application/GameState.java:267-299 | with one fresh snake and no food, the empty list is every other cell of the grid |
| World.OccupiedOneSpawn | src/application/GameState.java:26-33 | a fresh snake occupies exactly its head and the cell behind it |
| World.RetryLoopStuck | src/application/GameState.java:231-245 | as written: on a 5 by 5 board with one snake at (2,2), a second player's spawn never exits whatever it draws, while the corrected spawn finds no candidate |
| World.NoCandidates | src/application/GameState.java:231-245 | a list with no suitable entry offers the corrected spawn nothing |
| Game.Snake.constructor | src/application/GameState.java:26-33 | a new alive snake: the head, one tail offset -d, and heading d |
| Game.Snake.ChangeDirection | src/application/GameState.java:35-43 | the new body value is Steered(old, d), so the heading changes iff d is not the neck direction (SteeringRule) |
| Game.Snake.MoveHead | src/application/GameState.java:45-58 | the new body value is Moved(old), and its length grows by exactly one |
| Game.Snake.GrowTail | src/application/GameState.java:60-66 | the new body value is Grown(old), and its length grows by exactly one |
| Game.Snake.CutTail | src/application/GameState.java:68-76 | the new body value is Cut(old), and its length drops by exactly one |
| Game.Snake.StumblesInto | src/application/GameState.java:78-103 | the result is the stumblesInto predicate: head on head for distinct objects, or head on a cell of the other snake's wrapped walk |
| Game.WalkHits | src/application/GameState.java:82-101 | stumblesInto's waypoint loop finds the head iff it lies on the wrapped walk |
| Game.PaintSegment | src/application/GameState.java:87-98 | one waypoint's painting loop hits iff the target is among its cells, and otherwise ends at the segment end |
| Game.Snake.OccupiedCells | src/application/GameState.java:280-295 | the cells getEmptyTilesList removes for a snake are exactly its Cells, head first |
| Game.Snake.SegmentCells | src/application/GameState.java:285-293 | one waypoint's inner loop produces exactly its wrapped segment and ends at the segment end |
| Game.GameState.MoveOne | src/application/GameState.java:137 | one snake moves its head; no other snake or player changes |
| Game.GameState.MoveStep | src/application/GameState.java:137 | one iteration of the move loop: the bodies go from the state after the first i snakes have moved to the state after i+1 have; the snakes map is unchanged |
| Game.GameState.GrowOne | src/application/GameState.java:145 | one snake grows its tail; no other snake changes |
| Game.GameState.CutOne | src/application/GameState.java:155 | one snake cuts its tail; no other snake changes |
| Game.GameState.CutStep | src/application/GameState.java:155 | one iteration of the cut loop: the bodies go from the state after the first i snakes are cut to the state after i+1 are; the snakes map is unchanged |
| Game.GameState.CreditOne | src/application/GameState.java:147 | one player's score goes up by one; only that player's `score` field may change |
| Game.GameState.NullifyOne | src/application/GameState.java:171 | one player's score drops to zero; only that player's `score` field may change |
| Game.GameState.EatOne | src/application/GameState.java:144-149 | the removeIf test for one snake: it grows iff its head is on the food, and its owner scores iff it is also alive |
| Game.GameState.FeedOne | src/application/GameState.java:145-147 | the snake grows by one cell beyond its tail and its owner gains one point exactly when the snake is alive; no other body or score changes |
| Game.GameState.EatStep | src/application/GameState.java:144-149 | one iteration of the test's snake loop: bodies, scores and the toDelete flag advance from the first j snakes to the first j+1 (Eating) |
| Game.GameState.MoveSnakes | src/application/GameState.java:136-138 | the move loop: the bodies become AllMoved of the old bodies; food, scores and players unchanged |
| Game.GameState.EatAll | src/application/GameState.java:143-151 | the removeIf test's loop over every snake in ascending order |
| Game.GameState.FoodEaten | src/application/GameState.java:141-152 | the test for one entry: it is deleted iff some head is on it; every such snake grows once and its owner scores while it is alive |
| Game.GameState.FeedStep | src/application/GameState.java:141-152 | removeIf at food entry k: the bodies become AllFed, the scores ScoresAfterEating and the kept list Uneaten over the first k+1 entries |
| Game.GameState.FeedSnakes | src/application/GameState.java:139-153 | the removeIf: the bodies become AllFed, the food list keeps exactly the uneaten entries in order, and scores become ScoresAfterEating |
| Game.GameState.CutSnakes | src/application/GameState.java:154-156 | the cut loop: the bodies become AllCut of the old bodies; food, scores and players unchanged |
| Game.GameState.AdvanceBodies | src/application/GameState.java:136-156 | the three body loops make one tick of every body (TickedAll), drop the eaten food and credit the eaters' owners |
| Game.GameState.FindCollisions | src/application/GameState.java:157-166 | the collision loops mark exactly Victims(Collisions(..)), each once in ascending order, and credit each victim's first hit while alive |
| Game.GameState.CollideAll | src/application/GameState.java:158-166 | the outer collision loop reaches the state Colliding describes after every snake |
| Game.GameState.CollideStep | src/application/GameState.java:160-164 | one test of snake i against snake j: the marks and scores become those of Collisions over the first i snakes plus the first hit of snake i among the first j+1 (Trying); bodies unchanged |
| Game.GameState.CollideOne | src/application/GameState.java:159-165 | the inner collision loop for snake i: the marks and scores advance from Collisions over the first i snakes to the first i+1 (Colliding); bodies unchanged |
| Game.GameState.TurnIntoFood | src/application/GameState.java:194-220 | corrected: one draw per cell along the wrapped walk, head first; exactly the cells whose draw is below deadFoodProb are appended; nothing else changes |
| Game.GameState.RemoveSnake | src/application/GameState.java:172-173 | the snake leaves both maps and the counter, keeping snakesAlive == size of snakes |
| Game.GameState.RemoveDead | src/application/GameState.java:167-174 | the deletion loop: survivors are exactly the unmarked snakes, each victim's dead food is appended in marking order, alive victims' owners are reset |
| Game.GameState.RemoveStep | src/application/GameState.java:168-173 | one iteration of the deletion loop: the victim leaves the board, its dead food is appended and its owner reset while alive, so Removing advances from k victims to k+1 |
| Game.GameState.Collide | src/application/GameState.java:157-174 | collision and deletion together: survivors, appended dead food and scores in terms of Collisions of the bodies |
| Game.GameState.Tick | src/application/GameState.java:135-174 | the tick up to the empty-board test: stateId + 1, bodies TickSurvivors, food TickLeftovers, scores ScoresAfterTick, players unchanged |
| Game.GameState.ChangeState | src/application/GameState.java:134-182 | one turn: scores as a tick gives them; with survivors, stateId + 1, the board is the survivors and the food is topped up on the tick's leftovers; with none, stateId is 0 and a new round spawns each player's snake in ascending order where a tile qualifies, the food topped up from empty; the players map never changes; snakesAlive == size of snakes is kept |
| Game.GameState.SetStateId | src/application/GameState.java:135 | sets the tick counter and nothing else |
| Game.GameState.SetFoods | src/application/GameState.java:185 | replaces the food list; nothing else changes |
| Game.GameState.GetEmptyTilesList | src/application/GameState.java:267-299 | the result is the grid in column order without food cells and occupied cells (FreeCells) |
| Game.GridList | src/application/GameState.java:268-273 | the nested grid loop lists the grid column by column |
| Game.RemoveEach | src/application/GameState.java:274-276 | removing each of a list's values in turn filters them all out |
| Game.DropFood | src/application/GameState.java:202-216 | turnIntoFood's draws: one per cell in order, keeping exactly the cells drawn below the chance |
| Game.AscendingKeys | src/application/GameState.java:108 | the TreeMap's iteration order, the sorted key list |
| Game.IsSuitable | src/application/GameState.java:233-239 | the 5 by 5 test of a candidate head against the empty list |
| Game.SuitableCells | src/application/GameState.java:231-240 | the corrected spawn's candidates: every suitable entry of the empty list |
| Game.GameState.AddNewSnake | src/application/GameState.java:228-247 | corrected: true iff some empty tile has a clear 5 by 5 square; then one fresh snake spawned at such a tile, heading anywhere, lies on empty tiles only and is counted; else nothing changes |
| Game.GameState.PlaceSnake | src/application/GameState.java:241-242 | a fresh snake joins the board under the player's id and the counter goes up |
| Game.GameState.constructor | src/application/GameState.java:118-129 | stateId 0, the master the only player, a snake for it iff a tile of the empty board qualifies, and the food topped up to the target |
| Game.GameState.StartNewGame | src/application/GameState.java:184-192 | food cleared, stateId 0, each player in ascending id order gets a snake where a tile qualifies, then the food is topped up from empty; players and scores unchanged |
| Game.GameState.SpawnAll | src/application/GameState.java:188-190 | the spawning loop over the players in ascending id order: the board afterwards is the last of a recorded sequence of single-player spawn steps; players, food, scores and stateId unchanged |
| Game.GameState.SpawnOne | src/application/GameState.java:188-190 | one turn of startNewGame's loop extends the record of boards by SpawnStep |
| Game.GameState.AddNeededFood | src/application/GameState.java:253-265 | tops up (TopUp) to FoodTarget: unchanged at or above it, otherwise exactly the missing number of distinct empty tiles appended; false iff the empty list runs out, where the source throws |
| Game.DrawFood | src/application/GameState.java:260-264 | addNeededFood's loop: n distinct draws from the shrinking empty list, false iff it runs out first |
| Game.GameState.ChangeSnakeDirection | src/application/GameState.java:222-226 | steers the owner's snake when it has one, and otherwise changes nothing |

## Left out

- Integer width: scores, stateId, snakesAlive and coordinates are unbounded `int`. Java's 32-bit overflow would need more than 2^31 ticks or points, and it is not modelled.
- FoodTarget: foodPerPlayer and deadFoodProb are exact reals, not IEEE doubles. With foodPerPlayer the double nearest 1/3 and three snakes, Java rounds the product to 1.0 and targets one extra food. The model's exact product is just below 1, so it targets none.
- Randomness: `java.util.Random` is nondeterministic choice. Every contract holds for every draw; the distribution is not modelled.
- `Thread.sleep(1000)` in startNewGame and the `synchronized` blocks are dropped. The model is sequential.
- The "pop the head, compute, push the head back" steps are dropped. A body is a head plus a sequence of waypoints.
- Coords.DirOfRelative: the zero vector throws `IllegalStateException` in the source. Here it is a precondition, which every well-formed body meets.
- Game.GameState.ChangeState: the source's `players.get(id)` would throw `NullPointerException` for a snake without a player. `Valid()` rules this out, since every snake's key is a player's key.
- World.DistinctFoodEatenOnce: the "grows by 0 or +1 per tick" promise needs a food list without duplicates. With duplicate entries on one cell the source grows a snake, and credits its owner, once per entry; the model does the same (EatCount).
- Game.GameState.AddNewSnake: requires that the player has no snake yet. Both callers guarantee this: the constructor starts from an empty board, and startNewGame runs on an empty board, visiting each player once.
- Game.GameState.AddNeededFood: where the source calls `nextInt(0)` on an exhausted empty list and throws, the model stops drawing and returns false. The food added so far is kept, as it is in the source before the throw.
- Game.GameState.constructor: it cannot report a failed food draw (the source would throw). It also requires the master's score to be non-negative, which a new PlayerInfo's score of 0 meets.
- Game.GameState.TurnIntoFood: the model collects a snake's dead food and then appends it. The source appends while walking, so the result is the same. The model also walks with the wrap; see Findings.
- Game.GameState.Tick: the raised stateId is stored after the bodies and collisions rather than before. No phase of the tick reads the counter, so the outcome is the same.
- Node roles, networking, serialization, the GUI and the game-loop thread are not part of this model.

## Findings

| source | as written | input that shows it | evidently intended | confidence | as-written member | corrected member |
|---|---|---|---|---|---|---|
| src/application/GameState.java:211-212 | turnIntoFood steps `curX += nextStepX` without floorMod, so dead food of a snake that wraps across an edge is placed off the grid | 10 by 10 grid, a head at (0,5) with waypoint (-1,0): its tail cell is (9,5), but the food goes to (-1,5) | dead food on the snake's own wrapped cells, as every other walk in the file does with floorMod | not executed | Waypoints.DeadFoodLeavesGrid | Game.GameState.TurnIntoFood |
| src/application/GameState.java:231-245 | addNewSnake's retry loop draws from an empty list that never shrinks, so when no entry has a clear 5 by 5 square it never exits | 5 by 5 board, one snake at (2,2) and no food; a second player's spawn (e.g. startNewGame with two players) leaves 23 empty tiles, none suitable | give up and return false when no tile qualifies, as the boolean result suggests | not executed | World.RetryLoopStuck | Game.GameState.AddNewSnake |
