# Cowch game engine in Dafny

Cowch is a browser snake game with several players. Each player steers a cow: a
linked chain of segments (head, middles, tail) on a grid. The host runs the
authoritative engine, and players join and steer over peer-to-peer connections.
This project models that engine:

- `utils.dfy` (`Utils`) covers `clamp` and `getRandomNumber` (`resources/js/lib/utils.ts`),
  plus `FirstIndex`, the search behind the game's apple and player lookups
  (`find`/`findIndex` over the apples' cells or the players' ids).
- `config.dfy` (`GameConfig`) covers the game constants: 20 rows, 30 columns,
  an apple rate of 10 and a 3-second resume grace period (`resources/js/pages/games/config.ts`).
- `types.dfy` (`Types`) covers the entities of `resources/js/pages/games/types.ts`:
  - positions, apples and the alive/dead player union;
  - the segment chain with the direction stored on each segment;
  - a flattened view of a chain (`Segs`) that states chain properties index by index.
- `cow.dfy` (`Cow`) covers the movement engine of `resources/js/pages/games/cow.ts`:
  - the spawn position and the clamped one-cell shift;
  - the recursive follow-the-leader `move`, proved equal to an indexed reference move;
  - the apple lookup and the second-to-last segment lookup.
- `game.dfy` (`Game`) covers the session reducer of `resources/js/pages/games/game.ts`:
  - every handled action, plus the declared but unhandled `TOGGLE_PAUSE`;
  - the pause/resume countdown as a three-phase machine;
  - the apple-spawn throttle.
- `tick.dfy` (`Tick`) covers `movePlayers` (`game.ts`):
  - move every alive player, then grow the ones whose head is on an apple, then kill the ones that collided;
  - commit the result as the REMOVE_APPLE actions followed by one UPDATE_PLAYERS.
- `snakes.dfy` (`Snakes`) covers the grid prototype `resources/js/pages/games/snakes.tsx`:
  - a fixed 20×20 grid of cells kept in step with the players' chains;
  - a grid-writing `move`, joining, steering and the tick.

Effects are returned as data, not performed:
- The messages the reducer sends are returned in a list (`Transition.sent`).
- The actions `movePlayers` dispatches are returned in `TickResult`.
- `Math.random()` becomes a raw integer draw. `GetRandomNumber` maps the draw
  into the range, and `GetRandomNumberCovers` shows that every value of the
  range is reachable.
- `game.ts` imports the two collision tests (player and wall) from `cow.ts`,
  which does not define them. They are function parameters, so every result
  about them holds for any test.

Some consequences of the code that are easy to get wrong:
- A position shift is clamped to the box (`cow.ts:67-81`), and so is
  `Cow.ShiftPos`.
- The apple-spawn counter is incremented while it is below `appleRate`, so the
  apple is placed on call `appleRate + 1`, the eleventh
  (`Game.SpawnOnRatePlusOneth`).
- After a turn, the next move queues on the middle segment the head's
  direction before the move, which is the new direction, up in
  `Tick.TurnThenMoveScenario`.

Some points in the source are resolved as follows:
- `cow.ts` imports `rows` and `cols`, which `config.ts` does not export. The
  model uses `config.rows` and `config.cols` (20 and 30).
- `cow.ts` keeps the direction on the position (`pos.dir`). `types.ts` and
  `game.ts` keep it on the segment, and the model does the same.
- `game.ts` imports `isAlive` from `cow.ts`, which does not define it. It is
  modelled as the `isAlive` flag.
- `game.ts` uses `state.food` and `state.resumeGracePeriodSeconds`, which the
  `GameState` type of `types.ts` lacks (it has `apples`). Both are fields of `Game.GameState`.
- `playerHasCollidedWithAnyApple` compares `apple.x` and `apple.y`, but the
  apples `game.ts` creates have only `pos`. The model compares `apple.pos`,
  which is what the later REMOVE_APPLE does.
- `shiftPos` clamps `x` to `rows - 1` and `y` to `cols - 1`, so the axes are
  swapped. This is reproduced: on the 20×30 board a cow cannot move right past
  column 19 but can move down onto row 20 (`Cow.ShiftPosSwappedAxes`).
  Spawn columns reach 28, past the clamp, so a cow spawned at column 25 that
  moves right lands on column 19, six cells away, and its whole spawn chain
  collapses onto that one cell (`Cow.SpawnBeyondClampCollapses`).
- REMOVE_APPLE passes the `findIndex` result to `toSpliced`. When no apple is at
  the position, that result is -1 and the last apple is removed. This is
  reproduced in `Game.RemoveAppleAt`. It happens when two players eat the same
  apple in one tick: both grow, and the second removal takes the remaining
  apple (`Tick.SharedAppleEatenTwice`).
- ADD_PLAYER does not check for duplicate ids. The tick looks up each player's
  pre-move copy by id (`Tick.GrowPhase`), so `Tick.MovePlayers` requires unique
  ids. Under that requirement the lookup finds the player itself
  (`Types.FindByIdUnique`).

## Model

| member | source | states |
|---|---|---|
| Utils.Clamp | resources/js/lib/utils.ts:8-10 | Within `[min, max]` when `min <= max`; the value itself when inside; `min` below and `max` above; `min` when the range is empty. |
| Utils.ClampIdempotent | resources/js/lib/utils.ts:8-10 | Clamping a clamped value changes nothing. |
| Utils.GetRandomNumber | resources/js/lib/utils.ts:12-14 | Every draw yields an integer in `[min, max]`. |
| Utils.GetRandomNumberCovers | resources/js/lib/utils.ts:12-14 | Every integer of `[min, max]` is yielded by some draw. |
| Utils.FirstIndex | resources/js/pages/games/game.ts:110 | The index of the first matching entry, with no match before it, or -1 exactly when no entry matches. |
| Types.Length | resources/js/pages/games/types.ts:66-87 | A chain has at least one segment, and exactly one precisely when it starts at a tail. |
| Types.Segs | resources/js/pages/games/types.ts:66-87 | The flattened chain has one entry per segment, starts with the segment itself and ends with the tail. |
| Types.OnlyLastIsTail | resources/js/pages/games/types.ts:66-87 | No segment before the last one of a chain is a tail. |
| Types.SegsCons | resources/js/pages/games/types.ts:66-87 | Helper: the flattened chain of a segment with a successor is that segment followed by its successor's chain. |
| Types.BodyKinds | resources/js/pages/games/types.ts:76-87 | A chain is middles ending in a tail exactly when every entry before its last is a middle. |
| Types.WellFormedIffShaped | resources/js/pages/games/types.ts:66-87 | A linked chain is a head, middles and a tail exactly when its flattened kinds are head first, tail last and middles between. |
| Types.DropSegs | resources/js/pages/games/types.ts:66-87 | Following `nextPiece` k times reaches the chain whose flattening is the suffix from position k. |
| Types.SameKindsKeepWellFormed | resources/js/pages/games/types.ts:66-87 | A chain whose segment kinds match those of a well-formed chain, entry by entry, is well formed. |
| Types.Kill | resources/js/pages/games/types.ts:52-57 | A killed player is dead and keeps its id, name, score and breed. |
| Types.FindById | resources/js/pages/games/game.ts:77 | The first index with the id, or -1 exactly when no player has it. |
| Types.FindByIdUnique | resources/js/pages/games/game.ts:209 | With unique ids, looking up a player's own id finds that player. |
| Cow.ChooseStartPos | resources/js/pages/games/cow.ts:39-42 | The start column is in `[2, cols - 2]` and the row in `[1, rows - 2]`. |
| Cow.StartPosRoomForTail | resources/js/pages/games/cow.ts:39-42 | From every start, the spawn chain's middle and tail, two cells to the left, are on the grid, and so are the head's four neighbours. |
| Cow.SpawnChain | resources/js/pages/games/game.ts:35-58 | The spawn chain is well formed: a head at the start, a middle one cell left and a tail two cells left, all facing right. |
| Cow.ShiftPos | resources/js/pages/games/cow.ts:61-82 | Up and down change only `y`, right and left only `x`, each clamped on its own axis. A step whose moving coordinate stays in its range is taken as is, whatever the other coordinate; one from inside the range that would leave it is not taken, so the cow stays. A start outside the range along the moving axis lands on the nearest edge, however far away. From inside the box the result stays inside and at most one cell away. |
| Cow.SpawnBeyondClampCollapses | resources/js/pages/games/cow.ts:39-82 | Column 25 is a spawn column, and a cow spawned there moves right onto column 19, with all three segments of its spawn chain on (19, 5). |
| Cow.ShiftPosSwappedAxes | resources/js/pages/games/cow.ts:67-81 | On the 20×30 board a cow at column 19 cannot move right onto column 20, which is on the board. A cow on row 19 moves down onto row 20, which is off it. |
| Cow.MovePiece | resources/js/pages/games/cow.ts:44-59 | A move keeps the chain's length and the segment's kind. The first segment queues `queueDir`, or keeps its own direction when none is given. |
| Cow.Move | resources/js/pages/games/cow.ts:44-48 | A missing piece stays missing; a present one keeps its length and is moved by `Cow.MovePiece`, which `Cow.MoveMatchesIndexed` ties to the indexed follow-the-leader move. |
| Cow.MoveMatchesIndexed | resources/js/pages/games/cow.ts:44-59 | The recursive linked-list move equals the indexed move. In the indexed move, segment i shifts by its own direction and queues segment i-1's pre-move direction. |
| Cow.MovePreservesChain | resources/js/pages/games/cow.ts:44-59 | Kinds are kept and every segment shifts by its own direction. The head queues the given direction or keeps its own; every other segment queues its predecessor's pre-move direction. |
| Cow.MoveKeepsKinds | resources/js/pages/games/cow.ts:44-59 | A move keeps the length of the chain and the kind of every segment. |
| Cow.MoveKeepsWellFormed | resources/js/pages/games/cow.ts:44-59 | Moving a well-formed chain yields a well-formed chain. |
| Cow.FollowTheLeader | resources/js/pages/games/cow.ts:52-56 | On a connected chain moving without clamping, each non-head segment ends on its predecessor's old cell and the chain stays connected. |
| Cow.FirstAppleIndex | resources/js/pages/games/cow.ts:85-87 | The index of the first apple at the position, or -1 exactly when none is there. |
| Cow.AppleAt | resources/js/pages/games/cow.ts:85-87 | Yields the first apple at the position, or nothing exactly when no apple is there. |
| Cow.SecondLast | resources/js/pages/games/cow.ts:89-94 | From a tail, the previous piece. Otherwise a two-segment chain whose flattening is the last two entries of the chain: the segment whose successor is the tail. |
| Cow.SecondLastOfChain | resources/js/pages/games/game.ts:210 | Called as the tick calls it, the result is the chain's second-to-last segment followed by its tail; on a two-segment chain it is the head. |
| Game.AddNewPlayer | resources/js/pages/games/game.ts:28-74 | Appends exactly one alive, well-formed, right-facing three-segment player with score 0 and a start in range. Appends the connection and changes nothing else. Tells the new peer the pause state and its initial direction. |
| Game.SendTo | resources/js/pages/games/game.ts:180-182 | One message, to the first connection of that peer (no earlier connection has it), exactly when such a connection exists; otherwise none. |
| Game.SendToAll | resources/js/pages/games/game.ts:174-178 | One message per connection, in connection order. |
| Game.TurnHead | resources/js/pages/games/game.ts:87 | Only the head's queued direction changes; the rest of the chain, the identity and the score are kept. |
| Game.ChangePlayerDirection | resources/js/pages/games/game.ts:76-97 | For an unknown id, or one whose first player is dead, nothing changes and nothing is sent. Otherwise exactly that player's head is turned and its own peer is told. |
| Game.ToSplicedOne | resources/js/pages/games/game.ts:109-112 | `toSpliced(start, 1)`: removes the element at `start`, counting a negative start back from the end and clamping one before the first element to the first; removes nothing past the end or from an empty list. |
| Game.RemoveAppleAt | resources/js/pages/games/game.ts:106-114 | Removes exactly the first apple at the position. With no apple there it removes the last apple. The list shrinks by one unless it is empty, and nothing else changes. |
| Game.SpawnAnApple | resources/js/pages/games/game.ts:116-135 | Below the rate only the counter advances. Otherwise exactly one apple is appended at a start position in range, and the counter resets to 0. |
| Game.RequestPauseToggle | resources/js/pages/games/game.ts:137-154 | Running becomes paused and everyone is told. Paused with no countdown starts the countdown at the grace period. Paused with a countdown running is unchanged. |
| Game.TickCountdown | resources/js/pages/games/game.ts:155-169 | The countdown drops by one. On reaching 0 the game unpauses with the countdown at 0 and everyone is told. The countdown never ends negative. |
| Game.Reduce | resources/js/pages/games/game.ts:27-172 | UPDATE_PLAYERS replaces only the roster, and the unhandled TOGGLE_PAUSE changes nothing. Only ADD_PLAYER changes connections. Only ADD_PLAYER, CHANGE_DIRECTION and UPDATE_PLAYERS change the roster. |
| Game.ReducePreservesPauseConsistency | resources/js/pages/games/game.ts:137-169 | Every action keeps the countdown non-negative and running only while paused. |
| Game.TogglePauseMachine | resources/js/pages/games/game.ts:137-154 | A pause request takes Running to Paused and Paused to Resuming with the full grace period. It leaves Resuming alone. |
| Game.TogglesWhileResumingAreNoOps | resources/js/pages/games/game.ts:146-148 | Any number of pause requests during a countdown leave the state unchanged. |
| Game.RepeatedResumeRequests | resources/js/pages/games/game.ts:137-154 | From Paused, a burst of requests has the effect of the first one alone. |
| Game.CountdownReachesRunning | resources/js/pages/games/game.ts:155-169 | A countdown of N stays paused for N-1 ticks, counting down by one each time, and reaches Running on the N-th tick. Roster, apples and connections are untouched. |
| Game.ResumeTakesGracePeriodTicks | resources/js/pages/games/game.ts:150-169 | After a resume request the game is Resuming for fewer than `resumeGracePeriod` ticks and Running after exactly that many. |
| Game.TickAtZeroUnpauses | resources/js/pages/games/game.ts:156-163 | A countdown tick with no countdown running unpauses at once. |
| Game.SpawnCounterBounded | resources/js/pages/games/game.ts:116-135 | The spawn counter stays within `[0, appleRate]`. |
| Game.SpawnsBelowRateOnlyCount | resources/js/pages/games/game.ts:117-122 | While the counter stays below the rate, spawn requests only advance it. |
| Game.SpawnOnRatePlusOneth | resources/js/pages/games/game.ts:116-135 | After a reset, the first `appleRate` requests place nothing. The next one places exactly one apple and resets the counter. |
| Tick.ReplaceTail | resources/js/pages/games/game.ts:211-221 | Assigning the second-to-last segment's successor gives the chain minus its tail, followed by the new end. |
| Tick.Grow | resources/js/pages/games/game.ts:208-221 | The chain grows by exactly one segment. It keeps the moved chain up to its last segment and ends with a middle and a tail copied from the pre-move second-to-last segment and tail. It stays well formed. |
| Tick.ReplaceTailKeepsWellFormed | resources/js/pages/games/game.ts:211-221 | Replacing a well-formed chain's tail by a middle and a tail keeps it well formed. |
| Tick.GrowOne | resources/js/pages/games/game.ts:197-225 | A moved player that is alive with its head on an apple scores one point and grows from the tail its pre-move copy had; any other player is returned unchanged. |
| Tick.MoveAndGrow | resources/js/pages/games/game.ts:186-225 | Dead players pass through. An alive player's chain becomes its moved chain when its moved head is on no apple, and that moved chain grown from the pre-move tail when it is; its score and length grow by one exactly in the second case. |
| Tick.GrowPhase | resources/js/pages/games/game.ts:197-225 | The growth phase, which looks up each moved player's pre-move copy by id, moves and grows every player against its own pre-move copy. |
| Tick.EatenApples | resources/js/pages/games/game.ts:203-206 | At most one REMOVE_APPLE per player. |
| Tick.EatenApplesInOrder | resources/js/pages/games/game.ts:197-206 | There is exactly one REMOVE_APPLE per player that ate, in roster order: the payload of player `i` is its head's cell, placed after those of the eaters before it. |
| Tick.EatenApplesExact | resources/js/pages/games/game.ts:197-206 | Every REMOVE_APPLE position is an apple's cell and the moved head cell of a player that ate. Every player that ate has its cell among them. There are none exactly when nobody ate. |
| Tick.DeathPhase | resources/js/pages/games/game.ts:227-242 | A player survives exactly when it is alive and hit neither a player of the post-growth roster nor a wall. Identity and score are kept, and survivors are untouched. |
| Tick.MovePlayers | resources/js/pages/games/game.ts:184-246 | Length, order and identities are kept, the dead are unchanged and nobody is revived. A player that ate gains one point and, if alive, one segment. There is one REMOVE_APPLE per player that ate, each the cell of an apple. The roster stays valid. |
| Tick.SurvivorsMoved | resources/js/pages/games/game.ts:186-221 | A player that survives the tick has its moved chain when its moved head is on no apple, and otherwise that moved chain grown from its pre-move tail. |
| Tick.CollidedPlayersDie | resources/js/pages/games/game.ts:233-238 | A player alive before the tick is dead after it exactly when it hit a player or a wall after growth; it keeps its identity and grown score. |
| Tick.RemovalsOnlyShrinkFood | resources/js/pages/games/game.ts:106-114 | The tick's REMOVE_APPLE actions change only the apples, removing one per action while any are left. |
| Tick.CommitTick | resources/js/pages/games/game.ts:244-245 | After the tick's actions the roster is the tick's roster, one apple has gone per REMOVE_APPLE while any were left, and nothing else has changed. |
| Tick.RemovalTakesApple | resources/js/pages/games/game.ts:106-114 | A REMOVE_APPLE on a cell holding an apple removes exactly one apple of that cell and no other apple. |
| Tick.RemovalsTakeEatenApples | resources/js/pages/games/game.ts:106-114 | REMOVE_APPLE actions on pairwise distinct cells that hold apples remove exactly one apple per cell and keep every other apple, as multisets. |
| Tick.CommitTickRemovesEatenApples | resources/js/pages/games/game.ts:197-206 | When the apples eaten in a tick lie on distinct cells, the committed tick removes exactly the eaten apples and keeps all others, as multisets. |
| Tick.MovePlayersEaten | resources/js/pages/games/game.ts:197-206 | Helper: the tick's REMOVE_APPLE payloads are those of the moved roster. |
| Tick.SharedAppleEatenTwice | resources/js/pages/games/game.ts:106-114 | When both of two players eat the same one of two apples, the tick emits that cell twice and leaves no apple: the second removal takes the remaining apple. |
| Tick.SharedAppleList | resources/js/pages/games/game.ts:197-206 | Two players that ate at the same cell give that cell twice. |
| Tick.TwoEatersScenario | resources/js/pages/games/game.ts:186-206 | Heads at (5,5) facing right and at (6,6) facing up both move onto the apple at (6,5), so a board with a second apple meets the conditions of `SharedAppleEatenTwice`. |
| Tick.TurnThenMoveScenario | resources/js/pages/games/cow.ts:52-56 | A spawn chain at (5,5) turned up and moved has its head at (5,4) facing up, its middle at (5,5) facing up and its tail at (4,5) facing right. |
| Snakes.GenerateGrid | resources/js/pages/games/snakes.tsx:71-81 | A grid of `rows` rows of `cols` cells, all empty. |
| Snakes.SetCell | resources/js/pages/games/snakes.tsx:97-98 | The cell holds the new value; every other cell and the grid's shape are kept. |
| Snakes.RelocateCell | resources/js/pages/games/snakes.tsx:97-98 | A relocation fills its target cell with the stored segment, clears its source cell when that is another cell, and keeps every other cell. |
| Snakes.FinalShift | resources/js/pages/games/snakes.tsx:96-104 | Performing the first relocation on a cell and then the rest leaves the same content as performing the whole list. |
| Snakes.Apply | resources/js/pages/games/snakes.tsx:96-104 | After the relocations, each cell holds what the last relocation that cleared or filled it left there, or its old content if none did. |
| Snakes.FinalUntouched | resources/js/pages/games/snakes.tsx:96-98 | A cell no relocation clears or fills keeps its content. |
| Snakes.FinalHonest | resources/js/pages/games/snakes.tsx:96-98 | If every stored segment sits on its own cell, every cell holds only a segment positioned on it. |
| Snakes.GridMove | resources/js/pages/games/snakes.tsx:88-106 | The grid move returns exactly the chain that the board's `move` computes. It relocates the segments head first, one relocation per segment, each from its old cell to its new cell, storing the moved chain from that segment on. |
| Snakes.MoveStaysInGrid | resources/js/pages/games/snakes.tsx:108-129 | On the 20×20 grid, a chain on the grid stays on the grid after a move. |
| Snakes.MoveOnGrid | resources/js/pages/games/snakes.tsx:88-106 | The grid move yields the board's moved chain, still on the grid. Cells outside the segments' old and new cells are kept. The moved tail's cell holds the moved tail. An honest grid stays honest. |
| Snakes.RelocationsFit | resources/js/pages/games/snakes.tsx:96-98 | A move of a chain on the grid relocates only between cells of the grid. |
| Snakes.RelocationsOnOwnCells | resources/js/pages/games/snakes.tsx:96-98 | Every segment a move stores sits on the cell it is stored in. |
| Snakes.MoveLeavesOtherCellsAll | resources/js/pages/games/snakes.tsx:96-98 | Every cell that no segment leaves or enters keeps its content. |
| Snakes.MoveLeavesOtherCells | resources/js/pages/games/snakes.tsx:96-98 | No relocation of a move clears or fills a cell that no segment leaves or enters. |
| Snakes.MoveFillsTailCell | resources/js/pages/games/snakes.tsx:97-98 | The moved tail's new cell holds the moved tail. |
| Snakes.MoveKeepsHonest | resources/js/pages/games/snakes.tsx:97-98 | A move keeps a grid honest: every cell holds only a segment positioned on that cell. |
| Snakes.SetCellHonest | resources/js/pages/games/snakes.tsx:172-175 | Storing a segment on its own cell, or clearing a cell, keeps the grid honest. |
| Snakes.NewBoard | resources/js/pages/games/snakes.tsx:135-138 | The initial state has no players and an empty, consistent grid. |
| Snakes.ChooseSnakesStart | resources/js/pages/games/snakes.tsx:83-86 | The start column and row are both in `[1, 18]`. |
| Snakes.SnakesStartTailOffGrid | resources/js/pages/games/snakes.tsx:83-86 | The spawn tail is on the grid exactly when the start column is at least 2. The draw giving column 1 puts it at column -1. |
| Snakes.ChooseSnakesStartFixed | resources/js/pages/games/snakes.tsx:83-86 | With the start column drawn from `[2, 18]`, the column is at least 2. |
| Snakes.FixedStartFitsSpawn | resources/js/pages/games/snakes.tsx:141-169 | With the corrected range, the head, middle and tail cells are all on the grid. |
| Snakes.SpawnChainInGrid | resources/js/pages/games/snakes.tsx:143-169 | A spawn chain whose head and tail cells are on the grid lies wholly on it, with the middle and tail where `addPlayer` places them. |
| Snakes.AddSnakePlayer | resources/js/pages/games/snakes.tsx:140-182 | Appends one player. Stores head, middle and tail in their cells, keeps the rows and columns outside the chain, and keeps the state consistent. |
| Snakes.Join | resources/js/pages/games/snakes.tsx:195-197 | Joining, with the start column drawn from the corrected range of the Findings row, appends one player with the given id and name and a well-formed chain, keeps the earlier roster, and keeps the state consistent. |
| Snakes.FindSnake | resources/js/pages/games/snakes.tsx:201 | The first index with the id, or -1 exactly when no player has it. |
| Snakes.ChangeSnakeDirection | resources/js/pages/games/snakes.tsx:198-213 | For an unknown id or a player without a chain the state is unchanged. Otherwise only that player's head direction changes, and the cells are untouched. |
| Snakes.TurnedChainInGrid | resources/js/pages/games/snakes.tsx:208-211 | Turning the head moves no segment, so a chain on the grid stays on it. |
| Snakes.MoveOne | resources/js/pages/games/snakes.tsx:231-235 | One player's chain, if any, moves exactly as the board's `move` moves it. The grid stays full and honest. |
| Snakes.MoveAll | resources/js/pages/games/snakes.tsx:228-242 | Each player's chain moves exactly as the board's `move` moves it, in roster order, on one shared grid. Roster length and order are kept. |
| Snakes.TickBoard | resources/js/pages/games/snakes.tsx:228-242 | Every chain moves one step as the board's `move` does. Ids and names are kept, and the state stays consistent. |

## Left out

- Peer connections, the host's peer id, the `useEffect` wiring and React state: transport and UI plumbing. The reducer returns its messages as a list instead.
- The tick interval (`setInterval`), the one-second resume countdown timer and the apple-spawn dispatch: timers. The reducer actions they dispatch are modelled.
- Rendering, sprites, `cn` and the `config.ts` sprite tables: presentation only.
- `playerHasCollidedWithAnyPlayer` and `playerHasCollidedWithAnyWall`: `game.ts` imports them from `cow.ts`, which does not define them. They are parameters of the tick.
- A head without a position (the `!piece.pos` guard of both `move`s): the head types of `cow.ts` and `snakes.tsx` make `pos` optional, but every head the program builds gets one (`game.ts:53-58`, `snakes.tsx:160-169`) and `move` copies it, so the position-less case cannot occur and every segment carries a position.
- Aliasing. The source mutates shared objects: the head object `CHANGE_DIRECTION` turns is also in the pre-tick roster, `SPAWN_APPLE` pushes onto the old apple list, and `snakes.tsx` mutates the grid rows in place. The model is purely functional: each action yields a new state, and earlier states are unchanged.
- Snakes.ChangeSnakeDirection: in the source the turned head is the same object as the one stored in its grid cell, so the cell's copy also turns. The model turns only the player's chain and leaves the cells as they were.
- The `pos` field of a `snakes.tsx` player: a stale copy of the head position that nothing reads.
- Snakes.Join: draws the start column from the corrected range `[2, 18]` of the Findings row rather than the `[1, 18]` of `snakes.tsx:84`, so that its `Consistent` result holds; `Snakes.SnakesStartTailOffGrid` shows the draw of the range as written that puts the tail off the grid.
- Tick.MovePlayers: requires unique ids. With duplicate ids, the source's lookup of the pre-move copy by id could pick another player. The same requirement (`Tick.ValidRoster`) sits on `Tick.GrowPhase`, `Tick.SurvivorsMoved`, `Tick.CollidedPlayersDie`, `Tick.CommitTick`, `Tick.CommitTickRemovesEatenApples` and the tick scenario lemmas, for the same reason.
- Snakes.MoveOnGrid: requires every segment to be on the grid. Writing a cell off the grid throws in the source (an undefined row) or adds a property outside the grid (a column out of range), and neither is modelled.
- Snakes.AddSnakePlayer: requires the start and the tail cell to be on the grid, for the same reason. `Snakes.SnakesStartTailOffGrid` shows which draws of the source's own range break this.

## Findings

| source | as written | input that shows it | evidently intended | confidence | as-written member | corrected member |
|---|---|---|---|---|---|---|
| resources/js/pages/games/snakes.tsx:84 | the start column is drawn from `[1, cols - 2]`, and the spawn tail is stored two cells to its left | the draw that yields column 1: head (1, 1), tail (-1, 1), off the grid | draw the column from `[2, cols - 2]`, as `cow.ts:40` does so that the tail stays on the grid | high; not executed | Snakes.SnakesStartTailOffGrid | Snakes.FixedStartFitsSpawn |
