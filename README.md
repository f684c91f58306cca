# Onet tile-matching engine, modelled in Dafny

Onet is a tile-matching game. The board is a square of gridSize x gridSize cells, and each cell holds an icon id. The player clicks two tiles. When they show the same icon, and a corridor of removed cells joins them, both tiles are removed and the score grows by 10. Once the board is empty, the game moves to the next level. The next level has a board two cells wider and 30 more seconds on the clock. A timer counts the level's seconds down, and the game ends when it reaches zero.

The repository has two versions of the same engine, and both are modelled here:

- `OnetGame` keeps the board in an `int[][]`. Its model is the class `ArrayGame.OnetGame`, whose `board` is an `array2<int>`.
- `OnetGameWithHashMap` keeps the board in a `HashMap<Point, Integer>`. Its model is the class `MapGame.OnetGameWithHashMap`, whose `board` is a `map<Pos, int>`.

In both versions a removed tile's cell holds `EMPTY` (-1). The map version can also lack an entry for a point, and a lookup of a missing point counts as `EMPTY`.

The modules:

- `Grid` holds the shared view of a board as a square sequence of rows (`Grid`). It also holds the row-major helpers that board generation and reshuffling rely on:
  - `Flatten`, the cells row after row;
  - `Occupied`, the icons in row-major order;
  - `Refill`, which writes a list back into the occupied cells;
  - `Pairs`, the generator's list of icon pairs;
  - `Padded`, the dealt cells with the left-over filler.

  Its lemmas cover pairing: every icon on the board occurs an even number of times (`Paired`), so the board can always be cleared pair by pair.
- `Rules` holds what both versions share beyond the board: the 10 points per pair, each level's time, when a pair is removable, and the size step from one level to the next.
- `Shuffle` models `Collections.shuffle` as Fisher-Yates, with the random draws passed in as a function `rnd`.
- `PathSearch` is the breadth-first search both versions share: `findPath`, `reconstructPath` and the connection test. It is proved sound, complete and shortest.
- `ArrayGame` and `MapGame` hold the two game classes: the constructor, `initializeBoard`, `isMatch`, `removeImages`, `isBoardEmpty`, `nextLevel`, the timer tick, `shuffleBoard`, `isConnectable` and the click handler `actionPerformed`.

Each class's `Valid()` invariant says:
- the board is `2 * level + 2` cells wide;
- for the map version, the map has exactly one entry per cell;
- every icon id is in `[0, iconCount)`;
- every icon is paired;
- a pending first click is a tile still on the board.

Every click and every reshuffle preserves `Valid()`.

## Model

| member | source | states |
|---|---|---|
| Shuffle.SwapDownPermutes | OnetGame.java:69 | The Fisher-Yates swaps from any bound downwards leave the multiset of the list unchanged, whatever numbers the generator hands out. |
| Shuffle.ShuffledPermutes | OnetGameWithHashMap.java:64 | The shuffled list is a permutation of the original list. |
| Grid.Cleared | OnetGame.java:238-239 | After removing the tiles at p1 and p2, exactly those two cells hold EMPTY and every other cell keeps its value. |
| Grid.ClearPairKeepsInvariant | OnetGame.java:171-176 | Removing two different cells that show the same icon keeps every icon paired and puts no new id on the board. |
| Grid.Occupied | OnetGame.java:352-357 | The collected icons contain no EMPTY, and every icon present in the cells is among them. |
| Grid.OccupiedCount | OnetGameWithHashMap.java:435-443 | The collected list holds each icon exactly as often as the cells do. |
| Grid.SameIconsKeepInvariant | OnetGame.java:346-370 | A board whose icons form the same multiset as a paired, in-range board is paired and in range: a reshuffle keeps the board clearable. |
| Grid.RefillOccupied | OnetGame.java:364-370 | Writing exactly as many icons as there are occupied cells back into them places all of them, in order. |
| Grid.RefillKeepsEmpty | OnetGameWithHashMap.java:456-464 | After the write-back, a cell is EMPTY exactly when it was EMPTY before. |
| Grid.Pairs | OnetGame.java:60-65 | The generator's list has 2 * numPairs entries, each a valid icon id in [0, iconCount). |
| Grid.PairsEven | OnetGameWithHashMap.java:55-61 | Every id occurs in the generator's list an even number of times. |
| Grid.EvenSquare | OnetGame.java:60 | For an even gridSize, (gridSize * gridSize) / 2 pairs cover every cell. |
| Grid.GeneratedBoard | OnetGame.java:52-79 | A board dealt from the shuffled pairs whose pairs fill all its cells has every cell holding an icon in range (no EMPTY, no default 0 filler), with every icon paired. |
| Grid.DealtBoard | OnetGameWithHashMap.java:51-77 | A dealt board of even size is full and paired, whatever the filler for left-over cells. |
| Grid.EmptyIffNoIcons | OnetGame.java:246-262 | The board is all EMPTY exactly when it has no icon left. |
| Rules.LevelTimeGrows | OnetGame.java:274-276 | Each level's time is 30 seconds more than the previous level's; level 1 has 60 seconds and level 2 has 90. |
| Rules.RemovableSymmetric | OnetGame.java:169-171 | The order of the two clicks does not matter: a pair is removable either way round, and removing it leaves the same board. |
| Rules.EvenAfterGrowth | OnetGame.java:266-269 | nextLevel's size step gives an even size two or three larger than before, and exactly two larger when the old size was even. |
| ArrayGame.DealBoard | OnetGame.java:73-79 | The new array is n x n, and its cells row by row are the deck followed by zeros (Java's default) for any cells left over. |
| ArrayGame.DealRow | OnetGame.java:74-78 | Row i takes the next entries of the deck, or keeps 0 once the deck is empty; the other rows are unchanged. |
| ArrayGame.CollectIcons | OnetGame.java:349-358 | The collected list is the board's non-EMPTY cells in row-major order. |
| ArrayGame.PlaceIcons | OnetGame.java:364-370 | The cells row by row become Refill of the old cells with the given values. |
| ArrayGame.PlaceRow | OnetGame.java:365-369 | One row is refilled from the remaining values, the other rows are untouched, and the values left over are returned. |
| Grid.PlacingRoom | OnetGame.java:367 | While rows remain, the remaining shuffled icons cover that row's tiles, so `visibleIcons.remove(0)` never runs on an empty list. |
| ArrayGame.OnetGame.constructor | OnetGame.java:8-32 | A new game is Valid, at level 1 on a 4 x 4 board with score 0, 60 seconds, no pending click, and a freshly allocated board array with every cell holding an icon. |
| ArrayGame.OnetGame.InitializeBoard | OnetGame.java:52-82 | The board is a fresh gridSize x gridSize array holding the shuffled pair list dealt row by row (0 in any left-over cell). |
| ArrayGame.OnetGame.IsMatch | OnetGame.java:212-227 | True exactly when the two cells are different and hold equal values. |
| ArrayGame.OnetGame.RemoveImages | OnetGame.java:229-244 | The new board is the old board with the two cells cleared to EMPTY and nothing else changed. |
| ArrayGame.OnetGame.IsBoardEmpty | OnetGame.java:246-262 | True exactly when every cell is EMPTY, which is exactly when no icon is left. |
| ArrayGame.OnetGame.NextLevel | OnetGame.java:265-321 | The size grows to the next even size two or three larger, the level goes up by one, the time becomes the new level's time, and a fresh board is dealt. |
| ArrayGame.OnetGame.Tick | OnetGame.java:329-340 | The time decreases by exactly one, and the game is over exactly when the time is at most zero. |
| ArrayGame.OnetGame.ShuffleBoard | OnetGame.java:346-377 | The reshuffle keeps Valid(), so the board stays paired and a pending first click stays on a tile. While the game runs, the cells become the old icons shuffled and written back in row-major order; once it is over, nothing changes. Either way empty cells stay empty and the multiset of icons is unchanged. |
| ArrayGame.OnetGame.ShuffleTiles | OnetGame.java:348-370 | On any square board, the cells become the old icons shuffled and written back in row-major order: empty cells stay empty, and the multiset of icons is unchanged. |
| ArrayGame.OnetGame.IsConnectable | OnetGame.java:480-492 | True exactly when a corridor of EMPTY cells joins the two cells. |
| ArrayGame.OnetGame.Click | OnetGame.java:158-193 | The click keeps Valid(). Once the game is over, a click changes nothing. Otherwise a first click is remembered and changes nothing else. After a second click no click is pending. A pair that does not match or connect leaves the board, score, level and time unchanged. A removable pair adds 10 and clears exactly the two cells. A board left empty moves to the next level with a full new board. |
| ArrayGame.OnetGame.Select | OnetGame.java:167-192 | While the game runs: the click keeps Valid(); a first click is remembered and changes nothing else; after a second click no click is pending; a pair that does not match or connect changes nothing else; a removable pair adds 10 and clears exactly the two cells; a board left empty moves to the next level with a full new board. |
| ArrayGame.OnetGame.SecondClick | OnetGame.java:169-190 | The same outcomes for the second click alone, given the first click's cell. |
| ArrayGame.OnetGame.MatchAndConnect | OnetGame.java:171 | True exactly when the pair matches and a corridor joins it. |
| ArrayGame.OnetGame.RemovePair | OnetGame.java:171-180 | The matching branch: the score grows by 10, the board is the old one with the pair cleared, or, when that leaves it empty, the next level begins; the invariant is kept. |
| ArrayGame.OnetGame.AdvanceIfCleared | OnetGame.java:178-180 | An empty board moves the game to the next level with a full, paired new board; any other board changes nothing. |
| PathSearch.AdjacentStep | OnetGame.java:408-409 | The four moves of the search reach every orthogonal neighbour. |
| PathSearch.StepAdjacent | OnetGameWithHashMap.java:351-352 | Every move of the search leads to an orthogonal neighbour. |
| PathSearch.ConnectedSymmetric | OnetGame.java:480-492 | Whether two cells connect does not depend on which one is clicked first. |
| PathSearch.ReconstructPath | OnetGame.java:496-508 | Following the back-pointers from end gives a corridor from start to end with exactly dist(end) steps. |
| PathSearch.Expand | OnetGame.java:428-440 | One round of the search keeps its invariants: visited cells are the reached ones, the back-pointers form a shortest-path tree, the queue is ordered by distance, and every expanded cell has its enterable neighbours reached. |
| PathSearch.TryMove | OnetGame.java:429-438 | One direction of a round: a neighbour on the board, not yet visited, and EMPTY or the target, is visited and queued. |
| PathSearch.Visit | OnetGame.java:435-437 | Visiting marks the cell, records its predecessor and appends it to the queue one step further from start. |
| PathSearch.FindPath | OnetGame.java:405-446 | A non-empty answer is a corridor from start to end, the answer is empty exactly when no corridor exists, and no corridor is shorter than the answer. |
| MapGame.MapPassable | OnetGameWithHashMap.java:371-372 | The search's entry test "no entry, -1, or the target" is exactly Passable on the board's view. |
| MapGame.ShuffledBoardValid | OnetGameWithHashMap.java:429-464 | A board with the same entries, the same multiset of icons and the same empty cells as a paired, in-range board with one entry per cell is such a board too, and a selected tile is still a tile. |
| MapGame.ClearedView | OnetGameWithHashMap.java:219-220 | Putting EMPTY at two points of the board clears exactly those two cells of its view and keeps one entry per cell. |
| MapGame.PlacedCell | OnetGameWithHashMap.java:459-461 | One point of the write-back: the entry is replaced by the next shuffled icon when it holds an icon and icons are left, and the progress of the row holds one cell further. |
| MapGame.PlacedRow | OnetGameWithHashMap.java:457-464 | One row of the write-back leaves the other rows unchanged and extends the refilled prefix of the board by that row. |
| MapGame.OnetGameWithHashMap.constructor | OnetGameWithHashMap.java:8-35 | A new game is Valid, at level 1 on a 4 x 4 board with score 0, 60 seconds, no pending click, and every cell holding an icon. |
| MapGame.OnetGameWithHashMap.InitializeBoard | OnetGameWithHashMap.java:51-80 | The map is cleared and refilled with one entry per cell, holding the shuffled pair list dealt row by row (-1 in any left-over cell). |
| MapGame.OnetGameWithHashMap.DealBoard | OnetGameWithHashMap.java:69-77 | Every cell gets an entry, and the entries row by row are the deck padded with -1. |
| MapGame.OnetGameWithHashMap.DealRow | OnetGameWithHashMap.java:70-76 | Row i gets its entries from the deck, or -1 once the deck is empty; earlier entries are unchanged. |
| MapGame.OnetGameWithHashMap.IsMatch | OnetGameWithHashMap.java:202-210 | True only for two different points whose entries hold the same value; on a full board, true exactly when the two cells match. |
| MapGame.OnetGameWithHashMap.RemoveImages | OnetGameWithHashMap.java:213-225 | Both points are put with -1 and every other entry keeps its value; on the board this clears exactly the two cells. |
| MapGame.OnetGameWithHashMap.IsBoardEmpty | OnetGameWithHashMap.java:228-242 | True exactly when every entry is -1; on a board with one entry per cell, exactly when the view is all EMPTY and no icon is left. |
| MapGame.OnetGameWithHashMap.AllEmptyView | OnetGameWithHashMap.java:232-236 | With one entry per cell, "every entry is -1" and "every cell of the view is EMPTY" coincide. |
| MapGame.OnetGameWithHashMap.NextLevel | OnetGameWithHashMap.java:245-316 | The size grows to the next even size two or three larger, the level goes up by one, the time becomes the new level's time, and a new board with one entry per cell is dealt. |
| MapGame.OnetGameWithHashMap.Tick | OnetGameWithHashMap.java:327-335 | The time decreases by exactly one, and the game is over exactly when the time is at most zero. |
| MapGame.OnetGameWithHashMap.ShuffleBoard | OnetGameWithHashMap.java:429-494 | The reshuffle keeps Valid(), so the board stays paired and a pending first click stays on a tile. No entry is added or removed. While the game runs, the cells become the old icons shuffled and written back in row-major order; once it is over, nothing changes. Either way empty cells stay empty and the multiset of icons is unchanged. |
| MapGame.OnetGameWithHashMap.ShuffleTiles | OnetGameWithHashMap.java:432-464 | No entry is added or removed, and entries outside the grid keep their values. The cells become the old icons shuffled and written back in row-major order. Empty cells stay empty, and the multiset of icons is unchanged. |
| MapGame.OnetGameWithHashMap.CollectIcons | OnetGameWithHashMap.java:434-443 | The collected list is the icons of the board's cells in row-major order. |
| MapGame.OnetGameWithHashMap.PlaceIcons | OnetGameWithHashMap.java:456-464 | The keys are unchanged, and the view row by row becomes Refill of the old view with the given values. |
| MapGame.OnetGameWithHashMap.PlaceRow | OnetGameWithHashMap.java:458-463 | Row i of the view becomes Refill of its old cells. Points outside row i keep their entries, and the unused values are returned. |
| MapGame.OnetGameWithHashMap.IsConnectable | OnetGameWithHashMap.java:406-415 | True exactly when a corridor of EMPTY or missing entries joins the two points. |
| MapGame.OnetGameWithHashMap.Click | OnetGameWithHashMap.java:155-189 | The click keeps Valid(). Once the game is over, a click changes nothing. Otherwise a first click is remembered and changes nothing else. After a second click no click is pending. A pair that does not match or connect leaves the board, score, level and time unchanged. A removable pair adds 10 and clears exactly the two cells. A board left empty moves to the next level with a full new board. |
| MapGame.OnetGameWithHashMap.Select | OnetGameWithHashMap.java:163-188 | While the game runs: the click keeps Valid(); a first click is remembered and changes nothing else; after a second click no click is pending; a pair that does not match or connect changes nothing else; a removable pair adds 10 and clears exactly the two cells; a board left empty moves to the next level with a full new board. |
| MapGame.OnetGameWithHashMap.SecondClick | OnetGameWithHashMap.java:166-186 | The same outcomes for the second click alone, given the first click's point. |
| MapGame.OnetGameWithHashMap.MatchAndConnect | OnetGameWithHashMap.java:167 | True exactly when the pair matches and a corridor joins it. |
| MapGame.OnetGameWithHashMap.RemovePair | OnetGameWithHashMap.java:167-176 | The matching branch: the score grows by 10, the view is the old one with the pair cleared, or, when that leaves it empty, the next level begins; the invariant is kept. |
| MapGame.OnetGameWithHashMap.AdvanceIfCleared | OnetGameWithHashMap.java:174-176 | An empty board moves the game to the next level with a full, paired new board; any other board changes nothing. |

## Left out

- Swing UI: the frame, buttons, labels, images, painting, `initializeUI`, `initializeIcons`, `updateButtonIcons`, `scaleImageIcon` and `drawConnectionLine`. `iconCount` stands for the number of icons loaded (18).
- `getButtonPosition` and the ignored click on an unknown button (`clickedPoint == null`). `Click` takes the clicked cell directly and requires a tile still on the board, because a removed tile's button is hidden and cannot be clicked.
- Button visibility. A button is hidden exactly when its cell is set to -1, and every new level shows all buttons of its full board. So `IsBoardEmpty` asks whether every cell is EMPTY rather than whether every button is hidden. The map version walks the map's entries where the source walks the buttons' keys; the two key sets are the same cells.
- The null checks in `removeImages`: positions here are never null.
- Timing: `System.nanoTime`, the `println` timing logs, the timer thread and its one-second schedule. The tick is a plain method `Tick`, and the 500 ms line-clearing task is left out. `timer.cancel()`, the game-over dialog and `System.exit` on time-out are modelled as the `gameOver` flag. The source exits the process at that point, so no click or reshuffle can follow. The model keeps the object, stops `Tick` (it requires `!gameOver`), and makes `Click` and `ShuffleBoard` change nothing once `gameOver` is set.
- The level-completed dialog and the exit when it is closed. The model always proceeds to the next level.
- Randomness. `Collections.shuffle` is Fisher-Yates driven by the parameter `rnd`, so nothing is claimed about uniformity.
- Order of the first-click reset. In `Select` the pending first click is reset before the match test, whereas the source resets it after (OnetGame.java:191, OnetGameWithHashMap.java:187), and `isMatch`, `isConnectable` and `removeImages` read it in between. The model first saves the pending point in `q` and passes `q` to `SecondClick`, so those steps see the same point and the outcome is the same.
- `reconstructPath` appends each cell at the back and reverses at the end. `PathSearch.ReconstructPath` builds the same list by adding each cell at the front.
- The search runs on the grid of cell values. It does not read the array or map directly, and it never changes the board.
- ArrayGame.OnetGame.Tick: `timeRemaining` is an unbounded integer. The 32-bit wrap-around of Java's `int` is not modelled; it would take more than two billion ticks.
- MapGame.OnetGameWithHashMap.Tick: likewise, no 32-bit wrap-around of `timeRemaining`.
- ArrayGame.OnetGame.Click: `score` and `gridSize` are unbounded integers, so no 32-bit overflow is modelled.
- MapGame.OnetGameWithHashMap.Click: likewise, no 32-bit overflow of `score` or `gridSize`.
- MapGame.OnetGameWithHashMap.IsMatch: a first point with no entry makes the source throw a `NullPointerException`; the model requires such a point to have an entry. On a board with one entry per cell, every clicked point has one.
