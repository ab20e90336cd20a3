# Minesweeper grid engine and rock-paper-scissors rules, in Dafny

This project models the game logic of two small terminal games written in C, and proves
properties of that model.

**Minesweeper.c.** The board is a flat `int` array of width*height tiles, indexed
`row*width + column`. Each tile packs four facts into one signed value: mine or not; hidden,
flagged or revealed; and the number of neighbouring mines.

- `MineTiles` is the encoding. It is a bijection between decoded tile records and the
  thirty values -19..10. It also holds the per-tile rewrites: reveal, flag toggle,
  end-of-game form and neighbour bump. Each rewrite is specified by what it does to the
  decoded tile.
- `MineGrid` holds the board operations that work in place on an `array<int>`:
  - `InitializeMap`, `PlantMines` (the random numbers are a parameter), `GenerateMap`,
    `RevealMap` and `MarkTile`;
  - `Layout`, an independent reference for the board `generate_map` builds: a mine tile
    holds -9, and every other tile holds minus the number of distinct mines around it.
- `MineReveal` holds `reveal_tile`:
  - the specification functions `RevealAt`/`RevealAround` follow the source's recursion,
    with the neighbour offsets in the source's order;
  - `RevealTile`, a recursive method on the array, is proved to compute exactly what they
    describe;
  - the lemmas show that a reveal only flips hidden safe tiles, that it loses exactly when
    the guessed tile is a mine, and that the flood fill is complete;
  - in the other direction, every tile a reveal changes is reached from the guessed tile
    through neighbouring hidden zero tiles, so the flood fill opens nothing beyond them.
- `MineGame` covers the rest of the game:
  - the free-position counter of `main` and `guess_screen`, and the invariant `InPlay`
    that ties it to the board;
  - the built-in self-test: on the 5x4 test board, a guess on any zero tile scores 19 and
    wins, and the guess on the mine loses.

**RPS.c.**

- `Rps` models:
  - the computer `Player`;
  - its hand for a given random number: player 1 is uniform, player 2 favours paper;
  - the win/tie/loss rule of `shoot`;
  - the `rounds`/`wins`/`ties` counters, as a class whose `Shoot` method updates them.
- `Sprites` models `get_sprite_array`. The sprite file is a character sequence and a
  read position stands for the `FILE*` cursor. The two-dimensional frame buffer is an
  `array2<char>`, filled in place. A specification function, `Frames`, splits the input.
  Its lemmas cover the size cap, the separator rule and the end-of-file rule. They also
  show that splitting a file written as separated frames gives those frames back.

The comment at Minesweeper.c:74 says a revealed zero tile becomes 9. The code writes 10
(Minesweeper.c:298), so the model follows the code.

## Model

| member | source | states |
|---|---|---|
| MineTiles.Encode | Minesweeper.c:50-56 | a valid tile encodes to a value in -19..10; the value is positive exactly when the tile is revealed, and below -9 exactly when it is flagged |
| MineTiles.Decode | Minesweeper.c:50-56 | every value in -19..10 decodes to a valid tile that encodes back to the same value |
| MineTiles.DecodeEncode | Minesweeper.c:50-56 | decoding an encoded tile gives the tile back, so the encoding is a bijection onto -19..10 |
| MineTiles.EncodeInjective | Minesweeper.c:50-56 | two valid tiles with the same encoding are equal |
| MineTiles.PredicatesDecode | Minesweeper.c:50-56 | the source's mine test, its free-position test and the zero forms 0/-10/10 mean mine, not-mine-and-not-revealed, and no neighbouring mine |
| MineTiles.Flip | Minesweeper.c:296-315 | a flipped hidden safe tile is revealed and not a mine; it is 10 exactly when the tile had no neighbouring mine |
| MineTiles.FlipReveals | Minesweeper.c:296-315 | flipping changes only the visibility, to revealed |
| MineTiles.Toggle | Minesweeper.c:481-485 | marking turns hidden into flagged and flagged into hidden, and leaves a revealed tile alone |
| MineTiles.ToggleTwice | Minesweeper.c:481-485 | marking a tile twice gives back its value |
| MineTiles.EndForm | Minesweeper.c:331-336 | the end-of-game form of a tile is in 1..10 and is the same tile, revealed |
| MineTiles.EndFormIdempotent | Minesweeper.c:331-336 | rewriting a tile to its end-of-game form twice is the same as once |
| MineTiles.Bump | Minesweeper.c:263-270 | a mine neighbour is left alone; any other tile gains one neighbouring mine and keeps its visibility |
| MineGrid.IndexInRange | Minesweeper.c:258 | a position on the board has a flat index in 0..width*height, and that index maps back to the position |
| MineGrid.PositionInRange | Minesweeper.c:282 | every flat index of the board comes from exactly one position on the board |
| MineGrid.MinesAroundZero | Minesweeper.c:243-270 | no mine around a position is the same as no mine adjacent to it |
| MineGrid.MinesAroundAdd | Minesweeper.c:243-270 | adding a mine raises a position's count by one exactly when that mine is new and adjacent |
| MineGrid.InitializeMap | Minesweeper.c:201-210 | every one of the width*height tiles becomes 0 |
| MineGrid.ZerosIsEmptyLayout | Minesweeper.c:201-210 | the all-zero board is the layout with no mines |
| MineGrid.Layout | Minesweeper.c:240-270 | the reference board has one tile per position, each a hidden tile between -9 and 0 |
| MineGrid.PlaceMine | Minesweeper.c:233-271 | placing a mine makes its tile a mine, keeps every mine and changes no tile other than it and its neighbours |
| MineGrid.PlaceMineKeepsMines | Minesweeper.c:240-263 | placing a mine keeps the mines already planted and adds the new one |
| MineGrid.Generated | Minesweeper.c:226-273 | after generate_map's loop every planted position holds a mine |
| MineGrid.Duplicates | Minesweeper.c:234-237 | the number of repeated positions, which generate_map adds back to the free positions, is at most the number of positions |
| MineGrid.Marked | Minesweeper.c:477-485 | marking a tile keeps, on every tile of the encoding, whether it is a mine and whether it is hidden and safe |
| MineGrid.PlantMines | Minesweeper.c:213-220 | mine k takes its row and column from the draws, reduced modulo height and width, so every position lies on the board |
| MineGrid.PlaceMineLayout | Minesweeper.c:233-271 | on a layout, a position already holds a mine exactly when it is in the mine set; placing a new mine gives the layout of the larger set |
| MineGrid.BumpTile | Minesweeper.c:263-270 | only the one neighbour changes, to its bumped value |
| MineGrid.SurroundMine | Minesweeper.c:240-271 | placing a new mine rewrites the board to `PlaceMine` of the old board |
| MineGrid.GenerateMap | Minesweeper.c:223-274 | the board becomes the old board with every position placed in order; the counter grows by the number of positions that found a mine already there |
| MineGrid.GenerateFromZeros | Minesweeper.c:223-274 | from an all-zero board, generate_map builds the layout of the distinct planted positions; the duplicates are the positions that repeat an earlier one |
| MineGrid.GeneratedTile | Minesweeper.c:240-270 | after generate_map, every planted position holds -9 and every other tile holds minus the number of distinct mines around it |
| MineGrid.LayoutCounts | Minesweeper.c:234-240 | a layout has exactly one -9 tile per distinct mine, and every other tile is a free position |
| MineGrid.FreeAfterGenerate | Minesweeper.c:234-238 | starting from width*height - num_mines plus one per duplicate, the counter equals width*height minus the -9 tiles, which is the number of free positions |
| MineGrid.LayoutConsistent | Minesweeper.c:240-270 | a generated board is a valid encoding, and no tile with no neighbouring mine touches a mine |
| MineGrid.EndMap | Minesweeper.c:321-339 | after reveal_map every tile is positive; on a valid board every tile is in 1..10 and is the same tile, revealed |
| MineGrid.EndMapIdempotent | Minesweeper.c:321-339 | reveal_map a second time changes nothing |
| MineGrid.RevealMap | Minesweeper.c:321-339 | the board becomes `EndMap` of the old board, visited column by column |
| MineGrid.MarkTile | Minesweeper.c:471-490 | off the board: returns -100 and changes nothing; on the board: returns the original tile and toggles that one tile |
| MineGrid.MarkTwice | Minesweeper.c:481-485 | marking the same tile twice restores the board |
| MineGrid.MarkKeepsInvariants | Minesweeper.c:481-485 | a mark keeps the board valid and consistent, changes no free position, and changes neither mine nor zero status of any tile |
| MineReveal.FlipOne | Minesweeper.c:290-315 | flipping one hidden safe tile removes exactly that tile from the free positions |
| MineReveal.FlipTileFlips | Minesweeper.c:296-315 | flipping the tile at a position rewrites only that tile's flat index |
| MineReveal.FlipTile | Minesweeper.c:296-315 | flipping a hidden safe tile leaves one hidden safe tile fewer |
| MineReveal.RevealAt | Minesweeper.c:276-318 | a reveal keeps the board size, and the tiles flipped (the score gained) plus the free positions left equal the free positions before |
| MineReveal.RevealInGrid | Minesweeper.c:282-317 | the same score accounting for a reveal of a tile on the board |
| MineReveal.RevealAround | Minesweeper.c:301-308 | the same score accounting for the neighbour loop from any offset onwards |
| MineReveal.RevealFrom | Minesweeper.c:303-307 | the same score accounting for one neighbour followed by the rest of the loop |
| MineReveal.RevealAtHidden | Minesweeper.c:290-315 | on a hidden safe tile a reveal scores one and flips it; a zero form then runs the neighbour loop, any other tile stops there |
| MineReveal.AroundStep | Minesweeper.c:305-306 | one neighbour's reveal advances the neighbour loop's state, or ends the loop with a loss |
| MineReveal.AroundDone | Minesweeper.c:301-308 | a neighbour loop that ran to the end without a loss yields the current board and the flips counted |
| MineReveal.RevealTile | Minesweeper.c:276-318 | the in-place recursive reveal leaves exactly `RevealAt`'s board, adds its flips to the score and reports its loss |
| MineReveal.RevealNeighbours | Minesweeper.c:301-308 | the in-place neighbour loop computes exactly `RevealAround` from the first offset |
| MineReveal.RevealNeighbour | Minesweeper.c:305-306 | one pass of the neighbour loop keeps the loop state, or ends it with the loss the specification gives |
| MineReveal.FlipsOnlyTrans | Minesweeper.c:301-308 | two reveals in a row still only flip hidden safe tiles |
| MineReveal.RevealAtFlips | Minesweeper.c:290-315 | a reveal changes the board only by flipping hidden safe tiles |
| MineReveal.RevealAtTarget | Minesweeper.c:279-290 | off the board or on a revealed tile nothing happens; on a mine the game is lost and reveal_tile itself leaves the board untouched (lose_screen's reveal_map is applied by the caller); otherwise the guessed tile ends up revealed unless the reveal loses |
| MineReveal.RevealAroundFlips | Minesweeper.c:301-308 | the neighbour loop only flips hidden safe tiles |
| MineReveal.RevealFromFlips | Minesweeper.c:303-307 | one neighbour and the rest of the loop only flip hidden safe tiles |
| MineReveal.FlipsPreserve | Minesweeper.c:296-315 | flipping keeps the board valid and consistent, keeps mines mines and zero tiles zero tiles |
| MineReveal.EndMapAfterFlips | Minesweeper.c:321-339 | flipped tiles are already in their end-of-game form, so reveal_map shows the same board whatever was flipped |
| MineReveal.RevealAtLoses | Minesweeper.c:285-308 | on a valid, consistent board a reveal loses exactly when the guessed tile is a mine: the flood fill never steps on one |
| MineReveal.RevealAroundSafe | Minesweeper.c:301-308 | the neighbour loop around a zero tile of a consistent board never loses |
| MineReveal.RevealFromSafe | Minesweeper.c:303-307 | the same for one neighbour followed by the rest of the loop |
| MineReveal.NeighbourNotMine | Minesweeper.c:301-306 | on a consistent board no neighbour of a zero tile is a mine |
| MineReveal.ZeroCentreKeeps | Minesweeper.c:296-308 | flips keep a board valid and consistent and keep a zero tile a zero tile |
| MineReveal.OpenedKeeps | Minesweeper.c:296-308 | a tile whose neighbours are all revealed keeps them revealed under further flips |
| MineReveal.FloodClosedCompose | Minesweeper.c:296-308 | two complete flood fills in a row make one complete flood fill |
| MineReveal.OpenedFromStep | Minesweeper.c:303-307 | revealing one neighbour and then the rest reveals every neighbour from that offset onwards |
| MineReveal.RevealAroundOpens | Minesweeper.c:301-308 | a neighbour loop that does not lose reveals every neighbour from its cursor onwards |
| MineReveal.RevealFromOpens | Minesweeper.c:303-307 | the same for one neighbour followed by the rest of the loop |
| MineReveal.RevealAtCloses | Minesweeper.c:296-308 | a reveal that does not lose completes its flood fill: every zero tile it opened has all its neighbours revealed |
| MineReveal.CentreOpened | Minesweeper.c:296-308 | the guessed zero tile has all its neighbours revealed once its loop has run |
| MineReveal.RevealAroundCloses | Minesweeper.c:301-308 | the neighbour loop that does not lose completes its flood fill |
| MineReveal.RevealFromCloses | Minesweeper.c:303-307 | the same for one neighbour followed by the rest of the loop |
| MineReveal.RevealAtReach | Minesweeper.c:296-308 | every tile a reveal changes is reached from the guessed tile (which is on the board) by a path of neighbouring tiles on which every tile before it was a hidden zero tile (0 or -10) of the board before the reveal |
| MineReveal.RevealAroundReach | Minesweeper.c:301-308 | every tile the neighbour loop changes is reached that way from some neighbour of the centre tile |
| MineReveal.RevealFromReach | Minesweeper.c:303-307 | the same for one neighbour followed by the rest of the loop |
| MineReveal.ReachesStep | Minesweeper.c:296-306 | a hidden zero tile next to a tile that reaches k also reaches k |
| MineReveal.ReachesLift | Minesweeper.c:296-315 | a path through hidden zero tiles of a board after flips is also such a path on the board before them |
| MineReveal.NeighbourReach | Minesweeper.c:303-306 | a tile reached from the neighbour at offset (i, j) is reached from a neighbour of the centre |
| MineReveal.ReachedAroundLift | Minesweeper.c:301-308 | tiles changed by two reveals in a row, around the same centre, are all reached from its neighbours on the first board |
| MineGame.StartInPlay | Minesweeper.c:177-187 | after main's set-up the board is valid and consistent, and the counter equals its free positions |
| MineGame.Guess | Minesweeper.c:596-605 | a guess reveals (column-1, row-1) and adds the flips to the score. On a loss the board is shown in end form and the counter is untouched. Otherwise the counter drops by the flips, and the game is won when it reaches 0 |
| MineGame.GuessKeepsInPlay | Minesweeper.c:596-605 | a guess loses exactly on a mine, and the board it then shows is the end form of the board before the guess. Otherwise the counter stays equal to the free positions left, so the game is won exactly when none is left |
| MineGame.MarkKeepsInPlay | Minesweeper.c:471-490 | marking a tile keeps the game invariant with the same counter |
| MineGame.TestBoardIsLayout | Minesweeper.c:668-674 | the hand-written test board is the board generate_map builds for its single mine |
| MineGame.TestBoard | Minesweeper.c:668-674 | the test board has 20 hidden tiles and its only mine is the last one |
| MineGame.TestBoardEndForm | Minesweeper.c:619 | reveal_map on the test board shows the mine as 9, its three neighbours as 1 and every other tile as 10 |
| MineGame.TestBoardFloods | Minesweeper.c:680 | a guess on any zero tile of the test board does not lose, reveals every tile but the mine, and leaves the mine hidden |
| MineGame.TestBoardCleared | Minesweeper.c:685 | a test board with every tile but the mine revealed has no free position left |
| MineGame.SelfTestWin | Minesweeper.c:665-685 | test case 1: a guess on any zero tile of the test board flips all 19 safe tiles and leaves no free position |
| MineGame.SelfTestLose | Minesweeper.c:690-696 | test case 2: on the board test case 1 left, guessing column 4, row 3 hits the mine and reveal_tile flips nothing; lose_screen's reveal_map (Minesweeper.c:619) then leaves the end form: the mine shows 9, its three neighbours 1 and every other tile 10 |
| Rps.Throw | RPS.c:405-437 | the thrown player keeps its id; players 1 and 2 throw a real hand; any other player keeps the hand it was given |
| Rps.PlayerOneIsEven | RPS.c:405-419 | player 1 throws each hand for exactly one of any three consecutive random numbers |
| Rps.PlayerTwoFavoursPaper | RPS.c:420-437 | player 2 throws paper for two of any four consecutive random numbers, and rock and scissors for one each |
| Rps.JudgeIsCyclic | RPS.c:503-517 | on real hands: a tie exactly for equal hands, a win exactly when the user's hand beats the computer's in the cyclic order, a loss exactly when it is beaten |
| Rps.JudgeAntisymmetric | RPS.c:503-517 | swapping the two hands swaps win and loss and keeps a tie |
| Rps.PlayCounts | RPS.c:402-514 | after any run of rounds from zero, rounds is the number of rounds and wins and ties are the number of wins and ties |
| Rps.OccurrencesBound | RPS.c:179-181 | wins plus ties never exceed the rounds played |
| Rps.TalliedKeepsBound | RPS.c:402-514 | one round keeps wins and ties non-negative with wins + ties <= rounds |
| Rps.Tally.constructor | RPS.c:179-181 | the counters start at zero |
| Rps.Tally.Shoot | RPS.c:399-519 | shoot adds one round, throws the computer's hand for the random number, and adds one win or one tie exactly as judged; it keeps wins + ties <= rounds |
| Sprites.ReadFrame | RPS.c:619-645 | reading a frame stores at most max_sprite_size - 1 characters and does not move the cursor backwards or past the end |
| Sprites.ReadFrameStops | RPS.c:619-645 | the frame read contains no separator and stops at end of file, at a separator (dropping it and the character after it), or when the row is full |
| Sprites.StoppedIsReadFrame | RPS.c:619-645 | that stopping rule determines the frame read |
| Sprites.Frames | RPS.c:606-647 | the outer loop yields exactly num_frames frames |
| Sprites.FramesFit | RPS.c:619-646 | every frame holds at most max_sprite_size - 1 characters and no separator |
| Sprites.AllSkipped | RPS.c:612-616 | once end of file was hit every frame only has its first cell cleared |
| Sprites.SkippedSuffix | RPS.c:606-616 | the skipped frames form a suffix |
| Sprites.EofSkipsRest | RPS.c:623-628 | a frame that runs into end of file is followed by skipped frames only |
| Sprites.FramesJoin | RPS.c:633-638 | a file written as frames separated by the separator and a newline splits back into exactly those frames, when each frame fits its row and holds no separator |
| Sprites.ReadRow | RPS.c:619-645 | the inner loop stores the frame's characters in the row, puts a '\0' after them unless the row is full, follows the stopping rule and touches no other row |
| Sprites.FillRow | RPS.c:608-646 | one pass of the outer loop leaves the row as the first remaining frame dictates and advances to the frames after it |
| Sprites.GetSpriteArray | RPS.c:594-649 | every row holds the characters of its frame followed by a '\0', the last cell of a read row is '\0', and the rest of the row is as before |

## Left out

- Terminal I/O in both files is left out: `printf`, `scanf`, `getchar`, the screens (`draw_map`, `welcome_screen`, `mark_screen`, the input loops of `guess_screen`, `win_screen`, `lose_screen`, `test_screen`), the ASCII-art animation, `sleep`, and `fopen`/`fclose`.
- `rand`, `srand` and `time` are not modelled. The random numbers of `plant_mines` and `shoot` are parameters, and the start time is dropped together with the screens that print it.
- The `DEBUG_MODE` branches only print.
- RevealTile: on a mine the model reports `lost` and stops the whole reveal, as `lose_screen`'s `exit` does in a game. In test mode the source's `lose_screen` returns and the loop carries on. By MineReveal.RevealAtLoses a flood fill never reaches a mine on a consistent board, so the difference shows only on boards `generate_map` cannot produce.
- RevealTile: `lose_screen`'s `reveal_map` (Minesweeper.c:287, 619) is not applied inside the reveal. The caller applies it: MineGame.Guess shows the end form on a loss, and MineGame.SelfTestLose states the board the self-test is left with.
- Guess: `lose_screen`'s `reveal_map` is modelled; its exit ends the game, which the model reports as the `Lost` outcome.
- GenerateMap: requires every position on the board. `generate_map` does not check bounds (Minesweeper.c:233), and `plant_mines` only produces positions on the board.
- The board is the flat array that every function indexes. The variable-length array declared `map[width][height]` at Minesweeper.c:175 is not modelled.
- Integers are unbounded. The score, the free-position counter and the `wins`/`rounds`/`ties` counters cannot overflow a C `int` in any real game.
- Shoot: the result screens (`tie_screen`, `win_screen`, `loose_screen`) and the animation are replaced by the returned result.
- GetSpriteArray: the `NULL` file branch (RPS.c:598-601) only prints a message and leaves the array untouched, so it is not modelled.
- GetSpriteArray: requires at least one cell per row. With `max_sprite_size` 0 the source would write `frame[-1]`, and every caller passes 256*60.
- GetSpriteArray: `fgetc` is modelled as taking the character at the cursor or reporting end of file. The conversion of its `int` result to `char` is not modelled, because the source tests `feof` rather than comparing with `EOF`.
- `char_select`, `prompt_quit` and the `game_screen`/`welcome_screen` recursion of RPS.c are input loops and are not modelled.
