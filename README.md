# Tetris game-state engine in Dafny

This project models the game-state engine of a browser Tetris clone
(`script.js`) and proves properties of it. The engine consists of:

- the playfield: 20 visible rows of 10 cells above which sit two hidden
  rows, numbered -2 and -1;
- the seven tetromino templates and the clockwise quarter turn;
- the 7-bag piece sequencer: when the bag is empty it is refilled with a
  random permutation of I, J, L, O, S, T, Z built by splicing names out of a
  list, and the next piece is popped from its end;
- the collision check;
- locking a piece, with top-out and line clearing;
- the left, right, rotate and down requests and the gravity tick, which
  moves the piece one row down on every 36th animation frame.

The project has five modules, one per file:

- `Tetrominos` (`tetrominos.dfy`): piece names, shape matrices, the
  templates, `Rotate` and the rotation lemmas.
- `Playfield` (`playfield.dfy`): the grid of 22 physical rows, where
  physical row k holds logical row k - 2. It defines the collision rule
  (`Fits`), the top-out condition (`TopsOut`), the writing of a locked
  piece (`Stamp`) and line clearing as compaction (`Kept`, `Compact`,
  `Cleared`), together with their lemmas.
- `Sequencer` (`sequencer.dfy`): the bag as a sequence of names, the
  splice-and-push refill (`Shuffle`, `Refill`) and the pop (`Draw`). The
  random index chosen at each splice is an input (`rolls`); `RollsFor`
  states that each index is within the list that is left.
- `Rules` (`rules.dfy`): the whole game as a state machine on values:
  `Spawn`, `Initial`, `Locked`, `Moved`, `Rotated`, `Dropped`, `Ticked`.
  The invariant `Inv` is kept between events:
  - the hidden rows are empty and no visible row is full;
  - the bag is duplicate-free and holds fewer than seven names;
  - the frame counter is at most 35;
  - the falling piece is an orientation of its own template and lies
    inside the columns, between row -2 and the floor.
- `Engine` (`engine.dfy`): the program's own imperative form. A class
  `Game` holds the board as a 22 x 10 `array2`, updated in place by the
  nested write loop and the row-shifting line clear, and keeps the bag,
  piece, counter and game-over flag in fields. Each handler is proved to
  move the object's state (`View()`) exactly as the matching function of
  `Rules` prescribes.

Behaviour the model follows from the code:

- Top-out writes nothing. Matrix rows are visited top-first, and every cell
  of a matrix row shares its row number, so the abort at the first occupied
  cell above row 0 always comes before any cell is written. `Game.Lock`
  and `Rules.LockEndsGameIffTopsOut` prove that the board is unchanged on
  top-out. Although the abort sits inside the write loop, it always fires
  before the first write.
- A new piece is never checked against the field. Locking writes the piece
  over whatever is under it (`Rules.LockWritesThePieceThenClears` has no
  requirement that the piece fit). For example, an I piece that spawns at
  row -1, has its cells in row 0 and cannot fall is written over row 0
  without ending the game. For this reason `Rules.Inv` does not claim that
  the falling piece fits.
- The collision check also checks cells in the hidden rows -2 and -1, and
  it never checks a lower bound on the row. The model keeps the row of the
  falling piece at -2 or more (part of `InBounds`): a piece spawns at -2 or
  -1, and its row only grows.

## Model

| member | source | states |
|---|---|---|
| Tetrominos.Template | script.js:24-32 | each template is square: 4 x 4 for I, 2 x 2 for O, 3 x 3 for the others |
| Tetrominos.CellsOfI | script.js:25 | the I template occupies row 1, columns 0-3: four cells |
| Tetrominos.CellsOfJ | script.js:26 | the J template occupies (0,0), (1,0), (1,1), (1,2) |
| Tetrominos.CellsOfL | script.js:27 | the L template occupies (0,2), (1,0), (1,1), (1,2) |
| Tetrominos.CellsOfO | script.js:28 | the O template occupies its whole 2 x 2 matrix |
| Tetrominos.CellsOfS | script.js:29 | the S template occupies (0,1), (0,2), (1,0), (1,1) |
| Tetrominos.CellsOfZ | script.js:30 | the Z template occupies (0,0), (0,1), (1,1), (1,2) |
| Tetrominos.CellsOfT | script.js:31 | the T template occupies (0,1), (1,0), (1,1), (1,2) |
| Tetrominos.TemplateHasFourCells | script.js:24-32 | every template has exactly four occupied cells |
| Tetrominos.Rotate | script.js:67-73 | a quarter turn of an N x N matrix is an N x N matrix |
| Tetrominos.RotateMovesCellsClockwise | script.js:67-73 | the occupied cells after a turn are exactly the old ones, each moved from (a, b) to (b, N-1-a) |
| Tetrominos.RotateKeepsCellCount | script.js:67-73 | a turn keeps the number of occupied cells |
| Tetrominos.RotateFourTimes | script.js:67-73 | four turns give back the original matrix |
| Tetrominos.RotateKeepsOrientation | script.js:67-73 | turning one of a piece's four orientations gives another of them |
| Tetrominos.OrientationHasFourCells | script.js:67-73 | every orientation a piece can reach has exactly four occupied cells |
| Playfield.Fits | script.js:79-83 | a position the collision check accepts is inside the columns and above the floor |
| Playfield.TopsOut | script.js:97 | only a piece whose row is above row 0 can top out |
| Playfield.Stamp | script.js:100 | writing the piece keeps the grid's shape, and every cell it changes now holds the piece's name |
| Playfield.Full | script.js:107 | a row is full if and only if no cell of it is empty |
| Playfield.Compact | script.js:106-116 | line clearing keeps the number of visible rows |
| Playfield.ShiftedDown | script.js:108-112 | one shift keeps the grid's shape, the hidden rows, and every row below the full row |
| Playfield.KeptOfFullRow | script.js:107 | a full row on its own contributes no kept row |
| Playfield.KeptAfterShift | script.js:108-112 | after a shift onto a full row, the kept rows are a blank row followed by the rows kept before |
| Playfield.EmptyGrid | script.js:15-21 | the initial field has 22 rows of 10 empty cells, so no row is full and the hidden rows are empty |
| Playfield.StampWritesOnlyThePiece | script.js:94-103 | without top-out, writing the piece puts its name under exactly its occupied cells, leaves every other cell unchanged and keeps the hidden rows empty |
| Playfield.Kept | script.js:106-116 | the rows kept by line clearing are rows of the field that are not full |
| Playfield.Cleared | script.js:106-116 | after line clearing the hidden rows are unchanged, the visible rows are the compacted ones, and no visible row is full |
| Playfield.CompactWithoutFullRows | script.js:106-116 | with no full row, line clearing changes nothing |
| Playfield.CompactIdempotent | script.js:106-116 | compaction leaves no full row, so clearing twice equals clearing once |
| Playfield.CompactAfterShift | script.js:108-112 | shifting the rows above a full row down one, with a blank row entering at the top, removes that full row and does not change the compacted result |
| Playfield.ShiftDownRemovesFullRow | script.js:107-112 | a shift onto a full row does not change the compacted field and leaves one more non-full row |
| Playfield.ScanShiftsFullRow | script.js:106-112 | a shift keeps the line-clear scan's invariant at the same row and makes progress |
| Playfield.ScanEndsCleared | script.js:106-116 | when the scan has passed row 0, the field is the pre-clear field with full rows removed, the rest kept in order, and blank rows on top |
| Playfield.ClearBottomRowOnly | script.js:106-116 | when only the bottom row is full, clearing puts one blank row on top and moves every other visible row down one |
| Sequencer.RemoveAt | script.js:50 | splicing index k out shortens the list by one and shifts the entries after k left |
| Sequencer.RemoveAtTakesOneOut | script.js:50 | the splice removes exactly one copy of the name at index k |
| Sequencer.RemoveAtKeepsDistinct | script.js:50 | a list without repeats has none after the splice, and the spliced name is gone |
| Sequencer.Shuffle | script.js:48-52 | the splice-and-push loop produces as many names as the list held |
| Sequencer.ShuffleIsPermutation | script.js:48-52 | the pushed names are a permutation of the list |
| Sequencer.ShuffleKeepsMembers | script.js:48-52 | a name is pushed if and only if it was in the list |
| Sequencer.ShuffleKeepsDistinct | script.js:48-52 | a list without repeats is pushed without repeats |
| Sequencer.NamesListsEachOnce | script.js:47 | the refill list holds each of the seven names exactly once |
| Sequencer.Refill | script.js:46-53 | a refill holds seven names |
| Sequencer.RefillHoldsEveryNameOnce | script.js:46-53 | whatever the random indices, a refill holds every name exactly once |
| Sequencer.PopKeepsDistinct | script.js:55 | popping from a bag without repeats returns a name that is no longer in it |
| Sequencer.Draw | script.js:45-55 | a draw from a non-empty bag returns its last name and keeps the rest in order; from an empty bag it does the same to a fresh refill |
| Sequencer.DrawKeepsDistinct | script.js:45-55 | the bag stays free of repeats and shorter than seven, and the drawn name is not left in it |
| Sequencer.DrawMany | script.js:45-64 | a run of draws returns one name per draw |
| Sequencer.DrainBag | script.js:55 | drawing as many times as the bag holds returns its names last-first and empties it |
| Sequencer.SevenDrawsFromEmptyBag | script.js:45-55 | seven draws starting from an empty bag return one refill, last-first |
| Sequencer.FirstBlockFromEmptyBag | script.js:45-55 | from an empty bag, the first seven draws are one refill, last-first, and the draws after them start from an empty bag again |
| Sequencer.DrawsComeInBlocksOfSeven | script.js:45-55 | from an empty bag, draws 7c to 7c+6 are the c-th refill, last-first |
| Sequencer.EveryCycleOfSevenHoldsEachNameOnce | script.js:45-55 | from an empty bag, each block of draws 7c to 7c+6 holds each name exactly once |
| Rules.Spawn | script.js:55-63 | a new piece has the unturned template, row -1 for I and -2 otherwise, and column 4 for O and 3 for the rest |
| Rules.SpawnIsInBounds | script.js:58-63 | a spawned piece is inside the columns and above the floor, and its cells lie above row 0 for every piece but I |
| Rules.Initial | script.js:15-21 | the initial state satisfies the invariant, has every cell empty, the counter at zero and the game not over |
| Rules.Locked | script.js:93-118 | locking keeps the invariant: hidden rows empty, no full visible row, a bag without repeats, a piece in bounds |
| Rules.Moved | script.js:138-143 | a left or right request keeps the invariant |
| Rules.Rotated | script.js:145-150 | a rotate request keeps the invariant |
| Rules.Dropped | script.js:152-159 | a down request keeps the invariant |
| Rules.Ticked | script.js:177-186 | a frame keeps the invariant |
| Rules.TickedRun | script.js:177-186 | any run of frames, each with its own random source for a possible draw, keeps the invariant |
| Rules.FinishedGameIgnoresEverything | script.js:136 | once the game is over, no request and no frame changes the state |
| Rules.LockEndsGameIffTopsOut | script.js:94-99 | locking ends the game if and only if an occupied cell lies above row 0, and then only the flag changes |
| Rules.LockWritesThePieceThenClears | script.js:93-118 | without top-out, the name goes under exactly the piece's cells, the visible rows are then compacted, the next piece is the spawned next draw, and the flag and counter are unchanged |
| Rules.MoveBackUndoesMove | script.js:138-143 | an accepted move from a fitting position is undone by the opposite move |
| Rules.RequestsKeepThePieceFitting | script.js:138-150 | a move or rotate request either changes nothing or changes just that coordinate or matrix to one where the piece fits |
| Rules.BlockedDropLocksInPlace | script.js:152-159 | a down step moves the piece one row if it fits there and otherwise locks it at its current row |
| Rules.FramesUntilFall | script.js:177-186 | from counter c, 35 - c frames only count, whatever their random sources, and the next one is a down step with the counter reset that uses that frame's source |
| Rules.GravityEveryThirtySixthFrame | script.js:177-186 | from counter 0, 35 frames only count, whatever their random sources, and the 36th is exactly a down step using its own source |
| Engine.Game.constructor | script.js:15-42 | the new game's board is all empty (lines 15-21) and its state is the initial state: the first piece is the spawned first draw from an empty bag, with the counter at zero and the game not over (lines 39-42) |
| Engine.Game.Refill | script.js:46-53 | the splice-and-push loop fills the bag with the refill for the given indices |
| Engine.Game.NextTetromino | script.js:45-64 | the bag and piece become the draw and the spawned piece, and the counter and flag are unchanged |
| Engine.Game.IsValidMove | script.js:76-90 | the nested loop with early return answers true exactly when the matrix fits at the position |
| Engine.Game.Lock | script.js:94-103 | the write loop reports top-out exactly when an occupied cell is above row 0; the board is then unchanged and is otherwise the stamped grid |
| Engine.Game.LockRow | script.js:95-102 | one matrix row is either reported as a top-out before any write or written under all its occupied cells |
| Engine.Game.RowFull | script.js:107 | the board loop's full-row test agrees with `Full` on the grid row |
| Engine.Game.ShiftDown | script.js:108-112 | the shift loop gives each row from r up to 0 the contents of the row above it |
| Engine.Game.ClearLines | script.js:106-116 | the in-place scan turns the board into the cleared grid |
| Engine.Game.PlaceTetromino | script.js:93-118 | the state after placing is the locked state |
| Engine.Game.Move | script.js:229-244 | the state after a left or right request is the moved state |
| Engine.Game.RotatePiece | script.js:220-226 | the state after a rotate request is the rotated state |
| Engine.Game.SoftDrop | script.js:247-255 | the state after a down request is the dropped state |
| Engine.Game.Tick | script.js:177-186 | the state after a frame is the ticked state |
| Engine.Game.Fall | script.js:179-185 | the fall step moves the piece down one row, or moves it back and locks it, as a down step does |

## Left out

- Drawing on the canvas: the board, the piece, the colours, the pixel size and the game-over banner. These are presentation only.
- Event wiring and key-code decoding: both the keyboard handler and the buttons call the same bodies, modelled once as `Move`, `RotatePiece` and `SoftDrop`.
- Animation-frame scheduling: the source cancels the next frame on game over. The model expresses this as a `Tick` that does nothing once the game is over.
- The distribution of the random index: each index is an input, constrained only to lie within the list that is left.
- The service-worker registration and `sw.js`: these are cache and network I/O with no game logic.
- Engine.Game.Refill: fills a local sequence and assigns it to the empty bag, rather than pushing onto the bag field one name at a time. The resulting state is the same.
