# A verified model of the rl-tetris game engine

The model covers the engine in `tetris.py`: the seven-piece catalogue, the two quarter-turn
rotations, and the `Tetris` object. That object holds a 20 x 10 field of `EMPTY`/`PIECE`
cells, the falling piece with its anchor, and the score. It supports five operations:

- `move`: a legal shift or turn;
- `move_down`: gravity, lock, respawn and game over;
- `clear_lines`: remove the full rows and refill from the top, scoring 2n - 1 for n rows;
- `step`: one turn, the action, then gravity, then the clear;
- reset.

The Dafny project has four modules:

- `Pieces` (`pieces.dfy`): the catalogue and the rotations, as functions on sequences of offsets.
- `Board` (`board.dfy`): the field as a sequence of rows, with these parts:
  - the legality test (`Blocked`, `Fits`);
  - the lock, as a function `Lock` that writes the piece's cells in list order and stops at the first cell above the top row;
  - the line clear, as a function `Cleared` equal to "empty rows on top of the rows that are not full";
  - the lemmas about all three.
- `Game` (`game.dfy`): the engine as a pure state machine over `State(board, piece, pos, score)`, with these parts:
  - the invariant `Valid`: cells are only `EMPTY`/`PIECE`, and every cell of the falling piece lies between the walls and above the floor;
  - one function per operation;
  - the lemmas that say what a move, a gravity tick and a turn do.
- `Engine` (`tetris.dfy`): class `Tetris`. Its fields `board`, `piece`, `pos` and `score` are updated by methods with loops, following the Python code:
  - the legality loop of `move`;
  - the lock loop of `move_down`;
  - the collect, pop and insert loops of `clear_lines`.

  Each method is proved to perform exactly the transition the `Game` function defines: `(AsState(), ok) == Game.Step(old(AsState()), action, next)`. Everything proved in `Game` therefore holds of the object.

Three behaviours of `tetris.py` are worth spelling out:

- `step` answers a single `bool` ("the game goes on"); tetris_env.py:29 unpacks a (reward, terminated) pair that tetris.py never returns.
- A clear of n rows adds 2n - 1 points.
- Game over is detected only when a locking cell lies above the top row. A freshly spawned piece is never checked for overlap. `Game.StuckSpawnNeverEnds` shows the consequence: a shape stuck on settled cells at the spawn can be locked and respawned forever without ending the game.

## Model

| member | source | states |
|---|---|---|
| Pieces.CatalogueShape | tetris.py:16-24 | every catalogue shape has four cells, the anchor cell (0, 0) first, columns within one of the anchor and rows between -1 and 2 |
| Pieces.RotateCw | tetris.py:26-30 | the clockwise turn maps each offset (x, y) to (y, -x), keeping the order and the number of cells |
| Pieces.RotateCcw | tetris.py:32-36 | the counter-clockwise turn maps each offset (x, y) to (-y, x), keeping the order and the number of cells |
| Pieces.RotateCcwUndoesCw | tetris.py:26-36 | the two turns are inverse to each other, in both orders |
| Pieces.RotateCwOrderFour | tetris.py:26-36 | four clockwise turns give back the piece; three equal one counter-clockwise turn |
| Board.EmptyRow | tetris.py:93-94 | an inserted row has ten EMPTY cells and is not full |
| Board.EmptyGrid | tetris.py:40 | the fresh field is 20 rows of 10 EMPTY cells |
| Board.FitsIsInBounds | tetris.py:55-57 | a placement that passes the legality test lies between the walls and above the floor |
| Board.FitsIsLocal | tetris.py:55-57 | legality depends only on the field cells the piece would cover |
| Board.SpawnInBounds | tetris.py:42-43 | every catalogue shape at the spawn anchor (4, 0) lies between the walls and above the floor |
| Board.LockPrefix | tetris.py:69-76 | the lock writes the cells before the first cell above the top row: all of them have row >= 0, and the next one, if any, does not |
| Board.Lock | tetris.py:69-76 | writing a landed piece keeps the field 20 x 10 with only EMPTY/PIECE cells |
| Board.LockEffect | tetris.py:69-76 | after the lock, a cell is PIECE exactly when it is covered by the written prefix of the piece, and otherwise it keeps its old value |
| Board.LockOnSettled | tetris.py:69-76 | locking a piece whose cells are all settled already leaves the field unchanged |
| Board.Kept | tetris.py:90-91 | the rows that survive are at most as many as the field's rows |
| Board.FullCount | tetris.py:85-88 | the full rows and the surviving rows together make up the field |
| Board.EmptyRows | tetris.py:93-94 | n inserted rows are n empty rows |
| Board.Cleared | tetris.py:84-94 | a clear keeps the number of rows and keeps a 20 x 10 field of EMPTY/PIECE cells |
| Board.ClearedShape | tetris.py:84-94 | after a clear, the top n rows are empty (n the number of full rows) and no row is full |
| Board.KeptRowsValid | tetris.py:90-91 | surviving rows are not full, and stay well formed |
| Board.KeptIsFilter | tetris.py:85-91 | a row survives exactly when it is a row of the field and not full |
| Board.ClearWithoutFullRows | tetris.py:84-94 | a field without full rows is left as it was |
| Board.ClearedRowFalls | tetris.py:84-94 | a row that is not full moves down by the number of full rows below it |
| Board.ClearedKeepsOrder | tetris.py:84-94 | two surviving rows keep their relative order |
| Board.LineScore | tetris.py:96-98 | the points are zero exactly when no row is cleared, and at least the number of rows cleared |
| Board.FullRowsAreTheFullRows | tetris.py:85-88 | the collected indices are exactly the full rows, each once, in strictly decreasing order (bottom first) |
| Board.PopStep | tetris.py:90-91 | popping the next collected index (the lowest remaining full row) keeps the rows above it and compacts the rows below it |
| Board.PopDone | tetris.py:90-91 | once every collected index is popped, what remains is the surviving rows in order |
| Game.Init | tetris.py:39-49 | a new game has an empty field, score 0, and the drawn shape at the spawn anchor (4, 0); it satisfies the invariant |
| Game.Move | tetris.py:51-62 | a move keeps the invariant and never changes the field or the score |
| Game.MoveOutcome | tetris.py:51-62 | a move fails exactly when some resulting cell is at or below the floor, outside the walls, or on a non-EMPTY cell in the field; a failed move changes nothing, and a successful one commits the shifted anchor and the given offsets |
| Game.Act | tetris.py:101-111 | the action keeps the invariant and never changes the field, the score, the anchor's row or the number of cells |
| Game.IgnoredActions | tetris.py:101-111 | an action outside 1..4, or a shift or turn that is not legal, leaves the state as it was |
| Game.MoveDown | tetris.py:64-81 | gravity keeps the invariant and never changes the score |
| Game.MoveDownOutcome | tetris.py:64-81 | a free piece descends one row; a blocked one is locked; the tick fails exactly when a cell is above the top row, keeping piece and anchor; otherwise the drawn shape is at (4, 0) |
| Game.GravityKeepsSettled | tetris.py:64-81 | gravity never clears a settled cell |
| Game.Step | tetris.py:100-115 | a turn keeps the invariant and the score never decreases |
| Game.StepOutcome | tetris.py:100-115 | a turn fails exactly when gravity does, and then the score is unchanged; otherwise the field is cleared, 2n - 1 points are added for n rows (none for none), and no row is full |
| Game.UnknownActionIsNoOp | tetris.py:100-115 | an action number outside 0..4 behaves like DO_NOTHING |
| Game.FallsStraightDown | tetris.py:100-115 | on a field without full rows, a DO_NOTHING turn with room below moves the piece down one row and changes nothing else |
| Game.StepKeepsFourCells | tetris.py:100-115 | a four-cell piece remains a four-cell piece turn after turn |
| Game.GameOver | tetris.py:71-74 | when the piece can neither descend nor lock, the turn fails, the score stays, and no new piece is drawn |
| Game.StuckSpawnNeverEnds | tetris.py:77-81 | a piece at the spawn that cannot descend and lies on settled cells is relocked without change, and the turn goes on without scoring |
| Engine.Tetris.constructor | tetris.py:39-43 | a new object is the initial game state with the drawn shape |
| Engine.Tetris.Reset | tetris.py:45-49 | reset puts the object into the initial game state with the drawn shape |
| Engine.Tetris.Move | tetris.py:51-62 | the legality loop and commit perform exactly `Game.Move` and keep the invariant |
| Engine.Tetris.MoveDown | tetris.py:64-81 | gravity on the object performs exactly `Game.MoveDown` and keeps the invariant |
| Engine.Tetris.ClearLines | tetris.py:84-98 | the field becomes `Cleared` of the old field and the answer is 2n - 1 points for n full rows (0 for none); the invariant is kept |
| Engine.Tetris.Act | tetris.py:101-111 | the action dispatch performs exactly `Game.Act` |
| Engine.Tetris.Step | tetris.py:100-115 | a turn on the object performs exactly `Game.Step` and keeps the invariant |
| Engine.LockCells | tetris.py:69-76 | the lock loop produces `Lock` of the field and answers whether every cell was at row 0 or below |
| Engine.CollectFullRows | tetris.py:85-88 | the scan from row 19 up to row 0 collects `FullRows`, the indices of the full rows, bottom first |
| Engine.PopRows | tetris.py:90-91 | popping the collected indices in order leaves exactly the surviving rows, in order |
| Engine.PushEmptyRows | tetris.py:93-94 | inserting n empty rows at the top gives n empty rows followed by the surviving rows |

## Left out

- `Tetris.draw` (tetris.py:117-140) and the `__main__` loop (tetris.py:143-151): OpenCV rendering, keyboard polling, `input()` and `exit` are I/O.
- The random draw `choice(PIECES)` (tetris.py:42, 48, 79): the model takes the drawn shape as a caller-supplied catalogue index `next` in 0..6 (`Game.Init`, `Game.MoveDown`, `Game.Step` and the matching `Engine` members). Seeding and the uniform distribution are not modelled.
- `tetris_env.py`, `train.py` and `evaluate.py` are not part of this model. They are gymnasium and stable-baselines3 glue, with a floating-point reward offset and learning-rate schedule.
- Reward shaping, hole counting, stack height and the observation overlay are not modelled, because `tetris.py` does not implement them.
- `MOVING` is declared (tetris.py:7) but never used by tetris.py, so the model does not declare it.
- Update in place: the Python loops change `self.board` and its row lists directly. The `Engine` methods run the same loops on a local sequence of rows (`LockCells`, `CollectFullRows`, `PopRows`, `PushEmptyRows`) and assign the `board` field once. The rows are never shared between fields or objects, so no aliasing is lost, but the partially updated field is never observable between iterations.
- `Engine.Tetris.Act`: `step` dispatches the action inline, while the model puts that dispatch into a method of its own. The order of effects is unchanged.
- Python's integers are unbounded, and so are the model's. No width or overflow applies.
