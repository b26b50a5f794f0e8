/**
 * The game as a pure state machine: the field, the falling piece, its
 * anchor and the score, and what one move, one gravity tick and one whole
 * step do to them. The class in module Engine performs these updates in
 * place and is proved to agree with the functions here.
 */
module Game {
  import opened Pieces
  import opened Board

  const DO_NOTHING: int := 0
  const MOVE_RIGHT: int := 1
  const MOVE_LEFT: int := 2
  const ROTATE_CW: int := 3
  const ROTATE_CCW: int := 4

  /** Where a new piece is anchored: column 4, row 0. */
  const SPAWN: (int, int) := (4, 0)

  /** pos is the anchor as (column, row). */
  datatype State = State(board: Grid, piece: Piece, pos: (int, int), score: int)

  /**
   * The invariant every reachable state keeps: a well-formed field holding
   * only EMPTY and PIECE, a falling piece whose cells are all between the
   * walls and above the floor (so the lock always writes inside the field),
   * and a score that is not negative.
   */
  predicate Valid(s: State) {
    ValidGrid(s.board) && InBounds(s.piece, s.pos.0, s.pos.1) && s.score >= 0
  }

  /** A fresh game: an empty field, no points, catalogue piece `next` at the spawn anchor. */
  function Init(next: nat): (s: State)
    requires next < |PIECES|
    ensures Valid(s) && s.score == 0 && s.pos == SPAWN && s.piece == PIECES[next]
    ensures forall r, c :: 0 <= r < ROWS && 0 <= c < COLS ==> s.board[r][c] == EMPTY
  {
    SpawnInBounds(next);
    State(EmptyGrid(), PIECES[next], SPAWN, 0)
  }

  /**
   * Try to shift the anchor by (dx, dy) and take on the offsets p: taken when
   * no resulting cell is blocked, otherwise nothing changes. The field and
   * the score are never touched.
   */
  function Move(s: State, dx: int, dy: int, p: Piece): (r: (State, bool))
    requires Valid(s)
    ensures Valid(r.0) && r.0.board == s.board && r.0.score == s.score
  {
    var x, y := s.pos.0 + dx, s.pos.1 + dy;
    if Fits(s.board, p, x, y) then
      FitsIsInBounds(s.board, p, x, y);
      (s.(piece := p, pos := (x, y)), true)
    else (s, false)
  }

  /**
   * The piece and anchor after the player's action, before gravity. No
   * action changes the field, the score, the row of the anchor or the size
   * of the piece.
   */
  function Act(s: State, action: int): (t: State)
    requires Valid(s)
    ensures Valid(t) && t.board == s.board && t.score == s.score
    ensures t.pos.1 == s.pos.1 && |t.piece| == |s.piece|
  {
    if action == MOVE_RIGHT then Move(s, 1, 0, s.piece).0
    else if action == MOVE_LEFT then Move(s, -1, 0, s.piece).0
    else if action == ROTATE_CW then Move(s, 0, 0, RotateCw(s.piece)).0
    else if action == ROTATE_CCW then Move(s, 0, 0, RotateCcw(s.piece)).0
    else s
  }

  /**
   * Gravity. The piece descends one row when it can. Otherwise it is locked
   * into the field; then the tick fails when some cell of the piece is above
   * the top row, and otherwise catalogue piece `next` appears at the spawn
   * anchor, whether or not it overlaps the field. Gravity never changes the
   * score.
   */
  function MoveDown(s: State, next: nat): (r: (State, bool))
    requires Valid(s) && next < |PIECES|
    ensures Valid(r.0) && r.0.score == s.score
  {
    var down := Move(s, 0, 1, s.piece);
    if down.1 then down
    else
      var b := Lock(s.board, s.piece, s.pos.0, s.pos.1);
      if LockOk(s.piece, s.pos.1) then
        SpawnInBounds(next);
        (State(b, PIECES[next], SPAWN, s.score), true)
      else (s.(board := b), false)
  }

  /**
   * One turn: the action, then gravity, then (unless gravity failed) a line
   * clear whose points are added to the score. The result reports whether
   * the game goes on; the score never goes down.
   */
  function Step(s: State, action: int, next: nat): (r: (State, bool))
    requires Valid(s) && next < |PIECES|
    ensures Valid(r.0) && r.0.score >= s.score
  {
    var (g, ok) := MoveDown(Act(s, action), next);
    if !ok then (g, false)
    else (g.(board := Cleared(g.board), score := g.score + LineScore(FullCount(g.board))), true)
  }

  /** Step composed from its parts: the action, gravity, and the clear when gravity succeeded. */
  lemma StepComposed(s: State, action: int, next: nat, g: State, ok: bool)
    requires Valid(s) && next < |PIECES|
    requires MoveDown(Act(s, action), next) == (g, ok)
    ensures Step(s, action, next) ==
      if ok then (g.(board := Cleared(g.board), score := g.score + LineScore(FullCount(g.board))), true)
      else (g, false)
  {
  }

  /**
   * A move fails exactly when some resulting cell is at or below the floor,
   * outside the walls, or on a settled cell; a failed move changes nothing
   * and a successful one takes the new anchor and offsets.
   */
  lemma MoveOutcome(s: State, dx: int, dy: int, p: Piece)
    requires Valid(s)
    ensures var (t, ok) := Move(s, dx, dy, p);
      && (!ok <==> exists i :: 0 <= i < |p| && Blocked(s.board, p[i].0 + s.pos.0 + dx, p[i].1 + s.pos.1 + dy))
      && (ok ==> t.piece == p && t.pos == (s.pos.0 + dx, s.pos.1 + dy))
      && (!ok ==> t == s)
  {
  }

  /** An action outside 1 .. 4, or a move or rotation that is not legal, leaves the state as it was. */
  lemma IgnoredActions(s: State, action: int)
    requires Valid(s)
    ensures var (x, y) := s.pos;
      && (!(MOVE_RIGHT <= action <= ROTATE_CCW) ==> Act(s, action) == s)
      && (action == MOVE_RIGHT && !Fits(s.board, s.piece, x + 1, y) ==> Act(s, action) == s)
      && (action == MOVE_LEFT && !Fits(s.board, s.piece, x - 1, y) ==> Act(s, action) == s)
      && (action == ROTATE_CW && !Fits(s.board, RotateCw(s.piece), x, y) ==> Act(s, action) == s)
      && (action == ROTATE_CCW && !Fits(s.board, RotateCcw(s.piece), x, y) ==> Act(s, action) == s)
  {
  }

  /**
   * What gravity does: a free piece descends one row; a blocked one is locked,
   * and the tick fails exactly when a cell of it is above the top row, in
   * which case piece and anchor stay; otherwise piece `next` is at the spawn.
   */
  lemma MoveDownOutcome(s: State, next: nat)
    requires Valid(s) && next < |PIECES|
    ensures var (t, ok) := MoveDown(s, next);
      var (x, y) := s.pos;
      && (Fits(s.board, s.piece, x, y + 1) ==> ok && t == s.(pos := (x, y + 1)))
      && (!Fits(s.board, s.piece, x, y + 1) ==>
            t.board == Lock(s.board, s.piece, x, y)
            && (ok <==> LockOk(s.piece, y))
            && (ok ==> t.pos == SPAWN && t.piece == PIECES[next]))
      && (!ok ==> t.piece == s.piece && t.pos == s.pos)
  {
  }

  /** Gravity never clears a settled cell. */
  lemma GravityKeepsSettled(s: State, next: nat)
    requires Valid(s) && next < |PIECES|
    ensures forall r, c :: 0 <= r < ROWS && 0 <= c < COLS && s.board[r][c] == PIECE ==>
              MoveDown(s, next).0.board[r][c] == PIECE
  {
    if !Fits(s.board, s.piece, s.pos.0, s.pos.1 + 1) {
      LockEffect(s.board, s.piece, s.pos.0, s.pos.1);
    }
  }

  /**
   * A turn fails exactly when gravity does, and then the score is unchanged;
   * a turn that goes on adds 2n - 1 points for n cleared rows (none for
   * none) and leaves no full row.
   */
  lemma StepOutcome(s: State, action: int, next: nat)
    requires Valid(s) && next < |PIECES|
    ensures var (t, ok) := Step(s, action, next);
      var (g, down) := MoveDown(Act(s, action), next);
      var n := FullCount(g.board);
      && ok == down
      && (!ok ==> t == g && t.score == s.score)
      && (ok ==> t.board == Cleared(g.board) && t.piece == g.piece && t.pos == g.pos)
      && (ok ==> t.score == s.score + (if n > 0 then 2 * n - 1 else 0))
      && (ok ==> forall i :: 0 <= i < ROWS ==> !IsFull(t.board[i]))
  {
    ClearedShape(MoveDown(Act(s, action), next).0.board);
  }

  /** An action outside 0 .. 4 behaves like DO_NOTHING. */
  lemma UnknownActionIsNoOp(s: State, action: int, next: nat)
    requires Valid(s) && next < |PIECES|
    requires !(DO_NOTHING <= action <= ROTATE_CCW)
    ensures Step(s, action, next) == Step(s, DO_NOTHING, next)
  {
  }

  /**
   * On a field without full rows, a DO_NOTHING turn with room below moves the
   * piece straight down one row and changes nothing else.
   */
  lemma FallsStraightDown(s: State, next: nat)
    requires Valid(s) && next < |PIECES| && FullCount(s.board) == 0
    requires Fits(s.board, s.piece, s.pos.0, s.pos.1 + 1)
    ensures Step(s, DO_NOTHING, next) == (s.(pos := (s.pos.0, s.pos.1 + 1)), true)
  {
    ClearWithoutFullRows(s.board);
  }

  /** A piece of four cells stays a piece of four cells, turn after turn. */
  lemma StepKeepsFourCells(s: State, action: int, next: nat)
    requires Valid(s) && next < |PIECES| && |s.piece| == 4
    ensures |Step(s, action, next).0.piece| == 4
  {
    SpawnInBounds(next);
  }

  /**
   * Game over: when the piece can neither descend nor lock (a cell above the
   * top row), the turn fails, the score stays, and no new piece is drawn.
   */
  lemma GameOver(s: State, action: int, next: nat)
    requires Valid(s) && next < |PIECES|
    requires var a := Act(s, action);
      !Fits(a.board, a.piece, a.pos.0, a.pos.1 + 1) && !LockOk(a.piece, a.pos.1)
    ensures var (t, ok) := Step(s, action, next);
      !ok && t.score == s.score && t.piece == Act(s, action).piece && t.pos == Act(s, action).pos
  {
  }

  /**
   * Game over is only detected by a cell above the top row, never by a spawn
   * onto settled cells. A piece at the spawn anchor that cannot descend and
   * whose cells all lie on settled cells inside the field (on a field without
   * full rows) is locked onto those same cells, and a DO_NOTHING turn reports
   * that the game goes on with field, anchor and score unchanged. When the
   * shape drawn is the one that was stuck, the turn returns exactly the state
   * it started from, so the game can go on forever without scoring.
   */
  lemma StuckSpawnNeverEnds(s: State, next: nat)
    requires Valid(s) && next < |PIECES| && FullCount(s.board) == 0
    requires s.pos == SPAWN
    requires !Fits(s.board, s.piece, SPAWN.0, SPAWN.1 + 1) && LockOk(s.piece, SPAWN.1)
    requires forall i :: 0 <= i < |s.piece| ==> s.board[s.piece[i].1 + SPAWN.1][s.piece[i].0 + SPAWN.0] == PIECE
    ensures Step(s, DO_NOTHING, next) == (s.(piece := PIECES[next]), true)
  {
    LockOnSettled(s.board, s.piece, SPAWN.0, SPAWN.1);
    var t := s.(piece := PIECES[next]);
    assert MoveDown(s, next) == (t, true);
    StepComposed(s, DO_NOTHING, next, t, true);
    ClearWithoutFullRows(s.board);
  }
}
