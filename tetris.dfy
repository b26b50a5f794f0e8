/**
 * The engine object: the field, the falling piece, its anchor and the score
 * as fields that the methods update in place. Each method is proved to
 * perform exactly the transition that module Game defines, so the invariant
 * and the lemmas proved there hold of the object.
 *
 * The piece a spawn draws at random is passed in by the caller as an index
 * `next` into the catalogue.
 */
module Engine {
  import opened Pieces
  import opened Board
  import Game

  class Tetris {
    var board: Grid
    var score: int
    var piece: Piece
    var pos: (int, int)

    /** The object's fields as a value of the state machine. */
    function AsState(): Game.State
      reads this
    {
      Game.State(board, piece, pos, score)
    }

    ghost predicate Valid()
      reads this
    {
      Game.Valid(AsState())
    }

    constructor (next: nat)
      requires next < |PIECES|
      ensures Valid() && AsState() == Game.Init(next)
    {
      board := EmptyGrid();
      score := 0;
      piece := PIECES[next];
      pos := Game.SPAWN;
      SpawnInBounds(next);
    }

    method Reset(next: nat)
      requires next < |PIECES|
      modifies this
      ensures Valid() && AsState() == Game.Init(next)
    {
      board := EmptyGrid();
      score := 0;
      piece := PIECES[next];
      pos := Game.SPAWN;
      SpawnInBounds(next);
    }

    /** Commit anchor pos + (dx, dy) and offsets p if no cell of the result is blocked. */
    method Move(dx: int, dy: int, p: Piece) returns (ok: bool)
      requires Valid()
      modifies this
      ensures (AsState(), ok) == Game.Move(old(AsState()), dx, dy, p)
      ensures Valid()
    {
      var x, y := pos.0, pos.1;
      for i := 0 to |p|
        invariant forall j :: 0 <= j < i ==> !Blocked(board, p[j].0 + x + dx, p[j].1 + y + dy)
      {
        var ry := p[i].1 + y + dy;
        var rx := p[i].0 + x + dx;
        if ry >= ROWS || rx < 0 || rx >= COLS || (ry >= 0 && board[ry][rx] != EMPTY) {
          return false;
        }
      }
      piece := p;
      pos := (x + dx, y + dy);
      ok := true;
    }

    /** One row of gravity; on landing, lock the piece and spawn catalogue piece `next`. */
    method MoveDown(next: nat) returns (ok: bool)
      requires Valid() && next < |PIECES|
      modifies this
      ensures (AsState(), ok) == Game.MoveDown(old(AsState()), next)
      ensures Valid()
    {
      ghost var start := AsState();
      Game.MoveOutcome(start, 0, 1, piece);
      ok := Move(0, 1, piece);
      if ok {
        return;
      }
      var b, locked := LockCells(board, piece, pos.0, pos.1);
      board := b;
      if !locked {
        return false;
      }
      pos := Game.SPAWN;
      piece := PIECES[next];
      SpawnInBounds(next);
      ok := true;
    }

    /**
     * Remove every full row and put as many empty rows on top; answer the
     * points: 2n - 1 for n removed rows, nothing when none.
     */
    method ClearLines() returns (gained: int)
      requires Valid()
      modifies this`board
      ensures board == Cleared(old(board))
      ensures gained == LineScore(FullCount(old(board)))
      ensures Valid()
    {
      var toClear := CollectFullRows(board);
      var kept := PopRows(board, toClear);
      FullRowsCount(board, ROWS);
      assert board[..ROWS] == board;
      board := PushEmptyRows(kept, |toClear|);
      if |toClear| > 0 {
        gained := 2 * |toClear| - 1;
      } else {
        gained := 0;
      }
    }

    /**
     * The player's action: shift right or left, or turn, when the result is
     * legal; DO_NOTHING and any other number leave the piece where it is.
     */
    method Act(action: int)
      requires Valid()
      modifies this
      ensures AsState() == Game.Act(old(AsState()), action)
      ensures Valid()
    {
      if action == Game.DO_NOTHING {
      } else if action == Game.MOVE_RIGHT {
        var _ := Move(1, 0, piece);
      } else if action == Game.MOVE_LEFT {
        var _ := Move(-1, 0, piece);
      } else if action == Game.ROTATE_CW {
        var _ := Move(0, 0, RotateCw(piece));
      } else if action == Game.ROTATE_CCW {
        var _ := Move(0, 0, RotateCcw(piece));
      }
    }

    /**
     * One turn: the action, gravity, and when the game goes on the line clear
     * and its points. Answers false at game over.
     */
    method Step(action: int, next: nat) returns (ok: bool)
      requires Valid() && next < |PIECES|
      modifies this
      ensures (AsState(), ok) == Game.Step(old(AsState()), action, next)
      ensures Valid()
    {
      ghost var start := AsState();
      Act(action);
      ok := MoveDown(next);
      ghost var landed := AsState();
      Game.StepComposed(start, action, next, landed, ok);
      if !ok {
        return;
      }
      var gained := ClearLines();
      score := score + gained;
    }
  }


  /**
   * Write PIECE at the cells of p anchored at (x, y), in list order; stop and
   * answer false at the first cell above the top row, keeping the cells
   * already written.
   */
  method LockCells(g: Grid, p: Piece, x: int, y: int) returns (h: Grid, ok: bool)
    requires ValidGrid(g) && InBounds(p, x, y)
    ensures h == Lock(g, p, x, y) && ok == LockOk(p, y)
  {
    h := g;
    for i := 0 to |p|
      invariant ValidGrid(h) && InBounds(p[i..], x, y)
      invariant Lock(g, p, x, y) == Lock(h, p[i..], x, y)
      invariant LockOk(p[..i], y)
    {
      var ry := p[i].1 + y;
      var rx := p[i].0 + x;
      if ry < 0 {
        return h, false;
      }
      assert p[i..][1..] == p[i + 1..];
      assert p[..i + 1] == p[..i] + [p[i]];
      h := h[ry := h[ry][rx := PIECE]];
    }
    assert p[..|p|] == p;
    ok := true;
  }

  /** The indices of the full rows, scanned from the bottom row up to the top one. */
  method CollectFullRows(rows: Grid) returns (toClear: seq<int>)
    requires |rows| == ROWS
    ensures toClear == FullRows(rows, 0, ROWS)
  {
    toClear := [];
    for i := ROWS downto 0
      invariant toClear == FullRows(rows, i, ROWS)
    {
      FullRowsGrowUp(rows, i, ROWS);
      if IsFull(rows[i]) {
        toClear := toClear + [i];
      }
    }
  }

  /**
   * Remove the collected rows one at a time, the lowest first, so that the
   * indices still to be removed keep pointing at the same rows.
   */
  method PopRows(rows: Grid, toClear: seq<int>) returns (kept: Grid)
    requires |rows| == ROWS && toClear == FullRows(rows, 0, ROWS)
    ensures kept == Kept(rows)
  {
    kept := rows;
    ghost var m := ROWS;
    assert kept == rows[..m] + Kept(rows[m..]);
    for k := 0 to |toClear|
      invariant 0 <= m <= ROWS
      invariant toClear[k..] == FullRows(rows, 0, m)
      invariant kept == rows[..m] + Kept(rows[m..])
    {
      PopStep(rows, m);
      assert toClear[k] == FullRows(rows, 0, m)[0];
      var t := toClear[k];
      assert toClear[k + 1..] == FullRows(rows, 0, t);
      kept := kept[..t] + kept[t + 1..];
      m := t;
    }
    PopDone(rows, m);
  }

  /** Put n empty rows on top of the kept rows. */
  method PushEmptyRows(kept: Grid, n: nat) returns (rows: Grid)
    ensures rows == EmptyRows(n) + kept
  {
    rows := kept;
    for k := 0 to n
      invariant rows == EmptyRows(k) + kept
    {
      EmptyRowsGrow(k, kept);
      rows := [EmptyRow()] + rows;
    }
  }
}
