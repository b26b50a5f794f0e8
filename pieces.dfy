/**
 * The tetromino catalogue and the two quarter-turn rotations.
 * A piece is a list of four (x, y) offsets from its anchor; x grows to the
 * right and y grows downwards, so row 0 is the top of the board.
 */
module Pieces {

  type Offset = (int, int)
  type Piece = seq<Offset>

  /** The seven shapes, in catalogue order: I, O (square), L, J, S, Z, T. */
  const PIECES: seq<Piece> := [
    [(0, 0), (0, 1), (0, 2), (0, -1)],
    [(0, 0), (0, 1), (1, 0), (1, 1)],
    [(0, 0), (0, 1), (0, 2), (1, 0)],
    [(0, 0), (0, 1), (0, 2), (-1, 0)],
    [(0, 0), (0, 1), (1, 0), (1, -1)],
    [(0, 0), (0, 1), (-1, 0), (-1, -1)],
    [(0, 0), (0, 1), (1, 0), (-1, 0)]
  ]

  /** Every catalogue shape has four cells, its anchor cell first, and offsets within one column of the anchor. */
  lemma CatalogueShape(k: nat)
    requires k < |PIECES|
    ensures |PIECES[k]| == 4 && PIECES[k][0] == (0, 0)
    ensures forall i :: 0 <= i < 4 ==> -1 <= PIECES[k][i].0 <= 1 && -1 <= PIECES[k][i].1 <= 2
  {
  }

  /** Clockwise quarter turn: each offset (x, y) becomes (y, -x); order and length are kept. */
  function RotateCw(p: Piece): (r: Piece)
    ensures |r| == |p|
    ensures forall i :: 0 <= i < |p| ==> r[i] == (p[i].1, -p[i].0)
  {
    if p == [] then [] else [(p[0].1, -p[0].0)] + RotateCw(p[1..])
  }

  /** Counter-clockwise quarter turn: each offset (x, y) becomes (-y, x); order and length are kept. */
  function RotateCcw(p: Piece): (r: Piece)
    ensures |r| == |p|
    ensures forall i :: 0 <= i < |p| ==> r[i] == (-p[i].1, p[i].0)
  {
    if p == [] then [] else [(-p[0].1, p[0].0)] + RotateCcw(p[1..])
  }

  /** Turning one way and then back gives the original offsets. */
  lemma {:induction false} RotateCcwUndoesCw(p: Piece)
    ensures RotateCcw(RotateCw(p)) == p
    ensures RotateCw(RotateCcw(p)) == p
  {
    if p != [] {
      RotateCcwUndoesCw(p[1..]);
      assert RotateCw(p)[1..] == RotateCw(p[1..]);
      assert RotateCcw(p)[1..] == RotateCcw(p[1..]);
    }
  }

  /** Four clockwise turns are the identity, and three clockwise turns are one counter-clockwise turn. */
  lemma {:induction false} RotateCwOrderFour(p: Piece)
    ensures RotateCw(RotateCw(RotateCw(RotateCw(p)))) == p
    ensures RotateCw(RotateCw(RotateCw(p))) == RotateCcw(p)
  {
    if p != [] {
      RotateCwOrderFour(p[1..]);
      assert RotateCw(p)[1..] == RotateCw(p[1..]);
      assert RotateCw(RotateCw(p))[1..] == RotateCw(RotateCw(p[1..]));
      assert RotateCw(RotateCw(RotateCw(p)))[1..] == RotateCw(RotateCw(RotateCw(p[1..])));
    }
  }
}
