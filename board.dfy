/**
 * The 20 x 10 playing field as a list of rows (row 0 at the top), the
 * legality test a move is checked with, the lock that writes a landed piece
 * into the field, and the line clear that removes full rows.
 */
module Board {
  import opened Pieces

  const ROWS: int := 20
  const COLS: int := 10

  const EMPTY: int := 0
  const PIECE: int := 1

  type Row = seq<int>
  type Grid = seq<Row>

  predicate IsCell(v: int) {
    v == EMPTY || v == PIECE
  }

  predicate ValidRow(row: Row) {
    |row| == COLS && forall c :: 0 <= c < |row| ==> IsCell(row[c])
  }

  /** Twenty rows of ten cells, each EMPTY or PIECE. */
  predicate ValidGrid(g: Grid) {
    |g| == ROWS && forall r :: 0 <= r < |g| ==> ValidRow(g[r])
  }

  /** A row every cell of which is settled. */
  predicate IsFull(row: Row) {
    forall c :: 0 <= c < |row| ==> row[c] == PIECE
  }

  function EmptyRow(): (row: Row)
    ensures ValidRow(row) && !IsFull(row)
    ensures forall c :: 0 <= c < COLS ==> row[c] == EMPTY
  {
    var row := seq(COLS, _ => EMPTY);
    assert row[0] != PIECE;
    row
  }

  function EmptyGrid(): (g: Grid)
    ensures ValidGrid(g)
    ensures forall r, c :: 0 <= r < ROWS && 0 <= c < COLS ==> g[r][c] == EMPTY
  {
    seq(ROWS, _ => EmptyRow())
  }

  // ---------------------------------------------------------------------------
  // Legality of a placement

  /**
   * A cell at column x, row y that a piece may not occupy: at or below the
   * floor, outside the side walls, or a settled cell. Rows above the top
   * (y < 0) are open.
   */
  predicate Blocked(g: Grid, x: int, y: int)
    requires ValidGrid(g)
  {
    y >= ROWS || x < 0 || x >= COLS || (y >= 0 && g[y][x] != EMPTY)
  }

  /** Piece p anchored at column x, row y occupies no blocked cell. */
  predicate Fits(g: Grid, p: Piece, x: int, y: int)
    requires ValidGrid(g)
  {
    forall i :: 0 <= i < |p| ==> !Blocked(g, p[i].0 + x, p[i].1 + y)
  }

  /** Every cell of p anchored at (x, y) is between the walls and above the floor. */
  predicate InBounds(p: Piece, x: int, y: int) {
    forall i :: 0 <= i < |p| ==> 0 <= p[i].0 + x < COLS && p[i].1 + y < ROWS
  }

  lemma FitsIsInBounds(g: Grid, p: Piece, x: int, y: int)
    requires ValidGrid(g) && Fits(g, p, x, y)
    ensures InBounds(p, x, y)
  {
  }

  /** Legality looks only at the cells the piece would cover: fields that agree there agree on it. */
  lemma FitsIsLocal(g: Grid, h: Grid, p: Piece, x: int, y: int)
    requires ValidGrid(g) && ValidGrid(h)
    requires forall i :: 0 <= i < |p| && 0 <= p[i].1 + y < ROWS && 0 <= p[i].0 + x < COLS ==>
               g[p[i].1 + y][p[i].0 + x] == h[p[i].1 + y][p[i].0 + x]
    ensures Fits(g, p, x, y) == Fits(h, p, x, y)
  {
  }

  /** Every catalogue shape at the spawn anchor (4, 0) is inside the walls and above the floor. */
  lemma SpawnInBounds(k: nat)
    requires k < |PIECES|
    ensures InBounds(PIECES[k], 4, 0) && |PIECES[k]| == 4
  {
    CatalogueShape(k);
  }

  // ---------------------------------------------------------------------------
  // Locking a landed piece

  /** Every cell of p anchored at row y is at row 0 or below. */
  predicate LockOk(p: Piece, y: int) {
    forall i :: 0 <= i < |p| ==> p[i].1 + y >= 0
  }

  /** How many cells the lock writes: the cells before the first one above the top row. */
  function LockPrefix(p: Piece, y: int): (n: nat)
    ensures n <= |p|
    ensures forall i :: 0 <= i < n ==> p[i].1 + y >= 0
    ensures n < |p| ==> p[n].1 + y < 0
  {
    if p == [] || p[0].1 + y < 0 then 0 else 1 + LockPrefix(p[1..], y)
  }

  /** One of the first n cells of p, anchored at (x, y), is at column c, row r. */
  predicate Covers(p: Piece, n: nat, x: int, y: int, c: int, r: int)
    requires n <= |p|
  {
    exists i :: 0 <= i < n && p[i].0 + x == c && p[i].1 + y == r
  }

  /**
   * The field after writing PIECE at the cells of p anchored at (x, y), in
   * list order, stopping at the first cell that lies above the top row.
   */
  function Lock(g: Grid, p: Piece, x: int, y: int): (h: Grid)
    requires ValidGrid(g) && InBounds(p, x, y)
    ensures ValidGrid(h)
    decreases |p|
  {
    if p == [] || p[0].1 + y < 0 then g
    else
      var r, c := p[0].1 + y, p[0].0 + x;
      Lock(g[r := g[r][c := PIECE]], p[1..], x, y)
  }

  /**
   * The lock sets exactly the cells covered by the written prefix of the
   * piece and leaves every other cell as it was; so it never clears a
   * settled cell.
   */
  lemma {:induction false} LockEffect(g: Grid, p: Piece, x: int, y: int)
    requires ValidGrid(g) && InBounds(p, x, y)
    ensures forall r, c :: 0 <= r < ROWS && 0 <= c < COLS ==>
              Lock(g, p, x, y)[r][c] == if Covers(p, LockPrefix(p, y), x, y, c, r) then PIECE else g[r][c]
    decreases |p|
  {
    if p != [] && p[0].1 + y >= 0 {
      var r0, c0 := p[0].1 + y, p[0].0 + x;
      var g' := g[r0 := g[r0][c0 := PIECE]];
      var n := LockPrefix(p, y);
      assert n == 1 + LockPrefix(p[1..], y);
      LockEffect(g', p[1..], x, y);
      forall r, c | 0 <= r < ROWS && 0 <= c < COLS
        ensures Lock(g, p, x, y)[r][c] == if Covers(p, n, x, y, c, r) then PIECE else g[r][c]
      {
        if Covers(p[1..], n - 1, x, y, c, r) {
          var i :| 0 <= i < n - 1 && p[1..][i].0 + x == c && p[1..][i].1 + y == r;
          assert p[i + 1].0 + x == c && p[i + 1].1 + y == r;
        } else if r == r0 && c == c0 {
          assert Covers(p, n, x, y, c, r) by {
            assert p[0].0 + x == c && p[0].1 + y == r;
          }
        }
      }
    } else {
      assert LockPrefix(p, y) == 0;
    }
  }

  /** A lock whose cells are all settled already leaves the field as it was. */
  lemma {:induction false} LockOnSettled(g: Grid, p: Piece, x: int, y: int)
    requires ValidGrid(g) && InBounds(p, x, y) && LockOk(p, y)
    requires forall i :: 0 <= i < |p| ==> g[p[i].1 + y][p[i].0 + x] == PIECE
    ensures Lock(g, p, x, y) == g
    decreases |p|
  {
    if p != [] {
      var r, c := p[0].1 + y, p[0].0 + x;
      assert g[r][c := PIECE] == g[r];
      assert g[r := g[r][c := PIECE]] == g;
      LockOnSettled(g, p[1..], x, y);
    }
  }

  // ---------------------------------------------------------------------------
  // Clearing full rows

  /** The rows that are not full, in their original top-to-bottom order. */
  function Kept(g: Grid): (k: Grid)
    ensures |k| <= |g|
  {
    if g == [] then [] else (if IsFull(g[0]) then [] else [g[0]]) + Kept(g[1..])
  }

  /** The number of full rows. */
  function FullCount(g: Grid): (n: nat)
    ensures n + |Kept(g)| == |g|
  {
    if g == [] then 0 else (if IsFull(g[0]) then 1 else 0) + FullCount(g[1..])
  }

  function EmptyRows(n: nat): (e: Grid)
    ensures |e| == n && forall i :: 0 <= i < n ==> e[i] == EmptyRow()
  {
    if n == 0 then [] else [EmptyRow()] + EmptyRows(n - 1)
  }

  lemma EmptyRowsGrow(k: nat, rest: Grid)
    ensures [EmptyRow()] + (EmptyRows(k) + rest) == EmptyRows(k + 1) + rest
  {
  }

  /**
   * The field after a line clear: as many empty rows on top as there were
   * full rows, then the other rows in their order. It keeps the shape of the
   * field and leaves no full row.
   */
  function Cleared(g: Grid): (h: Grid)
    ensures |h| == |g|
    ensures ValidGrid(g) ==> ValidGrid(h)
  {
    KeptRowsValid(g);
    EmptyRows(FullCount(g)) + Kept(g)
  }

  /** After a clear, the top rows are empty, one per removed row, and no row is full. */
  lemma ClearedShape(g: Grid)
    ensures forall i :: 0 <= i < FullCount(g) ==> Cleared(g)[i] == EmptyRow()
    ensures forall i :: 0 <= i < |g| ==> !IsFull(Cleared(g)[i])
  {
    KeptRowsValid(g);
  }

  /** The points a clear of n rows is worth: 2n - 1 when any row goes, nothing otherwise. */
  function LineScore(n: nat): (s: nat)
    ensures (s == 0) == (n == 0)
    ensures s >= n
  {
    if n > 0 then 2 * n - 1 else 0
  }

  /** Kept rows are not full, and they are well formed when the field's rows are. */
  lemma {:induction false} KeptRowsValid(g: Grid)
    ensures forall i :: 0 <= i < |Kept(g)| ==> !IsFull(Kept(g)[i])
    ensures (forall i :: 0 <= i < |g| ==> ValidRow(g[i])) ==>
              forall i :: 0 <= i < |Kept(g)| ==> ValidRow(Kept(g)[i])
  {
    if g != [] {
      KeptRowsValid(g[1..]);
    }
  }

  lemma {:induction false} KeptAppend(a: Grid, b: Grid)
    ensures Kept(a + b) == Kept(a) + Kept(b)
    ensures FullCount(a + b) == FullCount(a) + FullCount(b)
  {
    if a != [] {
      assert (a + b)[1..] == a[1..] + b;
      KeptAppend(a[1..], b);
    } else {
      assert a + b == b;
    }
  }

  /** A row survives the clear exactly when it is a row of the field that is not full. */
  lemma {:induction false} KeptIsFilter(g: Grid, row: Row)
    ensures row in Kept(g) <==> row in g && !IsFull(row)
  {
    if g != [] {
      KeptIsFilter(g[1..], row);
      assert row in g <==> row == g[0] || row in g[1..];
    }
  }

  /** A field without full rows is left as it is. */
  lemma {:induction false} ClearWithoutFullRows(g: Grid)
    requires FullCount(g) == 0
    ensures Cleared(g) == g
  {
    if g != [] {
      ClearWithoutFullRows(g[1..]);
      assert g == [g[0]] + g[1..];
    }
  }

  /**
   * Gravity compaction: a row that is not full moves down by the number of
   * full rows below it.
   */
  lemma ClearedRowFalls(g: Grid, i: nat)
    requires i < |g| && !IsFull(g[i])
    ensures i + FullCount(g[i + 1..]) < |g|
    ensures Cleared(g)[i + FullCount(g[i + 1..])] == g[i]
  {
    assert g == g[..i] + ([g[i]] + g[i + 1..]);
    KeptAppend(g[..i], [g[i]] + g[i + 1..]);
    KeptAppend([g[i]], g[i + 1..]);
    assert Kept([g[i]]) == [g[i]];
    assert FullCount([g[i]]) == 0;
    var k := |Kept(g[..i])|;
    assert Kept(g)[k] == g[i];
  }

  /** Two rows that survive a clear keep their relative order. */
  lemma ClearedKeepsOrder(g: Grid, i: nat, j: nat)
    requires i < j < |g| && !IsFull(g[i]) && !IsFull(g[j])
    ensures i + FullCount(g[i + 1..]) < j + FullCount(g[j + 1..])
  {
    var between := g[i + 1..j];
    assert g[i + 1..] == between + ([g[j]] + g[j + 1..]);
    KeptAppend(between, [g[j]] + g[j + 1..]);
    KeptAppend([g[j]], g[j + 1..]);
    assert FullCount([g[j]]) == 0;
  }

  // ---------------------------------------------------------------------------
  // The row indices a clear collects, and the steps of removing them

  /** Indices of the full rows among lo .. hi - 1, from the bottom up. */
  function FullRows(g: Grid, lo: int, hi: int): (ix: seq<int>)
    requires 0 <= lo && hi <= |g|
    decreases hi - lo
  {
    if hi <= lo then [] else (if IsFull(g[hi - 1]) then [hi - 1] else []) + FullRows(g, lo, hi - 1)
  }

  /**
   * The collected indices are exactly the full rows among lo .. hi - 1, each
   * once, in strictly decreasing order (bottom row first).
   */
  lemma {:induction false} FullRowsAreTheFullRows(g: Grid, lo: int, hi: int)
    requires 0 <= lo && hi <= |g|
    ensures forall i :: i in FullRows(g, lo, hi) <==> lo <= i < hi && IsFull(g[i])
    ensures forall a, b :: 0 <= a < b < |FullRows(g, lo, hi)| ==> FullRows(g, lo, hi)[a] > FullRows(g, lo, hi)[b]
    decreases hi - lo
  {
    if lo < hi {
      FullRowsAreTheFullRows(g, lo, hi - 1);
      var rest := FullRows(g, lo, hi - 1);
      forall b | 0 <= b < |rest|
        ensures rest[b] < hi - 1
      {
        assert rest[b] in rest;
      }
    }
  }

  /** Scanning one more row upwards appends that row's index when it is full. */
  lemma {:induction false} FullRowsGrowUp(g: Grid, lo: int, hi: int)
    requires 0 <= lo < hi <= |g|
    ensures FullRows(g, lo, hi) == FullRows(g, lo + 1, hi) + (if IsFull(g[lo]) then [lo] else [])
    decreases hi - lo
  {
    var top := if IsFull(g[hi - 1]) then [hi - 1] else [];
    var bottom := if IsFull(g[lo]) then [lo] else [];
    if lo + 1 < hi {
      calc {
        FullRows(g, lo, hi);
        top + FullRows(g, lo, hi - 1);
        { FullRowsGrowUp(g, lo, hi - 1); }
        top + (FullRows(g, lo + 1, hi - 1) + bottom);
        (top + FullRows(g, lo + 1, hi - 1)) + bottom;
        FullRows(g, lo + 1, hi) + bottom;
      }
    } else {
      assert FullRows(g, lo, hi) == bottom + [];
    }
  }

  lemma {:induction false} FullRowsCount(g: Grid, hi: int)
    requires 0 <= hi <= |g|
    ensures |FullRows(g, 0, hi)| == FullCount(g[..hi])
  {
    if hi > 0 {
      FullRowsCount(g, hi - 1);
      assert g[..hi] == g[..hi - 1] + [g[hi - 1]];
      KeptAppend(g[..hi - 1], [g[hi - 1]]);
    }
  }

  /** Kept of the rows from j on unfolds by one row: row j, when it is not full, then Kept of the rows after it. */
  lemma KeptFrom(g: Grid, j: int)
    requires 0 <= j < |g|
    ensures Kept(g[j..]) == (if IsFull(g[j]) then [] else [g[j]]) + Kept(g[j + 1..])
  {
    assert g[j..][1..] == g[j + 1..];
  }

  /** Rows lo .. hi - 1 that are all not full are kept as a block. */
  lemma {:induction false} KeptRun(g: Grid, lo: int, hi: int)
    requires 0 <= lo <= hi <= |g|
    requires forall j :: lo <= j < hi ==> !IsFull(g[j])
    ensures Kept(g[lo..]) == g[lo..hi] + Kept(g[hi..])
    decreases hi - lo
  {
    if lo < hi {
      calc {
        Kept(g[lo..]);
        { KeptFrom(g, lo); }
        [g[lo]] + Kept(g[lo + 1..]);
        { KeptRun(g, lo + 1, hi); }
        [g[lo]] + (g[lo + 1..hi] + Kept(g[hi..]));
        { assert g[lo..hi] == [g[lo]] + g[lo + 1..hi]; }
        g[lo..hi] + Kept(g[hi..]);
      }
    }
  }

  /**
   * The first index collected among rows 0 .. m - 1 is the lowest full row t;
   * the rest are those among rows 0 .. t - 1, and no row between t and m is full.
   */
  lemma {:induction false} PopLowestFull(g: Grid, m: int)
    requires 0 <= m <= |g| && FullRows(g, 0, m) != []
    ensures var t := FullRows(g, 0, m)[0];
      && 0 <= t < m && IsFull(g[t])
      && FullRows(g, 0, m)[1..] == FullRows(g, 0, t)
      && forall j :: t < j < m ==> !IsFull(g[j])
    decreases m
  {
    if IsFull(g[m - 1]) {
      assert FullRows(g, 0, m) == [m - 1] + FullRows(g, 0, m - 1);
    } else {
      assert FullRows(g, 0, m) == FullRows(g, 0, m - 1);
      PopLowestFull(g, m - 1);
    }
  }

  /** When no index is collected among rows 0 .. m - 1, none of them is full. */
  lemma {:induction false} NoFullAbove(g: Grid, m: int)
    requires 0 <= m <= |g| && FullRows(g, 0, m) == []
    ensures forall j :: 0 <= j < m ==> !IsFull(g[j])
    decreases m
  {
    if m > 0 {
      NoFullAbove(g, m - 1);
    }
  }

  /**
   * One pop of the line clear. While rows 0 .. m - 1 are untouched and the
   * rows below are already compacted, removing the next collected index t
   * leaves rows 0 .. t - 1 untouched and the rows below compacted.
   */
  lemma PopStep(g: Grid, m: int)
    requires 0 <= m <= |g| && FullRows(g, 0, m) != []
    ensures var t := FullRows(g, 0, m)[0];
      var cur := g[..m] + Kept(g[m..]);
      && 0 <= t < m
      && FullRows(g, 0, m)[1..] == FullRows(g, 0, t)
      && cur[..t] + cur[t + 1..] == g[..t] + Kept(g[t..])
  {
    var t := FullRows(g, 0, m)[0];
    var cur := g[..m] + Kept(g[m..]);
    PopLowestFull(g, m);
    assert cur[..t] == g[..t];
    assert cur[t + 1..] == g[t + 1..m] + Kept(g[m..]);
    calc {
      Kept(g[t..]);
      { KeptFrom(g, t); }
      Kept(g[t + 1..]);
      { KeptRun(g, t + 1, m); }
      g[t + 1..m] + Kept(g[m..]);
    }
  }

  /** When every collected index is popped, what is left is the kept rows. */
  lemma PopDone(g: Grid, m: int)
    requires 0 <= m <= |g| && FullRows(g, 0, m) == []
    ensures g[..m] + Kept(g[m..]) == Kept(g)
  {
    NoFullAbove(g, m);
    KeptRun(g, 0, m);
    assert g[0..] == g && g[0..m] == g[..m];
  }
}
