/**
 * The playfield of the game: ROWS rows of COLS cells, 0 for an empty cell and
 * 1..7 for a block of the piece kind with that colour. This module holds the
 * board as a value and what the game computes from it: whether a piece placed
 * at an offset collides, the board after a piece is merged into it, and the
 * bottom-to-top line sweep.
 */
module Board {
  const ROWS: nat := 20
  const COLS: nat := 12

  /** A board or a piece matrix, row by row. */
  type Grid = seq<seq<int>>

  /** A JavaScript property read: `undefined` or a value. */
  datatype Option<T> = None | Some(value: T)

  /** `g` has `rows` rows of `cols` cells each. */
  predicate IsRect(g: Grid, rows: nat, cols: nat) {
    |g| == rows && forall r | 0 <= r < |g| :: |g[r]| == cols
  }

  /** A grid of empty cells. */
  function Zeros(rows: nat, cols: nat): Grid {
    seq(rows, _ => seq(cols, _ => 0))
  }

  /** The two-dimensional array `m` holds `g`: the same shape and the same cell at every index. */
  ghost predicate Holds(m: array2<int>, g: Grid)
    reads m
  {
    IsRect(g, m.Length0, m.Length1) &&
    forall i, j | 0 <= i < m.Length0 && 0 <= j < m.Length1 :: m[i, j] == g[i][j]
  }

  /** `createMatrix(rows, cols)`: pushes `rows` zero-filled rows. */
  method CreateMatrix(rows: nat, cols: nat) returns (m: Grid)
    ensures IsRect(m, rows, cols)
    ensures forall r, c | 0 <= r < rows && 0 <= c < cols :: m[r][c] == 0
  {
    m := [];
    var left := rows;
    while left > 0
      invariant 0 <= left <= rows
      invariant IsRect(m, rows - left, cols)
      invariant forall r, c | 0 <= r < |m| && 0 <= c < cols :: m[r][c] == 0
    {
      left := left - 1;
      m := m + [seq(cols, _ => 0)];
    }
  }

  /** The board with every row kept at its length and holding only zeros. */
  function Cleared(b: Grid): (b': Grid)
    ensures |b'| == |b| && forall r | 0 <= r < |b| :: |b'[r]| == |b[r]|
  {
    seq(|b|, r requires 0 <= r < |b| => seq(|b[r]|, _ => 0))
  }

  /** Clearing a rectangular board gives the empty board of its shape. */
  lemma ClearedRect(b: Grid, rows: nat, cols: nat)
    requires IsRect(b, rows, cols)
    ensures Cleared(b) == Zeros(rows, cols)
  {
    assert forall r | 0 <= r < rows :: Cleared(b)[r] == Zeros(rows, cols)[r];
  }

  /** `arena.forEach(row => row.fill(0))`, row by row. */
  method Clear(b: Grid) returns (b': Grid)
    ensures b' == Cleared(b)
    ensures forall r, c | 0 <= r < |b'| && 0 <= c < |b'[r]| :: b'[r][c] == 0
  {
    b' := b;
    for r := 0 to |b|
      invariant |b'| == |b|
      invariant forall r' | 0 <= r' < |b| :: b'[r'] == if r' < r then seq(|b[r']|, _ => 0) else b[r']
    {
      b' := b'[r := seq(|b'[r]|, _ => 0)];
    }
    assert forall r | 0 <= r < |b| :: b'[r] == Cleared(b)[r];
  }

  // ---------------------------------------------------------------------
  // Collision
  // ---------------------------------------------------------------------

  /** What `b[r] && b[r][c]` evaluates to: the cell, or `undefined` off the board. */
  function Lookup(b: Grid, r: int, c: int): Option<int> {
    if 0 <= r < |b| && 0 <= c < |b[r]| then Some(b[r][c]) else None
  }

  /**
   * A block of `g` placed with its top-left corner at column `x`, row `y`
   * meets a board cell that is not a literal 0; `undefined !== 0`, so a block
   * off the board, in any direction, collides.
   */
  predicate Collides(b: Grid, g: Grid, x: int, y: int) {
    exists i, j | 0 <= i < |g| && 0 <= j < |g[i]| :: g[i][j] != 0 && Lookup(b, y + i, x + j) != Some(0)
  }

  /** Every block of `g` placed at (x, y) lies on the board. */
  predicate OnBoard(b: Grid, g: Grid, x: int, y: int) {
    forall i, j | 0 <= i < |g| && 0 <= j < |g[i]| ::
      g[i][j] != 0 ==> 0 <= y + i < |b| && 0 <= x + j < |b[y + i]|
  }

  /** `collide(arena, player)`: scans the piece row by row and stops at the first clash. */
  method Collide(b: Grid, m: array2<int>, ghost g: Grid, x: int, y: int) returns (hit: bool)
    requires Holds(m, g)
    ensures hit <==> Collides(b, g, x, y)
  {
    var i := 0;
    while i < m.Length0
      invariant 0 <= i <= m.Length0
      invariant forall i', j' | 0 <= i' < i && 0 <= j' < m.Length1 ::
        m[i', j'] == 0 || Lookup(b, y + i', x + j') == Some(0)
    {
      var j := 0;
      while j < m.Length1
        invariant 0 <= j <= m.Length1
        invariant forall i', j' | 0 <= i' < i && 0 <= j' < m.Length1 ::
          m[i', j'] == 0 || Lookup(b, y + i', x + j') == Some(0)
        invariant forall j' | 0 <= j' < j :: m[i, j'] == 0 || Lookup(b, y + i, x + j') == Some(0)
      {
        if m[i, j] != 0 && Lookup(b, y + i, x + j) != Some(0) {
          assert g[i][j] == m[i, j];
          return true;
        }
        j := j + 1;
      }
      i := i + 1;
    }
    return false;
  }

  /**
   * Collision in board terms: some block of the piece falls outside rows
   * 0..ROWS-1 or columns 0..COLS-1, or on an occupied cell.
   */
  lemma CollisionMeaning(b: Grid, g: Grid, x: int, y: int)
    requires IsRect(b, ROWS, COLS)
    ensures Collides(b, g, x, y) <==>
      exists i, j | 0 <= i < |g| && 0 <= j < |g[i]| :: g[i][j] != 0 &&
        (y + i < 0 || y + i >= ROWS || x + j < 0 || x + j >= COLS || b[y + i][x + j] != 0)
  {
  }

  /** A piece that does not collide lies on the board. */
  lemma FitsOnBoard(b: Grid, g: Grid, x: int, y: int)
    requires !Collides(b, g, x, y)
    ensures OnBoard(b, g, x, y)
  {
    forall i, j | 0 <= i < |g| && 0 <= j < |g[i]| && g[i][j] != 0
      ensures 0 <= y + i < |b| && 0 <= x + j < |b[y + i]|
    {
      assert Lookup(b, y + i, x + j) == Some(0);
    }
  }

  /** A piece placed where it does not collide has each of its blocks above the floor. */
  lemma AboveFloor(b: Grid, g: Grid, x: int, y: int, i: nat, j: nat)
    requires i < |g| && j < |g[i]| && g[i][j] != 0
    requires !Collides(b, g, x, y)
    ensures y + i < |b|
  {
    assert Lookup(b, y + i, x + j) == Some(0);
  }

  // ---------------------------------------------------------------------
  // Merge
  // ---------------------------------------------------------------------

  /** The block of `g`, placed at (x, y), that covers board cell (r, c) exists. */
  predicate Covers(g: Grid, x: int, y: int, r: int, c: int) {
    0 <= r - y < |g| && 0 <= c - x < |g[r - y]| && g[r - y][c - x] != 0
  }

  /**
   * The board with every block of `g` placed at (x, y) written into its cell;
   * every other cell keeps its value.
   */
  function Merged(b: Grid, g: Grid, x: int, y: int): (b': Grid)
    ensures |b'| == |b| && forall r | 0 <= r < |b| :: |b'[r]| == |b[r]|
  {
    seq(|b|, r requires 0 <= r < |b| =>
      seq(|b[r]|, c requires 0 <= c < |b[r]| =>
        if Covers(g, x, y, r, c) then g[r - y][c - x] else b[r][c]))
  }

  /** Every block in the first `n` rows of `g`, placed at row offset y, lies on one of the board's rows. */
  predicate RowsIn(b: Grid, g: Grid, y: int, n: int) {
    forall i, j | 0 <= i < n && i < |g| && 0 <= j < |g[i]| :: g[i][j] != 0 ==> 0 <= y + i < |b|
  }

  /** Every block of `g` placed at (x, y) that lands on a board row lies within that row. */
  predicate ColsIn(b: Grid, g: Grid, x: int, y: int) {
    forall i, j | 0 <= i < |g| && 0 <= j < |g[i]| ::
      g[i][j] != 0 && 0 <= y + i < |b| ==> 0 <= x + j < |b[y + i]|
  }

  /** Lying on the board is lying on its rows and, on those rows, within their columns. */
  lemma OnBoardParts(b: Grid, g: Grid, x: int, y: int)
    ensures OnBoard(b, g, x, y) <==> RowsIn(b, g, y, |g|) && ColsIn(b, g, x, y)
  {
  }

  /**
   * `merge(arena, player)`: writes every non-zero cell of the piece matrix `m`,
   * placed at (x, y), into the board, row by row and cell by cell. A block
   * whose row is not on the board stops the merge (`arena[r]` is undefined
   * there and assigning into it throws): `ok` is false and the board holds
   * exactly the rows of the piece written before that one.
   */
  method Merge(b: Grid, m: array2<int>, ghost g: Grid, x: int, y: int) returns (b': Grid, ok: bool)
    requires Holds(m, g) && ColsIn(b, g, x, y)
    ensures ok <==> RowsIn(b, g, y, |g|)
    ensures ok ==> b' == Merged(b, g, x, y)
    ensures !ok ==> exists n | 0 <= n < |g| ::
      RowsIn(b, g, y, n) && !RowsIn(b, g, y, n + 1) && b' == Merged(b, g[..n], x, y)
  {
    b' := b;
    for i := 0 to m.Length0
      invariant |b'| == |b| && forall r | 0 <= r < |b| :: |b'[r]| == |b[r]|
      invariant RowsIn(b, g, y, i)
      invariant forall r, c | 0 <= r < |b| && 0 <= c < |b[r]| ::
        b'[r][c] == if Covers(g, x, y, r, c) && r - y < i then g[r - y][c - x] else b[r][c]
    {
      for j := 0 to m.Length1
        invariant |b'| == |b| && forall r | 0 <= r < |b| :: |b'[r]| == |b[r]|
        invariant forall j' | 0 <= j' < j :: g[i][j'] != 0 ==> 0 <= y + i < |b|
        invariant forall r, c | 0 <= r < |b| && 0 <= c < |b[r]| ::
          b'[r][c] ==
            if Covers(g, x, y, r, c) && (r - y < i || (r - y == i && c - x < j))
            then g[r - y][c - x] else b[r][c]
      {
        var value := m[i, j];
        if value != 0 {
          assert g[i][j] == value;
          if y + i < 0 || y + i >= |b| {
            ghost var part := Merged(b, g[..i], x, y);
            assert forall r | 0 <= r < |b| :: b'[r] == part[r];
            assert b' == part;
            assert !RowsIn(b, g, y, i + 1) by {
              assert g[i][j] != 0 && !(0 <= y + i < |b|);
            }
            ok := false;
            return;
          }
          b' := b'[y + i := b'[y + i][x + j := value]];
        }
      }
    }
    ok := true;
    ghost var merged := Merged(b, g, x, y);
    assert forall r | 0 <= r < |b| :: b'[r] == merged[r];
  }

  /** A merge stopped before any row that reaches the board has written nothing. */
  lemma StoppedAboveBoard(b: Grid, g: Grid, x: int, y: int, n: nat)
    requires n <= |g| && y + n <= 0
    ensures Merged(b, g[..n], x, y) == b
  {
    ghost var part := Merged(b, g[..n], x, y);
    forall r | 0 <= r < |b| ensures part[r] == b[r] {
      assert forall c | 0 <= c < |b[r]| :: !Covers(g[..n], x, y, r, c);
    }
  }

  /**
   * After a merge, each block of the piece is on the board with its own value
   * and every cell the piece does not cover is unchanged.
   */
  lemma MergeWritesPiece(b: Grid, g: Grid, x: int, y: int)
    requires OnBoard(b, g, x, y)
    ensures forall i, j | 0 <= i < |g| && 0 <= j < |g[i]| && g[i][j] != 0 ::
      Merged(b, g, x, y)[y + i][x + j] == g[i][j]
    ensures forall r, c | 0 <= r < |b| && 0 <= c < |b[r]| && !Covers(g, x, y, r, c) ::
      Merged(b, g, x, y)[r][c] == b[r][c]
  {
    forall i, j | 0 <= i < |g| && 0 <= j < |g[i]| && g[i][j] != 0
      ensures Merged(b, g, x, y)[y + i][x + j] == g[i][j]
    {
      assert Covers(g, x, y, y + i, x + j);
    }
  }

  /** A landed piece with a block collides with itself at the spot it was merged. */
  lemma MergedPieceCollides(b: Grid, g: Grid, x: int, y: int, i: nat, j: nat)
    requires OnBoard(b, g, x, y)
    requires i < |g| && j < |g[i]| && g[i][j] != 0
    ensures Collides(Merged(b, g, x, y), g, x, y)
  {
    assert Covers(g, x, y, y + i, x + j);
    assert Lookup(Merged(b, g, x, y), y + i, x + j) == Some(g[i][j]);
  }

  // ---------------------------------------------------------------------
  // Line sweep
  // ---------------------------------------------------------------------

  /** The row has no empty cell. */
  predicate Full(row: seq<int>) {
    forall c | 0 <= c < |row| :: row[c] != 0
  }

  /** 2 to the power `n`; 10 * (2^k - 1) is what removing k rows scores. */
  function Pow2(n: nat): (p: nat)
    ensures p >= 1
  {
    if n == 0 then 1 else 2 * Pow2(n - 1)
  }

  /**
   * The rows a bottom-to-top sweep of `b` keeps and the rows it removes, both
   * top to bottom, when the bottom row of `b` is examined iff `check`. Once a
   * row is removed, the row above it slides into its place and is passed over,
   * so it is kept without being examined.
   */
  function Sweep(b: Grid, check: bool): (Grid, Grid)
    decreases |b|
  {
    if b == [] then ([], [])
    else
      var rest, last := b[..|b| - 1], b[|b| - 1];
      if check && Full(last) then
        var (kept, removed) := Sweep(rest, false);
        (kept, removed + [last])
      else
        var (kept, removed) := Sweep(rest, true);
        (kept + [last], removed)
  }

  /**
   * The sweep splits the rows of `b` into kept and removed ones, and every
   * removed row was full.
   */
  lemma {:induction false} SweepParts(b: Grid, check: bool)
    ensures var (kept, removed) := Sweep(b, check);
      |kept| + |removed| == |b| &&
      (forall row | row in removed :: Full(row)) &&
      multiset(kept) + multiset(removed) == multiset(b)
    decreases |b|
  {
    if b != [] {
      var rest, last := b[..|b| - 1], b[|b| - 1];
      assert b == rest + [last];
      if check && Full(last) {
        SweepParts(rest, false);
      } else {
        SweepParts(rest, true);
      }
    }
  }

  /**
   * The board after `arenaSweep`, and the points it adds: one empty row on top
   * for each removed row, and 10, 20, 40, ... for the first, second, third, ...
   * row removed in this call.
   */
  function SweepResult(b: Grid): (Grid, nat) {
    var (kept, removed) := Sweep(b, true);
    (Zeros(|removed|, COLS) + kept, 10 * (Pow2(|removed|) - 1))
  }

  /** The sweep keeps the board's shape. */
  lemma SweepKeepsShape(b: Grid)
    requires IsRect(b, ROWS, COLS)
    ensures IsRect(SweepResult(b).0, ROWS, COLS)
  {
    var (kept, removed) := Sweep(b, true);
    SweepParts(b, true);
    forall r | 0 <= r < |kept| ensures |kept[r]| == COLS {
      assert kept[r] in multiset(b);
    }
  }

  /** Unfolding the sweep once when the examined row of `orig[..top]` is not full. */
  lemma SweepOpenLast(orig: Grid, top: nat)
    requires 0 < top <= |orig| && !Full(orig[top - 1])
    ensures Sweep(orig[..top], true) ==
      (Sweep(orig[..top - 1], true).0 + [orig[top - 1]], Sweep(orig[..top - 1], true).1)
  {
    var p := orig[..top];
    assert p[..|p| - 1] == orig[..top - 1];
  }

  /** Unfolding the sweep twice when the examined row of `orig[..top]` is full. */
  lemma SweepFullLast(orig: Grid, top: nat)
    requires 0 < top <= |orig| && Full(orig[top - 1])
    ensures top == 1 ==> Sweep(orig[..top], true) == ([], [orig[0]])
    ensures top >= 2 ==> (Sweep(orig[..top], true) ==
      (Sweep(orig[..top - 2], true).0 + [orig[top - 2]], Sweep(orig[..top - 2], true).1 + [orig[top - 1]]))
  {
    var p := orig[..top];
    assert p[..|p| - 1] == orig[..top - 1];
    if top >= 2 {
      var q := orig[..top - 1];
      assert q[..|q| - 1] == orig[..top - 2];
    } else {
      assert p[..|p| - 1] == [];
      assert Sweep([], false) == ([], []);
      assert [] + [orig[0]] == [orig[0]];
    }
  }

  /** Splitting off the last unexamined row. */
  lemma SplitLastOpen(orig: Grid, top: nat, kept: Grid, z: Grid, b: Grid)
    requires 0 < top <= |orig| && b == z + orig[..top] + kept
    ensures b == z + orig[..top - 1] + ([orig[top - 1]] + kept)
    ensures b[|z| + top - 1] == orig[top - 1]
  {
    assert orig[..top] == orig[..top - 1] + [orig[top - 1]];
  }

  /** The sweep of `orig` split at `top`, where the row `orig[top - 1]` is not full and stays. */
  lemma SweepKeepTail(orig: Grid, top: nat, kept: Grid, removed: Grid)
    requires 0 < top <= |orig| && !Full(orig[top - 1])
    requires Sweep(orig, true) == (Sweep(orig[..top], true).0 + kept, Sweep(orig[..top], true).1 + removed)
    ensures Sweep(orig, true) ==
      (Sweep(orig[..top - 1], true).0 + ([orig[top - 1]] + kept), Sweep(orig[..top - 1], true).1 + removed)
  {
    SweepOpenLast(orig, top);
    var s1, row := Sweep(orig[..top - 1], true), orig[top - 1];
    assert s1.0 + [row] + kept == s1.0 + ([row] + kept);
  }

  /**
   * One step of the in-place sweep that keeps the examined row: `b` is the
   * board with `removed` rows gone, empty rows on top, `orig[..top]` not yet
   * examined and `kept` the rows below the scan.
   */
  lemma SweepKeepStep(orig: Grid, top: nat, kept: Grid, removed: Grid, b: Grid, y: int)
    requires 0 < top <= |orig|
    requires b == Zeros(|removed|, COLS) + orig[..top] + kept
    requires y == |removed| + top - 1 && !Full(b[y])
    requires Sweep(orig, true) == (Sweep(orig[..top], true).0 + kept, Sweep(orig[..top], true).1 + removed)
    ensures b == Zeros(|removed|, COLS) + orig[..top - 1] + ([orig[top - 1]] + kept)
    ensures Sweep(orig, true) ==
      (Sweep(orig[..top - 1], true).0 + ([orig[top - 1]] + kept), Sweep(orig[..top - 1], true).1 + removed)
  {
    SplitLastOpen(orig, top, kept, Zeros(|removed|, COLS), b);
    SweepKeepTail(orig, top, kept, removed);
  }

  /** The board after removing row `y` and putting an empty row on top. */
  lemma RemoveRowShape(orig: Grid, top: nat, kept: Grid, r: nat, b: Grid, y: int)
    requires IsRect(orig, ROWS, COLS) && 0 < top <= |orig|
    requires b == Zeros(r, COLS) + orig[..top] + kept
    requires y == r + top - 1
    ensures |b[y]| == COLS
    ensures top >= 2 ==>
      [seq(|b[y]|, _ => 0)] + b[..y] + b[y + 1..] == Zeros(r + 1, COLS) + orig[..top - 2] + ([orig[top - 2]] + kept)
    ensures top == 1 ==>
      [seq(|b[y]|, _ => 0)] + b[..y] + b[y + 1..] == Zeros(r + 1, COLS) + orig[..0] + kept
  {
    SplitLastOpen(orig, top, kept, Zeros(r, COLS), b);
    var z := seq(COLS, _ => 0);
    assert b[..y] == Zeros(r, COLS) + orig[..top - 1];
    assert b[y + 1..] == kept;
    assert [z] + Zeros(r, COLS) == Zeros(r + 1, COLS);
    if top >= 2 {
      assert orig[..top - 1] == orig[..top - 2] + [orig[top - 2]];
    }
  }

  /** The empty rows put on top by the sweep are never full. */
  lemma EmptyRowsOpen(b: Grid, r: nat, rest: Grid, y: int)
    requires b == Zeros(r, COLS) + rest && 0 <= y < r
    ensures !Full(b[y])
  {
    assert b[y][0] == 0;
  }

  /** One step of the in-place sweep that removes the examined row, passing over the row above it. */
  lemma SweepRemoveStep(orig: Grid, top: nat, kept: Grid, removed: Grid, b: Grid, y: int)
    requires IsRect(orig, ROWS, COLS) && top <= |orig|
    requires b == Zeros(|removed|, COLS) + orig[..top] + kept
    requires top > 0 ==> y == |removed| + top - 1
    requires top == 0 ==> y < |removed|
    requires 0 <= y < |b| && Full(b[y])
    requires Sweep(orig, true) == (Sweep(orig[..top], true).0 + kept, Sweep(orig[..top], true).1 + removed)
    ensures top > 0 && |b[y]| == COLS
    ensures var top', kept', removed' :=
        if top >= 2 then top - 2 else 0,
        if top >= 2 then [orig[top - 2]] + kept else kept,
        [orig[top - 1]] + removed;
      [seq(|b[y]|, _ => 0)] + b[..y] + b[y + 1..] == Zeros(|removed'|, COLS) + orig[..top'] + kept' &&
      Sweep(orig, true) == (Sweep(orig[..top'], true).0 + kept', Sweep(orig[..top'], true).1 + removed')
  {
    var r := |removed|;
    if top == 0 {
      EmptyRowsOpen(b, r, orig[..top] + kept, y);
    }
    SplitLastOpen(orig, top, kept, Zeros(r, COLS), b);
    RemoveRowShape(orig, top, kept, r, b, y);
    SweepFullLast(orig, top);
    if top >= 2 {
      var (k2, r2) := Sweep(orig[..top - 2], true);
      assert k2 + [orig[top - 2]] + kept == k2 + ([orig[top - 2]] + kept);
      assert r2 + [orig[top - 1]] + removed == r2 + ([orig[top - 1]] + removed);
    } else {
      assert top == 1 && orig[..0] == [];
      assert Sweep(orig[..top], true) == ([], [orig[0]]);
      assert Sweep(orig[..0], true) == ([], []);
      var rm := [orig[0]] + removed;
      assert [] + kept == kept && [] + rm == rm;
    }
  }

  /** A board without a full row is left as it is and earns nothing. */
  lemma {:induction false} SweepNoFullRow(b: Grid, check: bool)
    requires forall r | 0 <= r < |b| :: !Full(b[r])
    ensures Sweep(b, check) == (b, [])
    decreases |b|
  {
    if b != [] {
      SweepNoFullRow(b[..|b| - 1], true);
      assert b[..|b| - 1] + [b[|b| - 1]] == b;
    }
  }

  /** Sweeping an empty board changes nothing and adds no points. */
  lemma SweepEmptyBoard()
    ensures SweepResult(Zeros(ROWS, COLS)) == (Zeros(ROWS, COLS), 0)
  {
    var z := Zeros(ROWS, COLS);
    forall r | 0 <= r < |z| ensures !Full(z[r]) {
      assert z[r][0] == 0;
    }
    SweepNoFullRow(z, true);
    assert Zeros(0, COLS) + z == z;
  }

  /**
   * The skipped row: when the two bottom rows are both full, the bottom one is
   * removed and the one above it is kept, full, whatever lies above them.
   */
  lemma SweepSkipsRowAbove(b: Grid)
    requires |b| >= 2 && Full(b[|b| - 1]) && Full(b[|b| - 2])
    ensures var (kept, removed) := Sweep(b[..|b| - 2], true);
      Sweep(b, true) == (kept + [b[|b| - 2]], removed + [b[|b| - 1]])
  {
    assert b[..|b| - 1][..|b| - 2] == b[..|b| - 2];
  }

  /** No two removed rows were neighbours, so one sweep removes at most half the rows. */
  /** The indices of the rows `Sweep(b, check)` removes. */
  function RemovedAt(b: Grid, check: bool): (s: set<nat>)
    ensures forall i | i in s :: i < |b|
    decreases |b|
  {
    if b == [] then {}
    else if check && Full(b[|b| - 1]) then RemovedAt(b[..|b| - 1], false) + {|b| - 1}
    else RemovedAt(b[..|b| - 1], true)
  }

  /** The sweep removes as many rows as `RemovedAt` names. */
  lemma {:induction false} RemovedAtCount(b: Grid, check: bool)
    ensures |RemovedAt(b, check)| == |Sweep(b, check).1|
    decreases |b|
  {
    if b != [] {
      var rest := b[..|b| - 1];
      if check && Full(b[|b| - 1]) {
        RemovedAtCount(rest, false);
        assert |b| - 1 !in RemovedAt(rest, false);
      } else {
        RemovedAtCount(rest, true);
      }
    }
  }

  /** The bottom row goes exactly when it is examined and full. */
  lemma RemovedAtLast(b: Grid, check: bool)
    requires b != []
    ensures |b| - 1 in RemovedAt(b, check) <==> check && Full(b[|b| - 1])
  {
    assert |b| - 1 !in RemovedAt(b[..|b| - 1], !(check && Full(b[|b| - 1])));
  }

  /**
   * Which rows above the bottom one the sweep removes: row `i` goes exactly
   * when it is full and the row below it stayed, so that the scan examined it.
   */
  lemma {:induction false} SweepRemovedAt(b: Grid, check: bool, i: int)
    requires 0 <= i < |b| - 1
    ensures i in RemovedAt(b, check) <==> Full(b[i]) && i + 1 !in RemovedAt(b, check)
    decreases |b|
  {
    var rest := b[..|b| - 1];
    var c := !(check && Full(b[|b| - 1]));
    assert RemovedAt(b, check) == if c then RemovedAt(rest, c) else RemovedAt(rest, c) + {|b| - 1};
    assert b[i] == rest[i];
    RemovedAtLast(b, check);
    if i == |b| - 2 {
      RemovedAtLast(rest, c);
    } else {
      SweepRemovedAt(rest, c, i);
    }
  }

  /**
   * The sweep never removes two neighbouring rows in one pass, so at most
   * half the rows, rounded up, go.
   */
  lemma {:induction false} SweepAtMostHalf(b: Grid, check: bool)
    ensures forall i | i in RemovedAt(b, check) :: i + 1 !in RemovedAt(b, check)
    ensures 2 * |Sweep(b, check).1| <= |b| + (if check then 1 else 0)
    decreases |b|
  {
    forall i | i in RemovedAt(b, check) && i + 1 in RemovedAt(b, check) ensures false {
      SweepRemovedAt(b, check, i);
    }
    RemovedAtCount(b, check);
    if b != [] {
      var rest := b[..|b| - 1];
      if check && Full(b[|b| - 1]) {
        SweepAtMostHalf(rest, false);
      } else {
        SweepAtMostHalf(rest, true);
      }
    }
  }

  /** `a` is `b` with some rows deleted. */
  predicate IsSubseq(a: Grid, b: Grid)
    decreases |b|
  {
    a == [] ||
    (b != [] &&
      ((a[|a| - 1] == b[|b| - 1] && IsSubseq(a[..|a| - 1], b[..|b| - 1])) || IsSubseq(a, b[..|b| - 1])))
  }

  /** The rows the sweep keeps stay in their relative order. */
  lemma {:induction false} SweepKeepsOrder(b: Grid, check: bool)
    ensures IsSubseq(Sweep(b, check).0, b)
    decreases |b|
  {
    if b != [] {
      var rest, last := b[..|b| - 1], b[|b| - 1];
      if check && Full(last) {
        SweepKeepsOrder(rest, false);
      } else {
        SweepKeepsOrder(rest, true);
        var kept := Sweep(rest, true).0;
        assert (kept + [last])[..|kept|] == kept;
      }
    }
  }

  /** Every row that is not full survives the sweep, as many times as it occurred. */
  lemma SweepKeepsOpenRows(b: Grid, check: bool, row: seq<int>)
    requires !Full(row)
    ensures multiset(Sweep(b, check).0)[row] == multiset(b)[row]
  {
    var (kept, removed) := Sweep(b, check);
    SweepParts(b, check);
    assert row !in removed;
  }
}
