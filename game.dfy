/**
 * The state of a running game: the arena, the table of piece matrices, the
 * player (a reference to one of those matrices and the offset of its top-left
 * corner), the score, the drop timer and the start/pause flags, with the
 * operations the keys and buttons trigger.
 */
module Game {
  import opened Board
  import opened Pieces

  /** The column a piece of width `w` spawns at: `Math.floor(COLS / 2) - Math.floor(w / 2)`. */
  function SpawnX(w: nat): int {
    COLS / 2 - w / 2
  }

  /** A square piece no wider than the board spawns with every block on the board. */
  lemma SpawnOnBoard(b: Grid, g: Grid)
    requires IsRect(b, ROWS, COLS) && IsSquare(g) && |g| <= COLS
    ensures OnBoard(b, g, SpawnX(|g|), 0)
  {
  }

  /** On a cleared board a freshly spawned piece never collides. */
  lemma SpawnFitsEmpty(g: Grid)
    requires IsSquare(g) && |g| <= COLS
    ensures !Collides(Zeros(ROWS, COLS), g, SpawnX(|g|), 0)
  {
    var z := Zeros(ROWS, COLS);
    forall i, j | 0 <= i < |g| && 0 <= j < |g[i]| && g[i][j] != 0
      ensures Lookup(z, i, SpawnX(|g|) + j) == Some(0)
    {
      assert z[i][SpawnX(|g|) + j] == 0;
    }
  }

  /** Whether the blocks lie on the board depends only on the board's shape. */
  lemma OnBoardSameShape(b: Grid, b': Grid, g: Grid, x: int, y: int)
    requires IsRect(b, ROWS, COLS) && IsRect(b', ROWS, COLS) && OnBoard(b, g, x, y)
    ensures OnBoard(b', g, x, y)
  {
  }

  /**
   * The arena and score `playerReset()` leaves when the new piece is `g`: a
   * spawn that collides wipes both, any other leaves them alone.
   */
  function Spawn(b: Grid, score: int, g: Grid): (Grid, int) {
    if Collides(b, g, SpawnX(|g|), 0) then (Zeros(ROWS, COLS), 0) else (b, score)
  }

  /** After `playerReset()` the new piece never collides, and a wiped game restarts from score 0. */
  lemma SpawnFits(b: Grid, score: int, g: Grid)
    requires IsRect(b, ROWS, COLS) && IsSquare(g) && |g| <= COLS
    ensures !Collides(Spawn(b, score, g).0, g, SpawnX(|g|), 0)
    ensures IsRect(Spawn(b, score, g).0, ROWS, COLS)
    ensures Spawn(b, score, g) == (b, score) || Spawn(b, score, g) == (Zeros(ROWS, COLS), 0)
  {
    if Collides(b, g, SpawnX(|g|), 0) {
      SpawnFitsEmpty(g);
    }
  }

  /**
   * The board and score once a piece has been merged into `b` and `spawn`
   * comes next: the next piece spawns, and only then rows are swept.
   */
  function Settled(b: Grid, score: int, spawn: Grid): (Grid, int)
  {
    var (b1, s1) := Spawn(b, score, spawn);
    var (b2, gained) := SweepResult(b1);
    (b2, s1 + gained)
  }

  /** The board and score after piece `g` lands at (x, y) with `spawn` as the next piece. */
  function Landing(b: Grid, score: int, g: Grid, x: int, y: int, spawn: Grid): (Grid, int)
  {
    Settled(Merged(b, g, x, y), score, spawn)
  }

  /** A landing keeps the board at ROWS rows of COLS cells. */
  lemma LandingKeepsShape(b: Grid, score: int, g: Grid, x: int, y: int, spawn: Grid)
    requires IsRect(b, ROWS, COLS)
    ensures IsRect(Landing(b, score, g, x, y, spawn).0, ROWS, COLS)
  {
    var merged := Merged(b, g, x, y);
    SweepKeepsShape(merged);
    SweepKeepsShape(Zeros(ROWS, COLS));
  }

  /**
   * Game over: when the next piece collides at its spawn, board and score are
   * wiped before the sweep, so the sweep finds no row and adds nothing.
   */
  lemma GameOverLanding(b: Grid, score: int, g: Grid, x: int, y: int, spawn: Grid)
    requires Collides(Merged(b, g, x, y), spawn, SpawnX(|spawn|), 0)
    ensures Landing(b, score, g, x, y, spawn) == (Zeros(ROWS, COLS), 0)
  {
    SweepEmptyBoard();
  }

  /**
   * Respawning before the sweep lets the new piece start out overlapping the
   * board: the T piece fits at its spawn on this board, but once the full
   * bottom row is swept the block in row 0 slides under the T's middle row.
   */
  lemma SpawnOverlapsAfterSweep()
    ensures var b := [seq(COLS, c => if c == 5 then 1 else 0)] + Zeros(ROWS - 2, COLS) + [seq(COLS, _ => 1)];
      IsRect(b, ROWS, COLS) &&
      !Collides(b, Shape(0), SpawnX(3), 0) &&
      Collides(SweepResult(b).0, Shape(0), SpawnX(3), 0)
  {
    var top := [seq(COLS, c => if c == 5 then 1 else 0)] + Zeros(ROWS - 2, COLS);
    var full := seq(COLS, _ => 1);
    var b := top + [full];
    var t := Shape(0);
    forall r | 0 <= r < |top| ensures !Full(top[r]) {
      assert top[r][0] == 0;
    }
    SweepNoFullRow(top, false);
    assert b[..|b| - 1] == top && b[|b| - 1] == full && Full(full);
    assert Sweep(b, true) == (Sweep(top, false).0, Sweep(top, false).1 + [full]);
    assert [] + [full] == [full];
    var after := SweepResult(b).0;
    assert after == Zeros(1, COLS) + top;
    assert t[1][0] != 0 && Lookup(after, 1, SpawnX(3)) == Some(1);
    forall i, j | 0 <= i < 3 && 0 <= j < 3 && t[i][j] != 0
      ensures Lookup(b, i, SpawnX(3) + j) == Some(0)
    {
      assert i == 1 || i == 2;
      assert b[i] == Zeros(ROWS - 2, COLS)[i - 1];
    }
  }

  // ---------------------------------------------------------------------
  // Wall kicks
  // ---------------------------------------------------------------------

  /** The shift `playerRotate` applies to x on its `t`-th retry: 1, -2, 3, -4, ... (t = 0, 1, 2, ...). */
  function KickStep(t: nat): int {
    if t % 2 == 0 then t + 1 else -(t + 1)
  }

  /** The offset from the original x after `t` retries: 0, 1, -1, 2, -2, ... */
  function Kick(t: nat): int {
    if t % 2 == 1 then (t + 1) / 2 else -(t / 2)
  }

  /**
   * The number of offsets tried for a piece of width `n`: the search gives up
   * right after the shift that makes the next shift larger than `n`, before
   * testing the position that shift reached.
   */
  function KickLimit(n: nat): nat {
    if n <= 2 then 2 else if n % 2 == 0 then n else n + 1
  }

  /** Each retry moves by the next shift. */
  lemma KickNext(t: nat)
    ensures Kick(t + 1) == Kick(t) + KickStep(t)
    ensures KickStep(t + 1) == -(KickStep(t) + (if KickStep(t) > 0 then 1 else -1))
  {
  }

  /** No offset is tried twice. */
  lemma KickDistinct(s: nat, t: nat)
    requires s != t
    ensures Kick(s) != Kick(t)
  {
  }

  /** The offsets tried for the table's widths: 0, 1 for O and 0, 1, -1, 2 for the others. */
  lemma KicksTried(n: nat)
    requires 2 <= n <= 4
    ensures (set t | 0 <= t < KickLimit(n) :: Kick(t)) == if n == 2 then {0, 1} else {0, 1, -1, 2}
  {
    var tried := set t | 0 <= t < KickLimit(n) :: Kick(t);
    assert Kick(0) == 0 && Kick(1) == 1;
    if n == 2 {
      assert tried == {Kick(0), Kick(1)};
    } else {
      assert Kick(2) == -1 && Kick(3) == 2;
      assert tried == {Kick(0), Kick(1), Kick(2), Kick(3)};
    }
  }

  /** The turned piece `g` is first free at offset Kick(t) from x0. */
  ghost predicate KicksTo(b: Grid, g: Grid, x0: int, y: int, t: nat) {
    !Collides(b, g, x0 + Kick(t), y) && forall s | 0 <= s < t :: Collides(b, g, x0 + Kick(s), y)
  }

  /**
   * The first retry from the `t`-th on at which the turned piece `g` is
   * free, or None when every retry up to the limit for its width collides.
   */
  function FirstKick(b: Grid, g: Grid, x0: int, y: int, t: nat): Option<nat>
    decreases KickLimit(|g|) - t
  {
    if t >= KickLimit(|g|) then None
    else if !Collides(b, g, x0 + Kick(t), y) then Some(t)
    else FirstKick(b, g, x0, y, t + 1)
  }

  /** Searching from retry `s` on, after retries 0 .. s-1 all collided. */
  lemma {:induction false} FirstKickFrom(b: Grid, g: Grid, x0: int, y: int, s: nat)
    requires forall r | 0 <= r < s :: Collides(b, g, x0 + Kick(r), y)
    ensures match FirstKick(b, g, x0, y, s)
      case Some(t) => s <= t < KickLimit(|g|) && KicksTo(b, g, x0, y, t)
      case None => forall t | 0 <= t < KickLimit(|g|) :: Collides(b, g, x0 + Kick(t), y)
    decreases KickLimit(|g|) - s
  {
    if s < KickLimit(|g|) && Collides(b, g, x0 + Kick(s), y) {
      FirstKickFrom(b, g, x0, y, s + 1);
    }
  }

  /**
   * The kick search finds retry t exactly when t is within the limit, the
   * piece is free there and every earlier retry collides; it finds nothing
   * exactly when every retry collides.
   */
  lemma FirstKickMeaning(b: Grid, g: Grid, x0: int, y: int, t: nat)
    ensures FirstKick(b, g, x0, y, 0) == Some(t) <==> t < KickLimit(|g|) && KicksTo(b, g, x0, y, t)
    ensures FirstKick(b, g, x0, y, 0) == None <==>
      forall s | 0 <= s < KickLimit(|g|) :: Collides(b, g, x0 + Kick(s), y)
  {
    FirstKickFrom(b, g, x0, y, 0);
    match FirstKick(b, g, x0, y, 0)
    case Some(u) =>
      assert !Collides(b, g, x0 + Kick(u), y);
    case None =>
  }

  /** From row y0 the piece falls freely to row y and no further. */
  ghost predicate DropsTo(b: Grid, g: Grid, x: int, y0: int, y: int) {
    y0 - 1 <= y && (forall z | y0 <= z <= y :: !Collides(b, g, x, z)) && Collides(b, g, x, y + 1)
  }

  /**
   * The row a piece with a block ends on when it moves down from row y while
   * it does not collide and then steps back one row. It always exists: a
   * block below the floor collides.
   */
  ghost function DropRow(b: Grid, g: Grid, x: int, y: int): int
    requires HasBlock(g)
    decreases |b| - y
  {
    if Collides(b, g, x, y) then y - 1
    else
      var i, j :| 0 <= i < |g| && 0 <= j < |g[i]| && g[i][j] != 0;
      AboveFloor(b, g, x, y, i, j);
      DropRow(b, g, x, y + 1)
  }

  /** The piece dropped from row y0 falls freely to DropRow and no further. */
  lemma {:induction false} DropRowFalls(b: Grid, g: Grid, x: int, y0: int)
    requires HasBlock(g)
    ensures DropsTo(b, g, x, y0, DropRow(b, g, x, y0))
    decreases |b| - y0
  {
    if !Collides(b, g, x, y0) {
      var i, j :| 0 <= i < |g| && 0 <= j < |g[i]| && g[i][j] != 0;
      AboveFloor(b, g, x, y0, i, j);
      DropRowFalls(b, g, x, y0 + 1);
    }
  }

  /** DropRow is the only row the piece falls freely to and no further. */
  lemma DropRowUnique(b: Grid, g: Grid, x: int, y0: int, y: int)
    requires HasBlock(g) && DropsTo(b, g, x, y0, y)
    ensures y == DropRow(b, g, x, y0)
  {
    DropRowFalls(b, g, x, y0);
  }

  /** A piece whose blocks lie on the board's columns stays on them when it moves up or down. */
  lemma ColsAnyRow(b: Grid, g: Grid, x: int, y: int, y': int)
    requires IsRect(b, ROWS, COLS) && OnBoard(b, g, x, y)
    ensures ColsIn(b, g, x, y')
  {
  }

  /**
   * The loop of the hard drop, `while (!collide(arena, player)) player.pos.y++`,
   * and the step back after it: from row y0 the piece falls until it collides
   * and ends one row above that.
   */
  method Fall(b: Grid, m: array2<int>, ghost g: Grid, x: int, y0: int) returns (y: int)
    requires Holds(m, g) && HasBlock(g)
    ensures y == DropRow(b, g, x, y0)
  {
    ghost var i, j :| 0 <= i < |g| && 0 <= j < |g[i]| && g[i][j] != 0;
    y := y0;
    var hit := Collide(b, m, g, x, y);
    while !hit
      invariant DropRow(b, g, x, y) == DropRow(b, g, x, y0)
      invariant hit == Collides(b, g, x, y)
      decreases |b| - y
    {
      AboveFloor(b, g, x, y, i, j);
      y := y + 1;
      hit := Collide(b, m, g, x, y);
    }
    y := y - 1;
  }

  /**
   * The body of `playerReset()` once the kind is drawn and `m`, holding `g`,
   * taken from the table: x is centred and, if the piece collides there, the
   * arena cleared and the score zeroed.
   */
  method Respawn(b: Grid, score: int, m: array2<int>, ghost g: Grid) returns (b': Grid, score': int, x: int)
    requires IsRect(b, ROWS, COLS) && IsSquare(g) && |g| <= COLS && m.Length0 == m.Length1 && Holds(m, g)
    ensures x == SpawnX(|g|) && (b', score') == Spawn(b, score, g)
    ensures IsRect(b', ROWS, COLS) && OnBoard(b', g, x, 0) && !Collides(b', g, x, 0)
  {
    x := COLS / 2 - m.Length1 / 2;
    var hit := Collide(b, m, g, x, 0);
    b', score' := b, score;
    if hit {
      b' := Clear(b);
      score' := 0;
      ClearedRect(b, ROWS, COLS);
    }
    SpawnFits(b, score, g);
    FitsOnBoard(b', g, x, 0);
  }

  /**
   * The kick search of `playerRotate` for the turned piece `g` held by `m`:
   * x moves by 1, -2, 3, ... from x0 while the piece collides, and the
   * search gives up, back at x0, once the next shift would exceed the
   * matrix's width.
   */
  method KickSearch(b: Grid, m: array2<int>, ghost g: Grid, x0: int, y: int) returns (found: bool, x: int)
    requires m.Length0 == m.Length1 && Holds(m, g)
    ensures found == FirstKick(b, g, x0, y, 0).Some?
    ensures x == if found then x0 + Kick(FirstKick(b, g, x0, y, 0).value) else x0
    ensures found ==> OnBoard(b, g, x, y)
  {
    x := x0;
    var offset := 1;
    ghost var t: nat := 0;
    var hit := Collide(b, m, g, x, y);
    while hit
      invariant 0 <= t < KickLimit(|g|)
      invariant offset == KickStep(t) && x == x0 + Kick(t)
      invariant hit <==> Collides(b, g, x, y)
      invariant FirstKick(b, g, x0, y, t) == FirstKick(b, g, x0, y, 0)
      decreases KickLimit(|g|) - t
    {
      KickNext(t);
      x := x + offset;
      offset := -(offset + (if offset > 0 then 1 else -1));
      t := t + 1;
      if offset > m.Length1 {
        return false, x0;
      }
      hit := Collide(b, m, g, x, y);
    }
    FitsOnBoard(b, g, x, y);
    found := true;
  }

  /**
   * Where a piece on the board falls to: its blocks stay on the board's
   * columns, and it leaves the board only by the step back above a piece
   * that already collided at y0.
   */
  lemma LandingRow(b: Grid, g: Grid, x: int, y0: int, y: int)
    requires IsRect(b, ROWS, COLS) && OnBoard(b, g, x, y0) && DropsTo(b, g, x, y0, y)
    ensures ColsIn(b, g, x, y)
    ensures OnBoard(b, g, x, y) <==> RowsIn(b, g, y, |g|)
    ensures !OnBoard(b, g, x, y) ==> y == y0 - 1
    ensures !Collides(b, g, x, y0) ==> OnBoard(b, g, x, y)
  {
    ColsAnyRow(b, g, x, y0, y);
    OnBoardParts(b, g, x, y);
    if y >= y0 {
      FitsOnBoard(b, g, x, y);
    }
  }

  /**
   * A merge one row above a position on the board can only stop at a block
   * lifted above row 0, and every row before that one is above the board too,
   * so nothing was written.
   */
  lemma ThrowWritesNothing(b: Grid, b': Grid, g: Grid, x: int, y: int)
    requires OnBoard(b, g, x, y + 1)
    requires exists n | 0 <= n < |g| ::
      RowsIn(b, g, y, n) && !RowsIn(b, g, y, n + 1) && b' == Merged(b, g[..n], x, y)
    ensures b' == b
  {
    var n :| 0 <= n < |g| && RowsIn(b, g, y, n) && !RowsIn(b, g, y, n + 1) && b' == Merged(b, g[..n], x, y);
    StoppedAboveBoard(b, g, x, y, n);
  }

  /**
   * The hard drop up to its merge: the piece held by `m` falls from row y0
   * while it does not collide, steps back a row and is merged there. The
   * merge throws (`ok` false) only when the piece already collided at y0 and
   * the step back lifts a block above row 0; it has then written nothing.
   */
  method DropAndMerge(b: Grid, m: array2<int>, ghost g: Grid, x: int, y0: int) returns (b': Grid, y: int, ok: bool)
    requires IsRect(b, ROWS, COLS) && Holds(m, g) && HasBlock(g) && OnBoard(b, g, x, y0)
    ensures y == DropRow(b, g, x, y0)
    ensures ok <==> OnBoard(b, g, x, y)
    ensures ok ==> b' == Merged(b, g, x, y) && IsRect(b', ROWS, COLS) && OnBoard(b', g, x, y)
    ensures !ok ==> y == y0 - 1 && b' == b
    ensures !Collides(b, g, x, y0) ==> ok
  {
    y := Fall(b, m, g, x, y0);
    DropRowFalls(b, g, x, y0);
    LandingRow(b, g, x, y0, y);
    b', ok := MergeLanded(b, m, g, x, y);
  }

  /**
   * `merge(arena, player)` for a piece on the board's columns that is on the
   * board or one row above a position on the board: it either merges the
   * whole piece or throws before writing anything.
   */
  method MergeLanded(b: Grid, m: array2<int>, ghost g: Grid, x: int, y: int) returns (b': Grid, ok: bool)
    requires IsRect(b, ROWS, COLS) && Holds(m, g) && ColsIn(b, g, x, y)
    requires OnBoard(b, g, x, y) || OnBoard(b, g, x, y + 1)
    ensures ok <==> OnBoard(b, g, x, y)
    ensures ok ==> b' == Merged(b, g, x, y) && IsRect(b', ROWS, COLS) && OnBoard(b', g, x, y)
    ensures !ok ==> b' == b
  {
    OnBoardParts(b, g, x, y);
    b', ok := Merge(b, m, g, x, y);
    if ok {
      OnBoardSameShape(b, b', g, x, y);
    } else {
      ThrowWritesNothing(b, b', g, x, y);
    }
  }

  /** The inner loop of `arenaSweep()`: scans the row from the left and stops at the first empty cell. */
  method ScanRow(row: seq<int>) returns (full: bool)
    ensures full <==> Full(row)
  {
    var x := 0;
    while x < |row|
      invariant 0 <= x <= |row|
      invariant forall c | 0 <= c < x :: row[c] != 0
    {
      if row[x] == 0 {
        return false;
      }
      x := x + 1;
    }
    return true;
  }

  // ---------------------------------------------------------------------
  // The game
  // ---------------------------------------------------------------------

  class Tetris {
    var arena: Grid
    /** The `pieces` table, one array per kind; the arrays are shared with the player and turned in place. */
    const pieces: seq<array2<int>>
    /** `player.matrix`: null until the game starts, then one of the arrays of `pieces`. */
    var matrix: array2?<int>
    /** The kind whose table array `matrix` is. */
    ghost var kind: nat
    /** What the table's arrays hold, kind by kind. */
    ghost var shapes: seq<Grid>
    var posX: int
    var posY: int
    var score: int
    /** Milliseconds since the last drop. */
    var dropCounter: real
    var gameStarted: bool
    var gamePaused: bool

    /** The table holds seven distinct square arrays, each its kind in some orientation, as recorded in `shapes`. */
    ghost predicate TableOK()
      reads this`shapes, pieces
    {
      |pieces| == KINDS && (forall a, b | 0 <= a < b < KINDS :: pieces[a] != pieces[b]) &&
      CatalogOK(shapes) &&
      forall k | 0 <= k < KINDS :: pieces[k].Length0 == pieces[k].Length1 && Holds(pieces[k], shapes[k])
    }

    /**
     * Everything but the player's position: the arena keeps its 20 x 12 shape,
     * the table is as above, a player's matrix is the table's array for
     * `kind`, the score is not negative and only a started game can be paused.
     */
    ghost predicate Steady()
      reads this`arena, this`shapes, this`matrix, this`kind, this`score, this`gameStarted, this`gamePaused, pieces
    {
      IsRect(arena, ROWS, COLS) && TableOK() && score >= 0 && (gamePaused ==> gameStarted) &&
      (matrix != null ==> kind < KINDS == |pieces| && kind < |shapes| && matrix == pieces[kind])
    }

    /** The state is steady and the player's blocks all lie on the board. */
    ghost predicate Valid()
      reads this, pieces
    {
      Steady() && (matrix != null ==> OnBoard(arena, shapes[kind], posX, posY))
    }

    /** The player's piece overlaps a block or leaves the board. */
    ghost predicate Colliding()
      requires kind < |shapes|
      reads this
    {
      Collides(arena, shapes[kind], posX, posY)
    }

    /** The state when the script is loaded: an empty arena, the table as written, no player yet. */
    constructor ()
      ensures Valid()
      ensures arena == Zeros(ROWS, COLS)
      ensures forall k | 0 <= k < KINDS :: fresh(pieces[k]) && shapes[k] == Shape(k)
      ensures matrix == null && posX == 0 && posY == 0 && score == 0 && dropCounter == 0.0
      ensures !gameStarted && !gamePaused
    {
      var a := CreateMatrix(ROWS, COLS);
      var p := CreateCatalog();
      arena := a;
      pieces := p;
      matrix := null;
      kind := 0;
      posX, posY := 0, 0;
      score := 0;
      dropCounter := 0.0;
      gameStarted, gamePaused := false, false;
      shapes := seq(KINDS, k requires 0 <= k < KINDS => Shape(k));
      new;
      assert forall r | 0 <= r < ROWS :: arena[r] == Zeros(ROWS, COLS)[r];
      forall k | 0 <= k < KINDS ensures PieceOK(shapes[k], k) {
        ShapesOK(k);
      }
    }

    /**
     * `playerReset()` with the random kind given as `k`: the player takes the
     * table's own array for `k` and spawns at the top centre; a spawn that
     * collides empties the arena and zeroes the score, and then the piece fits.
     */
    method PlayerReset(k: nat)
      requires Valid() && k < KINDS
      modifies this`matrix, this`kind, this`posX, this`posY, this`arena, this`score
      ensures Valid()
      ensures matrix == pieces[k] && kind == k && posY == 0 && posX == SpawnX(Side(k))
      ensures (arena, score) == Spawn(old(arena), old(score), shapes[k])
      ensures !Colliding()
    {
      var m := pieces[k];
      ghost var g := shapes[k];
      assert PieceOK(g, k);
      var b, s, x := Respawn(arena, score, m, g);
      matrix, kind, posY, posX, arena, score := m, k, 0, x, b, s;
    }

    /** `playerMove(dir)`: shifts the piece by `dir` columns unless it would then collide. */
    method PlayerMove(dir: int)
      requires Valid() && matrix != null
      modifies this`posX
      ensures Valid()
      ensures posX == if Collides(arena, shapes[kind], old(posX) + dir, posY) then old(posX) else old(posX) + dir
      ensures old(!Colliding()) ==> !Colliding()
    {
      ghost var g := shapes[kind];
      var hit := Collide(arena, matrix, g, posX + dir, posY);
      if !hit {
        FitsOnBoard(arena, g, posX + dir, posY);
        posX := posX + dir;
      }
    }

    /**
     * `rotate(player.matrix, dir)`: turns the table's own array for `kind` in
     * place, so later spawns of this kind start from the turned matrix too.
     */
    method Turn(dir: int)
      requires Steady() && matrix != null
      modifies this`shapes, matrix
      ensures Steady() && shapes == old(shapes)[kind := Rotated(old(shapes[kind]), dir)]
    {
      ghost var g := shapes[kind];
      assert PieceOK(g, kind);
      Rotate(matrix, g, dir);
      RotateKeepsPiece(g, kind, dir);
      shapes := shapes[kind := Rotated(g, dir)];
      forall k | 0 <= k < KINDS ensures Holds(pieces[k], shapes[k]) {
        if k != kind {
          assert pieces[k] != matrix;
        }
      }
    }

    /**
     * `playerRotate(dir)`: the piece is turned, then shifted by 1, -2, 3, ...
     * while it collides, so the offsets tried are those of `FirstKick`. If
     * none is free the piece is turned back and x restored.
     */
    method PlayerRotate(dir: int)
      requires Valid() && matrix != null && dir != 0
      modifies this`posX, this`shapes, matrix
      ensures var g1 := Rotated(old(shapes[kind]), dir);
        match FirstKick(arena, g1, old(posX), posY, 0)
        case Some(t) => posX == old(posX) + Kick(t) && shapes == old(shapes)[kind := g1]
        case None => posX == old(posX) && shapes == old(shapes)
      ensures Valid()
    {
      ghost var g0 := shapes[kind];
      assert PieceOK(g0, kind);
      Turn(dir);
      var found, x := KickSearch(arena, matrix, shapes[kind], posX, posY);
      if found {
        posX := x;
      } else {
        Turn(-dir);
        RotateRoundTrip(g0, dir);
      }
    }

    /**
     * `arenaSweep()`: from the bottom row up, a row without an empty cell is
     * removed and an empty row put on top, for 10, 20, 40, ... points; the
     * scan then moves up one row, past the row that just slid down.
     */
    method ArenaSweep()
      requires IsRect(arena, ROWS, COLS)
      modifies this`arena, this`score
      ensures arena == SweepResult(old(arena)).0
      ensures score == old(score) + SweepResult(old(arena)).1
    {
      ghost var orig := arena;
      ghost var top: nat := |arena|;
      ghost var keptBelow: Grid := [];
      ghost var removedBelow: Grid := [];
      assert orig[..top] == orig;
      assert Zeros(0, COLS) + orig + [] == orig;
      ghost var (k0, r0) := Sweep(orig, true);
      assert k0 + [] == k0 && r0 + [] == r0;
      var rowCount := 1;
      var y := |arena| - 1;
      while y >= 0
        invariant IsRect(orig, ROWS, COLS)
        invariant -1 <= y < ROWS && top <= ROWS
        invariant arena == Zeros(|removedBelow|, COLS) + orig[..top] + keptBelow
        invariant top > 0 ==> y == |removedBelow| + top - 1
        invariant top == 0 ==> y < |removedBelow|
        invariant Sweep(orig, true) ==
          (Sweep(orig[..top], true).0 + keptBelow, Sweep(orig[..top], true).1 + removedBelow)
        invariant rowCount == Pow2(|removedBelow|)
        invariant score == old(score) + 10 * (Pow2(|removedBelow|) - 1)
      {
        var full := ScanRow(arena[y]);
        if full {
          SweepRemoveStep(orig, top, keptBelow, removedBelow, arena, y);
          var row := seq(|arena[y]|, _ => 0);
          arena := [row] + arena[..y] + arena[y + 1..];
          score := score + rowCount * 10;
          rowCount := rowCount * 2;
          if top >= 2 {
            keptBelow := [orig[top - 2]] + keptBelow;
          }
          removedBelow := [orig[top - 1]] + removedBelow;
          top := if top >= 2 then top - 2 else 0;
        } else if top > 0 {
          SweepKeepStep(orig, top, keptBelow, removedBelow, arena, y);
          keptBelow := [orig[top - 1]] + keptBelow;
          top := top - 1;
        }
        y := y - 1;
      }
      assert orig[..0] == [];
    }

    /**
     * What both drops do once the piece is merged: `playerReset()` with the
     * next kind given, then `arenaSweep()`.
     */
    method Settle(next: nat)
      requires Valid() && next < KINDS
      modifies this`matrix, this`kind, this`posX, this`posY, this`arena, this`score
      ensures Valid()
      ensures matrix == pieces[next] && kind == next && posX == SpawnX(Side(next)) && posY == 0
      ensures (arena, score) == Settled(old(arena), old(score), shapes[next])
    {
      PlayerReset(next);
      ghost var b1 := arena;
      SweepKeepsShape(b1);
      ArenaSweep();
      OnBoardSameShape(b1, arena, shapes[kind], posX, posY);
    }

    /**
     * The piece is merged where it is, the next piece spawns and the rows are
     * swept: what `playerDrop()` does once the row below collides.
     */
    method Land(next: nat)
      requires Valid() && matrix != null && next < KINDS
      modifies this`matrix, this`kind, this`posX, this`posY, this`arena, this`score
      ensures Valid()
      ensures matrix == pieces[next] && kind == next && posX == SpawnX(Side(next)) && posY == 0
      ensures (arena, score) == Landing(old(arena), old(score), old(shapes[kind]), old(posX), old(posY), shapes[next])
    {
      ghost var g := shapes[kind];
      OnBoardParts(arena, g, posX, posY);
      var b, ok := Merge(arena, matrix, g, posX, posY);
      OnBoardSameShape(arena, b, g, posX, posY);
      arena := b;
      Settle(next);
    }

    /**
     * `playerDrop()` with the next random kind given: the piece moves down a
     * row, or if that collides it lands where it was. Either way the drop
     * timer restarts.
     */
    method PlayerDrop(next: nat)
      requires Valid() && matrix != null && next < KINDS
      modifies this`matrix, this`kind, this`posX, this`posY, this`arena, this`score, this`dropCounter
      ensures Valid() && dropCounter == 0.0
      ensures
        var g, x, y := old(shapes[kind]), old(posX), old(posY);
        if !Collides(old(arena), g, x, y + 1) then
          posY == y + 1 && posX == x && matrix == old(matrix) && arena == old(arena) && score == old(score)
        else
          matrix == pieces[next] && kind == next && posX == SpawnX(Side(next)) && posY == 0 &&
          (arena, score) == Landing(old(arena), old(score), g, x, y, shapes[next])
    {
      ghost var g := shapes[kind];
      var hit := Collide(arena, matrix, g, posX, posY + 1);
      if hit {
        Land(next);
      } else {
        FitsOnBoard(arena, g, posX, posY + 1);
        posY := posY + 1;
      }
      RestartTimer();
    }

    /**
     * The hard drop of the key handler: the piece falls as far as it can and
     * is merged there. If it already collided the step back takes it a row up;
     * when that puts a block above row 0 the merge throws (`ok` false) before
     * writing anything, leaving only y changed.
     */
    method HardDrop(next: nat) returns (ok: bool)
      requires Valid() && matrix != null && next < KINDS
      modifies this`matrix, this`kind, this`posX, this`posY, this`arena, this`score, this`dropCounter
      ensures old(!Colliding()) ==> ok
      ensures
        var g, x, y0 := old(shapes[kind]), old(posX), old(posY);
        var y := DropRow(old(arena), g, x, y0);
        (ok <==> OnBoard(old(arena), g, x, y)) &&
        (ok ==>
          Valid() && dropCounter == 0.0 &&
          matrix == pieces[next] && kind == next && posX == SpawnX(Side(next)) && posY == 0 &&
          (arena, score) == Landing(old(arena), old(score), g, x, y, shapes[next])) &&
        (!ok ==>
          y == y0 - 1 && posY == y && matrix == old(matrix) && posX == x &&
          arena == old(arena) && score == old(score) && dropCounter == old(dropCounter))
    {
      ghost var b0, g, x0, s0 := arena, shapes[kind], posX, score;
      assert PieceOK(g, kind);
      var b, y;
      b, y, ok := DropAndMerge(arena, matrix, g, posX, posY);
      if ok {
        SettleMerged(b, y, next);
        assert Landing(b0, s0, g, x0, y, shapes[next]) == Settled(b, s0, shapes[next]);
      } else {
        posY := y;
      }
    }

    /**
     * The end of the hard drop once the blocks are merged into `b` at row `y`:
     * the arena becomes `b`, the next piece spawns, rows are swept and the
     * drop timer restarts.
     */
    method SettleMerged(b: Grid, y: int, next: nat)
      requires Steady() && matrix != null && next < KINDS
      requires IsRect(b, ROWS, COLS) && OnBoard(b, shapes[kind], posX, y)
      modifies this`matrix, this`kind, this`posX, this`posY, this`arena, this`score, this`dropCounter
      ensures Valid() && dropCounter == 0.0
      ensures matrix == pieces[next] && kind == next && posX == SpawnX(Side(next)) && posY == 0
      ensures (arena, score) == Settled(b, old(score), shapes[next])
    {
      posY, arena := y, b;
      Settle(next);
      RestartTimer();
    }

    /** `dropCounter = 0`: the time since the last drop starts over. */
    method RestartTimer()
      requires Valid()
      modifies this`dropCounter
      ensures Valid() && dropCounter == 0.0
    {
      dropCounter := 0.0;
    }

    /** `startGame()` with the first random kind given: only the first call has an effect. */
    method StartGame(k: nat)
      requires Valid() && k < KINDS
      modifies this`gameStarted, this`gamePaused, this`matrix, this`kind, this`posX, this`posY, this`arena, this`score
      ensures Valid() && gameStarted
      ensures if old(gameStarted) then
          gamePaused == old(gamePaused) && matrix == old(matrix) &&
          posX == old(posX) && posY == old(posY) && arena == old(arena) && score == old(score)
        else
          !gamePaused && matrix == pieces[k] && kind == k && posY == 0 && posX == SpawnX(Side(k)) &&
          (arena, score) == Spawn(old(arena), old(score), shapes[k])
    {
      if gameStarted {
        return;
      }
      gameStarted, gamePaused := true, false;
      PlayerReset(k);
    }

    /** `pauseGame()`: pauses a started, running game; otherwise does nothing. */
    method PauseGame()
      requires Valid()
      modifies this`gamePaused
      ensures Valid()
      ensures gamePaused == (old(gamePaused) || old(gameStarted))
    {
      if !gameStarted || gamePaused {
        return;
      }
      gamePaused := true;
    }

    /** `resumeGame()`: resumes a started, paused game; otherwise does nothing. */
    method ResumeGame()
      requires Valid()
      modifies this`gamePaused
      ensures Valid()
      ensures gamePaused == (old(gamePaused) && !old(gameStarted))
    {
      if !gameStarted || !gamePaused {
        return;
      }
      gamePaused := false;
    }

    /** The pause button: resumes a paused game, pauses a running one. */
    method PauseButton()
      requires Valid()
      modifies this`gamePaused
      ensures Valid()
      ensures gamePaused == (old(gameStarted) && !old(gamePaused))
    {
      if gamePaused {
        ResumeGame();
      } else {
        PauseGame();
      }
    }
  }
}
