/**
 * The seven piece kinds T, O, L, J, I, S, Z (in this order, kind 0..6), each a
 * square matrix whose blocks carry the colour kind + 1, and the quarter turn
 * that `rotate` applies to a matrix in place: transpose, then reverse each row
 * (clockwise) or the order of the rows (counter-clockwise).
 */
module Pieces {
  import opened Board

  const KINDS: nat := 7

  /** The side of the square matrix of each kind. */
  function Side(kind: nat): (n: nat)
    requires kind < KINDS
    ensures 2 <= n <= 4
  {
    [3, 2, 3, 3, 4, 3, 3][kind]
  }

  /** The matrices of the `pieces` table, as first created. */
  function Shape(kind: nat): Grid
    requires kind < KINDS
  {
    match kind
    case 0 => [[0, 0, 0], [1, 1, 1], [0, 1, 0]]
    case 1 => [[2, 2], [2, 2]]
    case 2 => [[0, 3, 0], [0, 3, 0], [0, 3, 3]]
    case 3 => [[0, 4, 0], [0, 4, 0], [4, 4, 0]]
    case 4 => [[0, 5, 0, 0], [0, 5, 0, 0], [0, 5, 0, 0], [0, 5, 0, 0]]
    case 5 => [[0, 6, 6], [6, 6, 0], [0, 0, 0]]
    case _ => [[7, 7, 0], [0, 7, 7], [0, 0, 0]]
  }

  /** `g` has at least one block. */
  predicate HasBlock(g: Grid) {
    exists i, j | 0 <= i < |g| && 0 <= j < |g[i]| :: g[i][j] != 0
  }

  /**
   * A matrix of kind `kind` in some orientation: square of the kind's side,
   * every cell empty or of the kind's colour, and at least one block.
   */
  predicate PieceOK(g: Grid, kind: nat)
    requires kind < KINDS
  {
    IsRect(g, Side(kind), Side(kind)) &&
    (forall i, j | 0 <= i < |g| && 0 <= j < |g[i]| :: g[i][j] == 0 || g[i][j] == kind + 1) &&
    HasBlock(g)
  }

  /** Seven matrices, each its kind in some orientation. */
  predicate CatalogOK(c: seq<Grid>) {
    |c| == KINDS && forall k | 0 <= k < KINDS :: PieceOK(c[k], k)
  }

  /** Every matrix of the table is a well-formed piece of its kind. */
  lemma ShapesOK(kind: nat)
    requires kind < KINDS
    ensures PieceOK(Shape(kind), kind)
  {
    var g := Shape(kind);
    if kind == 1 {
      assert g[0][0] != 0;
    } else {
      assert g[1][1] != 0;
    }
  }

  predicate IsSquare(g: Grid) {
    IsRect(g, |g|, |g|)
  }

  function Transposed(g: Grid): Grid
    requires IsSquare(g)
  {
    seq(|g|, i requires 0 <= i < |g| => seq(|g|, j requires 0 <= j < |g| => g[j][i]))
  }

  function Reversed<T>(s: seq<T>): seq<T> {
    seq(|s|, k requires 0 <= k < |s| => s[|s| - 1 - k])
  }

  /** `rotate(matrix, dir)`: the transpose, then each row reversed if dir > 0, else the row order reversed. */
  function Rotated(g: Grid, dir: int): Grid
    requires IsSquare(g)
  {
    var t := Transposed(g);
    if dir > 0 then seq(|t|, i requires 0 <= i < |t| => Reversed(t[i])) else Reversed(t)
  }

  /**
   * The quarter turn by index: clockwise, cell (i, j) receives (n-1-j, i);
   * counter-clockwise, it receives (j, n-1-i).
   */
  lemma RotatedAt(g: Grid, dir: int)
    requires IsSquare(g)
    ensures IsSquare(Rotated(g, dir)) && |Rotated(g, dir)| == |g|
    ensures forall i, j | 0 <= i < |g| && 0 <= j < |g| ::
      Rotated(g, dir)[i][j] == if dir > 0 then g[|g| - 1 - j][i] else g[j][|g| - 1 - i]
  {
  }

  /** Turning one way and then the other restores the matrix. */
  lemma RotateRoundTrip(g: Grid, dir: int)
    requires IsSquare(g) && dir != 0
    ensures IsSquare(Rotated(g, dir)) && Rotated(Rotated(g, dir), -dir) == g
  {
    var n := |g|;
    RotatedAt(g, dir);
    var h := Rotated(g, dir);
    RotatedAt(h, -dir);
    var back := Rotated(h, -dir);
    forall i, j | 0 <= i < n && 0 <= j < n ensures back[i][j] == g[i][j] {
      if dir > 0 {
        assert back[i][j] == h[j][n - 1 - i];
      } else {
        assert back[i][j] == h[n - 1 - j][i];
      }
    }
    assert forall i | 0 <= i < n :: back[i] == g[i];
  }

  /** Two clockwise turns send cell (i, j) to (n-1-i, n-1-j). */
  lemma HalfTurn(g: Grid)
    requires IsSquare(g)
    ensures var h := Rotated(Rotated(g, 1), 1);
      IsSquare(h) && |h| == |g| &&
      forall i, j | 0 <= i < |g| && 0 <= j < |g| :: h[i][j] == g[|g| - 1 - i][|g| - 1 - j]
  {
    var n := |g|;
    RotatedAt(g, 1);
    var g1 := Rotated(g, 1);
    RotatedAt(g1, 1);
    var g2 := Rotated(g1, 1);
    forall i, j | 0 <= i < n && 0 <= j < n ensures g2[i][j] == g[n - 1 - i][n - 1 - j] {
      assert g2[i][j] == g1[n - 1 - j][i];
    }
  }

  /** Four clockwise turns bring the matrix back. */
  lemma FourTurns(g: Grid)
    requires IsSquare(g)
    ensures var g4 := Rotated(Rotated(Rotated(Rotated(g, 1), 1), 1), 1); g4 == g
  {
    var n := |g|;
    HalfTurn(g);
    var g2 := Rotated(Rotated(g, 1), 1);
    HalfTurn(g2);
    var g4 := Rotated(Rotated(g2, 1), 1);
    forall i, j | 0 <= i < n && 0 <= j < n ensures g4[i][j] == g[i][j] {
      assert g4[i][j] == g2[n - 1 - i][n - 1 - j];
    }
    assert forall i | 0 <= i < n :: g4[i] == g[i];
  }

  /** Turning moves cells around and nothing else: every cell of the turn is some cell of `g`. */
  lemma RotatedCellsFrom(g: Grid, dir: int, i: int, j: int)
    requires IsSquare(g) && 0 <= i < |g| && 0 <= j < |g|
    ensures exists a, b | 0 <= a < |g| && 0 <= b < |g| :: Rotated(g, dir)[i][j] == g[a][b]
  {
    RotatedAt(g, dir);
    var n := |g|;
    if dir > 0 {
      assert Rotated(g, dir)[i][j] == g[n - 1 - j][i];
    } else {
      assert Rotated(g, dir)[i][j] == g[j][n - 1 - i];
    }
  }

  /** Every cell of `g` lands somewhere in its turn. */
  lemma RotatedCellsTo(g: Grid, dir: int, a: int, b: int)
    requires IsSquare(g) && 0 <= a < |g| && 0 <= b < |g|
    ensures exists i, j | 0 <= i < |g| && 0 <= j < |g| :: Rotated(g, dir)[i][j] == g[a][b]
  {
    RotatedAt(g, dir);
    var n := |g|;
    if dir > 0 {
      assert Rotated(g, dir)[b][n - 1 - a] == g[a][b];
    } else {
      assert Rotated(g, dir)[n - 1 - b][a] == g[a][b];
    }
  }

  /** A turned piece is still a well-formed piece of its kind. */
  lemma RotateKeepsPiece(g: Grid, kind: nat, dir: int)
    requires kind < KINDS && PieceOK(g, kind)
    ensures IsSquare(g) && PieceOK(Rotated(g, dir), kind)
  {
    var n := |g|;
    RotatedAt(g, dir);
    var h := Rotated(g, dir);
    forall i, j | 0 <= i < n && 0 <= j < n ensures h[i][j] == 0 || h[i][j] == kind + 1 {
      RotatedCellsFrom(g, dir, i, j);
    }
    var a, b :| 0 <= a < n && 0 <= b < |g[a]| && g[a][b] != 0;
    RotatedCellsTo(g, dir, a, b);
  }

  // ---------------------------------------------------------------------
  // In place
  // ---------------------------------------------------------------------

  /** Swaps m[x][y] and m[y][x] for every x < y. */
  method Transpose(m: array2<int>)
    requires m.Length0 == m.Length1
    modifies m
    ensures forall a, b | 0 <= a < m.Length0 && 0 <= b < m.Length1 :: m[a, b] == old(m[b, a])
  {
    var n := m.Length0;
    for y := 0 to n
      invariant forall a, b | 0 <= a < n && 0 <= b < n ::
        m[a, b] == if a < y && b < y then old(m[b, a]) else old(m[a, b])
    {
      for x := 0 to y
        invariant forall a, b | 0 <= a < n && 0 <= b < n ::
          m[a, b] == if (a < y && b < y) || (a == y && b < x) || (b == y && a < x)
            then old(m[b, a]) else old(m[a, b])
      {
        m[x, y], m[y, x] := m[y, x], m[x, y];
      }
    }
  }

  /** `row.reverse()` for every row. */
  method ReverseEachRow(m: array2<int>)
    modifies m
    ensures forall a, b | 0 <= a < m.Length0 && 0 <= b < m.Length1 ::
      m[a, b] == old(m[a, m.Length1 - 1 - b])
  {
    var w := m.Length1;
    for i := 0 to m.Length0
      invariant forall a, b | 0 <= a < m.Length0 && 0 <= b < w ::
        m[a, b] == if a < i then old(m[a, w - 1 - b]) else old(m[a, b])
    {
      for j := 0 to w / 2
        invariant forall a, b | 0 <= a < m.Length0 && 0 <= b < w ::
          m[a, b] == if a < i || (a == i && (b < j || w - 1 - b < j))
            then old(m[a, w - 1 - b]) else old(m[a, b])
      {
        m[i, j], m[i, w - 1 - j] := m[i, w - 1 - j], m[i, j];
      }
    }
  }

  /** `matrix.reverse()`: the order of the rows is reversed. */
  method ReverseRowOrder(m: array2<int>)
    modifies m
    ensures forall a, b | 0 <= a < m.Length0 && 0 <= b < m.Length1 ::
      m[a, b] == old(m[m.Length0 - 1 - a, b])
  {
    var h := m.Length0;
    for i := 0 to h / 2
      invariant forall a, b | 0 <= a < h && 0 <= b < m.Length1 ::
        m[a, b] == if a < i || h - 1 - a < i then old(m[h - 1 - a, b]) else old(m[a, b])
    {
      for j := 0 to m.Length1
        invariant forall a, b | 0 <= a < h && 0 <= b < m.Length1 ::
          m[a, b] == if a < i || h - 1 - a < i || ((a == i || a == h - 1 - i) && b < j)
            then old(m[h - 1 - a, b]) else old(m[a, b])
      {
        m[i, j], m[h - 1 - i, j] := m[h - 1 - i, j], m[i, j];
      }
    }
  }

  /** `rotate(matrix, dir)` on a square matrix holding `g`, in place: afterwards it holds `g` turned. */
  method Rotate(m: array2<int>, ghost g: Grid, dir: int)
    requires m.Length0 == m.Length1 && Holds(m, g)
    modifies m
    ensures IsSquare(g) && Holds(m, Rotated(g, dir))
  {
    var n := m.Length0;
    RotatedAt(g, dir);
    ghost var h := Rotated(g, dir);
    Transpose(m);
    label transposed:
    if dir > 0 {
      ReverseEachRow(m);
      forall i, j | 0 <= i < n && 0 <= j < n ensures m[i, j] == h[i][j] {
        assert m[i, j] == old@transposed(m[i, n - 1 - j]);
      }
    } else {
      ReverseRowOrder(m);
      forall i, j | 0 <= i < n && 0 <= j < n ensures m[i, j] == h[i][j] {
        assert m[i, j] == old@transposed(m[n - 1 - i, j]);
      }
    }
  }

  /** A fresh array holding `g`. */
  method FromGrid(g: Grid) returns (m: array2<int>)
    requires IsSquare(g)
    ensures fresh(m) && m.Length0 == m.Length1 == |g| && Holds(m, g)
  {
    var n := |g|;
    m := new int[n, n]((i, j) requires 0 <= i < n && 0 <= j < n => g[i][j]);
  }

  /** The `pieces` table: one array per kind, each holding its shape. */
  method CreateCatalog() returns (pieces: seq<array2<int>>)
    ensures |pieces| == KINDS
    ensures forall a, b | 0 <= a < b < KINDS :: pieces[a] != pieces[b]
    ensures forall k | 0 <= k < KINDS ::
      fresh(pieces[k]) && pieces[k].Length0 == pieces[k].Length1 == Side(k) && Holds(pieces[k], Shape(k))
  {
    pieces := [];
    for k := 0 to KINDS
      invariant |pieces| == k
      invariant forall a, b | 0 <= a < b < k :: pieces[a] != pieces[b]
      invariant forall a | 0 <= a < k ::
        fresh(pieces[a]) && pieces[a].Length0 == pieces[a].Length1 == Side(a) && Holds(pieces[a], Shape(a))
    {
      ShapesOK(k);
      var p := FromGrid(Shape(k));
      pieces := pieces + [p];
    }
  }
}
