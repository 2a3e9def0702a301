/** Knight.java: the knight's move and its positional value. */
module Knights {
  import opened Players
  import opened Figures

  /** Base material value of a knight. */
  const VALUE: int := 320

  /** Positional bonus, indexed [file][rank] from White's side of the board. */
  const EVAL: seq<seq<int>> := [
    [-50, -40, -30, -30, -30, -30, -40, -50],
    [-40, -20,   5,   0,   5,   0, -20, -40],
    [-30,   0,  10,  15,  15,  10,   0, -30],
    [-30,   5,  15,  20,  20,  15,   0, -30],
    [-30,   5,  15,  20,  20,  15,   0, -30],
    [-30,   0,  10,  15,  15,  10,   0, -30],
    [-40, -20,   5,   0,   5,   0, -20, -40],
    [-50, -40, -30, -30, -30, -30, -40, -50]
  ]

  /** Every entry of the table, with its bounds. */
  lemma EvalBounds(x: int, y: int)
    requires OnBoard(x, y)
    ensures |EVAL| == 8 && |EVAL[x]| == 8
    ensures -50 <= EVAL[x][y] <= 20
  {
    assert x == 0 || x == 1 || x == 2 || x == 3 || x == 4 || x == 5 || x == 6 || x == 7;
  }

  /** The table reads the same from the queen's side and from the king's side. */
  lemma EvalFileSymmetric(x: int, y: int)
    requires OnBoard(x, y)
    ensures EVAL[x][y] == EVAL[7 - x][y]
  {
    assert x == 0 || x == 1 || x == 2 || x == 3 || x == 4 || x == 5 || x == 6 || x == 7;
  }

  /** The knight's jump: two squares one way and one square the other. */
  predicate Geometry(x: int, y: int, tx: int, ty: int) {
    var dx := Abs(tx - x);
    var dy := Abs(ty - y);
    (dx == 2 && dy == 1) || (dx == 1 && dy == 2)
  }

  /** Knight.isSquareReachable: the base rule, then the jump. */
  predicate Reachable(g: Grid, owner: Player, x: int, y: int, tx: int, ty: int)
    requires |g| == 64 && OnBoard(x, y) && OnBoard(tx, ty)
  {
    BaseReachable(g, owner, x, y, tx, ty) && Geometry(x, y, tx, ty)
  }

  /** Knight.getValue: Black reads the table from the opposite rank. */
  function Value(owner: Player, x: int, y: int): (v: int)
    requires OnBoard(x, y)
    ensures 270 <= v <= 340
  {
    EvalBounds(x, y);
    EvalBounds(x, 7 - y);
    match owner
    case White => VALUE + EVAL[x][y]
    case Black => VALUE + EVAL[x][7 - y]
  }

  /** A reachable square passes the inherited base check. */
  lemma ReachableNeedsBase(g: Grid, owner: Player, x: int, y: int, tx: int, ty: int)
    requires |g| == 64 && OnBoard(x, y) && OnBoard(tx, ty)
    requires Reachable(g, owner, x, y, tx, ty)
    ensures BaseReachable(g, owner, x, y, tx, ty)
  {
  }

  /** Reachable is exactly the base rule plus the (2,1)/(1,2) offsets. */
  lemma ReachableIff(g: Grid, owner: Player, x: int, y: int, tx: int, ty: int)
    requires |g| == 64 && OnBoard(x, y) && OnBoard(tx, ty)
    ensures Reachable(g, owner, x, y, tx, ty) <==>
              BaseReachable(g, owner, x, y, tx, ty) &&
              (((tx - x == 2 || tx - x == -2) && (ty - y == 1 || ty - y == -1)) ||
               ((tx - x == 1 || tx - x == -1) && (ty - y == 2 || ty - y == -2)))
  {
  }

  /** The jump is symmetric, and never stays on its own file or rank. */
  lemma GeometrySymmetric(x: int, y: int, tx: int, ty: int)
    requires Geometry(x, y, tx, ty)
    ensures Geometry(tx, ty, x, y)
    ensures tx != x && ty != y
  {
  }

  /** A White knight is worth what a Black knight is worth on the colour-mirrored square. */
  lemma ValueMirrored(x: int, y: int)
    requires OnBoard(x, y)
    ensures Value(White, x, y) == Value(Black, x, 7 - y)
    ensures Value(Black, x, y) == Value(White, x, 7 - y)
  {
  }

  /** A knight is worth the same on the files mirrored across the board's centre. */
  lemma ValueFileMirrored(owner: Player, x: int, y: int)
    requires OnBoard(x, y)
    ensures Value(owner, x, y) == Value(owner, 7 - x, y)
  {
    EvalFileSymmetric(x, y);
    EvalFileSymmetric(x, 7 - y);
  }
}
