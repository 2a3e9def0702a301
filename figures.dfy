/**
 * What every piece shares: kinds, owners, squares, the grid they stand on and the
 * position facts that reachability reads.  Figure, Bishop, Rook, Queen and King
 * are outside this model; the members marked ASSUMPTION below stand in for them
 * with the usual chess moves and values.
 */
module Figures {
  import opened Players

  datatype Option<T> = None | Some(value: T)

  datatype Kind = Pawn | Knight | Bishop | Rook | Queen | King

  /**
   * A piece as its board holds it.  Its square is the index of the cell that
   * holds it, so moving a piece and updating its coordinates is one step here.
   */
  datatype Piece = Piece(kind: Kind, owner: Player)

  /** Board contents: 64 cells, cell 8 * x + y holding square (file x, rank y). */
  type Grid = seq<Option<Piece>>

  predicate OnBoard(x: int, y: int) {
    0 <= x < 8 && 0 <= y < 8
  }

  function Index(x: int, y: int): (i: int)
    requires OnBoard(x, y)
    ensures 0 <= i < 64
    ensures i / 8 == x && i % 8 == y
  {
    8 * x + y
  }

  function At(g: Grid, x: int, y: int): Option<Piece>
    requires |g| == 64 && OnBoard(x, y)
  {
    g[Index(x, y)]
  }

  /** The en-passant markers, one file (or -1) per colour. */
  datatype Markers = Markers(white: int, black: int) {
    function Of(p: Player): int {
      if p == White then white else black
    }

    function Set(p: Player, m: int): (r: Markers)
      ensures r.Of(p) == m && r.Of(Opponent(p)) == Of(Opponent(p))
    {
      if p == White then this.(white := m) else this.(black := m)
    }
  }

  /** Everything a reachability test reads from its board. */
  datatype Position = Position(grid: Grid, current: Player, markers: Markers)

  function Abs(n: int): (r: int)
    ensures r >= 0 && (r == n || r == -n)
  {
    if n < 0 then -n else n
  }

  function Sign(n: int): int {
    if n < 0 then -1 else if n == 0 then 0 else 1
  }

  /**
   * ASSUMPTION (Figure.isSquareReachable): the destination is another square and
   * does not hold a piece of the mover's own colour.
   */
  predicate BaseReachable(g: Grid, owner: Player, x: int, y: int, tx: int, ty: int)
    requires |g| == 64 && OnBoard(x, y) && OnBoard(tx, ty)
  {
    (tx != x || ty != y) && !(At(g, tx, ty).Some? && At(g, tx, ty).value.owner == owner)
  }

  /** ASSUMPTION: `steps` squares from (cx, cy) in direction (sx, sy) are all empty. */
  predicate RayClear(g: Grid, cx: int, cy: int, sx: int, sy: int, steps: nat)
    requires |g| == 64
    decreases steps
  {
    steps == 0 ||
    (OnBoard(cx, cy) && At(g, cx, cy).None? && RayClear(g, cx + sx, cy + sy, sx, sy, steps - 1))
  }

  /** ASSUMPTION: every square strictly between origin and destination is empty. */
  predicate PathClear(g: Grid, x: int, y: int, tx: int, ty: int)
    requires |g| == 64
  {
    var n := if Abs(tx - x) < Abs(ty - y) then Abs(ty - y) else Abs(tx - x);
    n == 0 || RayClear(g, x + Sign(tx - x), y + Sign(ty - y), Sign(tx - x), Sign(ty - y), n - 1)
  }

  /** ASSUMPTION (Bishop): a clear diagonal. */
  predicate BishopGeometry(g: Grid, x: int, y: int, tx: int, ty: int)
    requires |g| == 64
  {
    Abs(tx - x) == Abs(ty - y) != 0 && PathClear(g, x, y, tx, ty)
  }

  /** ASSUMPTION (Rook): a clear file or rank. */
  predicate RookGeometry(g: Grid, x: int, y: int, tx: int, ty: int)
    requires |g| == 64
  {
    ((tx == x) != (ty == y)) && PathClear(g, x, y, tx, ty)
  }

  /** ASSUMPTION (King): one step in any direction. */
  predicate KingGeometry(x: int, y: int, tx: int, ty: int) {
    Abs(tx - x) <= 1 && Abs(ty - y) <= 1 && (tx != x || ty != y)
  }

  /**
   * ASSUMPTION (values of Bishop, Rook, Queen, King): their base material value,
   * with no positional table.  Pawn and Knight have their own tables.
   */
  function AssumedValue(k: Kind): int {
    match k
    case Bishop => 330
    case Rook => 500
    case Queen => 900
    case King => 20000
    case _ => 0
  }
}
