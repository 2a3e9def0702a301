/**
 * Board-level rules as functions of a position: dispatch to the pieces, the
 * scans behind check and stalemate, promotion, material and the starting array.
 * The Board class proves its methods against these.
 */
module Rules {
  import opened Players
  import opened Figures
  import Pawns
  import Knights

  function File(i: int): int { i / 8 }
  function Rank(i: int): int { i % 8 }

  predicate Cell(i: int) { 0 <= i < 64 }

  lemma CellOnBoard(i: int)
    requires Cell(i)
    ensures OnBoard(File(i), Rank(i)) && Index(File(i), Rank(i)) == i
  {
  }

  /** Square i holds a piece of player p. */
  predicate Owns(g: Grid, p: Player, i: int)
    requires |g| == 64
  {
    Cell(i) && g[i].Some? && g[i].value.owner == p
  }

  /** isSquareReachable of the piece at (x, y), dispatched on its kind. */
  predicate Reachable(pos: Position, x: int, y: int, tx: int, ty: int)
    requires |pos.grid| == 64 && OnBoard(x, y) && OnBoard(tx, ty) && At(pos.grid, x, y).Some?
  {
    var g := pos.grid;
    var p := At(g, x, y).value;
    match p.kind
    case Pawn => Pawns.Reachable(pos, p.owner, x, y, tx, ty)
    case Knight => Knights.Reachable(g, p.owner, x, y, tx, ty)
    case Bishop => BaseReachable(g, p.owner, x, y, tx, ty) && BishopGeometry(g, x, y, tx, ty)
    case Rook => BaseReachable(g, p.owner, x, y, tx, ty) && RookGeometry(g, x, y, tx, ty)
    case Queen => BaseReachable(g, p.owner, x, y, tx, ty) &&
                  (BishopGeometry(g, x, y, tx, ty) || RookGeometry(g, x, y, tx, ty))
    case King => BaseReachable(g, p.owner, x, y, tx, ty) && KingGeometry(x, y, tx, ty)
  }

  /** Reachability between two cells given by index. */
  predicate CanReach(pos: Position, i: int, t: int)
    requires |pos.grid| == 64 && Cell(i) && Cell(t) && pos.grid[i].Some?
  {
    Reachable(pos, File(i), Rank(i), File(t), Rank(t))
  }

  /** The scratch fields a reachability test leaves on the piece at (x, y). */
  function Probe(pos: Position, x: int, y: int, tx: int, ty: int, s: Pawns.Scratch): (r: Pawns.Scratch)
    requires |pos.grid| == 64 && OnBoard(x, y) && OnBoard(tx, ty) && At(pos.grid, x, y).Some?
    ensures At(pos.grid, x, y).value.kind != Pawn ==> r == s
    ensures r.enPassant == s.enPassant || r.enPassant == tx
  {
    var p := At(pos.grid, x, y).value;
    if p.kind == Pawn then Pawns.Query(pos, p.owner, x, y, tx, ty, s).scratch else s
  }

  /** The answer of the piece's own test agrees with the dispatched predicate, whatever its scratch fields. */
  lemma ProbeAnswer(pos: Position, x: int, y: int, tx: int, ty: int, s: Pawns.Scratch)
    requires |pos.grid| == 64 && OnBoard(x, y) && OnBoard(tx, ty) && At(pos.grid, x, y).Some?
    requires At(pos.grid, x, y).value.kind == Pawn
    ensures Pawns.Query(pos, At(pos.grid, x, y).value.owner, x, y, tx, ty, s).reachable == Reachable(pos, x, y, tx, ty)
  {
    Pawns.ReachableIff(pos, At(pos.grid, x, y).value.owner, x, y, tx, ty, s);
  }

  /**
   * A test aimed at an occupied square (a king, in isInCheck) leaves startMove
   * alone, and writes enPassant only when it answers through en passant.
   */
  lemma ProbeTowardsOccupied(pos: Position, x: int, y: int, tx: int, ty: int, s: Pawns.Scratch)
    requires |pos.grid| == 64 && OnBoard(x, y) && OnBoard(tx, ty) && At(pos.grid, x, y).Some?
    requires At(pos.grid, tx, ty).Some?
    ensures var r := Probe(pos, x, y, tx, ty, s);
            r.startMove == s.startMove &&
            (r == s || (Reachable(pos, x, y, tx, ty) && r == s.(enPassant := tx)))
  {
    var p := At(pos.grid, x, y).value;
    if p.kind == Pawn {
      Pawns.OccupiedTargetKeepsStartMove(pos, p.owner, x, y, tx, ty, s);
      ProbeAnswer(pos, x, y, tx, ty, s);
    }
  }

  /** One step of isInCheck's scan: the test of cell i against the king's cell k. */
  lemma CheckStep(pos: Position, player: Player, i: int, k: int, before: Pawns.Scratch, after: Pawns.Scratch, hit: bool)
    requires |pos.grid| == 64 && Cell(i) && Cell(k) && pos.grid[k].Some?
    requires pos.grid[i].Some? && pos.grid[i].value.owner != player
    requires hit == CanReach(pos, i, k)
    requires after == Probe(pos, File(i), Rank(i), File(k), Rank(k), before)
    ensures hit == Attacks(pos, player, i, k)
    ensures after.startMove == before.startMove
    ensures !hit ==> after == before
    ensures hit ==> after == before || after == before.(enPassant := File(k))
  {
    CellOnBoard(i);
    CellOnBoard(k);
    ProbeTowardsOccupied(pos, File(i), Rank(i), File(k), Rank(k), before);
  }

  /** getValue of a piece standing on (x, y). */
  function Value(p: Piece, x: int, y: int): int
    requires OnBoard(x, y)
  {
    match p.kind
    case Pawn => Pawns.Value(p.owner, x, y)
    case Knight => Knights.Value(p.owner, x, y)
    case _ => AssumedValue(p.kind)
  }

  /** What cell i adds to player p's material. */
  function CellValue(g: Grid, p: Player, i: int): int
    requires |g| == 64 && Cell(i)
  {
    if Owns(g, p, i) then Value(g[i].value, File(i), Rank(i)) else 0
  }

  /** The sum evaluate() accumulates for player p over the first n cells. */
  function MaterialUpTo(g: Grid, p: Player, n: int): int
    requires |g| == 64 && 0 <= n <= 64
  {
    if n == 0 then 0 else MaterialUpTo(g, p, n - 1) + CellValue(g, p, n - 1)
  }

  function Material(g: Grid, p: Player): int
    requires |g| == 64
  {
    MaterialUpTo(g, p, |g|)
  }

  /** Material only counts the player's own pieces: a grid without them is worth nothing. */
  lemma {:induction false} MaterialOfNone(g: Grid, p: Player, n: int)
    requires |g| == 64 && 0 <= n <= 64
    requires forall i :: 0 <= i < n ==> !Owns(g, p, i)
    ensures MaterialUpTo(g, p, n) == 0
  {
    if n > 0 {
      MaterialOfNone(g, p, n - 1);
    }
  }

  /** A piece of the other colour does not change player p's material. */
  lemma {:induction false} MaterialIgnoresOpponent(g: Grid, p: Player, i: int, q: Piece, n: int)
    requires |g| == 64 && Cell(i) && 0 <= n <= 64
    requires g[i].Some? && g[i].value.owner != p && q.owner != p
    ensures MaterialUpTo(g[i := Some(q)], p, n) == MaterialUpTo(g, p, n)
  {
    if n > 0 {
      MaterialIgnoresOpponent(g, p, i, q, n - 1);
    }
  }

  /** The first cell at or after `from` holding a `kind` of player p (getFigure(Class, Player)). */
  function FirstFrom(g: Grid, kind: Kind, p: Player, from: int): (r: Option<int>)
    requires |g| == 64 && 0 <= from <= 64
    ensures r.Some? ==> from <= r.value < 64 && g[r.value] == Some(Piece(kind, p))
    ensures r.Some? ==> forall j :: from <= j < r.value ==> g[j] != Some(Piece(kind, p))
    ensures r.None? ==> forall j :: from <= j < 64 ==> g[j] != Some(Piece(kind, p))
    decreases 64 - from
  {
    if from == 64 then None
    else if g[from] == Some(Piece(kind, p)) then Some(from)
    else FirstFrom(g, kind, p, from + 1)
  }

  function FirstOf(g: Grid, kind: Kind, p: Player): Option<int>
    requires |g| == 64
  {
    FirstFrom(g, kind, p, 0)
  }

  /** The piece on cell i, not of `player`, reaches cell k. */
  predicate Attacks(pos: Position, player: Player, i: int, k: int)
    requires |pos.grid| == 64 && Cell(k)
  {
    Cell(i) && pos.grid[i].Some? && pos.grid[i].value.owner != player && CanReach(pos, i, k)
  }

  /**
   * isInCheck(player): the first king of `player` found by the scan is reached by
   * some piece of the other colour; false when there is no such king.
   */
  predicate InCheck(pos: Position, player: Player)
    requires |pos.grid| == 64
  {
    var k := FirstOf(pos.grid, King, player);
    k.Some? && exists i :: 0 <= i < 64 && Attacks(pos, player, i, k.value)
  }

  /** Without a king of `player` there is no check. */
  lemma NoKingNoCheck(pos: Position, player: Player)
    requires |pos.grid| == 64
    requires forall i :: 0 <= i < 64 ==> pos.grid[i] != Some(Piece(King, player))
    ensures !InCheck(pos, player)
  {
  }

  /**
   * isInStalemate's scan: no piece of the side to move reaches any square
   * (reachability only; self-check is not considered).
   */
  predicate NoMoves(pos: Position)
    requires |pos.grid| == 64
  {
    forall i, t :: 0 <= i < 64 && 0 <= t < 64 && Owns(pos.grid, pos.current, i) ==> !CanReach(pos, i, t)
  }

  /** No piece of the side to move on a cell below j reaches any square. */
  predicate StuckBefore(pos: Position, j: int)
    requires |pos.grid| == 64
  {
    forall i, t :: 0 <= i < j && 0 <= i < 64 && 0 <= t < 64 && Owns(pos.grid, pos.current, i) ==> !CanReach(pos, i, t)
  }

  /**
   * The scratch fields the piece on cell i has after isInStalemate tests it
   * against the targets from t on, starting from `s`: each test writes its
   * fields, and the scan stops after the first target it reaches.
   */
  function ProbeScan(pos: Position, i: int, s: Pawns.Scratch, t: int): Pawns.Scratch
    requires |pos.grid| == 64 && Cell(i) && pos.grid[i].Some? && 0 <= t <= 64
    decreases 64 - t
  {
    if t == 64 then s
    else
      var s' := Probe(pos, File(i), Rank(i), File(t), Rank(t), s);
      if CanReach(pos, i, t) then s' else ProbeScan(pos, i, s', t + 1)
  }

  /** The scratch fields after testing the piece on cell i against targets 0 .. n - 1 in turn. */
  function Probes(pos: Position, i: int, s: Pawns.Scratch, n: int): Pawns.Scratch
    requires |pos.grid| == 64 && Cell(i) && pos.grid[i].Some? && 0 <= n <= 64
  {
    if n == 0 then s else Probe(pos, File(i), Rank(i), File(n - 1), Rank(n - 1), Probes(pos, i, s, n - 1))
  }

  /** Past targets the piece does not reach, the scan goes on from the fields their tests left. */
  lemma {:induction false} ProbeScanPrefix(pos: Position, i: int, s: Pawns.Scratch, k: int)
    requires |pos.grid| == 64 && Cell(i) && pos.grid[i].Some? && 0 <= k <= 64
    requires forall t :: 0 <= t < k ==> !CanReach(pos, i, t)
    ensures ProbeScan(pos, i, s, 0) == ProbeScan(pos, i, Probes(pos, i, s, k), k)
  {
    if k > 0 {
      ProbeScanPrefix(pos, i, s, k - 1);
      CellOnBoard(i);
      CellOnBoard(k - 1);
      var before := Probes(pos, i, s, k - 1);
      var after := Probe(pos, File(i), Rank(i), File(k - 1), Rank(k - 1), before);
      assert Probes(pos, i, s, k) == after;
      assert !CanReach(pos, i, k - 1);
      assert ProbeScan(pos, i, before, k - 1) == ProbeScan(pos, i, after, k);
    }
  }

  /**
   * The scratch fields `after` that isInStalemate's scan of the origins below n
   * leaves from `before`: each origin of the side to move as its scan leaves it,
   * every other cell as it was.
   */
  ghost predicate ScanLeaves(pos: Position, before: seq<Pawns.Scratch>, after: seq<Pawns.Scratch>, n: int)
    requires |pos.grid| == 64 && |before| == 64 && |after| == 64
  {
    forall j {:trigger after[j]} :: 0 <= j < 64 ==>
      after[j] == if j < n && Owns(pos.grid, pos.current, j) then ProbeScan(pos, j, before[j], 0) else before[j]
  }

  /** Scanning origin n extends ScanLeaves to the origins below n + 1. */
  lemma ScanStep(pos: Position, before: seq<Pawns.Scratch>, mid: seq<Pawns.Scratch>, after: seq<Pawns.Scratch>, n: int)
    requires |pos.grid| == 64 && |before| == 64 && |mid| == 64 && |after| == 64 && 0 <= n < 64
    requires ScanLeaves(pos, before, mid, n)
    requires after[n] == if Owns(pos.grid, pos.current, n) then ProbeScan(pos, n, mid[n], 0) else mid[n]
    requires forall j :: 0 <= j < 64 && j != n ==> after[j] == mid[j]
    ensures ScanLeaves(pos, before, after, n + 1)
  {
    assert mid[n] == before[n];
  }

  /** An origin of the side to move that reaches nothing extends StuckBefore by one cell. */
  lemma StuckStep(pos: Position, n: int)
    requires |pos.grid| == 64 && 0 <= n < 64 && StuckBefore(pos, n)
    requires Owns(pos.grid, pos.current, n) ==> forall t :: 0 <= t < 64 ==> !CanReach(pos, n, t)
    ensures StuckBefore(pos, n + 1)
  {
  }

  /** The scan stops at the first origin that reaches a square: exactly the cells up to it are stuck before. */
  lemma StuckSplit(pos: Position, m: int)
    requires |pos.grid| == 64 && 0 <= m < 64 && StuckBefore(pos, m) && Owns(pos.grid, pos.current, m)
    requires !forall t :: 0 <= t < 64 ==> !CanReach(pos, m, t)
    ensures forall j :: 0 <= j < 64 ==> (j <= m <==> StuckBefore(pos, j))
    ensures !NoMoves(pos)
  {
  }

  /** A scan that went through every origin: every cell is stuck before, and nothing moves. */
  lemma StuckAll(pos: Position)
    requires |pos.grid| == 64 && StuckBefore(pos, 64)
    ensures forall j :: 0 <= j < 64 ==> StuckBefore(pos, j)
    ensures NoMoves(pos)
  {
  }

  /** What the scan leaves, stated by which origins it reached rather than by how far it went. */
  lemma ScanEnds(pos: Position, before: seq<Pawns.Scratch>, after: seq<Pawns.Scratch>, n: int)
    requires |pos.grid| == 64 && |before| == 64 && |after| == 64 && 0 <= n <= 64
    requires ScanLeaves(pos, before, after, n)
    requires forall j :: 0 <= j < 64 ==> (j < n <==> StuckBefore(pos, j))
    ensures forall j :: 0 <= j < 64 ==>
              after[j] == if Owns(pos.grid, pos.current, j) && StuckBefore(pos, j) then ProbeScan(pos, j, before[j], 0) else before[j]
  {
  }

  /** Only a pawn's scan writes its fields, and only enPassant, with a target's file. */
  lemma {:induction false} ProbeScanWrites(pos: Position, i: int, s: Pawns.Scratch, t: int)
    requires |pos.grid| == 64 && Cell(i) && pos.grid[i].Some? && 0 <= t <= 64
    ensures pos.grid[i].value.kind != Pawn ==> ProbeScan(pos, i, s, t) == s
    ensures var r := ProbeScan(pos, i, s, t); r.enPassant == s.enPassant || 0 <= r.enPassant < 8
    decreases 64 - t
  {
    if t < 64 {
      CellOnBoard(i);
      var s' := Probe(pos, File(i), Rank(i), File(t), Rank(t), s);
      ProbeScanWrites(pos, i, s', t + 1);
    }
  }

  /** One cell after promote(): pawns on rank 0 become Black queens, on rank 7 White queens. */
  function PromoteCell(c: Option<Piece>, rank: int): Option<Piece> {
    if c.Some? && c.value.kind == Pawn && rank == 0 then Some(Piece(Queen, Black))
    else if c.Some? && c.value.kind == Pawn && rank == 7 then Some(Piece(Queen, White))
    else c
  }

  /** Widening the promoted prefix of a rank by one file adds exactly square 8x + y. */
  lemma PromoteStep(x: int, y: int)
    requires 0 <= x < 8 && 0 <= y < 8
    ensures forall i :: 0 <= i < 64 ==>
              ((Rank(i) == y && File(i) < x + 1) <==> ((Rank(i) == y && File(i) < x) || i == 8 * x + y))
  {
  }

  /** Every square lies in a file below 8. */
  lemma FilesBelowEight()
    ensures forall i :: 0 <= i < 64 ==> File(i) < 8
  {
  }

  /** The grid after the promotion scan of rank y has passed files 0 .. x-1. */
  ghost function PromotedFiles(g: Grid, y: int, x: int): (r: Grid)
    requires |g| == 64 && 0 <= y < 8 && 0 <= x <= 8
    ensures |r| == 64
    decreases x
  {
    if x == 0 then g
    else
      var h := PromotedFiles(g, y, x - 1);
      h[8 * (x - 1) + y := PromoteCell(h[8 * (x - 1) + y], y)]
  }

  /** The scan of rank y up to file x has promoted exactly the squares of that rank in those files. */
  lemma {:induction false} PromotedFilesCells(g: Grid, y: int, x: int)
    requires |g| == 64 && 0 <= y < 8 && 0 <= x <= 8
    ensures forall i :: 0 <= i < 64 ==>
              PromotedFiles(g, y, x)[i] == if Rank(i) == y && File(i) < x then PromoteCell(g[i], y) else g[i]
  {
    if x > 0 {
      PromotedFilesCells(g, y, x - 1);
      PromoteStep(x - 1, y);
    }
  }

  /** One square through both scans: it ends as PromoteCell of its own rank. */
  lemma ScanCell(c: Option<Piece>, h: Option<Piece>, r: Option<Piece>, rank: int)
    requires 0 <= rank < 8
    requires h == if rank == 0 then PromoteCell(c, 0) else c
    requires r == if rank == 7 then PromoteCell(h, 7) else h
    ensures r == PromoteCell(c, rank)
  {
  }

  /**
   * Scanning rank 0 and then rank 7 over all x == 8 files is Promoted (the width
   * is a parameter so that the scans are not unrolled file by file).
   */
  lemma PromotedScans(g: Grid, h: Grid, x: int)
    requires |g| == 64 && x == 8 && h == PromotedFiles(g, 0, x)
    ensures PromotedFiles(h, 7, x) == Promoted(g)
  {
    PromotedFilesCells(g, 0, x);
    PromotedFilesCells(h, 7, x);
    FilesBelowEight();
    var r := PromotedFiles(h, 7, x);
    forall i | 0 <= i < 64
      ensures r[i] == Promoted(g)[i]
    {
      ScanCell(g[i], h[i], r[i], Rank(i));
    }
  }

  /** Board.promote: the queen's colour comes from the rank, not from the pawn's owner. */
  function Promoted(g: Grid): (r: Grid)
    requires |g| == 64
    ensures |r| == 64
    ensures forall i :: 0 <= i < 64 && (Rank(i) == 0 || Rank(i) == 7) ==> !(r[i].Some? && r[i].value.kind == Pawn)
    ensures forall i :: 0 <= i < 64 && Rank(i) == 0 && g[i].Some? && g[i].value.kind == Pawn ==> r[i] == Some(Piece(Queen, Black))
    ensures forall i :: 0 <= i < 64 && Rank(i) == 7 && g[i].Some? && g[i].value.kind == Pawn ==> r[i] == Some(Piece(Queen, White))
    ensures forall i :: 0 <= i < 64 && !(g[i].Some? && g[i].value.kind == Pawn && (Rank(i) == 0 || Rank(i) == 7)) ==> r[i] == g[i]
  {
    seq(64, i requires 0 <= i < 64 => PromoteCell(g[i], Rank(i)))
  }

  /** Promoting twice changes nothing more. */
  lemma PromotedIdempotent(g: Grid)
    requires |g| == 64
    ensures Promoted(Promoted(g)) == Promoted(g)
  {
  }

  /** A White pawn on rank 0 becomes a Black queen: the quirk of promote() as written. */
  lemma PromoteColourFromRank(g: Grid, x: int)
    requires |g| == 64 && 0 <= x < 8 && g[Index(x, 0)] == Some(Piece(Pawn, White))
    ensures Promoted(g)[Index(x, 0)] == Some(Piece(Queen, Black))
  {
  }

  /** setFigure(to, removeFigure(from)): the origin empties and the destination takes its piece. */
  function Relocated(g: Grid, i: int, t: int): (r: Grid)
    requires |g| == 64 && Cell(i) && Cell(t)
    ensures |r| == 64 && r[t] == g[i]
    ensures i != t ==> r[i].None?
    ensures forall j :: 0 <= j < 64 && j != i && j != t ==> r[j] == g[j]
  {
    g[i := None][t := g[i]]
  }

  /** The grid a pawn move produces: the en-passant victim (if any) is removed first. */
  function PawnApplied(g: Grid, x: int, y: int, tx: int, ty: int, ep: int): (r: Grid)
    requires |g| == 64 && OnBoard(x, y) && OnBoard(tx, ty) && -1 <= ep < 8
  {
    var g1 := if ep != -1 then g[Index(ep, y) := None] else g;
    Promoted(Relocated(g1, Index(x, y), Index(tx, ty)))
  }

  /** The grid any other piece's move produces. */
  function FigureApplied(g: Grid, x: int, y: int, tx: int, ty: int): (r: Grid)
    requires |g| == 64 && OnBoard(x, y) && OnBoard(tx, ty)
  {
    Promoted(Relocated(g, Index(x, y), Index(tx, ty)))
  }

  /** Markers of a freshly moved board: the clone starts both at 0, resetMarker clears the mover's. */
  function MovedMarkers(mover: Player): (m: Markers)
    ensures m.Of(mover) == -1 && m.Of(Opponent(mover)) == 0
  {
    Markers(0, 0).Set(mover, -1)
  }

  /**
   * The grid the move of the piece on (x, y) produces when that piece's scratch
   * fields were `s` before its test: a pawn's move reads the en-passant file its
   * test leaves, any other piece's does not.
   */
  function MovedGrid(pos: Position, x: int, y: int, tx: int, ty: int, s: Pawns.Scratch): Grid
    requires |pos.grid| == 64 && OnBoard(x, y) && OnBoard(tx, ty) && At(pos.grid, x, y).Some?
    requires -1 <= s.enPassant < 8
  {
    var p := At(pos.grid, x, y).value;
    if p.kind == Pawn then PawnApplied(pos.grid, x, y, tx, ty, Pawns.Query(pos, p.owner, x, y, tx, ty, s).scratch.enPassant)
    else FigureApplied(pos.grid, x, y, tx, ty)
  }

  /** The markers of that move's board: a pawn publishes the startMove its test leaves. */
  function MovedMarks(pos: Position, x: int, y: int, tx: int, ty: int, s: Pawns.Scratch): Markers
    requires |pos.grid| == 64 && OnBoard(x, y) && OnBoard(tx, ty) && At(pos.grid, x, y).Some?
  {
    var p := At(pos.grid, x, y).value;
    if p.kind == Pawn then MovedMarkers(pos.current).Set(p.owner, Pawns.Query(pos, p.owner, x, y, tx, ty, s).scratch.startMove)
    else MovedMarkers(pos.current)
  }

  /** That move, made from scratch fields `s`, leaves the side to move in check: the move is refused. */
  predicate SelfChecks(pos: Position, x: int, y: int, tx: int, ty: int, s: Pawns.Scratch)
    requires |pos.grid| == 64 && OnBoard(x, y) && OnBoard(tx, ty) && At(pos.grid, x, y).Some?
    requires -1 <= s.enPassant < 8
  {
    InCheck(Position(MovedGrid(pos, x, y, tx, ty, s), pos.current, MovedMarks(pos, x, y, tx, ty, s)), pos.current)
  }

  /**
   * What the attempt coded c = 64 * from + to does on `pos` when the moving
   * piece's scratch fields were `s`: None when the piece cannot reach the square
   * or the move leaves the mover in check, otherwise the position of the new
   * board, with the other side to move.
   */
  function MoveResult(pos: Position, c: int, s: Pawns.Scratch): (r: Option<Position>)
    requires |pos.grid| == 64 && 0 <= c < 4096 && Owns(pos.grid, pos.current, c / 64) && -1 <= s.enPassant < 8
    ensures r.Some? ==> |r.value.grid| == 64 && r.value.current == Opponent(pos.current)
  {
    var i, t := c / 64, c % 64;
    CellOnBoard(i); CellOnBoard(t);
    if !CanReach(pos, i, t) || SelfChecks(pos, File(i), Rank(i), File(t), Rank(t), s) then None
    else Some(Position(MovedGrid(pos, File(i), Rank(i), File(t), Rank(t), s), Opponent(pos.current),
                       MovedMarks(pos, File(i), Rank(i), File(t), Rank(t), s)))
  }

  /** A move that is made was reachable and does not leave its mover in check. */
  lemma MadeLeavesNoCheck(pos: Position, c: int, s: Pawns.Scratch)
    requires |pos.grid| == 64 && 0 <= c < 4096 && Owns(pos.grid, pos.current, c / 64) && -1 <= s.enPassant < 8
    requires MoveResult(pos, c, s).Some?
    ensures var q := MoveResult(pos, c, s).value; !InCheck(Position(q.grid, pos.current, q.markers), pos.current)
    ensures CanReach(pos, c / 64, c % 64)
  {
  }

  /** Only a pawn's move depends on its scratch fields: any other piece's result is the same for all of them. */
  lemma MoveResultFigure(pos: Position, c: int, s: Pawns.Scratch, s': Pawns.Scratch)
    requires |pos.grid| == 64 && 0 <= c < 4096 && Owns(pos.grid, pos.current, c / 64)
    requires -1 <= s.enPassant < 8 && -1 <= s'.enPassant < 8
    requires pos.grid[c / 64].value.kind != Pawn
    ensures MoveResult(pos, c, s) == MoveResult(pos, c, s')
  {
    CellOnBoard(c / 64);
  }

  /**
   * The move attempts the exhaustive scans make, as codes 64 * from + to, in the
   * order of their loops: every origin holding a piece of p, every destination.
   */
  function Attempts(g: Grid, p: Player, n: int): (r: seq<int>)
    requires |g| == 64 && 0 <= n <= 4096
  {
    if n == 0 then []
    else Attempts(g, p, n - 1) + (if Owns(g, p, (n - 1) / 64) then [n - 1] else [])
  }

  /** The attempts whose origin lies below cell `from`: the origins an outer scan has finished. */
  function AttemptsBefore(g: Grid, p: Player, from: int): seq<int>
    requires |g| == 64 && 0 <= from <= 64
  {
    Attempts(g, p, 64 * from)
  }

  /** The attempts before destination `to` of origin `from`: where an inner scan has got to. */
  function AttemptsAt(g: Grid, p: Player, from: int, to: int): seq<int>
    requires |g| == 64 && 0 <= from < 64 && 0 <= to <= 64
  {
    Attempts(g, p, 64 * from + to)
  }

  /** The attempts are exactly the codes below n whose origin holds a piece of p, ascending. */
  lemma AttemptsSpec(g: Grid, p: Player, n: int)
    requires |g| == 64 && 0 <= n <= 4096
    ensures forall c :: c in Attempts(g, p, n) <==> 0 <= c < n && Owns(g, p, c / 64)
    ensures forall a, b :: 0 <= a < b < |Attempts(g, p, n)| ==> Attempts(g, p, n)[a] < Attempts(g, p, n)[b]
  {
    AttemptsMembers(g, p, n);
    AttemptsAscending(g, p, n);
  }

  lemma {:induction false} AttemptsMembers(g: Grid, p: Player, n: int)
    requires |g| == 64 && 0 <= n <= 4096
    ensures forall c :: c in Attempts(g, p, n) <==> 0 <= c < n && Owns(g, p, c / 64)
  {
    if n > 0 {
      AttemptsMembers(g, p, n - 1);
      var last := if Owns(g, p, (n - 1) / 64) then [n - 1] else [];
      assert Attempts(g, p, n) == Attempts(g, p, n - 1) + last;
    }
  }

  lemma {:induction false} AttemptsAscending(g: Grid, p: Player, n: int)
    requires |g| == 64 && 0 <= n <= 4096
    ensures forall a, b :: 0 <= a < b < |Attempts(g, p, n)| ==> Attempts(g, p, n)[a] < Attempts(g, p, n)[b]
  {
    if n > 0 {
      AttemptsAscending(g, p, n - 1);
      AttemptsMembers(g, p, n - 1);
      var prev := Attempts(g, p, n - 1);
      forall a | 0 <= a < |prev| ensures prev[a] < n - 1 {
        assert prev[a] in prev;
      }
    }
  }

  /** The code 64 * from + to gives back its origin and destination cells. */
  lemma CodeParts(from: int, to: int)
    requires Cell(from) && Cell(to)
    ensures (64 * from + to) / 64 == from && (64 * from + to) % 64 == to
  {
  }

  /** An origin holding a piece of p contributes each of its codes in turn. */
  lemma AttemptsTake(g: Grid, p: Player, from: int, to: int)
    requires |g| == 64 && 0 <= from < 64 && 0 <= to < 64 && Owns(g, p, from)
    ensures Attempts(g, p, 64 * from + to + 1) == Attempts(g, p, 64 * from + to) + [64 * from + to]
  {
    assert (64 * from + to) / 64 == from;
  }

  /** The first k destinations of an origin holding a piece of p add k attempts. */
  lemma {:induction false} AttemptsRow(g: Grid, p: Player, from: int, k: int)
    requires |g| == 64 && 0 <= from < 64 && 0 <= k <= 64 && Owns(g, p, from)
    ensures |Attempts(g, p, 64 * from + k)| == |Attempts(g, p, 64 * from)| + k
  {
    if k > 0 {
      AttemptsRow(g, p, from, k - 1);
      AttemptsTake(g, p, from, k - 1);
    }
  }

  /** Each origin contributes its 64 codes when it holds a piece of p, and none otherwise. */
  lemma AttemptsOrigin(g: Grid, p: Player, from: int)
    requires |g| == 64 && 0 <= from < 64
    ensures |Attempts(g, p, 64 * (from + 1))| == |Attempts(g, p, 64 * from)| + (if Owns(g, p, from) then 64 else 0)
  {
    assert 64 * (from + 1) == 64 * from + 64;
    if Owns(g, p, from) {
      AttemptsRow(g, p, from, 64);
    } else {
      AttemptsSkip(g, p, from, 64);
    }
  }

  /** Skipping an origin that does not hold a piece of p adds no attempts. */
  lemma {:induction false} AttemptsSkip(g: Grid, p: Player, from: int, k: int)
    requires |g| == 64 && 0 <= from < 64 && 0 <= k <= 64 && !Owns(g, p, from)
    ensures Attempts(g, p, 64 * from + k) == Attempts(g, p, 64 * from)
  {
    if k > 0 {
      AttemptsSkip(g, p, from, k - 1);
      assert (64 * from + k - 1) / 64 == from;
    }
  }

  /** The back rank from the queen's rook to the king's rook. */
  function BackRank(x: int): Kind {
    if x == 0 || x == 7 then Rook
    else if x == 1 || x == 6 then Knight
    else if x == 2 || x == 5 then Bishop
    else if x == 3 then Queen
    else King
  }

  /** The piece the constructor places on (x, y). */
  function InitialAt(x: int, y: int): Option<Piece> {
    if y == 0 then Some(Piece(BackRank(x), White))
    else if y == 1 then Some(Piece(Pawn, White))
    else if y == 6 then Some(Piece(Pawn, Black))
    else if y == 7 then Some(Piece(BackRank(x), Black))
    else None
  }

  function InitialGrid(): (g: Grid)
    ensures |g| == 64
  {
    seq(64, i requires 0 <= i < 64 => InitialAt(File(i), Rank(i)))
  }

  /**
   * The starting array: White fills ranks 0 and 1, Black ranks 6 and 7, the
   * middle is empty, and each side's only king stands on file 4.
   */
  lemma InitialLayout()
    ensures forall i :: 0 <= i < 64 && Owns(InitialGrid(), White, i) ==> Rank(i) <= 1
    ensures forall i :: 0 <= i < 64 && Owns(InitialGrid(), Black, i) ==> Rank(i) >= 6
    ensures forall i :: 0 <= i < 64 && 2 <= Rank(i) <= 5 ==> InitialGrid()[i].None?
    ensures forall i :: 0 <= i < 64 && 0 <= Rank(i) <= 1 ==> Owns(InitialGrid(), White, i)
    ensures forall i :: 0 <= i < 64 && 6 <= Rank(i) <= 7 ==> Owns(InitialGrid(), Black, i)
    ensures FirstOf(InitialGrid(), King, White) == Some(Index(4, 0))
    ensures FirstOf(InitialGrid(), King, Black) == Some(Index(4, 7))
  {
    var g := InitialGrid();
    assert g[Index(4, 0)] == Some(Piece(King, White));
    assert g[Index(4, 7)] == Some(Piece(King, Black));
    forall j | 0 <= j < Index(4, 0) ensures g[j] != Some(Piece(King, White)) {
      assert BackRank(File(j)) != King || Rank(j) != 0;
    }
    forall j | 0 <= j < Index(4, 7) ensures g[j] != Some(Piece(King, Black)) {
      assert BackRank(File(j)) != King || Rank(j) != 7;
    }
  }

  /** What the eight cells of file x add to player p's material. */
  function FileValue(g: Grid, p: Player, x: int): int
    requires |g| == 64 && 0 <= x < 8
  {
    CellValue(g, p, 8 * x) + CellValue(g, p, 8 * x + 1) + CellValue(g, p, 8 * x + 2) +
    CellValue(g, p, 8 * x + 3) + CellValue(g, p, 8 * x + 4) + CellValue(g, p, 8 * x + 5) +
    CellValue(g, p, 8 * x + 6) + CellValue(g, p, 8 * x + 7)
  }

  /** evaluate() adds the files one after another. */
  lemma MaterialOfFile(g: Grid, p: Player, x: int)
    requires |g| == 64 && 0 <= x < 8
    ensures MaterialUpTo(g, p, 8 * x + 8) == MaterialUpTo(g, p, 8 * x) + FileValue(g, p, x)
  {
    var n := 8 * x;
    assert MaterialUpTo(g, p, n + 1) == MaterialUpTo(g, p, n) + CellValue(g, p, n);
    assert MaterialUpTo(g, p, n + 2) == MaterialUpTo(g, p, n + 1) + CellValue(g, p, n + 1);
    assert MaterialUpTo(g, p, n + 3) == MaterialUpTo(g, p, n + 2) + CellValue(g, p, n + 2);
    assert MaterialUpTo(g, p, n + 4) == MaterialUpTo(g, p, n + 3) + CellValue(g, p, n + 3);
    assert MaterialUpTo(g, p, n + 5) == MaterialUpTo(g, p, n + 4) + CellValue(g, p, n + 4);
    assert MaterialUpTo(g, p, n + 6) == MaterialUpTo(g, p, n + 5) + CellValue(g, p, n + 5);
    assert MaterialUpTo(g, p, n + 7) == MaterialUpTo(g, p, n + 6) + CellValue(g, p, n + 6);
  }

  /**
   * File x holds one kind's piece of each colour on colour-mirrored squares
   * (ranks 0 and 7), a pawn of each on ranks 1 and 6, and nothing between.
   */
  predicate MirroredFile(g: Grid, x: int, k: Kind)
    requires |g| == 64 && 0 <= x < 8
  {
    g[8 * x] == Some(Piece(k, White)) && g[8 * x + 1] == Some(Piece(Pawn, White)) &&
    g[8 * x + 2].None? && g[8 * x + 3].None? && g[8 * x + 4].None? && g[8 * x + 5].None? &&
    g[8 * x + 6] == Some(Piece(Pawn, Black)) && g[8 * x + 7] == Some(Piece(k, Black))
  }

  /** The cells 8 * x to 8 * x + 7 are file x, ranks 0 to 7. */
  lemma CellsOfFile(x: int)
    requires 0 <= x < 8
    ensures File(8 * x) == x && Rank(8 * x) == 0
    ensures File(8 * x + 1) == x && Rank(8 * x + 1) == 1 &&
    File(8 * x + 2) == x && Rank(8 * x + 2) == 2 &&
    File(8 * x + 3) == x && Rank(8 * x + 3) == 3 &&
    File(8 * x + 4) == x && Rank(8 * x + 4) == 4 &&
    File(8 * x + 5) == x && Rank(8 * x + 5) == 5 &&
    File(8 * x + 6) == x && Rank(8 * x + 6) == 6 &&
    File(8 * x + 7) == x && Rank(8 * x + 7) == 7
  {
  }

  /** Every file of the starting array is laid out that way, with its back-rank kind. */
  lemma InitialFile(x: int)
    requires 0 <= x < 8
    ensures MirroredFile(InitialGrid(), x, BackRank(x))
  {
    CellsOfFile(x);
  }

  /** Every piece is worth to White on rank y what the same piece is worth to Black on rank 7 - y. */
  lemma ValueColourMirrored(k: Kind, x: int, y: int)
    requires OnBoard(x, y)
    ensures Value(Piece(k, White), x, y) == Value(Piece(k, Black), x, 7 - y)
  {
    match k
    case Pawn => Pawns.ValueMirrored(x, y);
    case Knight => Knights.ValueMirrored(x, y);
    case _ =>
  }

  /** The end ranks of such a file: each colour's piece is worth the same, and nothing to the other colour. */
  lemma MirroredEnds(g: Grid, x: int, k: Kind, y: int)
    requires |g| == 64 && 0 <= x < 8 && 0 <= y < 8
    requires g[8 * x + y] == Some(Piece(k, White)) && g[8 * x + 7 - y] == Some(Piece(k, Black))
    requires File(8 * x + y) == x && Rank(8 * x + y) == y
    requires File(8 * x + 7 - y) == x && Rank(8 * x + 7 - y) == 7 - y
    ensures CellValue(g, White, 8 * x + y) == CellValue(g, Black, 8 * x + 7 - y)
    ensures CellValue(g, Black, 8 * x + y) == 0 && CellValue(g, White, 8 * x + 7 - y) == 0
  {
    ValueColourMirrored(k, x, y);
  }

  /** Such a file is worth as much to White as to Black. */
  lemma MirroredFileBalanced(g: Grid, x: int, k: Kind)
    requires |g| == 64 && 0 <= x < 8 && MirroredFile(g, x, k)
    ensures FileValue(g, White, x) == FileValue(g, Black, x)
  {
    var n := 8 * x;
    CellsOfFile(x);
    MirroredEnds(g, x, k, 0);
    MirroredEnds(g, x, Pawn, 1);
    assert CellValue(g, White, n + 2) == 0 && CellValue(g, Black, n + 2) == 0;
    assert CellValue(g, White, n + 3) == 0 && CellValue(g, Black, n + 3) == 0;
    assert CellValue(g, White, n + 4) == 0 && CellValue(g, Black, n + 4) == 0;
    assert CellValue(g, White, n + 5) == 0 && CellValue(g, Black, n + 5) == 0;
  }

  /**
   * Each file of the starting array is worth as much to White as to Black: the
   * back-rank piece and the pawn of each colour stand on colour-mirrored squares.
   */
  lemma InitialFileBalanced(x: int)
    requires 0 <= x < 8
    ensures FileValue(InitialGrid(), White, x) == FileValue(InitialGrid(), Black, x)
  {
    InitialFile(x);
    MirroredFileBalanced(InitialGrid(), x, BackRank(x));
  }

  /** The starting array holds equal material for both sides over the first x files. */
  lemma {:induction false} InitialBalancedUpTo(x: int)
    requires 0 <= x <= 8
    ensures MaterialUpTo(InitialGrid(), White, 8 * x) == MaterialUpTo(InitialGrid(), Black, 8 * x)
  {
    if x > 0 {
      InitialBalancedUpTo(x - 1);
      MaterialOfFile(InitialGrid(), White, x - 1);
      MaterialOfFile(InitialGrid(), Black, x - 1);
      InitialFileBalanced(x - 1);
    }
  }

  /** Both sides start with the same material, so the evaluated starting board scores 0 for each. */
  lemma InitialBalanced()
    ensures Material(InitialGrid(), White) == Material(InitialGrid(), Black)
  {
    InitialBalancedUpTo(8);
  }
}
