/**
 * Pawn.java: advance, double advance, diagonal capture and en passant, together
 * with the two scratch fields the reachability test leaves behind for `move`.
 */
module Pawns {
  import opened Players
  import opened Figures

  /** Base material value of a pawn. */
  const VALUE: int := 100

  /** Positional bonus, indexed [file][rank] from White's side of the board. */
  const EVAL: seq<seq<int>> := [
    [0,   5,   5,  0,  5, 10, 50, 0],
    [0,  10,  -5,  0,  5, 10, 50, 0],
    [0,  10, -10,  0, 10, 20, 50, 0],
    [0, -20,   0, 20, 25, 30, 50, 0],
    [0, -20,   0, 20, 25, 30, 50, 0],
    [0,  10, -10,  0, 10, 20, 50, 0],
    [0,  10,  -5,  0,  5, 10, 50, 0],
    [0,   5,   5,  0,  5, 10, 50, 0]
  ]

  /**
   * The pawn's two transient fields: the file of its own double advance
   * (`startMove`) and the file of the pawn it takes en passant (`enPassant`);
   * -1 means none.  A freshly constructed or cloned pawn has both at -1.
   */
  datatype Scratch = Scratch(startMove: int, enPassant: int)

  const FRESH: Scratch := Scratch(-1, -1)

  /** The answer of one reachability test and the scratch fields it leaves. */
  datatype Verdict = Verdict(reachable: bool, scratch: Scratch)

  predicate OnStartRank(owner: Player, y: int) {
    (owner == White && y == 1) || (owner == Black && y == 6)
  }

  /** The straight branch is entered: same file and an empty destination. */
  predicate Straight(g: Grid, x: int, tx: int, ty: int)
    requires |g| == 64 && OnBoard(tx, ty)
  {
    tx == x && At(g, tx, ty).None?
  }

  /** Two squares forward from the start rank, over an empty square. */
  predicate DoubleAdvance(g: Grid, owner: Player, x: int, y: int, tx: int, ty: int)
    requires |g| == 64 && OnBoard(tx, ty)
  {
    Straight(g, x, tx, ty) && OnStartRank(owner, y) &&
    ((owner == White && ty - 2 == y && At(g, tx, ty - 1).None?) ||
     (owner == Black && ty + 2 == y && At(g, tx, ty + 1).None?))
  }

  /** One square forward onto an empty square. */
  predicate SingleAdvance(g: Grid, owner: Player, x: int, y: int, tx: int, ty: int)
    requires |g| == 64 && OnBoard(tx, ty)
  {
    Straight(g, x, tx, ty) && ((owner == White && ty - 1 == y) || (owner == Black && ty + 1 == y))
  }

  /** One square diagonally forward onto an opponent's piece. */
  predicate Capture(g: Grid, owner: Player, x: int, y: int, tx: int, ty: int)
    requires |g| == 64 && OnBoard(tx, ty)
  {
    Abs(x - tx) == 1 &&
    (if owner == White then y + 1 == ty else y - 1 == ty) &&
    At(g, tx, ty).Some? && At(g, tx, ty).value.owner == Opponent(owner)
  }

  /**
   * The en-passant branch as written: the opponent's marker names the
   * destination file and the pawn stands on its fifth rank; the destination
   * rank and the distance to that file are not examined.
   */
  predicate EnPassant(pos: Position, owner: Player, y: int, tx: int) {
    if pos.current == Black then
      pos.markers.Of(White) == tx && y == 3 && owner == Black
    else
      pos.markers.Of(Black) == tx && y == 4 && owner == White
  }

  /**
   * Pawn.isSquareReachable, branch by branch, returning the new scratch fields
   * along with the answer.
   */
  function Query(pos: Position, owner: Player, x: int, y: int, tx: int, ty: int, s: Scratch): (v: Verdict)
    requires |pos.grid| == 64 && OnBoard(x, y) && OnBoard(tx, ty)
    ensures v.reachable ==> BaseReachable(pos.grid, owner, x, y, tx, ty)
    ensures v.scratch.enPassant == s.enPassant || (v.reachable && v.scratch.enPassant == tx)
  {
    var g := pos.grid;
    if !BaseReachable(g, owner, x, y, tx, ty) then
      Verdict(false, s)
    else
      var s1 :=
        if Straight(g, x, tx, ty) && OnStartRank(owner, y) && !DoubleAdvance(g, owner, x, y, tx, ty)
        then s.(startMove := -1) else s;
      if DoubleAdvance(g, owner, x, y, tx, ty) then
        Verdict(true, s.(startMove := x))
      else if SingleAdvance(g, owner, x, y, tx, ty) then
        Verdict(true, s1)
      else if Capture(g, owner, x, y, tx, ty) then
        Verdict(true, s1)
      else if EnPassant(pos, owner, y, tx) then
        Verdict(true, s1.(enPassant := tx))
      else
        Verdict(false, s1)
  }

  /** The answer of a reachability test, which does not depend on the scratch fields. */
  predicate Reachable(pos: Position, owner: Player, x: int, y: int, tx: int, ty: int)
    requires |pos.grid| == 64 && OnBoard(x, y) && OnBoard(tx, ty)
  {
    Query(pos, owner, x, y, tx, ty, FRESH).reachable
  }

  /** Reachable squares are exactly those of the four rules, after the base check. */
  lemma ReachableIff(pos: Position, owner: Player, x: int, y: int, tx: int, ty: int, s: Scratch)
    requires |pos.grid| == 64 && OnBoard(x, y) && OnBoard(tx, ty)
    ensures Query(pos, owner, x, y, tx, ty, s).reachable == Reachable(pos, owner, x, y, tx, ty)
    ensures Reachable(pos, owner, x, y, tx, ty) <==>
              BaseReachable(pos.grid, owner, x, y, tx, ty) &&
              (SingleAdvance(pos.grid, owner, x, y, tx, ty) || DoubleAdvance(pos.grid, owner, x, y, tx, ty) ||
               Capture(pos.grid, owner, x, y, tx, ty) || EnPassant(pos, owner, y, tx))
  {
  }

  /** A double advance goes from the start rank over two empty squares and records the file. */
  lemma DoubleAdvanceRecordsFile(pos: Position, owner: Player, x: int, y: int, tx: int, ty: int, s: Scratch)
    requires |pos.grid| == 64 && OnBoard(x, y) && OnBoard(tx, ty)
    requires BaseReachable(pos.grid, owner, x, y, tx, ty) && DoubleAdvance(pos.grid, owner, x, y, tx, ty)
    ensures y == (if owner == White then 1 else 6)
    ensures ty == (if owner == White then 3 else 4)
    ensures Query(pos, owner, x, y, tx, ty, s) == Verdict(true, Scratch(x, s.enPassant))
  {
  }

  /**
   * startMove is written only on the straight path from the start rank: x for a
   * double advance, -1 otherwise; every other test leaves it as it was.
   */
  lemma StartMoveWrites(pos: Position, owner: Player, x: int, y: int, tx: int, ty: int, s: Scratch)
    requires |pos.grid| == 64 && OnBoard(x, y) && OnBoard(tx, ty)
    ensures var sm := Query(pos, owner, x, y, tx, ty, s).scratch.startMove;
            if BaseReachable(pos.grid, owner, x, y, tx, ty) && Straight(pos.grid, x, tx, ty) && OnStartRank(owner, y)
            then sm == (if DoubleAdvance(pos.grid, owner, x, y, tx, ty) then x else -1)
            else sm == s.startMove
  {
  }

  /**
   * enPassant is written only when the en-passant branch answers: it becomes the
   * destination file, whatever the destination rank.
   */
  lemma EnPassantWrites(pos: Position, owner: Player, x: int, y: int, tx: int, ty: int, s: Scratch)
    requires |pos.grid| == 64 && OnBoard(x, y) && OnBoard(tx, ty)
    ensures var g := pos.grid;
            var taken := BaseReachable(g, owner, x, y, tx, ty) && !SingleAdvance(g, owner, x, y, tx, ty) &&
                         !DoubleAdvance(g, owner, x, y, tx, ty) && !Capture(g, owner, x, y, tx, ty) &&
                         EnPassant(pos, owner, y, tx);
            Query(pos, owner, x, y, tx, ty, s).scratch.enPassant == (if taken then tx else s.enPassant)
  {
  }

  /** A test towards an occupied square writes neither scratch field except through en passant. */
  lemma OccupiedTargetKeepsStartMove(pos: Position, owner: Player, x: int, y: int, tx: int, ty: int, s: Scratch)
    requires |pos.grid| == 64 && OnBoard(x, y) && OnBoard(tx, ty)
    requires At(pos.grid, tx, ty).Some?
    ensures Query(pos, owner, x, y, tx, ty, s).scratch.startMove == s.startMove
  {
  }

  /** Every entry of the table, with its bounds. */
  lemma EvalBounds(x: int, y: int)
    requires OnBoard(x, y)
    ensures |EVAL| == 8 && |EVAL[x]| == 8
    ensures -20 <= EVAL[x][y] <= 50
  {
    assert x == 0 || x == 1 || x == 2 || x == 3 || x == 4 || x == 5 || x == 6 || x == 7;
  }

  /** Pawn.getValue: Black reads the table from the opposite rank. */
  function Value(owner: Player, x: int, y: int): (v: int)
    requires OnBoard(x, y)
    ensures 80 <= v <= 150
  {
    EvalBounds(x, y);
    EvalBounds(x, 7 - y);
    match owner
    case White => VALUE + EVAL[x][y]
    case Black => VALUE + EVAL[x][7 - y]
  }

  /** A White pawn is worth what a Black pawn is worth on the colour-mirrored square. */
  lemma ValueMirrored(x: int, y: int)
    requires OnBoard(x, y)
    ensures Value(White, x, y) == Value(Black, x, 7 - y)
    ensures Value(Black, x, y) == Value(White, x, 7 - y)
  {
  }

  /** The table is file-symmetric, so a pawn is worth the same on mirrored files. */
  lemma ValueFileMirrored(owner: Player, x: int, y: int)
    requires OnBoard(x, y)
    ensures Value(owner, x, y) == Value(owner, 7 - x, y)
  {
    assert x == 0 || x == 1 || x == 2 || x == 3 || x == 4 || x == 5 || x == 6 || x == 7;
  }
}
