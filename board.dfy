/**
 * Board.java, with the move of Pawn.java and the inherited move of the other
 * pieces.  A board owns its 8x8 array of optional pieces, stored as 64 cells in
 * the order the source's loops visit them (file-major, then rank); every move
 * is made on a fresh clone, so a board handed to a caller is never edited again
 * except for its pawns' scratch fields.
 */
module Chess {
  import opened Players
  import opened Figures
  import opened Rules
  import Pawns

  /** The status tags Board assigns (State is not part of this model; its constants are). */
  datatype State = Ordinary | Check(side: Player) | Checkmate(side: Player) | Stalemate(side: Player)

  /** Integer.MIN_VALUE, the constructor's placeholder for both values. */
  const MIN_INT: int := -0x8000_0000

  /** The depth at which getMax(ply) stops: ply itself, but at least one move. */
  function Depth(ply: int): (d: nat)
    ensures d >= 1 && (ply >= 1 ==> d == ply)
  {
    if ply > 1 then ply else 1
  }

  /**
   * `max` is the first of the candidates with the highest value for `p`, or null
   * when every candidate is null.
   */
  ghost predicate Peak(cands: seq<Board?>, max: Board?, best: int, p: Player)
    reads set k | 0 <= k < |cands| && cands[k] != null :: cands[k]
  {
    (max == null ==> forall k :: 0 <= k < |cands| ==> cands[k] == null) &&
    (max != null ==>
       0 <= best < |cands| && max == cands[best] &&
       (forall k :: 0 <= k < |cands| && cands[k] != null ==> cands[k].GetValue(p) <= max.GetValue(p)) &&
       (forall k :: 0 <= k < best && cands[k] != null ==> cands[k].GetValue(p) < max.GetValue(p)))
  }

  /** Appending one candidate keeps Peak when a strictly higher value (or the first one) takes over. */
  lemma PeakStep(cands: seq<Board?>, max: Board?, best: int, p: Player, temp: Board?)
    requires Peak(cands, max, best, p)
    ensures if max == null || (temp != null && temp.GetValue(p) > max.GetValue(p))
            then Peak(cands + [temp], temp, |cands|, p)
            else Peak(cands + [temp], max, best, p)
  {
    assert forall k :: 0 <= k < |cands| ==> (cands + [temp])[k] == cands[k];
  }

  /**
   * `min` is the first of the candidates with the lowest value for the side to
   * move in it, or null when every candidate is null.
   */
  ghost predicate Trough(cands: seq<Board?>, min: Board?, best: int)
    reads set k | 0 <= k < |cands| && cands[k] != null :: cands[k]
  {
    (min == null ==> forall k :: 0 <= k < |cands| ==> cands[k] == null) &&
    (min != null ==>
       0 <= best < |cands| && min == cands[best] &&
       (forall k :: 0 <= k < |cands| && cands[k] != null ==> cands[k].GetCurrentValue() >= min.GetCurrentValue()) &&
       (forall k :: 0 <= k < best && cands[k] != null ==> cands[k].GetCurrentValue() > min.GetCurrentValue()))
  }

  /** Appending one candidate keeps Trough when a strictly lower value (or the first one) takes over. */
  lemma TroughStep(cands: seq<Board?>, min: Board?, best: int, temp: Board?)
    requires Trough(cands, min, best)
    ensures if min == null || (temp != null && temp.GetCurrentValue() < min.GetCurrentValue())
            then Trough(cands + [temp], temp, |cands|)
            else Trough(cands + [temp], min, best)
  {
    assert forall k :: 0 <= k < |cands| ==> (cands + [temp])[k] == cands[k];
  }

  /**
   * The positions the attempted moves produced (None for a refused move): each
   * one was refused or leaves `p` in check.
   */
  ghost predicate AllRefuted(tried: seq<Option<Position>>, p: Player) {
    forall k :: 0 <= k < |tried| ==> Refuted(tried[k], p)
  }

  /** The attempted move was refused, or its position leaves `p` in check. */
  ghost predicate Refuted(o: Option<Position>, p: Player) {
    o.Some? ==> |o.value.grid| == 64 && InCheck(o.value, p)
  }

  /** A move was made and its position does not leave `p` in check. */
  ghost predicate Escapes(o: Option<Position>, p: Player) {
    o.Some? && |o.value.grid| == 64 && !InCheck(o.value, p)
  }


  /** The values of board b are the material of its grid, as evaluate() leaves them. */
  ghost predicate Scored(b: Board)
    reads b, b.figures
  {
    b.figures.Length == 64 &&
    b.valueWhite == Material(b.figures[..], White) && b.valueBlack == Material(b.figures[..], Black)
  }

  /** What Fits reads of a candidate: the candidate and the board its first move made. */
  function Footprint(b: Board?, ply: int): set<object>
  {
    if b == null then {}
    else
      var first := b.Back(Depth(ply) - 1);
      {b, b.figures} + (if first == null then {} else {first, first.figures})
  }

  /**
   * The attempt coded c on `pos` leads nowhere within d moves, for some scratch
   * fields its piece may have: it is refused, or (d > 1) no line of d - 1
   * moves survives on the position it makes.
   */
  ghost predicate Ends(pos: Position, c: int, d: nat)
    requires |pos.grid| == 64
    decreases d, 0
  {
    0 <= c < 4096 && Owns(pos.grid, pos.current, c / 64) ==>
      exists s: Pawns.Scratch :: -1 <= s.enPassant < 8 &&
        (MoveResult(pos, c, s).None? || (d > 1 && Dead(MoveResult(pos, c, s).value, d - 1)))
  }

  /** No line of d moves from `pos` survives (for some scratch fields at each move): getMax(d) may answer null. */
  ghost predicate Dead(pos: Position, d: nat)
    requires |pos.grid| == 64
    decreases d, 1
  {
    forall c :: 0 <= c < 4096 ==> Ends(pos, c, d)
  }

  /**
   * The attempt coded c on `pos` leads nowhere within d moves, whatever scratch
   * fields its piece has.
   */
  ghost predicate Blocked(pos: Position, c: int, d: nat)
    requires |pos.grid| == 64
    decreases d, 0
  {
    0 <= c < 4096 && Owns(pos.grid, pos.current, c / 64) ==>
      forall s: Pawns.Scratch :: -1 <= s.enPassant < 8 ==>
        (MoveResult(pos, c, s).None? || (d > 1 && Doomed(MoveResult(pos, c, s).value, d - 1)))
  }

  /** No line of d moves from `pos` survives, whatever the scratch fields: getMax(d) must answer null. */
  ghost predicate Doomed(pos: Position, d: nat)
    requires |pos.grid| == 64
    decreases d, 1
  {
    forall c :: 0 <= c < 4096 ==> Blocked(pos, c, d)
  }

  /** A move that is made, and after which some line survives, is not Blocked. */
  lemma NotBlocked(pos: Position, c: int, s: Pawns.Scratch, d: nat)
    requires |pos.grid| == 64 && 0 <= c < 4096 && Owns(pos.grid, pos.current, c / 64) && -1 <= s.enPassant < 8
    requires MoveResult(pos, c, s).Some? && (d > 1 ==> !Doomed(MoveResult(pos, c, s).value, d - 1))
    ensures !Blocked(pos, c, d)
  {
  }

  /** A position where nothing survives whatever the scratch fields is one where nothing survives for some. */
  lemma {:induction false} DoomedDead(pos: Position, d: nat)
    requires |pos.grid| == 64 && Doomed(pos, d)
    ensures Dead(pos, d)
    decreases d
  {
    forall c | 0 <= c < 4096
      ensures Ends(pos, c, d)
    {
      if Owns(pos.grid, pos.current, c / 64) {
        var s := Pawns.FRESH;
        assert Blocked(pos, c, d);
        if MoveResult(pos, c, s).Some? {
          DoomedDead(MoveResult(pos, c, s).value, d - 1);
        }
      }
    }
  }

  /**
   * What the search's candidate `b` for the attempt coded c = 64 * from + to on
   * position `pos` says about that move, for the scratch fields its piece had
   * then: a candidate is scored by its material and goes back, ply - 1 boards
   * along `previous`, to the board the move made, and the move cannot be
   * Blocked; a missing candidate is a move the piece cannot make, one that left
   * the mover in check, or (above one ply) one after which no line of ply - 1
   * moves survives.
   */
  ghost predicate Fits(pos: Position, c: int, b: Board?, ply: int)
    reads Footprint(b, ply)
    requires |pos.grid| == 64
  {
    0 <= c < 4096 && Owns(pos.grid, pos.current, c / 64) &&
    (b != null ==> Scored(b) && b.Back(Depth(ply) - 1) != null && b.Back(Depth(ply) - 1).figures.Length == 64) &&
    (b != null ==> !Blocked(pos, c, Depth(ply))) &&
    exists s: Pawns.Scratch :: -1 <= s.enPassant < 8 &&
      (b != null ==> MoveResult(pos, c, s) == Some(b.Back(Depth(ply) - 1).Pos())) &&
      (b == null ==> MoveResult(pos, c, s).None? || (Depth(ply) > 1 && Dead(MoveResult(pos, c, s).value, Depth(ply) - 1)))
  }

  /** Each candidate fits the attempt whose code stands at the same place. */
  ghost predicate AllFit(pos: Position, codes: seq<int>, cands: seq<Board?>, ply: int)
    reads set k | 0 <= k < |cands| && cands[k] != null :: cands[k]
    reads set k | 0 <= k < |cands| && cands[k] != null :: cands[k].figures
    reads set k | 0 <= k < |cands| && cands[k] != null && cands[k].Back(Depth(ply) - 1) != null :: cands[k].Back(Depth(ply) - 1)
    reads set k | 0 <= k < |cands| && cands[k] != null && cands[k].Back(Depth(ply) - 1) != null :: cands[k].Back(Depth(ply) - 1).figures
    requires |pos.grid| == 64
  {
    |codes| == |cands| && forall k {:trigger Fits(pos, codes[k], cands[k], ply)} :: 0 <= k < |cands| ==> Fits(pos, codes[k], cands[k], ply)
  }

  /** A candidate that fits its attempt can be appended. */
  lemma AllFitStep(pos: Position, codes: seq<int>, cands: seq<Board?>, c: int, temp: Board?, ply: int)
    requires |pos.grid| == 64 && AllFit(pos, codes, cands, ply) && Fits(pos, c, temp, ply)
    ensures AllFit(pos, codes + [c], cands + [temp], ply)
  {
    forall k | 0 <= k < |cands| + 1
      ensures Fits(pos, (codes + [c])[k], (cands + [temp])[k], ply)
    {
      if k < |cands| {
        assert (codes + [c])[k] == codes[k] && (cands + [temp])[k] == cands[k];
        assert Fits(pos, codes[k], cands[k], ply);
      }
    }
  }

  /** The candidate of the next attempt of an owned origin extends the fitting prefix. */
  lemma AllFitNext(pos: Position, from: int, to: int, cands: seq<Board?>, temp: Board?, ply: int)
    requires |pos.grid| == 64 && 0 <= from < 64 && 0 <= to < 64 && Owns(pos.grid, pos.current, from)
    requires AllFit(pos, Attempts(pos.grid, pos.current, 64 * from + to), cands, ply)
    requires Fits(pos, 64 * from + to, temp, ply)
    ensures AllFit(pos, Attempts(pos.grid, pos.current, 64 * from + to + 1), cands + [temp], ply)
  {
    AttemptsTake(pos.grid, pos.current, from, to);
    AllFitStep(pos, Attempts(pos.grid, pos.current, 64 * from + to), cands, 64 * from + to, temp, ply);
  }

  /** When every candidate of a full scan is null, no line of the search's depth survives. */
  lemma NullsDead(pos: Position, cands: seq<Board?>, ply: int)
    requires |pos.grid| == 64 && AllFit(pos, Attempts(pos.grid, pos.current, 4096), cands, ply)
    requires forall k :: 0 <= k < |cands| ==> cands[k] == null
    ensures Dead(pos, Depth(ply))
  {
    var codes := Attempts(pos.grid, pos.current, 4096);
    AttemptsSpec(pos.grid, pos.current, 4096);
    forall c | 0 <= c < 4096
      ensures Ends(pos, c, Depth(ply))
    {
      if Owns(pos.grid, pos.current, c / 64) {
        assert c in codes;
        var k :| 0 <= k < |codes| && codes[k] == c;
        assert Fits(pos, codes[k], cands[k], ply);
      }
    }
  }

  /** When no line of the search's depth survives whatever the scratch fields, every candidate is null. */
  lemma DoomedNulls(pos: Position, cands: seq<Board?>, ply: int)
    requires |pos.grid| == 64 && AllFit(pos, Attempts(pos.grid, pos.current, 4096), cands, ply)
    requires Doomed(pos, Depth(ply))
    ensures forall k :: 0 <= k < |cands| ==> cands[k] == null
  {
    var codes := Attempts(pos.grid, pos.current, 4096);
    forall k | 0 <= k < |cands|
      ensures cands[k] == null
    {
      assert Fits(pos, codes[k], cands[k], ply);
      assert Blocked(pos, codes[k], Depth(ply));
    }
  }

  /**
   * One ply deep, or when the move was refused, the candidate is the move's own
   * outcome: it fits when it agrees with MoveResult.
   */
  lemma FirstFits(pos: Position, i: int, t: int, s: Pawns.Scratch, b: Board?, ply: int)
    requires |pos.grid| == 64 && Cell(i) && Cell(t) && Owns(pos.grid, pos.current, i) && -1 <= s.enPassant < 8
    requires Depth(ply) == 1 || b == null
    requires b == null ==> MoveResult(pos, 64 * i + t, s) == None
    requires b != null ==> Scored(b) && MoveResult(pos, 64 * i + t, s) == Some(b.Pos())
    ensures Fits(pos, 64 * i + t, b, ply)
  {
    CodeParts(i, t);
    var c := 64 * i + t;
    assert -1 <= s.enPassant < 8 &&
      (b != null ==> MoveResult(pos, c, s) == Some(b.Back(Depth(ply) - 1).Pos())) &&
      (b == null ==> MoveResult(pos, c, s).None?);
  }

  /**
   * Deeper than one ply, the answer `b` of the other side's search on the board
   * `first` the move made fits, once it is scored and leads back to `first`, is
   * null only when nothing survives on `first`, and is null when nothing can.
   */
  lemma DeepFits(pos: Position, c: int, s: Pawns.Scratch, first: Board, b: Board?, ply: int)
    requires |pos.grid| == 64 && 0 <= c < 4096 && Owns(pos.grid, pos.current, c / 64) && -1 <= s.enPassant < 8
    requires Depth(ply) > 1 && first.figures.Length == 64 && MoveResult(pos, c, s) == Some(first.Pos())
    requires b != null ==> Scored(b) && b.Back(Depth(ply) - 1) == first
    requires b == null ==> Dead(first.Pos(), Depth(ply) - 1)
    requires Doomed(first.Pos(), Depth(ply) - 1) ==> b == null
    ensures Fits(pos, c, b, ply)
  {
    if b != null {
      NotBlocked(pos, c, s, Depth(ply));
    }
    assert b != null ==> MoveResult(pos, c, s) == Some(b.Back(Depth(ply) - 1).Pos());
  }

  /** DeepFits for the attempt from cell i to cell t. */
  lemma DeepFitsAt(pos: Position, i: int, t: int, s: Pawns.Scratch, first: Board, b: Board?, ply: int)
    requires |pos.grid| == 64 && Cell(i) && Cell(t) && Owns(pos.grid, pos.current, i) && -1 <= s.enPassant < 8
    requires Depth(ply) > 1 && first.figures.Length == 64 && MoveResult(pos, 64 * i + t, s) == Some(first.Pos())
    requires b != null ==> Scored(b) && b.Back(Depth(ply) - 1) == first
    requires b == null ==> Dead(first.Pos(), Depth(ply) - 1)
    requires Doomed(first.Pos(), Depth(ply) - 1) ==> b == null
    ensures Fits(pos, 64 * i + t, b, ply)
  {
    CodeParts(i, t);
    DeepFits(pos, 64 * i + t, s, first, b, ply);
  }

  /**
   * The ghost record `t` of isInCheckmate's attempt coded c on `pos` is that
   * move's result (None when it was refused), for the scratch fields its piece
   * had then.
   */
  ghost predicate Tried(pos: Position, c: int, t: Option<Position>)
    requires |pos.grid| == 64
  {
    0 <= c < 4096 && Owns(pos.grid, pos.current, c / 64) &&
    exists s: Pawns.Scratch :: -1 <= s.enPassant < 8 && MoveResult(pos, c, s) == t
  }

  /** The result a move produces with some scratch is what was tried for its code. */
  lemma ResultTried(pos: Position, from: int, to: int, s: Pawns.Scratch, t: Option<Position>)
    requires |pos.grid| == 64 && Cell(from) && Cell(to) && Owns(pos.grid, pos.current, from)
    requires -1 <= s.enPassant < 8 && MoveResult(pos, 64 * from + to, s) == t
    ensures Tried(pos, 64 * from + to, t)
  {
    CodeParts(from, to);
  }

  /** Each record is the result of the attempt whose code stands at the same place. */
  ghost predicate AllTried(pos: Position, codes: seq<int>, tried: seq<Option<Position>>)
    requires |pos.grid| == 64
  {
    |codes| == |tried| && forall k {:trigger Tried(pos, codes[k], tried[k])} :: 0 <= k < |tried| ==> Tried(pos, codes[k], tried[k])
  }

  /** A record that is its attempt's result can be appended. */
  lemma AllTriedStep(pos: Position, codes: seq<int>, tried: seq<Option<Position>>, c: int, t: Option<Position>)
    requires |pos.grid| == 64 && AllTried(pos, codes, tried) && Tried(pos, c, t)
    ensures AllTried(pos, codes + [c], tried + [t])
  {
    forall k | 0 <= k < |tried| + 1
      ensures Tried(pos, (codes + [c])[k], (tried + [t])[k])
    {
      if k < |tried| {
        assert (codes + [c])[k] == codes[k] && (tried + [t])[k] == tried[k];
        assert Tried(pos, codes[k], tried[k]);
      }
    }
  }

  /** The record of the next attempt of an owned origin extends the records so far. */
  lemma AllTriedNext(pos: Position, from: int, to: int, tried: seq<Option<Position>>, t: Option<Position>)
    requires |pos.grid| == 64 && 0 <= from < 64 && 0 <= to < 64 && Owns(pos.grid, pos.current, from)
    requires AllTried(pos, Attempts(pos.grid, pos.current, 64 * from + to), tried)
    requires Tried(pos, 64 * from + to, t)
    ensures AllTried(pos, Attempts(pos.grid, pos.current, 64 * from + to + 1), tried + [t])
  {
    AttemptsTake(pos.grid, pos.current, from, to);
    AllTriedStep(pos, Attempts(pos.grid, pos.current, 64 * from + to), tried, 64 * from + to, t);
  }

  /**
   * The records of an isInCheckmate scan on `pos` that stopped at the first
   * escape: they are the results of the first attempts in scan order, every
   * one before the last was refused or left the mover in check, and the last
   * one escapes.
   */
  ghost predicate FirstEscape(pos: Position, tried: seq<Option<Position>>)
    requires |pos.grid| == 64
  {
    (exists n :: 0 < n <= 4096 && AllTried(pos, Attempts(pos.grid, pos.current, n), tried)) &&
    |tried| > 0 && AllRefuted(tried[..|tried| - 1], pos.current) && Escapes(tried[|tried| - 1], pos.current)
  }

  /**
   * Every attempt on `pos`, each recorded as its result, was refused or left
   * the side to move in check: what a checkmate tag rests on.
   */
  ghost predicate Mated(pos: Position)
    requires |pos.grid| == 64
  {
    exists tried :: AllTried(pos, Attempts(pos.grid, pos.current, 4096), tried) && AllRefuted(tried, pos.current)
  }

  /** Some attempt on `pos`, reached in scan order, escapes the check: what a plain check tag rests on. */
  ghost predicate Escapable(pos: Position)
    requires |pos.grid| == 64
  {
    exists tried :: FirstEscape(pos, tried)
  }

  /** One more step back from a board reached by n steps goes to that board's previous. */
  lemma {:induction false} BackStep(b: Board, n: nat)
    requires b.Back(n) != null
    ensures b.Back(n + 1) == b.Back(n).previous
    decreases n
  {
    if n > 0 {
      BackStep(b.previous, n - 1);
    }
  }

  class Board {
    var state: State
    var currentPlayer: Player
    /** The 64 cells; cell Index(x, y) holds the piece on square (x, y). */
    const figures: array<Option<Piece>>
    /** Each pawn's transient fields, kept with the cell the pawn stands on. */
    const scratch: array<Pawns.Scratch>
    const previous: Board?
    var markerWhiteX: int
    var markerBlackX: int
    var valueWhite: int
    var valueBlack: int

    ghost predicate Valid()
      reads this, scratch
    {
      figures.Length == 64 && scratch.Length == 64 &&
      forall i :: 0 <= i < 64 ==> -1 <= scratch[i].enPassant < 8
    }

    function Marks(): Markers
      reads this`markerWhiteX, this`markerBlackX
    {
      Markers(markerWhiteX, markerBlackX)
    }

    /** What reachability reads from this board. */
    function Pos(): Position
      reads this`currentPlayer, this`markerWhiteX, this`markerBlackX, figures
    {
      Position(figures[..], currentPlayer, Marks())
    }

    /** The status tag agrees with the check and stalemate scans for the side to move. */
    ghost predicate StatusAgrees()
      reads this`state, this`currentPlayer, this`markerWhiteX, this`markerBlackX, figures
      requires figures.Length == 64
    {
      var pos := Pos();
      if InCheck(pos, currentPlayer) then
        state == Check(currentPlayer) || state == Checkmate(currentPlayer)
      else
        state == (if NoMoves(pos) then Stalemate(currentPlayer) else Ordinary)
    }

    /**
     * The status updateStatus leaves with `fuel` nested searches to spare: it
     * agrees with the scans, a checkmate rests on every attempt being refused
     * and a plain check (with fuel left) on an attempt that escapes.
     */
    ghost predicate Settled(fuel: nat)
      reads this`state, this`currentPlayer, this`markerWhiteX, this`markerBlackX, figures
      requires figures.Length == 64
    {
      StatusAgrees() &&
      (state == Checkmate(currentPlayer) ==> Mated(Pos())) &&
      (state == Check(currentPlayer) && fuel > 0 ==> Escapable(Pos()))
    }

    /** The board reached by following `previous` n times. */
    function Back(n: nat): Board?
      decreases n
    {
      if n == 0 then this else if previous == null then null else previous.Back(n - 1)
    }

    /** The starting position: White to move, no status, both markers -1, no previous board. */
    constructor ()
      ensures Valid() && fresh(figures) && fresh(scratch)
      ensures figures[..] == InitialGrid()
      ensures forall i :: 0 <= i < 64 ==> scratch[i] == Pawns.FRESH
      ensures state == Ordinary && currentPlayer == White && previous == null
      ensures Marks() == Markers(-1, -1)
      ensures valueWhite == MIN_INT && valueBlack == MIN_INT
    {
      state := Ordinary;
      currentPlayer := White;
      figures := new Option<Piece>[64](i requires 0 <= i < 64 => InitialAt(File(i), Rank(i)));
      scratch := new Pawns.Scratch[64](_ => Pawns.FRESH);
      previous := null;
      markerWhiteX := -1;
      markerBlackX := -1;
      valueWhite := MIN_INT;
      valueBlack := MIN_INT;
      new;
      assert figures[..] == InitialGrid();
    }

    /**
     * The private clone constructor: same status, side to move and pieces (each a
     * fresh piece, so every pawn's scratch fields are -1), `previous` is the
     * source; markers and values are not copied and stay 0.
     */
    constructor CloneOf(board: Board)
      requires board.Valid()
      ensures Valid() && fresh(figures) && fresh(scratch)
      ensures figures[..] == board.figures[..]
      ensures forall i :: 0 <= i < 64 ==> scratch[i] == Pawns.FRESH
      ensures state == board.state && currentPlayer == board.currentPlayer && previous == board
      ensures Marks() == Markers(0, 0) && valueWhite == 0 && valueBlack == 0
    {
      state := board.state;
      currentPlayer := board.currentPlayer;
      var cells := new Option<Piece>[64](_ => None);
      var i := 0;
      while i < 64
        invariant 0 <= i <= 64
        invariant forall j :: 0 <= j < i ==> cells[j] == board.figures[j]
        invariant forall j :: i <= j < 64 ==> cells[j].None?
      {
        if board.figures[i].Some? {
          cells[i] := board.figures[i];
        }
        i := i + 1;
      }
      figures := cells;
      scratch := new Pawns.Scratch[64](_ => Pawns.FRESH);
      previous := board;
      markerWhiteX := 0;
      markerBlackX := 0;
      valueWhite := 0;
      valueBlack := 0;
      new;
      assert figures[..] == board.figures[..];
    }

    /** getFigure(x, y): the cell's piece, None when the square is empty. */
    function GetFigure(x: int, y: int): (f: Option<Piece>)
      reads this, figures
      requires figures.Length == 64 && OnBoard(x, y)
      ensures f == At(figures[..], x, y)
    {
      figures[Index(x, y)]
    }

    method SetFigure(x: int, y: int, f: Option<Piece>)
      requires figures.Length == 64 && OnBoard(x, y)
      modifies figures
      ensures figures[..] == old(figures[..])[Index(x, y) := f]
    {
      figures[Index(x, y)] := f;
    }

    /** Empties a square and returns what stood there. */
    method RemoveFigure(x: int, y: int) returns (f: Option<Piece>)
      requires figures.Length == 64 && OnBoard(x, y)
      modifies figures
      ensures f == old(At(figures[..], x, y))
      ensures figures[..] == old(figures[..])[Index(x, y) := None]
    {
      f := figures[Index(x, y)];
      figures[Index(x, y)] := None;
    }

    method NextPlayer()
      modifies this`currentPlayer
      ensures currentPlayer == Opponent(old(currentPlayer))
    {
      currentPlayer := if currentPlayer == White then Black else White;
    }

    function GetMarker(p: Player): (m: int)
      reads this
      ensures m == (if p == White then markerWhiteX else markerBlackX)
    {
      match p
      case White => markerWhiteX
      case Black => markerBlackX
    }

    /** setMarker(p, m): only p's marker changes. */
    method SetMarker(p: Player, m: int)
      modifies this`markerWhiteX, this`markerBlackX
      ensures GetMarker(p) == m && GetMarker(Opponent(p)) == old(GetMarker(Opponent(p)))
      ensures Marks() == old(Marks()).Set(p, m)
    {
      match p
      case White => markerWhiteX := m;
      case Black => markerBlackX := m;
    }

    /** resetMarker(): only the side to move's marker changes, to -1. */
    method ResetMarker()
      modifies this`markerWhiteX, this`markerBlackX
      ensures GetMarker(currentPlayer) == -1
      ensures GetMarker(Opponent(currentPlayer)) == old(GetMarker(Opponent(currentPlayer)))
      ensures Marks() == old(Marks()).Set(currentPlayer, -1)
    {
      match currentPlayer
      case White => markerWhiteX := -1;
      case Black => markerBlackX := -1;
    }

    /** getValue(p): p's material minus the opponent's, from the cached values. */
    function GetValue(p: Player): (v: int)
      reads this
      ensures v == (if p == White then valueWhite - valueBlack else valueBlack - valueWhite)
    {
      if p == White then valueWhite - valueBlack else valueBlack - valueWhite
    }

    /**
     * On a board whose values are its material, as every evaluated board's
     * are, getValue(p) is p's material minus its opponent's: the two sides'
     * scores are opposite.
     */
    lemma ScoredValue(p: Player)
      requires Scored(this)
      ensures GetValue(p) == Material(figures[..], p) - Material(figures[..], Opponent(p))
      ensures GetValue(p) == -GetValue(Opponent(p))
    {
    }

    /** getValue(): the score of the side to move. */
    function GetCurrentValue(): (v: int)
      reads this
      ensures v == GetValue(currentPlayer)
      ensures v == -GetValue(Opponent(currentPlayer))
    {
      if currentPlayer == White then valueWhite - valueBlack else valueBlack - valueWhite
    }

    /** evaluate(): each side's material, summed over the whole board. */
    method Evaluate()
      requires figures.Length == 64
      modifies this`valueWhite, this`valueBlack
      ensures valueWhite == Material(figures[..], White)
      ensures valueBlack == Material(figures[..], Black)
    {
      valueWhite := 0;
      valueBlack := 0;
      var i := 0;
      while i < 64
        invariant 0 <= i <= 64
        invariant valueWhite == MaterialUpTo(figures[..], White, i)
        invariant valueBlack == MaterialUpTo(figures[..], Black, i)
      {
        if figures[i].Some? {
          var f := figures[i].value;
          match f.owner
          case White => valueWhite := valueWhite + Value(f, File(i), Rank(i));
          case Black => valueBlack := valueBlack + Value(f, File(i), Rank(i));
        }
        i := i + 1;
      }
    }

    /** promote(): rank 0 first, then rank 7. */
    method Promote()
      requires figures.Length == 64
      modifies figures
      ensures figures[..] == Promoted(old(figures[..]))
    {
      ghost var g := figures[..];
      var x := 0;
      while x < 8
        invariant 0 <= x <= 8 && figures[..] == PromotedFiles(g, 0, x)
      {
        PromoteSquare(x, 0);
        x := x + 1;
      }
      ghost var h := figures[..];
      x := 0;
      while x < 8
        invariant 0 <= x <= 8 && figures[..] == PromotedFiles(h, 7, x)
      {
        PromoteSquare(x, 7);
        x := x + 1;
      }
      PromotedScans(g, h, x);
    }

    /** One square of the promotion scan: a pawn on rank 0 becomes a black queen, on rank 7 a white one. */
    method PromoteSquare(x: int, y: int)
      requires figures.Length == 64 && 0 <= x < 8 && (y == 0 || y == 7)
      modifies figures
      ensures figures[..] == old(figures[..])[8 * x + y := PromoteCell(old(figures[8 * x + y]), y)]
    {
      var i := Index(x, y);
      if figures[i].Some? && figures[i].value.kind == Pawn {
        figures[i] := Some(Piece(Queen, if y == 0 then Black else White));
      }
    }

    /** getFigure(Class, Player): the first matching cell in scan order. */
    method GetFigureOf(kind: Kind, p: Player) returns (r: Option<int>)
      requires figures.Length == 64
      ensures r == FirstOf(figures[..], kind, p)
    {
      ghost var g := figures[..];
      var i := 0;
      while i < 64
        invariant 0 <= i <= 64
        invariant forall j :: 0 <= j < i ==> g[j] != Some(Piece(kind, p))
      {
        assert g[i] == figures[i];
        if figures[i].Some? && figures[i].value.kind == kind && figures[i].value.owner == p {
          return Some(i);
        }
        i := i + 1;
      }
      return None;
    }

    /**
     * isSquareReachable of the piece on (x, y): the answer, and for a pawn the
     * scratch fields its test writes.
     */
    method IsSquareReachable(x: int, y: int, tx: int, ty: int) returns (r: bool)
      requires Valid() && OnBoard(x, y) && OnBoard(tx, ty) && figures[Index(x, y)].Some?
      modifies scratch
      ensures Valid() && Pos() == old(Pos())
      ensures r == Reachable(Pos(), x, y, tx, ty)
      ensures scratch[Index(x, y)] == Probe(Pos(), x, y, tx, ty, old(scratch[Index(x, y)]))
      ensures forall j :: 0 <= j < 64 && j != Index(x, y) ==> scratch[j] == old(scratch[j])
    {
      var i := Index(x, y);
      var p := figures[i].value;
      if p.kind == Pawn {
        var v := Pawns.Query(Pos(), p.owner, x, y, tx, ty, scratch[i]);
        ProbeAnswer(Pos(), x, y, tx, ty, scratch[i]);
        scratch[i] := v.scratch;
        r := v.reachable;
      } else {
        r := Reachable(Pos(), x, y, tx, ty);
      }
    }

    /**
     * isInCheck(player): some piece of the other colour reaches the first king of
     * `player`.  The attacking pawns' tests may write their scratch fields.
     */
    method IsInCheck(player: Player) returns (r: bool)
      requires Valid()
      modifies scratch
      ensures Valid() && Pos() == old(Pos())
      ensures r == InCheck(Pos(), player)
    {
      var king := GetFigureOf(King, player);
      if king.None? {
        return false;
      }
      r := KingAttacked(king.value, player);
    }

    /** isInCheck's scan for attackers of the king on cell k, in cell order. */
    method KingAttacked(k: int, player: Player) returns (r: bool)
      requires Valid() && Cell(k) && figures[k].Some?
      modifies scratch
      ensures Valid()
      ensures r <==> exists i :: 0 <= i < 64 && Attacks(Pos(), player, i, k)
    {
      ghost var pos := Pos();
      var i := 0;
      while i < 64
        invariant 0 <= i <= 64 && Valid() && Pos() == pos
        invariant forall j :: 0 <= j < i ==> !Attacks(pos, player, j, k)
      {
        var hit := Attacked(i, k, player);
        if hit {
          return true;
        }
        i := i + 1;
      }
      return false;
    }

    /** One step of isInCheck's scan: a piece of the other colour on cell i whose test reaches cell k. */
    method Attacked(i: int, k: int, player: Player) returns (hit: bool)
      requires Valid() && Cell(i) && Cell(k) && figures[k].Some?
      modifies scratch
      ensures Valid()
      ensures hit == Attacks(Pos(), player, i, k)
    {
      hit := false;
      if figures[i].Some? && figures[i].value.owner != player {
        CellOnBoard(i);
        CellOnBoard(k);
        ghost var before := scratch[i];
        hit := IsSquareReachable(File(i), Rank(i), File(k), Rank(k));
        CheckStep(Pos(), player, i, k, before, scratch[i], hit);
      }
    }

    /**
     * isInStalemate(): no piece of the side to move reaches any square.  Only
     * that side's pawns have their scratch fields written.
     */
    method IsInStalemate() returns (r: bool)
      requires Valid()
      modifies scratch
      ensures Valid()
      ensures r == NoMoves(Pos())
      ensures forall j :: 0 <= j < 64 ==>
                scratch[j] == if Owns(figures[..], currentPlayer, j) && StuckBefore(Pos(), j)
                              then ProbeScan(Pos(), j, old(scratch[j]), 0) else old(scratch[j])
    {
      ghost var pos := Pos();
      ghost var before := scratch[..];
      var from := 0;
      while from < 64
        invariant 0 <= from <= 64 && Valid() && Pos() == pos
        invariant StuckBefore(pos, from)
        invariant ScanLeaves(pos, before, scratch[..], from)
      {
        ghost var mid := scratch[..];
        if figures[from].Some? && figures[from].value.owner == currentPlayer {
          var stuck := Immobile(from);
          ScanStep(pos, before, mid, scratch[..], from);
          if !stuck {
            StuckSplit(pos, from);
            ScanEnds(pos, before, scratch[..], from + 1);
            return false;
          }
        } else {
          ScanStep(pos, before, mid, scratch[..], from);
        }
        StuckStep(pos, from);
        from := from + 1;
      }
      StuckAll(pos);
      ScanEnds(pos, before, scratch[..], 64);
      return true;
    }

    /**
     * isInStalemate's inner loop: the piece on cell `from` reaches no square.
     * Only its scratch fields change, as its tests up to the first square it
     * reaches leave them.
     */
    method Immobile(from: int) returns (r: bool)
      requires Valid() && Cell(from) && figures[from].Some?
      modifies scratch
      ensures Valid() && Pos() == old(Pos())
      ensures r <==> forall t :: 0 <= t < 64 ==> !CanReach(Pos(), from, t)
      ensures scratch[from] == ProbeScan(Pos(), from, old(scratch[from]), 0)
      ensures forall j :: 0 <= j < 64 && j != from ==> scratch[j] == old(scratch[j])
      ensures figures[from].value.kind != Pawn ==> scratch[from] == old(scratch[from])
    {
      ghost var pos := Pos();
      ghost var s0 := scratch[from];
      var to := 0;
      while to < 64
        invariant 0 <= to <= 64 && Valid() && Pos() == pos
        invariant forall t :: 0 <= t < to ==> !CanReach(pos, from, t)
        invariant scratch[from] == Probes(pos, from, s0, to)
        invariant forall j :: 0 <= j < 64 && j != from ==> scratch[j] == old(scratch[j])
        invariant figures[from].value.kind != Pawn ==> scratch[from] == old(scratch[from])
      {
        var hit := Reaches(from, to);
        if hit {
          assert CanReach(pos, from, to);
          ProbeScanPrefix(pos, from, s0, to);
          return false;
        }
        assert scratch[from] == Probes(pos, from, s0, to + 1);
        forall t | 0 <= t < to + 1 ensures !CanReach(pos, from, t) {
          if t == to { assert !hit; }
        }
        to := to + 1;
      }
      ProbeScanPrefix(pos, from, s0, 64);
      return true;
    }

    /** One test of isInStalemate: the piece on cell `from` reaches cell `to`, and its test writes its fields. */
    method Reaches(from: int, to: int) returns (hit: bool)
      requires Valid() && Cell(from) && Cell(to) && figures[from].Some?
      modifies scratch
      ensures Valid() && Pos() == old(Pos())
      ensures hit == CanReach(Pos(), from, to)
      ensures scratch[from] == Probe(Pos(), File(from), Rank(from), File(to), Rank(to), old(scratch[from]))
      ensures forall j :: 0 <= j < 64 && j != from ==> scratch[j] == old(scratch[j])
      ensures figures[from].value.kind != Pawn ==> scratch[from] == old(scratch[from])
    {
      CellOnBoard(from);
      CellOnBoard(to);
      hit := IsSquareReachable(File(from), Rank(from), File(to), Rank(to));
    }

    /**
     * What a move that reaches its square (or not) hands back: nothing when the
     * square is unreachable or the mover's king would stand in check on the new
     * grid; otherwise a board after `previous` = this with that grid, the other
     * side to move, the given markers, the values of its material and the status
     * updateStatus settles on with `fuel` (see Settled).
     */
    ghost predicate Outcome(ret: Board?, reach: bool, grid: Grid, m: Markers, fuel: nat)
      reads this`currentPlayer
      reads if ret != null then {ret, ret.figures, ret.scratch} else {}
      requires |grid| == 64
    {
      (!reach ==> ret == null) &&
      (reach ==> (ret == null <==> InCheck(Position(grid, currentPlayer, m), currentPlayer))) &&
      (ret != null ==>
        ret.Valid() && ret.previous == this && ret.figures[..] == grid &&
        ret.currentPlayer == Opponent(currentPlayer) && ret.Marks() == m &&
        ret.valueWhite == Material(grid, White) && ret.valueBlack == Material(grid, Black) &&
        ret.Settled(fuel))
    }

    /**
     * Pawn.move from (x, y) to (tx, ty), its pawn's scratch fields having been
     * `before`: the test's answer and fields decide the move, the victim file
     * and the mover's marker; enPassant is -1 afterwards.
     */
    ghost predicate PawnDone(ret: Board?, x: int, y: int, tx: int, ty: int, before: Pawns.Scratch, fuel: nat)
      reads this, figures, scratch
      reads if ret != null then {ret, ret.figures, ret.scratch} else {}
      requires Valid() && OnBoard(x, y) && OnBoard(tx, ty) && figures[Index(x, y)].Some?
      requires -1 <= before.enPassant < 8
    {
      var owner := figures[Index(x, y)].value.owner;
      var v := Pawns.Query(Pos(), owner, x, y, tx, ty, before);
      scratch[Index(x, y)] == v.scratch.(enPassant := -1) &&
      Outcome(ret, v.reachable, PawnApplied(figures[..], x, y, tx, ty, v.scratch.enPassant),
              MovedMarkers(currentPlayer).Set(owner, v.scratch.startMove), fuel)
    }

    /** The inherited Figure.move of any other piece (ASSUMPTION: Pawn.move without en passant and markers). */
    ghost predicate FigureDone(ret: Board?, x: int, y: int, tx: int, ty: int, fuel: nat)
      reads this, figures, scratch
      reads if ret != null then {ret, ret.figures, ret.scratch} else {}
      requires Valid() && OnBoard(x, y) && OnBoard(tx, ty) && figures[Index(x, y)].Some?
    {
      Outcome(ret, Reachable(Pos(), x, y, tx, ty), FigureApplied(figures[..], x, y, tx, ty),
              MovedMarkers(currentPlayer), fuel)
    }

    /**
     * The tail every move shares, run on the new board: reject it when the mover
     * is in check, otherwise hand the turn over, update the status and evaluate.
     */
    method Settle(fuel: nat) returns (ok: bool)
      requires Valid()
      modifies this`state, this`currentPlayer, this`valueWhite, this`valueBlack, scratch
      decreases fuel, 5
      ensures Valid()
      ensures ok == !InCheck(old(Pos()), old(currentPlayer))
      ensures ok ==> currentPlayer == Opponent(old(currentPlayer)) && Settled(fuel)
      ensures ok ==> valueWhite == Material(figures[..], White) && valueBlack == Material(figures[..], Black)
    {
      var check := IsInCheck(currentPlayer);
      if check {
        return false;
      }
      NextPlayer();
      ghost var tried := UpdateStatus(fuel);
      Evaluate();
      assert Settled(fuel);
      return true;
    }

    /**
     * updateStatus(): check (and then checkmate), else stalemate, else nothing.
     * Checkmate means every attempted move, each recorded as its result, was
     * refused or left the side to move in check; a plain check with fuel left
     * ends on the first attempt that escapes.
     */
    method UpdateStatus(fuel: nat) returns (ghost tried: seq<Option<Position>>)
      requires Valid()
      modifies this`state, scratch
      decreases fuel, 4
      ensures Valid() && StatusAgrees()
      ensures state == Checkmate(currentPlayer) ==>
                AllTried(Pos(), Attempts(figures[..], currentPlayer, 4096), tried) && AllRefuted(tried, currentPlayer)
      ensures state == Check(currentPlayer) && fuel > 0 ==> FirstEscape(Pos(), tried)
    {
      tried := [];
      var check := IsInCheck(currentPlayer);
      if check {
        tried := CheckStatus(fuel);
      } else {
        var stale := IsInStalemate();
        if stale {
          state := Stalemate(currentPlayer);
        } else {
          state := Ordinary;
        }
        assert state != Checkmate(currentPlayer) && state != Check(currentPlayer);
      }
    }

    /** The check branch of updateStatus: check, upgraded to checkmate when isInCheckmate says so. */
    method CheckStatus(fuel: nat) returns (ghost tried: seq<Option<Position>>)
      requires Valid()
      modifies this`state, scratch
      decreases fuel, 3
      ensures Valid()
      ensures state == Check(currentPlayer) || state == Checkmate(currentPlayer)
      ensures state == Checkmate(currentPlayer) ==>
                AllTried(Pos(), Attempts(figures[..], currentPlayer, 4096), tried) && AllRefuted(tried, currentPlayer)
      ensures state == Check(currentPlayer) && fuel > 0 ==> FirstEscape(Pos(), tried)
    {
      state := Check(currentPlayer);
      var mate;
      mate, tried := IsInCheckmate(fuel);
      if mate {
        state := Checkmate(currentPlayer);
      }
    }

    /**
     * isInCheckmate(): every move of every piece of the side to move, in scan
     * order, is refused or leaves that side in check.  `tried` records each
     * attempt's result.  With no fuel left the search is not made and the
     * answer is false.
     */
    method IsInCheckmate(fuel: nat) returns (r: bool, ghost tried: seq<Option<Position>>)
      requires Valid()
      modifies scratch
      decreases fuel, 2
      ensures Valid()
      ensures fuel == 0 ==> !r && tried == []
      ensures r ==> AllTried(Pos(), Attempts(figures[..], currentPlayer, 4096), tried) && AllRefuted(tried, currentPlayer)
      ensures fuel > 0 && !r ==> FirstEscape(Pos(), tried)
    {
      tried := [];
      if fuel == 0 {
        return false, tried;
      }
      ghost var g, pos := figures[..], Pos();
      var from := 0;
      while from < 64
        invariant 0 <= from <= 64 && Valid() && figures[..] == g && Pos() == pos
        invariant AllTried(pos, AttemptsBefore(g, currentPlayer, from), tried)
        invariant AllRefuted(tried, currentPlayer)
      {
        if figures[from].Some? && figures[from].value.owner == currentPlayer {
          assert Owns(g, currentPlayer, from);
          var escaped;
          ghost var n;
          escaped, tried, n := TryFrom(from, fuel, tried);
          if escaped {
            return false, tried;
          }
        } else {
          AttemptsSkip(g, currentPlayer, from, 64);
          assert AttemptsBefore(g, currentPlayer, from + 1) == AttemptsBefore(g, currentPlayer, from);
        }
        from := from + 1;
      }
      return true, tried;
    }

    /**
     * The inner loop of isInCheckmate for the piece on cell `from`: each target
     * in turn, stopping at the first move that does not leave the mover in
     * check.  `tried` extends the records so far; `n` is the code after the
     * last attempt made.
     */
    method TryFrom(from: int, fuel: nat, ghost tried0: seq<Option<Position>>)
      returns (escaped: bool, ghost tried: seq<Option<Position>>, ghost n: int)
      requires Valid() && fuel > 0 && Cell(from) && Owns(figures[..], currentPlayer, from)
      requires AllTried(Pos(), AttemptsBefore(figures[..], currentPlayer, from), tried0)
      requires AllRefuted(tried0, currentPlayer)
      modifies scratch
      decreases fuel, 1
      ensures Valid()
      ensures !escaped ==> AllTried(Pos(), AttemptsBefore(figures[..], currentPlayer, from + 1), tried) &&
                           AllRefuted(tried, currentPlayer)
      ensures escaped ==> 64 * from < n <= 64 * from + 64 && AllTried(Pos(), Attempts(figures[..], currentPlayer, n), tried)
      ensures escaped ==> |tried| > 0 && AllRefuted(tried[..|tried| - 1], currentPlayer)
      ensures escaped ==> |tried| > 0 && Escapes(tried[|tried| - 1], currentPlayer)
    {
      tried := tried0;
      ghost var pos := Pos();
      var to := 0;
      n := 64 * from;
      while to < 64
        invariant 0 <= to <= 64 && n == 64 * from + to && Valid() && Pos() == pos
        invariant AllTried(pos, Attempts(pos.grid, pos.current, n), tried)
        invariant AllRefuted(tried, currentPlayer)
      {
        var escape;
        ghost var prev := tried;
        escape, tried := TryStep(from, to, fuel, tried);
        n := n + 1;
        if escape {
          assert tried[..|tried| - 1] == prev;
          assert pos.grid == figures[..] && pos.current == currentPlayer;
          assert AllTried(Pos(), Attempts(figures[..], currentPlayer, n), tried);
          return true, tried, n;
        }
        to := to + 1;
      }
      return false, tried, 64 * from + 64;
    }

    /** One turn of isInCheckmate's innermost loop: the attempt from `from` to `to` is made and recorded. */
    method TryStep(from: int, to: int, fuel: nat, ghost tried0: seq<Option<Position>>)
      returns (escape: bool, ghost tried: seq<Option<Position>>)
      requires Valid() && fuel > 0 && Cell(from) && Cell(to) && Owns(figures[..], currentPlayer, from)
      requires AllTried(Pos(), Attempts(figures[..], currentPlayer, 64 * from + to), tried0)
      requires AllRefuted(tried0, currentPlayer)
      modifies scratch
      decreases fuel, 0, 1
      ensures Valid()
      ensures AllTried(Pos(), Attempts(figures[..], currentPlayer, 64 * from + to + 1), tried)
      ensures tried == tried0 + [tried[|tried0|]]
      ensures escape == Escapes(tried[|tried0|], currentPlayer)
      ensures !escape ==> AllRefuted(tried, currentPlayer)
    {
      ghost var t;
      escape, t := Attempt(from, to, fuel);
      AllTriedNext(Pos(), from, to, tried0, t);
      tried := tried0 + [t];
    }

    /**
     * One attempt of isInCheckmate: the move from cell `from` to cell `to`, and
     * whether it was made and leaves the side to move out of check.  `t` is the
     * move's result: None when refused, otherwise the position it produced.
     */
    method Attempt(from: int, to: int, fuel: nat) returns (escape: bool, ghost t: Option<Position>)
      requires Valid() && fuel > 0 && Cell(from) && Cell(to) && Owns(figures[..], currentPlayer, from)
      modifies scratch
      decreases fuel, 0, 0
      ensures Valid()
      ensures Tried(Pos(), 64 * from + to, t)
      ensures escape == Escapes(t, currentPlayer)
      ensures !escape ==> Refuted(t, currentPlayer)
    {
      var temp;
      ghost var s;
      temp, s := FirstMove(from, to, fuel - 1);
      t := None;
      escape := false;
      if temp != null {
        t := Some(temp.Pos());
        var check := temp.IsInCheck(currentPlayer);
        escape := !check;
      }
      ResultTried(Pos(), from, to, s, t);
    }

    /**
     * The edits Pawn.move makes to its clone: the mover's marker reset, the
     * victim on (ep, y) removed, the pawn relocated, the owner's marker set to
     * `startMove`, promotion.
     */
    method ApplyPawn(x: int, y: int, tx: int, ty: int, ep: int, owner: Player, startMove: int) returns (ret: Board)
      requires Valid() && OnBoard(x, y) && OnBoard(tx, ty) && -1 <= ep < 8
      ensures fresh(ret) && fresh(ret.figures) && fresh(ret.scratch) && ret.Valid()
      ensures ret.previous == this && ret.currentPlayer == currentPlayer && ret.state == state
      ensures ret.figures[..] == PawnApplied(figures[..], x, y, tx, ty, ep)
      ensures ret.Marks() == MovedMarkers(currentPlayer).Set(owner, startMove)
    {
      ret := new Board.CloneOf(this);
      ret.ResetMarker();
      if ep != -1 {
        var victim := ret.RemoveFigure(ep, y);
      }
      var f := ret.RemoveFigure(x, y);
      ret.SetFigure(tx, ty, f);
      ret.SetMarker(owner, startMove);
      ret.Promote();
    }

    /** The edits of the inherited move (ASSUMPTION): marker reset, relocation, promotion. */
    method ApplyFigure(x: int, y: int, tx: int, ty: int) returns (ret: Board)
      requires Valid() && OnBoard(x, y) && OnBoard(tx, ty)
      ensures fresh(ret) && fresh(ret.figures) && fresh(ret.scratch) && ret.Valid()
      ensures ret.previous == this && ret.currentPlayer == currentPlayer && ret.state == state
      ensures ret.figures[..] == FigureApplied(figures[..], x, y, tx, ty)
      ensures ret.Marks() == MovedMarkers(currentPlayer)
    {
      ret := new Board.CloneOf(this);
      ret.ResetMarker();
      var f := ret.RemoveFigure(x, y);
      ret.SetFigure(tx, ty, f);
      ret.Promote();
    }

    /** Pawn.move once its square is reachable: edit a clone, then settle it or refuse. */
    method PawnMoveOn(x: int, y: int, tx: int, ty: int, ep: int, owner: Player, startMove: int, fuel: nat)
      returns (ret: Board?)
      requires Valid() && OnBoard(x, y) && OnBoard(tx, ty) && -1 <= ep < 8
      decreases fuel, 6
      ensures Outcome(ret, true, PawnApplied(figures[..], x, y, tx, ty, ep), MovedMarkers(currentPlayer).Set(owner, startMove), fuel)
      ensures ret != null ==> fresh(ret) && fresh(ret.figures) && fresh(ret.scratch)
    {
      ret := ApplyPawn(x, y, tx, ty, ep, owner, startMove);
      var ok := ret.Settle(fuel);
      if !ok {
        ret := null;
      }
    }

    /** Pawn.move(tx, ty) of the pawn on (x, y); only its scratch fields change here. */
    method PawnMove(x: int, y: int, tx: int, ty: int, fuel: nat) returns (ret: Board?)
      requires Valid() && OnBoard(x, y) && OnBoard(tx, ty)
      requires figures[Index(x, y)].Some? && figures[Index(x, y)].value.kind == Pawn
      modifies scratch
      decreases fuel, 7
      ensures Valid()
      ensures PawnDone(ret, x, y, tx, ty, old(scratch[Index(x, y)]), fuel)
      ensures forall j :: 0 <= j < 64 && j != Index(x, y) ==> scratch[j] == old(scratch[j])
      ensures ret != null ==> fresh(ret) && fresh(ret.figures) && fresh(ret.scratch)
    {
      var i := Index(x, y);
      var owner := figures[i].value.owner;
      ghost var pos := Pos();
      ghost var before := scratch[i];
      ghost var v := Pawns.Query(pos, owner, x, y, tx, ty, before);
      var reach := IsSquareReachable(x, y, tx, ty);
      ProbeAnswer(pos, x, y, tx, ty, before);
      assert reach == v.reachable && scratch[i] == v.scratch;
      ghost var grid := PawnApplied(figures[..], x, y, tx, ty, v.scratch.enPassant);
      ghost var m := MovedMarkers(currentPlayer).Set(owner, v.scratch.startMove);
      ret := null;
      if reach {
        ret := PawnMoveOn(x, y, tx, ty, scratch[i].enPassant, owner, scratch[i].startMove, fuel);
      }
      assert Outcome(ret, v.reachable, grid, m, fuel);
      scratch[i] := scratch[i].(enPassant := -1);
    }

    /** The inherited move of any piece other than a pawn (ASSUMPTION, see FigureDone). */
    method FigureMove(x: int, y: int, tx: int, ty: int, fuel: nat) returns (ret: Board?)
      requires Valid() && OnBoard(x, y) && OnBoard(tx, ty)
      requires figures[Index(x, y)].Some? && figures[Index(x, y)].value.kind != Pawn
      modifies scratch
      decreases fuel, 7
      ensures Valid() && scratch[..] == old(scratch[..])
      ensures FigureDone(ret, x, y, tx, ty, fuel)
      ensures ret != null ==> fresh(ret) && fresh(ret.figures) && fresh(ret.scratch)
    {
      var reach := IsSquareReachable(x, y, tx, ty);
      ret := null;
      if reach {
        ret := ApplyFigure(x, y, tx, ty);
        var ok := ret.Settle(fuel);
        if !ok {
          ret := null;
        }
      }
    }

    /**
     * The move of the piece on (x, y), whoever owns it, as the board's scans make
     * it: the outcome of its test, with the grid and markers that move produces
     * from the piece's scratch fields as they were.
     */
    method PieceMove(x: int, y: int, tx: int, ty: int, fuel: nat) returns (ret: Board?)
      requires Valid() && OnBoard(x, y) && OnBoard(tx, ty) && figures[Index(x, y)].Some?
      modifies scratch
      decreases fuel, 8
      ensures Valid()
      ensures Outcome(ret, Reachable(Pos(), x, y, tx, ty),
                      MovedGrid(Pos(), x, y, tx, ty, old(scratch[Index(x, y)])),
                      MovedMarks(Pos(), x, y, tx, ty, old(scratch[Index(x, y)])), fuel)
      ensures forall j :: 0 <= j < 64 && j != Index(x, y) ==> scratch[j] == old(scratch[j])
      ensures ret != null ==> fresh(ret) && fresh(ret.figures) && fresh(ret.scratch)
    {
      if figures[Index(x, y)].value.kind == Pawn {
        ghost var before := scratch[Index(x, y)];
        ret := PawnMove(x, y, tx, ty, fuel);
        ProbeAnswer(Pos(), x, y, tx, ty, before);
      } else {
        ret := FigureMove(x, y, tx, ty, fuel);
      }
    }

    /**
     * move(x, y, tx, ty): nothing when (x, y) holds no piece of the side to move;
     * otherwise that piece's move.  This board changes only in the moving
     * pawn's scratch fields.
     */
    method Move(x: int, y: int, tx: int, ty: int, fuel: nat) returns (ret: Board?)
      requires Valid() && OnBoard(x, y) && OnBoard(tx, ty)
      modifies scratch
      ensures Valid()
      ensures !Owns(figures[..], currentPlayer, Index(x, y)) ==> ret == null && scratch[..] == old(scratch[..])
      ensures Owns(figures[..], currentPlayer, Index(x, y)) && figures[Index(x, y)].value.kind == Pawn ==>
                PawnDone(ret, x, y, tx, ty, old(scratch[Index(x, y)]), fuel)
      ensures Owns(figures[..], currentPlayer, Index(x, y)) && figures[Index(x, y)].value.kind != Pawn ==>
                FigureDone(ret, x, y, tx, ty, fuel)
      ensures forall j :: 0 <= j < 64 && j != Index(x, y) ==> scratch[j] == old(scratch[j])
      ensures figures[Index(x, y)].Some? && figures[Index(x, y)].value.kind != Pawn ==> scratch[..] == old(scratch[..])
      ensures ret != null ==> fresh(ret) && fresh(ret.figures) && fresh(ret.scratch)
    {
      ret := null;
      var i := Index(x, y);
      if figures[i].Some? && figures[i].value.owner == currentPlayer {
        if figures[i].value.kind == Pawn {
          ret := PawnMove(x, y, tx, ty, fuel);
        } else {
          ret := FigureMove(x, y, tx, ty, fuel);
        }
      }
    }

    /**
     * The move from cell i to cell t, made from scratch fields `s` with outcome
     * `ret`, is MoveResult of its code: null exactly when that is None, and
     * otherwise a scored board with the position it names.
     */
    lemma MoveFits(i: int, t: int, s: Pawns.Scratch, ret: Board?, fuel: nat)
      requires Valid() && Cell(i) && Cell(t) && Owns(figures[..], currentPlayer, i) && -1 <= s.enPassant < 8
      requires Outcome(ret, CanReach(Pos(), i, t),
                       MovedGrid(Pos(), File(i), Rank(i), File(t), Rank(t), s),
                       MovedMarks(Pos(), File(i), Rank(i), File(t), Rank(t), s), fuel)
      ensures ret == null ==> MoveResult(Pos(), 64 * i + t, s) == None
      ensures ret != null ==> Scored(ret) && MoveResult(Pos(), 64 * i + t, s) == Some(ret.Pos())
    {
      CodeParts(i, t);
    }

    /**
     * The move from cell i to cell t that opens an attempt of isInCheckmate or
     * getMax: its board is MoveResult of the attempt for the scratch fields `s`
     * the piece had.
     */
    method FirstMove(i: int, t: int, fuel: nat) returns (temp: Board?, ghost s: Pawns.Scratch)
      requires Valid() && Cell(i) && Cell(t) && Owns(figures[..], currentPlayer, i)
      modifies scratch
      decreases fuel, 9
      ensures Valid() && -1 <= s.enPassant < 8
      ensures temp == null ==> MoveResult(Pos(), 64 * i + t, s) == None
      ensures temp != null ==> fresh(temp) && fresh(temp.scratch) && temp.Valid() && temp.previous == this
      ensures temp != null ==> Scored(temp) && MoveResult(Pos(), 64 * i + t, s) == Some(temp.Pos())
    {
      CellOnBoard(i);
      CellOnBoard(t);
      s := scratch[i];
      temp := PieceMove(File(i), Rank(i), File(t), Rank(t), fuel);
      MoveFits(i, t, s, temp, fuel);
    }

    /**
     * Above one ply, the other side's getMax on this new board, ply - 1 moves
     * ahead: the first best of candidates that fit this board's attempts.
     */
    method Reply(ply: int, fuel: nat) returns (deeper: Board?)
      requires Valid() && ply > 1
      modifies scratch
      decreases ply, 0
      ensures deeper != null ==> fresh(deeper) && Scored(deeper)
      ensures deeper != null ==> deeper.Back(Depth(ply) - 1) == this && deeper.Back(Depth(ply)) == previous
      ensures deeper == null ==> Dead(Pos(), Depth(ply) - 1)
      ensures Doomed(Pos(), Depth(ply) - 1) ==> deeper == null
      ensures exists cs: seq<Board?>, b: int :: AllFit(Pos(), Attempts(figures[..], currentPlayer, 4096), cs, ply - 1) &&
                                                Peak(cs, deeper, b, currentPlayer)
    {
      ghost var cands, best;
      deeper, cands, best := GetMax(ply - 1, fuel);
      if deeper != null {
        BackStep(deeper, Depth(ply) - 1);
      }
      assert AllFit(Pos(), Attempts(figures[..], currentPlayer, 4096), cands, ply - 1) && Peak(cands, deeper, best, currentPlayer);
    }

    /**
     * One attempt of getMax: the move from cell i to cell t, followed above one
     * ply by the other side's getMax on the board it gives.
     */
    method Candidate(i: int, t: int, ply: int, fuel: nat) returns (temp: Board?)
      requires Valid() && Cell(i) && Cell(t) && Owns(figures[..], currentPlayer, i)
      modifies scratch
      decreases ply, 1
      ensures Valid()
      ensures temp != null ==> fresh(temp) && temp.Back(Depth(ply)) == this && allocated(temp.Back(Depth(ply) - 1))
      ensures Fits(Pos(), 64 * i + t, temp, ply)
    {
      ghost var s;
      temp, s := FirstMove(i, t, fuel);
      ghost var pos := Pos();
      if temp != null && ply > 1 {
        ghost var first := temp;
        var deeper := temp.Reply(ply, fuel);
        DeepFitsAt(pos, i, t, s, first, deeper, ply);
        temp := deeper;
      } else {
        FirstFits(pos, i, t, s, temp, ply);
      }
    }

    /**
     * getMax(ply): the best board for the side to move, `ply` moves ahead.  Each
     * attempt, in scan order, is the piece's move followed (above one ply) by
     * the other side's getMax; the first candidate of greatest value for the
     * side to move is kept, and the answer is null exactly when every candidate is.
     */
    method GetMax(ply: int, fuel: nat) returns (max: Board?, ghost cands: seq<Board?>, ghost best: int)
      requires Valid()
      modifies scratch
      decreases ply, 4
      ensures Valid()
      ensures AllFit(Pos(), Attempts(figures[..], currentPlayer, 4096), cands, ply)
      ensures forall k :: 0 <= k < |cands| && cands[k] != null ==> fresh(cands[k]) && cands[k].Back(Depth(ply)) == this
      ensures max != null ==> Scored(max)
      ensures max == null <==> forall k :: 0 <= k < |cands| ==> cands[k] == null
      ensures max == null ==> Dead(Pos(), Depth(ply))
      ensures Doomed(Pos(), Depth(ply)) ==> max == null
      ensures max != null ==> 0 <= best < |cands| && max == cands[best]
      ensures max != null ==> forall k :: 0 <= k < |cands| && cands[k] != null ==>
                cands[k].GetValue(currentPlayer) <= max.GetValue(currentPlayer)
      ensures max != null ==> forall k :: 0 <= k < best && cands[k] != null ==>
                cands[k].GetValue(currentPlayer) < max.GetValue(currentPlayer)
    {
      max, cands, best := null, [], 0;
      ghost var g, pos := figures[..], Pos();
      var from := 0;
      while from < 64
        invariant 0 <= from <= 64 && Valid() && figures[..] == g && Pos() == pos
        invariant AllFit(pos, AttemptsBefore(g, currentPlayer, from), cands, ply)
        invariant forall k :: 0 <= k < |cands| && cands[k] != null ==> fresh(cands[k])
        invariant forall k :: 0 <= k < |cands| && cands[k] != null ==> cands[k].Back(Depth(ply)) == this
        invariant forall k :: 0 <= k < |cands| && cands[k] != null ==> allocated(cands[k].Back(Depth(ply) - 1))
        invariant Peak(cands, max, best, currentPlayer)
      {
        if figures[from].Some? && figures[from].value.owner == currentPlayer {
          assert Owns(g, currentPlayer, from);
          max, cands, best := MaxFrom(from, ply, fuel, max, cands, best);
        } else {
          AttemptsSkip(g, currentPlayer, from, 64);
          assert AttemptsBefore(g, currentPlayer, from + 1) == AttemptsBefore(g, currentPlayer, from);
        }
        from := from + 1;
      }
      if max != null {
        assert Fits(pos, AttemptsBefore(g, currentPlayer, from)[best], cands[best], ply);
      } else {
        NullsDead(pos, cands, ply);
      }
      if Doomed(pos, Depth(ply)) {
        DoomedNulls(pos, cands, ply);
      }
    }

    /** getMax's inner loops for the piece on cell `from`: its 64 candidates, in order, extend `cands`. */
    method MaxFrom(from: int, ply: int, fuel: nat, max0: Board?, ghost cands0: seq<Board?>, ghost best0: int)
      returns (max: Board?, ghost cands: seq<Board?>, ghost best: int)
      requires Valid() && Cell(from) && Owns(figures[..], currentPlayer, from)
      requires AllFit(Pos(), AttemptsBefore(figures[..], currentPlayer, from), cands0, ply)
      requires forall k :: 0 <= k < |cands0| && cands0[k] != null ==> cands0[k].Back(Depth(ply)) == this
      requires forall k :: 0 <= k < |cands0| && cands0[k] != null ==> allocated(cands0[k].Back(Depth(ply) - 1))
      requires Peak(cands0, max0, best0, currentPlayer)
      modifies scratch
      decreases ply, 3
      ensures Valid()
      ensures AllFit(Pos(), AttemptsBefore(figures[..], currentPlayer, from + 1), cands, ply)
      ensures |cands0| <= |cands| && forall k :: 0 <= k < |cands0| ==> cands[k] == cands0[k]
      ensures forall k :: |cands0| <= k < |cands| && cands[k] != null ==> fresh(cands[k])
      ensures forall k :: 0 <= k < |cands| && cands[k] != null ==> cands[k].Back(Depth(ply)) == this
      ensures forall k :: 0 <= k < |cands| && cands[k] != null ==> allocated(cands[k].Back(Depth(ply) - 1))
      ensures Peak(cands, max, best, currentPlayer)
    {
      max, cands, best := max0, cands0, best0;
      ghost var made: set<Board> := {};
      var to := 0;
      while to < 64
        invariant 0 <= to <= 64 && Valid()
        invariant AllFit(Pos(), AttemptsAt(figures[..], currentPlayer, from, to), cands, ply)
        invariant |cands0| <= |cands| && forall k :: 0 <= k < |cands0| ==> cands[k] == cands0[k]
        invariant fresh(made) && forall k :: |cands0| <= k < |cands| && cands[k] != null ==> cands[k] in made
        invariant forall k :: 0 <= k < |cands| && cands[k] != null ==> cands[k].Back(Depth(ply)) == this
        invariant forall k :: 0 <= k < |cands| && cands[k] != null ==> allocated(cands[k].Back(Depth(ply) - 1))
        invariant Peak(cands, max, best, currentPlayer)
      {
        ghost var prev := cands;
        max, cands, best := MaxStep(from, to, ply, fuel, max, cands, best);
        if cands[|prev|] != null {
          made := made + {cands[|prev|]};
        }
        forall k | |cands0| <= k < |cands| && cands[k] != null
          ensures cands[k] in made
        {
          if k < |prev| {
            assert cands[k] == prev[k];
          }
        }
        to := to + 1;
      }
    }

    /** One turn of getMax's innermost loop: the candidate from cell `from` to cell `to` is appended and compared. */
    method MaxStep(from: int, to: int, ply: int, fuel: nat, max0: Board?, ghost cands0: seq<Board?>, ghost best0: int)
      returns (max: Board?, ghost cands: seq<Board?>, ghost best: int)
      requires Valid() && Cell(from) && Cell(to) && Owns(figures[..], currentPlayer, from)
      requires AllFit(Pos(), AttemptsAt(figures[..], currentPlayer, from, to), cands0, ply)
      requires Peak(cands0, max0, best0, currentPlayer)
      requires forall k :: 0 <= k < |cands0| && cands0[k] != null ==> cands0[k].Back(Depth(ply)) == this
      requires forall k :: 0 <= k < |cands0| && cands0[k] != null ==> allocated(cands0[k].Back(Depth(ply) - 1))
      modifies scratch
      decreases ply, 2
      ensures Valid()
      ensures AllFit(Pos(), AttemptsAt(figures[..], currentPlayer, from, to + 1), cands, ply)
      ensures |cands| == |cands0| + 1 && forall k :: 0 <= k < |cands0| ==> cands[k] == cands0[k]
      ensures cands == cands0 + [cands[|cands0|]]
      ensures cands[|cands0|] != null ==> fresh(cands[|cands0|]) && cands[|cands0|].Back(Depth(ply)) == this
      ensures cands[|cands0|] != null ==> allocated(cands[|cands0|].Back(Depth(ply) - 1))
      ensures forall k :: 0 <= k < |cands| && cands[k] != null ==>
                cands[k].Back(Depth(ply)) == this && allocated(cands[k].Back(Depth(ply) - 1))
      ensures Peak(cands, max, best, currentPlayer)
    {
      var temp := Candidate(from, to, ply, fuel);
      assert Peak(cands0, max0, best0, currentPlayer);
      assert AllFit(Pos(), AttemptsAt(figures[..], currentPlayer, from, to), cands0, ply);
      AllFitNext(Pos(), from, to, cands0, temp, ply);
      PeakStep(cands0, max0, best0, currentPlayer, temp);
      max, cands, best := max0, cands0 + [temp], best0;
      if max == null || (temp != null && temp.GetValue(currentPlayer) > max.GetValue(currentPlayer)) {
        max, best := temp, |cands| - 1;
      }
      forall k | 0 <= k < |cands| && cands[k] != null
        ensures cands[k].Back(Depth(ply)) == this && allocated(cands[k].Back(Depth(ply) - 1))
      {
        if k < |cands0| {
          assert cands[k] == cands0[k];
        } else {
          assert cands[k] == temp;
        }
      }
    }

    /**
     * getMin(ply): the same scan, keeping the first candidate whose own side to
     * move scores least.
     */
    method GetMin(ply: int, fuel: nat) returns (min: Board?, ghost cands: seq<Board?>, ghost best: int)
      requires Valid()
      modifies scratch
      ensures Valid()
      ensures AllFit(Pos(), Attempts(figures[..], currentPlayer, 4096), cands, ply)
      ensures forall k :: 0 <= k < |cands| && cands[k] != null ==> fresh(cands[k]) && cands[k].Back(Depth(ply)) == this
      ensures min != null ==> Scored(min)
      ensures min == null <==> forall k :: 0 <= k < |cands| ==> cands[k] == null
      ensures min == null ==> Dead(Pos(), Depth(ply))
      ensures Doomed(Pos(), Depth(ply)) ==> min == null
      ensures min != null ==> 0 <= best < |cands| && min == cands[best]
      ensures min != null ==> forall k :: 0 <= k < |cands| && cands[k] != null ==>
                cands[k].GetCurrentValue() >= min.GetCurrentValue()
      ensures min != null ==> forall k :: 0 <= k < best && cands[k] != null ==>
                cands[k].GetCurrentValue() > min.GetCurrentValue()
    {
      min, cands, best := null, [], 0;
      ghost var g, pos := figures[..], Pos();
      var from := 0;
      while from < 64
        invariant 0 <= from <= 64 && Valid() && figures[..] == g && Pos() == pos
        invariant AllFit(pos, AttemptsBefore(g, currentPlayer, from), cands, ply)
        invariant forall k :: 0 <= k < |cands| && cands[k] != null ==> fresh(cands[k])
        invariant forall k :: 0 <= k < |cands| && cands[k] != null ==> cands[k].Back(Depth(ply)) == this
        invariant forall k :: 0 <= k < |cands| && cands[k] != null ==> allocated(cands[k].Back(Depth(ply) - 1))
        invariant Trough(cands, min, best)
      {
        if figures[from].Some? && figures[from].value.owner == currentPlayer {
          assert Owns(g, currentPlayer, from);
          min, cands, best := MinFrom(from, ply, fuel, min, cands, best);
        } else {
          AttemptsSkip(g, currentPlayer, from, 64);
          assert AttemptsBefore(g, currentPlayer, from + 1) == AttemptsBefore(g, currentPlayer, from);
        }
        from := from + 1;
      }
      if min != null {
        assert Fits(pos, AttemptsBefore(g, currentPlayer, from)[best], cands[best], ply);
      } else {
        NullsDead(pos, cands, ply);
      }
      if Doomed(pos, Depth(ply)) {
        DoomedNulls(pos, cands, ply);
      }
    }

    /** getMin's inner loops for the piece on cell `from`. */
    method MinFrom(from: int, ply: int, fuel: nat, min0: Board?, ghost cands0: seq<Board?>, ghost best0: int)
      returns (min: Board?, ghost cands: seq<Board?>, ghost best: int)
      requires Valid() && Cell(from) && Owns(figures[..], currentPlayer, from)
      requires AllFit(Pos(), AttemptsBefore(figures[..], currentPlayer, from), cands0, ply)
      requires forall k :: 0 <= k < |cands0| && cands0[k] != null ==> cands0[k].Back(Depth(ply)) == this
      requires forall k :: 0 <= k < |cands0| && cands0[k] != null ==> allocated(cands0[k].Back(Depth(ply) - 1))
      requires Trough(cands0, min0, best0)
      modifies scratch
      ensures Valid()
      ensures AllFit(Pos(), AttemptsBefore(figures[..], currentPlayer, from + 1), cands, ply)
      ensures |cands0| <= |cands| && forall k :: 0 <= k < |cands0| ==> cands[k] == cands0[k]
      ensures forall k :: |cands0| <= k < |cands| && cands[k] != null ==> fresh(cands[k])
      ensures forall k :: 0 <= k < |cands| && cands[k] != null ==> cands[k].Back(Depth(ply)) == this
      ensures forall k :: 0 <= k < |cands| && cands[k] != null ==> allocated(cands[k].Back(Depth(ply) - 1))
      ensures Trough(cands, min, best)
    {
      min, cands, best := min0, cands0, best0;
      ghost var made: set<Board> := {};
      var to := 0;
      while to < 64
        invariant 0 <= to <= 64 && Valid()
        invariant AllFit(Pos(), AttemptsAt(figures[..], currentPlayer, from, to), cands, ply)
        invariant |cands0| <= |cands| && forall k :: 0 <= k < |cands0| ==> cands[k] == cands0[k]
        invariant fresh(made) && forall k :: |cands0| <= k < |cands| && cands[k] != null ==> cands[k] in made
        invariant forall k :: 0 <= k < |cands| && cands[k] != null ==> cands[k].Back(Depth(ply)) == this
        invariant forall k :: 0 <= k < |cands| && cands[k] != null ==> allocated(cands[k].Back(Depth(ply) - 1))
        invariant Trough(cands, min, best)
      {
        ghost var prev := cands;
        min, cands, best := MinStep(from, to, ply, fuel, min, cands, best);
        if cands[|prev|] != null {
          made := made + {cands[|prev|]};
        }
        forall k | |cands0| <= k < |cands| && cands[k] != null
          ensures cands[k] in made
        {
          if k < |prev| {
            assert cands[k] == prev[k];
          }
        }
        to := to + 1;
      }
    }

    /** One turn of getMin's innermost loop. */
    method MinStep(from: int, to: int, ply: int, fuel: nat, min0: Board?, ghost cands0: seq<Board?>, ghost best0: int)
      returns (min: Board?, ghost cands: seq<Board?>, ghost best: int)
      requires Valid() && Cell(from) && Cell(to) && Owns(figures[..], currentPlayer, from)
      requires AllFit(Pos(), AttemptsAt(figures[..], currentPlayer, from, to), cands0, ply)
      requires Trough(cands0, min0, best0)
      requires forall k :: 0 <= k < |cands0| && cands0[k] != null ==> cands0[k].Back(Depth(ply)) == this
      requires forall k :: 0 <= k < |cands0| && cands0[k] != null ==> allocated(cands0[k].Back(Depth(ply) - 1))
      modifies scratch
      ensures Valid()
      ensures AllFit(Pos(), AttemptsAt(figures[..], currentPlayer, from, to + 1), cands, ply)
      ensures |cands| == |cands0| + 1 && forall k :: 0 <= k < |cands0| ==> cands[k] == cands0[k]
      ensures cands == cands0 + [cands[|cands0|]]
      ensures cands[|cands0|] != null ==> fresh(cands[|cands0|]) && cands[|cands0|].Back(Depth(ply)) == this
      ensures cands[|cands0|] != null ==> allocated(cands[|cands0|].Back(Depth(ply) - 1))
      ensures forall k :: 0 <= k < |cands| && cands[k] != null ==>
                cands[k].Back(Depth(ply)) == this && allocated(cands[k].Back(Depth(ply) - 1))
      ensures Trough(cands, min, best)
    {
      var temp := Candidate(from, to, ply, fuel);
      assert Trough(cands0, min0, best0);
      assert AllFit(Pos(), AttemptsAt(figures[..], currentPlayer, from, to), cands0, ply);
      AllFitNext(Pos(), from, to, cands0, temp, ply);
      TroughStep(cands0, min0, best0, temp);
      min, cands, best := min0, cands0 + [temp], best0;
      if min == null || (temp != null && temp.GetCurrentValue() < min.GetCurrentValue()) {
        min, best := temp, |cands| - 1;
      }
      forall k | 0 <= k < |cands| && cands[k] != null
        ensures cands[k].Back(Depth(ply)) == this && allocated(cands[k].Back(Depth(ply) - 1))
      {
        if k < |cands0| {
          assert cands[k] == cands0[k];
        } else {
          assert cands[k] == temp;
        }
      }
    }

    /** getKing(p): the same scan for p's king. */
    method GetKing(p: Player) returns (r: Option<int>)
      requires figures.Length == 64
      ensures r.Some? ==> 0 <= r.value < 64 && figures[r.value] == Some(Piece(King, p))
      ensures r.None? ==> forall i :: 0 <= i < 64 ==> figures[i] != Some(Piece(King, p))
      ensures r == FirstOf(figures[..], King, p)
    {
      r := GetFigureOf(King, p);
    }
  }
}
