# Chess rules engine: board, pawn, knight and players

This project models the core of a small Java chess engine. It covers:

- **The board** (`chess.Board`). It holds an 8×8 array of pieces, the side to move, a status tag, one en-passant marker per colour, a cached material value per colour and a link to the board it was derived from.
- **Moves.** A move never edits the board it starts from. It clones that board, edits the clone, rejects the clone if the mover's king is in check, and otherwise hands the turn over, recomputes the status (check, checkmate, stalemate) and re-evaluates the material.
- **Search.** `getMax` and `getMin` search this move tree to a given depth.
- **Two pieces in full.** The pawn's reachability test (advance, double advance, capture, en passant) writes two transient fields, `startMove` and `enPassant`, that its `move` reads afterwards. The knight has its L-shaped geometry and positional table.
- **The `Player` enumeration.**

## How the model is built

Modules, one file each:

- `Players`
- `Figures` (the shared vocabulary, plus the assumptions that stand in for code outside this model)
- `Knights`
- `Pawns`
- `Rules` (board-level rules as functions of a position)
- `Chess` (the `Board` class)

Pieces as values:

- A piece is a value `Piece(kind, owner)`.
- Its coordinates are the cell that holds it.
- The board's `figures` is an `array` of 64 optional pieces. Cell `8 * x + y` holds square (x, y), which is the order in which every nested loop of the source visits the squares.

Pawn scratch fields:

- Each pawn's `startMove` and `enPassant` live in the board's `scratch` array, at the pawn's cell.
- A cloned board starts with all of them at -1, as a freshly constructed pawn does.

How the methods are proved:

- The board's scans, moves and searches are proved against pure functions of the position: `Rules.Reachable`, `Rules.InCheck`, `Rules.NoMoves`, `Rules.Promoted`, `Rules.Material`, `Rules.Attempts`, `Rules.MoveResult`, `Rules.ProbeScan` and `Pawns.Query`.
- `Rules.MoveResult` is what one attempted move gives: None when it is refused, otherwise the position of the new board.
- `isInCheckmate` records each attempt as a ghost `tried` entry. Each entry is that move's MoveResult (`Chess.Tried`).
- Each candidate of `getMax` and `getMin` is tied to its attempt's MoveResult (`Chess.Fits`). A candidate's values are the material of its grid. Going back ply - 1 boards along `previous` reaches the board the first move made.
- A missing candidate is explained by the position: `Chess.Dead(pos, d)` says that every attempt is refused or, d > 1, is followed by a position where no line of d - 1 moves survives; `Chess.Doomed` says the same for every value of the moving pawn's scratch fields. The search answers null only on a Dead position and always on a Doomed one.
- The status a move settles on is carried to the board it hands back (`Chess.Board.Settled`): a checkmate tag rests on the records of every attempt being refuted (`Chess.Mated`), a plain check tag with fuel left on a first escaping attempt (`Chess.Escapable`).
- The properties the source promises are proved about those functions.

Behaviour of the source that the model keeps as written:

- The clone copies status, side to move and pieces, but not the markers or values; those stay 0.
- `promote` turns a pawn on rank 0 into a Black queen and one on rank 7 into a White queen, whatever the pawn's colour.
- The en-passant branch of the pawn's test looks only at the opponent's marker, the pawn's rank and the side to move. It ignores the destination rank and the distance to the marked file.
- `startMove` is reset only on the straight path from the start rank. A capture from the start rank therefore keeps a `startMove` written by an earlier test, and `move` copies it into the mover's marker.
- `enPassant` is written by every test that answers through the en-passant branch, including the tests made by `isInCheck` and `isInStalemate`. Only the end of `move` clears it, so a later `move` of that pawn removes the piece on the stale file.

The mutual recursion move → updateStatus → isInCheckmate → move has no bound in the source. The model gives it a `fuel` argument. See "Left out".

## Model

| member | source | states |
|---|---|---|
| Players.ToString | src/chess/Player.java:21-31 | the name is one character, "W" exactly for White and "B" exactly for Black |
| Players.ToStringInjective | src/chess/Player.java:9-31 | the two constants have different names |
| Players.Opponent | src/chess/Board.java:232-234 | the other colour is never the same colour |
| Figures.Markers.Set | src/chess/Board.java:389-400 | setting p's marker changes p's marker and leaves the other colour's alone |
| Knights.EvalBounds | src/chess/figures/Knight.java:17-28 | the table is 8×8 and every entry lies in -50..20 |
| Knights.EvalFileSymmetric | src/chess/figures/Knight.java:17-28 | the table reads the same from file x and from file 7-x |
| Knights.Value | src/chess/figures/Knight.java:57-70 | a knight is worth between 270 and 340 |
| Knights.ValueMirrored | src/chess/figures/Knight.java:57-70 | a White knight on (x, y) is worth what a Black knight on (x, 7-y) is worth |
| Knights.ValueFileMirrored | src/chess/figures/Knight.java:57-70 | a knight is worth the same on file x and on file 7-x |
| Knights.ReachableNeedsBase | src/chess/figures/Knight.java:40-44 | no square is reachable unless the base check passes |
| Knights.ReachableIff | src/chess/figures/Knight.java:40-49 | reachable exactly when the base check passes and the file and rank distances are (2, 1) or (1, 2) |
| Knights.GeometrySymmetric | src/chess/figures/Knight.java:46-48 | a knight step from a to b is also one from b to a, and never stays on its file or rank |
| Pawns.Query | src/chess/figures/Pawn.java:53-113 | a square is never reachable without the base check; enPassant is unchanged unless the answer is yes and it becomes the destination file |
| Pawns.ReachableIff | src/chess/figures/Pawn.java:53-113 | the answer does not depend on the scratch fields; reachable exactly when the base check passes and a single advance, a double advance, a capture or the en-passant branch applies |
| Pawns.DoubleAdvanceRecordsFile | src/chess/figures/Pawn.java:63-74 | a double advance starts on rank 1 (White) or 6 (Black), ends on rank 3 or 4, answers yes and records the file in startMove |
| Pawns.StartMoveWrites | src/chess/figures/Pawn.java:59-84 | startMove becomes the file for a double advance and -1 for any other test on the straight path from the start rank; every other test keeps it |
| Pawns.EnPassantWrites | src/chess/figures/Pawn.java:99-111 | enPassant becomes the destination file exactly when the en-passant branch answers, whatever the destination rank |
| Pawns.OccupiedTargetKeepsStartMove | src/chess/figures/Pawn.java:59-84 | a test aimed at an occupied square never writes startMove |
| Pawns.EvalBounds | src/chess/figures/Pawn.java:17-28 | the table is 8×8 and every entry lies in -20..50 |
| Pawns.Value | src/chess/figures/Pawn.java:147-160 | a pawn is worth between 80 and 150 |
| Pawns.ValueMirrored | src/chess/figures/Pawn.java:147-160 | a White pawn on (x, y) is worth what a Black pawn on (x, 7-y) is worth, and the other way round |
| Pawns.ValueFileMirrored | src/chess/figures/Pawn.java:17-28 | a pawn is worth the same on file x and on file 7-x |
| Rules.Probe | src/chess/figures/Pawn.java:99-111 | a test leaves a non-pawn's fields alone and writes a pawn's enPassant only with the destination file |
| Rules.ProbeAnswer | src/chess/figures/Pawn.java:53-113 | the pawn's own test answers as the dispatched reachability predicate does, whatever its scratch fields |
| Rules.ProbeTowardsOccupied | src/chess/Board.java:277-291 | a test aimed at the king's square keeps startMove; it changes enPassant only when it answers yes, and then to the king's file |
| Rules.CheckStep | src/chess/Board.java:277-291 | one test of the check scan answers whether that piece attacks the king, and writes at most enPassant |
| Rules.FirstFrom | src/chess/Board.java:325-335 | the first cell from `from` on that holds the piece asked for, or None when no later cell holds it |
| Rules.NoKingNoCheck | src/chess/Board.java:277-291 | without a king of that colour there is no check |
| Rules.MaterialOfNone | src/chess/Board.java:421-440 | a side without pieces has material 0 |
| Rules.MaterialIgnoresOpponent | src/chess/Board.java:421-440 | replacing an opponent's piece with another opponent's piece leaves a side's material unchanged |
| Rules.MaterialOfFile | src/chess/Board.java:421-440 | the evaluation adds the board file by file |
| Rules.InitialFileBalanced | src/chess/Board.java:60-103 | every file of the starting array is worth the same to both sides |
| Rules.InitialBalancedUpTo | src/chess/Board.java:60-103 | the starting array gives both sides equal material over its first files |
| Rules.InitialBalanced | src/chess/Board.java:60-103 | both sides start with equal material |
| Rules.InitialLayout | src/chess/Board.java:60-103 | White fills ranks 0-1, Black ranks 6-7, the middle is empty, and each side's first king is on file 4 |
| Rules.Promoted | src/chess/Board.java:350-361 | no pawn is left on rank 0 or 7; pawns there become Black queens on rank 0 and White queens on rank 7; every other cell is unchanged |
| Rules.PromotedIdempotent | src/chess/Board.java:350-361 | promoting twice is promoting once |
| Rules.PromoteColourFromRank | src/chess/Board.java:350-361 | a White pawn on rank 0 becomes a Black queen |
| Rules.Relocated | src/chess/figures/Pawn.java:129 | the destination takes the origin's piece, the origin is empty, and nothing else changes |
| Rules.MovedMarkers | src/chess/Board.java:405-416 | on a fresh clone after resetMarker, the mover's marker is -1 and the other's 0 |
| Rules.MoveResult | src/chess/figures/Pawn.java:121-144 | a move that is made gives a 64-cell position with the other side to move |
| Rules.MadeLeavesNoCheck | src/chess/figures/Pawn.java:134-140 | a move that is made was reachable and does not leave its mover in check |
| Rules.MoveResultFigure | src/chess/figures/Pawn.java:99-111 | only a pawn's move depends on its scratch fields |
| Rules.ProbeScanWrites | src/chess/Board.java:495-507 | isInStalemate's tests leave a non-pawn's fields alone and write a pawn's enPassant only with a file on the board |
| Rules.ProbeScanPrefix | src/chess/Board.java:498-504 | past targets the piece does not reach, the scan goes on from the fields their tests left |
| Rules.ScanStep | src/chess/Board.java:494-508 | scanning one more origin extends what the scan leaves |
| Rules.StuckStep | src/chess/Board.java:494-508 | an origin that reaches nothing extends the stuck prefix |
| Rules.StuckSplit | src/chess/Board.java:500-501 | the scan stops at the first origin that reaches a square: exactly the cells up to it are stuck before, and the side can move |
| Rules.StuckAll | src/chess/Board.java:508 | a scan through every origin means no piece moves |
| Rules.ScanEnds | src/chess/Board.java:493-509 | what the scan leaves, stated by which origins it reached |
| Rules.AttemptsSpec | src/chess/Board.java:466-483 | the scans try exactly the pairs whose origin holds a piece of the side to move, in ascending order |
| Rules.AttemptsSkip | src/chess/Board.java:466-483 | an origin without a piece of that side adds no attempts |
| Rules.AttemptsTake | src/chess/Board.java:466-483 | an origin with a piece of that side adds each destination in turn |
| Chess.Depth | src/chess/Board.java:532-554 | the search looks ply moves ahead, and at least one |
| Chess.BackStep | src/chess/Board.java:112-124 | one more step back along `previous` goes to the previous board of the board reached so far |
| Chess.Board.constructor | src/chess/Board.java:60-103 | the starting array, White to move, no status, both markers -1, both values Integer.MIN_VALUE, no previous board |
| Chess.Board.CloneOf | src/chess/Board.java:112-124 | same status, side to move and pieces; every pawn's fields are -1 (as Pawn.clone and Knight.clone build fresh pieces); markers and values 0; previous is the source |
| Chess.Board.SetFigure | src/chess/Board.java:162-164 | only that square changes |
| Chess.Board.RemoveFigure | src/chess/Board.java:180-184 | returns what stood on the square and empties it, nothing else changes |
| Chess.Board.NextPlayer | src/chess/Board.java:232-234 | the other colour is to move |
| Chess.Board.SetMarker | src/chess/Board.java:389-400 | reading back gives the new marker; the other colour's marker is unchanged |
| Chess.Board.ResetMarker | src/chess/Board.java:405-416 | the marker of the side to move becomes -1, the other is unchanged |
| Chess.Board.ScoredValue | src/chess/Board.java:524-530 | on an evaluated board, getValue(p) is p's material minus its opponent's, so the two colours' scores are opposite |
| Chess.Board.GetCurrentValue | src/chess/Board.java:516-522 | the score of the side to move, the negation of its opponent's |
| Chess.Board.Evaluate | src/chess/Board.java:421-440 | each colour's value is the material of its pieces on the board |
| Chess.Board.Promote | src/chess/Board.java:350-361 | the board becomes the promoted grid of the old one |
| Chess.Board.GetFigureOf | src/chess/Board.java:325-335 | the first cell in scan order holding that piece, or None |
| Chess.Board.GetKing | src/chess/Board.java:304-314 | the first king of that colour in scan order, or None when the colour has none |
| Chess.Board.IsSquareReachable | src/chess/figures/Pawn.java:53-113 | the answer of the piece's test; only that piece's scratch fields change |
| Chess.Board.IsInCheck | src/chess/Board.java:277-291 | true exactly when some piece of the other colour reaches the first king of that colour |
| Chess.Board.IsInStalemate | src/chess/Board.java:493-509 | true exactly when no piece of the side to move reaches any square; each piece of that side the scan reached has the scratch fields its tests leave up to the first square it reaches (Rules.ProbeScan), every other cell's are unchanged |
| Chess.Board.Immobile | src/chess/Board.java:497-505 | true exactly when the piece reaches no square; its scratch fields become those of the scan of its targets, nothing else changes |
| Chess.Board.Reaches | src/chess/Board.java:500 | one test answers reachability and writes the piece's fields as its test does |
| Chess.Board.Settle | src/chess/figures/Pawn.java:134-140 | the new board is refused exactly when the mover is in check on it; otherwise the other side is to move, the values are the material and the status is settled as updateStatus leaves it: it agrees with the scans, a checkmate tag rests on every attempt being refused (Mated) and a check tag, with fuel left, on an attempt that escapes (Escapable) |
| Chess.Board.UpdateStatus | src/chess/Board.java:445-456 | the status is check or checkmate exactly when in check, otherwise stalemate exactly when no piece can move, otherwise none; checkmate means every attempt, recorded as its MoveResult, was refused or left the side in check; a check with fuel left ends on a first escaping attempt |
| Chess.Board.CheckStatus | src/chess/Board.java:446-450 | check, upgraded to checkmate exactly as isInCheckmate answers, with the same records |
| Chess.Board.IsInCheckmate | src/chess/Board.java:466-483 | true only when the records are the MoveResults of all attempts in scan order and each was refused or leaves the mover in check; false with fuel left only when the records are the MoveResults of the first attempts, all refuted but the last, which escapes |
| Chess.Board.TryFrom | src/chess/Board.java:471-478 | the destinations of one origin in turn, each recorded as its MoveResult, stopping at the first escape |
| Chess.Board.TryStep | src/chess/Board.java:473-476 | one attempt appended as its MoveResult; escape exactly when that result escapes check |
| Chess.Board.Attempt | src/chess/Board.java:473-476 | the move's record is its MoveResult; it escapes exactly when a board was made and the mover is not in check on it |
| Chess.AllTriedNext | src/chess/Board.java:468-481 | the record of the next attempt in scan order extends the records so far |
| Chess.Board.ApplyPawn | src/chess/figures/Pawn.java:124-133 | the clone's grid is the pawn move applied (victim removed, piece relocated, promotion) and its markers are the mover's reset then the owner's set to startMove |
| Chess.Board.ApplyFigure | src/chess/figures/Pawn.java:124-133 | the same edits without the en-passant victim and the marker |
| Chess.Board.PawnMoveOn | src/chess/figures/Pawn.java:124-140 | the outcome of a reachable pawn move: null exactly when the mover is in check on the new grid, otherwise the settled clone |
| Chess.Board.PawnMove | src/chess/figures/Pawn.java:121-144 | null when unreachable or self-check, otherwise a board one move on with the applied grid, flipped side, markers, material and settled status (as Settle states it); the pawn's enPassant is -1 afterwards; the board itself is otherwise untouched |
| Chess.Board.FigureMove | src/chess/Board.java:203-209 | the assumed inherited move: null when unreachable or self-check, otherwise the clone with the relocated and promoted grid, its material and its settled status (checkmate only when every attempt is refused, check with fuel left only when one escapes) |
| Chess.Board.PieceMove | src/chess/Board.java:540 | the move the scans call: null when the square is unreachable or the mover would stand in check; otherwise a board one move on with the moved grid, flipped side, the mover's markers, material and settled status (checkmate only when every attempt is refused, check with fuel left only when one escapes); only the mover's fields change here |
| Chess.Board.Move | src/chess/Board.java:203-209 | null with nothing changed when the origin holds no piece of the side to move; otherwise the pawn's or the other piece's move, whose board carries a settled status (checkmate only when every attempt is refused, check with fuel left only when one escapes) |
| Chess.AllFitNext | src/chess/Board.java:535-552 | a candidate that fits the next attempt in scan order extends the candidates that fit all earlier attempts |
| Chess.Board.MoveFits | src/chess/figures/Pawn.java:121-144 | the move's outcome is its MoveResult: null exactly when that is None, otherwise a board scored by its material whose position is the result |
| Chess.FirstFits | src/chess/Board.java:540-543 | at one ply, or for a refused move, the move's outcome fits its attempt; a move that is made is not Blocked |
| Chess.DeepFits | src/chess/Board.java:541-543 | above one ply, the answer on the first move's board fits its attempt when it is scored and leads back to that board, is null only when no line survives there (Dead) and is null whenever none can (Doomed) |
| Chess.NullsDead | src/chess/Board.java:532-554 | when every candidate of a full scan is null, no line of the search's depth survives on the position (Dead) |
| Chess.DoomedNulls | src/chess/Board.java:532-554 | when no line of the search's depth can survive whatever the scratch fields (Doomed), every candidate is null |
| Chess.DoomedDead | src/chess/Board.java:532-554 | a position where no line survives whatever the scratch fields is one where none survives for some |
| Chess.Board.FirstMove | src/chess/Board.java:540 | the candidate's first move: null exactly when its MoveResult is None, otherwise a fresh board scored by its material, whose position is that result and whose previous board is this one |
| Chess.Board.Reply | src/chess/Board.java:541-543 | getMax(ply - 1) on the board it is called on: when not null, a fresh board scored by its material; following previous, ply - 1 steps back reach the board it was called on, and one more step reaches that board's previous; null only when no line of ply - 1 moves survives on that board (Dead), and null whenever none can (Doomed); and it is the first best answer for the side to move (Peak) among candidates that fit that board's attempts at ply - 1 |
| Chess.Board.Candidate | src/chess/Board.java:540-543 | one attempt of the search, ply moves ahead of this board along previous: a scored board whose ply - 1 predecessor is the board of the attempt's MoveResult, and never one for a Blocked attempt; null only when that result is None or, above one ply, no line of ply - 1 moves survives on its board |
| Chess.Board.GetMax | src/chess/Board.java:532-554 | one candidate per attempt, in scan order, each fitting its attempt (see Candidate): ply boards along previous, the first one being the attempt's MoveResult; the answer is scored by its material; null exactly when all candidates are null, so null only when no line of ply moves survives (Dead) and null whenever none can (Doomed); otherwise the first candidate with the greatest value for the side to move |
| Chess.Board.GetMin | src/chess/Board.java:556-577 | the same scan, each candidate fitting its attempt (ply boards along previous, the first one being the attempt's MoveResult) and the answer scored, null only when no line survives (Dead) and whenever none can (Doomed), keeping the first candidate with the least value for its own side to move |

## Left out

- src/gui/Gui.java, Board.toString, Figure.toString and the plain getters (getFigure, getMarker, getValue(Player) as a plain read, getBoard, getCurrentPlayer, getCurrentState, getPrevious, the public clone). The getters read the fields the model exposes. GetFigure and GetMarker have no rows of their own: SetFigure, RemoveFigure and SetMarker state what they read back. ScoredValue states what getValue means. The public clone is CloneOf. Text output and the user interface are not modelled.
- The base class Figure is not part of this model. Nor are Bishop, Rook, Queen, King, Game and State. They stand in as marked ASSUMPTIONs in figures.dfy and board.dfy:
  - Figure.isSquareReachable: another square, not holding a piece of the mover's colour.
  - Sliding and king geometry.
  - The base values 330, 500, 900 and 20000.
  - The inherited Figure.move: Pawn.move without the en-passant victim and without setting a marker.
  - The State constants: Ordinary stands for State.NONE; Check, Checkmate and Stalemate carry the colour.
- Chess.Board.UpdateStatus: the recursion through isInCheckmate and move is bounded by `fuel`. With no fuel left, isInCheckmate answers false, so a position the source would call checkmate can be reported as check. The source recurses without a bound.
- Chess.Board.PawnMove: when the en-passant file equals the pawn's own file, the source removes the pawn itself and then throws a NullPointerException on `ret.getFigure(toX, toY).setX`. The model carries on with an empty destination.
- Chess.Board.IsInCheck: which scratch fields the attacking pawns' tests write is not stated. The model only says that nothing but the scratch fields changes.
- Chess.Board.IsInCheckmate and Chess.Board.UpdateStatus record each attempt as its MoveResult position, not as the board object.
- Chess.Board.IsInCheckmate, Chess.Board.GetMax and Chess.Board.GetMin state each attempt's result as its MoveResult for some valid scratch fields of the moving piece. The model does not track which fields the earlier tests of the same scan left on the piece. Only a pawn's result depends on them (Rules.MoveResultFigure).
- Chess.Board.GetMax and Chess.Board.GetMin state that a null answer means a Dead position and that a Doomed position gives null. Dead lets the scratch fields be chosen per attempt, Doomed quantifies over all of them, so the two directions are stated with different predicates; they coincide when no pawn's move depends on its fields (Rules.MoveResultFigure).
- Chess.Board.Settle: Mated and Escapable, like Dead, let each record's scratch fields be some valid ones, for the reason given above.
- Chess.Board.Candidate, Chess.Board.GetMax and Chess.Board.GetMin above one ply state that each candidate is scored by its material and goes back ply - 1 steps along previous to the board whose position is the attempt's MoveResult. They do not state that the candidate is the other side's best reply on that board. Chess.Board.Reply states that one level down (Peak over the candidates that fit that board's attempts), and the recursive getMax call's own contract states it at every level.
- Chess.Board.Settle and Chess.Board.UpdateStatus do not state the scratch fields that the status scans (isInCheck, isInCheckmate, isInStalemate) leave on the new board's pawns. IsInStalemate states its own.
- Piece identity: a piece object, its `board` link and its coordinates are its cell on its board. setX/setY are part of the relocation.
- Nested loops over (x, y) are single loops over the 64 cells, in the same order. The four nested loops of getMax, getMin, isInCheckmate and isInStalemate are two loops: one over the 64 origins with the owner test, one over the 64 destinations. The ghost Rules.Attempts lists the same attempts as codes 64 * from + to.
- The unused `player` parameters of isInCheckmate and isInStalemate are dropped.
- The Integer.MIN_VALUE placeholders of the constructor are kept, but the model does not wrap 32-bit arithmetic: material sums stay far below 2^31.
- Exceptions for coordinates off the board are not modelled. Every operation requires squares on the board.
