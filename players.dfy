/** The two sides of a game (Player.java). */
module Players {

  /** The enum's two constants; no other value exists. */
  datatype Player = White | Black

  /** The side that moves after `p` (the conditional in Board.nextPlayer). */
  function Opponent(p: Player): (q: Player)
    ensures q != p
  {
    if p == White then Black else White
  }

  /** Player.toString: a one-letter tag; the default branch of the switch cannot be reached. */
  function ToString(p: Player): (s: string)
    ensures |s| == 1
    ensures s == "W" <==> p == White
    ensures s == "B" <==> p == Black
  {
    match p
    case White => "W"
    case Black => "B"
  }

  /** Distinct players print differently. */
  lemma ToStringInjective(p: Player, q: Player)
    requires ToString(p) == ToString(q)
    ensures p == q
  {
  }
}
