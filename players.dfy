/** The three-valued stone colour of the board game (player.go). Go declares `type Player byte`,
    so every byte value is a Player; only 0, 1 and 2 are named. */
module Players {

  newtype Player = x: int | 0 <= x < 256

  const None: Player := 0
  const Black: Player := 1
  const White: Player := 2

  /** The two colours that move. */
  predicate IsColour(p: Player) { p == Black || p == White }

  /** The player to move after p: White after Black, Black after anything else (an empty
      player is taken to mean the game is starting, and Black opens). */
  function Other(p: Player): (r: Player)
    ensures IsColour(r)
    ensures r == White <==> p == Black
  {
    if p == Black then White else Black
  }

  /** The name of a player; every value other than Black and None is named "White". */
  function String(p: Player): (s: string)
    ensures s == "Black" <==> p == Black
    ensures s == "None" <==> p == None
    ensures s == "White" <==> p != Black && p != None
  {
    if p == Black then "Black" else if p == None then "None" else "White"
  }

  function GetNone(p: Player): (r: Player) ensures r as int == 0 { None }
  function GetBlack(p: Player): (r: Player) ensures r as int == 1 { Black }
  function GetWhite(p: Player): (r: Player) ensures r as int == 2 { White }

  lemma OtherSwapsColours()
    ensures Other(Black) == White && Other(White) == Black
  {
  }

  /** Other is an involution on the two colours, and only there: the empty player maps to Black,
      which maps to White. */
  lemma OtherInvolution(p: Player)
    ensures Other(Other(p)) == p <==> IsColour(p)
  {
  }
}
