/** The score of a finished board game (gameResult.go). Komi is a float in Go; every komi the
    program uses is a whole number of half points, so the model keeps it doubled, as an
    integer, and compares doubled scores. */
module GameResults {
  import Players
  import Strconv

  /** B and W are the two sides' counts; Komi2 is twice the komi. */
  datatype GameResult = GameResult(B: int, W: int, Komi2: int)

  /** The komi of the Chinese rules the program applies, 7.5, doubled. */
  const KOMI2: int := 15

  /** White's score with komi, doubled. */
  function WhiteScore2(gr: GameResult): int { 2 * gr.W + gr.Komi2 }

  /** Black wins when its count is strictly greater than White's count plus komi. */
  function Winner(gr: GameResult): (p: Players.Player)
    ensures p == Players.Black <==> 2 * gr.B > WhiteScore2(gr)
    ensures p == Players.White <==> 2 * gr.B <= WhiteScore2(gr)
  {
    if 2 * gr.B > WhiteScore2(gr) then Players.Black else Players.White
  }

  /** |B - (W + komi)|, doubled. */
  function WinningMargin2(gr: GameResult): (m: nat)
    ensures m == 2 * gr.B - WhiteScore2(gr) || m == WhiteScore2(gr) - 2 * gr.B
  {
    if 2 * gr.B >= WhiteScore2(gr) then 2 * gr.B - WhiteScore2(gr) else WhiteScore2(gr) - 2 * gr.B
  }

  /** %.1f of a non-negative number of half points: whole part, a point, then 5 or 0. */
  function HalfPoints(m: nat): string
  {
    Strconv.Itoa(m / 2) + "." + (if m % 2 == 1 then "5" else "0")
  }

  /** "黑胜…子" when Black wins and "白胜…子" otherwise, with the margin to one decimal. */
  function String(gr: GameResult): string
  {
    if 2 * gr.B > WhiteScore2(gr) then "黑胜" + HalfPoints(WinningMargin2(gr)) + "子"
    else "白胜" + HalfPoints(WinningMargin2(gr)) + "子"
  }

  /** The text of HalfPoints(m) is a numeral, a point and one decimal digit, 5 or 0, and reads as
      exactly m halves. */
  lemma HalfPointsDenotes(m: nat)
    ensures var s := HalfPoints(m);
      && |s| >= 3 && s[|s| - 2] == '.' && Strconv.AllDigits(s[..|s| - 2])
      && (s[|s| - 1] == '5' || s[|s| - 1] == '0')
      && 2 * Strconv.DigitsValue(s[..|s| - 2]) + (if s[|s| - 1] == '5' then 1 else 0) == m
  {
    var s := HalfPoints(m);
    assert s[..|s| - 2] == Strconv.Itoa(m / 2);
    Strconv.DigitsValueOfItoa(m / 2);
  }

  /** The text names Black exactly when Winner is Black, and always gives the margin. */
  lemma StringAgreesWithWinner(gr: GameResult)
    ensures (String(gr)[..2] == "黑胜") <==> Winner(gr) == Players.Black
    ensures String(gr)[2..|String(gr)| - 1] == HalfPoints(WinningMargin2(gr))
  {
    var h := HalfPoints(WinningMargin2(gr));
    if Winner(gr) == Players.Black {
      assert String(gr) == "黑胜" + h + "子";
    } else {
      assert String(gr) == "白胜" + h + "子";
      assert String(gr)[..2] == "白胜";
      assert "白胜"[0] != "黑胜"[0];
    }
  }

  /** With komi 7.5 and whole counts there is no tie: White wins exactly when B <= W + 7, Black
      exactly when B >= W + 8, and the doubled margin is odd. */
  lemma NoTieWithKomi(b: int, w: int)
    ensures var gr := GameResult(b, w, KOMI2);
      && (Winner(gr) == Players.White <==> b <= w + 7)
      && (Winner(gr) == Players.Black <==> b >= w + 8)
      && WinningMargin2(gr) % 2 == 1
  {
  }
}
