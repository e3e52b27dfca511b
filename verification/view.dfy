/** The two coordinate conversions of the presentation layer, and the sprite
    lookup that turns a letter into one of the 26 letter sprites. */
module View {
  import opened Wrappers
  import opened Board
  import opened Model

  /** Side of one tile in screen pixels. */
  const GridSize: int := 50

  /** Initial window size in pixels. */
  const WindowWidth: int := 800
  const WindowHeight: int := 600

  /** Number of letter sprites, one per letter 'A'..'Z'. */
  const Letters: int := 26

  /** C++ int division by the tile size, which truncates toward zero. */
  function Cell(a: int): (c: int)
    ensures a >= 0 ==> 0 <= c && c * GridSize <= a < c * GridSize + GridSize
    ensures a < 0 ==> c <= 0 && c * GridSize - GridSize < a <= c * GridSize
  {
    if a >= 0 then a / GridSize else -((-a) / GridSize)
  }

  /** board_to_screen: the top-left pixel of a tile. Every grid tile lies
      inside the window. */
  function BoardToScreen(p: Pos): (q: Pos)
    ensures OnGrid(p) ==>
              && 0 <= q.x && q.x + GridSize <= WindowWidth
              && 0 <= q.y && q.y + GridSize <= WindowHeight
  {
    Pos(p.x * GridSize, p.y * GridSize)
  }

  /** screen_to_board: the tile a pixel falls in. */
  function ScreenToBoard(q: Pos): (p: Pos)
    ensures q.x >= 0 && q.y >= 0 ==> p.x >= 0 && p.y >= 0
  {
    Pos(Cell(q.x), Cell(q.y))
  }

  /** Converting a board position to the screen and back gives it back. */
  lemma BoardScreenRoundTrip(p: Pos)
    ensures ScreenToBoard(BoardToScreen(p)) == p
  {
  }

  /** A pixel with non-negative coordinates lies inside the tile of the board
      position it converts to. */
  lemma ScreenInsideTile(q: Pos)
    requires q.x >= 0 && q.y >= 0
    ensures var corner := BoardToScreen(ScreenToBoard(q));
            && corner.x <= q.x < corner.x + GridSize
            && corner.y <= q.y < corner.y + GridSize
  {
  }

  /** `letter_sprites_.at(c - 'a')`: the sprite index of a letter, or None
      where `at` throws because the index is outside the 26 sprites. */
  function LetterSprite(c: char): (r: Option<nat>)
    ensures r.Some? <==> 'a' <= c <= 'z'
    ensures r.Some? ==> r.value < Letters && r.value == c as int - 'a' as int
  {
    var k := c as int - 'a' as int;
    if 0 <= k < Letters then Some(k) else None
  }

  /** Every word of the dictionary is spelled in lower-case letters. */
  predicate LowerCase(bank: seq<string>) {
    forall j, k :: 0 <= j < |bank| && 0 <= k < |bank[j]| ==> 'a' <= bank[j][k] <= 'z'
  }

  /** draw_one_letter_(i) runs for every tile index i and reads letter i of
      the word: in a reachable state that letter exists and, for a lower-case
      dictionary, has a sprite, so the lookup never throws. */
  lemma DrawnLettersHaveSprites(g: Game, i: nat)
    requires WellFormed(g) && FromBank(g) && LowerCase(g.bank) && i < |g.posns|
    ensures i < |g.word|
    ensures LetterSprite(g.word[i]).Some?
  {
  }
}
