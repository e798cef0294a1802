/** Game configuration: the side length of the square board and the symbol
    palette. The generator takes both as parameters; the constants below are
    the values the game ships with. */
module Config {

  /** A symbol on the board: one emoji, held as a string. */
  type Symbol = string

  /** Side length of the square board. */
  const GridSize: nat := 6

  /** The animal palette: dog, cat, mouse, rabbit, fox, bear. */
  const AnimalEmojis: seq<Symbol> :=
    ["\U{1F436}", "\U{1F431}", "\U{1F42D}", "\U{1F430}", "\U{1F98A}", "\U{1F43B}"]

  /** No symbol occurs twice in the palette. */
  predicate Distinct(palette: seq<Symbol>)
  {
    forall i, j | 0 <= i < j < |palette| :: palette[i] != palette[j]
  }

  /** A configuration under which generation can always make progress:
      at least three distinct symbols. */
  predicate GoodPalette(palette: seq<Symbol>)
  {
    |palette| >= 3 && Distinct(palette)
  }

  /** The shipped configuration has a side of at least 3 and a good palette. */
  lemma ShippedConfigIsGood()
    ensures GridSize >= 3 && GoodPalette(AnimalEmojis)
    ensures |AnimalEmojis| == 6
  {
  }
}
