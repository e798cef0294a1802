/** The board as a flat, row-major sequence of symbols, and what it means for
    it to hold no run of three. The definitions here speak in (row, column)
    coordinates, independently of the index arithmetic the generator uses. */
module Board {
  import opened Config

  /** The cell at row `r`, column `c` of a row-major board of side `g`. */
  function CellAt(board: seq<Symbol>, g: nat, r: nat, c: nat): Symbol
    requires c < g && r * g + c < |board|
  {
    board[r * g + c]
  }

  /** The three cells (r, c), (r, c+1), (r, c+2) hold the same symbol. */
  predicate RowRunAt(board: seq<Symbol>, g: nat, r: nat, c: nat)
    requires c + 2 < g && r * g + c + 2 < |board|
  {
    CellAt(board, g, r, c) == CellAt(board, g, r, c + 1) &&
    CellAt(board, g, r, c + 1) == CellAt(board, g, r, c + 2)
  }

  /** The three cells (r, c), (r+1, c), (r+2, c) hold the same symbol. */
  predicate ColumnRunAt(board: seq<Symbol>, g: nat, r: nat, c: nat)
    requires c < g && (r + 2) * g + c < |board|
  {
    assert r * g + c < (r + 1) * g + c < (r + 2) * g + c;
    CellAt(board, g, r, c) == CellAt(board, g, r + 1, c) &&
    CellAt(board, g, r + 1, c) == CellAt(board, g, r + 2, c)
  }

  /** No horizontal and no vertical window of three cells, lying wholly
      inside the (possibly partial) board, holds one symbol three times. */
  ghost predicate NoRun(board: seq<Symbol>, g: nat)
  {
    (forall r: nat, c: nat | c + 2 < g && r * g + c + 2 < |board| :: !RowRunAt(board, g, r, c)) &&
    (forall r: nat, c: nat | c < g && (r + 2) * g + c < |board| :: !ColumnRunAt(board, g, r, c))
  }
}
