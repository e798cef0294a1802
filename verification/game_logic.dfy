/** The board generator: cells are filled in row-major order, and each cell
    keeps drawing a symbol from the palette until the symbol completes
    neither a horizontal run with the two cells to its left nor a vertical
    run with the two cells above it. */
module GameLogic {
  import opened Config
  import opened Board

  // ---------------------------------------------------------------------
  // Row-major index arithmetic
  // ---------------------------------------------------------------------

  /** Cell (r, c) sits at index r * g + c, and that index maps back to (r, c). */
  lemma RowColOf(r: nat, c: nat, g: nat)
    requires c < g
    ensures (r * g + c) / g == r && (r * g + c) % g == c
  {
    var i := r * g + c;
    IndexSplit(i, g);
    var q := i / g;
    if q > r {
      MulMonotone(r + 1, q, g);
    } else if q < r {
      MulMonotone(q + 1, r, g);
    }
  }

  lemma MulMonotone(a: nat, b: nat, g: nat)
    requires a <= b
    ensures a * g <= b * g
  {
  }

  /** Every index splits into its row and its column. */
  lemma IndexSplit(i: nat, g: nat)
    requires g > 0
    ensures i == (i / g) * g + i % g
    ensures 0 <= i % g < g && 0 <= i / g
  {
  }

  /** An index in row two or below lies at least two whole rows in. */
  lemma RowAtLeastTwo(i: nat, g: nat)
    requires g > 0 && i / g >= 2
    ensures i >= 2 * g
  {
  }

  // ---------------------------------------------------------------------
  // The two rejection checks, applied to a candidate for cell |board|
  // ---------------------------------------------------------------------

  /** The candidate would complete a horizontal run with the two cells to its
      left; a column of at least 2 keeps both of them in the same row. */
  predicate CompletesRowRun(board: seq<Symbol>, g: nat, e: Symbol)
    requires g > 0
    ensures CompletesRowRun(board, g, e) <==>
      |board| % g >= 2 && RowRunAt(board + [e], g, |board| / g, |board| % g - 2)
  {
    var i := |board|;
    var col := i % g;
    col >= 2 && board[i - 1] == e && board[i - 2] == e
  }

  /** The candidate would complete a vertical run with the two cells above it. */
  predicate CompletesColumnRun(board: seq<Symbol>, g: nat, e: Symbol)
    requires g > 0
    ensures CompletesColumnRun(board, g, e) <==>
      |board| / g >= 2 && ColumnRunAt(board + [e], g, |board| / g - 2, |board| % g)
  {
    var i := |board|;
    var row := i / g;
    row >= 2 && (RowAtLeastTwo(i, g); AboveCells(i, g); board[i - g] == e && board[i - 2 * g] == e)
  }

  /** The two cells above index `i` sit one and two whole rows back. */
  lemma AboveCells(i: nat, g: nat)
    requires g > 0 && i / g >= 2
    ensures (i / g - 1) * g + i % g == i - g
    ensures (i / g - 2) * g + i % g == i - 2 * g
    ensures i / g * g + i % g == i
  {
  }

  /** The candidate survives both checks: `isValid` is still true after them. */
  predicate Accepted(board: seq<Symbol>, g: nat, e: Symbol)
    requires g > 0
    ensures Accepted(board, g, e) <==>
      !(|board| % g >= 2 && RowRunAt(board + [e], g, |board| / g, |board| % g - 2)) &&
      !(|board| / g >= 2 && ColumnRunAt(board + [e], g, |board| / g - 2, |board| % g))
  {
    !CompletesRowRun(board, g, e) && !CompletesColumnRun(board, g, e)
  }

  // ---------------------------------------------------------------------
  // The no-run property in index form, and its agreement with Board.NoRun
  // ---------------------------------------------------------------------

  /** Index `i`, in column 2 or beyond, ends a horizontal run of three. */
  predicate EndsRowRun(board: seq<Symbol>, g: nat, i: nat)
    requires g > 0 && i < |board|
  {
    i % g >= 2 && board[i] == board[i - 1] && board[i - 1] == board[i - 2]
  }

  /** Index `i`, in row 2 or below, ends a vertical run of three. */
  predicate EndsColumnRun(board: seq<Symbol>, g: nat, i: nat)
    requires g > 0 && i < |board|
  {
    i / g >= 2 && (RowAtLeastTwo(i, g); board[i] == board[i - g] && board[i - g] == board[i - 2 * g])
  }

  /** No index ends a horizontal or a vertical run of three. */
  ghost predicate NoRunByIndex(board: seq<Symbol>, g: nat)
    requires g > 0
  {
    forall i | 0 <= i < |board| :: !EndsRowRun(board, g, i) && !EndsColumnRun(board, g, i)
  }

  /** The index form and the (row, column) form of "no run" agree. */
  lemma NoRunIffByIndex(board: seq<Symbol>, g: nat)
    requires g > 0
    ensures NoRun(board, g) <==> NoRunByIndex(board, g)
  {
    if NoRun(board, g) {
      forall i | 0 <= i < |board|
        ensures !EndsRowRun(board, g, i) && !EndsColumnRun(board, g, i)
      {
        IndexSplit(i, g);
        var r, c := i / g, i % g;
        if EndsRowRun(board, g, i) {
          assert RowRunAt(board, g, r, c - 2);
        }
        if EndsColumnRun(board, g, i) {
          assert (r - 1) * g + c == i - g;
          assert (r - 2) * g + c == i - 2 * g;
          assert ColumnRunAt(board, g, r - 2, c);
        }
      }
    }
    if NoRunByIndex(board, g) {
      forall r: nat, c: nat | c + 2 < g && r * g + c + 2 < |board|
        ensures !RowRunAt(board, g, r, c)
      {
        RowColOf(r, c + 2, g);
        assert RowRunAt(board, g, r, c) ==> EndsRowRun(board, g, r * g + c + 2);
      }
      forall r: nat, c: nat | c < g && (r + 2) * g + c < |board|
        ensures !ColumnRunAt(board, g, r, c)
      {
        var i := (r + 2) * g + c;
        RowColOf(r + 2, c, g);
        assert i - g == (r + 1) * g + c;
        assert i - 2 * g == r * g + c;
        assert ColumnRunAt(board, g, r, c) ==> EndsColumnRun(board, g, i);
      }
    }
  }

  /** Local checks give the global property: on a board without runs, a
      candidate passes both checks exactly when appending it leaves the board
      without runs. */
  lemma AcceptedIffNoRunExtends(board: seq<Symbol>, g: nat, e: Symbol)
    requires g > 0 && NoRun(board, g)
    ensures Accepted(board, g, e) <==> NoRun(board + [e], g)
  {
    var extended := board + [e];
    var i := |board|;
    NoRunIffByIndex(board, g);
    NoRunIffByIndex(extended, g);
    forall k | 0 <= k < i
      ensures EndsRowRun(extended, g, k) == EndsRowRun(board, g, k)
      ensures EndsColumnRun(extended, g, k) == EndsColumnRun(board, g, k)
    {
    }
    assert EndsRowRun(extended, g, i) == CompletesRowRun(board, g, e);
    assert EndsColumnRun(extended, g, i) == CompletesColumnRun(board, g, e);
  }

  // ---------------------------------------------------------------------
  // The retry loop can always succeed
  // ---------------------------------------------------------------------

  /** The symbols the two checks reject for cell |board|: at most one from
      the row check and one from the column check. */
  function Forbidden(board: seq<Symbol>, g: nat): (f: set<Symbol>)
    requires g > 0
    ensures |f| <= 2
    ensures forall e :: e in f <==> !Accepted(board, g, e)
  {
    var i := |board|;
    var left := if i % g >= 2 && board[i - 1] == board[i - 2] then {board[i - 1]} else {};
    var above :=
      if i / g >= 2 && (RowAtLeastTwo(i, g); board[i - g] == board[i - 2 * g])
      then {board[i - g]} else {};
    left + above
  }

  /** With three distinct symbols in the palette, some palette symbol passes
      both checks, whatever the cells already placed. */
  lemma CandidateExists(board: seq<Symbol>, g: nat, palette: seq<Symbol>)
    requires g > 0 && GoodPalette(palette)
    ensures exists e :: e in palette && Accepted(board, g, e)
  {
    var f := Forbidden(board, g);
    var a, b, c := palette[0], palette[1], palette[2];
    if a in f && b in f && c in f {
      assert false;
    }
  }

  // ---------------------------------------------------------------------
  // Which draws the generator keeps
  // ---------------------------------------------------------------------

  /** The position of the first draw not yet consumed, after cells were
      taken from the draws at positions `picks`. */
  function NextDraw(picks: seq<nat>): nat
  {
    if |picks| == 0 then 0 else picks[|picks| - 1] + 1
  }

  /** Cell `k` of `board` came from draw `picks[k]`, the first draw after the
      previous cell's that passes both checks against the cells before it. */
  ghost predicate CellDrawn(board: seq<Symbol>, g: nat, palette: seq<Symbol>, draws: seq<nat>,
                            picks: seq<nat>, k: nat)
  {
    g > 0 && k < |board| && k < |picks| &&
    NextDraw(picks[..k]) <= picks[k] < |draws| &&
    draws[picks[k]] < |palette| && board[k] == palette[draws[picks[k]]] &&
    Accepted(board[..k], g, board[k]) &&
    forall j | NextDraw(picks[..k]) <= j < picks[k] ::
      draws[j] < |palette| && !Accepted(board[..k], g, palette[draws[j]])
  }

  /** Every cell of `board` came, in order, from the draw recorded in `picks`. */
  ghost predicate DrawnInOrder(board: seq<Symbol>, g: nat, palette: seq<Symbol>, draws: seq<nat>,
                               picks: seq<nat>)
  {
    |picks| == |board| &&
    forall k | 0 <= k < |board| :: CellDrawn(board, g, palette, draws, picks, k)
  }

  /** The board stopped at `partial`, short of g * g cells, because every
      draw left after its last cell was rejected for the next one. */
  ghost predicate RanOutAfter(partial: seq<Symbol>, g: nat, palette: seq<Symbol>, draws: seq<nat>,
                              picks: seq<nat>)
  {
    g > 0 && |partial| < g * g &&
    DrawnInOrder(partial, g, palette, draws, picks) &&
    NextDraw(picks) <= |draws| &&
    forall j | NextDraw(picks) <= j < |draws| ::
      draws[j] < |palette| && !Accepted(partial, g, palette[draws[j]])
  }

  /** Appending the first accepted draw keeps the record of draws complete;
      the cells already placed are not rewritten. */
  lemma DrawnInOrderExtend(board: seq<Symbol>, g: nat, palette: seq<Symbol>, draws: seq<nat>,
                           picks: seq<nat>, e: Symbol, p: nat)
    requires DrawnInOrder(board, g, palette, draws, picks)
    requires g > 0 && NextDraw(picks) <= p < |draws| && draws[p] < |palette|
    requires e == palette[draws[p]] && Accepted(board, g, e)
    requires forall j | NextDraw(picks) <= j < p :: draws[j] < |palette| && !Accepted(board, g, palette[draws[j]])
    ensures DrawnInOrder(board + [e], g, palette, draws, picks + [p])
  {
    var board', picks' := board + [e], picks + [p];
    forall k | 0 <= k < |board'|
      ensures CellDrawn(board', g, palette, draws, picks', k)
    {
      if k < |board| {
        assert board'[..k] == board[..k];
        assert picks'[..k] == picks[..k];
        assert CellDrawn(board, g, palette, draws, picks, k);
      } else {
        assert board'[..k] == board;
        assert picks'[..k] == picks;
      }
    }
  }

  /** A record of draws for a board is also one for each of its prefixes. */
  lemma DrawnInOrderPrefix(board: seq<Symbol>, g: nat, palette: seq<Symbol>, draws: seq<nat>,
                           picks: seq<nat>, n: nat)
    requires DrawnInOrder(board, g, palette, draws, picks) && n <= |board|
    ensures DrawnInOrder(board[..n], g, palette, draws, picks[..n])
  {
    forall k | 0 <= k < n
      ensures CellDrawn(board[..n], g, palette, draws, picks[..n], k)
    {
      assert board[..n][..k] == board[..k];
      assert picks[..n][..k] == picks[..k];
      assert CellDrawn(board, g, palette, draws, picks, k);
    }
  }

  /** The draws determine the board: of two boards filled from the same
      draws, the shorter is a prefix of the longer, consuming the same draws. */
  lemma {:induction false} DrawsDetermineBoard(g: nat, palette: seq<Symbol>, draws: seq<nat>,
                                               b1: seq<Symbol>, p1: seq<nat>, b2: seq<Symbol>, p2: seq<nat>)
    requires DrawnInOrder(b1, g, palette, draws, p1)
    requires DrawnInOrder(b2, g, palette, draws, p2)
    requires |b1| <= |b2|
    ensures b1 == b2[..|b1|] && p1 == p2[..|b1|]
  {
    if |b1| > 0 {
      var n := |b1| - 1;
      DrawnInOrderPrefix(b1, g, palette, draws, p1, n);
      DrawnInOrderPrefix(b2, g, palette, draws, p2, n);
      DrawsDetermineBoard(g, palette, draws, b1[..n], p1[..n], b2[..n], p2[..n]);
      assert b1[..n] == b2[..n] && p1[..n] == p2[..n];
      assert CellDrawn(b1, g, palette, draws, p1, n);
      assert CellDrawn(b2, g, palette, draws, p2, n);
      assert p1[n] == p2[n];
      assert b1 == b1[..n] + [b1[n]];
      assert b2[..|b1|] == b2[..n] + [b2[n]];
      assert p1 == p1[..n] + [p1[n]];
      assert p2[..|b1|] == p2[..n] + [p2[n]];
    }
  }

  /** No draw from position `from` onward is the palette index `k`. */
  ghost predicate NeverDrawn(draws: seq<nat>, from: nat, k: nat)
  {
    forall j | from <= j < |draws| :: draws[j] != k
  }

  /** With a good palette, running out of draws means the supply, from the
      first draw spent on the unfilled cell onward, never once drew some
      palette index: a source that eventually draws every index completes
      the board. */
  lemma RanOutOnlyIfIndexAvoided(partial: seq<Symbol>, g: nat, palette: seq<Symbol>, draws: seq<nat>,
                                 picks: seq<nat>)
    requires GoodPalette(palette) && RanOutAfter(partial, g, palette, draws, picks)
    ensures exists k ::
      0 <= k < |palette| && Accepted(partial, g, palette[k]) && NeverDrawn(draws, NextDraw(picks), k)
  {
    CandidateExists(partial, g, palette);
    var e :| e in palette && Accepted(partial, g, e);
    var k :| 0 <= k < |palette| && palette[k] == e;
    assert NeverDrawn(draws, NextDraw(picks), k);
  }

  // ---------------------------------------------------------------------
  // The generator
  // ---------------------------------------------------------------------

  /** The outcome of generation from a finite supply of random draws. */
  datatype Generation = Generated(board: seq<Symbol>) | OutOfDraws

  /** Fills a g-by-g board cell by cell in row-major order. `draws` stands for
      the successive values of the random source, each already scaled to a
      palette index; a cell keeps consuming draws until one passes both
      checks. When the supply ends first the model stops with OutOfDraws,
      where `generateBoard` would go on drawing. */
  method GenerateBoard(g: nat, palette: seq<Symbol>, draws: seq<nat>) returns (result: Generation)
    requires forall k | 0 <= k < |draws| :: draws[k] < |palette|
    ensures result.Generated? ==> |result.board| == g * g
    ensures result.Generated? ==> forall k | 0 <= k < |result.board| :: result.board[k] in palette
    ensures result.Generated? ==> NoRun(result.board, g)
    ensures result.Generated? ==> exists picks :: DrawnInOrder(result.board, g, palette, draws, picks)
    ensures result.OutOfDraws? ==> exists partial, picks :: RanOutAfter(partial, g, palette, draws, picks)
  {
    var board: seq<Symbol> := [];
    var pos := 0;
    ghost var picks: seq<nat> := [];
    for i := 0 to g * g
      invariant |board| == i == |picks|
      invariant forall k | 0 <= k < i :: board[k] in palette
      invariant NoRun(board, g)
      invariant DrawnInOrder(board, g, palette, draws, picks)
      invariant pos == NextDraw(picks) <= |draws|
    {
      var isValid := false;
      var emoji: Symbol := "";
      ghost var start := pos;
      while !isValid
        invariant start <= pos <= |draws|
        invariant forall j | start <= j < (if isValid then pos - 1 else pos) ::
          !Accepted(board, g, palette[draws[j]])
        invariant isValid ==> start < pos && emoji == palette[draws[pos - 1]] && Accepted(board, g, emoji)
        decreases |draws| - pos
      {
        if pos == |draws| {
          assert RanOutAfter(board, g, palette, draws, picks);
          return OutOfDraws;
        }
        emoji := palette[draws[pos]];
        pos := pos + 1;
        isValid := true;
        if CompletesRowRun(board, g, emoji) {
          isValid := false;
        }
        if CompletesColumnRun(board, g, emoji) {
          isValid := false;
        }
      }
      AcceptedIffNoRunExtends(board, g, emoji);
      DrawnInOrderExtend(board, g, palette, draws, picks, emoji, pos - 1);
      board := board + [emoji];
      picks := picks + [pos - 1];
    }
    assert DrawnInOrder(board, g, palette, draws, picks);
    result := Generated(board);
  }

  /** The generator with the random draw replaced by a choice among the
      symbols that pass both checks: with three distinct symbols such a
      choice always exists, so every cell is filled and generation ends. */
  method GenerateBoardByChoice(g: nat, palette: seq<Symbol>) returns (board: seq<Symbol>)
    requires GoodPalette(palette)
    ensures |board| == g * g
    ensures forall k | 0 <= k < |board| :: board[k] in palette
    ensures NoRun(board, g)
  {
    board := [];
    for i := 0 to g * g
      invariant |board| == i
      invariant forall k | 0 <= k < i :: board[k] in palette
      invariant NoRun(board, g)
    {
      CandidateExists(board, g, palette);
      var emoji :| emoji in palette && Accepted(board, g, emoji);
      AcceptedIffNoRunExtends(board, g, emoji);
      board := board + [emoji];
    }
  }

  /** The game's own generator: a 6-by-6 board over the six animal emojis.
      It gives up only when some animal was never drawn again after the
      cell it stalled on. */
  method GenerateAnimalBoard(draws: seq<nat>) returns (result: Generation)
    requires forall k | 0 <= k < |draws| :: draws[k] < |AnimalEmojis|
    ensures result.Generated? ==> |result.board| == 36
    ensures result.Generated? ==> forall k | 0 <= k < 36 :: result.board[k] in AnimalEmojis
    ensures result.Generated? ==> NoRun(result.board, GridSize)
    ensures result.Generated? ==>
      exists picks :: DrawnInOrder(result.board, GridSize, AnimalEmojis, draws, picks)
    ensures result.OutOfDraws? ==>
      exists partial, picks, k :: RanOutAfter(partial, GridSize, AnimalEmojis, draws, picks) &&
        0 <= k < |AnimalEmojis| && Accepted(partial, GridSize, AnimalEmojis[k]) &&
        NeverDrawn(draws, NextDraw(picks), k)
  {
    result := GenerateBoard(GridSize, AnimalEmojis, draws);
    if result.OutOfDraws? {
      ghost var partial, picks :| RanOutAfter(partial, GridSize, AnimalEmojis, draws, picks);
      ShippedConfigIsGood();
      RanOutOnlyIfIndexAvoided(partial, GridSize, AnimalEmojis, draws, picks);
      ghost var k :| 0 <= k < |AnimalEmojis| && Accepted(partial, GridSize, AnimalEmojis[k]) &&
        NeverDrawn(draws, NextDraw(picks), k);
      assert RanOutAfter(partial, GridSize, AnimalEmojis, draws, picks) &&
        0 <= k < |AnimalEmojis| && Accepted(partial, GridSize, AnimalEmojis[k]) &&
        NeverDrawn(draws, NextDraw(picks), k);
    }
  }
}
