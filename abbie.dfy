/** Abbie::EvaluateFEN up to the network call: the FEN string becomes the
    768-entry network input, through the placement cut and the split
    (FenSplit), the expansion into a 64-cell board (SquareExpansion) and the
    one-hot encoding (InputEncoding). */
module Abbie {
  import opened Dimensions
  import opened StdString
  import opened FenSplit
  import opened SquareExpansion
  import opened InputEncoding

  /** The cells the expansion loop writes for a FEN string, in order: each is
      EMPTY or a character of the placement field. */
  function BoardOf(fen: CppString): (cells: seq<char>)
    ensures forall i :: 0 <= i < |cells| ==> cells[i] == EMPTY || cells[i] in Placement(fen)
  {
    var placement := Placement(fen);
    SplitFromWithin(placement, SPLIT_COUNT);
    ConcatWithin(SplitRows(placement), placement);
    BoardCells(SplitRows(placement));
    Squares(SplitRows(placement))
  }

  /** The network input EvaluateFEN builds from a FEN string. The board array
      has 64 cells and nothing checks the counter against it, so the rows must
      expand to exactly 64 cells: more would write past the array, fewer would
      leave cells unwritten that the encoder then reads. */
  method ModelInput(fen: CppString) returns (input: array<int>)
    requires |BoardOf(fen)| == NUM_SQUARES
    ensures fresh(input) && input.Length == INPUT_SIZE
    ensures input[..] == Encode(BoardOf(fen))
  {
    var pieces := Placement(fen);
    var rows := SplitIntoRows(pieces);
    var squares := FillBoard(rows);
    input := EncodeBoard(squares);
  }

  /** The `squares` array of EvaluateFEN: a fresh 64-cell array filled by the
      expansion loop, every cell of it written. */
  method FillBoard(rows: seq<string>) returns (squares: array<char>)
    requires |Squares(rows)| == NUM_SQUARES
    ensures fresh(squares) && squares.Length == NUM_SQUARES
    ensures squares[..] == Squares(rows)
  {
    squares := new char[NUM_SQUARES];
    var square := ExpandSquares(rows, squares);
    assert squares[..] == squares[..square];
  }

  /** The cells written when the placement is split at every '/': each is
      EMPTY or a character of the placement field. */
  function CorrectedBoardOf(fen: CppString): (cells: seq<char>)
    ensures forall i :: 0 <= i < |cells| ==> cells[i] == EMPTY || cells[i] in Placement(fen)
  {
    var placement := Placement(fen);
    SplitAllWithin(placement);
    ConcatWithin(SplitAll(placement), placement);
    BoardCells(SplitAll(placement));
    Squares(SplitAll(placement))
  }

  /** Rows made of characters of `s`, put end to end, are too. */
  lemma {:induction false} ConcatWithin(rows: seq<string>, s: string)
    requires forall k :: 0 <= k < |rows| ==> Within(rows[k], s)
    ensures Within(Concat(rows), s)
  {
    if rows != [] {
      ConcatWithin(rows[..|rows| - 1], s);
    }
  }

  /** EvaluateFEN with the split loop running until no '/' is left. */
  method CorrectedModelInput(fen: CppString) returns (input: array<int>)
    requires |CorrectedBoardOf(fen)| == NUM_SQUARES
    ensures fresh(input) && input.Length == INPUT_SIZE
    ensures input[..] == Encode(CorrectedBoardOf(fen))
  {
    var pieces := Placement(fen);
    var rows := SplitRanks(pieces);
    var squares := FillBoard(rows);
    input := EncodeBoard(squares);
  }

  // ---------------------------------------------------------------------
  // Well-formed placements

  /** A character a rank may hold: a piece letter or an empty run '1'..'8'. */
  predicate IsRankChar(c: char)
  {
    c in PIECES || IsEmptyRun(c)
  }

  /** A well-formed rank: rank characters only, eight squares once expanded. */
  predicate IsRank(rank: string)
  {
    (forall k :: 0 <= k < |rank| ==> IsRankChar(rank[k])) && |RowSquares(rank)| == NUM_COLS
  }

  /** A well-formed placement field, as its eight ranks. */
  predicate IsRanks(ranks: seq<string>)
  {
    |ranks| == NUM_ROWS && forall k :: 0 <= k < |ranks| ==> IsRank(ranks[k])
  }

  lemma {:induction false} RanksSquares(ranks: seq<string>)
    requires forall k :: 0 <= k < |ranks| ==> IsRank(ranks[k])
    ensures |Squares(ranks)| == NUM_COLS * |ranks|
  {
    if ranks != [] {
      RanksSquares(ranks[..|ranks| - 1]);
    }
  }

  /** Joined ranks are short, and hold neither '/' inside a rank nor ' '. */
  lemma {:induction false} JoinRanks(ranks: seq<string>)
    requires |ranks| >= 1
    requires forall k :: 0 <= k < |ranks| ==> IsRank(ranks[k])
    ensures |Join(ranks)| < (NUM_COLS + 1) * |ranks|
    ensures ' ' !in Join(ranks)
    ensures forall k :: 0 <= k < |ranks| ==> '/' !in ranks[k]
  {
    RankChars(ranks[0]);
    if |ranks| > 1 {
      JoinRanks(ranks[1..]);
      assert forall k :: 1 <= k < |ranks| ==> ranks[k] == ranks[1..][k - 1];
    }
  }

  /** A rank is at most eight characters long and holds no '/' or ' '. */
  lemma RankChars(rank: string)
    requires IsRank(rank)
    ensures |rank| <= NUM_COLS && '/' !in rank && ' ' !in rank
  {
    RowSquareBounds(rank);
    assert forall k :: 0 <= k < |rank| ==> IsRankChar(rank[k]);
  }

  // ---------------------------------------------------------------------
  // The six-iteration split on a well-formed placement

  /** On every well-formed placement the split loop leaves "rank7/rank8" as
      its seventh row, so the board gets the 64 intended cells with a '/'
      inserted after the seventh rank: 65 cells, the last of them written past
      the end of the 64-cell array. */
  lemma EightRanksOverflow(ranks: seq<string>)
    requires IsRanks(ranks)
    ensures |Join(ranks)| < NPOS
    ensures |Squares(ranks)| == NUM_SQUARES
    ensures Squares(SplitRows(Join(ranks))) == Squares(ranks)[..56] + ['/'] + Squares(ranks)[56..]
    ensures |Squares(SplitRows(Join(ranks)))| == NUM_SQUARES + 1
  {
    JoinRanks(ranks);
    assert SlashFree(ranks);
    SplitRowsOfRanks(ranks);
    SquaresWithSlash(ranks[..6], ranks[6], ranks[7]);
    SnocSlice(ranks, 6);
    LastRank(ranks);
  }

  lemma SnocSlice<T>(xs: seq<T>, n: nat)
    requires n < |xs|
    ensures xs[..n + 1] == xs[..n] + [xs[n]]
  {
  }

  /** The first seven ranks fill cells 0..55, the eighth cells 56..63. */
  lemma LastRank(ranks: seq<string>)
    requires IsRanks(ranks)
    ensures |Squares(ranks)| == NUM_SQUARES
    ensures Squares(ranks)[..56] == Squares(ranks[..7])
    ensures Squares(ranks)[56..] == RowSquares(ranks[7])
  {
    RanksSquares(ranks);
    RanksSquares(ranks[..7]);
    assert ranks[..|ranks| - 1] == ranks[..7];
  }

  /** The rows the as-written split gives for eight '/'-free fields, as every
      well-formed placement has: the seventh row is "rank7/rank8". */
  lemma SplitRowsOfRanks(ranks: seq<string>)
    requires |ranks| == NUM_ROWS && SlashFree(ranks)
    requires |Join(ranks)| < NPOS
    ensures SplitRows(Join(ranks)) == ranks[..6] + [ranks[6] + ['/'] + ranks[7]]
  {
    SplitFromJoin(ranks, SPLIT_COUNT);
    JoinPair(ranks[6..]);
  }

  lemma JoinPair(rows: seq<string>)
    requires |rows| == 2
    ensures Join(rows) == rows[0] + ['/'] + rows[1]
  {
    assert rows[1..] == [rows[1]];
  }

  lemma SquaresSnoc(rows: seq<string>, row: string)
    ensures Squares(rows + [row]) == Squares(rows) + RowSquares(row)
  {
    assert (rows + [row])[..|rows|] == rows;
  }

  /** Expanding a row made of two rows and a '/' between them. */
  lemma SquaresWithSlash(rows: seq<string>, a: string, b: string)
    ensures Squares(rows + [a + ['/'] + b]) == Squares(rows + [a]) + ['/'] + RowSquares(b)
  {
    RowSquaresAppend(a + ['/'], b);
    RowSquaresAppend(a, ['/']);
    assert RowSquares(['/']) == ['/'] by {
      assert ['/'][..0] == [];
    }
    SquaresSnoc(rows, a + ['/'] + b);
    SquaresSnoc(rows, a);
    Regroup(Squares(rows), RowSquares(a), '/', RowSquares(b));
  }

  lemma Regroup<T>(a: seq<T>, b: seq<T>, x: T, c: seq<T>)
    ensures a + ((b + [x]) + c) == (a + b) + [x] + c
  {
  }

  /** A row without digits '1'..'8' is copied cell for cell. */
  lemma {:induction false} RowSquaresNoRuns(row: string)
    requires forall k :: 0 <= k < |row| ==> !IsEmptyRun(row[k])
    ensures RowSquares(row) == row
  {
    if row != [] {
      RowSquaresNoRuns(row[..|row| - 1]);
    }
  }

  /** The same for a whole FEN string: whatever follows the placement, the
      as-written loop writes 65 cells. */
  lemma FenOverflow(ranks: seq<string>, rest: string)
    requires IsRanks(ranks)
    requires |Join(ranks)| + 1 + |rest| < NPOS
    ensures |BoardOf(Join(ranks) + [' '] + rest)| == NUM_SQUARES + 1
  {
    JoinRanks(ranks);
    PlacementOfFen(Join(ranks), rest);
    EightRanksOverflow(ranks);
  }

  /** Split at every '/', a well-formed placement gives its ranks back and
      fills exactly the 64 cells. */
  lemma EightRanksFit(ranks: seq<string>)
    requires IsRanks(ranks)
    ensures Squares(SplitAll(Join(ranks))) == Squares(ranks)
    ensures |Squares(SplitAll(Join(ranks)))| == NUM_SQUARES
  {
    JoinRanks(ranks);
    SplitAllJoin(ranks);
    RanksSquares(ranks);
  }

  /** The same for a whole FEN string. */
  lemma CorrectedFenFits(ranks: seq<string>, rest: string)
    requires IsRanks(ranks)
    requires |Join(ranks)| + 1 + |rest| < NPOS
    ensures |CorrectedBoardOf(Join(ranks) + [' '] + rest)| == NUM_SQUARES
  {
    JoinRanks(ranks);
    PlacementOfFen(Join(ranks), rest);
    EightRanksFit(ranks);
  }

  // ---------------------------------------------------------------------
  // Concrete inputs

  /** The ranks of the starting position. */
  const START_RANKS: seq<string> := ["rnbqkbnr", "pppppppp", "8", "8", "8", "8", "PPPPPPPP", "RNBQKBNR"]

  /** The starting position's FEN string,
      "rnbqkbnr/pppppppp/8/8/8/8/PPPPPPPP/RNBQKBNR w KQkq - 0 1". */
  const START_FEN: string := Join(START_RANKS) + [' '] + "w KQkq - 0 1"

  /** The starting position's ranks are well formed. */
  lemma StartRanks()
    ensures IsRanks(START_RANKS)
  {
    PieceRank("rnbqkbnr");
    PieceRank("pppppppp");
    PieceRank("PPPPPPPP");
    PieceRank("RNBQKBNR");
    assert IsRank("8") by {
      assert RowSquares("8") == CharSquares('8') by {
        assert "8"[..0] == [];
      }
    }
    EightRanks("rnbqkbnr", "pppppppp", "8", "PPPPPPPP", "RNBQKBNR");
  }

  lemma EightRanks(back: string, pawns: string, empty: string, whitePawns: string, whiteBack: string)
    requires IsRank(back) && IsRank(pawns) && IsRank(empty) && IsRank(whitePawns) && IsRank(whiteBack)
    ensures IsRanks([back, pawns, empty, empty, empty, empty, whitePawns, whiteBack])
  {
    AllEight(IsRank, back, pawns, empty, whitePawns, whiteBack);
  }

  lemma AllEight<T>(P: T -> bool, a: T, b: T, c: T, d: T, e: T)
    requires P(a) && P(b) && P(c) && P(d) && P(e)
    ensures forall k :: 0 <= k < 8 ==> P([a, b, c, c, c, c, d, e][k])
  {
  }

  /** Eight piece letters make a rank. */
  lemma PieceRank(rank: string)
    requires |rank| == NUM_COLS
    requires forall k :: 0 <= k < |rank| ==> rank[k] in PIECES
    ensures IsRank(rank)
  {
    RowSquaresNoRuns(rank);
  }

  /** The starting position, the most ordinary input there is, writes 65 cells. */
  lemma StartPositionOverflows()
    ensures |START_FEN| < NPOS
    ensures |BoardOf(START_FEN)| == NUM_SQUARES + 1
  {
    StartRanks();
    JoinRanks(START_RANKS);
    FenOverflow(START_RANKS, "w KQkq - 0 1");
  }

  /** A placement with fewer slashes than iterations: once no '/' is left,
      each further iteration drops the last character, so "pp" comes back as
      "p" and then as empty rows. */
  lemma ShortPlacementRepeats()
    ensures SplitRows("8/pp") == ["8", "pp", "p", "", "", "", ""]
  {
    assert "8/pp" == "8" + ['/'] + "pp";
    TwoFieldSplit("8", "pp");
    assert "pp"[..1] == "p";
  }

  /** The rows split from two '/'-free fields, the second of length two. */
  lemma TwoFieldSplit(a: string, b: string)
    requires '/' !in a && '/' !in b && |b| == 2
    requires |a| + 3 < NPOS
    ensures SplitRows(a + ['/'] + b) == [a, b, b[..1], [], [], [], []]
  {
    PairRows(b);
    SplitFromAtSlash(a, b, SPLIT_COUNT);
  }

  /** The last five iterations on two characters without '/'. */
  lemma PairRows(b: string)
    requires '/' !in b && |b| == 2
    ensures SplitFrom(b, SPLIT_COUNT - 1) == [b, b[..1], [], [], [], []]
  {
    var tail := SplitFrom(b, SPLIT_COUNT - 1);
    SplitFromWithoutSlash(b, SPLIT_COUNT - 1);
    assert tail[0] == b[..2] == b;
    assert tail[1] == b[..1];
    assert tail[2] == tail[3] == tail[4] == tail[5] == [];
  }

  /** The full split gives just the two fields. */
  lemma ShortPlacementFields()
    ensures SplitAll("8/pp") == ["8", "pp"]
  {
    assert Join(["8", "pp"]) == "8/pp";
    SplitAllJoin(["8", "pp"]);
  }

  // ---------------------------------------------------------------------
  // How many entries of the input are hot

  lemma {:induction false} CountInAppend(a: seq<char>, b: seq<char>, letters: seq<char>)
    ensures CountIn(a + b, letters) == CountIn(a, letters) + CountIn(b, letters)
  {
    if a != [] {
      CountInAppend(a[1..], b, letters);
      assert (a + b)[1..] == a[1..] + b;
    } else {
      assert a + b == b;
    }
  }

  lemma {:induction false} CountInEmptyRun(n: nat)
    ensures CountIn(seq(n, _ => EMPTY), PIECES) == 0
  {
    if n > 0 {
      CountInEmptyRun(n - 1);
      assert seq(n, _ => EMPTY)[1..] == seq(n - 1, _ => EMPTY);
    }
  }

  /** Expansion keeps every piece letter of a row and adds none. */
  lemma {:induction false} CountInRowSquares(row: string)
    ensures CountIn(RowSquares(row), PIECES) == CountIn(row, PIECES)
  {
    if row != [] {
      var init, c := row[..|row| - 1], row[|row| - 1];
      CountInRowSquares(init);
      CountInAppend(RowSquares(init), CharSquares(c), PIECES);
      assert row == init + [c];
      CountInAppend(init, [c], PIECES);
      CountInCharSquares(c);
    }
  }

  /** A digit '1'..'8' is no piece letter, and neither is EMPTY. */
  lemma CountInCharSquares(c: char)
    ensures CountIn(CharSquares(c), PIECES) == CountIn([c], PIECES)
  {
    if IsEmptyRun(c) {
      CountInEmptyRun(RunLength(c));
      assert c !in PIECES;
    }
  }

  lemma {:induction false} ConcatCons(rows: seq<string>)
    requires |rows| >= 1
    ensures Concat(rows) == rows[0] + Concat(rows[1..])
  {
    if |rows| > 1 {
      ConcatCons(rows[..|rows| - 1]);
      assert rows[..|rows| - 1][1..] == rows[1..][..|rows| - 2];
      assert rows[..|rows| - 1][0] == rows[0];
    } else {
      assert rows[..0] == [];
      assert rows[1..] == [];
    }
  }

  /** The '/' between rows is no piece letter. */
  lemma {:induction false} CountInJoin(rows: seq<string>)
    requires |rows| >= 1
    ensures CountIn(Join(rows), PIECES) == CountIn(Concat(rows), PIECES)
  {
    ConcatCons(rows);
    if |rows| == 1 {
      assert Concat(rows[1..]) == [];
      assert rows[0] + [] == rows[0];
    } else {
      CountInJoin(rows[1..]);
      CountInAppend(rows[0] + ['/'], Join(rows[1..]), PIECES);
      CountInAppend(rows[0], ['/'], PIECES);
      CountInAppend(rows[0], Concat(rows[1..]), PIECES);
    }
  }

  /** The board has as many piece letters as the rows it is expanded from. */
  lemma BoardPieceCount(rows: seq<string>)
    requires |rows| >= 1
    ensures CountIn(Squares(rows), PIECES) == CountIn(Join(rows), PIECES)
  {
    SquaresConcat(rows);
    CountInRowSquares(Concat(rows));
    CountInJoin(rows);
  }

  /** When the as-written loop fills the board exactly, the input has one hot
      entry per piece letter of the placement field. */
  lemma InputHotCount(fen: CppString)
    requires SlashCount(Placement(fen)) >= SPLIT_COUNT
    requires |BoardOf(fen)| == NUM_SQUARES
    ensures Sum(Encode(BoardOf(fen))) == CountIn(Placement(fen), PIECES)
  {
    SplitRowsShape(Placement(fen));
    BoardPieceCount(SplitRows(Placement(fen)));
    HotCount(BoardOf(fen));
  }

  /** The same for the full split, whatever the number of slashes. */
  lemma CorrectedInputHotCount(fen: CppString)
    requires |CorrectedBoardOf(fen)| == NUM_SQUARES
    ensures Sum(Encode(CorrectedBoardOf(fen))) == CountIn(Placement(fen), PIECES)
  {
    JoinSplitAll(Placement(fen));
    BoardPieceCount(SplitAll(Placement(fen)));
    HotCount(CorrectedBoardOf(fen));
  }
}
