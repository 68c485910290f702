/** The third step of Abbie::EvaluateFEN: expanding the row strings into a
    64-cell board of characters, one cell per square, with a running counter. */
module SquareExpansion {
  import opened Dimensions

  /** The character written into an empty square. */
  const EMPTY: char := '-'

  /** A digit '1'..'8' stands for that many empty squares. Every other
      character, '0', '9' and '/' included, stands for one square. */
  predicate IsEmptyRun(c: char)
  {
    '1' <= c <= '8'
  }

  function RunLength(c: char): (n: nat)
    requires IsEmptyRun(c)
    ensures 1 <= n <= 8
  {
    (c as int) - ('0' as int)
  }

  /** The cells written for one row character: a digit gives that many EMPTY
      cells, any other character one cell holding it. */
  function CharSquares(c: char): (cells: seq<char>)
    ensures 1 <= |cells| <= NUM_COLS
    ensures !IsEmptyRun(c) ==> cells == [c]
  {
    if IsEmptyRun(c) then seq(RunLength(c), _ => EMPTY) else [c]
  }

  /** The cells written for one row string, left to right: at least one per
      character. */
  function RowSquares(row: string): (cells: seq<char>)
    ensures |row| <= |cells|
  {
    if row == [] then [] else RowSquares(row[..|row| - 1]) + CharSquares(row[|row| - 1])
  }

  /** The cells written for all the rows, in order: at least one per
      character of the rows. */
  function Squares(rows: seq<string>): (cells: seq<char>)
    ensures |Concat(rows)| <= |cells|
  {
    if rows == [] then [] else Squares(rows[..|rows| - 1]) + RowSquares(rows[|rows| - 1])
  }

  /** The expansion loop: `square` counts the cells written so far, and the
      rows are expanded in turn by ExpandRow. The source checks no bound: a
      write past the 64th cell is undefined behaviour, so the caller must keep
      the expanded length within the array. Cells past the last one written
      keep whatever they held. */
  method ExpandSquares(rows: seq<string>, squares: array<char>) returns (square: nat)
    requires squares.Length == NUM_SQUARES
    requires |Squares(rows)| <= NUM_SQUARES
    modifies squares
    ensures square == |Squares(rows)|
    ensures squares[..square] == Squares(rows)
    ensures forall k :: square <= k < NUM_SQUARES ==> squares[k] == old(squares[k])
  {
    square := 0;
    for r := 0 to |rows|
      invariant square == |Squares(rows[..r])| <= NUM_SQUARES
      invariant squares[..square] == Squares(rows[..r])
      invariant forall k :: square <= k < NUM_SQUARES ==> squares[k] == old(squares[k])
    {
      assert rows[..r + 1][..r] == rows[..r];
      SquaresPrefix(rows, r + 1);
      square := ExpandRow(squares, square, rows[r]);
    }
    assert rows[..|rows|] == rows;
  }

  /** One row string: its characters are expanded in turn by ExpandChar. */
  method ExpandRow(squares: array<char>, square: nat, row: string) returns (next: nat)
    requires square + |RowSquares(row)| <= squares.Length
    modifies squares
    ensures next == square + |RowSquares(row)|
    ensures squares[..next] == old(squares[..square]) + RowSquares(row)
    ensures forall k :: next <= k < squares.Length ==> squares[k] == old(squares[k])
  {
    next := square;
    for j := 0 to |row|
      invariant next == square + |RowSquares(row[..j])| <= squares.Length
      invariant squares[..next] == old(squares[..square]) + RowSquares(row[..j])
      invariant forall k :: next <= k < squares.Length ==> squares[k] == old(squares[k])
    {
      assert row[..j + 1][..j] == row[..j];
      RowSquaresPrefix(row, j + 1);
      ghost var before := squares[..next];
      next := ExpandChar(squares, next, row[j]);
      assert squares[..next] == before + CharSquares(row[j]);
    }
    assert row[..|row|] == row;
  }

  /** One row character: a digit '1'..'8' writes that many EMPTY cells, any
      other character is copied into one cell; the counter moves past them. */
  method ExpandChar(squares: array<char>, square: nat, chr: char) returns (next: nat)
    requires square + |CharSquares(chr)| <= squares.Length
    modifies squares
    ensures next == square + |CharSquares(chr)|
    ensures squares[..next] == old(squares[..square]) + CharSquares(chr)
    ensures forall k :: next <= k < squares.Length ==> squares[k] == old(squares[k])
  {
    next := square;
    if '1' <= chr <= '8' {
      var numEmpty := (chr as int) - ('0' as int);
      for i := 0 to numEmpty
        invariant next == square + i
        invariant squares[..square] == old(squares[..square])
        invariant forall k :: square <= k < next ==> squares[k] == EMPTY
        invariant forall k :: next <= k < squares.Length ==> squares[k] == old(squares[k])
      {
        squares[next] := EMPTY;
        next := next + 1;
      }
    } else {
      squares[next] := chr;
      next := next + 1;
    }
    assert squares[..next] == squares[..square] + squares[square..next];
  }

  // ---------------------------------------------------------------------
  // Expansion distributes over concatenation

  /** Expanding two pieces of a row one after the other is expanding the row. */
  lemma {:induction false} RowSquaresAppend(a: string, b: string)
    ensures RowSquares(a + b) == RowSquares(a) + RowSquares(b)
  {
    if b != [] {
      var c := b[|b| - 1];
      RowSquaresAppend(a, b[..|b| - 1]);
      assert (a + b)[..|a + b| - 1] == a + b[..|b| - 1];
    } else {
      assert a + b == a;
    }
  }

  lemma {:induction false} SquaresAppend(xs: seq<string>, ys: seq<string>)
    ensures Squares(xs + ys) == Squares(xs) + Squares(ys)
  {
    if ys != [] {
      SquaresAppend(xs, ys[..|ys| - 1]);
      DropLast(xs, ys);
    } else {
      assert xs + ys == xs;
    }
  }

  lemma DropLast<T>(xs: seq<T>, ys: seq<T>)
    requires ys != []
    ensures (xs + ys)[..|xs + ys| - 1] == xs + ys[..|ys| - 1]
    ensures (xs + ys)[|xs + ys| - 1] == ys[|ys| - 1]
  {
  }

  /** A prefix of a row never writes more cells than the whole row. */
  lemma RowSquaresPrefix(row: string, j: nat)
    requires j <= |row|
    ensures |RowSquares(row[..j])| <= |RowSquares(row)|
  {
    assert row == row[..j] + row[j..];
    RowSquaresAppend(row[..j], row[j..]);
  }

  lemma SquaresPrefix(rows: seq<string>, r: nat)
    requires r <= |rows|
    ensures |Squares(rows[..r])| <= |Squares(rows)|
  {
    assert rows == rows[..r] + rows[r..];
    SquaresAppend(rows[..r], rows[r..]);
  }

  // ---------------------------------------------------------------------
  // What the counter ends at

  /** The rows one after the other, as one string. */
  function Concat(rows: seq<string>): string
  {
    if rows == [] then [] else Concat(rows[..|rows| - 1]) + rows[|rows| - 1]
  }

  /** Row boundaries play no part: the cells of the rows are the cells of
      their concatenation. */
  lemma {:induction false} SquaresConcat(rows: seq<string>)
    ensures Squares(rows) == RowSquares(Concat(rows))
  {
    if rows != [] {
      SquaresConcat(rows[..|rows| - 1]);
      RowSquaresAppend(Concat(rows[..|rows| - 1]), rows[|rows| - 1]);
    }
  }

  /** The sum of the values of the digits '1'..'8' in a string. */
  function DigitSum(s: string): nat
  {
    if s == [] then 0 else (if IsEmptyRun(s[0]) then RunLength(s[0]) else 0) + DigitSum(s[1..])
  }

  /** How many characters of a string are not a digit '1'..'8'. */
  function NonDigitCount(s: string): nat
  {
    if s == [] then 0 else (if IsEmptyRun(s[0]) then 0 else 1) + NonDigitCount(s[1..])
  }

  /** A row writes the sum of its digit values plus one cell per other
      character. */
  lemma {:induction false} RowSquareCount(row: string)
    ensures |RowSquares(row)| == DigitSum(row) + NonDigitCount(row)
  {
    if row != [] {
      var c, tail := row[0], row[1..];
      RowSquareCount(tail);
      RowSquaresAppend([c], tail);
      assert [c] + tail == row;
      SingleRow(c);
    }
  }

  /** A row of one character writes that character's cells: as many as a
      digit says, one for anything else. */
  lemma SingleRow(c: char)
    ensures RowSquares([c]) == CharSquares(c)
    ensures |CharSquares(c)| == if IsEmptyRun(c) then RunLength(c) else 1
  {
    assert [c][..0] == [];
  }

  /** The final value of the counter: the sum of the digit values plus the
      number of other characters, over all rows together. */
  lemma SquareCount(rows: seq<string>)
    ensures |Squares(rows)| == DigitSum(Concat(rows)) + NonDigitCount(Concat(rows))
  {
    SquaresConcat(rows);
    RowSquareCount(Concat(rows));
  }

  /** Every character writes at least one cell and at most eight. */
  lemma {:induction false} RowSquareBounds(row: string)
    ensures |row| <= |RowSquares(row)| <= NUM_COLS * |row|
  {
    if row != [] {
      RowSquareBounds(row[..|row| - 1]);
    }
  }

  // ---------------------------------------------------------------------
  // What the cells hold

  /** Every cell a row writes is EMPTY or one of the row's characters. */
  lemma {:induction false} RowCells(row: string)
    ensures forall i :: 0 <= i < |RowSquares(row)| ==> RowSquares(row)[i] == EMPTY || RowSquares(row)[i] in row
  {
    if row != [] {
      var init, c := row[..|row| - 1], row[|row| - 1];
      RowCells(init);
      assert row == init + [c];
      forall i | 0 <= i < |RowSquares(row)|
        ensures RowSquares(row)[i] == EMPTY || RowSquares(row)[i] in row
      {
        if i < |RowSquares(init)| {
          assert RowSquares(row)[i] == RowSquares(init)[i];
        } else {
          assert RowSquares(row)[i] == CharSquares(c)[i - |RowSquares(init)|];
        }
      }
    }
  }

  /** Every cell of the board is EMPTY or a character of one of the rows. */
  lemma BoardCells(rows: seq<string>)
    ensures forall i :: 0 <= i < |Squares(rows)| ==> Squares(rows)[i] == EMPTY || Squares(rows)[i] in Concat(rows)
  {
    SquaresConcat(rows);
    RowCells(Concat(rows));
  }

  /** The cells that are not EMPTY, in order. */
  function Occupants(cells: seq<char>): seq<char>
  {
    if cells == [] then []
    else Occupants(cells[..|cells| - 1]) + (if cells[|cells| - 1] == EMPTY then [] else [cells[|cells| - 1]])
  }

  /** The characters of a row that are copied into a cell other than EMPTY:
      neither a digit '1'..'8' nor EMPTY itself. */
  function Letters(row: string): seq<char>
  {
    if row == [] then []
    else
      var c := row[|row| - 1];
      Letters(row[..|row| - 1]) + (if IsEmptyRun(c) || c == EMPTY then [] else [c])
  }

  lemma {:induction false} OccupantsAppend(a: seq<char>, b: seq<char>)
    ensures Occupants(a + b) == Occupants(a) + Occupants(b)
  {
    if b != [] {
      OccupantsAppend(a, b[..|b| - 1]);
      assert (a + b)[..|a + b| - 1] == a + b[..|b| - 1];
    } else {
      assert a + b == a;
    }
  }

  lemma {:induction false} OccupantsOfRun(n: nat)
    ensures Occupants(seq(n, _ => EMPTY)) == []
  {
    if n > 0 {
      OccupantsOfRun(n - 1);
      assert seq(n, _ => EMPTY)[..n - 1] == seq(n - 1, _ => EMPTY);
    }
  }

  /** Reading the non-EMPTY cells back gives the row's characters in order,
      with the digits '1'..'8' dropped: nothing is lost, reordered or invented. */
  lemma {:induction false} RowOccupants(row: string)
    ensures Occupants(RowSquares(row)) == Letters(row)
  {
    if row != [] {
      var c := row[|row| - 1];
      RowOccupants(row[..|row| - 1]);
      OccupantsAppend(RowSquares(row[..|row| - 1]), CharSquares(c));
      if IsEmptyRun(c) {
        OccupantsOfRun(RunLength(c));
      } else {
        assert [c][..0] == [];
      }
    }
  }
}
