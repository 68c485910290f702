/** The last step of Abbie::EvaluateFEN: the 64-cell board becomes the network
    input, twelve 64-entry planes, one per piece letter, holding 1 where the
    board holds that letter and 0 elsewhere. */
module InputEncoding {
  import opened Dimensions

  /** The piece letters in plane order, black (lower case) before white. */
  const PIECES: seq<char> := ['p', 'P', 'r', 'R', 'n', 'N', 'b', 'B', 'q', 'Q', 'k', 'K']

  /** A comparison stored as a number. */
  function Bit(b: bool): int
  {
    if b then 1 else 0
  }

  /** Where plane `piece` keeps square `sq`. */
  function Slot(piece: nat, sq: nat): nat
  {
    piece * NUM_SQUARES + sq
  }

  /** The plane of one piece letter: 1 where the board holds it, 0 elsewhere. */
  function Plane(board: seq<char>, piece: char): (plane: seq<int>)
    ensures |plane| == |board|
    ensures forall sq :: 0 <= sq < |plane| ==> plane[sq] == 0 || plane[sq] == 1
  {
    seq(|board|, sq requires 0 <= sq < |board| => Bit(board[sq] == piece))
  }

  /** The planes of the given piece letters, one after the other. */
  function EncodePlanes(board: seq<char>, pieces: seq<char>): (input: seq<int>)
    requires |board| == NUM_SQUARES
    ensures |input| == |pieces| * NUM_SQUARES
    ensures forall k :: 0 <= k < |input| ==> input[k] == 0 || input[k] == 1
  {
    if pieces == [] then [] else Plane(board, pieces[0]) + EncodePlanes(board, pieces[1..])
  }

  /** The network input for a board: 768 entries, each 0 or 1. */
  function Encode(board: seq<char>): (input: seq<int>)
    requires |board| == NUM_SQUARES
    ensures |input| == INPUT_SIZE
    ensures forall k :: 0 <= k < |input| ==> input[k] == 0 || input[k] == 1
  {
    EncodePlanes(board, PIECES)
  }

  /** The encoding loop: for each piece letter in turn (counter `i`), and for
      each square, store whether the square holds that letter. */
  method EncodeBoard(squares: array<char>) returns (input: array<int>)
    requires squares.Length == NUM_SQUARES
    ensures fresh(input) && input.Length == INPUT_SIZE
    ensures input[..] == Encode(squares[..])
  {
    input := new int[INPUT_SIZE];
    var i := 0;
    while i < |PIECES|
      invariant 0 <= i <= NUM_PIECES
      invariant forall p, sq :: 0 <= p < i && 0 <= sq < NUM_SQUARES ==> input[Slot(p, sq)] == Bit(PIECES[p] == squares[sq])
    {
      FillPlane(input, squares, i);
      i := i + 1;
    }
    ghost var board, written := squares[..], input[..];
    assert forall p, sq :: 0 <= p < NUM_PIECES && 0 <= sq < NUM_SQUARES ==> written[Slot(p, sq)] == Bit(PIECES[p] == board[sq]);
    EncodeBySlots(board, written);
  }

  /** The inner loop of the encoding: plane `i` over the 64 squares. Nothing
      outside that plane changes. */
  method FillPlane(input: array<int>, squares: array<char>, i: nat)
    requires input.Length == INPUT_SIZE && squares.Length == NUM_SQUARES
    requires i < NUM_PIECES
    modifies input
    ensures forall sq :: 0 <= sq < NUM_SQUARES ==> input[Slot(i, sq)] == Bit(PIECES[i] == squares[sq])
    ensures forall k :: 0 <= k < INPUT_SIZE && !(Slot(i, 0) <= k < Slot(i + 1, 0)) ==> input[k] == old(input[k])
  {
    var piece := PIECES[i];
    for sq := 0 to NUM_SQUARES
      invariant forall s :: 0 <= s < sq ==> input[Slot(i, s)] == Bit(piece == squares[s])
      invariant forall k :: 0 <= k < INPUT_SIZE && !(Slot(i, 0) <= k < Slot(i, sq)) ==> input[k] == old(input[k])
    {
      input[i * NUM_SQUARES + sq] := Bit(piece == squares[sq]);
    }
  }

  // ---------------------------------------------------------------------
  // The layout

  /** Slot numbering is a bijection from (plane, square) pairs onto the input:
      every entry of the input is written by exactly one step of the loop. */
  lemma SlotBijection()
    ensures forall p, sq :: 0 <= p < NUM_PIECES && 0 <= sq < NUM_SQUARES ==> Slot(p, sq) < INPUT_SIZE
    ensures forall p, sq, q, t {:trigger Slot(p, sq), Slot(q, t)} ::
      0 <= sq < NUM_SQUARES && 0 <= t < NUM_SQUARES && Slot(p, sq) == Slot(q, t) ==> p == q && sq == t
    ensures forall k :: 0 <= k < INPUT_SIZE ==> k / NUM_SQUARES < NUM_PIECES && Slot(k / NUM_SQUARES, k % NUM_SQUARES) == k
  {
  }

  /** The plane and square an input index belongs to. */
  lemma SlotOf(k: nat)
    requires k < INPUT_SIZE
    ensures k / NUM_SQUARES < NUM_PIECES && k % NUM_SQUARES < NUM_SQUARES
    ensures Slot(k / NUM_SQUARES, k % NUM_SQUARES) == k
  {
  }

  /** Entry `Slot(i, sq)` of the planes is the comparison of letter `i` with
      square `sq`. */
  lemma {:induction false} EncodePlanesAt(board: seq<char>, pieces: seq<char>, i: nat, sq: nat)
    requires |board| == NUM_SQUARES
    requires i < |pieces| && sq < NUM_SQUARES
    ensures Slot(i, sq) < |EncodePlanes(board, pieces)|
    ensures EncodePlanes(board, pieces)[Slot(i, sq)] == Bit(pieces[i] == board[sq])
  {
    if i > 0 {
      EncodePlanesAt(board, pieces[1..], i - 1, sq);
    }
  }

  /** The input is determined slot by slot: any 768 numbers that hold, at
      every slot, the comparison of its letter with its square are the input. */
  lemma EncodeBySlots(board: seq<char>, input: seq<int>)
    requires |board| == NUM_SQUARES && |input| == INPUT_SIZE
    requires forall p, sq :: 0 <= p < NUM_PIECES && 0 <= sq < NUM_SQUARES ==> input[Slot(p, sq)] == Bit(PIECES[p] == board[sq])
    ensures input == Encode(board)
  {
    forall k | 0 <= k < INPUT_SIZE
      ensures input[k] == Encode(board)[k]
    {
      SlotOf(k);
      EncodePlanesAt(board, PIECES, k / NUM_SQUARES, k % NUM_SQUARES);
    }
  }

  /** Entry `Slot(i, sq)` of the input is 1 exactly when square `sq` holds the
      `i`-th piece letter, and 0 otherwise. */
  lemma EncodeEntry(board: seq<char>, i: nat, sq: nat)
    requires |board| == NUM_SQUARES
    requires i < NUM_PIECES && sq < NUM_SQUARES
    ensures Encode(board)[Slot(i, sq)] == 1 <==> board[sq] == PIECES[i]
    ensures Encode(board)[Slot(i, sq)] == 0 <==> board[sq] != PIECES[i]
  {
    EncodePlanesAt(board, PIECES, i, sq);
  }

  /** Every entry of the input is 0 or 1. */
  lemma EncodeBinary(board: seq<char>)
    requires |board| == NUM_SQUARES
    ensures |Encode(board)| == INPUT_SIZE
    ensures forall k :: 0 <= k < INPUT_SIZE ==> Encode(board)[k] == 0 || Encode(board)[k] == 1
  {
    forall k | 0 <= k < INPUT_SIZE
      ensures Encode(board)[k] == 0 || Encode(board)[k] == 1
    {
      SlotOf(k);
      EncodePlanesAt(board, PIECES, k / NUM_SQUARES, k % NUM_SQUARES);
    }
  }

  /** The piece letters are pairwise distinct. */
  predicate Distinct(letters: seq<char>)
  {
    forall i, j :: 0 <= i < j < |letters| ==> letters[i] != letters[j]
  }

  lemma PiecesDistinct()
    ensures Distinct(PIECES)
  {
  }

  /** A square is hot in at most one plane, and in one exactly when it holds a
      piece letter; EMPTY cells, and any other character, are hot in none. */
  lemma OneHotPerSquare(board: seq<char>, sq: nat)
    requires |board| == NUM_SQUARES && sq < NUM_SQUARES
    ensures forall i, j ::
      0 <= i < NUM_PIECES && 0 <= j < NUM_PIECES && Encode(board)[Slot(i, sq)] == 1 && Encode(board)[Slot(j, sq)] == 1
      ==> i == j
    ensures (exists i :: 0 <= i < NUM_PIECES && Encode(board)[Slot(i, sq)] == 1) <==> board[sq] in PIECES
  {
    PiecesDistinct();
    forall i | 0 <= i < NUM_PIECES
      ensures Encode(board)[Slot(i, sq)] == 1 <==> board[sq] == PIECES[i]
    {
      EncodeEntry(board, i, sq);
    }
  }

  // ---------------------------------------------------------------------
  // How many entries are hot

  function Sum(s: seq<int>): int
  {
    if s == [] then 0 else s[0] + Sum(s[1..])
  }

  /** How many cells hold `c`. */
  function Count(cells: seq<char>, c: char): nat
  {
    if cells == [] then 0 else Bit(cells[0] == c) + Count(cells[1..], c)
  }

  /** How many cells hold one of `letters`. */
  function CountIn(cells: seq<char>, letters: seq<char>): nat
  {
    if cells == [] then 0 else Bit(cells[0] in letters) + CountIn(cells[1..], letters)
  }

  /** The cells holding each of `letters`, counted letter by letter and added up. */
  function CountEach(cells: seq<char>, letters: seq<char>): nat
  {
    if letters == [] then 0 else Count(cells, letters[0]) + CountEach(cells, letters[1..])
  }

  lemma {:induction false} SumAppend(a: seq<int>, b: seq<int>)
    ensures Sum(a + b) == Sum(a) + Sum(b)
  {
    if a != [] {
      SumAppend(a[1..], b);
      assert (a + b)[1..] == a[1..] + b;
    } else {
      assert a + b == b;
    }
  }

  /** A plane has one hot entry per cell holding its letter. */
  lemma {:induction false} PlaneSum(cells: seq<char>, c: char)
    ensures Sum(Plane(cells, c)) == Count(cells, c)
  {
    if cells != [] {
      PlaneSum(cells[1..], c);
      assert Plane(cells, c) == [Bit(cells[0] == c)] + Plane(cells[1..], c);
    }
  }

  lemma {:induction false} EncodePlanesSum(board: seq<char>, letters: seq<char>)
    requires |board| == NUM_SQUARES
    ensures Sum(EncodePlanes(board, letters)) == CountEach(board, letters)
  {
    if letters != [] {
      EncodePlanesSum(board, letters[1..]);
      PlaneSum(board, letters[0]);
      SumAppend(Plane(board, letters[0]), EncodePlanes(board, letters[1..]));
    }
  }

  /** Counting one more letter that is not among the others adds its cells. */
  lemma {:induction false} CountInCons(cells: seq<char>, c: char, letters: seq<char>)
    requires c !in letters
    ensures CountIn(cells, [c] + letters) == Count(cells, c) + CountIn(cells, letters)
  {
    if cells != [] {
      CountInCons(cells[1..], c, letters);
    }
  }

  /** For distinct letters, counting letter by letter counts each cell once. */
  lemma {:induction false} CountEachDistinct(cells: seq<char>, letters: seq<char>)
    requires Distinct(letters)
    ensures CountEach(cells, letters) == CountIn(cells, letters)
  {
    if letters == [] {
      CountInNone(cells);
    } else {
      CountEachDistinct(cells, letters[1..]);
      assert letters == [letters[0]] + letters[1..];
      CountInCons(cells, letters[0], letters[1..]);
    }
  }

  lemma {:induction false} CountInNone(cells: seq<char>)
    ensures CountIn(cells, []) == 0
  {
    if cells != [] {
      CountInNone(cells[1..]);
    }
  }

  /** The input has exactly as many 1 entries as the board has cells holding
      one of the twelve piece letters. */
  lemma HotCount(board: seq<char>)
    requires |board| == NUM_SQUARES
    ensures Sum(Encode(board)) == CountIn(board, PIECES)
  {
    EncodePlanesSum(board, PIECES);
    PiecesDistinct();
    CountEachDistinct(board, PIECES);
  }
}
