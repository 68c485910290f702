# Abbie position encoder in Dafny

This project models the position encoder of the Abbie chess engine:
`Abbie::EvaluateFEN` up to the point where it hands its input to the neural
network. The function takes a FEN string and does three things:

1. It keeps the piece-placement field, which is the text before the first space.
2. It splits that field into row strings and expands them into a 64-cell
   `char` board. A digit `'1'..'8'` writes that many `'-'` cells. Any other
   character is copied into one cell.
3. It one-hot encodes the board into `INPUT_SIZE = 12 * 64 = 768` numbers.
   Plane `i` holds 1 where the board holds the `i`-th letter of
   `p P r R n N b B q Q k K`, and 0 elsewhere.

Modules, one per step, with the imperative code as methods proved against pure
specification functions:

- `Dimensions`: the constants of `abbie.hpp`.
- `StdString`: the members of `std::string` the parser relies on.
  - `find` and `substr`.
  - The unsigned `size_t` arithmetic the parser does on their results. It wraps
    modulo 2^64.
- `FenSplit`: the cut at the first space and the split loop.
  - `SplitIntoRows` is the loop as written. It runs six times and then pushes
    the remainder.
  - `SplitRanks` is the loop as evidently intended. It splits at every `'/'`.
- `SquareExpansion`: the expansion loops over the `squares` array. There is
  one method per nested loop.
- `InputEncoding`: the double loop that fills the 768-entry input array.
- `Abbie`: the whole pipeline, plus the properties that connect the steps.

The input has 768 entries: twelve 64-entry planes in the order
`p, P, r, R, n, N, b, B, q, Q, k, K`. It has no slots for the side to move or
the castling rights, because the function reads only the placement field.

## Model

| member | source | states |
|---|---|---|
| `StdString.Find` | abbie.cpp:19 | `find` returns the index of the first occurrence, or npos exactly when the character is absent |
| `StdString.FindFrom` | abbie.cpp:22 | the search from a position finds the first occurrence at or after it, or npos when there is none |
| `StdString.Substr` | abbie.cpp:19 | `substr(pos, count)` never yields more than the characters after `pos` |
| `StdString.SizeAdd` | abbie.cpp:23 | unsigned addition stays in range (wrapping past the top) |
| `StdString.SizeSub` | abbie.cpp:23 | unsigned subtraction stays in range (wrapping below zero) |
| `StdString.FindAfter` | abbie.cpp:22 | `find` on a string whose prefix lacks the character returns the prefix's length |
| `FenSplit.Placement` | abbie.cpp:19 | the placement field holds no space, is a prefix of the FEN, and ends at the first space or at the end |
| `FenSplit.PlacementOfFen` | abbie.cpp:19 | for placement + " " + rest, the field parsed is exactly the placement, whatever the rest |
| `FenSplit.PlacementIgnoresTail` | abbie.cpp:19 | text appended after the first space never changes the parsed field |
| `FenSplit.SplitIntoRows` | abbie.cpp:20-25 | the six-iteration loop builds exactly the rows `SplitRows` specifies, always seven of them |
| `FenSplit.SplitStep` | abbie.cpp:22-23 | one iteration moves the next row from the rows still to come to the rows pushed |
| `FenSplit.RowOf` | abbie.cpp:22 | the row pushed by one iteration is the text before the first `'/'`, or all of it: a `'/'`-free prefix ended by a `'/'` or by the end |
| `FenSplit.RestOf` | abbie.cpp:23 | what one iteration keeps is never longer than what it was given, and strictly shorter when that was not empty |
| `FenSplit.SplitFrom` | abbie.cpp:21-25 | `n` remaining iterations produce `n + 1` rows, the first `n` of them free of `'/'` |
| `FenSplit.SplitRows` | abbie.cpp:20-25 | every placement gives seven rows, and the first six hold no `'/'` |
| `FenSplit.SplitFromAt` | abbie.cpp:21-24 | row `k` after `n` iterations is row `k - 1` after `n - 1` iterations over what the first one keeps |
| `FenSplit.LastRowSlash` | abbie.cpp:21-25 | for any string, the last row can hold a `'/'` only when the string has more slashes than there are iterations |
| `FenSplit.SplitRowsSlashes` | abbie.cpp:20-25 | for every placement, whatever its number of slashes: the first six rows hold no `'/'`, and the seventh holds one only when the placement has seven or more |
| `FenSplit.RestOfSlashCount` | abbie.cpp:23 | one iteration uses up exactly the first `'/'` when there is one, and leaves no `'/'` when there is none |
| `FenSplit.SlashCountAppend` | abbie.cpp:21-23 | the slashes of two strings add up |
| `FenSplit.SlashCountZero` | abbie.cpp:22 | a string has no slashes counted exactly when `'/'` does not occur in it |
| `FenSplit.SplitFromWithin` | abbie.cpp:21-25 | the split invents no character: every row is made of characters of the placement |
| `FenSplit.RestOfWithin` | abbie.cpp:23 | what one iteration keeps is made of characters of what it was given |
| `FenSplit.SplitAllWithin` | abbie.cpp:20-25 | the full split invents no character either |
| `FenSplit.StepAtSlash` | abbie.cpp:22-23 | at a `'/'` one iteration pushes the text before it and keeps exactly the text after it |
| `FenSplit.StepWithoutSlash` | abbie.cpp:22-23 | with no `'/'` left one iteration pushes the whole string and, because npos + 1 wraps to 0, keeps it minus its last character |
| `FenSplit.SplitFromAtSlash` | abbie.cpp:21-24 | an iteration over a `'/'`-free stretch and a `'/'` pushes the stretch and continues after the `'/'` |
| `FenSplit.SplitFromJoin` | abbie.cpp:21-25 | on `'/'`-joined fields, the first `n` rows are the first `n` fields and the last row is the remaining fields joined, slashes included |
| `FenSplit.SplitFromJoinStep` | abbie.cpp:22-23 | one iteration over joined fields peels off the first field |
| `FenSplit.SplitFromJoinCons` | abbie.cpp:21-25 | the inductive step of `SplitFromJoin` |
| `FenSplit.SplitFromWithoutSlash` | abbie.cpp:21-24 | once no `'/'` is left, row `i` is the string cut short by `i` characters |
| `FenSplit.SplitRowsAgainstSplitAll` | abbie.cpp:20-25 | with at least six slashes, the rows are the first six fields of the full split plus everything after the sixth `'/'` |
| `FenSplit.SplitRowsShape` | abbie.cpp:20-25 | with at least six slashes: the rows join back to the placement, and the seventh row holds a `'/'` exactly when the placement has seven or more (the first six rows are `'/'`-free for every placement, by `SplitRows`) |
| `FenSplit.SplitAll` | abbie.cpp:20-25 | the split at every `'/'` gives one more field than there are slashes, none of them holding a `'/'` |
| `FenSplit.JoinSplitAll` | abbie.cpp:20-25 | joining the fields of the full split gives the placement back |
| `FenSplit.SplitAllJoin` | abbie.cpp:20-25 | the full split undoes the join of `'/'`-free fields |
| `FenSplit.SplitAllNoSlash` | abbie.cpp:25 | a string without `'/'` is a single field |
| `FenSplit.SplitAllAt` | abbie.cpp:22-23 | splitting after a `'/'`-free stretch and a `'/'` yields the stretch, then the split of the rest |
| `FenSplit.SplitRanks` | abbie.cpp:20-25 | the corrected loop (split until no `'/'` is left) builds exactly the full split |
| `FenSplit.SplitAllStep` | abbie.cpp:22-23 | one iteration of the corrected loop moves one field to the rows pushed |
| `FenSplit.JoinAfterPrefix` | abbie.cpp:25 | joining a prefix of the fields with the join of the rest is the join of all of them |
| `SquareExpansion.RunLength` | abbie.cpp:31 | a digit `'1'..'8'` stands for 1 to 8 empty squares |
| `SquareExpansion.CharSquares` | abbie.cpp:30-38 | one character writes between one and eight cells, and a character other than a digit `'1'..'8'` writes exactly one cell holding itself |
| `SquareExpansion.RowSquares` | abbie.cpp:29-39 | a row writes at least one cell per character |
| `SquareExpansion.Squares` | abbie.cpp:28-40 | the rows write at least one cell per character they hold |
| `SquareExpansion.SingleRow` | abbie.cpp:30-38 | a row of one character writes that character's cells: as many as a digit says, one for anything else |
| `SquareExpansion.RowCells` | abbie.cpp:29-39 | every cell a row writes is `'-'` or a character of the row |
| `SquareExpansion.BoardCells` | abbie.cpp:28-40 | every cell written is `'-'` or a character of one of the rows |
| `SquareExpansion.ExpandSquares` | abbie.cpp:26-41 | the counter ends at the number of cells the rows expand to, the array's prefix holds exactly those cells, and every cell past them is unchanged, provided they fit in 64 |
| `SquareExpansion.ExpandRow` | abbie.cpp:28-40 | one row appends its expansion after the cells written so far and touches nothing past them |
| `SquareExpansion.ExpandChar` | abbie.cpp:29-39 | a digit writes that many `'-'` cells and advances the counter by its value; any other character (`'0'`, `'9'`, `'/'` included) is copied into one cell and advances it by 1 |
| `SquareExpansion.RowSquaresAppend` | abbie.cpp:29-40 | expanding two pieces of a row one after the other is expanding the row |
| `SquareExpansion.SquaresAppend` | abbie.cpp:28-41 | expanding two runs of rows one after the other is expanding all of them |
| `SquareExpansion.RowSquaresPrefix` | abbie.cpp:29 | a prefix of a row never expands to more cells than the row |
| `SquareExpansion.SquaresPrefix` | abbie.cpp:28 | a prefix of the rows never expands to more cells than all of them |
| `SquareExpansion.SquaresConcat` | abbie.cpp:28-29 | row boundaries play no part: the cells are those of the rows' concatenation |
| `SquareExpansion.RowSquareCount` | abbie.cpp:29-39 | a row expands to the sum of its digit values plus one cell per other character |
| `SquareExpansion.SquareCount` | abbie.cpp:26-41 | the final counter is the sum of the digit values plus the number of other characters, over all rows |
| `SquareExpansion.RowSquareBounds` | abbie.cpp:30-38 | every character writes at least one cell and at most eight |
| `SquareExpansion.OccupantsAppend` | abbie.cpp:29-39 | the non-empty cells of two runs of cells are those of each run, in order |
| `SquareExpansion.OccupantsOfRun` | abbie.cpp:32-35 | a run of `'-'` cells has no occupant |
| `SquareExpansion.RowOccupants` | abbie.cpp:29-39 | reading the non-`'-'` cells back gives the row's characters in order with the digits dropped: nothing lost, reordered or invented |
| `InputEncoding.Plane` | abbie.cpp:54-56 | a plane has one entry per square |
| `InputEncoding.EncodePlanes` | abbie.cpp:53-58 | the planes of `k` letters fill `k * 64` entries |
| `InputEncoding.Encode` | abbie.cpp:43-58 | the input for a 64-cell board has 768 entries, each 0 or 1 |
| `InputEncoding.EncodeBoard` | abbie.cpp:43-58 | a fresh array of 768 entries equal to `Encode` of the board |
| `InputEncoding.FillPlane` | abbie.cpp:54-56 | the inner loop sets plane `i` to the comparison of letter `i` with each square, and changes no entry outside that plane |
| `InputEncoding.SlotBijection` | abbie.cpp:52-58 | slot numbering `i * 64 + sq` maps the 12 × 64 pairs one-to-one onto the 768 entries: each entry is written by exactly one iteration |
| `InputEncoding.SlotOf` | abbie.cpp:55 | every entry index belongs to a plane below 12 and a square below 64 |
| `InputEncoding.EncodePlanesAt` | abbie.cpp:53-58 | the entry of plane `i` at square `sq` is the comparison of letter `i` with that square |
| `InputEncoding.EncodeBySlots` | abbie.cpp:52-58 | any 768 numbers that hold, at every slot, the comparison for that slot are the input |
| `InputEncoding.EncodeEntry` | abbie.cpp:44-55 | entry `i * 64 + sq` is 1 exactly when square `sq` holds the `i`-th piece letter, and 0 exactly when it does not |
| `InputEncoding.EncodeBinary` | abbie.cpp:55 | the input has 768 entries, each 0 or 1 |
| `InputEncoding.PiecesDistinct` | abbie.cpp:44-51 | the twelve piece letters are pairwise distinct |
| `InputEncoding.OneHotPerSquare` | abbie.cpp:44-55 | a square is hot in at most one plane, and in one exactly when it holds a piece letter (`'-'` and `'/'` are hot in none) |
| `InputEncoding.SumAppend` | abbie.cpp:52-58 | the hot entries of two runs add up |
| `InputEncoding.PlaneSum` | abbie.cpp:54-56 | a plane has one hot entry per cell holding its letter |
| `InputEncoding.EncodePlanesSum` | abbie.cpp:53-58 | the planes together have one hot entry per cell and letter that match |
| `InputEncoding.CountInCons` | abbie.cpp:44-51 | counting one more letter that is not among the others adds its cells |
| `InputEncoding.CountEachDistinct` | abbie.cpp:44-51 | for distinct letters, counting letter by letter counts each cell once |
| `InputEncoding.CountInNone` | abbie.cpp:44 | no cell holds a letter of an empty list |
| `InputEncoding.HotCount` | abbie.cpp:52-58 | the number of 1 entries equals the number of cells holding one of the twelve piece letters |
| `Abbie.BoardOf` | abbie.cpp:19-41 | every cell the as-written loops write for a FEN string is `'-'` or a character of its placement field |
| `Abbie.CorrectedBoardOf` | abbie.cpp:19-41 | the same for the split at every `'/'` |
| `Abbie.ConcatWithin` | abbie.cpp:28-29 | rows made of characters of a string, put end to end, are made of them too |
| `Abbie.FillBoard` | abbie.cpp:26-41 | when the rows expand to exactly 64 cells, the fresh `squares` array holds exactly those cells, every one of them written |
| `Abbie.ModelInput` | abbie.cpp:18-58 | from a FEN whose rows expand to exactly 64 cells, the input is the encoding of those cells |
| `Abbie.CorrectedModelInput` | abbie.cpp:18-58 | the same pipeline with the split at every `'/'` |
| `Abbie.RanksSquares` | abbie.cpp:26-41 | well-formed ranks expand to eight cells each |
| `Abbie.JoinRanks` | abbie.cpp:19 | a placement of well-formed ranks is short, holds no space, and its ranks hold no `'/'` |
| `Abbie.RankChars` | abbie.cpp:29-39 | a well-formed rank has at most eight characters and no `'/'` or space |
| `Abbie.EightRanksOverflow` | abbie.cpp:20-41 | for every well-formed 8-rank placement the as-written loops produce the 64 intended cells with a `'/'` inserted at cell 56: 65 cells for a 64-cell array |
| `Abbie.SplitRowsOfRanks` | abbie.cpp:20-25 | on eight `'/'`-free fields, as every well-formed placement has, the rows are the first six fields and `field7 + "/" + field8` |
| `Abbie.SquaresWithSlash` | abbie.cpp:36-38 | the `'/'` left in a row is stored as a cell between the cells of its neighbours |
| `Abbie.LastRank` | abbie.cpp:26-41 | for eight ranks, cells 0..55 come from the first seven and cells 56..63 from the eighth |
| `Abbie.FenOverflow` | abbie.cpp:18-41 | every FEN string whose placement is eight well-formed ranks makes the loops write 65 cells |
| `Abbie.EightRanksFit` | abbie.cpp:20-41 | split at every `'/'`, eight well-formed ranks fill exactly the 64 intended cells |
| `Abbie.CorrectedFenFits` | abbie.cpp:18-41 | with the corrected split, every FEN string of eight well-formed ranks fills exactly 64 cells |
| `Abbie.StartRanks` | abbie.cpp:29-39 | the ranks of the starting position are well formed |
| `Abbie.PieceRank` | abbie.cpp:36-38 | eight piece letters make a rank |
| `Abbie.RowSquaresNoRuns` | abbie.cpp:36-38 | a row without digits is copied cell for cell |
| `Abbie.StartPositionOverflows` | abbie.cpp:18-41 | the starting position's FEN makes the loops write 65 cells |
| `Abbie.ShortPlacementRepeats` | abbie.cpp:21-25 | `"8/pp"` splits into `"8", "pp", "p"` and four empty rows |
| `Abbie.TwoFieldSplit` | abbie.cpp:21-25 | two `'/'`-free fields, the second of two characters, split into the first, the second, its first character and four empty rows |
| `Abbie.PairRows` | abbie.cpp:22-23 | five iterations over two characters without `'/'` shrink them to nothing |
| `Abbie.ShortPlacementFields` | abbie.cpp:20-25 | the full split of `"8/pp"` is just `"8", "pp"` |
| `Abbie.CountInAppend` | abbie.cpp:52-58 | piece letters of two runs of cells add up |
| `Abbie.CountInEmptyRun` | abbie.cpp:32-35 | a run of `'-'` cells holds no piece letter |
| `Abbie.CountInRowSquares` | abbie.cpp:29-39 | expansion keeps every piece letter of a row and adds none |
| `Abbie.CountInCharSquares` | abbie.cpp:30-38 | one character expands to as many piece letters as it is |
| `Abbie.CountInJoin` | abbie.cpp:22-23 | the `'/'` separators hold no piece letter |
| `Abbie.BoardPieceCount` | abbie.cpp:26-41 | the board holds as many piece letters as the rows it is expanded from |
| `Abbie.InputHotCount` | abbie.cpp:18-58 | for a placement with at least six `'/'` whose as-written rows fill the board exactly, the input has one 1 entry per piece letter of the placement field (with fewer slashes the repeated rows of the second finding can count a letter twice) |
| `Abbie.CorrectedInputHotCount` | abbie.cpp:18-58 | the same for the corrected split |

## Left out

- The network evaluation at abbie.cpp:59-61 (`Mat`, `model_.compute`, `getVal`). It is floating-point code from a library that is not part of this model. `ModelInput` returns the input it would receive, not the score.
- The constructor at abbie.cpp:13-15. It builds the network and nothing else.
- `Abbie::playBotMove` (abbie.cpp:64-66). It only wraps the chess library's random move.
- `Abbie::playAgainst` (abbie.cpp:68-108). It is console input and output, escape sequences, sleeping and `exit`.
- main.cpp is not part of this model. It is the training loop and checkpoint files.
- The `random_device` and `mt19937` members (abbie.hpp:15-16). They hold randomness that this function never touches.
- The side to move, castling rights, en passant square and move counters. The function reads only the placement field, and the input has no slots for them.
- Abbie.ModelInput: requires the rows to expand to exactly 64 cells.
  - The source does not check this.
  - With more cells it writes past the end of `squares`, which is undefined behaviour.
  - With fewer cells the encoder reads cells that were never written, which are indeterminate.
  - Neither outcome is modelled: both are excluded by the precondition.
  - `Abbie.EightRanksOverflow` shows that every well-formed placement falls on the "more" side.
- SquareExpansion.ExpandSquares: requires the expansion to fit in the 64-cell array, for the same reason.
- StdString.CppString: strings are limited to lengths below npos, as `std::string::max_size` limits them.
- Strings are sequences of Dafny `char`, where the source loops over the bytes of a `std::string` (abbie.cpp:29) and copies each byte into a cell (abbie.cpp:37).
  - A non-ASCII character in the placement field fills one cell per UTF-8 byte in the source, but one cell here.
  - That changes the count held against the 64-cell bound.
  - ASCII input, which every FEN is, behaves the same in both.
- The input buffer is `float` in the source and `int` 0/1 here. Every value written is the result of a comparison.
- The `pieces` vector (abbie.cpp:44-51) is the constant `InputEncoding.PIECES`. The outer loop's counter `i` is kept, and the loop runs over the constant's indices.

## Findings

| source | as written | input that shows it | evidently intended | confidence | as-written member | corrected member |
|---|---|---|---|---|---|---|
| abbie.cpp:21 | the split loop runs exactly six times, so a placement of eight ranks keeps `rank7/rank8` as its last row; the `'/'` is stored as a board cell and the 65th cell is written at `squares[64]`, past the end of the array | the starting position, `rnbqkbnr/pppppppp/8/8/8/8/PPPPPPPP/RNBQKBNR w KQkq - 0 1` | split at all seven slashes, giving eight rows and exactly 64 cells | high; not executed | `Abbie.StartPositionOverflows` | `Abbie.CorrectedFenFits` |
| abbie.cpp:23 | once no `'/'` is left, `find('/') + 1` wraps from npos to 0, so the remainder is not emptied but cut by one character per iteration and pushed again as further rows | `8/pp`, which splits into `8`, `pp`, `p` and four empty rows | stop splitting once no `'/'` is left | medium, only placements with fewer than six slashes reach it; not executed | `Abbie.ShortPlacementRepeats` | `Abbie.ShortPlacementFields` |
