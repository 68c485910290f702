/** The fixed sizes of the board and of the network input. */
module Dimensions {
  /** Six piece kinds in two colours: one input plane each. */
  const NUM_PIECES: nat := 12
  const NUM_ROWS: nat := 8
  const NUM_COLS: nat := 8
  const NUM_SQUARES: nat := NUM_ROWS * NUM_COLS
  /** Length of the network input: one 64-square plane per piece. */
  const INPUT_SIZE: nat := NUM_PIECES * NUM_SQUARES
}
