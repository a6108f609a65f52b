/**
 * The board of one session and the outcome evaluator of index.js:
 * the eight winning lines, `checkWinner`, the draw test and the in-place
 * write `board[index - 1] = xo` with JavaScript array semantics.
 */
module Board {
  import opened Wrappers

  /** One slot of the board array: a hole (a slot of a grown array that was
      never written, read as `undefined`) or a number. */
  datatype Cell = Hole | Val(n: int)

  /** An empty cell holds -1. */
  const Empty: Cell := Val(-1)

  /** A JavaScript array has at most 2^32 - 1 elements; an assignment at an
      integer index outside [0, MaxArrayLength) sets an ordinary property and
      leaves the elements alone. */
  const MaxArrayLength: int := 0xFFFF_FFFF

  /** The board stored when two players are paired: `Array(9).fill(-1)`. */
  function NewBoard(): (b: seq<Cell>)
    ensures |b| == 9 && forall i | 0 <= i < |b| :: b[i] == Empty
  {
    seq(9, _ => Empty)
  }

  /** The boards the server can hold: at least nine slots, and none of the
      first nine is a hole. */
  ghost predicate ValidBoard(b: seq<Cell>)
  {
    |b| >= 9 && forall i | 0 <= i < 9 :: b[i].Val?
  }

  /** `board[i]`: reading past the end gives `undefined`, like a hole. */
  function At(board: seq<Cell>, i: int): Cell
  {
    if 0 <= i < |board| then board[i] else Hole
  }

  /** `board[i] = x` for an integer index `i`. */
  function Write(board: seq<Cell>, i: int, x: int): (r: seq<Cell>)
    ensures 0 <= i < MaxArrayLength ==>
      |r| == (if i < |board| then |board| else i + 1) && r[i] == Val(x)
    ensures 0 <= i < MaxArrayLength ==>
      forall j | 0 <= j < |board| && j != i :: r[j] == board[j]
    ensures 0 <= i < MaxArrayLength ==> forall j | |board| <= j < i :: r[j] == Hole
    ensures !(0 <= i < MaxArrayLength) ==> r == board
    ensures ValidBoard(board) ==> ValidBoard(r)
  {
    if !(0 <= i < MaxArrayLength) then board
    else if i < |board| then board[i := Val(x)]
    else board + seq(i - |board|, _ => Hole) + [Val(x)]
  }

  /** One of the eight winning combinations. */
  datatype Line = Line(a: nat, b: nat, c: nat)

  /** `winningCombinations`, in the order `checkWinner` scans them. */
  const Lines: seq<Line> := [
    Line(0, 1, 2), Line(3, 4, 5), Line(6, 7, 8),  // rows
    Line(0, 3, 6), Line(1, 4, 7), Line(2, 5, 8),  // columns
    Line(0, 4, 8), Line(2, 4, 6)                  // diagonals
  ]

  /** The three cells of `l` hold the same mark, and it is not the empty one. */
  predicate Uniform(board: seq<Cell>, l: Line)
  {
    At(board, l.a) != Empty && At(board, l.a) == At(board, l.b) && At(board, l.a) == At(board, l.c)
  }

  /** The index of the first uniform line at or after `i`, or |Lines| if none. */
  function FirstLine(board: seq<Cell>, i: nat): (r: nat)
    requires i <= |Lines|
    ensures i <= r <= |Lines|
    ensures r < |Lines| ==> Uniform(board, Lines[r])
    ensures forall m | i <= m < r :: !Uniform(board, Lines[m])
    decreases |Lines| - i
  {
    if i == |Lines| then i
    else if Uniform(board, Lines[i]) then i
    else FirstLine(board, i + 1)
  }

  /** The result of `checkWinner`: the mark on the first uniform line, or
      `None` for `null`. */
  function Winner(board: seq<Cell>): (w: Option<Cell>)
    ensures w.None? <==> forall j | 0 <= j < |Lines| :: !Uniform(board, Lines[j])
    ensures w.Some? ==> w.value != Empty
  {
    var r := FirstLine(board, 0);
    if r < |Lines| then Some(At(board, Lines[r].a)) else None
  }

  /** A winner is always the mark on some uniform line, and on the first one
      in scan order. */
  lemma WinnerIsFirstUniformLine(board: seq<Cell>)
    requires Winner(board).Some?
    ensures exists j | 0 <= j < |Lines| ::
      Uniform(board, Lines[j]) && Winner(board).value == At(board, Lines[j].a) &&
      forall m | 0 <= m < j :: !Uniform(board, Lines[m])
  {
  }

  /** Conversely, the first uniform line decides the winner. */
  lemma FirstUniformLineWins(board: seq<Cell>, j: nat)
    requires j < |Lines| && Uniform(board, Lines[j])
    requires forall m | 0 <= m < j :: !Uniform(board, Lines[m])
    ensures Winner(board) == Some(At(board, Lines[j].a))
  {
  }

  /** `checkWinner`: scans the lines in order and returns on the first
      uniform one. */
  method CheckWinner(board: seq<Cell>) returns (w: Option<Cell>)
    ensures w == Winner(board)
  {
    for i := 0 to |Lines|
      invariant forall m | 0 <= m < i :: !Uniform(board, Lines[m])
    {
      var l := Lines[i];
      if At(board, l.a) != Empty && At(board, l.a) == At(board, l.b) && At(board, l.a) == At(board, l.c) {
        FirstUniformLineWins(board, i);
        return Some(At(board, l.a));
      }
    }
    return None;
  }

  /** `board.every(cell => cell !== -1)`: `every` skips holes, and a hole is
      not -1 either, so the test reads every slot. */
  predicate IsFull(board: seq<Cell>)
  {
    forall i | 0 <= i < |board| :: board[i] != Empty
  }

  /** A winner read from a server board is a number other than -1. */
  lemma WinnerOnValidBoard(board: seq<Cell>)
    requires ValidBoard(board) && Winner(board).Some?
    ensures Winner(board).value.Val? && Winner(board).value.n != -1
  {
  }
}
