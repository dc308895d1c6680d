/**
 * The final board: the blocked cells marked 'X', then one queen per row of
 * the chromosome, marked 'R' on a free cell and '!' on a blocked one (the
 * cells the fitness penalises).
 */
module FullBoard {
  import opened Chromosome
  import opened Scoring

  /**
   * The mark of cell (i, j) once the queens of rows [0, |queens|) are placed:
   * 'X' or '!' exactly on the blocked cells, 'R' or '!' exactly where a row
   * has its queen, '.' where there is neither.
   */
  function BoardMark(queens: seq<int>, blocked: set<Cell>, i: int, j: int): (mark: char)
    ensures mark in {'X', '!'} <==> (i, j) in blocked
    ensures IsQueenMark(mark) <==> 0 <= i < |queens| && queens[i] == j
    ensures mark == '.' <==> (i, j) !in blocked && !(0 <= i < |queens| && queens[i] == j)
  {
    if 0 <= i < |queens| && queens[i] == j then
      (if (i, j) in blocked then '!' else 'R')
    else if (i, j) in blocked then 'X'
    else '.'
  }

  predicate IsQueenMark(mark: char) {
    mark == 'R' || mark == '!'
  }

  /** The columns of row i that show a queen. */
  function QueenColumns(queens: seq<int>, blocked: set<Cell>, n: nat, i: int): set<int> {
    set j | 0 <= j < n && IsQueenMark(BoardMark(queens, blocked, i, j))
  }

  /** With a queen for each of the n rows, every row shows exactly one queen. */
  lemma OneQueenPerRow(queens: seq<int>, blocked: set<Cell>, n: nat, i: int)
    requires |queens| == n && InRange(queens, n) && 0 <= i < n
    ensures QueenColumns(queens, blocked, n, i) == {queens[i]}
    ensures |QueenColumns(queens, blocked, n, i)| == 1
  {
    assert queens[i] in QueenColumns(queens, blocked, n, i);
  }

  /** The cells of the n x n board that show '!'. */
  function PenaltyMarks(queens: seq<int>, blocked: set<Cell>, n: nat): set<Cell> {
    set i, j | 0 <= i < n && 0 <= j < n && BoardMark(queens, blocked, i, j) == '!' :: (i, j)
  }

  /** The queens of rows [0, m) that stand on a blocked cell. */
  function QueensOnBlocks(queens: seq<int>, blocked: set<Cell>, m: nat): set<Cell>
    requires m <= |queens|
  {
    set i | 0 <= i < m && (i, queens[i]) in blocked :: (i, queens[i])
  }

  lemma {:induction false} QueensOnBlocksCount(queens: seq<int>, blocked: set<Cell>, m: nat)
    requires m <= |queens|
    ensures |QueensOnBlocks(queens, blocked, m)| == BlockedRows(queens, m, blocked)
  {
    if m > 0 {
      QueensOnBlocksCount(queens, blocked, m - 1);
      var last := (m - 1, queens[m - 1]);
      var before := QueensOnBlocks(queens, blocked, m - 1);
      assert last !in before;
      if last in blocked {
        assert QueensOnBlocks(queens, blocked, m) == before + {last};
      } else {
        assert QueensOnBlocks(queens, blocked, m) == before;
      }
    }
  }

  /** The board shows as many '!' as there are queens the fitness charges the block penalty for. */
  lemma PenaltyMarksCount(queens: seq<int>, blocked: set<Cell>, n: nat)
    requires |queens| <= n && InRange(queens, n)
    ensures |PenaltyMarks(queens, blocked, n)| == BlockedRows(queens, |queens|, blocked)
  {
    assert PenaltyMarks(queens, blocked, n) == QueensOnBlocks(queens, blocked, |queens|);
    QueensOnBlocksCount(queens, blocked, |queens|);
  }

  /** The blocked cells named in `cells`. */
  function Blocks(cells: seq<Cell>): set<Cell> {
    set t | 0 <= t < |cells| :: cells[t]
  }

  /** `construir_tabuleiro_completo(n, bloqueios, rainhas)`. */
  method BuildFullBoard(n: nat, blocked: seq<Cell>, queens: seq<int>) returns (board: array2<char>)
    requires forall t :: 0 <= t < |blocked| ==> InBoard(blocked[t], n)
    requires |queens| <= n && InRange(queens, n)
    ensures fresh(board) && board.Length0 == n && board.Length1 == n
    ensures forall i, j :: 0 <= i < n && 0 <= j < n ==> board[i, j] == BoardMark(queens, Blocks(blocked), i, j)
  {
    board := new char[n, n]((i, j) => '.');
    MarkBlocks(board, blocked);
    PlaceQueens(board, Blocks(blocked), queens);
  }

  /** `for (i, j) in bloqueios: tabuleiro[i][j] = 'X'`, on a grid of '.'. */
  method MarkBlocks(board: array2<char>, blocked: seq<Cell>)
    requires board.Length0 == board.Length1
    requires forall t :: 0 <= t < |blocked| ==> InBoard(blocked[t], board.Length0)
    requires forall i, j :: 0 <= i < board.Length0 && 0 <= j < board.Length1 ==> board[i, j] == '.'
    modifies board
    ensures forall i, j :: 0 <= i < board.Length0 && 0 <= j < board.Length1 ==>
              board[i, j] == BoardMark([], Blocks(blocked), i, j)
  {
    for t := 0 to |blocked|
      invariant forall i, j :: 0 <= i < board.Length0 && 0 <= j < board.Length1 ==>
                  board[i, j] == if (i, j) in Blocks(blocked[..t]) then 'X' else '.'
    {
      var (i, j) := blocked[t];
      board[i, j] := 'X';
      assert Blocks(blocked[..t + 1]) == Blocks(blocked[..t]) + {(i, j)} by {
        assert blocked[..t + 1] == blocked[..t] + [(i, j)];
      }
    }
    assert blocked[..|blocked|] == blocked;
  }

  /** `for i, j in enumerate(rainhas)`: '!' over an 'X', 'R' elsewhere. */
  method PlaceQueens(board: array2<char>, blocked: set<Cell>, queens: seq<int>)
    requires board.Length0 == board.Length1 && |queens| <= board.Length0 && InRange(queens, board.Length0)
    requires forall i, j :: 0 <= i < board.Length0 && 0 <= j < board.Length1 ==>
               board[i, j] == BoardMark([], blocked, i, j)
    modifies board
    ensures forall i, j :: 0 <= i < board.Length0 && 0 <= j < board.Length1 ==>
              board[i, j] == BoardMark(queens, blocked, i, j)
  {
    for row := 0 to |queens|
      invariant forall i, j :: 0 <= i < board.Length0 && 0 <= j < board.Length1 ==>
                  board[i, j] == BoardMark(queens[..row], blocked, i, j)
    {
      var col := queens[row];
      if board[row, col] == 'X' {
        board[row, col] := '!';
      } else {
        board[row, col] := 'R';
      }
    }
    assert queens[..|queens|] == queens;
  }
}
