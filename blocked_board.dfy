/**
 * The blocked-cell generator: an n x n grid of '.' in which a number of
 * distinct cells, drawn at random, are marked 'X'.  The number asked for is
 * checked against a limit first; the default number is not.
 *
 * The fractions of the board (`percentual_max`, default 0.2, and the default
 * share 0.07) are integer percents here, rounded down as `int()` rounds a
 * non-negative float.  The random cells are the parameter `draws`: the cells
 * `random.randint` would produce, in order.
 */
module BlockedBoard {
  import opened Chromosome

  datatype Option<T> = None | Some(value: T)

  datatype Result<T, E> = Success(value: T) | Failure(error: E)

  /** The `ValueError` raised when more blocked cells are asked for than allowed. */
  datatype BoardError = TooManyBlocked(requested: int, maximum: int, n: int)

  /** The default `percentual_max`, 20 percent of the cells. */
  const DefaultMaxPercent: nat := 20

  /** The share of the cells blocked when no number is given, 7 percent. */
  const DefaultPercent: nat := 7

  /** A generated board: the grid and the set of its blocked cells. */
  datatype Board = Board(grid: array2<char>, blocked: set<Cell>)

  /** `max_bloqueios`: at most n * n - n cells, and at most `maxPercent` percent of the board. */
  function MaxBlocked(n: nat, maxPercent: nat): (limit: int)
    ensures limit <= n * n - n && limit <= maxPercent * (n * n) / 100
    ensures limit == n * n - n || limit == maxPercent * (n * n) / 100
  {
    if n * n - n <= maxPercent * (n * n) / 100 then n * n - n else maxPercent * (n * n) / 100
  }

  /**
   * The number of cells to block: the default share when none is given,
   * otherwise the number given, refused when it exceeds the limit.
   */
  function BlockedTarget(n: nat, requested: Option<int>, maxPercent: nat): (target: Result<int, BoardError>)
    ensures target.Failure? <==> requested.Some? && requested.value > MaxBlocked(n, maxPercent)
    ensures target.Failure? ==> target.error == TooManyBlocked(requested.value, MaxBlocked(n, maxPercent), n)
    ensures requested.Some? && target.Success? ==> target.value == requested.value
    ensures requested.None? ==> target == Success(DefaultPercent * (n * n) / 100)
  {
    match requested
    case None => Success(DefaultPercent * (n * n) / 100)
    case Some(k) =>
      if k > MaxBlocked(n, maxPercent) then Failure(TooManyBlocked(k, MaxBlocked(n, maxPercent), n))
      else Success(k)
  }

  /** On a 4 x 4 board at most min(12, 3) = 3 cells may be blocked, so asking for 100 fails. */
  lemma TooManyOnFourByFour()
    ensures MaxBlocked(4, DefaultMaxPercent) == 3
    ensures BlockedTarget(4, Some(100), DefaultMaxPercent) == Failure(TooManyBlocked(100, 3, 4))
  {
  }

  /** The default number escapes the limit check: with a limit of 0 percent, a 4 x 4 board still gets one blocked cell. */
  lemma DefaultIsNotChecked()
    ensures BlockedTarget(4, None, 0) == Success(1)
    ensures 1 > MaxBlocked(4, 0)
  {
  }

  /** For any limit of at least 7 percent, the default number is within the limit. */
  lemma DefaultWithinLimit(n: nat, maxPercent: nat)
    requires maxPercent >= DefaultPercent
    ensures DefaultPercent * (n * n) / 100 <= MaxBlocked(n, maxPercent)
  {
    var cells := n * n;
    ScaleIsMonotone(DefaultPercent, maxPercent, cells);
    PercentIsMonotone(DefaultPercent * cells, maxPercent * cells);
    if n >= 2 {
      ScaleIsMonotone(2, n, n);
      PercentIsMonotone(DefaultPercent * cells, 100 * (cells - n));
    }
  }

  lemma ScaleIsMonotone(a: nat, b: nat, c: nat)
    requires a <= b
    ensures a * c <= b * c
  {
  }

  lemma PercentIsMonotone(a: int, b: int)
    requires a <= b
    ensures a / 100 <= b / 100
  {
  }

  /** Whatever number is accepted, defaulted or given, at least n cells stay free when the limit is at least 7 percent. */
  lemma TargetLeavesFreeCells(n: nat, requested: Option<int>, maxPercent: nat)
    requires maxPercent >= DefaultPercent
    requires BlockedTarget(n, requested, maxPercent).Success?
    ensures BlockedTarget(n, requested, maxPercent).value <= n * n - n
  {
    if requested.None? {
      DefaultWithinLimit(n, maxPercent);
    }
  }

  /** The distinct cells among the first t draws. */
  function CellsOf(draws: seq<Cell>, t: nat): set<Cell>
    requires t <= |draws|
  {
    set u | 0 <= u < t :: draws[u]
  }

  lemma CellsOfStep(draws: seq<Cell>, t: nat)
    requires t < |draws|
    ensures CellsOf(draws, t + 1) == CellsOf(draws, t) + {draws[t]}
  {
    assert forall c :: c in CellsOf(draws, t + 1) <==> c in CellsOf(draws, t) + {draws[t]} by {
      forall c
        ensures c in CellsOf(draws, t + 1) <==> c in CellsOf(draws, t) + {draws[t]}
      {
        if c in CellsOf(draws, t + 1) {
          var u :| 0 <= u < t + 1 && draws[u] == c;
          assert u < t || c == draws[t];
        }
      }
    }
  }

  /** The draws hold at least `target` distinct cells, so the drawing loop ends. */
  ghost predicate EnoughCells(draws: seq<Cell>, target: int) {
    |CellsOf(draws, |draws|)| >= target
  }

  /** While fewer than `target` distinct cells are blocked, a draw is left. */
  lemma DrawsRemain(draws: seq<Cell>, used: nat, target: int)
    requires EnoughCells(draws, target) && used <= |draws| && |CellsOf(draws, used)| < target
    ensures used < |draws|
  {
  }

  /** `gerar_tabuleiro_com_bloqueios_melhorado`: check the number, then draw cells until that many distinct cells are blocked. */
  method GenerateBlockedBoard(n: nat, requested: Option<int>, maxPercent: nat, draws: seq<Cell>)
    returns (result: Result<Board, BoardError>, used: nat)
    requires forall t :: 0 <= t < |draws| ==> InBoard(draws[t], n)
    requires BlockedTarget(n, requested, maxPercent).Success? ==> EnoughCells(draws, BlockedTarget(n, requested, maxPercent).value)
    ensures result.Failure? <==> BlockedTarget(n, requested, maxPercent).Failure?
    ensures result.Failure? ==> result.error == BlockedTarget(n, requested, maxPercent).error && used == 0
    ensures result.Success? ==> FilledFrom(result.value, n, BlockedTarget(n, requested, maxPercent).value, draws, used)
    ensures result.Success? ==> fresh(result.value.grid)
  {
    var checked := BlockedTarget(n, requested, maxPercent);
    if checked.Failure? {
      return Failure(checked.error), 0;
    }
    var grid, blocked;
    grid, blocked, used := FillBoard(n, checked.value, draws);
    result := Success(Board(grid, blocked));
  }

  /**
   * The board after the drawing loop: the blocked cells are those of the
   * first `used` draws, there are `target` of them (none for a negative
   * target), the loop stopped at the first draw that reached that number,
   * and the n x n grid marks exactly those cells.
   */
  ghost predicate FilledFrom(board: Board, n: nat, target: int, draws: seq<Cell>, used: nat)
    reads board.grid
  {
    used <= |draws| && board.blocked == CellsOf(draws, used)
    && |board.blocked| == (if target < 0 then 0 else target)
    && (used == 0 || |CellsOf(draws, used - 1)| < target)
    && (forall c :: c in board.blocked ==> InBoard(c, n))
    && board.grid.Length0 == n && board.grid.Length1 == n && Marks(board.grid, board.blocked)
  }

  /** The `while len(bloqueios) < num_bloqueios` loop, on a fresh grid of '.'. */
  method FillBoard(n: nat, target: int, draws: seq<Cell>) returns (grid: array2<char>, blocked: set<Cell>, used: nat)
    requires forall t :: 0 <= t < |draws| ==> InBoard(draws[t], n)
    requires EnoughCells(draws, target)
    ensures fresh(grid) && FilledFrom(Board(grid, blocked), n, target, draws, used)
  {
    grid := new char[n, n]((i, j) => '.');
    blocked := {};
    used := 0;
    ghost var before: set<Cell> := {};
    while |blocked| < target
      invariant used <= |draws| && blocked == CellsOf(draws, used)
      invariant |blocked| <= (if target < 0 then 0 else target)
      invariant used == 0 || (before == CellsOf(draws, used - 1) && |before| < target)
      invariant forall c :: c in blocked ==> InBoard(c, n)
      invariant Marks(grid, blocked)
      decreases |draws| - used
    {
      DrawsRemain(draws, used, target);
      before := blocked;
      blocked := BlockCell(grid, blocked, draws[used]);
      CellsOfStep(draws, used);
      used := used + 1;
    }
  }

  /** The grid shows 'X' exactly on the blocked cells and '.' everywhere else. */
  ghost predicate Marks(grid: array2<char>, blocked: set<Cell>)
    reads grid
  {
    forall i, j :: 0 <= i < grid.Length0 && 0 <= j < grid.Length1 ==> grid[i, j] == if (i, j) in blocked then 'X' else '.'
  }

  /** One draw `(i, j)`: block the cell unless it is blocked already. */
  method BlockCell(grid: array2<char>, blocked: set<Cell>, c: Cell) returns (blocked': set<Cell>)
    requires InBoard(c, grid.Length0) && grid.Length0 == grid.Length1
    requires Marks(grid, blocked)
    modifies grid
    ensures Marks(grid, blocked')
    ensures blocked' == blocked + {c}
    ensures |blocked'| == if c in blocked then |blocked| else |blocked| + 1
    ensures forall i, j :: 0 <= i < grid.Length0 && 0 <= j < grid.Length1 ==>
              grid[i, j] == if (i, j) == c && c !in blocked then 'X' else old(grid[i, j])
  {
    var (i, j) := c;
    blocked' := blocked;
    if (i, j) !in blocked {
      grid[i, j] := 'X';
      blocked' := blocked + {(i, j)};
    }
  }
}
