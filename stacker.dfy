/** The game as the browser script runs it: a grid changed in place and the
    game variables beside it, each operation proved to perform the matching
    state change of `Rules`. */
module Stacker {
  import opened Rows
  import opened Rules

  /** The cells of row `i` of the grid. */
  function RowOf(g: array2<Cell>, i: int): (r: seq<Cell>)
    reads g
    requires 0 <= i < g.Length0
    ensures |r| == g.Length1 && forall j :: 0 <= j < g.Length1 ==> r[j] == g[i, j]
  {
    seq(g.Length1, j requires 0 <= j < g.Length1 reads g => g[i, j])
  }

  /** Every row of the grid other than `r` holds what it held before. */
  twostate predicate OtherRowsUnchanged(g: array2<Cell>, r: int)
    reads g
  {
    forall i, j :: 0 <= i < g.Length0 && i != r && 0 <= j < g.Length1 ==> g[i, j] == old(g[i, j])
  }

  /** `moveRight`: drop the last cell of row `r` and insert an empty cell in front, in place. */
  method MoveRight(g: array2<Cell>, r: int)
    requires 0 <= r < g.Length0 && g.Length1 > 0
    modifies g
    ensures RowOf(g, r) == ShiftedRight(old(RowOf(g, r)))
    ensures OtherRowsUnchanged(g, r)
  {
    var i := g.Length1 - 1;
    while i > 0
      invariant 0 <= i < g.Length1
      invariant forall j :: i < j < g.Length1 ==> g[r, j] == old(g[r, j - 1])
      invariant forall j :: 0 <= j <= i ==> g[r, j] == old(g[r, j])
      invariant OtherRowsUnchanged(g, r)
    {
      g[r, i] := g[r, i - 1];
      i := i - 1;
    }
    g[r, 0] := 0;
  }

  /** `moveLeft`: drop the first cell of row `r` and append an empty cell, in place. */
  method MoveLeft(g: array2<Cell>, r: int)
    requires 0 <= r < g.Length0 && g.Length1 > 0
    modifies g
    ensures RowOf(g, r) == ShiftedLeft(old(RowOf(g, r)))
    ensures OtherRowsUnchanged(g, r)
  {
    var i := 0;
    while i < g.Length1 - 1
      invariant 0 <= i <= g.Length1 - 1
      invariant forall j :: 0 <= j < i ==> g[r, j] == old(g[r, j + 1])
      invariant forall j :: i <= j < g.Length1 ==> g[r, j] == old(g[r, j])
      invariant OtherRowsUnchanged(g, r)
    {
      g[r, i] := g[r, i + 1];
      i := i + 1;
    }
    g[r, g.Length1 - 1] := 0;
  }

  /** The loop at the end of `onStack`: set the first `n` cells of row `r` to 1, in place. */
  method FillFront(g: array2<Cell>, r: int, n: int)
    requires 0 <= r < g.Length0 && 0 <= n <= g.Length1
    modifies g
    ensures RowOf(g, r) == Seeded(old(RowOf(g, r)), n)
    ensures OtherRowsUnchanged(g, r)
  {
    for i := 0 to n
      invariant OtherRowsUnchanged(g, r)
      invariant forall j :: 0 <= j < i ==> g[r, j] == 1
      invariant forall j :: i <= j < g.Length1 ==> g[r, j] == old(g[r, j])
    {
      g[r, i] := 1;
    }
  }

  class Game {
    /** The grid: `grid[i, j]` is column `j` of row `i`, row 0 at the top. */
    const grid: array2<Cell>
    var currentRowIndex: int
    var barDirection: Direction
    var barSize: int
    var isGameOver: bool
    /** Which of the two end-of-game notifications was sent. */
    var won: bool
    var score: int

    /** The cells of the grid, row by row. */
    ghost function Cells(): (c: seq<seq<Cell>>)
      reads grid
      ensures |c| == grid.Length0 && forall i :: 0 <= i < grid.Length0 ==> c[i] == RowOf(grid, i)
    {
      seq(grid.Length0, i requires 0 <= i < grid.Length0 reads grid => RowOf(grid, i))
    }

    /** The game state these fields represent. */
    ghost function View(): State
      reads this, grid
    {
      State(Cells(), currentRowIndex, barDirection, barSize, score, isGameOver, won)
    }

    /** The grid has its fixed shape and the active row index lies inside it. */
    ghost predicate Shaped()
      reads this
    {
      grid.Length0 == Height && grid.Length1 == Width && 0 <= currentRowIndex < Height
    }

    ghost predicate Valid()
      reads this, grid
    {
      Shaped() && Inv(View())
    }

    /** After a write confined to row `r`, the cells are the old ones with row `r` replaced. */
    twostate lemma CellsAfterRowWrite(r: int)
      requires 0 <= r < grid.Length0 && OtherRowsUnchanged(grid, r)
      ensures Cells() == old(Cells())[r := RowOf(grid, r)]
    {
      forall i | 0 <= i < grid.Length0 ensures Cells()[i] == old(Cells())[r := RowOf(grid, r)][i] {
        if i != r {
          assert RowOf(grid, i) == old(RowOf(grid, i));
        }
      }
    }

    /** The page-load state: seven blank rows above `[1, 1, 1, 0, 0, 0]`, the
        bottom row active, moving right, bar size 3, score 0. */
    constructor ()
      ensures Valid() && View() == Init()
      ensures fresh(grid)
    {
      grid := new Cell[Height, Width]((i, j) => if i == Height - 1 && j < InitialBarSize then 1 else 0);
      currentRowIndex := Height - 1;
      barDirection := Right;
      barSize := InitialBarSize;
      isGameOver := false;
      won := false;
      score := 0;
      new;
      forall i | 0 <= i < Height ensures Cells()[i] == Init().grid[i] {
        assert Cells()[i] == RowOf(grid, i);
      }
      assert Cells() == Init().grid;
      InitInv();
    }

    /** `moveBar`, one tick of the game loop. The loop is stopped when the game
        ends, so a tick only happens while the game runs. */
    method MoveBar()
      requires Valid() && !isGameOver
      modifies this, grid
      ensures Valid()
      ensures View() == AfterMoveBar(old(View()))
    {
      ghost var before := View();
      if barDirection == Right {
        MoveRight(grid, currentRowIndex);
        if IsRightEdge(RowOf(grid, currentRowIndex)) {
          barDirection := Left;
        }
      } else {
        MoveLeft(grid, currentRowIndex);
        if IsLeftEdge(RowOf(grid, currentRowIndex)) {
          barDirection := Right;
        }
      }
      CellsAfterRowWrite(currentRowIndex);
      MoveBarInv(before);
    }

    /** `updateScore`, without the display: add the bar size to the score. */
    method UpdateScore()
      modifies this`score
      ensures score == old(score) + barSize
    {
      score := score + barSize;
    }

    /** `checkWin`: on row 0 of a running game, score the last stack and end the game as a win. */
    method CheckWin()
      requires Shaped()
      modifies this
      ensures Shaped()
      ensures View() == AfterCheckWin(old(View()))
    {
      if currentRowIndex == 0 && !isGameOver {
        UpdateScore();
        isGameOver := true;
        won := true;
      }
    }

    /** `checkLost`: clear the active row's cells that have no filled cell below,
        one column at a time, and end the game as a loss when the bar size drops to 0. */
    method CheckLost()
      requires Shaped()
      modifies this, grid
      ensures Shaped()
      ensures View() == AfterCheckLost(old(View()))
    {
      var r := currentRowIndex;
      if r + 1 >= grid.Length0 {
        return;
      }
      ghost var cur, below := RowOf(grid, r), RowOf(grid, r + 1);
      ghost var size0, over0 := barSize, isGameOver;
      for i := 0 to grid.Length1
        modifies grid, this`barSize, this`isGameOver
        invariant OtherRowsUnchanged(grid, r)
        invariant forall j :: 0 <= j < i ==> grid[r, j] == (if cur[j] == 1 && below[j] == 0 then 0 else cur[j])
        invariant forall j :: i <= j < grid.Length1 ==> grid[r, j] == cur[j]
        invariant barSize == size0 - Overhang(cur[..i], below[..i])
        invariant isGameOver == (over0 || 1 <= size0 <= Overhang(cur[..i], below[..i]))
      {
        OverhangPrefix(cur, below, i);
        if grid[r, i] == 1 && grid[r + 1, i] == 0 {
          grid[r, i] := 0;
          barSize := barSize - 1;
          if barSize == 0 {
            isGameOver := true;
          }
        }
      }
      assert cur[..Width] == cur && below[..Width] == below;
      assert RowOf(grid, r) == Trimmed(cur, below);
      CellsAfterRowWrite(r);
    }

    /** `onStack`, the player's stack action: the loss and win checks; then, if
        the game goes on, score the bar, move up one row and fill its first
        `barSize` cells. */
    method OnStack()
      requires Valid()
      modifies this, grid
      ensures Valid()
      ensures View() == AfterStack(old(View()))
    {
      ghost var before := View();
      ghost var after := AfterStack(before);
      StackInv(before);
      CheckLost();
      CheckWin();
      ghost var checked := View();
      assert checked == AfterCheckWin(AfterCheckLost(before));
      if isGameOver {
        assert after == checked;
        return;
      }
      assert 0 < currentRowIndex;
      UpdateScore();
      currentRowIndex := currentRowIndex - 1;
      barDirection := Right;
      assert after == checked.(score := score, row := currentRowIndex, direction := Right,
        grid := checked.grid[currentRowIndex := Seeded(checked.grid[currentRowIndex], barSize)]);
      assert 0 <= barSize <= Width;
      label seeding:
      FillFront(grid, currentRowIndex, barSize);
      CellsAfterRowWrite@seeding(currentRowIndex);
      assert Cells() == after.grid;
    }
  }
}
