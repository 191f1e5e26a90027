/** The game's state machine as values: one function per state change of the
    game, the invariant every reachable state keeps, and what each change promises. */
module Rules {
  import opened Rows

  /** Rows of the grid; row 0 is the top, row `Height - 1` the bottom. */
  const Height: nat := 8
  /** Columns of every row. */
  const Width: nat := 6
  /** Width of the bar at the start of the game. */
  const InitialBarSize: nat := 3

  datatype Direction = Left | Right

  /** The module-level game state: the grid and the five variables beside it,
      with `won` recording which end-of-game notification was sent. */
  datatype State = State(
    grid: seq<seq<Cell>>,
    row: int,
    direction: Direction,
    barSize: int,
    score: int,
    isGameOver: bool,
    won: bool)

  /** The grid has its fixed shape and the active row index is inside it. */
  predicate WellFormed(g: State)
  {
    |g.grid| == Height &&
    (forall i :: 0 <= i < Height ==> |g.grid[i]| == Width) &&
    0 <= g.row < Height
  }

  /** The state at page load: seven blank rows above a bottom row holding a
      bar of three cells against the left edge, moving right. */
  function Init(): (g: State)
    ensures WellFormed(g)
    ensures g.row == Height - 1 && g.grid[Height - 1] == BarAt(0, InitialBarSize, Width)
    ensures forall i :: 0 <= i < Height - 1 ==> g.grid[i] == Blank(Width)
  {
    var blank := Blank(Width);
    State([blank, blank, blank, blank, blank, blank, blank, BarAt(0, InitialBarSize, Width)],
          Height - 1, Right, InitialBarSize, 0, false, false)
  }

  // ---------------------------------------------------------------------------
  // The state changes
  // ---------------------------------------------------------------------------

  /** One tick of the game loop: shift the active row one cell in the bar's
      direction, then turn around if the shifted row touches that edge. */
  function AfterMoveBar(g: State): (r: State)
    requires WellFormed(g)
    ensures WellFormed(r)
    ensures r.(grid := g.grid, direction := g.direction) == g
    ensures forall i :: 0 <= i < Height && i != g.row ==> r.grid[i] == g.grid[i]
    ensures r.grid[g.row] == (if g.direction == Right then ShiftedRight(g.grid[g.row])
                                                     else ShiftedLeft(g.grid[g.row]))
    ensures r.direction != g.direction <==>
      (if g.direction == Right then IsRightEdge(r.grid[g.row]) else IsLeftEdge(r.grid[g.row]))
  {
    var cur := g.grid[g.row];
    match g.direction
    case Right =>
      var moved := ShiftedRight(cur);
      g.(grid := g.grid[g.row := moved], direction := if IsRightEdge(moved) then Left else Right)
    case Left =>
      var moved := ShiftedLeft(cur);
      g.(grid := g.grid[g.row := moved], direction := if IsLeftEdge(moved) then Right else Left)
  }

  /** The loss check: on every row but the bottom one, clear the active row's
      overhanging cells, shrink the bar by their number, and end the game when
      the bar size passes through 0 on the way down. */
  function AfterCheckLost(g: State): (r: State)
    requires WellFormed(g)
    ensures WellFormed(r)
    ensures r.(grid := g.grid, barSize := g.barSize, isGameOver := g.isGameOver) == g
    ensures forall i :: 0 <= i < Height && i != g.row ==> r.grid[i] == g.grid[i]
    ensures r.barSize <= g.barSize
    ensures g.isGameOver ==> r.isGameOver
  {
    if g.row + 1 >= Height then g
    else
      var cur, below := g.grid[g.row], g.grid[g.row + 1];
      var k := Overhang(cur, below);
      g.(grid := g.grid[g.row := Trimmed(cur, below)],
         barSize := g.barSize - k,
         isGameOver := g.isGameOver || 1 <= g.barSize <= k)
  }

  /** The win check: reaching row 0 in a running game scores the bar and ends the game as a win. */
  function AfterCheckWin(g: State): (r: State)
    requires WellFormed(g)
    ensures WellFormed(r)
    ensures r != g <==> g.row == 0 && !g.isGameOver
    ensures r != g ==> r == g.(score := g.score + g.barSize, isGameOver := true, won := true)
  {
    if g.row == 0 && !g.isGameOver then
      g.(score := g.score + g.barSize, isGameOver := true, won := true)
    else g
  }

  /** The player's stack action: the loss check, the win check, and when the game
      goes on, score the bar, move up one row, and start a bar of the surviving
      width against the left edge there, moving right. */
  function AfterStack(g: State): (r: State)
    requires WellFormed(g)
    ensures WellFormed(r)
    ensures r.row == (if r.isGameOver then g.row else g.row - 1)
    ensures !r.isGameOver ==> r.direction == Right && r.won == g.won
    ensures g.isGameOver ==> r.isGameOver
    ensures forall i :: 0 <= i < Height && i != g.row && i != g.row - 1 ==> r.grid[i] == g.grid[i]
  {
    var a := AfterCheckWin(AfterCheckLost(g));
    if a.isGameOver then a
    else
      var up := a.row - 1;
      a.(score := a.score + a.barSize,
         row := up,
         direction := Right,
         grid := a.grid[up := Seeded(a.grid[up], a.barSize)])
  }

  // ---------------------------------------------------------------------------
  // The invariant of reachable states
  // ---------------------------------------------------------------------------

  /** Row `r` holds a bar of `n` cells that has not yet reached the edge it is
      moving toward. */
  ghost predicate Sweeping(r: seq<Cell>, n: int, d: Direction)
  {
    exists start :: 0 <= start && start + n <= Width && r == BarAt(start, n, Width) &&
      (d == Right ==> start + n < Width) && (d == Left ==> 0 < start)
  }

  /** What holds of every state the game can reach:
      - the bar never grows past its initial width and the score is never negative;
      - every row above the active one is still blank;
      - while running, the active row is exactly a bar of `barSize` cells, at least one;
      - after a loss the bar is gone and the active row blank;
      - after a win the game is on row 0 and every filled cell there is supported. */
  ghost predicate Inv(g: State)
  {
    WellFormed(g) &&
    0 <= g.barSize <= InitialBarSize && 0 <= g.score &&
    (forall i :: 0 <= i < g.row ==> g.grid[i] == Blank(Width)) &&
    (!g.isGameOver ==> !g.won && 1 <= g.barSize && Sweeping(g.grid[g.row], g.barSize, g.direction)) &&
    (g.isGameOver && !g.won ==> g.barSize == 0 && g.grid[g.row] == Blank(Width)) &&
    (g.isGameOver && g.won ==> g.row == 0 && 1 <= g.barSize && Supported(g.grid[0], g.grid[1]))
  }

  lemma InitInv()
    ensures Inv(Init())
    ensures !Init().isGameOver && Init().score == 0
  {
    var g := Init();
    assert g.grid[g.row] == BarAt(0, InitialBarSize, Width);
  }

  /** While running, the active row holds exactly `barSize` filled cells. */
  lemma RunningBarCount(g: State)
    requires Inv(g) && !g.isGameOver
    ensures Count(g.grid[g.row]) == g.barSize
  {
    var start :| 0 <= start && start + g.barSize <= Width && g.grid[g.row] == BarAt(start, g.barSize, Width);
    BarCount(start, g.barSize, Width);
  }

  /** A tick keeps the invariant: the bar bounces at the edges and never loses a cell. */
  lemma MoveBarInv(g: State)
    requires Inv(g) && !g.isGameOver
    ensures Inv(AfterMoveBar(g))
    ensures Count(AfterMoveBar(g).grid[g.row]) == g.barSize
  {
    var r := AfterMoveBar(g);
    var n := g.barSize;
    var start :| 0 <= start && start + n <= Width && g.grid[g.row] == BarAt(start, n, Width) &&
      (g.direction == Right ==> start + n < Width) && (g.direction == Left ==> 0 < start);
    var s' := if g.direction == Right then start + 1 else start - 1;
    if g.direction == Right {
      ShiftRightBar(start, n, Width);
    } else {
      ShiftLeftBar(start, n, Width);
    }
    BarEdges(s', n, Width);
    assert r.grid[g.row] == BarAt(s', n, Width);
    assert Sweeping(r.grid[g.row], n, r.direction);
    BarCount(s', n, Width);
  }

  /** A tick whose bar is not on the edge it heads toward keeps the number of
      filled cells of the active row. */
  lemma MoveBarKeepsCount(g: State)
    requires WellFormed(g)
    requires g.direction == Right ==> g.grid[g.row][Width - 1] == 0
    requires g.direction == Left ==> g.grid[g.row][0] == 0
    ensures |AfterMoveBar(g).grid[g.row]| == Width
    ensures Count(AfterMoveBar(g).grid[g.row]) == Count(g.grid[g.row])
  {
    if g.direction == Right {
      ShiftRightCount(g.grid[g.row]);
    } else {
      ShiftLeftCount(g.grid[g.row]);
    }
  }

  /** The loss check does nothing on the bottom row; elsewhere it clears exactly
      the overhanging cells of the active row, shrinks the bar by their number
      (so never grows it, and keeps it when every cell is supported) and
      touches nothing else. */
  lemma CheckLostSpec(g: State)
    requires WellFormed(g)
    ensures g.row == Height - 1 ==> AfterCheckLost(g) == g
    ensures g.row < Height - 1 ==>
      var r, cur, below := AfterCheckLost(g), g.grid[g.row], g.grid[g.row + 1];
      && (forall j :: 0 <= j < Width ==>
            (r.grid[g.row][j] != cur[j] <==> cur[j] == 1 && below[j] == 0))
      && r.barSize == g.barSize - Overhang(cur, below)
      && r.barSize <= g.barSize
      && (r.barSize == g.barSize <==> Supported(cur, below))
      && Count(r.grid[g.row]) == Count(cur) - (g.barSize - r.barSize)
      && (forall i :: 0 <= i < Height && i != g.row ==> r.grid[i] == g.grid[i])
      && r.(grid := g.grid, barSize := g.barSize, isGameOver := g.isGameOver) == g
  {
    if g.row < Height - 1 {
      OverhangZeroIffSupported(g.grid[g.row], g.grid[g.row + 1]);
      TrimCount(g.grid[g.row], g.grid[g.row + 1]);
    }
  }

  /** Once the game is over, a stack action changes nothing at all. */
  lemma StackWhenOverIsIdentity(g: State)
    requires Inv(g) && g.isGameOver
    ensures AfterStack(g) == g
  {
    if g.row + 1 < Height {
      var cur, below := g.grid[g.row], g.grid[g.row + 1];
      if g.won {
        OverhangZeroIffSupported(cur, below);
      } else {
        CountZeroIffBlank(cur);
        assert Overhang(cur, below) == 0;
        OverhangZeroIffSupported(cur, below);
      }
      assert Trimmed(cur, below) == cur;
      assert g.grid[g.row := cur] == g.grid;
    }
  }

  /** The three outcomes of a stack action on a running game, with `k` the
      number of overhanging cells (0 on the bottom row):
      - all of the bar overhangs: the game is lost, the active row is blank and
        the score is unchanged;
      - otherwise on row 0: the game is won and the score grows by the surviving width;
      - otherwise: the score grows by the surviving width, play moves up one row,
        and that row holds exactly a bar of the surviving width against the left
        edge, moving right. */
  lemma StackOutcome(g: State)
    requires Inv(g) && !g.isGameOver
    ensures var r := AfterStack(g);
      var k := if g.row == Height - 1 then 0 else Overhang(g.grid[g.row], g.grid[g.row + 1]);
      var stacked := if g.row == Height - 1 then g.grid[g.row] else Trimmed(g.grid[g.row], g.grid[g.row + 1]);
      && r.barSize == g.barSize - k
      && r.grid[g.row] == stacked
      && (forall i :: 0 <= i < Height && i != g.row && i != g.row - 1 ==> r.grid[i] == g.grid[i])
      && (r.isGameOver ==> forall i :: 0 <= i < Height && i != g.row ==> r.grid[i] == g.grid[i])
      && (r.isGameOver && !r.won <==> k == g.barSize)
      && (k == g.barSize ==> r.score == g.score && r.row == g.row && r.grid[g.row] == Blank(Width))
      && (k < g.barSize && g.row == 0 ==>
            r.isGameOver && r.won && r.score == g.score + r.barSize && r.row == 0)
      && (k < g.barSize && g.row > 0 ==>
            !r.isGameOver && r.score == g.score + r.barSize && r.row == g.row - 1 &&
            r.direction == Right && r.grid[r.row] == BarAt(0, r.barSize, Width))
  {
    RunningBarCount(g);
    var k := if g.row == Height - 1 then 0 else Overhang(g.grid[g.row], g.grid[g.row + 1]);
    var l := AfterCheckLost(g);
    if g.row < Height - 1 {
      TrimCount(g.grid[g.row], g.grid[g.row + 1]);
      if k == g.barSize {
        CountZeroIffBlank(l.grid[g.row]);
      }
    }
    if k < g.barSize && g.row > 0 {
      SeededBlank(Width, l.barSize);
    }
  }

  /** A stack action keeps the invariant. */
  lemma StackInv(g: State)
    requires Inv(g)
    ensures Inv(AfterStack(g))
  {
    if g.isGameOver {
      StackWhenOverIsIdentity(g);
    } else {
      StackOutcome(g);
      var r := AfterStack(g);
      var k := if g.row == Height - 1 then 0 else Overhang(g.grid[g.row], g.grid[g.row + 1]);
      RunningBarCount(g);
      if r.isGameOver && r.won {
        TrimmedIsSupported(g.grid[0], g.grid[1]);
      }
      if !r.isGameOver {
        assert r.grid[r.row] == BarAt(0, r.barSize, Width);
        assert Sweeping(r.grid[r.row], r.barSize, r.direction);
        forall i | 0 <= i < r.row ensures r.grid[i] == Blank(Width) {
          assert r.grid[i] == g.grid[i];
        }
      }
    }
  }

  /** The score never goes down, and a stack action adds exactly the bar size
      it leaves behind unless that action loses the game. */
  lemma StackScore(g: State)
    requires Inv(g)
    ensures AfterStack(g).score >= g.score
    ensures !g.isGameOver ==>
      AfterStack(g).score == g.score + (if AfterStack(g).won || !AfterStack(g).isGameOver
                                        then AfterStack(g).barSize else 0)
  {
    if g.isGameOver {
      StackWhenOverIsIdentity(g);
    } else {
      StackOutcome(g);
      StackInv(g);
    }
  }

  /** With every bar cell supported, a stack keeps the bar size and adds it to the score. */
  lemma FullySupportedStack(g: State)
    requires Inv(g) && !g.isGameOver && g.row < Height - 1
    requires Supported(g.grid[g.row], g.grid[g.row + 1])
    ensures AfterStack(g).barSize == g.barSize
    ensures AfterStack(g).score == g.score + g.barSize
    ensures !AfterStack(g).isGameOver || AfterStack(g).won
  {
    OverhangZeroIffSupported(g.grid[g.row], g.grid[g.row + 1]);
    StackOutcome(g);
  }

  /** The first stack of a game: nothing lies below the bottom row, so nothing
      is trimmed; the score becomes 3 and a bar of three cells appears against
      the left edge of the row above, moving right. */
  lemma FirstStack()
    ensures var r := AfterStack(Init());
      && !r.isGameOver && r.score == InitialBarSize && r.barSize == InitialBarSize
      && r.row == Height - 2 && r.direction == Right
      && r.grid == Init().grid[Height - 2 := BarAt(0, InitialBarSize, Width)]
  {
    SeededBlank(Width, InitialBarSize);
  }

  /** A bar of three one column to the right of the bar below it, above the
      bottom row and below the top one: the stack loses the last cell, scores 2
      and starts a bar of two at the left of the blank row above. */
  lemma OffByOneStack(g: State)
    requires WellFormed(g) && 0 < g.row < Height - 1
    requires g.grid[g.row] == BarAt(1, 3, Width) && g.grid[g.row + 1] == BarAt(0, 3, Width)
    requires g.grid[g.row - 1] == Blank(Width)
    requires g.barSize == 3 && !g.isGameOver
    ensures var r := AfterStack(g);
      && r.grid[g.row] == BarAt(1, 2, Width) && r.barSize == 2 && !r.isGameOver
      && r.score == g.score + 2 && r.row == g.row - 1 && r.direction == Right
      && r.grid[r.row] == BarAt(0, 2, Width)
  {
    var cur, below := g.grid[g.row], g.grid[g.row + 1];
    assert cur == [0, 1, 1, 1, 0, 0] && below == [1, 1, 1, 0, 0, 0];
    assert Overhang([0], [0]) == 0;
    assert Overhang([0, 0], [0, 0]) == 0;
    assert Overhang([1, 0, 0], [0, 0, 0]) == 1;
    assert Overhang([1, 1, 0, 0], [1, 0, 0, 0]) == 1;
    assert Overhang([1, 1, 1, 0, 0], [1, 1, 0, 0, 0]) == 1;
    SeededBlank(Width, 2);
  }
}
