/** The game state of minesweeper.c, changed in place by init_game,
    place_mines, reveal_cell and use_hint, read by check_win, and the left-
    and right-click commands of the input loop, taken on cell coordinates. */
module Game {
  import opened Grid
  import opened Flood
  import opened Placement

  /** GameState. The grid is a fixed N x N array of cells; the other fields
      are the game's flags and counters. The font, the drawing offsets and
      the explosion flash belong to the display and are not modelled. */
  class GameState {
    const grid: array2<Cell>
    var firstClick: bool
    var gameOver: bool
    var victory: bool
    var startTime: int
    var elapsedTime: int
    var score: int
    var highScore: int
    var numMines: int
    var flaggedMines: int
    var difficulty: Difficulty
    var hintUsed: bool

    /** The grid as a board value, kept equal to the array by every method. */
    ghost var board: Board

    /** The array is N x N and board is its value. */
    ghost predicate Synced()
      reads this, grid
    {
      Holds(board)
    }

    /** The invariant every command keeps: counts match the mines, the flag
        counter matches the flags, no mines before the first click and
        numMines of them after it, 10 points per revealed cell until the game
        is lost, and the terminal states are exclusive and settled. */
    ghost predicate Valid()
      reads this, grid
    {
      Synced() &&
      numMines == MineCount(difficulty) &&
      CountsConsistent(board) &&
      flaggedMines == |Flagged(board)| &&
      (firstClick ==> Mines(board) == {} && !gameOver && !victory) &&
      (!firstClick ==> |Mines(board)| == numMines) &&
      (!gameOver ==> score == 10 * |Revealed(board)|) &&
      (gameOver ==> Mines(board) <= Revealed(board) && !victory) &&
      (victory ==> Won(board) && score <= highScore)
    }

    /** The start of main: a zeroed state, high_score 0, then
        init_game(EASY). */
    constructor ()
      ensures Valid() && fresh(grid)
      ensures board == Cleared() && difficulty == Easy && numMines == MineCount(Easy)
      ensures firstClick && !gameOver && !victory && !hintUsed
      ensures score == 0 && highScore == 0 && elapsedTime == 0 && flaggedMines == 0 && startTime == 0
    {
      grid := new Cell[N, N]((x, y) => Blank);
      board := Cleared();
      firstClick, gameOver, victory, hintUsed := false, false, false, false;
      startTime, elapsedTime, score, highScore, numMines, flaggedMines := 0, 0, 0, 0, 0, 0;
      difficulty := Easy;
      new;
      InitGame(Easy);
    }

    /** init_game: a new game of the given difficulty on a cleared grid.
        The high score and the start time are left as they were. */
    method InitGame(diff: Difficulty)
      requires Synced()
      modifies this, grid
      ensures Valid()
      ensures board == Cleared()
      ensures difficulty == diff && numMines == MineCount(diff)
      ensures firstClick && !gameOver && !victory && !hintUsed
      ensures score == 0 && elapsedTime == 0 && flaggedMines == 0
      ensures highScore == old(highScore) && startTime == old(startTime)
    {
      difficulty := diff;
      numMines := MineCount(diff);
      firstClick := true;
      gameOver := false;
      victory := false;
      score := 0;
      elapsedTime := 0;
      flaggedMines := 0;
      hintUsed := false;
      for i := 0 to N * N
        modifies grid
        invariant forall x, y :: InBounds(x, y) && Before(x, y, i / N, i % N) ==> grid[x, y] == Blank
      {
        RowMajorNext(i);
        grid[i / N, i % N] := Blank;
      }
      RowMajorEnds();
      board := Cleared();
      ClearedIsEmpty();
    }

    /** reveal_cell: unless (x, y) is out of bounds, revealed or flagged, turn
        it face up, add 10 to the score and, when it holds no mine and has no
        mine around it, recurse into its eight neighbours. */
    method RevealCell(x: int, y: int)
      requires Synced()
      modifies this`score, this`board, grid
      ensures Synced()
      ensures Cascade(old(board), board, x, y)
      ensures score - 10 * |Revealed(board)| == old(score) - 10 * |Revealed(old(board))|
      decreases Concealed(board), 1
    {
      if x < 0 || x >= N || y < 0 || y >= N || grid[x, y].revealed || grid[x, y].flagged {
        return;
      }
      ghost var b0 := board;
      UncoverOne(b0, x, y);
      grid[x, y] := grid[x, y].(revealed := true);
      board := TurnUp(board, x, y);
      score := score + 10;
      if !grid[x, y].mine && grid[x, y].neighborMines == 0 {
        StartLoop(b0, x, y);
        RevealAround(b0, x, y);
      } else {
        StopAtOnce(b0, x, y);
      }
    }

    /** The loop of reveal_cell over the eight neighbours of the opening cell
        (x, y), which has just been turned up on b0. */
    method RevealAround(ghost b0: Board, x: int, y: int)
      requires Synced()
      requires Progress(b0, board, x, y, -1, -1)
      modifies this`score, this`board, grid
      ensures Synced()
      ensures Cascade(b0, board, x, y)
      ensures score - 10 * |Revealed(board)| == old(score) - 10 * |Revealed(old(board))|
      decreases Concealed(b0), 0
    {
      var dx := -1;
      while dx <= 1
        invariant -1 <= dx <= 2
        invariant Synced()
        invariant Progress(b0, board, x, y, dx, -1)
        invariant score - 10 * |Revealed(board)| == old(score) - 10 * |Revealed(old(board))|
      {
        var dy := -1;
        while dy <= 1
          invariant -1 <= dy <= 2
          invariant Synced()
          invariant Progress(b0, board, x, y, dx, dy)
          invariant score - 10 * |Revealed(board)| == old(score) - 10 * |Revealed(old(board))|
        {
          if dx != 0 || dy != 0 {
            ConcealedShrinks(b0, board, x, y);
            RevealNeighbour(b0, x, y, dx, dy);
          } else {
            SkipCentre(b0, board, x, y);
          }
          dy := dy + 1;
        }
        NextRow(b0, board, x, y, dx);
        dx := dx + 1;
      }
      EndLoop(b0, board, x, y);
    }

    /** One round of reveal_cell's loop over the neighbours of (x, y): the
        recursive call at offset (dx, dy), which settles that neighbour. */
    method RevealNeighbour(ghost b0: Board, x: int, y: int, dx: int, dy: int)
      requires Synced()
      requires -1 <= dx <= 1 && -1 <= dy <= 1 && (dx, dy) != (0, 0)
      requires Progress(b0, board, x, y, dx, dy)
      modifies this`score, this`board, grid
      ensures Synced()
      ensures Progress(b0, board, x, y, dx, dy + 1)
      ensures score - 10 * |Revealed(board)| == old(score) - 10 * |Revealed(old(board))|
      decreases Concealed(board), 2
    {
      ghost var b1 := board;
      RevealCell(x + dx, y + dy);
      NeighbourStep(b0, b1, board, x, y, dx, dy);
    }

    /** place_mines: the rejection-sampling loop arms cells named by the
        rolls until numMines more mines are down, skipping cells that are
        mines already and the safe cell; then every non-mine cell gets its
        neighbour count. The rolls stand for the rand() results and must
        hold enough usable cells for the loop to finish. */
    method PlaceMines(safeX: int, safeY: int, rolls: seq<(nat, nat)>)
      requires Synced()
      requires 0 <= numMines <= |Picked(rolls, safeX, safeY) - Mines(board)|
      modifies this`board, grid
      ensures Synced()
      ensures board == Counted(Armed(old(board), rolls, numMines, safeX, safeY))
    {
      ArmCells(board, safeX, safeY, rolls, numMines);
      board := Armed(board, rolls, numMines, safeX, safeY);
      CountNeighbours();
    }

    /** The placing loop of place_mines on the array, which holds b: take
        the rolls one by one until `count` mines are down. */
    method ArmCells(ghost b: Board, safeX: int, safeY: int, rolls: seq<(nat, nat)>, count: int)
      requires Holds(b)
      requires 0 <= count <= |Picked(rolls, safeX, safeY) - Mines(b)|
      modifies grid
      ensures Holds(Armed(b, rolls, count, safeX, safeY))
    {
      BudgetSuffices(b, rolls, count, safeX, safeY);
      ghost var cur := b;
      ghost var left := count;
      var placed := 0;
      var rest := rolls;
      while placed < count
        invariant 0 <= placed <= count && left == count - placed
        invariant Holds(cur)
        invariant Suffices(cur, rest, left, safeX, safeY)
        invariant Armed(cur, rest, left, safeX, safeY) == Armed(b, rolls, count, safeX, safeY)
        decreases |rest|
      {
        var armed := PlaceRoll(cur, rest[0], safeX, safeY);
        if armed {
          placed := placed + 1;
          left := left - 1;
        }
        cur := AfterRound(cur, rest[0], safeX, safeY);
        rest := rest[1..];
      }
    }

    /** One round of the placing loop of place_mines on the array, which
        holds b: arm the cell roll r names unless it already holds a mine or
        is the safe cell. */
    method PlaceRoll(ghost b: Board, r: (nat, nat), safeX: int, safeY: int) returns (armed: bool)
      requires Holds(b)
      modifies grid
      ensures armed == Arms(b, r, safeX, safeY)
      ensures Holds(AfterRound(b, r, safeX, safeY))
    {
      var x, y := RollCell(r).0, RollCell(r).1;
      armed := !grid[x, y].mine && (x != safeX || y != safeY);
      if armed {
        grid[x, y] := grid[x, y].(mine := true);
      }
    }

    /** Write cell (x, y) of the grid, keeping the board value in step. */
    method SetCell(x: int, y: int, c: Cell)
      requires Synced() && InBounds(x, y)
      modifies this`board, grid
      ensures Synced() && board == Update(old(board), x, y, c)
    {
      grid[x, y] := c;
      board := Update(board, x, y, c);
    }

    /** The array holds the board value b. */
    ghost predicate Holds(b: Board)
      reads grid
    {
      grid.Length0 == N && grid.Length1 == N &&
      forall x, y :: InBounds(x, y) ==> b[x][y] == grid[x, y]
    }

    /** The second half of place_mines: every cell that is not a mine gets
        the number of mines around it; mine cells are skipped. */
    method CountNeighbours()
      requires Synced()
      modifies this`board, grid
      ensures Synced()
      ensures board == Counted(old(board))
    {
      ghost var b1 := board;
      for x := 0 to N
        invariant Synced()
        invariant forall i, j :: InBounds(i, j) ==> board[i][j] == if i < x then Counted(b1)[i][j] else b1[i][j]
      {
        for y := 0 to N
          invariant Synced()
          invariant forall i, j :: InBounds(i, j) ==>
            board[i][j] == if Before(i, j, x, y) then Counted(b1)[i][j] else b1[i][j]
        {
          if grid[x, y].mine {
            continue;
          }
          SameMinesSameCounts(board, b1, x, y);
          var mines := CountAdjacentMines(x, y);
          grid[x, y] := grid[x, y].(neighborMines := mines);
          board := Update(board, x, y, board[x][y].(neighborMines := mines));
        }
      }
      Ext(board, Counted(b1));
    }

    /** The 3 x 3 scan of place_mines around (x, y): the in-bounds mines
        among the eight neighbours, plus one when (x, y) is a mine itself. */
    method CountAdjacentMines(x: int, y: int) returns (mines: int)
      requires Synced() && InBounds(x, y)
      ensures mines == NeighbourMines(board, x, y) + (if board[x][y].mine then 1 else 0)
    {
      mines := 0;
      ScanStart(board, x, y);
      for dx := -1 to 2
        invariant mines == |Scanned(board, x, y, dx, -1)|
      {
        for dy := -1 to 2
          invariant mines == |Scanned(board, x, y, dx, dy)|
        {
          ScanStep(board, x, y, dx, dy);
          var nx, ny := x + dx, y + dy;
          if nx >= 0 && nx < N && ny >= 0 && ny < N && grid[nx, ny].mine {
            mines := mines + 1;
          }
        }
        ScanNextRow(board, x, y, dx);
      }
      ScanEnd(board, x, y);
    }

    /** check_win: does every non-mine cell lie face up? */
    method CheckWin() returns (won: bool)
      requires Synced()
      ensures won <==> Won(board)
    {
      for i := 0 to N * N
        invariant forall x, y :: InBounds(x, y) && Before(x, y, i / N, i % N) ==>
          board[x][y].mine || board[x][y].revealed
      {
        RowMajorNext(i);
        var x, y := i / N, i % N;
        if !grid[x, y].mine && !grid[x, y].revealed {
          return false;
        }
      }
      RowMajorEnds();
      return true;
    }

    /** The loss branch of a left click: every mine cell is turned face up. */
    method ShowMines()
      requires Synced()
      modifies this`board, grid
      ensures Synced()
      ensures board == MinesShown(old(board))
    {
      ghost var b1 := board;
      for i := 0 to N * N
        invariant Synced()
        invariant forall x, y :: InBounds(x, y) ==>
          board[x][y] == if Before(x, y, i / N, i % N) then MinesShown(b1)[x][y] else b1[x][y]
      {
        RowMajorNext(i);
        if grid[i / N, i % N].mine {
          grid[i / N, i % N] := grid[i / N, i % N].(revealed := true);
          board := Update(board, i / N, i % N, board[i / N][i % N].(revealed := true));
        }
      }
      RowMajorEnds();
      Ext(board, MinesShown(b1));
    }

    /** The hint itself: reveal the hintable cell (x, y) as a click would,
        and use up the hint. */
    method RevealHint(x: int, y: int)
      requires Valid() && !hintUsed && !gameOver && !victory
      requires InBounds(x, y) && Hintable(board, x, y)
      modifies this`score, this`board, this`hintUsed, grid
      ensures Valid() && hintUsed
      ensures Cascade(old(board), board, x, y)
      ensures Mines(board) * Revealed(board) == Mines(old(board)) * Revealed(old(board))
    {
      RevealCell(x, y);
      hintUsed := true;
      SafeCascade(old(board), board, x, y);
    }

    /** use_hint: once per game and only while it is being played, reveal
        the first cell in row-major order that is concealed, unflagged and
        not a mine. With no such cell nothing happens, hint_used included.
        The hint never turns up a mine, and no win is checked for. */
    method UseHint()
      requires Valid()
      modifies this`score, this`board, this`hintUsed, grid
      ensures Valid()
      ensures old(hintUsed || gameOver || victory) ==>
        board == old(board) && score == old(score) && hintUsed == old(hintUsed)
      ensures !old(hintUsed || gameOver || victory) ==>
        match FirstHint(old(board))
        case None => board == old(board) && score == old(score) && !hintUsed
        case Some(c) => Cascade(old(board), board, c.0, c.1) && hintUsed
      ensures Mines(board) * Revealed(board) == Mines(old(board)) * Revealed(old(board))
    {
      if hintUsed || gameOver || victory {
        return;
      }
      for i := 0 to N * N
        invariant Synced()
        invariant board == old(board) && score == old(score) && !hintUsed
        invariant forall x, y :: InBounds(x, y) && Before(x, y, i / N, i % N) ==> !Hintable(board, x, y)
      {
        RowMajorNext(i);
        var x, y := i / N, i % N;
        if !grid[x, y].revealed && !grid[x, y].mine && !grid[x, y].flagged {
          HintIsFirst(board, x, y);
          RevealHint(x, y);
          return;
        }
      }
      RowMajorEnds();
    }

    /** A left click on cell (x, y) at time `now`, from the input loop of
        main. It is ignored once the game is over or won, off the grid and on
        a flagged cell. The first click starts the clock and deals the mines
        around it from the rolls; a click on a mine loses the game and shows
        every mine; any other click reveals the cell, and when that wins the
        game it stops the clock and keeps the better score. */
    method LeftClick(x: int, y: int, now: int, rolls: seq<(nat, nat)>) returns (ghost dealt: Board)
      requires Valid()
      requires firstClick ==> numMines <= |Picked(rolls, x, y)|
      modifies this`startTime, this`firstClick, this`gameOver, this`score, this`board, grid,
        this`victory, this`elapsedTime, this`highScore
      ensures Valid()
      ensures old(gameOver || victory) || !InBounds(x, y) || old(board[x][y].flagged) ==>
        board == old(board) && firstClick == old(firstClick) && gameOver == old(gameOver) &&
        victory == old(victory) && score == old(score) && highScore == old(highScore) &&
        startTime == old(startTime) && elapsedTime == old(elapsedTime)
      ensures !old(gameOver || victory) && InBounds(x, y) && !old(board[x][y].flagged) ==>
        dealt == (if old(firstClick) then Counted(Armed(old(board), rolls, old(numMines), x, y)) else old(board)) &&
        !firstClick && startTime == (if old(firstClick) then now else old(startTime)) &&
        (old(firstClick) ==> !dealt[x][y].mine) &&
        (dealt[x][y].mine ==>
          gameOver && !victory && board == MinesShown(dealt) && score == old(score) &&
          elapsedTime == now - startTime && highScore == old(highScore)) &&
        (!dealt[x][y].mine ==>
          !gameOver && Cascade(dealt, board, x, y) && (victory <==> Won(board)) &&
          elapsedTime == (if victory then now - startTime else old(elapsedTime)) &&
          highScore == (if victory && score > old(highScore) then score else old(highScore)))
    {
      dealt := board;
      if gameOver || victory || x < 0 || x >= N || y < 0 || y >= N || grid[x, y].flagged {
        return;
      }
      if firstClick {
        dealt := OpeningClick(x, y, now, rolls);
      } else {
        Play(x, y, now);
      }
    }

    /** The first left click on an unflagged cell: deal the mines around it,
        then play it; the mine test that follows always fails, so the cell
        is revealed. */
    method OpeningClick(x: int, y: int, now: int, rolls: seq<(nat, nat)>) returns (ghost dealt: Board)
      requires Valid() && firstClick && InBounds(x, y) && !board[x][y].flagged
      requires numMines <= |Picked(rolls, x, y)|
      modifies this`startTime, this`firstClick, this`gameOver, this`score, this`board, grid,
        this`victory, this`elapsedTime, this`highScore
      ensures Valid() && !firstClick && startTime == now && !gameOver
      ensures dealt == Counted(Armed(old(board), rolls, old(numMines), x, y)) && !dealt[x][y].mine
      ensures Cascade(dealt, board, x, y) && (victory <==> Won(board))
      ensures elapsedTime == (if victory then now - startTime else old(elapsedTime))
      ensures highScore == (if victory && score > old(highScore) then score else old(highScore))
    {
      ghost var e0, h0 := elapsedTime, highScore;
      FirstClick(x, y, now, rolls);
      assert elapsedTime == e0 && highScore == h0;
      dealt := board;
      RevealSafe(x, y, now);
    }

    /** A left click on an unflagged cell once the mines are down. */
    method Play(x: int, y: int, now: int)
      requires Valid() && !firstClick && !gameOver && !victory
      requires InBounds(x, y) && !board[x][y].flagged
      modifies this`gameOver, this`score, this`board, grid, this`victory, this`elapsedTime, this`highScore
      ensures Valid()
      ensures old(board[x][y].mine) ==>
        gameOver && !victory && board == MinesShown(old(board)) && score == old(score) &&
        elapsedTime == now - startTime && highScore == old(highScore)
      ensures !old(board[x][y].mine) ==>
        !gameOver && Cascade(old(board), board, x, y) && (victory <==> Won(board)) &&
        elapsedTime == (if victory then now - startTime else old(elapsedTime)) &&
        highScore == (if victory && score > old(highScore) then score else old(highScore))
    {
      if grid[x, y].mine {
        Explode(now);
      } else {
        RevealSafe(x, y, now);
      }
    }

    /** The first left click: start the clock, deal the mines around (x, y)
        and leave the first-click state. */
    method FirstClick(x: int, y: int, now: int, rolls: seq<(nat, nat)>)
      requires Valid() && firstClick && InBounds(x, y)
      requires numMines <= |Picked(rolls, x, y)|
      modifies this`startTime, this`firstClick, this`board, grid
      ensures Valid() && !firstClick && startTime == now
      ensures board == Counted(Armed(old(board), rolls, old(numMines), x, y))
      ensures !board[x][y].mine
    {
      ghost var b0 := board;
      assert Picked(rolls, x, y) - Mines(board) == Picked(rolls, x, y);
      PlaceMines(x, y, rolls);
      startTime, firstClick := now, false;
      DealtValid(b0, rolls, x, y);
    }

    /** The state right after the first deal is valid, and the clicked cell
        holds no mine. */
    lemma DealtValid(b0: Board, rolls: seq<(nat, nat)>, x: int, y: int)
      requires Synced() && !firstClick && !gameOver && !victory
      requires numMines == MineCount(difficulty) && InBounds(x, y)
      requires Mines(b0) == {} && numMines <= |Picked(rolls, x, y)|
      requires flaggedMines == |Flagged(b0)| && score == 10 * |Revealed(b0)|
      requires board == Counted(Armed(b0, rolls, numMines, x, y))
      ensures Valid() && !board[x][y].mine && board[x][y].flagged == b0[x][y].flagged
    {
      FirstDeal(b0, rolls, numMines, x, y);
    }

    /** A left click on a mine: the game is lost, the clock stops and every
        mine is turned face up; the score stays as it was. */
    method Explode(now: int)
      requires Valid() && !firstClick && !gameOver && !victory
      modifies this`gameOver, this`elapsedTime, this`board, grid
      ensures Valid() && gameOver && elapsedTime == now - startTime
      ensures board == MinesShown(old(board))
    {
      ghost var b0 := board;
      gameOver := true;
      elapsedTime := now - startTime;
      ShowMines();
      ShownValid(b0);
    }

    /** Turning up every mine of a board that was valid with the game still
        on gives a valid lost game. */
    lemma ShownValid(b0: Board)
      requires Synced() && !firstClick && gameOver && !victory
      requires numMines == MineCount(difficulty) && CountsConsistent(b0)
      requires flaggedMines == |Flagged(b0)| && |Mines(b0)| == numMines
      requires board == MinesShown(b0)
      ensures Valid()
    {
      MinesShownReveals(b0);
    }

    /** A left click on a cell without a mine: reveal it, then check for a
        win; a win stops the clock and raises the high score to the score
        when the score is higher. */
    method RevealSafe(x: int, y: int, now: int)
      requires Valid() && !firstClick && !gameOver && !victory
      requires InBounds(x, y) && !board[x][y].mine
      modifies this`score, this`board, grid, this`victory, this`elapsedTime, this`highScore
      ensures Valid() && !gameOver
      ensures Cascade(old(board), board, x, y) && (victory <==> Won(board))
      ensures elapsedTime == (if victory then now - startTime else old(elapsedTime))
      ensures highScore == (if victory && score > old(highScore) then score else old(highScore))
    {
      RevealCell(x, y);
      SafeCascade(old(board), board, x, y);
      var won := CheckWin();
      if won {
        victory := true;
        elapsedTime := now - startTime;
        if score > highScore {
          highScore := score;
        }
      }
    }

    /** A right click on cell (x, y), from the input loop of main: while the
        game is on, an unrevealed cell on the grid has its flag flipped and
        the flag counter follows. */
    method RightClick(x: int, y: int)
      requires Valid()
      modifies this`flaggedMines, this`board, grid
      ensures Valid()
      ensures !old(gameOver || victory) && InBounds(x, y) && !old(board[x][y].revealed) ==>
        board == Flip(old(board), x, y) &&
        flaggedMines == old(flaggedMines) + (if board[x][y].flagged then 1 else -1)
      ensures old(gameOver || victory) || !InBounds(x, y) || old(board[x][y].revealed) ==>
        board == old(board) && flaggedMines == old(flaggedMines)
    {
      if gameOver || victory || x < 0 || x >= N || y < 0 || y >= N || grid[x, y].revealed {
        return;
      }
      FlipOne(board, x, y);
      var flagged := !grid[x, y].flagged;
      SetCell(x, y, grid[x, y].(flagged := flagged));
      flaggedMines := flaggedMines + if flagged then 1 else -1;
    }

    /** Tick: while a game is under way the clock shows the seconds since
        the first click. */
    method Tick(now: int)
      requires Valid()
      modifies this`elapsedTime
      ensures Valid()
      ensures elapsedTime == if !firstClick && !gameOver && !victory then now - startTime else old(elapsedTime)
    {
      if !firstClick && !gameOver && !victory {
        elapsedTime := now - startTime;
      }
    }
  }
}
