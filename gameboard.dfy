// The Gameboard object: a size-by-size grid of cells updated in place, the
// side to move, and the result fields that the terminal check writes.

module Game {
  import opened Rules
  import opened Search

  class Gameboard {
    /** The board is size by size; cells are created once and never reallocated. */
    const size: nat
    /** `cells[i][j].placedBy`, with the cell's identity its position (i, j). */
    const cells: array2<Cell>
    var currentTurn: Side
    /** `gameStates.over` */
    var over: bool
    var winner: Winner
    /** The grid as a value, kept equal to `cells` by every method. */
    ghost var board: Grid

    ghost predicate Valid()
      reads this`board, cells
    {
      size > 0 && cells.Length0 == size && cells.Length1 == size &&
      IsSquare(board, size) &&
      forall a, b :: InGrid(a, b, size) ==> board[a][b] == cells[a, b]
    }

    /** A new game: every cell empty, no result yet, `first` to move. */
    constructor (n: nat, first: Side)
      requires n > 0
      ensures Valid() && size == n && fresh(cells)
      ensures forall a, b :: InGrid(a, b, n) ==> board[a][b] == Empty
      ensures currentTurn == first && !over && winner == NoWinner
      ensures winner == Outcome(board, size)
    {
      size := n;
      cells := new Cell[n, n]((a, b) => Empty);
      currentTurn := first;
      over := false;
      winner := NoWinner;
      board := seq(n, a => seq(n, b => Empty));
      new;
      EmptyBoardInProgress(board, size);
    }

    /** `isGameBoardFull`: true iff no cell is empty. */
    method IsGameBoardFull() returns (full: bool)
      requires Valid()
      ensures full == IsFull(board, size)
    {
      var cellTruth := true;
      var i := 0;
      while i < size
        invariant 0 <= i <= size
        invariant cellTruth <==> forall a, b :: InGrid(a, b, size) && a < i ==> board[a][b] != Empty
      {
        var j := 0;
        while j < size
          invariant 0 <= j <= size
          invariant cellTruth <==> forall a, b :: InGrid(a, b, size) && Before(a, b, i, j) ==> board[a][b] != Empty
        {
          cellTruth := cellTruth && cells[i, j] != Empty;
          j := j + 1;
        }
        i := i + 1;
      }
      full := cellTruth;
    }

    /**
     * The diagonal pass of `checkForWin`: walks (i, i) and (i, l) with
     * l == size - 1 - i and says which side owns either diagonal.
     */
    method DiagonalOwners() returns (playerWin: bool, computerWin: bool)
      requires Valid()
      ensures playerWin == OwnsDiag(board, size, Player)
      ensures computerWin == OwnsDiag(board, size, Computer)
    {
      var playerDiag1, compDiag1 := true, true;
      var playerDiag2, compDiag2 := true, true;
      var i, l := 0, size - 1;
      while i < size
        invariant 0 <= i <= size && l == size - 1 - i
        invariant playerDiag1 == MainDiagPrefix(board, size, i, Player)
        invariant compDiag1 == MainDiagPrefix(board, size, i, Computer)
        invariant playerDiag2 == AntiDiagPrefix(board, size, i, Player)
        invariant compDiag2 == AntiDiagPrefix(board, size, i, Computer)
      {
        assert cells[i, i] == board[i][i] && cells[i, l] == board[i][size - (i + 1)];
        playerDiag1 := playerDiag1 && cells[i, i] == Taken(Player);
        compDiag1 := compDiag1 && cells[i, i] == Taken(Computer);
        playerDiag2 := playerDiag2 && cells[i, l] == Taken(Player);
        compDiag2 := compDiag2 && cells[i, l] == Taken(Computer);
        i, l := i + 1, l - 1;
      }
      MainDiagPrefixAll(board, size, size, Player);
      MainDiagPrefixAll(board, size, size, Computer);
      AntiDiagPrefixAll(board, size, size, Player);
      AntiDiagPrefixAll(board, size, size, Computer);
      playerWin := playerDiag1 || playerDiag2;
      computerWin := compDiag1 || compDiag2;
    }

    /**
     * One step of the row-and-column pass of `checkForWin`: walks row i and
     * column i together and says which side owns either of them.
     */
    method LineOwners(i: nat) returns (playerWin: bool, computerWin: bool)
      requires Valid() && i < size
      ensures playerWin == OwnsLineAt(board, size, i, Player)
      ensures computerWin == OwnsLineAt(board, size, i, Computer)
    {
      var playerRow, compRow := true, true;
      var playerCol, compCol := true, true;
      var j := 0;
      while j < size
        invariant 0 <= j <= size
        invariant playerRow == RowPrefix(board, size, i, j, Player)
        invariant compRow == RowPrefix(board, size, i, j, Computer)
        invariant playerCol == ColPrefix(board, size, i, j, Player)
        invariant compCol == ColPrefix(board, size, i, j, Computer)
      {
        assert cells[i, j] == board[i][j] && cells[j, i] == board[j][i];
        playerRow := playerRow && cells[i, j] == Taken(Player);
        compRow := compRow && cells[i, j] == Taken(Computer);
        playerCol := playerCol && cells[j, i] == Taken(Player);
        compCol := compCol && cells[j, i] == Taken(Computer);
        j := j + 1;
      }
      RowPrefixAll(board, size, i, size, Player);
      RowPrefixAll(board, size, i, size, Computer);
      ColPrefixAll(board, size, i, size, Player);
      ColPrefixAll(board, size, i, size, Computer);
      playerWin := playerRow || playerCol;
      computerWin := compRow || compCol;
    }

    /**
     * The row-and-column pass of `checkForWin`: row i and column i for each
     * i in turn, stopping at the first index where one of them is complete.
     */
    method LineScan() returns (playerWin: bool, computerWin: bool)
      requires Valid()
      ensures playerWin == (LineWinner(board, size, 0) == Some(Player))
      ensures !playerWin ==> computerWin == (LineWinner(board, size, 0) == Some(Computer))
    {
      playerWin, computerWin := false, false;
      var i := 0;
      while i < size
        invariant 0 <= i <= size
        invariant !playerWin && !computerWin
        invariant LineWinner(board, size, i) == LineWinner(board, size, 0)
      {
        playerWin, computerWin := LineOwners(i);
        if playerWin || computerWin {
          assert LineWinner(board, size, i) == if playerWin then Some(Player) else Some(Computer);
          break;
        }
        assert LineWinner(board, size, i) == LineWinner(board, size, i + 1);
        i := i + 1;
      }
    }

    /**
     * `checkForWin`: recomputes `winner` and `over` from the grid, looking
     * at both diagonals first and then, when neither is complete, at the
     * rows and columns.
     */
    method CheckForWin()
      requires Valid()
      modifies this`winner, this`over
      ensures winner == Outcome(board, size)
      ensures over == (winner != NoWinner)
    {
      var playerWin, computerWin := DiagonalOwners();
      if !(playerWin || computerWin) {
        playerWin, computerWin := LineScan();
      }
      OutcomeOfPasses(board, size, playerWin, computerWin);
      winner := if playerWin then Won(Player) else if computerWin then Won(Computer) else NoWinner;
      over := true;
      if winner == NoWinner {
        var full := IsGameBoardFull();
        over := full;
        if over {
          winner := Tie;
        }
      }
    }

    /** The assignment `cells[i][j].placedBy = x`. */
    method Put(i: nat, j: nat, x: Cell)
      requires Valid() && InGrid(i, j, size)
      modifies cells, this`board
      ensures Valid() && board == Set(old(board), size, i, j, x)
    {
      cells[i, j] := x;
      SetCells(board, size, i, j, x);
      board := Set(board, size, i, j, x);
    }

    /** `removeMarker`: clears the cell at (r, c) and no other. */
    method RemoveMarker(r: nat, c: nat)
      requires Valid() && InGrid(r, c, size)
      modifies cells, this`board
      ensures Valid() && board == Set(old(board), size, r, c, Empty)
    {
      ghost var g := board;
      var i := 0;
      while i < size
        invariant 0 <= i <= size
        invariant Valid() && board == if r < i then Set(g, size, r, c, Empty) else g
      {
        var j := 0;
        while j < size
          invariant 0 <= j <= size
          invariant Valid() && board == if Before(r, c, i, j) then Set(g, size, r, c, Empty) else g
        {
          if (i, j) == (r, c) {
            Put(i, j, Empty);
          }
          j := j + 1;
        }
        i := i + 1;
      }
    }

    /**
     * The loops of `placeMarker`: visit every cell and, at (r, c) when it is
     * still empty, put the marker there; `placed` says whether that happened.
     */
    method MarkCell(r: nat, c: nat, player: Side) returns (placed: bool)
      requires Valid() && InGrid(r, c, size)
      modifies cells, this`board
      ensures Valid() && placed == (old(board)[r][c] == Empty)
      ensures board == if placed then Set(old(board), size, r, c, Taken(player)) else old(board)
    {
      ghost var g := board;
      placed := false;
      var i := 0;
      while i < size
        invariant 0 <= i <= size
        invariant placed == (g[r][c] == Empty && r < i)
        invariant Valid() && board == if placed then Set(g, size, r, c, Taken(player)) else g
      {
        var j := 0;
        while j < size
          invariant 0 <= j <= size
          invariant placed == (g[r][c] == Empty && Before(r, c, i, j))
          invariant Valid() && board == if placed then Set(g, size, r, c, Taken(player)) else g
        {
          if cells[r, c] == Empty {
            if (r, c) == (i, j) {
              Put(i, j, Taken(player));
              placed := true;
            }
          }
          j := j + 1;
        }
        i := i + 1;
      }
    }

    /**
     * `placeMarker`: on an empty cell, puts the marker there, reruns the
     * terminal check and, while the game goes on, hands the move to the
     * other side; `replyDue` says that the computer's reply is now due. On
     * an occupied cell nothing changes.
     */
    method PlaceMarker(r: nat, c: nat, player: Side) returns (replyDue: bool)
      requires Valid() && InGrid(r, c, size)
      modifies this, cells
      ensures Valid()
      ensures old(board)[r][c] != Empty ==>
                board == old(board) && currentTurn == old(currentTurn) &&
                over == old(over) && winner == old(winner) && !replyDue
      ensures old(board)[r][c] == Empty ==>
                board == Set(old(board), size, r, c, Taken(player)) &&
                winner == Outcome(board, size) && over == (winner != NoWinner) &&
                currentTurn == (if over then old(currentTurn) else Other(old(currentTurn))) &&
                replyDue == (old(currentTurn) == Player && !over)
    {
      var placed := MarkCell(r, c, player);
      if !placed {
        return false;
      }
      CheckForWin();
      replyDue := HandOver();
    }

    /**
     * The tail of `placeMarker`: while the game goes on and the board has
     * room, the move passes to the other side, and the computer's reply
     * falls due when the player has just moved.
     */
    method HandOver() returns (replyDue: bool)
      requires Valid() && over == (Outcome(board, size) != NoWinner)
      modifies this`currentTurn
      ensures currentTurn == if over then old(currentTurn) else Other(old(currentTurn))
      ensures replyDue == (old(currentTurn) == Player && !over)
    {
      replyDue := false;
      if currentTurn == Player && !over {
        var full := IsGameBoardFull();
        if !full {
          currentTurn := Computer;
          replyDue := true;
        }
      } else if currentTurn == Computer && !over {
        var full := IsGameBoardFull();
        if !full {
          currentTurn := Player;
        }
      }
    }

    /**
     * The trial move that both `minimax` and the best-move loop make: put
     * the marker of the side to move in the empty cell (i, j), score the
     * board that results with `minimax` for the other side, and take the
     * marker back with `removeMarker`.
     */
    method TryMove(i: nat, j: nat, isMaximizing: bool) returns (score: int)
      requires Valid() && InGrid(i, j, size) && board[i][j] == Empty
      modifies this`board, this`winner, this`over, cells
      ensures Valid() && board == old(board)
      ensures score == ChildValue(old(board), size, isMaximizing, i, j)
      decreases |EmptyCells(board, size)|, 0
    {
      ghost var g := board;
      var mark := Taken(Mover(isMaximizing));
      Put(i, j, mark);
      PlacementUsesOneEmptyCell(g, size, i, j, Mover(isMaximizing));
      score := Minimax(!isMaximizing);
      RemoveMarker(i, j);
      PlaceThenRemove(g, size, i, j, mark);
    }

    /**
     * `minimax(this, isMaximizing)`: a board the terminal check finds
     * finished is scored by its result; otherwise every move is tried. The
     * grid is restored; `winner` and `over` are left as the last terminal
     * check of the search wrote them.
     */
    method Minimax(isMaximizing: bool) returns (score: int)
      requires Valid()
      modifies this`board, this`winner, this`over, cells
      ensures Valid() && board == old(board)
      ensures score == GameValue(old(board), size, isMaximizing)
      ensures Outcome(old(board), size) != NoWinner ==> score == BoardValue(Outcome(old(board), size))
      ensures -1 <= score <= 1
      decreases |EmptyCells(board, size)|, 2
    {
      CheckForWin();
      if over {
        score := BoardValue(winner);
      } else {
        score := ScoreMoves(isMaximizing);
      }
      ValueInRange(old(board), size, isMaximizing);
    }

    /**
     * The loops of `minimax` over an unfinished board: every empty cell is
     * tried in row-major order and the best score for the side to move
     * (`Math.max` for the computer, `Math.min` for the player) is kept.
     */
    method ScoreMoves(isMaximizing: bool) returns (score: int)
      requires Valid()
      modifies this`board, this`winner, this`over, cells
      ensures Valid() && board == old(board)
      ensures score == Best(old(board), size, isMaximizing, 0, 0, Start(isMaximizing))
      decreases |EmptyCells(board, size)|, 1
    {
      ghost var g := board;
      var bestScore := Start(isMaximizing);
      var i := 0;
      while i < size
        invariant 0 <= i <= size
        invariant Valid() && board == g
        invariant Best(g, size, isMaximizing, i, 0, bestScore) == Best(g, size, isMaximizing, 0, 0, Start(isMaximizing))
      {
        var j := 0;
        while j < size
          invariant 0 <= j <= size
          invariant Valid() && board == g
          invariant Best(g, size, isMaximizing, i, j, bestScore) == Best(g, size, isMaximizing, 0, 0, Start(isMaximizing))
        {
          BestStep(g, size, isMaximizing, i, j, bestScore);
          if cells[i, j] == Empty {
            var s := TryMove(i, j, isMaximizing);
            bestScore := Pick(isMaximizing, bestScore, s);
          }
          j := j + 1;
        }
        BestRowEnd(g, size, isMaximizing, i, bestScore);
        i := i + 1;
      }
      BestRowEnd(g, size, isMaximizing, i, bestScore);
      score := bestScore;
    }

    /**
     * The best-move loop: scores every empty cell by placing the computer's
     * marker there and running `minimax(this, false)`, and keeps the first
     * cell with the highest score. The grid is restored.
     */
    method BestMove() returns (r: nat, c: nat)
      requires Valid() && !IsFull(board, size)
      modifies this`board, this`winner, this`over, cells
      ensures Valid() && board == old(board)
      ensures FirstBest(old(board), size, r, c)
    {
      ghost var g := board;
      var bestScore := NegInf;
      var bestMove: Option<(nat, nat)> := None;
      var i := 0;
      while i < size
        invariant 0 <= i <= size
        invariant Valid() && board == g
        invariant ScanState(g, size, i, 0, bestScore, bestMove)
      {
        var j := 0;
        while j < size
          invariant 0 <= j <= size
          invariant Valid() && board == g
          invariant ScanState(g, size, i, j, bestScore, bestMove)
        {
          if cells[i, j] == Empty {
            var score := TryMove(i, j, true);
            ScanStepEmpty(g, size, i, j, bestScore, bestMove, score);
            if score > bestScore {
              bestScore := score;
              bestMove := Some((i, j));
            }
          } else {
            ScanStepTaken(g, size, i, j, bestScore, bestMove);
          }
          j := j + 1;
        }
        ScanNextRow(g, size, i, bestScore, bestMove);
        i := i + 1;
      }
      ScanDone(g, size, bestScore, bestMove);
      r, c := bestMove.value.0, bestMove.value.1;
    }

    /**
     * The computer's reply, which the source runs from a timer: picks the
     * best move, places it (rerunning the terminal check) and gives the
     * turn back to the player.
     */
    method ComputerReply() returns (r: nat, c: nat)
      requires Valid() && currentTurn == Computer && !IsFull(board, size)
      modifies this, cells
      ensures Valid() && FirstBest(old(board), size, r, c)
      ensures board == Set(old(board), size, r, c, Taken(Computer))
      ensures winner == Outcome(board, size) && over == (winner != NoWinner)
      ensures currentTurn == Player
    {
      r, c := BestMove();
      var due := PlaceMarker(r, c, Computer);
      currentTurn := Player;
    }

    /**
     * The opening of `setupBoard`: when the computer moves first it plays
     * its best move on the empty board.
     */
    method OpeningMove() returns (move: Option<(nat, nat)>)
      requires Valid()
      requires forall a, b :: InGrid(a, b, size) ==> board[a][b] == Empty
      modifies this, cells
      ensures Valid()
      ensures old(currentTurn) == Player ==>
                move == None && board == old(board) && currentTurn == Player &&
                over == old(over) && winner == old(winner)
      ensures old(currentTurn) == Computer ==>
                move.Some? && FirstBest(old(board), size, move.value.0, move.value.1) &&
                board == Set(old(board), size, move.value.0, move.value.1, Taken(Computer)) &&
                winner == Outcome(board, size) && over == (winner != NoWinner) &&
                currentTurn == Player
    {
      move := None;
      if currentTurn == Computer {
        assert board[0][0] == Empty;
        var r, c := ComputerReply();
        move := Some((r, c));
      }
    }
  }
}
