// The value that the exhaustive minimax search assigns to a grid, and the
// best-move choice made from it. The computer maximises, the player
// minimises, and every empty cell is tried in row-major order.

module Search {
  import opened Rules

  /** Stands for `-Infinity`, the maximiser's starting best score. */
  const NegInf: int := -2
  /** Stands for `Infinity`, the minimiser's starting best score. */
  const PosInf: int := 2

  /** The side whose marker is placed: the computer when maximising. */
  function Mover(maximizing: bool): Side
  {
    if maximizing then Computer else Player
  }

  function Start(maximizing: bool): int
  {
    if maximizing then NegInf else PosInf
  }

  /** `Math.max` for the maximiser, `Math.min` for the minimiser. */
  function Pick(maximizing: bool, best: int, score: int): (r: int)
    ensures maximizing ==> r >= best && r >= score && (r == best || r == score)
    ensures !maximizing ==> r <= best && r <= score && (r == best || r == score)
  {
    if maximizing then (if best >= score then best else score)
    else (if best <= score then best else score)
  }

  /** y is at least as good as x for the side to move. */
  predicate NoWorse(maximizing: bool, x: int, y: int)
  {
    if maximizing then x <= y else y <= x
  }

  /** (a, b) comes strictly before (i, j) in row-major order. */
  predicate Before(a: int, b: int, i: int, j: int)
  {
    a < i || (a == i && b < j)
  }

  ghost function EmptyCells(g: Grid, n: nat): set<(nat, nat)>
    requires IsSquare(g, n)
  {
    set a: nat, b: nat | a < n && b < n && g[a][b] == Empty :: (a, b)
  }

  /** Each placement uses up exactly one empty cell, so the search terminates. */
  lemma PlacementUsesOneEmptyCell(g: Grid, n: nat, i: nat, j: nat, s: Side)
    requires IsSquare(g, n) && InGrid(i, j, n) && g[i][j] == Empty
    ensures EmptyCells(Set(g, n, i, j, Taken(s)), n) == EmptyCells(g, n) - {(i, j)}
    ensures |EmptyCells(Set(g, n, i, j, Taken(s)), n)| == |EmptyCells(g, n)| - 1
  {
    SetCells(g, n, i, j, Taken(s));
    assert (i, j) in EmptyCells(g, n);
  }

  /**
   * `minimax(gb, maximizing)` as a value: the board value when the game is
   * over, otherwise the best, for the side to move, of the values of all
   * boards one marker further on.
   */
  ghost function GameValue(g: Grid, n: nat, maximizing: bool): int
    requires IsSquare(g, n)
    decreases EmptyCells(g, n), 1, 0, 0
  {
    var w := Outcome(g, n);
    if w != NoWinner then BoardValue(w)
    else Best(g, n, maximizing, 0, 0, Start(maximizing))
  }

  /** The value of the board after the side to move takes cell (a, b). */
  ghost function ChildValue(g: Grid, n: nat, maximizing: bool, a: nat, b: nat): int
    requires IsSquare(g, n) && InGrid(a, b, n) && g[a][b] == Empty
    decreases EmptyCells(g, n), 0, 0, 0
  {
    PlacementUsesOneEmptyCell(g, n, a, b, Mover(maximizing));
    GameValue(Set(g, n, a, b, Taken(Mover(maximizing))), n, !maximizing)
  }

  /**
   * The nested `for i`, `for j` loops of `minimax`, from cell (i, j) on,
   * with `acc` the best score so far.
   */
  ghost function Best(g: Grid, n: nat, maximizing: bool, i: nat, j: nat, acc: int): int
    requires IsSquare(g, n) && i <= n && j <= n
    decreases EmptyCells(g, n), 0, n - i, n - j + 1
  {
    if i == n then acc
    else if j == n then
      Best(g, n, maximizing, i + 1, 0, acc)
    else if g[i][j] == Empty then
      Best(g, n, maximizing, i, j + 1, Pick(maximizing, acc, ChildValue(g, n, maximizing, i, j)))
    else
      Best(g, n, maximizing, i, j + 1, acc)
  }

  /** One cell of the scan: an empty cell is scored, a taken one skipped. */
  lemma BestStep(g: Grid, n: nat, maximizing: bool, i: nat, j: nat, acc: int)
    requires IsSquare(g, n) && InGrid(i, j, n)
    ensures g[i][j] == Empty ==>
              Best(g, n, maximizing, i, j, acc) ==
              Best(g, n, maximizing, i, j + 1, Pick(maximizing, acc, ChildValue(g, n, maximizing, i, j)))
    ensures g[i][j] != Empty ==> Best(g, n, maximizing, i, j, acc) == Best(g, n, maximizing, i, j + 1, acc)
  {
  }

  /** The end of a row of the scan, and the end of the whole scan. */
  lemma BestRowEnd(g: Grid, n: nat, maximizing: bool, i: nat, acc: int)
    requires IsSquare(g, n) && i <= n
    ensures i < n ==> Best(g, n, maximizing, i, n, acc) == Best(g, n, maximizing, i + 1, 0, acc)
    ensures i == n ==> Best(g, n, maximizing, i, 0, acc) == acc
  {
  }

  /** The scan never does worse than its accumulator. */
  lemma {:induction false} BestKeepsAcc(g: Grid, n: nat, maximizing: bool, i: nat, j: nat, acc: int)
    requires IsSquare(g, n) && i <= n && j <= n
    ensures NoWorse(maximizing, acc, Best(g, n, maximizing, i, j, acc))
    decreases n - i, n - j + 1
  {
    if i == n {
    } else if j == n {
      BestKeepsAcc(g, n, maximizing, i + 1, 0, acc);
    } else if g[i][j] == Empty {
      var acc' := Pick(maximizing, acc, ChildValue(g, n, maximizing, i, j));
      BestKeepsAcc(g, n, maximizing, i, j + 1, acc');
    } else {
      BestKeepsAcc(g, n, maximizing, i, j + 1, acc);
    }
  }

  /** The scan does no worse than the value of any empty cell from (i, j) on. */
  lemma {:induction false} BestBound(g: Grid, n: nat, maximizing: bool, i: nat, j: nat, acc: int, a: nat, b: nat)
    requires IsSquare(g, n) && i <= n && j <= n
    requires InGrid(a, b, n) && g[a][b] == Empty && !Before(a, b, i, j)
    ensures NoWorse(maximizing, ChildValue(g, n, maximizing, a, b), Best(g, n, maximizing, i, j, acc))
    decreases n - i, n - j + 1
  {
    if j == n {
      BestBound(g, n, maximizing, i + 1, 0, acc, a, b);
    } else if (i, j) == (a, b) {
      var acc' := Pick(maximizing, acc, ChildValue(g, n, maximizing, i, j));
      BestKeepsAcc(g, n, maximizing, i, j + 1, acc');
    } else if g[i][j] == Empty {
      var acc' := Pick(maximizing, acc, ChildValue(g, n, maximizing, i, j));
      BestBound(g, n, maximizing, i, j + 1, acc', a, b);
    } else {
      BestBound(g, n, maximizing, i, j + 1, acc, a, b);
    }
  }

  /** v is the accumulator or the value of some empty cell from (i, j) on. */
  ghost predicate AttainedFrom(g: Grid, n: nat, maximizing: bool, i: nat, j: nat, acc: int, v: int)
    requires IsSquare(g, n)
  {
    v == acc ||
    exists a, b :: InGrid(a, b, n) && !Before(a, b, i, j) && g[a][b] == Empty &&
      ChildValue(g, n, maximizing, a, b) == v
  }

  /** The best score of the scan is attained. */
  lemma {:induction false} BestAttained(g: Grid, n: nat, maximizing: bool, i: nat, j: nat, acc: int)
    requires IsSquare(g, n) && i <= n && j <= n
    ensures AttainedFrom(g, n, maximizing, i, j, acc, Best(g, n, maximizing, i, j, acc))
    decreases n - i, n - j + 1, 1
  {
    if i == n {
    } else if j == n {
      BestAttainedRowEnd(g, n, maximizing, i, acc);
    } else if g[i][j] == Empty {
      BestAttainedEmpty(g, n, maximizing, i, j, acc);
    } else {
      BestAttainedTaken(g, n, maximizing, i, j, acc);
    }
  }

  lemma {:induction false} BestAttainedRowEnd(g: Grid, n: nat, maximizing: bool, i: nat, acc: int)
    requires IsSquare(g, n) && i < n
    ensures AttainedFrom(g, n, maximizing, i, n, acc, Best(g, n, maximizing, i, n, acc))
    decreases n - i, 1, 0
  {
    var v := Best(g, n, maximizing, i + 1, 0, acc);
    assert Best(g, n, maximizing, i, n, acc) == v;
    BestAttained(g, n, maximizing, i + 1, 0, acc);
    if v != acc {
      var a, b :| InGrid(a, b, n) && !Before(a, b, i + 1, 0) && g[a][b] == Empty &&
                  ChildValue(g, n, maximizing, a, b) == v;
      assert !Before(a, b, i, n);
    }
  }

  lemma {:induction false} BestAttainedEmpty(g: Grid, n: nat, maximizing: bool, i: nat, j: nat, acc: int)
    requires IsSquare(g, n) && InGrid(i, j, n) && g[i][j] == Empty
    ensures AttainedFrom(g, n, maximizing, i, j, acc, Best(g, n, maximizing, i, j, acc))
    decreases n - i, n - j + 1, 0
  {
    var cv := ChildValue(g, n, maximizing, i, j);
    var acc' := Pick(maximizing, acc, cv);
    var v := Best(g, n, maximizing, i, j + 1, acc');
    assert Best(g, n, maximizing, i, j, acc) == v;
    BestAttained(g, n, maximizing, i, j + 1, acc');
    if v != acc {
      if v == acc' {
        assert !Before(i, j, i, j) && cv == v;
      } else {
        var a, b :| InGrid(a, b, n) && !Before(a, b, i, j + 1) && g[a][b] == Empty &&
                    ChildValue(g, n, maximizing, a, b) == v;
        assert !Before(a, b, i, j);
      }
    }
  }

  lemma {:induction false} BestAttainedTaken(g: Grid, n: nat, maximizing: bool, i: nat, j: nat, acc: int)
    requires IsSquare(g, n) && InGrid(i, j, n) && g[i][j] != Empty
    ensures AttainedFrom(g, n, maximizing, i, j, acc, Best(g, n, maximizing, i, j, acc))
    decreases n - i, n - j + 1, 0
  {
    var v := Best(g, n, maximizing, i, j + 1, acc);
    assert Best(g, n, maximizing, i, j, acc) == v;
    BestAttained(g, n, maximizing, i, j + 1, acc);
    if v != acc {
      var a, b :| InGrid(a, b, n) && !Before(a, b, i, j + 1) && g[a][b] == Empty &&
                  ChildValue(g, n, maximizing, a, b) == v;
      assert !Before(a, b, i, j);
    }
  }

  /** Every game value is -1, 0 or 1: the search always finds a finished board. */
  lemma {:induction false} ValueInRange(g: Grid, n: nat, maximizing: bool)
    requires IsSquare(g, n)
    ensures -1 <= GameValue(g, n, maximizing) <= 1
    decreases |EmptyCells(g, n)|, 1
  {
    if Outcome(g, n) == NoWinner {
      assert !IsFull(g, n);
      var a, b :| InGrid(a, b, n) && g[a][b] == Empty;
      var v := Best(g, n, maximizing, 0, 0, Start(maximizing));
      ChildValueInRange(g, n, maximizing, a, b);
      BestBound(g, n, maximizing, 0, 0, Start(maximizing), a, b);
      assert v != Start(maximizing);
      BestAttained(g, n, maximizing, 0, 0, Start(maximizing));
      var a', b' :| InGrid(a', b', n) && !Before(a', b', 0, 0) && g[a'][b'] == Empty &&
                    ChildValue(g, n, maximizing, a', b') == v;
      ChildValueInRange(g, n, maximizing, a', b');
    }
  }

  lemma {:induction false} ChildValueInRange(g: Grid, n: nat, maximizing: bool, a: nat, b: nat)
    requires IsSquare(g, n) && InGrid(a, b, n) && g[a][b] == Empty
    ensures -1 <= ChildValue(g, n, maximizing, a, b) <= 1
    decreases |EmptyCells(g, n)|, 0
  {
    PlacementUsesOneEmptyCell(g, n, a, b, Mover(maximizing));
    ValueInRange(Set(g, n, a, b, Taken(Mover(maximizing))), n, !maximizing);
  }

  /**
   * On a board in progress the value is the best child value for the side
   * to move: no empty cell does better, and some empty cell attains it.
   */
  lemma ValueIsOptimal(g: Grid, n: nat, maximizing: bool)
    requires IsSquare(g, n) && Outcome(g, n) == NoWinner
    ensures forall a, b :: InGrid(a, b, n) && g[a][b] == Empty ==>
              NoWorse(maximizing, ChildValue(g, n, maximizing, a, b), GameValue(g, n, maximizing))
    ensures exists a, b :: InGrid(a, b, n) && g[a][b] == Empty &&
              ChildValue(g, n, maximizing, a, b) == GameValue(g, n, maximizing)
  {
    forall a, b | InGrid(a, b, n) && g[a][b] == Empty
      ensures NoWorse(maximizing, ChildValue(g, n, maximizing, a, b), GameValue(g, n, maximizing))
    {
      BestBound(g, n, maximizing, 0, 0, Start(maximizing), a, b);
    }
    ValueInRange(g, n, maximizing);
    BestAttained(g, n, maximizing, 0, 0, Start(maximizing));
  }

  // ---------------------------------------------------------------------
  // The best-move choice

  /**
   * (r, c) is what the best-move loop picks: an empty cell whose value for
   * the computer is maximal, and the first such cell in row-major order
   * (the comparison `score > bestScore` is strict).
   */
  ghost predicate FirstBest(g: Grid, n: nat, r: nat, c: nat)
    requires IsSquare(g, n)
  {
    InGrid(r, c, n) && g[r][c] == Empty &&
    (forall a, b :: InGrid(a, b, n) && g[a][b] == Empty ==>
       ChildValue(g, n, true, a, b) <= ChildValue(g, n, true, r, c)) &&
    (forall a, b :: InGrid(a, b, n) && g[a][b] == Empty && Before(a, b, r, c) ==>
       ChildValue(g, n, true, a, b) < ChildValue(g, n, true, r, c))
  }

  /** The tie-break makes the choice unique. */
  lemma FirstBestUnique(g: Grid, n: nat, r: nat, c: nat, r': nat, c': nat)
    requires IsSquare(g, n) && FirstBest(g, n, r, c) && FirstBest(g, n, r', c')
    ensures r == r' && c == c'
  {
  }

  /** On a board in progress the chosen move achieves the minimax value. */
  lemma FirstBestAchievesValue(g: Grid, n: nat, r: nat, c: nat)
    requires IsSquare(g, n) && Outcome(g, n) == NoWinner && FirstBest(g, n, r, c)
    ensures ChildValue(g, n, true, r, c) == GameValue(g, n, true)
  {
    ValueIsOptimal(g, n, true);
  }

  /**
   * When some empty cell wins on the spot for the computer, the chosen move
   * has value 1: it wins, at once or by force.
   */
  lemma WinningMoveAvailable(g: Grid, n: nat, r: nat, c: nat, a: nat, b: nat)
    requires IsSquare(g, n) && FirstBest(g, n, r, c)
    requires InGrid(a, b, n) && g[a][b] == Empty
    requires Outcome(Set(g, n, a, b, Taken(Computer)), n) == Won(Computer)
    ensures ChildValue(g, n, true, r, c) == 1
  {
    assert ChildValue(g, n, true, a, b) == 1;
    ChildValueInRange(g, n, true, r, c);
  }

  /**
   * The state of the best-move loop once every cell before (i, j) has been
   * scored: `move` is the first cell with the highest score so far and
   * `best` that score, or no empty cell has been seen and `best` is still
   * the sentinel.
   */
  ghost predicate ScanState(g: Grid, n: nat, i: nat, j: nat, best: int, move: Option<(nat, nat)>)
    requires IsSquare(g, n)
  {
    (move.None? ==>
       best == NegInf &&
       forall a, b :: InGrid(a, b, n) && Before(a, b, i, j) ==> g[a][b] != Empty) &&
    (move.Some? ==>
       InGrid(move.value.0, move.value.1, n) && Before(move.value.0, move.value.1, i, j) &&
       g[move.value.0][move.value.1] == Empty &&
       best == ChildValue(g, n, true, move.value.0, move.value.1) &&
       (forall a, b :: InGrid(a, b, n) && g[a][b] == Empty && Before(a, b, move.value.0, move.value.1) ==>
          ChildValue(g, n, true, a, b) < best)) &&
    (forall a, b :: InGrid(a, b, n) && g[a][b] == Empty && Before(a, b, i, j) ==>
       ChildValue(g, n, true, a, b) <= best)
  }

  /** Scoring an empty cell: a strictly higher score replaces the best move. */
  lemma ScanStepEmpty(g: Grid, n: nat, i: nat, j: nat, best: int, move: Option<(nat, nat)>, score: int)
    requires IsSquare(g, n) && InGrid(i, j, n) && g[i][j] == Empty
    requires ScanState(g, n, i, j, best, move) && score == ChildValue(g, n, true, i, j)
    ensures score > best ==> ScanState(g, n, i, j + 1, score, Some((i, j)))
    ensures score <= best ==> ScanState(g, n, i, j + 1, best, move)
  {
    ChildValueInRange(g, n, true, i, j);
  }

  lemma ScanStepTaken(g: Grid, n: nat, i: nat, j: nat, best: int, move: Option<(nat, nat)>)
    requires IsSquare(g, n) && InGrid(i, j, n) && g[i][j] != Empty
    requires ScanState(g, n, i, j, best, move)
    ensures ScanState(g, n, i, j + 1, best, move)
  {
  }

  lemma ScanNextRow(g: Grid, n: nat, i: nat, best: int, move: Option<(nat, nat)>)
    requires IsSquare(g, n) && i < n && ScanState(g, n, i, n, best, move)
    ensures ScanState(g, n, i + 1, 0, best, move)
  {
  }

  /** After the whole board, a board with an empty cell has its first best move. */
  lemma ScanDone(g: Grid, n: nat, best: int, move: Option<(nat, nat)>)
    requires IsSquare(g, n) && !IsFull(g, n) && ScanState(g, n, n, 0, best, move)
    ensures move.Some? && FirstBest(g, n, move.value.0, move.value.1)
  {
  }
}
