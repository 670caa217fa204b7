// Value-level rules of the Gameboard: the grid of cells, the lines a side
// can complete, and the outcome that the terminal check computes.

module Rules {

  datatype Option<T> = None | Some(value: T)

  /** The two sides; `Player` is the human ('p'), `Computer` is 'c'. */
  datatype Side = Player | Computer

  /** A cell's `placedBy`: null, or the side whose marker it holds. */
  datatype Cell = Empty | Taken(owner: Side)

  /** The `winner` field: null, 'Player', 'Computer' or 'Tie'. */
  datatype Winner = NoWinner | Won(side: Side) | Tie

  /** A snapshot of the grid: `g[row][col]`. */
  type Grid = seq<seq<Cell>>

  function Other(s: Side): (o: Side)
    ensures o != s
  {
    if s == Player then Computer else Player
  }

  ghost predicate IsSquare(g: Grid, n: nat)
  {
    |g| == n && forall i :: 0 <= i < n ==> |g[i]| == n
  }

  predicate InGrid(i: int, j: int, n: nat)
  {
    0 <= i < n && 0 <= j < n
  }

  /** The grid with cell (i, j) set to x. */
  function Set(g: Grid, n: nat, i: nat, j: nat, x: Cell): (h: Grid)
    requires IsSquare(g, n) && InGrid(i, j, n)
    ensures IsSquare(h, n)
  {
    g[i := g[i][j := x]]
  }

  /** Set changes cell (i, j) to x and no other cell. */
  lemma SetCells(g: Grid, n: nat, i: nat, j: nat, x: Cell)
    requires IsSquare(g, n) && InGrid(i, j, n)
    ensures Set(g, n, i, j, x)[i][j] == x
    ensures forall a, b :: InGrid(a, b, n) && (a, b) != (i, j) ==> Set(g, n, i, j, x)[a][b] == g[a][b]
  {
  }

  /** Two square grids with the same cells are the same grid. */
  lemma GridExt(g: Grid, h: Grid, n: nat)
    requires IsSquare(g, n) && IsSquare(h, n)
    requires forall a, b :: InGrid(a, b, n) ==> g[a][b] == h[a][b]
    ensures g == h
  {
    forall a | 0 <= a < n
      ensures g[a] == h[a]
    {
      assert forall b :: 0 <= b < n ==> g[a][b] == h[a][b];
    }
  }

  // ---------------------------------------------------------------------
  // Lines

  ghost predicate OwnsRow(g: Grid, n: nat, r: nat, s: Side)
    requires IsSquare(g, n) && r < n
  {
    forall t :: 0 <= t < n ==> g[r][t] == Taken(s)
  }

  ghost predicate OwnsCol(g: Grid, n: nat, c: nat, s: Side)
    requires IsSquare(g, n) && c < n
  {
    forall t :: 0 <= t < n ==> g[t][c] == Taken(s)
  }

  /** The main diagonal, cells (t, t). */
  ghost predicate OwnsMainDiag(g: Grid, n: nat, s: Side)
    requires IsSquare(g, n)
  {
    forall t :: 0 <= t < n ==> g[t][t] == Taken(s)
  }

  /** The anti-diagonal, cells (t, n - 1 - t). */
  ghost predicate OwnsAntiDiag(g: Grid, n: nat, s: Side)
    requires IsSquare(g, n)
  {
    forall t :: 0 <= t < n ==> g[t][n - 1 - t] == Taken(s)
  }

  ghost predicate OwnsDiag(g: Grid, n: nat, s: Side)
    requires IsSquare(g, n)
  {
    OwnsMainDiag(g, n, s) || OwnsAntiDiag(g, n, s)
  }

  // The same lines read cell by cell, as the terminal check's loops do:
  // the first k cells of each belong to s.

  ghost predicate MainDiagPrefix(g: Grid, n: nat, k: nat, s: Side)
    requires IsSquare(g, n) && k <= n
  {
    k == 0 || (MainDiagPrefix(g, n, k - 1, s) && g[k - 1][k - 1] == Taken(s))
  }

  ghost predicate AntiDiagPrefix(g: Grid, n: nat, k: nat, s: Side)
    requires IsSquare(g, n) && k <= n
  {
    k == 0 || (AntiDiagPrefix(g, n, k - 1, s) && g[k - 1][n - k] == Taken(s))
  }

  ghost predicate RowPrefix(g: Grid, n: nat, r: nat, k: nat, s: Side)
    requires IsSquare(g, n) && r < n && k <= n
  {
    k == 0 || (RowPrefix(g, n, r, k - 1, s) && g[r][k - 1] == Taken(s))
  }

  ghost predicate ColPrefix(g: Grid, n: nat, c: nat, k: nat, s: Side)
    requires IsSquare(g, n) && c < n && k <= n
  {
    k == 0 || (ColPrefix(g, n, c, k - 1, s) && g[k - 1][c] == Taken(s))
  }

  lemma {:induction false} MainDiagPrefixAll(g: Grid, n: nat, k: nat, s: Side)
    requires IsSquare(g, n) && k <= n
    ensures MainDiagPrefix(g, n, k, s) <==> forall t :: 0 <= t < k ==> g[t][t] == Taken(s)
  {
    if k > 0 {
      MainDiagPrefixAll(g, n, k - 1, s);
    }
  }

  lemma {:induction false} AntiDiagPrefixAll(g: Grid, n: nat, k: nat, s: Side)
    requires IsSquare(g, n) && k <= n
    ensures AntiDiagPrefix(g, n, k, s) <==> forall t :: 0 <= t < k ==> g[t][n - 1 - t] == Taken(s)
  {
    if k > 0 {
      AntiDiagPrefixAll(g, n, k - 1, s);
    }
  }

  lemma {:induction false} RowPrefixAll(g: Grid, n: nat, r: nat, k: nat, s: Side)
    requires IsSquare(g, n) && r < n && k <= n
    ensures RowPrefix(g, n, r, k, s) <==> forall t :: 0 <= t < k ==> g[r][t] == Taken(s)
  {
    if k > 0 {
      RowPrefixAll(g, n, r, k - 1, s);
    }
  }

  lemma {:induction false} ColPrefixAll(g: Grid, n: nat, c: nat, k: nat, s: Side)
    requires IsSquare(g, n) && c < n && k <= n
    ensures ColPrefix(g, n, c, k, s) <==> forall t :: 0 <= t < k ==> g[t][c] == Taken(s)
  {
    if k > 0 {
      ColPrefixAll(g, n, c, k - 1, s);
    }
  }

  /** Row k or column k belongs entirely to s. */
  ghost predicate OwnsLineAt(g: Grid, n: nat, k: nat, s: Side)
    requires IsSquare(g, n) && k < n
  {
    OwnsRow(g, n, k, s) || OwnsCol(g, n, k, s)
  }

  /** s occupies every cell of some row, column or diagonal. */
  ghost predicate HasLine(g: Grid, n: nat, s: Side)
    requires IsSquare(g, n)
  {
    OwnsDiag(g, n, s) || exists k :: 0 <= k < n && OwnsLineAt(g, n, k, s)
  }

  /** No cell is empty. */
  ghost predicate IsFull(g: Grid, n: nat)
    requires IsSquare(g, n)
  {
    forall a, b :: InGrid(a, b, n) ==> g[a][b] != Empty
  }

  // ---------------------------------------------------------------------
  // The terminal check

  /**
   * The row-and-column pass of the terminal check, from index i on: the
   * first index k whose row k or column k is complete decides, and at that
   * index the player is looked at before the computer.
   */
  ghost function LineWinner(g: Grid, n: nat, i: nat): Option<Side>
    requires IsSquare(g, n) && i <= n
    decreases n - i
  {
    if i == n then None
    else if OwnsLineAt(g, n, i, Player) then Some(Player)
    else if OwnsLineAt(g, n, i, Computer) then Some(Computer)
    else LineWinner(g, n, i + 1)
  }

  /**
   * The winner that the terminal check computes: the diagonals first (the
   * player's before the computer's), then the rows and columns index by
   * index; with no complete line, Tie on a full board and no winner
   * otherwise.
   */
  ghost function Outcome(g: Grid, n: nat): Winner
    requires IsSquare(g, n)
  {
    if OwnsDiag(g, n, Player) then Won(Player)
    else if OwnsDiag(g, n, Computer) then Won(Computer)
    else match LineWinner(g, n, 0)
      case Some(s) => Won(s)
      case None => if IsFull(g, n) then Tie else NoWinner
  }

  /** `boardValue`: the computer maximises, the player minimises. */
  function BoardValue(w: Winner): (v: int)
    requires w != NoWinner
    ensures -1 <= v <= 1
    ensures v == 1 <==> w == Won(Computer)
    ensures v == -1 <==> w == Won(Player)
  {
    match w
    case Won(Player) => -1
    case Tie => 0
    case Won(Computer) => 1
  }

  // ---------------------------------------------------------------------
  // What the terminal check means

  lemma {:induction false} LineWinnerSound(g: Grid, n: nat, i: nat, s: Side)
    requires IsSquare(g, n) && i <= n
    requires LineWinner(g, n, i) == Some(s)
    ensures exists k :: i <= k < n && OwnsLineAt(g, n, k, s)
    decreases n - i
  {
    if OwnsLineAt(g, n, i, Player) || OwnsLineAt(g, n, i, Computer) {
      assert OwnsLineAt(g, n, i, s);
    } else {
      LineWinnerSound(g, n, i + 1, s);
    }
  }

  lemma {:induction false} LineWinnerComplete(g: Grid, n: nat, i: nat, k: nat, s: Side)
    requires IsSquare(g, n) && i <= k < n
    requires OwnsLineAt(g, n, k, s)
    ensures LineWinner(g, n, i).Some?
    decreases n - i
  {
    if !(OwnsLineAt(g, n, i, Player) || OwnsLineAt(g, n, i, Computer)) {
      assert i != k;
      LineWinnerComplete(g, n, i + 1, k, s);
    }
  }

  /**
   * The result from the two passes: the diagonal flags, or, when no
   * diagonal is complete, the flags of the first complete row or column.
   */
  lemma OutcomeOfPasses(g: Grid, n: nat, playerWin: bool, computerWin: bool)
    requires IsSquare(g, n)
    requires OwnsDiag(g, n, Player) || OwnsDiag(g, n, Computer) ==>
               playerWin == OwnsDiag(g, n, Player) && computerWin == OwnsDiag(g, n, Computer)
    requires !OwnsDiag(g, n, Player) && !OwnsDiag(g, n, Computer) ==>
               playerWin == (LineWinner(g, n, 0) == Some(Player)) &&
               (!playerWin ==> computerWin == (LineWinner(g, n, 0) == Some(Computer)))
    ensures Outcome(g, n) ==
              if playerWin then Won(Player) else if computerWin then Won(Computer)
              else if IsFull(g, n) then Tie else NoWinner
  {
    if !OwnsDiag(g, n, Player) && !OwnsDiag(g, n, Computer) && LineWinner(g, n, 0).Some? {
      var s := LineWinner(g, n, 0).value;
      assert s == Player || s == Computer;
    }
  }

  /** A side the terminal check declares the winner does own a line. */
  lemma OutcomeSound(g: Grid, n: nat, s: Side)
    requires IsSquare(g, n)
    requires Outcome(g, n) == Won(s)
    ensures HasLine(g, n, s)
  {
    if !OwnsDiag(g, n, Player) && !OwnsDiag(g, n, Computer) {
      LineWinnerSound(g, n, 0, s);
    }
  }

  /** Someone wins exactly when some side owns a line. */
  lemma OutcomeWonIffLine(g: Grid, n: nat)
    requires IsSquare(g, n)
    ensures Outcome(g, n).Won? <==> HasLine(g, n, Player) || HasLine(g, n, Computer)
  {
    if Outcome(g, n).Won? {
      var w := Outcome(g, n).side;
      OutcomeSound(g, n, w);
      assert HasLine(g, n, w);
      assert w == Player || w == Computer;
    }
    if HasLine(g, n, Player) || HasLine(g, n, Computer) {
      if !OwnsDiag(g, n, Player) && !OwnsDiag(g, n, Computer) {
        var s: Side, k :| 0 <= k < n && OwnsLineAt(g, n, k, s);
        LineWinnerComplete(g, n, 0, k, s);
      }
      assert Outcome(g, n).Won?;
    }
  }

  /**
   * When at most one side owns a line (every board reached by play), the
   * terminal check names s the winner exactly when s owns a line.
   */
  lemma WinDetection(g: Grid, n: nat, s: Side)
    requires IsSquare(g, n)
    requires !(HasLine(g, n, Player) && HasLine(g, n, Computer))
    ensures Outcome(g, n) == Won(s) <==> HasLine(g, n, s)
  {
    OutcomeWonIffLine(g, n);
    if Outcome(g, n).Won? {
      OutcomeSound(g, n, Outcome(g, n).side);
    }
  }

  /** With no line for either side: a Tie exactly on a full board, else no winner. */
  lemma TieDetection(g: Grid, n: nat)
    requires IsSquare(g, n)
    requires !HasLine(g, n, Player) && !HasLine(g, n, Computer)
    ensures Outcome(g, n) == Tie <==> IsFull(g, n)
    ensures Outcome(g, n) == NoWinner <==> !IsFull(g, n)
  {
    OutcomeWonIffLine(g, n);
  }

  /** The empty board of size n >= 1 is in progress: no winner yet. */
  lemma EmptyBoardInProgress(g: Grid, n: nat)
    requires IsSquare(g, n) && n > 0
    requires forall a, b :: InGrid(a, b, n) ==> g[a][b] == Empty
    ensures Outcome(g, n) == NoWinner
  {
    assert g[0][0] == Empty;
    assert !HasLine(g, n, Player) && !HasLine(g, n, Computer) by {
      forall s: Side ensures !HasLine(g, n, s) {
        assert !OwnsMainDiag(g, n, s) && !OwnsAntiDiag(g, n, s) by {
          assert g[0][n - 1] == Empty;
        }
        forall k | 0 <= k < n ensures !OwnsLineAt(g, n, k, s) {
          assert g[k][0] == Empty && g[0][k] == Empty;
        }
      }
    }
    TieDetection(g, n);
  }

  /**
   * The terminal check is not a plain "player first" rule: a lower-numbered complete
   * row of the computer beats a complete row of the player.
   */
  lemma EarlierRowDecides()
    ensures var E, C, P := Empty, Taken(Computer), Taken(Player);
            var g := [[C, C, C], [E, E, E], [P, P, P]];
            IsSquare(g, 3) && HasLine(g, 3, Player) && Outcome(g, 3) == Won(Computer)
  {
    var E, C, P := Empty, Taken(Computer), Taken(Player);
    var g := [[C, C, C], [E, E, E], [P, P, P]];
    assert OwnsRow(g, 3, 2, Player);
    assert OwnsRow(g, 3, 0, Computer);
    assert HasLine(g, 3, Player) by { assert OwnsLineAt(g, 3, 2, Player); }
    assert !OwnsDiag(g, 3, Player) && !OwnsDiag(g, 3, Computer) by {
      assert g[1][1] == E;
    }
    assert !OwnsLineAt(g, 3, 0, Player) by { assert g[0][0] == C; }
    assert LineWinner(g, 3, 0) == Some(Computer);
  }

  // ---------------------------------------------------------------------
  // Placement and removal on values

  /** Placing into an empty cell and clearing it again gives back the grid. */
  lemma PlaceThenRemove(g: Grid, n: nat, i: nat, j: nat, x: Cell)
    requires IsSquare(g, n) && InGrid(i, j, n) && g[i][j] == Empty
    ensures Set(Set(g, n, i, j, x), n, i, j, Empty) == g
  {
    SetCells(g, n, i, j, x);
    SetCells(Set(g, n, i, j, x), n, i, j, Empty);
    GridExt(Set(Set(g, n, i, j, x), n, i, j, Empty), g, n);
  }

  /**
   * A marker of s never completes a line for the other side: if the other
   * side had no line before, it has none after. Hence on every board reached
   * by placements made while nobody had won, at most one side owns a line.
   */
  lemma PlacementKeepsOpponentLineless(g: Grid, n: nat, i: nat, j: nat, s: Side)
    requires IsSquare(g, n) && InGrid(i, j, n)
    requires !HasLine(g, n, Other(s))
    ensures !HasLine(Set(g, n, i, j, Taken(s)), n, Other(s))
  {
    var h := Set(g, n, i, j, Taken(s));
    var o := Other(s);
    SetCells(g, n, i, j, Taken(s));
    // a cell o holds in h is not (i, j), so o held it in g as well
    assert forall a, b :: InGrid(a, b, n) && h[a][b] == Taken(o) ==> g[a][b] == Taken(o);
    assert !OwnsMainDiag(h, n, o) && !OwnsAntiDiag(h, n, o);
    assert forall k :: 0 <= k < n && OwnsRow(h, n, k, o) ==> OwnsRow(g, n, k, o);
    assert forall k :: 0 <= k < n && OwnsCol(h, n, k, o) ==> OwnsCol(g, n, k, o);
    assert forall k :: 0 <= k < n && OwnsLineAt(h, n, k, o) ==> OwnsLineAt(g, n, k, o);
  }

  /**
   * Play never produces a board on which both sides own a line: markers are
   * placed only while neither side has one, and a marker of s gives the
   * other side none.
   */
  lemma PlacementLeavesOneLineOwner(g: Grid, n: nat, i: nat, j: nat, s: Side)
    requires IsSquare(g, n) && InGrid(i, j, n)
    requires !HasLine(g, n, Player) && !HasLine(g, n, Computer)
    ensures !(HasLine(Set(g, n, i, j, Taken(s)), n, Player) && HasLine(Set(g, n, i, j, Taken(s)), n, Computer))
  {
    PlacementKeepsOpponentLineless(g, n, i, j, s);
    assert Other(s) == Player || Other(s) == Computer;
  }
}
