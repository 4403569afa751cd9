/**
 * The diagonal winning strategy of tic-tac-toe (DiagonalWinningStrategy.java):
 * a player wins along a diagonal when every square of the main diagonal, or
 * every square of the anti-diagonal, holds the player's symbol.
 */
module TicTacToeStrategy {
  import opened TicTacToeBoard

  /** The square of row i on the anti-diagonal. */
  function AntiCell(g: seq<seq<Symbol>>, i: int): Symbol
    requires Square(g, |g|) && 0 <= i < |g|
  {
    g[i][|g| - 1 - i]
  }

  ghost predicate MainDiagonal(g: seq<seq<Symbol>>, s: Symbol)
    requires Square(g, |g|)
  {
    forall i :: 0 <= i < |g| ==> g[i][i] == s
  }

  ghost predicate AntiDiagonal(g: seq<seq<Symbol>>, s: Symbol)
    requires Square(g, |g|)
  {
    forall i :: 0 <= i < |g| ==> AntiCell(g, i) == s
  }

  ghost predicate DiagonalWin(g: seq<seq<Symbol>>, s: Symbol)
    requires Square(g, |g|)
  {
    MainDiagonal(g, s) || AntiDiagonal(g, s)
  }

  /** One square off the symbol on each diagonal is enough to rule the diagonals out. */
  lemma DiagonalMismatch(g: seq<seq<Symbol>>, s: Symbol, i: int, j: int)
    requires Square(g, |g|) && 0 <= i < |g| && 0 <= j < |g|
    requires g[i][i] != s && AntiCell(g, j) != s
    ensures !DiagonalWin(g, s)
  {
  }

  /**
   * check: scans the main diagonal, stopping at the first square that is not
   * the player's, then the anti-diagonal the same way. Every probed square is
   * on the board, and the board is only read.
   */
  method DiagonalCheck(board: Board, symbol: Symbol) returns (r: bool)
    requires board.Valid()
    ensures r == DiagonalWin(board.Grid(), symbol)
  {
    ghost var g := board.Grid();
    var mainDiagWin := true;
    var i := 0;
    while i < board.size
      invariant 0 <= i <= board.size
      invariant forall j :: 0 <= j < i ==> g[j][j] == symbol
    {
      var cell := board.GetCell(i, i);
      if cell.value != symbol {
        assert g[i][i] != symbol;
        mainDiagWin := false;
        break;
      }
      i := i + 1;
    }
    if mainDiagWin {
      return true;
    }
    assert !MainDiagonal(g, symbol);
    var antiDiagWin := true;
    i := 0;
    while i < board.size
      invariant 0 <= i <= board.size
      invariant forall j :: 0 <= j < i ==> AntiCell(g, j) == symbol
    {
      var cell := board.GetCell(i, board.size - 1 - i);
      if cell.value != symbol {
        assert AntiCell(g, i) != symbol;
        antiDiagWin := false;
        break;
      }
      i := i + 1;
    }
    return antiDiagWin;
  }
}
