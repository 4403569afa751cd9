/**
 * Tic-tac-toe game (TicTacToe Game.java, InProgressState.java,
 * WinnerState.java): two players, a 3-by-3 board, the player to move, the
 * winner once there is one, the status and the state object that decides
 * what a move does.
 *
 * The row and column winning strategies are not part of this model; the game
 * receives them as functions of the squares and the symbol. The state classes
 * are the constructors of `GameState`; the draw state's behaviour is not part
 * of this model either, so no move is made in it.
 */
module TicTacToeGame {
  import opened Wrappers
  import opened TicTacToeBoard
  import opened TicTacToeStrategy

  /** A player has a name and plays one symbol; players are compared by identity. */
  class Player {
    const name: string
    const symbol: Symbol

    constructor (name: string, symbol: Symbol)
      ensures this.name == name && this.symbol == symbol
    {
      this.name := name;
      this.symbol := symbol;
    }
  }

  datatype GameStatus = InProgress | WinnerX | WinnerO | Draw

  datatype GameState = InProgressState | WinnerState | DrawState

  datatype Strategy = RowStrategy | ColumnStrategy | DiagonalStrategy

  datatype GameError = NotYourTurn | InvalidPlacement(cause: BoardError) | GameOver(winnerName: string)

  /** The status a win by `symbol` announces: X wins as X, any other symbol as O. */
  function WinnerStatus(symbol: Symbol): (s: GameStatus)
    ensures s == WinnerX <==> symbol == X
    ensures s == WinnerO <==> symbol != X
  {
    if symbol == X then WinnerX else WinnerO
  }

  /** The player to move after `current`, between `p1` and `p2`. */
  function Switched(current: Player, p1: Player, p2: Player): Player
  {
    if current == p1 then p2 else p1
  }

  /** switchPlayer twice gives the turn back. */
  lemma SwitchTwice(current: Player, p1: Player, p2: Player)
    requires current == p1 || current == p2
    ensures Switched(Switched(current, p1, p2), p1, p2) == current
    ensures p1 != p2 ==> Switched(current, p1, p2) != current
  {
  }

  class Game {
    const board: Board
    const player1: Player
    const player2: Player
    var currentPlayer: Player
    var winner: Player?
    var status: GameStatus
    var state: GameState
    const rowWins: (seq<seq<Symbol>>, Symbol) -> bool
    const columnWins: (seq<seq<Symbol>>, Symbol) -> bool
    const winningStrategies: seq<Strategy>
    /** The statuses announced to the observers, oldest first. */
    var notices: seq<GameStatus>

    ghost predicate Valid()
      reads this, board
    {
      && board.Valid() && board.size == 3
      && (currentPlayer == player1 || currentPlayer == player2)
      && winningStrategies == [RowStrategy, ColumnStrategy, DiagonalStrategy]
      && (state == InProgressState <==> status == InProgress)
      && (state == DrawState <==> status == Draw)
      && (state == WinnerState ==> winner != null)
    }

    /** What one strategy reports for `symbol` on the squares `g`. */
    ghost predicate Reports(s: Strategy, g: seq<seq<Symbol>>, symbol: Symbol)
      requires Square(g, |g|)
    {
      match s
      case RowStrategy => rowWins(g, symbol)
      case ColumnStrategy => columnWins(g, symbol)
      case DiagonalStrategy => DiagonalWin(g, symbol)
    }

    /** Some strategy reports a win. */
    ghost predicate Wins(g: seq<seq<Symbol>>, symbol: Symbol)
      requires Square(g, |g|)
    {
      rowWins(g, symbol) || columnWins(g, symbol) || DiagonalWin(g, symbol)
    }

    /** A new game: empty 3-by-3 board, the first player to move, in progress. */
    constructor (player1: Player, player2: Player,
                 rowWins: (seq<seq<Symbol>>, Symbol) -> bool,
                 columnWins: (seq<seq<Symbol>>, Symbol) -> bool)
      ensures Valid() && fresh(board) && fresh(board.cells)
      ensures board.Counted() && board.movesCount == 0
      ensures forall r, c :: 0 <= r < 3 && 0 <= c < 3 ==> board.cells[r, c] == Empty
      ensures this.player1 == player1 && this.player2 == player2
      ensures this.rowWins == rowWins && this.columnWins == columnWins
      ensures currentPlayer == player1 && winner == null
      ensures status == InProgress && state == InProgressState && notices == []
    {
      board := new Board(3);
      this.player1 := player1;
      this.player2 := player2;
      currentPlayer := player1;
      winner := null;
      status := InProgress;
      state := InProgressState;
      this.rowWins := rowWins;
      this.columnWins := columnWins;
      winningStrategies := [RowStrategy, ColumnStrategy, DiagonalStrategy];
      notices := [];
    }

    /** One strategy's check. */
    method Check(s: Strategy, symbol: Symbol) returns (r: bool)
      requires board.Valid()
      ensures r == Reports(s, board.Grid(), symbol)
    {
      match s
      case RowStrategy =>
        r := rowWins(board.Grid(), symbol);
      case ColumnStrategy =>
        r := columnWins(board.Grid(), symbol);
      case DiagonalStrategy =>
        r := DiagonalCheck(board, symbol);
    }

    /** checkWinner: asks the strategies in turn and stops at the first that reports a win. */
    method CheckWinner(player: Player) returns (r: bool)
      requires Valid()
      ensures r == Wins(board.Grid(), player.symbol)
    {
      var i := 0;
      while i < |winningStrategies|
        invariant 0 <= i <= |winningStrategies|
        invariant forall j :: 0 <= j < i ==> !Reports(winningStrategies[j], board.Grid(), player.symbol)
      {
        var hit := Check(winningStrategies[i], player.symbol);
        if hit {
          return true;
        }
        i := i + 1;
      }
      assert !Reports(winningStrategies[0], board.Grid(), player.symbol);
      assert !Reports(winningStrategies[1], board.Grid(), player.symbol);
      assert !Reports(winningStrategies[2], board.Grid(), player.symbol);
      return false;
    }

    method SwitchPlayer()
      modifies this
      ensures currentPlayer == Switched(old(currentPlayer), player1, player2)
      ensures winner == old(winner) && status == old(status) && state == old(state) && notices == old(notices)
    {
      currentPlayer := if currentPlayer == player1 then player2 else player1;
    }

    /** setStatus: records the status; a finished game is announced to the observers. */
    method SetStatus(s: GameStatus)
      modifies this
      ensures status == s
      ensures notices == old(notices) + (if s != InProgress then [s] else [])
      ensures currentPlayer == old(currentPlayer) && winner == old(winner) && state == old(state)
    {
      status := s;
      if s != InProgress {
        notices := notices + [s];
      }
    }

    /** makeMove: the current state object handles the move. */
    method MakeMove(player: Player, row: int, col: int) returns (r: Result<(), GameError>)
      requires Valid() && state != DrawState
      modifies this, board, board.cells
      ensures Valid()
      ensures old(state) == WinnerState ==>
        && r == Err(GameOver(old(winner).name))
        && unchanged(this) && unchanged(board) && unchanged(board.cells)
    ensures old(state) == InProgressState ==>
      && (player != old(currentPlayer) ==> r == Err(NotYourTurn))
      && (r.Ok? <==> player == old(currentPlayer) && 0 <= row < 3 && 0 <= col < 3 && old(board.cells[row, col]) == Empty)
      && (r.Ok? ==> board.movesCount == old(board.movesCount) + 1 && (state == WinnerState ==> winner == player))
    {
      match state
      case InProgressState =>
        r := HandleInProgress(player, row, col);
      case WinnerState =>
        r := HandleWhenWon(player, row, col);
    }

    /** WinnerState.handleMove: every move is refused, naming the winner. */
    method HandleWhenWon(player: Player, row: int, col: int) returns (r: Result<(), GameError>)
      requires Valid() && state == WinnerState
      ensures r == Err(GameOver(winner.name))
    {
      r := Err(GameOver(winner.name));
    }

    /**
     * The rest of InProgressState.handleMove once the symbol is placed: a win
     * makes the mover the winner, else a full board is a draw, else the turn
     * passes. The board is only read.
     */
    method Conclude(player: Player)
      requires Valid() && state == InProgressState && player == currentPlayer
      modifies this
      ensures Valid()
      ensures if Wins(board.Grid(), player.symbol) then
          && winner == player && status == WinnerStatus(player.symbol) && state == WinnerState
          && currentPlayer == old(currentPlayer) && notices == old(notices) + [status]
        else if board.movesCount == 9 then
          && winner == old(winner) && status == Draw && state == DrawState
          && currentPlayer == old(currentPlayer) && notices == old(notices) + [Draw]
        else
          && winner == old(winner) && status == InProgress && state == InProgressState
          && currentPlayer == Switched(old(currentPlayer), player1, player2) && notices == old(notices)
    {
      var won := CheckWinner(player);
      if won {
        winner := player;
        SetStatus(if player.symbol == X then WinnerX else WinnerO);
        state := WinnerState;
      } else if board.IsFull() {
        SetStatus(Draw);
        state := DrawState;
      } else {
        SwitchPlayer();
      }
    }

    /**
     * InProgressState.handleMove: a move out of turn or onto a bad square is
     * refused and changes nothing. Otherwise the symbol is placed; a win ends
     * the game with the mover as winner, else a full board ends it in a draw,
     * else the turn passes.
     */
    method HandleInProgress(player: Player, row: int, col: int) returns (r: Result<(), GameError>)
      requires Valid() && state == InProgressState
      modifies this, board, board.cells
      ensures Valid()
      ensures player != old(currentPlayer) ==>
        r == Err(NotYourTurn) && unchanged(this) && unchanged(board) && unchanged(board.cells)
      ensures player == old(currentPlayer) && !(0 <= row < 3 && 0 <= col < 3) ==>
        && r == Err(InvalidPlacement(OutOfBounds))
        && unchanged(this) && board.Grid() == old(board.Grid()) && board.movesCount == old(board.movesCount)
      ensures player == old(currentPlayer) && 0 <= row < 3 && 0 <= col < 3 && old(board.cells[row, col]) != Empty ==>
        && r == Err(InvalidPlacement(Occupied))
        && unchanged(this) && board.Grid() == old(board.Grid()) && board.movesCount == old(board.movesCount)
      ensures player == old(currentPlayer) && 0 <= row < 3 && 0 <= col < 3 && old(board.cells[row, col]) == Empty ==>
        && r.Ok?
        && board.Grid() == old(board.Grid())[row := old(board.Grid())[row][col := player.symbol]]
        && board.movesCount == old(board.movesCount) + 1
        && if Wins(board.Grid(), player.symbol) then
             && winner == player && status == WinnerStatus(player.symbol) && state == WinnerState
             && currentPlayer == old(currentPlayer) && notices == old(notices) + [status]
           else if board.movesCount == 9 then
             && winner == old(winner) && status == Draw && state == DrawState
             && currentPlayer == old(currentPlayer) && notices == old(notices) + [Draw]
           else
             && winner == old(winner) && status == InProgress && state == InProgressState
             && currentPlayer == Switched(old(currentPlayer), player1, player2) && notices == old(notices)
      ensures player.symbol != Empty && old(board.Counted()) ==> board.Counted()
    {
      if currentPlayer != player {
        return Err(NotYourTurn);
      }
      var placed := board.PlaceSymbol(row, col, player.symbol);
      if placed.Err? {
        return Err(InvalidPlacement(placed.error));
      }
      Conclude(player);
      r := Ok(());
    }
  }
}
