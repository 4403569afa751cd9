/**
 * Tic-tac-toe board (TicTacToe Board.java, Cell.java, Symbol.java): a
 * size-by-size grid of cells, each holding X, O or EMPTY, and a count of the
 * symbols placed so far.
 *
 * The Java grid holds one mutable Cell object per square; here the grid is an
 * `array2` of symbols, and `Grid()` reads it as rows of symbols.
 */
module TicTacToeBoard {
  import opened Wrappers

  datatype Symbol = X | O | Empty

  datatype BoardError = OutOfBounds | Occupied

  /** How many squares of the row hold X or O. */
  function CountRow(row: seq<Symbol>): (n: nat)
    ensures n <= |row|
  {
    if row == [] then 0
    else CountRow(row[..|row| - 1]) + (if row[|row| - 1] != Empty then 1 else 0)
  }

  /** How many squares of the grid hold X or O. */
  function Count(g: seq<seq<Symbol>>): nat
  {
    if g == [] then 0 else Count(g[..|g| - 1]) + CountRow(g[|g| - 1])
  }

  /** `n` rows of `n` squares each. */
  ghost predicate Square(g: seq<seq<Symbol>>, n: int)
  {
    |g| == n && forall r :: 0 <= r < |g| ==> |g[r]| == n
  }

  /** A row is counted full exactly when no square of it is empty. */
  lemma {:induction false} CountRowFull(row: seq<Symbol>)
    ensures CountRow(row) == |row| <==> forall c :: 0 <= c < |row| ==> row[c] != Empty
  {
    if row != [] {
      var init := row[..|row| - 1];
      CountRowFull(init);
      assert forall c :: 0 <= c < |init| ==> init[c] == row[c];
    }
  }

  /** The count reaches n * n exactly when every square is taken. */
  lemma {:induction false} CountFull(g: seq<seq<Symbol>>, n: nat)
    requires Square(g, n)
    ensures Count(g) <= n * n
    ensures Count(g) == n * n <==> forall r, c :: 0 <= r < n && 0 <= c < n ==> g[r][c] != Empty
  {
    CountFullRows(g, n);
  }

  lemma {:induction false} CountFullRows(g: seq<seq<Symbol>>, n: nat)
    requires forall r :: 0 <= r < |g| ==> |g[r]| == n
    ensures Count(g) <= |g| * n
    ensures Count(g) == |g| * n <==> forall r, c :: 0 <= r < |g| && 0 <= c < n ==> g[r][c] != Empty
  {
    if g != [] {
      var init := g[..|g| - 1];
      var last := g[|g| - 1];
      CountFullRows(init, n);
      CountRowFull(last);
      assert |g| * n == |init| * n + n;
      assert forall r :: 0 <= r < |init| ==> init[r] == g[r];
    }
  }

  /** Taking an empty square adds one to the count; nothing else changes it. */
  lemma {:induction false} CountRowUpdate(row: seq<Symbol>, c: int, s: Symbol)
    requires 0 <= c < |row| && row[c] == Empty && s != Empty
    ensures CountRow(row[c := s]) == CountRow(row) + 1
  {
    var init := row[..|row| - 1];
    if c == |row| - 1 {
      assert row[c := s][..|row| - 1] == init;
    } else {
      CountRowUpdate(init, c, s);
      assert row[c := s][..|row| - 1] == init[c := s];
    }
  }

  lemma {:induction false} CountUpdate(g: seq<seq<Symbol>>, r: int, c: int, s: Symbol)
    requires 0 <= r < |g| && 0 <= c < |g[r]| && g[r][c] == Empty && s != Empty
    ensures Count(g[r := g[r][c := s]]) == Count(g) + 1
  {
    var init := g[..|g| - 1];
    if r == |g| - 1 {
      assert g[r := g[r][c := s]][..|g| - 1] == init;
      CountRowUpdate(g[r], c, s);
    } else {
      CountUpdate(init, r, c, s);
      assert g[r := g[r][c := s]][..|g| - 1] == init[r := init[r][c := s]];
    }
  }

  /** A grid of empty squares counts zero. */
  lemma {:induction false} CountEmpty(g: seq<seq<Symbol>>)
    requires forall r, c :: 0 <= r < |g| && 0 <= c < |g[r]| ==> g[r][c] == Empty
    ensures Count(g) == 0
  {
    if g != [] {
      var init := g[..|g| - 1];
      assert forall r, c :: 0 <= r < |init| && 0 <= c < |init[r]| ==> init[r][c] == g[r][c];
      CountEmpty(init);
      CountRowEmpty(g[|g| - 1]);
    }
  }

  lemma {:induction false} CountRowEmpty(row: seq<Symbol>)
    requires forall c :: 0 <= c < |row| ==> row[c] == Empty
    ensures CountRow(row) == 0
  {
    if row != [] {
      CountRowEmpty(row[..|row| - 1]);
    }
  }

  class Board {
    const size: nat
    var movesCount: int
    const cells: array2<Symbol>

    ghost predicate Valid()
      reads this
    {
      cells.Length0 == size && cells.Length1 == size
    }

    /** The squares, row by row. */
    function Grid(): (g: seq<seq<Symbol>>)
      reads this, cells
      requires Valid()
      ensures Square(g, size)
      ensures forall r, c :: 0 <= r < size && 0 <= c < size ==> g[r][c] == cells[r, c]
    {
      seq(size, r requires 0 <= r < size reads cells => seq(size, c requires 0 <= c < size reads cells => cells[r, c]))
    }

    /** movesCount is the number of squares taken. */
    ghost predicate Counted()
      reads this, cells
      requires Valid()
    {
      movesCount == Count(Grid())
    }

    /** A size-by-size board, every square EMPTY, no moves yet. */
    constructor (size: nat)
      ensures Valid() && Counted() && fresh(cells)
      ensures this.size == size && movesCount == 0
      ensures forall r, c :: 0 <= r < size && 0 <= c < size ==> cells[r, c] == Empty
    {
      this.size := size;
      cells := new Symbol[size, size];
      movesCount := 0;
      new;
      var row := 0;
      while row < size
        modifies cells
        invariant 0 <= row <= size
        invariant forall r, c :: 0 <= r < row && 0 <= c < size ==> cells[r, c] == Empty
      {
        var col := 0;
        while col < size
          modifies cells
          invariant 0 <= col <= size
          invariant forall r, c :: 0 <= r < row && 0 <= c < size ==> cells[r, c] == Empty
          invariant forall c :: 0 <= c < col ==> cells[row, c] == Empty
        {
          cells[row, col] := Empty;
          col := col + 1;
        }
        row := row + 1;
      }
      CountEmpty(Grid());
    }

    /**
     * placeSymbol: refuses a square off the board or already taken and
     * changes nothing; otherwise puts `symbol` there and counts the move.
     */
    method PlaceSymbol(row: int, col: int, symbol: Symbol) returns (r: Result<bool, BoardError>)
      requires Valid()
      modifies this, cells
      ensures Valid()
      ensures !(0 <= row < size && 0 <= col < size) ==>
        r == Err(OutOfBounds) && movesCount == old(movesCount) && Grid() == old(Grid())
      ensures 0 <= row < size && 0 <= col < size && old(cells[row, col]) != Empty ==>
        r == Err(Occupied) && movesCount == old(movesCount) && Grid() == old(Grid())
      ensures 0 <= row < size && 0 <= col < size && old(cells[row, col]) == Empty ==>
        && r == Ok(true)
        && Grid() == old(Grid())[row := old(Grid())[row][col := symbol]]
        && movesCount == old(movesCount) + 1
      ensures symbol != Empty && old(Counted()) ==> Counted()
    {
      if row < 0 || row >= size || col < 0 || col >= size {
        return Err(OutOfBounds);
      }
      if cells[row, col] != Empty {
        return Err(Occupied);
      }
      ghost var g := Grid();
      cells[row, col] := symbol;
      movesCount := movesCount + 1;
      ghost var h := g[row := g[row][col := symbol]];
      forall i | 0 <= i < size
        ensures Grid()[i] == h[i]
      {
        assert forall j :: 0 <= j < size ==> Grid()[i][j] == h[i][j];
      }
      assert Grid() == h;
      if symbol != Empty {
        CountUpdate(g, row, col, symbol);
      }
      r := Ok(true);
    }

    /** getCell: the square's symbol, or nothing off the board. */
    function GetCell(row: int, col: int): (r: Option<Symbol>)
      reads this, cells
      requires Valid()
      ensures r.None? <==> !(0 <= row < size && 0 <= col < size)
      ensures r.Some? ==> r.value == Grid()[row][col]
    {
      if row < 0 || row >= size || col < 0 || col >= size then None else Some(cells[row, col])
    }

    /** isFull: the move count has reached size * size, which means every square is taken while moves are counted. */
    function IsFull(): (r: bool)
      reads this, cells
      requires Valid()
      ensures r <==> movesCount == size * size
      ensures Counted() ==> (r <==> forall i, j :: 0 <= i < size && 0 <= j < size ==> cells[i, j] != Empty)
    {
      CountFull(Grid(), size);
      movesCount == size * size
    }
  }
}
