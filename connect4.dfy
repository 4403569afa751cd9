/**
 * Connect-4 board (Connect4Game GameBoard.java): a list of columns, each a
 * stack of pieces from the bottom up, a fixed number of rows and the player
 * whose turn it is.
 *
 * The Java `move` blocks (wait/notifyAll) until it is the caller's turn; here
 * that hand-off is the precondition `player == currentPlayer`. The Java
 * `assert`s on the coordinates are preconditions too.
 */
module Connect4 {
  import opened Wrappers

  datatype Player = Player1 | Player2

  datatype MoveError = ColumnFull

  function Other(p: Player): (q: Player)
    ensures q != p
  {
    if p == Player1 then Player2 else Player1
  }

  /** Cell (x, y) is on the board and holds a piece of `p`. */
  ghost predicate Holds(cols: seq<seq<Player>>, rows: int, x: int, y: int, p: Player)
  {
    0 <= x < |cols| && 0 <= y < rows && y < |cols[x]| && cols[x][y] == p
  }

  /** The i-th cell of the line from (x1, y1) in direction (dx, dy) holds a piece of `p`. */
  ghost predicate HoldsStep(cols: seq<seq<Player>>, rows: int, x1: int, y1: int, dx: int, dy: int, i: int, p: Player)
  {
    Holds(cols, rows, x1 + dx * i, y1 + dy * i, p)
  }

  /** Four cells from (x1, y1) in direction (dx, dy), all on the board and all `p`'s. */
  ghost predicate LineOf(cols: seq<seq<Player>>, rows: int, x1: int, y1: int, dx: int, dy: int, p: Player)
  {
    forall i :: 0 <= i < 4 ==> HoldsStep(cols, rows, x1, y1, dx, dy, i, p)
  }

  /** The line in direction (dx, dy) whose k-th cell is (x, y). */
  ghost predicate LineThrough(cols: seq<seq<Player>>, rows: int, x: int, y: int, dx: int, dy: int, k: int, p: Player)
  {
    LineOf(cols, rows, x - dx * k, y - dy * k, dx, dy, p)
  }

  ghost predicate Through(cols: seq<seq<Player>>, rows: int, x: int, y: int, dx: int, dy: int, p: Player)
  {
    exists k :: 0 <= k < 4 && LineThrough(cols, rows, x, y, dx, dy, k, p)
  }

  /** The piece at (x, y) is part of four in a row of `p`: vertical, horizontal or either diagonal. */
  ghost predicate OnFour(cols: seq<seq<Player>>, rows: int, x: int, y: int, p: Player)
  {
    || Through(cols, rows, x, y, 0, 1, p)
    || Through(cols, rows, x, y, 1, 0, p)
    || Through(cols, rows, x, y, 1, 1, p)
    || Through(cols, rows, x, y, 1, -1, p)
  }

  /** A line with a cell off the board is never four in a row. */
  lemma OffBoardLine(cols: seq<seq<Player>>, rows: int, x1: int, y1: int, dx: int, dy: int, i: int, p: Player)
    requires 0 <= i < 4
    requires !(0 <= x1 + dx * i < |cols| && 0 <= y1 + dy * i < rows)
    ensures !LineOf(cols, rows, x1, y1, dx, dy, p)
  {
    assert !HoldsStep(cols, rows, x1, y1, dx, dy, i, p);
  }

  /**
   * Looking down from the top piece of a column is the only vertical line
   * through it: nothing lies above the top.
   */
  lemma {:induction false} VerticalIsDownward(cols: seq<seq<Player>>, rows: int, x: int, y: int, p: Player)
    requires 0 <= x < |cols| && y == |cols[x]| - 1
    ensures LineOf(cols, rows, x, y, 0, -1, p) <==> Through(cols, rows, x, y, 0, 1, p)
  {
    if LineOf(cols, rows, x, y, 0, -1, p) {
      var y0 := y - 1 * 3;
      forall j | 0 <= j < 4
        ensures HoldsStep(cols, rows, x, y0, 0, 1, j, p)
      {
        assert HoldsStep(cols, rows, x, y, 0, -1, 3 - j, p);
      }
      assert LineThrough(cols, rows, x, y, 0, 1, 3, p);
    }
    if Through(cols, rows, x, y, 0, 1, p) {
      forall k' | 0 <= k' < 3
        ensures !LineThrough(cols, rows, x, y, 0, 1, k', p)
      {
        assert !HoldsStep(cols, rows, x - 0 * k', y - 1 * k', 0, 1, 3, p);
      }
      var k :| 0 <= k < 4 && LineThrough(cols, rows, x, y, 0, 1, k, p);
      forall i | 0 <= i < 4
        ensures HoldsStep(cols, rows, x, y, 0, -1, i, p)
      {
        assert HoldsStep(cols, rows, x - 0 * k, y - 1 * k, 0, 1, 3 - i, p);
      }
    }
  }

  class GameBoard {
    var columns: seq<seq<Player>>
    var currentPlayer: Player
    const rows: int

    /** No column is taller than the board. */
    ghost predicate Valid()
      reads this
    {
      forall i :: 0 <= i < |columns| ==> |columns[i]| <= rows || columns[i] == []
    }

    /** `numColumns` empty columns; the first player moves first. */
    constructor (numColumns: int, rows: int)
      ensures Valid()
      ensures this.rows == rows && currentPlayer == Player1
      ensures |columns| == (if numColumns < 0 then 0 else numColumns)
      ensures forall i :: 0 <= i < |columns| ==> columns[i] == []
    {
      var cols: seq<seq<Player>> := [];
      var i := 0;
      while i < numColumns
        invariant |cols| == i && i == (if numColumns < 0 then 0 else i) && (numColumns >= 0 ==> 0 <= i <= numColumns)
        invariant forall j :: 0 <= j < |cols| ==> cols[j] == []
      {
        cols := cols + [[]];
        i := i + 1;
      }
      this.rows := rows;
      columns := cols;
      currentPlayer := Player1;
    }

    /** getCell: the y-th piece from the bottom of column x, if the column is that tall. */
    function GetCell(x: int, y: int): (r: Option<Player>)
      reads this
      requires 0 <= x < |columns| && 0 <= y < rows
      ensures r.Some? <==> y < |columns[x]|
      ensures r.Some? ==> Holds(columns, rows, x, y, r.value)
    {
      if |columns[x]| > y then Some(columns[x][y]) else None
    }

    /**
     * move(x, player): a full column is refused and nothing changes; otherwise
     * the piece lands on top of column x, and the answer is whether it
     * completes four in a row. Only a non-winning move passes the turn.
     */
    method Move(x: int, player: Player) returns (r: Result<bool, MoveError>)
      requires Valid() && player == currentPlayer && 0 <= x < |columns|
      modifies this
      ensures Valid()
      ensures old(|columns[x]|) >= rows ==>
        r == Err(ColumnFull) && columns == old(columns) && currentPlayer == old(currentPlayer)
      ensures old(|columns[x]|) < rows ==>
        && columns == old(columns)[x := old(columns[x]) + [player]]
        && r == Ok(OnFour(columns, rows, x, old(|columns[x]|), player))
        && currentPlayer == (if r.value then player else Other(player))
    {
      if |columns[x]| >= rows {
        return Err(ColumnFull);
      }
      columns := columns[x := columns[x] + [player]];
      var win := CheckWin(x, |columns[x]| - 1, player);
      if !win {
        currentPlayer := if player == Player1 then Player2 else Player1;
      }
      r := Ok(win);
    }

    /** checkLine: the four cells from (x1, y1) in direction (dx, dy) are on the board and `player`'s. */
    method CheckLine(x1: int, y1: int, dx: int, dy: int, player: Player) returns (r: bool)
      ensures r == LineOf(columns, rows, x1, y1, dx, dy, player)
    {
      var i := 0;
      while i < 4
        invariant 0 <= i <= 4
        invariant forall j :: 0 <= j < i ==> HoldsStep(columns, rows, x1, y1, dx, dy, j, player)
      {
        var x := x1 + dx * i;
        var y := y1 + dy * i;
        if x < 0 || x > |columns| - 1 {
          OffBoardLine(columns, rows, x1, y1, dx, dy, i, player);
          return false;
        }
        if y < 0 || y > rows - 1 {
          OffBoardLine(columns, rows, x1, y1, dx, dy, i, player);
          return false;
        }
        if GetCell(x, y) != Some(player) {
          assert !HoldsStep(columns, rows, x1, y1, dx, dy, i, player);
          return false;
        }
        i := i + 1;
      }
      return true;
    }

    /** checkWin for the top piece (x, y) of column x: down, then every horizontal and diagonal line through it. */
    method CheckWin(x: int, y: int, player: Player) returns (r: bool)
      requires 0 <= x < |columns| && y == |columns[x]| - 1
      ensures r == OnFour(columns, rows, x, y, player)
    {
      VerticalIsDownward(columns, rows, x, y, player);
      r := CheckLine(x, y, 0, -1, player);
      if r {
        return;
      }
      var offset := 0;
      while offset < 4
        invariant 0 <= offset <= 4
        invariant forall k :: 3 - offset < k <= 3 ==>
          && !LineThrough(columns, rows, x, y, 1, 0, k, player)
          && !LineThrough(columns, rows, x, y, 1, -1, k, player)
          && !LineThrough(columns, rows, x, y, 1, 1, k, player)
      {
        ghost var k := 3 - offset;
        r := CheckLine(x - 3 + offset, y, 1, 0, player);
        assert r == LineThrough(columns, rows, x, y, 1, 0, k, player);
        if r {
          return;
        }
        r := CheckLine(x - 3 + offset, y + 3 - offset, 1, -1, player);
        assert r == LineThrough(columns, rows, x, y, 1, -1, k, player);
        if r {
          return;
        }
        r := CheckLine(x - 3 + offset, y - 3 + offset, 1, 1, player);
        assert r == LineThrough(columns, rows, x, y, 1, 1, k, player);
        if r {
          return;
        }
        offset := offset + 1;
      }
      return false;
    }
  }

  /** After a legal move the new piece is what getCell reads on top of its column. */
  lemma MoveThenCell(cols: seq<seq<Player>>, rows: int, x: int, p: Player)
    requires 0 <= x < |cols| && |cols[x]| < rows
    ensures Holds(cols[x := cols[x] + [p]], rows, x, |cols[x]|, p)
    ensures forall y :: 0 <= y < |cols[x]| ==> cols[x := cols[x] + [p]][x][y] == cols[x][y]
  {
  }

  /** Every line through (x, y) holds the piece at (x, y) itself. */
  lemma ThroughHolds(cols: seq<seq<Player>>, rows: int, x: int, y: int, dx: int, dy: int, p: Player)
    requires Through(cols, rows, x, y, dx, dy, p)
    ensures Holds(cols, rows, x, y, p)
  {
    var k :| 0 <= k < 4 && LineThrough(cols, rows, x, y, dx, dy, k, p);
    assert HoldsStep(cols, rows, x - dx * k, y - dy * k, dx, dy, k, p);
  }

  /** A winning line runs through the new piece: the win is the mover's. */
  lemma WinIncludesPiece(cols: seq<seq<Player>>, rows: int, x: int, y: int, p: Player)
    requires OnFour(cols, rows, x, y, p)
    ensures Holds(cols, rows, x, y, p)
  {
    if Through(cols, rows, x, y, 0, 1, p) {
      ThroughHolds(cols, rows, x, y, 0, 1, p);
    } else if Through(cols, rows, x, y, 1, 0, p) {
      ThroughHolds(cols, rows, x, y, 1, 0, p);
    } else if Through(cols, rows, x, y, 1, 1, p) {
      ThroughHolds(cols, rows, x, y, 1, 1, p);
    } else {
      ThroughHolds(cols, rows, x, y, 1, -1, p);
    }
  }
}
