/** The game as the source runs it: one object whose playfield is a
    two-dimensional array updated in place, and whose bag, falling piece,
    frame counter and game-over flag are fields updated by the handlers.
    Every method is proved to take the state to what the matching function
    of module Rules prescribes. */
module Engine {
  import opened Tetrominos
  import opened Playfield
  import opened Sequencer
  import opened Rules

  /** Two well-formed grids that agree on every cell are equal. */
  lemma GridsAgree(a: Grid, b: Grid)
    requires WellFormed(a) && WellFormed(b)
    requires forall k, c :: 0 <= k < Height && 0 <= c < Cols ==> a[k][c] == b[k][c]
    ensures a == b
  {
    forall k | 0 <= k < Height ensures a[k] == b[k] {
      assert forall c :: 0 <= c < Cols ==> a[k][c] == b[k][c];
    }
  }

  class Game {
    /** Physical row k of the board holds logical row k - 2. */
    const board: array2<Cell>
    /** The names still to be drawn; the next draw takes the last one. */
    var bag: seq<Name>
    var name: Name
    var matrix: Matrix
    var row: int
    var col: int
    /** Frames since the last fall step. */
    var count: nat
    var gameOver: bool

    /** The board as a grid of rows. */
    ghost function Field(): (g: Grid)
      reads board
      requires board.Length0 == Height && board.Length1 == Cols
      ensures WellFormed(g)
      ensures forall k, c :: 0 <= k < Height && 0 <= c < Cols ==> g[k][c] == board[k, c]
    {
      seq(Height, k requires 0 <= k < Height reads board =>
        seq(Cols, c requires 0 <= c < Cols reads board => board[k, c]))
    }

    /** The object's state as a value of the rules. */
    ghost function View(): State
      reads this, board
      requires board.Length0 == Height && board.Length1 == Cols
    {
      State(Field(), bag, Piece(name, matrix, row, col), count, gameOver)
    }

    ghost predicate Valid()
      reads this, board
    {
      board.Length0 == Height && board.Length1 == Cols && Inv(View())
    }

    /** A new game: every cell of the 22 physical rows set empty, the
        counter at zero, and the first piece drawn from an empty bag. */
    constructor (rolls: seq<nat>)
      requires RollsFor(rolls, |Names|)
      ensures Valid() && View() == Initial(rolls)
    {
      var b := new Cell[Height, Cols];
      var k := 0;
      while k < Height
        invariant 0 <= k <= Height
        invariant forall k', c :: 0 <= k' < k && 0 <= c < Cols ==> b[k', c] == Empty
      {
        var c := 0;
        while c < Cols
          invariant 0 <= c <= Cols
          invariant forall k', c' :: 0 <= k' < k && 0 <= c' < Cols ==> b[k', c'] == Empty
          invariant forall c' :: 0 <= c' < c ==> b[k, c'] == Empty
        {
          b[k, c] := Empty;
          c := c + 1;
        }
        k := k + 1;
      }
      board := b;
      bag := [];
      count := 0;
      gameOver := false;
      new;
      NextTetromino(rolls);
      GridsAgree(Field(), EmptyGrid());
      ghost var d := Draw([], rolls);
      assert View() == State(EmptyGrid(), d.1, Spawn(d.0), 0, false);
      assert View() == Initial(rolls);
    }

    /** The refill loop: splice the name at each random index out of the
        list of all seven names and push it onto the (empty) bag. */
    static method Refill(rolls: seq<nat>) returns (bag: seq<Name>)
      requires RollsFor(rolls, |Names|)
      ensures bag == Sequencer.Refill(rolls)
    {
      bag := [];
      var sequence := Names;
      var k := 0;
      while |sequence| > 0
        invariant 0 <= k <= |rolls| && RollsFor(rolls[k..], |sequence|)
        invariant bag + Shuffle(sequence, rolls[k..]) == Shuffle(Names, rolls)
        decreases |sequence|
      {
        var rand := rolls[k];
        var picked := sequence[rand];
        assert Shuffle(sequence, rolls[k..]) == [picked] + Shuffle(RemoveAt(sequence, rand), rolls[k + 1..]) by {
          assert rolls[k..][1..] == rolls[k + 1..];
        }
        sequence := RemoveAt(sequence, rand);
        bag := bag + [picked];
        k := k + 1;
      }
    }

    /** Draw the next piece: refill an empty bag, pop its last name and
        spawn that piece. */
    method NextTetromino(rolls: seq<nat>)
      requires RollsFor(rolls, |Names|)
      modifies this
      ensures var d := Draw(old(bag), rolls);
        bag == d.1 && Piece(name, matrix, row, col) == Spawn(d.0)
      ensures count == old(count) && gameOver == old(gameOver)
    {
      if |bag| == 0 {
        bag := Refill(rolls);
      }
      name := bag[|bag| - 1];
      bag := bag[..|bag| - 1];
      matrix := Template(name);
      row := if name == I then -1 else -2;
      col := (Cols - |matrix[0]|) / 2;
    }

    /** The collision check: every occupied cell of m placed at (r, c) is
        inside the columns, above the floor and on an empty cell. */
    method IsValidMove(m: Matrix, r: int, c: int) returns (ok: bool)
      requires board.Length0 == Height && board.Length1 == Cols && r >= -Hidden
      ensures ok == Fits(Field(), m, r, c)
    {
      var i := 0;
      while i < |m|
        invariant 0 <= i <= |m|
        invariant forall i', j :: 0 <= i' < i && Occupied(m, i', j) ==> FreeAt(Field(), r + i', c + j)
      {
        var j := 0;
        while j < |m[i]|
          invariant 0 <= j <= |m[i]|
          invariant forall i', j' :: 0 <= i' < i && Occupied(m, i', j') ==> FreeAt(Field(), r + i', c + j')
          invariant forall j' :: 0 <= j' < j && Occupied(m, i, j') ==> FreeAt(Field(), r + i, c + j')
        {
          if m[i][j] && (c + j < 0 || c + j >= Cols || r + i >= Rows || board[r + i + Hidden, c + j] != Empty) {
            assert Occupied(m, i, j) && !FreeAt(Field(), r + i, c + j);
            return false;
          }
          j := j + 1;
        }
        i := i + 1;
      }
      return true;
    }

    /** Writing the piece: visit the matrix row by row; at the first
        occupied cell above row 0 stop and report a top-out, otherwise
        write the piece's name there. */
    method Lock() returns (toppedOut: bool)
      requires Valid()
      modifies board
      ensures toppedOut == TopsOut(matrix, row)
      ensures toppedOut ==> Field() == old(Field())
      ensures !toppedOut ==> Field() == Stamp(old(Field()), matrix, row, col, name)
    {
      ghost var g0 := Field();
      var m, top, left, n := matrix, row, col, name;
      var i := 0;
      while i < |m|
        invariant 0 <= i <= |m|
        invariant forall i', j :: 0 <= i' < i && Occupied(m, i', j) ==> top + i' >= 0
        invariant StampedUpTo(g0, m, top, left, n, i, 0)
      {
        toppedOut := LockRow(g0, m, top, left, n, i);
        if toppedOut {
          NothingStampedAbove(g0, m, top, left, n, i);
          return;
        }
        i := i + 1;
      }
      EverythingStamped(g0, m, top, left, n);
      return false;
    }

    /** Before the first row that tops out nothing has been written. */
    lemma NothingStampedAbove(g0: Grid, m: Matrix, top: int, left: int, n: Name, i: int)
      requires WellFormed(g0) && StampedUpTo(g0, m, top, left, n, i, 0) && top + i < 0
      requires forall i', j :: 0 <= i' < i && Occupied(m, i', j) ==> top + i' >= 0
      ensures Field() == g0
    {
      forall k, c | 0 <= k < Height && 0 <= c < Cols ensures board[k, c] == g0[k][c] {
        if Covers(m, top, left, k - Hidden, c) {
          assert !Before(k - Hidden - top, c - left, i, 0);
        }
      }
      GridsAgree(Field(), g0);
    }

    /** Once every row is visited the board is the stamped grid. */
    lemma EverythingStamped(g0: Grid, m: Matrix, top: int, left: int, n: Name)
      requires WellFormed(g0) && StampedUpTo(g0, m, top, left, n, |m|, 0)
      ensures Field() == Stamp(g0, m, top, left, n)
    {
      ghost var g1 := Stamp(g0, m, top, left, n);
      forall k, c | 0 <= k < Height && 0 <= c < Cols ensures board[k, c] == g1[k][c] {
        if Covers(m, top, left, k - Hidden, c) {
          assert Before(k - Hidden - top, c - left, |m|, 0);
        }
      }
      GridsAgree(Field(), g1);
    }

    /** Cell (p, q) of a matrix comes before cell (i, j) in row-major order. */
    static predicate Before(p: int, q: int, i: int, j: int)
    {
      p < i || (p == i && q < j)
    }

    /** The board is g0 with the name written under the occupied cells of m
        that come before cell (i, j). */
    ghost predicate StampedUpTo(g0: Grid, m: Matrix, top: int, left: int, n: Name, i: int, j: int)
      reads board
      requires WellFormed(g0)
    {
      board.Length0 == Height && board.Length1 == Cols &&
      forall k, c :: 0 <= k < Height && 0 <= c < Cols ==>
        board[k, c] == if Covers(m, top, left, k - Hidden, c) && Before(k - Hidden - top, c - left, i, j) then Filled(n) else g0[k][c]
    }

    /** One row of the write loop: at the first occupied cell above row 0
        report a top-out before writing anything of this row; otherwise
        write the name under every occupied cell of the row. */
    method LockRow(ghost g0: Grid, m: Matrix, top: int, left: int, n: Name, i: int) returns (toppedOut: bool)
      requires WellFormed(g0) && InBounds(m, top, left) && 0 <= i < |m|
      requires StampedUpTo(g0, m, top, left, n, i, 0)
      modifies board
      ensures toppedOut <==> exists j :: Occupied(m, i, j) && top + i < 0
      ensures toppedOut ==> StampedUpTo(g0, m, top, left, n, i, 0)
      ensures !toppedOut ==> StampedUpTo(g0, m, top, left, n, i + 1, 0)
    {
      var j := 0;
      while j < |m[i]|
        invariant 0 <= j <= |m[i]|
        invariant forall j' :: 0 <= j' < j && Occupied(m, i, j') ==> top + i >= 0
        invariant StampedUpTo(g0, m, top, left, n, i, j)
      {
        ghost var before := Field();
        if m[i][j] {
          if top + i < 0 {
            assert Occupied(m, i, j);
            forall k, c | 0 <= k < Height && 0 <= c < Cols ensures board[k, c] ==
              if Covers(m, top, left, k - Hidden, c) && Before(k - Hidden - top, c - left, i, 0) then Filled(n) else g0[k][c]
            {
              if Covers(m, top, left, k - Hidden, c) && k - Hidden - top == i {
                assert !(c - left < j);
              }
            }
            return true;
          }
          assert Occupied(m, i, j);
          board[top + i + Hidden, left + j] := Filled(n);
        }
        forall k, c | 0 <= k < Height && 0 <= c < Cols ensures board[k, c] ==
          if Covers(m, top, left, k - Hidden, c) && Before(k - Hidden - top, c - left, i, j + 1) then Filled(n) else g0[k][c]
        {
          if k - Hidden - top != i || c - left != j {
            assert board[k, c] == before[k][c];
          }
        }
        j := j + 1;
      }
      forall k, c | 0 <= k < Height && 0 <= c < Cols ensures board[k, c] ==
        if Covers(m, top, left, k - Hidden, c) && Before(k - Hidden - top, c - left, i + 1, 0) then Filled(n) else g0[k][c]
      {
        if Covers(m, top, left, k - Hidden, c) && k - Hidden - top == i {
          assert Before(k - Hidden - top, c - left, i, j);
        }
      }
      return false;
    }

    /** Every cell of physical row pr is occupied. */
    predicate RowFull(pr: int)
      reads board
      requires board.Length0 == Height && board.Length1 == Cols && 0 <= pr < Height
      ensures RowFull(pr) <==> Full(Field()[pr])
    {
      forall c :: 0 <= c < Cols ==> board[pr, c] != Empty
    }

    /** Logical rows r, r - 1, ..., 0 each take the contents of the row
        above them. */
    method ShiftDown(r: int)
      requires board.Length0 == Height && board.Length1 == Cols && 0 <= r < Rows
      modifies board
      ensures Field() == ShiftedDown(old(Field()), r)
    {
      ghost var g0 := Field();
      var rr := r;
      while rr >= 0
        invariant -1 <= rr <= r
        invariant forall k, c :: 0 <= k < Height && 0 <= c < Cols ==>
          board[k, c] == if Hidden + rr < k <= Hidden + r then g0[k - 1][c] else g0[k][c]
      {
        var c := 0;
        while c < Cols
          invariant 0 <= c <= Cols
          invariant forall k, c' :: 0 <= k < Height && 0 <= c' < Cols ==>
            board[k, c'] == if Hidden + rr < k <= Hidden + r || (k == Hidden + rr && c' < c) then g0[k - 1][c'] else g0[k][c']
        {
          board[rr + Hidden, c] := board[rr + Hidden - 1, c];
          c := c + 1;
        }
        rr := rr - 1;
      }
      GridsAgree(Field(), ShiftedDown(g0, r));
    }

    /** The line clear: from the bottom row up, a full row is removed by
        shifting the rows above it down, and the same row is checked again;
        a row that is not full moves the scan one row up. */
    method ClearLines()
      requires board.Length0 == Height && board.Length1 == Cols && HiddenEmpty(Field())
      modifies board
      ensures Field() == Cleared(old(Field()))
    {
      ghost var g0 := Field();
      var r := Rows - 1;
      while r >= 0
        invariant -1 <= r < Rows && Scanning(g0, Field(), r)
        decreases Rows - |Kept(Field()[Hidden..])|, r + 1
      {
        if RowFull(r + Hidden) {
          ScanShiftsFullRow(g0, Field(), r);
          ShiftDown(r);
        } else {
          r := r - 1;
        }
      }
      ScanEndsCleared(g0, Field());
    }

    /** Locking the piece: on a top-out only the flag is set; otherwise the
        piece is written, full rows are cleared and the next piece drawn. */
    method PlaceTetromino(rolls: seq<nat>)
      requires Valid() && RollsFor(rolls, |Names|)
      modifies this, board
      ensures Valid() && View() == Locked(old(View()), rolls)
    {
      ghost var s := View();
      var toppedOut := Lock();
      if toppedOut {
        gameOver := true;
        assert View() == s.(gameOver := true);
        return;
      }
      ghost var p := s.piece;
      StampWritesOnlyThePiece(s.grid, p.matrix, p.row, p.col, p.name);
      ClearLines();
      ghost var g := Field();
      assert g == Cleared(Stamp(s.grid, p.matrix, p.row, p.col, p.name));
      NextTetromino(rolls);
      ghost var d := Draw(s.bag, rolls);
      assert View() == s.(grid := g, bag := d.1, piece := Spawn(d.0));
      assert View() == Locked(s, rolls);
    }

    /** Left (delta = -1) or right (delta = +1): the column changes only
        where the piece fits there; nothing happens once the game is over. */
    method Move(delta: int)
      requires Valid()
      modifies this
      ensures Valid() && View() == Moved(old(View()), delta)
    {
      if gameOver {
        return;
      }
      var c := col + delta;
      var ok := IsValidMove(matrix, row, c);
      if ok {
        col := c;
      }
    }

    /** Rotate: the matrix turns a quarter clockwise only where the turned
        piece fits; nothing happens once the game is over. */
    method RotatePiece()
      requires Valid()
      modifies this
      ensures Valid() && View() == Rotated(old(View()))
    {
      if gameOver {
        return;
      }
      RotateKeepsOrientation(matrix, name);
      var m := Rotate(matrix);
      var ok := IsValidMove(m, row, col);
      if ok {
        matrix := m;
      }
    }

    /** Down: one row lower where the piece fits; otherwise the piece is
        locked where it is. Nothing happens once the game is over. */
    method SoftDrop(rolls: seq<nat>)
      requires Valid() && RollsFor(rolls, |Names|)
      modifies this, board
      ensures Valid() && View() == Dropped(old(View()), rolls)
    {
      if gameOver {
        return;
      }
      var r := row + 1;
      var ok := IsValidMove(matrix, r, col);
      if !ok {
        PlaceTetromino(rolls);
        return;
      }
      row := r;
    }

    /** One animation frame: the counter goes up, and when it passes
        FallDelay it restarts at zero and the piece takes a fall step. Once
        the game is over no frame is scheduled any more. */
    method Tick(rolls: seq<nat>)
      requires Valid() && RollsFor(rolls, |Names|)
      modifies this, board
      ensures Valid() && View() == Ticked(old(View()), rolls)
    {
      ghost var s := View();
      if gameOver {
        return;
      }
      count := count + 1;
      if count > FallDelay {
        count := 0;
        assert View() == s.(count := 0);
        Fall(rolls);
      } else {
        assert View() == s.(count := s.count + 1);
      }
    }

    /** The fall step of a frame: the piece moves a row down; if it does
        not fit there it moves back up and is locked. */
    method Fall(rolls: seq<nat>)
      requires Valid() && RollsFor(rolls, |Names|) && !gameOver
      modifies this, board
      ensures Valid() && View() == Dropped(old(View()), rolls)
    {
      ghost var s := View();
      row := row + 1;
      var ok := IsValidMove(matrix, row, col);
      if !ok {
        row := row - 1;
        assert View() == s;
        PlaceTetromino(rolls);
      } else {
        assert View() == s.(piece := s.piece.(row := s.piece.row + 1));
      }
    }
  }
}
