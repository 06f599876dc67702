/** The rules of play as a state machine on values: spawning, locking with
    top-out and line clearing, the four player requests and the gravity
    tick. The class in module Engine is proved to follow these functions. */
module Rules {
  import opened Tetrominos
  import opened Playfield
  import opened Sequencer

  /** The gravity tick fires when the frame counter exceeds this value. */
  const FallDelay := 35

  /** The falling piece: its name, its current orientation and the
      logical row and column of the matrix's top-left corner. */
  datatype Piece = Piece(name: Name, matrix: Matrix, row: int, col: int)

  /** Everything the game keeps between frames and events. */
  datatype State = State(grid: Grid, bag: seq<Name>, piece: Piece, count: nat, gameOver: bool)

  /** A new piece: the unturned template, one row higher for I than for
      the others, centred by rounding the free columns down. */
  function Spawn(n: Name): (p: Piece)
    ensures p.name == n && p.matrix == Template(n)
    ensures p.row == (if n == I then -1 else -2)
    ensures p.col == (if n == O then 4 else 3)
  {
    Piece(n, Template(n), if n == I then -1 else -2, (Cols - |Template(n)[0]|) / 2)
  }

  /** A spawned piece lies inside the columns, above the floor and not
      above the hidden rows; only an I piece has a cell in a visible row. */
  lemma SpawnIsInBounds(n: Name)
    ensures InBounds(Spawn(n).matrix, Spawn(n).row, Spawn(n).col)
    ensures IsOrientationOf(Spawn(n).matrix, n)
    ensures TopsOut(Spawn(n).matrix, Spawn(n).row) <==> n != I
  {
    var p := Spawn(n);
    if n == I {
      forall i, j | Occupied(p.matrix, i, j) ensures p.row + i >= 0 {
        assert i != 0;
      }
    } else {
      var j := match n
        case J => 0 case L => 2 case O => 0 case S => 1 case T => 1 case Z => 0 case I => 0;
      assert Occupied(p.matrix, 0, j);
    }
  }

  /** What holds between any two events of a game. */
  ghost predicate Inv(s: State)
  {
    WellFormed(s.grid) && HiddenEmpty(s.grid) &&
    (forall k :: Hidden <= k < Height ==> !Full(s.grid[k])) &&
    Distinct(s.bag) && |s.bag| < |Names| &&
    s.count <= FallDelay &&
    IsOrientationOf(s.piece.matrix, s.piece.name) &&
    InBounds(s.piece.matrix, s.piece.row, s.piece.col)
  }

  /** The piece at (row, col) fits: every occupied cell is on a free cell. */
  ghost predicate PieceFits(s: State, row: int, col: int)
    requires WellFormed(s.grid) && row >= -Hidden
  {
    Fits(s.grid, s.piece.matrix, row, col)
  }

  /** The start of a game: an empty field, a first draw from an empty bag,
      the frame counter at zero. */
  ghost function Initial(rolls: seq<nat>): (s: State)
    requires RollsFor(rolls, |Names|)
    ensures Inv(s) && !s.gameOver && s.count == 0
    ensures forall k, c :: 0 <= k < Height && 0 <= c < Cols ==> s.grid[k][c] == Empty
  {
    var d := Draw([], rolls);
    DrawKeepsDistinct([], rolls);
    SpawnIsInBounds(d.0);
    State(EmptyGrid(), d.1, Spawn(d.0), 0, false)
  }

  /** Locking the piece where it is. If an occupied cell is above row 0
      the game ends and nothing else changes. Otherwise its name is written
      under its occupied cells, full rows are cleared, and the next piece
      is drawn and spawned. */
  ghost function Locked(s: State, rolls: seq<nat>): (t: State)
    requires Inv(s) && RollsFor(rolls, |Names|)
    ensures Inv(t)
  {
    var p := s.piece;
    if TopsOut(p.matrix, p.row) then
      s.(gameOver := true)
    else
      var d := Draw(s.bag, rolls);
      StampWritesOnlyThePiece(s.grid, p.matrix, p.row, p.col, p.name);
      var g := Cleared(Stamp(s.grid, p.matrix, p.row, p.col, p.name));
      assert forall k :: 0 <= k < Hidden ==> g[k] == g[..Hidden][k];
      DrawKeepsDistinct(s.bag, rolls);
      SpawnIsInBounds(d.0);
      s.(grid := g, bag := d.1, piece := Spawn(d.0))
  }

  /** Left or right by delta columns, only where the piece fits. */
  ghost function Moved(s: State, delta: int): (t: State)
    requires Inv(s)
    ensures Inv(t)
  {
    var p := s.piece;
    if s.gameOver then s
    else if PieceFits(s, p.row, p.col + delta) then s.(piece := p.(col := p.col + delta))
    else s
  }

  /** A quarter turn clockwise, only where the turned piece fits. */
  ghost function Rotated(s: State): (t: State)
    requires Inv(s)
    ensures Inv(t)
  {
    var p := s.piece;
    RotateKeepsOrientation(p.matrix, p.name);
    if s.gameOver then s
    else
      var m := Rotate(p.matrix);
      if Fits(s.grid, m, p.row, p.col) then s.(piece := p.(matrix := m))
      else s
  }

  /** One row down where the piece fits; otherwise it locks in place. */
  ghost function Dropped(s: State, rolls: seq<nat>): (t: State)
    requires Inv(s) && RollsFor(rolls, |Names|)
    ensures Inv(t)
  {
    var p := s.piece;
    if s.gameOver then s
    else if PieceFits(s, p.row + 1, p.col) then s.(piece := p.(row := p.row + 1))
    else Locked(s, rolls)
  }

  /** One animation frame: the counter goes up, and when it passes
      FallDelay it restarts at zero and the piece falls one step. */
  ghost function Ticked(s: State, rolls: seq<nat>): (t: State)
    requires Inv(s) && RollsFor(rolls, |Names|)
    ensures Inv(t)
  {
    if s.gameOver then s
    else if s.count + 1 > FallDelay then Dropped(s.(count := 0), rolls)
    else s.(count := s.count + 1)
  }

  /** Frames in a row, each with its own random source: rs[k] supplies
      the indices for a refill that frame k may need. */
  ghost function TickedRun(s: State, rs: seq<seq<nat>>): (t: State)
    requires Inv(s) && AllRollsFor(rs)
    ensures Inv(t)
    decreases |rs|
  {
    if rs == [] then s else TickedRun(Ticked(s, rs[0]), rs[1..])
  }

  /** Once the game is over no request and no frame changes anything.
      This follows from the definitions of Moved, Rotated, Dropped and
      Ticked alone; that the program behaves so is shown by the proofs of
      the Engine.Game handlers against those functions. */
  lemma FinishedGameIgnoresEverything(s: State, delta: int, rolls: seq<nat>)
    requires Inv(s) && RollsFor(rolls, |Names|) && s.gameOver
    ensures Moved(s, delta) == s && Rotated(s) == s
    ensures Dropped(s, rolls) == s && Ticked(s, rolls) == s
  {
  }

  /** Locking ends the game exactly when an occupied cell of the piece is
      above row 0, and then leaves the field, the bag and the piece as
      they were. */
  lemma LockEndsGameIffTopsOut(s: State, rolls: seq<nat>)
    requires Inv(s) && RollsFor(rolls, |Names|) && !s.gameOver
    ensures Locked(s, rolls).gameOver <==> exists i, j :: Occupied(s.piece.matrix, i, j) && s.piece.row + i < 0
    ensures Locked(s, rolls).gameOver ==> Locked(s, rolls) == s.(gameOver := true)
  {
  }

  /** Locking without top-out: the field is the old one with the piece's
      name written under exactly its occupied cells, then compacted; the
      next piece is the spawned next draw. */
  lemma LockWritesThePieceThenClears(s: State, rolls: seq<nat>)
    requires Inv(s) && RollsFor(rolls, |Names|) && !TopsOut(s.piece.matrix, s.piece.row)
    ensures var p := s.piece;
      var g := Stamp(s.grid, p.matrix, p.row, p.col, p.name);
      var t := Locked(s, rolls);
      (forall k, c :: 0 <= k < Height && 0 <= c < Cols && Covers(p.matrix, p.row, p.col, k - Hidden, c) ==> g[k][c] == Filled(p.name)) &&
      (forall k, c :: 0 <= k < Height && 0 <= c < Cols && !Covers(p.matrix, p.row, p.col, k - Hidden, c) ==> g[k][c] == s.grid[k][c]) &&
      t.grid[Hidden..] == Compact(g[Hidden..])
    ensures var t := Locked(s, rolls);
      t.piece == Spawn(Draw(s.bag, rolls).0) && t.bag == Draw(s.bag, rolls).1
    ensures var t := Locked(s, rolls);
      t.gameOver == s.gameOver && t.count == s.count
  {
    var p := s.piece;
    StampWritesOnlyThePiece(s.grid, p.matrix, p.row, p.col, p.name);
    var g := Stamp(s.grid, p.matrix, p.row, p.col, p.name);
    assert Locked(s, rolls).grid == Cleared(g);
  }

  /** A move is undone by the opposite move when the piece fitted where
      it was. */
  lemma MoveBackUndoesMove(s: State, delta: int)
    requires Inv(s) && PieceFits(s, s.piece.row, s.piece.col)
    ensures Moved(s, delta) != s ==> Moved(Moved(s, delta), -delta) == s
  {
    var t := Moved(s, delta);
    if t != s {
      assert t.piece.col + -delta == s.piece.col;
    }
  }

  /** A rejected request leaves the state as it was; an accepted one
      leaves the piece on a position where it fits. */
  lemma RequestsKeepThePieceFitting(s: State, delta: int)
    requires Inv(s) && !s.gameOver
    ensures var t := Moved(s, delta);
      t == s || (t.piece == s.piece.(col := s.piece.col + delta) && PieceFits(t, t.piece.row, t.piece.col))
    ensures var t := Rotated(s);
      t == s || (IsSquare(s.piece.matrix) && t.piece == s.piece.(matrix := Rotate(s.piece.matrix)) && PieceFits(t, t.piece.row, t.piece.col))
  {
    RotateKeepsOrientation(s.piece.matrix, s.piece.name);
  }

  /** A soft drop that is blocked locks the piece at its current row.
      This unfolds the definition of Dropped; that the program behaves so
      is shown by the proofs of Engine.Game.SoftDrop and Engine.Game.Fall
      against it. */
  lemma BlockedDropLocksInPlace(s: State, rolls: seq<nat>)
    requires Inv(s) && RollsFor(rolls, |Names|) && !s.gameOver
    ensures PieceFits(s, s.piece.row + 1, s.piece.col) ==>
      Dropped(s, rolls) == s.(piece := s.piece.(row := s.piece.row + 1))
    ensures !PieceFits(s, s.piece.row + 1, s.piece.col) ==> Dropped(s, rolls) == Locked(s, rolls)
  {
  }

  /** Counting from s.count up to FallDelay takes FallDelay - s.count
      frames that only count, whatever their random sources; the frame
      after them is one fall step, with that frame's random source. */
  lemma {:induction false} FramesUntilFall(s: State, rs: seq<seq<nat>>, n: nat)
    requires Inv(s) && AllRollsFor(rs) && |rs| == n + 1
    requires !s.gameOver && s.count + n == FallDelay
    ensures AllRollsFor(rs[..n]) && TickedRun(s, rs[..n]) == s.(count := FallDelay)
    ensures RollsFor(rs[n], |Names|) && TickedRun(s, rs) == Dropped(s.(count := 0), rs[n])
    decreases n
  {
    AllRollsForSplit(rs, n);
    var t := Ticked(s, rs[0]);
    if n > 0 {
      assert t == s.(count := s.count + 1);
      assert rs[..n][0] == rs[0] && rs[..n][1..] == rs[1..][..n - 1];
      FramesUntilFall(t, rs[1..], n - 1);
      assert rs[1..][n - 1] == rs[n];
      assert t.(count := 0) == s.(count := 0);
    } else {
      assert rs[..0] == [];
      assert TickedRun(s, rs) == TickedRun(t, []);
    }
  }

  /** From a counter at zero, the first 35 frames only count and the 36th
      performs one fall step, exactly as a soft drop with the same random
      source would. */
  lemma GravityEveryThirtySixthFrame(s: State, rs: seq<seq<nat>>)
    requires Inv(s) && AllRollsFor(rs) && |rs| == FallDelay + 1
    requires !s.gameOver && s.count == 0
    ensures AllRollsFor(rs[..FallDelay]) && TickedRun(s, rs[..FallDelay]) == s.(count := FallDelay)
    ensures RollsFor(rs[FallDelay], |Names|) && TickedRun(s, rs) == Dropped(s, rs[FallDelay])
  {
    FramesUntilFall(s, rs, FallDelay);
    assert s.(count := 0) == s;
  }
}
