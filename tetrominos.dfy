/** The piece catalogue: the seven tetromino shapes and the clockwise
    rotation that turns a shape matrix a quarter turn. */
module Tetrominos {

  /** The seven piece identifiers. */
  datatype Name = I | J | L | O | S | T | Z

  /** A shape matrix, row by row; `true` marks an occupied cell. */
  type Matrix = seq<seq<bool>>

  predicate IsSquare(m: Matrix)
  {
    forall i :: 0 <= i < |m| ==> |m[i]| == |m|
  }

  /** The occupied cells of a matrix as (row, column) pairs. */
  ghost function Cells(m: Matrix): set<(int, int)>
  {
    set i, j | 0 <= i < |m| && 0 <= j < |m[i]| && m[i][j] :: (i, j)
  }

  /** The shape template of each piece: 4x4 for I, 2x2 for O, 3x3 for the rest. */
  function Template(n: Name): (m: Matrix)
    ensures IsSquare(m)
    ensures |m| == (if n == I then 4 else if n == O then 2 else 3)
  {
    match n
    case I => [[false, false, false, false], [true, true, true, true], [false, false, false, false], [false, false, false, false]]
    case J => [[true, false, false], [true, true, true], [false, false, false]]
    case L => [[false, false, true], [true, true, true], [false, false, false]]
    case O => [[true, true], [true, true]]
    case S => [[false, true, true], [true, true, false], [false, false, false]]
    case Z => [[true, true, false], [false, true, true], [false, false, false]]
    case T => [[false, true, false], [true, true, true], [false, false, false]]
  }

  /** A quarter turn clockwise: entry (i, j) of the result is entry
      (N-1-j, i) of the N x N input. */
  function Rotate(m: Matrix): (r: Matrix)
    requires IsSquare(m)
    ensures IsSquare(r) && |r| == |m|
  {
    seq(|m|, i requires 0 <= i < |m| => seq(|m|, j requires 0 <= j < |m| => m[|m| - 1 - j][i]))
  }

  /** Where a cell goes under a clockwise quarter turn of an n x n matrix. */
  function TurnCell(p: (int, int), n: int): (int, int)
  {
    (p.1, n - 1 - p.0)
  }

  /** Rotation moves the occupied cell at row a, column b to row b,
      column N-1-a, and creates no other occupied cell. */
  lemma RotateMovesCellsClockwise(m: Matrix)
    requires IsSquare(m)
    ensures Cells(Rotate(m)) == set p | p in Cells(m) :: TurnCell(p, |m|)
  {
    var n := |m|;
    var r := Rotate(m);
    forall q | q in Cells(r) ensures q in set p | p in Cells(m) :: TurnCell(p, n) {
      var p := (n - 1 - q.1, q.0);
      assert p in Cells(m) && TurnCell(p, n) == q;
    }
    forall p | p in Cells(m) ensures TurnCell(p, n) in Cells(r) {
      assert r[p.1][n - 1 - p.0] == m[p.0][p.1];
    }
  }

  /** Turning cells is injective, so it keeps the number of cells. */
  lemma {:induction false} TurnCellsKeepsCount(s: set<(int, int)>, n: int)
    ensures |set p | p in s :: TurnCell(p, n)| == |s|
    decreases |s|
  {
    if s != {} {
      var x :| x in s;
      var rest := s - {x};
      TurnCellsKeepsCount(rest, n);
      var image := set p | p in s :: TurnCell(p, n);
      var imageRest := set p | p in rest :: TurnCell(p, n);
      assert image == imageRest + {TurnCell(x, n)};
      assert TurnCell(x, n) !in imageRest;
    }
  }

  /** Rotation keeps the number of occupied cells. */
  lemma RotateKeepsCellCount(m: Matrix)
    requires IsSquare(m)
    ensures |Cells(Rotate(m))| == |Cells(m)|
  {
    RotateMovesCellsClockwise(m);
    TurnCellsKeepsCount(Cells(m), |m|);
  }

  /** Four quarter turns give back the original matrix. */
  lemma RotateFourTimes(m: Matrix)
    requires IsSquare(m)
    ensures Rotate(Rotate(Rotate(Rotate(m)))) == m
  {
    var n := |m|;
    var r1 := Rotate(m);
    var r2 := Rotate(r1);
    var r3 := Rotate(r2);
    var r4 := Rotate(r3);
    forall i | 0 <= i < n ensures r4[i] == m[i] {
      forall j | 0 <= j < n ensures r4[i][j] == m[i][j] {
        calc {
          r4[i][j];
          r3[n - 1 - j][i];
          r2[n - 1 - i][n - 1 - j];
          r1[j][n - 1 - i];
          m[i][j];
        }
      }
    }
  }

  /** The matrix is the template of the piece turned zero to three times. */
  predicate IsOrientationOf(m: Matrix, n: Name)
  {
    var t := Template(n);
    m == t || m == Rotate(t) || m == Rotate(Rotate(t)) || m == Rotate(Rotate(Rotate(t)))
  }

  /** Rotating an orientation of a piece gives another orientation of it. */
  lemma RotateKeepsOrientation(m: Matrix, n: Name)
    requires IsOrientationOf(m, n)
    ensures IsSquare(m) && IsOrientationOf(Rotate(m), n)
  {
    RotateFourTimes(Template(n));
  }

  /** The occupied cells of m are exactly the pairs in c. */
  lemma CellsAre(m: Matrix, c: set<(int, int)>)
    requires forall p :: p in c ==> 0 <= p.0 < |m| && 0 <= p.1 < |m[p.0]| && m[p.0][p.1]
    requires forall i, j :: 0 <= i < |m| && 0 <= j < |m[i]| && m[i][j] ==> (i, j) in c
    ensures Cells(m) == c
  {
  }

  /** Every template has exactly four occupied cells. */
  lemma TemplateHasFourCells(n: Name)
    ensures |Cells(Template(n))| == 4
  {
    match n
    case I => CellsOfI();
    case J => CellsOfJ();
    case L => CellsOfL();
    case O => CellsOfO();
    case S => CellsOfS();
    case Z => CellsOfZ();
    case T => CellsOfT();
  }

  lemma CellsOfI()
    ensures Cells(Template(I)) == {(1, 0), (1, 1), (1, 2), (1, 3)} && |Cells(Template(I))| == 4
  {
    CellsAre(Template(I), {(1, 0), (1, 1), (1, 2), (1, 3)});
  }

  lemma CellsOfJ()
    ensures Cells(Template(J)) == {(0, 0), (1, 0), (1, 1), (1, 2)} && |Cells(Template(J))| == 4
  {
    CellsAre(Template(J), {(0, 0), (1, 0), (1, 1), (1, 2)});
  }

  lemma CellsOfL()
    ensures Cells(Template(L)) == {(0, 2), (1, 0), (1, 1), (1, 2)} && |Cells(Template(L))| == 4
  {
    CellsAre(Template(L), {(0, 2), (1, 0), (1, 1), (1, 2)});
  }

  lemma CellsOfO()
    ensures Cells(Template(O)) == {(0, 0), (0, 1), (1, 0), (1, 1)} && |Cells(Template(O))| == 4
  {
    CellsAre(Template(O), {(0, 0), (0, 1), (1, 0), (1, 1)});
  }

  lemma CellsOfS()
    ensures Cells(Template(S)) == {(0, 1), (0, 2), (1, 0), (1, 1)} && |Cells(Template(S))| == 4
  {
    CellsAre(Template(S), {(0, 1), (0, 2), (1, 0), (1, 1)});
  }

  lemma CellsOfZ()
    ensures Cells(Template(Z)) == {(0, 0), (0, 1), (1, 1), (1, 2)} && |Cells(Template(Z))| == 4
  {
    CellsAre(Template(Z), {(0, 0), (0, 1), (1, 1), (1, 2)});
  }

  lemma CellsOfT()
    ensures Cells(Template(T)) == {(0, 1), (1, 0), (1, 1), (1, 2)} && |Cells(Template(T))| == 4
  {
    CellsAre(Template(T), {(0, 1), (1, 0), (1, 1), (1, 2)});
  }

  /** Every orientation of a piece has exactly four occupied cells. */
  lemma OrientationHasFourCells(m: Matrix, n: Name)
    requires IsOrientationOf(m, n)
    ensures |Cells(m)| == 4
  {
    var t := Template(n);
    TemplateHasFourCells(n);
    RotateKeepsCellCount(t);
    RotateKeepsCellCount(Rotate(t));
    RotateKeepsCellCount(Rotate(Rotate(t)));
  }
}
