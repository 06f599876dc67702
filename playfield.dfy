/** The playfield: 20 visible rows of 10 cells under a hidden buffer of two
    rows. Logical rows run from -2 to 19; a grid stores them at physical
    index logical + 2. Besides the grid, this module defines the collision
    rule, the writing of a locked piece and the compaction of full rows. */
module Playfield {
  import opened Tetrominos

  const Rows := 20
  const Cols := 10
  const Hidden := 2
  const Height := Rows + Hidden

  /** A cell is empty or holds the name of the piece that locked there. */
  datatype Cell = Empty | Filled(name: Name)

  type Row = seq<Cell>

  /** Physical rows 0..21; physical row k holds logical row k - 2. */
  type Grid = seq<Row>

  predicate WellFormed(g: Grid)
  {
    |g| == Height && forall k :: 0 <= k < |g| ==> |g[k]| == Cols
  }

  /** The cell at logical row r, column c. */
  function At(g: Grid, r: int, c: int): Cell
    requires WellFormed(g) && -Hidden <= r < Rows && 0 <= c < Cols
  {
    g[r + Hidden][c]
  }

  function BlankRow(): Row
  {
    seq(Cols, _ => Empty)
  }

  function EmptyGrid(): (g: Grid)
    ensures WellFormed(g) && HiddenEmpty(g)
    ensures forall k, c :: 0 <= k < Height && 0 <= c < Cols ==> g[k][c] == Empty
    ensures forall k :: 0 <= k < Height ==> !Full(g[k])
  {
    var g := seq(Height, _ => BlankRow());
    assert forall k :: 0 <= k < Height ==> g[k][0] == Empty;
    g
  }

  /** Nothing is stored in the two hidden rows. */
  ghost predicate HiddenEmpty(g: Grid)
    requires WellFormed(g)
  {
    forall k, c :: 0 <= k < Hidden && 0 <= c < Cols ==> g[k][c] == Empty
  }

  /** (i, j) is an occupied cell of the matrix. */
  predicate Occupied(m: Matrix, i: int, j: int)
  {
    0 <= i < |m| && 0 <= j < |m[i]| && m[i][j]
  }

  /** Every occupied cell of the piece at (row, col) lies inside the
      columns, above the floor, and not above the hidden buffer. */
  ghost predicate InBounds(m: Matrix, row: int, col: int)
  {
    row >= -Hidden &&
    forall i, j :: Occupied(m, i, j) ==> 0 <= col + j < Cols && row + i < Rows
  }

  /** Logical cell (r, c) is inside the columns, above the floor and empty. */
  ghost predicate FreeAt(g: Grid, r: int, c: int)
    requires WellFormed(g) && r >= -Hidden
  {
    0 <= c < Cols && r < Rows && At(g, r, c) == Empty
  }

  /** The collision rule: every occupied cell of the matrix placed at
      (row, col) lands on a free cell; the hidden rows count as cells. */
  ghost predicate Fits(g: Grid, m: Matrix, row: int, col: int)
    requires WellFormed(g) && row >= -Hidden
    ensures Fits(g, m, row, col) ==> InBounds(m, row, col)
  {
    forall i, j :: Occupied(m, i, j) ==> FreeAt(g, row + i, col + j)
  }

  /** Some occupied cell of the matrix placed at `row` is above row 0. */
  ghost predicate TopsOut(m: Matrix, row: int)
    ensures TopsOut(m, row) ==> row < 0
  {
    exists i, j :: Occupied(m, i, j) && row + i < 0
  }

  /** Logical cell (r, c) lies under an occupied cell of the piece at (row, col). */
  predicate Covers(m: Matrix, row: int, col: int, r: int, c: int)
  {
    Occupied(m, r - row, c - col)
  }

  /** The grid with the piece's name written into every cell under an
      occupied matrix cell, and every other cell as it was. */
  ghost function Stamp(g: Grid, m: Matrix, row: int, col: int, n: Name): (g': Grid)
    requires WellFormed(g)
    ensures WellFormed(g')
    ensures forall k, c :: 0 <= k < Height && 0 <= c < Cols && g'[k][c] != g[k][c] ==> g'[k][c] == Filled(n)
  {
    seq(Height, k requires 0 <= k < Height =>
      seq(Cols, c requires 0 <= c < Cols =>
        if Covers(m, row, col, k - Hidden, c) then Filled(n) else g[k][c]))
  }

  /** Locking a piece that does not top out writes exactly the cells under
      it and leaves the hidden rows empty. */
  lemma StampWritesOnlyThePiece(g: Grid, m: Matrix, row: int, col: int, n: Name)
    requires WellFormed(g) && HiddenEmpty(g) && !TopsOut(m, row)
    ensures var g' := Stamp(g, m, row, col, n);
      HiddenEmpty(g') &&
      (forall k, c :: 0 <= k < Height && 0 <= c < Cols && Covers(m, row, col, k - Hidden, c) ==> g'[k][c] == Filled(n)) &&
      (forall k, c :: 0 <= k < Height && 0 <= c < Cols && !Covers(m, row, col, k - Hidden, c) ==> g'[k][c] == g[k][c])
  {
    var g' := Stamp(g, m, row, col, n);
    forall k, c | 0 <= k < Hidden && 0 <= c < Cols ensures g'[k][c] == Empty {
      assert !Covers(m, row, col, k - Hidden, c) by {
        assert !(Occupied(m, k - Hidden - row, c - col) && row + (k - Hidden - row) < 0);
      }
      assert g'[k][c] == g[k][c];
    }
  }

  /** Every cell of the row is occupied. */
  predicate Full(r: Row)
    ensures Full(r) <==> Empty !in r
  {
    forall c :: 0 <= c < |r| ==> r[c] != Empty
  }

  /** The rows that are not full, in their original order. */
  function Kept(v: seq<Row>): (k: seq<Row>)
    ensures |k| <= |v|
    ensures forall x :: x in k ==> x in v && !Full(x)
  {
    if v == [] then []
    else (if Full(v[0]) then [] else [v[0]]) + Kept(v[1..])
  }

  function Blanks(n: nat): (b: seq<Row>)
    ensures |b| == n
  {
    seq(n, _ => BlankRow())
  }

  /** Line clearing on the visible rows: the full rows removed, the others
      kept in order, and as many blank rows added on top as were removed. */
  function Compact(v: seq<Row>): (w: seq<Row>)
    ensures |w| == |v|
  {
    Blanks(|v| - |Kept(v)|) + Kept(v)
  }


  /** The whole grid after line clearing: the hidden rows as they were,
      the visible rows compacted. No visible row of the result is full. */
  ghost function Cleared(g: Grid): (g': Grid)
    requires WellFormed(g)
    ensures WellFormed(g') && g'[..Hidden] == g[..Hidden] && g'[Hidden..] == Compact(g[Hidden..])
    ensures forall k :: Hidden <= k < Height ==> !Full(g'[k])
  {
    var v := g[Hidden..];
    var w := Compact(v);
    assert forall x :: x in v ==> |x| == Cols;
    CompactIdempotent(v);
    g[..Hidden] + w
  }

  lemma {:induction false} KeptAppend(a: seq<Row>, b: seq<Row>)
    ensures Kept(a + b) == Kept(a) + Kept(b)
  {
    if a == [] {
      assert a + b == b;
    } else {
      assert (a + b)[0] == a[0] && (a + b)[1..] == a[1..] + b;
      KeptAppend(a[1..], b);
    }
  }

  /** When no row is full, line clearing keeps every row. */
  lemma {:induction false} KeptAll(v: seq<Row>)
    requires forall k :: 0 <= k < |v| ==> !Full(v[k])
    ensures Kept(v) == v
  {
    if v != [] {
      KeptAll(v[1..]);
    }
  }

  /** With no full row, compaction is the identity. */
  lemma CompactWithoutFullRows(v: seq<Row>)
    requires forall k :: 0 <= k < |v| ==> !Full(v[k])
    ensures Compact(v) == v
  {
    KeptAll(v);
    assert Blanks(0) == [];
  }

  /** Compaction leaves no full row, so compacting twice is compacting once. */
  lemma CompactIdempotent(v: seq<Row>)
    ensures forall k :: 0 <= k < |v| ==> !Full(Compact(v)[k])
    ensures Compact(Compact(v)) == Compact(v)
  {
    var w := Compact(v);
    var n := |v| - |Kept(v)|;
    forall k | 0 <= k < |v| ensures !Full(w[k]) {
      if k < n {
        assert w[k] == BlankRow() && BlankRow()[0] == Empty;
      } else {
        assert w[k] == Kept(v)[k - n] && w[k] in Kept(v);
      }
    }
    CompactWithoutFullRows(w);
  }

  /** One step of the source's line clear: when visible row r is full, the
      rows above it move down one and a blank row enters at the top. This
      removes one full row and does not change the compacted result. */
  lemma CompactAfterShift(v: seq<Row>, r: int)
    requires 0 <= r < |v| && Full(v[r])
    ensures var w := [BlankRow()] + v[..r] + v[r + 1..];
      |w| == |v| && |Kept(w)| == |Kept(v)| + 1 && Compact(w) == Compact(v)
  {
    var w := [BlankRow()] + v[..r] + v[r + 1..];
    KeptAfterShift(v, r);
    var n := |v| - |Kept(v)|;
    BlanksGrow(n);
    calc {
      Compact(w);
      Blanks(n - 1) + Kept(w);
      Blanks(n - 1) + ([BlankRow()] + Kept(v));
      (Blanks(n - 1) + [BlankRow()]) + Kept(v);
      Compact(v);
    }
  }

  /** The shift's rows keep the blank row entering on top and every row
      kept before except the full one. */
  lemma KeptAfterShift(v: seq<Row>, r: int)
    requires 0 <= r < |v| && Full(v[r])
    ensures Kept([BlankRow()] + v[..r] + v[r + 1..]) == [BlankRow()] + Kept(v)
  {
    var u := v[..r] + v[r + 1..];
    assert [BlankRow()] + v[..r] + v[r + 1..] == [BlankRow()] + u;
    calc {
      Kept([BlankRow()] + u);
    == { KeptKeepsBlankRow(u); }
      [BlankRow()] + Kept(u);
    == { KeptDropsFullRow(v, r); }
      [BlankRow()] + Kept(v);
    }
  }

  lemma BlanksGrow(n: nat)
    requires n > 0
    ensures Blanks(n) == Blanks(n - 1) + [BlankRow()]
  {
  }

  /** One shift of the source's line clear: logical rows 0..r each take
      the row above them (row 0 takes hidden row -1); other rows stay. */
  ghost function ShiftedDown(g: Grid, r: int): (g': Grid)
    requires WellFormed(g) && 0 <= r < Rows
    ensures WellFormed(g') && g'[..Hidden] == g[..Hidden]
    ensures forall k :: Hidden + r < k < Height ==> g'[k] == g[k]
  {
    seq(Height, k requires 0 <= k < Height => if Hidden <= k <= Hidden + r then g[k - 1] else g[k])
  }

  /** Shifting down onto a full row r of a grid with empty hidden rows
      removes that row and one full row from the count, keeps the hidden
      rows and the rows below r, and does not change the compacted field. */
  lemma ShiftDownRemovesFullRow(g: Grid, r: int)
    requires WellFormed(g) && HiddenEmpty(g) && 0 <= r < Rows && Full(g[Hidden + r])
    ensures var g' := ShiftedDown(g, r);
      Compact(g'[Hidden..]) == Compact(g[Hidden..]) &&
      |Kept(g'[Hidden..])| == |Kept(g[Hidden..])| + 1
  {
    var v := g[Hidden..];
    var g' := ShiftedDown(g, r);
    var top := g[Hidden - 1];
    assert top == BlankRow() by {
      assert forall c :: 0 <= c < Cols ==> top[c] == Empty;
    }
    var w := [BlankRow()] + v[..r] + v[r + 1..];
    forall x | 0 <= x < Rows ensures g'[Hidden..][x] == w[x] {
      if x == 0 {
      } else if x <= r {
        assert w[x] == v[x - 1];
      } else {
        assert w[x] == v[x];
      }
    }
    assert g'[Hidden..] == w;
    CompactAfterShift(v, r);
  }

  /** What the source's line-clear scan keeps true while it works on
      logical row r: the hidden rows are as they were (and empty), the
      compacted field is the one it started from, and no visible row below
      r is full. */
  ghost predicate Scanning(g0: Grid, g: Grid, r: int)
    requires WellFormed(g0) && WellFormed(g)
  {
    g[..Hidden] == g0[..Hidden] && HiddenEmpty(g) &&
    Compact(g[Hidden..]) == Compact(g0[Hidden..]) &&
    forall k :: 0 <= k < Height && Hidden + r < k ==> !Full(g[k])
  }

  /** Shifting onto a full row keeps the scan's invariant at the same row
      and makes one more visible row non-full. */
  lemma ScanShiftsFullRow(g0: Grid, g: Grid, r: int)
    requires WellFormed(g0) && WellFormed(g) && 0 <= r < Rows
    requires Scanning(g0, g, r) && Full(g[Hidden + r])
    ensures Scanning(g0, ShiftedDown(g, r), r)
    ensures |Kept(ShiftedDown(g, r)[Hidden..])| == |Kept(g[Hidden..])| + 1
  {
    var g' := ShiftedDown(g, r);
    ShiftDownRemovesFullRow(g, r);
    forall k, c | 0 <= k < Hidden && 0 <= c < Cols ensures g'[k][c] == Empty {
      assert g'[..Hidden][k] == g[..Hidden][k];
    }
  }

  /** When the scan has passed row 0, the grid is the cleared one. */
  lemma ScanEndsCleared(g0: Grid, g: Grid)
    requires WellFormed(g0) && WellFormed(g) && Scanning(g0, g, -1)
    ensures g == Cleared(g0)
  {
    var v := g[Hidden..];
    CompactWithoutFullRows(v);
    assert g == g[..Hidden] + v;
  }

  lemma KeptDropsFullRow(v: seq<Row>, r: int)
    requires 0 <= r < |v| && Full(v[r])
    ensures Kept(v) == Kept(v[..r] + v[r + 1..])
  {
    var a, x, b := v[..r], v[r], v[r + 1..];
    assert v == a + ([x] + b);
    KeptAppend(a, [x] + b);
    KeptAppend([x], b);
    KeptOfFullRow(x);
    assert Kept([x] + b) == Kept(b);
    KeptAppend(a, b);
  }

  /** A full row on its own is dropped entirely. */
  lemma KeptOfFullRow(x: Row)
    requires Full(x)
    ensures Kept([x]) == []
  {
    assert [x][1..] == [];
  }

  lemma KeptKeepsBlankRow(v: seq<Row>)
    ensures Kept([BlankRow()] + v) == [BlankRow()] + Kept(v)
  {
    assert BlankRow()[0] == Empty;
    assert ([BlankRow()] + v)[1..] == v;
  }

  /** With only the bottom row full, clearing drops it and moves every
      other visible row down one, under one blank row. */
  lemma ClearBottomRowOnly(v: seq<Row>)
    requires |v| == Rows && Full(v[Rows - 1])
    requires forall k :: 0 <= k < Rows - 1 ==> !Full(v[k])
    ensures Compact(v) == [BlankRow()] + v[..Rows - 1]
  {
    assert v == v[..Rows - 1] + [v[Rows - 1]];
    KeptAppend(v[..Rows - 1], [v[Rows - 1]]);
    KeptAll(v[..Rows - 1]);
    KeptOfFullRow(v[Rows - 1]);
    assert Blanks(1) == [BlankRow()];
  }
}
