/** The playing field of utilities.py: a 20 x 10 matrix of cell values, 0 for
    empty and 1..7 for a locked piece's id. The value functions here say what a
    grid operation produces; class Grid performs it in place on an array. */
module Board {

  import opened Blocks

  const NumRows := 20
  const NumCols := 10

  /** Grid.is_inside. */
  predicate Inside(row: int, column: int) {
    0 <= row < NumRows && 0 <= column < NumCols
  }

  /** The grid's shape: NumRows rows of NumCols cells. */
  predicate IsMatrix(g: seq<seq<int>>) {
    |g| == NumRows && forall r :: 0 <= r < |g| ==> |g[r]| == NumCols
  }

  /** Every cell holds 0 or a piece id. */
  predicate InRange(g: seq<seq<int>>) {
    forall r, c :: 0 <= r < |g| && 0 <= c < |g[r]| ==> 0 <= g[r][c] <= 7
  }

  function EmptyRow(): (z: seq<int>)
    ensures |z| == NumCols && forall c :: 0 <= c < NumCols ==> z[c] == 0
  {
    seq(NumCols, _ => 0)
  }

  /** A grid of the right shape with every cell empty. */
  predicate IsEmptyGrid(g: seq<seq<int>>) {
    IsMatrix(g) && forall r, c :: 0 <= r < NumRows && 0 <= c < NumCols ==> g[r][c] == 0
  }

  function EmptyGrid(): (g: seq<seq<int>>)
    ensures IsEmptyGrid(g) && InRange(g)
    ensures forall r :: 0 <= r < |g| ==> !IsFull(g[r])
  {
    assert EmptyRow()[0] == 0;
    seq(NumRows, _ => EmptyRow())
  }

  /** all(row): no cell of the row is empty. */
  predicate IsFull(row: seq<int>) {
    forall c :: 0 <= c < |row| ==> row[c] != 0
  }

  /** The number of full rows in a list of rows. */
  function CountFull(rows: seq<seq<int>>): nat {
    if rows == [] then 0 else (if IsFull(rows[0]) then 1 else 0) + CountFull(rows[1..])
  }

  /** The rows that are not full, in their original order. */
  function Kept(rows: seq<seq<int>>): seq<seq<int>> {
    if rows == [] then []
    else if IsFull(rows[0]) then Kept(rows[1..])
    else [rows[0]] + Kept(rows[1..])
  }

  /** What clear_full_rows leaves: row 0 as it was, then one empty row per full
      row among rows 1.., then the other rows of 1.. in their original order. */
  function Cleared(g: seq<seq<int>>): seq<seq<int>>
    requires |g| > 0
  {
    [g[0]] + seq(CountFull(g[1..]), _ => EmptyRow()) + Kept(g[1..])
  }

  /** The grid with value v written into every listed cell. */
  function Stamp(g: seq<seq<int>>, cs: seq<Coordinate>, v: int): (r: seq<seq<int>>)
    ensures |r| == |g| && forall i :: 0 <= i < |g| ==> |r[i]| == |g[i]|
  {
    seq(|g|, i requires 0 <= i < |g| =>
      seq(|g[i]|, j requires 0 <= j < |g[i]| => if Coordinate(i, j) in cs then v else g[i][j]))
  }

  // ---------------------------------------------------------------------------
  // Properties of the value functions

  /** Full and kept rows split the list: their counts add up to its length and
      every kept row is a row of the list that is not full. */
  lemma {:induction false} KeptCount(rows: seq<seq<int>>)
    ensures |Kept(rows)| + CountFull(rows) == |rows|
    ensures forall k :: 0 <= k < |Kept(rows)| ==> Kept(rows)[k] in rows && !IsFull(Kept(rows)[k])
  {
    if rows != [] {
      KeptCount(rows[1..]);
    }
  }

  /** With no full row, nothing is counted and every row is kept. */
  lemma {:induction false} NoFullKeepsAll(rows: seq<seq<int>>)
    requires forall k :: 0 <= k < |rows| ==> !IsFull(rows[k])
    ensures CountFull(rows) == 0 && Kept(rows) == rows
  {
    if rows != [] {
      NoFullKeepsAll(rows[1..]);
      assert rows == [rows[0]] + rows[1..];
    }
  }

  /** If every full row of a list sits at an index in [lo, hi), at most as
      many rows as that window has indices are counted. */
  lemma {:induction false} FullRowsInWindow(rows: seq<seq<int>>, lo: int, hi: int)
    requires forall i :: 0 <= i < |rows| && IsFull(rows[i]) ==> lo <= i < hi
    ensures CountFull(rows) <= if hi <= lo || hi <= 0 then 0 else hi - (if lo < 0 then 0 else lo)
  {
    if rows != [] {
      forall i | 0 <= i < |rows[1..]| && IsFull(rows[1..][i])
        ensures lo - 1 <= i < hi - 1
      {
        assert rows[1..][i] == rows[i + 1];
      }
      FullRowsInWindow(rows[1..], lo - 1, hi - 1);
    }
  }

  /** Clearing keeps the grid's shape and the range of its cell values, empties
      rows 1..k where k is the number of full rows among 1.., and leaves no full
      row below row 0. */
  lemma ClearedShape(g: seq<seq<int>>)
    requires IsMatrix(g) && InRange(g)
    ensures IsMatrix(Cleared(g)) && InRange(Cleared(g))
    ensures Cleared(g)[0] == g[0]
    ensures forall r, c :: 1 <= r <= CountFull(g[1..]) && 0 <= c < NumCols ==> Cleared(g)[r][c] == 0
    ensures forall r :: 1 <= r < NumRows ==> !IsFull(Cleared(g)[r])
  {
    var rest := g[1..];
    KeptCount(rest);
    var k := CountFull(rest);
    var kept := Kept(rest);
    forall r | 1 + k <= r < NumRows
      ensures Cleared(g)[r] == kept[r - 1 - k] && Cleared(g)[r] in rest
    {
    }
    forall r, c | 1 <= r < NumRows && 0 <= c < |Cleared(g)[r]|
      ensures 0 <= Cleared(g)[r][c] <= 7
    {
      if r > k {
        var i :| 0 <= i < |rest| && rest[i] == Cleared(g)[r];
        assert rest[i] == g[i + 1];
      }
    }
    forall r | 1 <= r < NumRows
      ensures |Cleared(g)[r]| == NumCols && !IsFull(Cleared(g)[r])
    {
      if r <= k {
        assert Cleared(g)[r][0] == 0;
      } else {
        var i :| 0 <= i < |rest| && rest[i] == Cleared(g)[r];
        assert rest[i] == g[i + 1];
      }
    }
  }

  /** A grid whose column 0 is empty in every row has no full row among 1..,
      so clearing counts 0 and changes nothing. */
  lemma NothingToClear(g: seq<seq<int>>)
    requires IsMatrix(g)
    requires forall r :: 1 <= r < NumRows ==> g[r][0] == 0
    ensures CountFull(g[1..]) == 0 && Cleared(g) == g
  {
    forall k | 0 <= k < |g[1..]| ensures !IsFull(g[1..][k]) {
      assert g[1..][k] == g[k + 1];
      assert g[k + 1][0] == 0;
    }
    NoFullKeepsAll(g[1..]);
    assert g == [g[0]] + g[1..];
  }

  /** If no row among 1.. is full, clearing counts 0 and changes nothing. */
  lemma ClearedNoFull(g: seq<seq<int>>)
    requires |g| > 0
    requires forall r :: 1 <= r < |g| ==> !IsFull(g[r])
    ensures CountFull(g[1..]) == 0 && Cleared(g) == g
  {
    NoFullKeepsAll(g[1..]);
    assert g == [g[0]] + g[1..];
  }

  /** Clearing twice is clearing once: the second pass finds nothing to clear. */
  lemma ClearedIdempotent(g: seq<seq<int>>)
    requires IsMatrix(g) && InRange(g)
    ensures CountFull(Cleared(g)[1..]) == 0
    ensures Cleared(Cleared(g)) == Cleared(g)
  {
    ClearedShape(g);
    ClearedNoFull(Cleared(g));
  }

  /** Stamping an id keeps the grid's shape and the range of its values. */
  lemma StampShape(g: seq<seq<int>>, cs: seq<Coordinate>, v: int)
    requires IsMatrix(g) && InRange(g) && 0 <= v <= 7
    ensures IsMatrix(Stamp(g, cs, v)) && InRange(Stamp(g, cs, v))
  {
  }

  /** Stamping writes v into exactly the listed cells that lie on the grid. */
  lemma StampAt(g: seq<seq<int>>, cs: seq<Coordinate>, v: int, r: int, c: int)
    requires 0 <= r < |g| && 0 <= c < |g[r]|
    ensures Stamp(g, cs, v)[r][c] == (if Coordinate(r, c) in cs then v else g[r][c])
  {
  }

  /** Stamping no cell changes nothing. */
  lemma StampNothing(g: seq<seq<int>>, v: int)
    ensures Stamp(g, [], v) == g
  {
    forall r | 0 <= r < |g| ensures Stamp(g, [], v)[r] == g[r] {
      forall c | 0 <= c < |g[r]| ensures Stamp(g, [], v)[r][c] == g[r][c] {
        StampAt(g, [], v, r, c);
      }
    }
  }

  /** Stamping one more cell is one more single-cell write. */
  lemma StampSnoc(g: seq<seq<int>>, cs: seq<Coordinate>, x: Coordinate, v: int)
    requires IsMatrix(g) && Inside(x.row, x.column)
    ensures var before := Stamp(g, cs, v);
      Stamp(g, cs + [x], v) == before[x.row := before[x.row][x.column := v]]
  {
    var before := Stamp(g, cs, v);
    var after := before[x.row := before[x.row][x.column := v]];
    forall r | 0 <= r < |g| ensures Stamp(g, cs + [x], v)[r] == after[r] {
      forall c | 0 <= c < |g[r]| ensures Stamp(g, cs + [x], v)[r][c] == after[r][c] {
        StampAt(g, cs + [x], v, r, c);
        StampAt(g, cs, v, r, c);
      }
    }
  }

  /** The grid part-way through clear_full_rows, once rows NumRows-1 down to
      row+1 have been processed: rows 0..row untouched, then one empty row per
      full row processed, then the processed rows that were not full. */
  function Pass(g: seq<seq<int>>, row: int): seq<seq<int>>
    requires 0 <= row < |g|
  {
    g[..row + 1] + seq(CountFull(g[row + 1..]), _ => EmptyRow()) + Kept(g[row + 1..])
  }

  /** Before the first row is processed the grid is unchanged. */
  lemma PassStart(g: seq<seq<int>>)
    requires |g| > 0
    ensures Pass(g, |g| - 1) == g
  {
  }

  /** One step of the pass at a row r >= 1 whose contents are still g[r]: a full
      row is emptied; otherwise, if k rows were cleared so far (k > 0), it moves
      down k rows and its place is emptied; with k = 0 nothing changes. */
  lemma PassStep(g: seq<seq<int>>, row: int)
    requires IsMatrix(g) && 1 <= row < |g|
    ensures |Pass(g, row)| == |g| && Pass(g, row)[row] == g[row]
    ensures row + CountFull(g[row + 1..]) < |g|
    ensures CountFull(g[row..]) == CountFull(g[row + 1..]) + (if IsFull(g[row]) then 1 else 0)
    ensures var k := CountFull(g[row + 1..]);
      Pass(g, row - 1) ==
        if IsFull(g[row]) then Pass(g, row)[row := EmptyRow()]
        else if k > 0 then Pass(g, row)[row + k := g[row]][row := EmptyRow()]
        else Pass(g, row)
  {
    var rest := g[row + 1..];
    assert g[row..] == [g[row]] + rest;
    KeptCount(rest);
    var k := CountFull(rest);
    var p := Pass(g, row);
    var q := Pass(g, row - 1);
    assert |p| == |g|;
    if IsFull(g[row]) {
      var want := p[row := EmptyRow()];
      assert |q| == |want|;
      forall i | 0 <= i < |q| ensures q[i] == want[i] {
        if i < row {
        } else if i <= row + k {
        } else {
          assert q[i] == Kept(rest)[i - row - k - 1];
        }
      }
    } else if k > 0 {
      var want := p[row + k := g[row]][row := EmptyRow()];
      assert |q| == |want|;
      forall i | 0 <= i < |q| ensures q[i] == want[i] {
        if i < row {
        } else if i < row + k {
        } else if i == row + k {
          assert q[i] == Kept(g[row..])[0];
        } else {
          assert q[i] == Kept(g[row..])[i - row - k];
        }
      }
    } else {
      assert g[..row + 1] == g[..row] + [g[row]];
    }
  }

  // ---------------------------------------------------------------------------
  // The grid object

  class Grid {
    /** self.cells: updated in place, never replaced. */
    const cells: array2<int>
    /** The contents of cells as a value. */
    ghost var rows: seq<seq<int>>

    ghost predicate Valid()
      reads this, cells
    {
      cells.Length0 == NumRows && cells.Length1 == NumCols &&
      IsMatrix(rows) && InRange(rows) &&
      forall r, c :: 0 <= r < NumRows && 0 <= c < NumCols ==> cells[r, c] == rows[r][c]
    }

    /** Grid.__init__: a fresh all-empty 20 x 10 grid. */
    constructor ()
      ensures Valid() && fresh(cells)
      ensures rows == EmptyGrid()
    {
      cells := new int[NumRows, NumCols]((_, _) => 0);
      rows := EmptyGrid();
    }

    /** Grid.is_inside: true exactly for the positions the array can be indexed at. */
    function IsInside(row: int, column: int): (b: bool)
      requires Valid()
      reads this, cells
      ensures b <==> 0 <= row < cells.Length0 && 0 <= column < cells.Length1
    {
      Inside(row, column)
    }

    /** Grid.is_empty_cell. The source indexes the list without a bounds check
        (a negative index would wrap), so callers must pass a cell inside. */
    function IsEmptyCell(row: int, column: int): (b: bool)
      requires Valid() && Inside(row, column)
      reads this, cells
      ensures b <==> rows[row][column] == 0
    {
      cells[row, column] == 0
    }

    /** all(self.cells[row]) */
    function RowIsFull(row: int): (b: bool)
      requires Valid() && 0 <= row < NumRows
      reads this, cells
      ensures b <==> IsFull(rows[row])
    {
      forall c :: 0 <= c < NumCols ==> cells[row, c] != 0
    }

    /** Write a value into one cell (the assignment of place_block's first
        loop, self.grid.cells[row][column] = id). */
    method SetCell(row: int, column: int, v: int)
      requires Valid() && Inside(row, column) && 0 <= v <= 7
      modifies this, cells
      ensures Valid()
      ensures rows == old(rows)[row := old(rows)[row][column := v]]
    {
      cells[row, column] := v;
      rows := rows[row := rows[row][column := v]];
    }

    /** Empty one row (the inner column loop of the source's full-row branch). */
    method ClearRow(row: int)
      requires Valid() && 0 <= row < NumRows
      modifies this, cells
      ensures Valid()
      ensures rows == old(rows)[row := EmptyRow()]
    {
      for column := 0 to NumCols
        modifies cells
        invariant forall c :: 0 <= c < column ==> cells[row, c] == 0
        invariant forall r, c :: 0 <= r < NumRows && 0 <= c < NumCols && (r != row || c >= column) ==>
          cells[r, c] == old(cells[r, c])
      {
        cells[row, column] := 0;
      }
      rows := rows[row := EmptyRow()];
    }

    /** Move one row down by `distance` rows and empty its old place (the inner
        column loop of the source's shifting branch). */
    method ShiftRow(row: int, distance: int)
      requires Valid() && 0 <= row && 0 < distance && row + distance < NumRows
      modifies this, cells
      ensures Valid()
      ensures rows == old(rows)[row + distance := old(rows)[row]][row := EmptyRow()]
    {
      for column := 0 to NumCols
        modifies cells
        invariant forall c :: 0 <= c < column ==> cells[row + distance, c] == old(cells[row, c]) && cells[row, c] == 0
        invariant forall r, c :: 0 <= r < NumRows && 0 <= c < NumCols && ((r != row && r != row + distance) || c >= column) ==>
          cells[r, c] == old(cells[r, c])
      {
        cells[row + distance, column] := cells[row, column];
        cells[row, column] := 0;
      }
      rows := rows[row + distance := rows[row]][row := EmptyRow()];
    }

    /** Grid.clear_full_rows: a single bottom-up pass over rows NumRows-1 down
        to 1 (row 0 is never looked at) that empties each full row and moves each
        other row down by the number of rows cleared so far. */
    method ClearFullRows() returns (rowsCleared: nat)
      requires Valid()
      modifies this, cells
      ensures Valid()
      ensures rowsCleared == CountFull(old(rows)[1..])
      ensures rows == Cleared(old(rows))
    {
      ghost var g := rows;
      PassStart(g);
      rowsCleared := 0;
      var row := NumRows - 1;
      while row > 0
        invariant 0 <= row < NumRows && Valid()
        invariant rowsCleared == CountFull(g[row + 1..])
        invariant rows == Pass(g, row)
      {
        PassStep(g, row);
        if RowIsFull(row) {
          ClearRow(row);
          rowsCleared := rowsCleared + 1;
        } else if rowsCleared > 0 {
          ShiftRow(row, rowsCleared);
        }
        row := row - 1;
      }
      assert g[..1] == [g[0]];
    }

    /** Grid.reset_grid: every cell back to 0. */
    method ResetGrid()
      requires Valid()
      modifies this, cells
      ensures Valid()
      ensures rows == EmptyGrid()
    {
      for row := 0 to NumRows
        modifies cells
        invariant forall r, c :: 0 <= r < row && 0 <= c < NumCols ==> cells[r, c] == 0
      {
        for column := 0 to NumCols
          modifies cells
          invariant forall r, c :: 0 <= r < row && 0 <= c < NumCols ==> cells[r, c] == 0
          invariant forall c :: 0 <= c < column ==> cells[row, c] == 0
        {
          cells[row, column] := 0;
        }
      }
      rows := EmptyGrid();
    }
  }
}
