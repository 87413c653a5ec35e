/**
  The generation rule: the neighbour count as `live_neighbor_count` computes it, the
  B3/S23 transition of one cell, and the next generation of a whole grid.
*/
module Rules {
  import opened Grid

  /** The offsets one coordinate steps through: n - 1 (one back, modulo n), 0, and 1. */
  function Deltas(n: nat): (d: seq<nat>)
    requires n >= 1
    ensures |d| == 3 && d[1] == 0
  {
    [n - 1, 0, 1]
  }

  /** What the pair of offsets (dr, dc) adds to the count of the cell at (row, col):
      nothing for a (0, 0) pair, otherwise the value of the wrapped-around neighbour. */
  function Contribution(cells: seq<Cell>, width: nat, height: nat, row: nat, col: nat, dr: nat, dc: nat): (v: nat)
    requires |cells| == width * height
    requires row < height && col < width
    ensures v <= 1
  {
    if dr == 0 && dc == 0 then 0
    else CellValue(At(cells, width, height, (row + dr) % height, (col + dc) % width))
  }

  /** The contributions of one row offset `dr` paired with each column offset, in order. */
  function RowSum(cells: seq<Cell>, width: nat, height: nat, row: nat, col: nat, dr: nat, dcs: seq<nat>): (n: nat)
    requires |cells| == width * height
    requires row < height && col < width
    ensures n <= |dcs|
  {
    if dcs == [] then 0
    else
      var k := |dcs| - 1;
      RowSum(cells, width, height, row, col, dr, dcs[..k]) + Contribution(cells, width, height, row, col, dr, dcs[k])
  }

  /** The contributions of every pair (dr, dc), row offsets in the outer position. */
  function OffsetSum(cells: seq<Cell>, width: nat, height: nat, row: nat, col: nat, drs: seq<nat>, dcs: seq<nat>): (n: nat)
    requires |cells| == width * height
    requires row < height && col < width
    ensures n <= |drs| * |dcs|
  {
    if drs == [] then 0
    else
      var k := |drs| - 1;
      MulSucc(k, |dcs|);
      OffsetSum(cells, width, height, row, col, drs[..k], dcs) + RowSum(cells, width, height, row, col, drs[k], dcs)
  }

  lemma MulSucc(k: nat, m: nat)
    ensures (k + 1) * m == k * m + m
  {
  }

  /** One more column offset adds its contribution to a row sum. */
  lemma RowSumStep(cells: seq<Cell>, width: nat, height: nat, row: nat, col: nat, dr: nat, dcs: seq<nat>, j: nat)
    requires |cells| == width * height
    requires row < height && col < width
    requires j < |dcs|
    ensures RowSum(cells, width, height, row, col, dr, dcs[..j + 1])
         == RowSum(cells, width, height, row, col, dr, dcs[..j]) + Contribution(cells, width, height, row, col, dr, dcs[j])
  {
    assert dcs[..j + 1][..j] == dcs[..j];
  }

  /** One more row offset adds its row sum to the offset sum. */
  lemma OffsetSumStep(cells: seq<Cell>, width: nat, height: nat, row: nat, col: nat, drs: seq<nat>, dcs: seq<nat>, i: nat)
    requires |cells| == width * height
    requires row < height && col < width
    requires i < |drs|
    ensures OffsetSum(cells, width, height, row, col, drs[..i + 1], dcs)
         == OffsetSum(cells, width, height, row, col, drs[..i], dcs) + RowSum(cells, width, height, row, col, drs[i], dcs)
  {
    assert drs[..i + 1][..i] == drs[..i];
  }

  /** The live-neighbour count of the cell at (row, col), as the source computes it: every
      pair from Deltas(height) x Deltas(width) except the (0, 0) ones. On a grid with a side
      of length 1 some pairs reach the same cell, or the cell itself. */
  function LiveNeighbors(cells: seq<Cell>, width: nat, height: nat, row: nat, col: nat): (n: nat)
    requires |cells| == width * height
    requires row < height && col < width
    ensures n <= 8
  {
    var drs, dcs := Deltas(height), Deltas(width);
    NineContributions(cells, width, height, row, col, drs[0], drs[1], drs[2], dcs[0], dcs[1], dcs[2]);
    OffsetSum(cells, width, height, row, col, drs, dcs)
  }

  /** The sum over a 3 x 3 table of offsets, written out term by term. */
  lemma {:induction false} NineContributions(cells: seq<Cell>, width: nat, height: nat, row: nat, col: nat,
                                             a: nat, b: nat, c: nat, x: nat, y: nat, z: nat)
    requires |cells| == width * height
    requires row < height && col < width
    ensures OffsetSum(cells, width, height, row, col, [a, b, c], [x, y, z])
         == RowContributions(cells, width, height, row, col, a, x, y, z)
          + RowContributions(cells, width, height, row, col, b, x, y, z)
          + RowContributions(cells, width, height, row, col, c, x, y, z)
  {
    var dcs := [x, y, z];
    assert [a, b, c][..2] == [a, b];
    assert [a, b][..1] == [a];
    assert [a][..0] == [];
    ThreeContributions(cells, width, height, row, col, a, x, y, z);
    ThreeContributions(cells, width, height, row, col, b, x, y, z);
    ThreeContributions(cells, width, height, row, col, c, x, y, z);
    assert OffsetSum(cells, width, height, row, col, [], dcs) == 0;
    assert OffsetSum(cells, width, height, row, col, [a], dcs) == RowSum(cells, width, height, row, col, a, dcs);
    assert OffsetSum(cells, width, height, row, col, [a, b], dcs)
        == OffsetSum(cells, width, height, row, col, [a], dcs) + RowSum(cells, width, height, row, col, b, dcs);
  }

  function RowContributions(cells: seq<Cell>, width: nat, height: nat, row: nat, col: nat, dr: nat, x: nat, y: nat, z: nat): nat
    requires |cells| == width * height
    requires row < height && col < width
  {
    Contribution(cells, width, height, row, col, dr, x)
      + Contribution(cells, width, height, row, col, dr, y)
      + Contribution(cells, width, height, row, col, dr, z)
  }

  lemma {:induction false} ThreeContributions(cells: seq<Cell>, width: nat, height: nat, row: nat, col: nat,
                                              dr: nat, x: nat, y: nat, z: nat)
    requires |cells| == width * height
    requires row < height && col < width
    ensures RowSum(cells, width, height, row, col, dr, [x, y, z]) == RowContributions(cells, width, height, row, col, dr, x, y, z)
  {
    assert [x, y, z][..2] == [x, y];
    assert [x, y][..1] == [x];
    assert [x][..0] == [];
    assert RowSum(cells, width, height, row, col, dr, []) == 0;
    assert RowSum(cells, width, height, row, col, dr, [x]) == Contribution(cells, width, height, row, col, dr, x);
    assert RowSum(cells, width, height, row, col, dr, [x, y])
        == RowSum(cells, width, height, row, col, dr, [x]) + Contribution(cells, width, height, row, col, dr, y);
  }

  /** The B3/S23 rule: a cell is alive in the next generation exactly when it has three
      live neighbours, or it is alive and has two. */
  function NextCell(cell: Cell, liveNeighbors: nat): (next: Cell)
    ensures next == Alive <==> liveNeighbors == 3 || (cell == Alive && liveNeighbors == 2)
  {
    if cell.Alive? && liveNeighbors < 2 then Dead                                   // underpopulation
    else if cell.Alive? && (liveNeighbors == 2 || liveNeighbors == 3) then Alive  // survival
    else if cell.Alive? && liveNeighbors > 3 then Dead                              // overpopulation
    else if cell.Dead? && liveNeighbors == 3 then Alive                             // reproduction
    else cell
  }

  /** The next generation: every cell transformed by NextCell, its neighbours counted
      in the old grid. */
  function NextGeneration(cells: seq<Cell>, width: nat, height: nat): (next: seq<Cell>)
    requires |cells| == width * height
    ensures |next| == |cells|
    ensures forall row: nat, col: nat :: row < height && col < width ==>
              At(next, width, height, row, col)
              == NextCell(At(cells, width, height, row, col), LiveNeighbors(cells, width, height, row, col))
  {
    var next := seq(|cells|, i requires 0 <= i < |cells| => NextAt(cells, width, height, i));
    NextGenerationAt(cells, width, height, next);
    next
  }

  /** The next state of the cell at buffer position i. */
  function NextAt(cells: seq<Cell>, width: nat, height: nat, i: nat): Cell
    requires |cells| == width * height && i < |cells|
  {
    IndexOfPosition(width, height, i);
    NextCell(cells[i], LiveNeighbors(cells, width, height, i / width, i % width))
  }

  lemma NextGenerationAt(cells: seq<Cell>, width: nat, height: nat, next: seq<Cell>)
    requires |cells| == width * height && |next| == |cells|
    requires forall i :: 0 <= i < |next| ==> next[i] == NextAt(cells, width, height, i)
    ensures forall row: nat, col: nat :: row < height && col < width ==>
              At(next, width, height, row, col)
              == NextCell(At(cells, width, height, row, col), LiveNeighbors(cells, width, height, row, col))
  {
    forall row: nat, col: nat | row < height && col < width
      ensures At(next, width, height, row, col)
              == NextCell(At(cells, width, height, row, col), LiveNeighbors(cells, width, height, row, col))
    {
      IndexInGrid(width, height, row, col);
      var i := Index(width, row, col);
      assert next[i] == NextAt(cells, width, height, i);
    }
  }

  /** With no live cell there is nothing to count. */
  lemma NoNeighborsInDeadGrid(cells: seq<Cell>, width: nat, height: nat, row: nat, col: nat)
    requires |cells| == width * height
    requires row < height && col < width
    requires forall i :: 0 <= i < |cells| ==> cells[i] == Dead
    ensures LiveNeighbors(cells, width, height, row, col) == 0
  {
    forall dr: nat, dc: nat
      ensures Contribution(cells, width, height, row, col, dr, dc) == 0
    {
      if dr != 0 || dc != 0 {
        var r, c := (row + dr) % height, (col + dc) % width;
        IndexInGrid(width, height, r, c);
        assert At(cells, width, height, r, c) == cells[Index(width, r, c)];
      }
    }
    NineContributions(cells, width, height, row, col, height - 1, 0, 1, width - 1, 0, 1);
  }

  /** A grid with no live cell stays without one: nothing is born without three live neighbours. */
  lemma {:induction false} DeadGridStaysDead(cells: seq<Cell>, width: nat, height: nat)
    requires |cells| == width * height
    requires forall i :: 0 <= i < |cells| ==> cells[i] == Dead
    ensures NextGeneration(cells, width, height) == cells
  {
    var next := NextGeneration(cells, width, height);
    forall row: nat, col: nat | row < height && col < width
      ensures At(next, width, height, row, col) == At(cells, width, height, row, col)
    {
      NoNeighborsInDeadGrid(cells, width, height, row, col);
      IndexInGrid(width, height, row, col);
    }
    SameGrid(next, cells, width, height);
  }

  /** The coordinate one step back on a ring of n positions. */
  function Before(i: nat, n: nat): nat
    requires i < n
  {
    if i == 0 then n - 1 else i - 1
  }

  /** The coordinate one step forward on a ring of n positions. */
  function After(i: nat, n: nat): nat
    requires i < n
  {
    if i + 1 == n then 0 else i + 1
  }

  /** The textbook toroidal count, independent of the source's loop: the eight cells around
      (row, col), each side wrapping around to the opposite edge. */
  function TorusNeighbors(cells: seq<Cell>, width: nat, height: nat, row: nat, col: nat): nat
    requires |cells| == width * height
    requires row < height && col < width
  {
    var up, down, left, right := Before(row, height), After(row, height), Before(col, width), After(col, width);
    CellValue(At(cells, width, height, up, left))
      + CellValue(At(cells, width, height, up, col))
      + CellValue(At(cells, width, height, up, right))
      + CellValue(At(cells, width, height, row, left))
      + CellValue(At(cells, width, height, row, right))
      + CellValue(At(cells, width, height, down, left))
      + CellValue(At(cells, width, height, down, col))
      + CellValue(At(cells, width, height, down, right))
  }

  /** Adding n - 1, 0 or 1 modulo n steps back, stays, or steps forward on the ring. */
  lemma WrapSteps(i: nat, n: nat)
    requires i < n
    ensures (i + (n - 1)) % n == Before(i, n)
    ensures (i + 0) % n == i
    ensures (i + 1) % n == After(i, n)
  {
    IndexDivMod(n, 0, i);
    if i == 0 {
      IndexDivMod(n, 0, n - 1);
    } else {
      IndexDivMod(n, 1, i - 1);
    }
    if i + 1 < n {
      IndexDivMod(n, 0, i + 1);
    } else {
      IndexDivMod(n, 1, 0);
    }
  }

  /** When both sides are at least 2 the source's count is the textbook toroidal count. */
  lemma LiveNeighborsOnTorus(cells: seq<Cell>, width: nat, height: nat, row: nat, col: nat)
    requires |cells| == width * height
    requires row < height && col < width
    requires width >= 2 && height >= 2
    ensures LiveNeighbors(cells, width, height, row, col) == TorusNeighbors(cells, width, height, row, col)
  {
    NineContributions(cells, width, height, row, col, height - 1, 0, 1, width - 1, 0, 1);
    WrapSteps(row, height);
    WrapSteps(col, width);
  }

  /** On a 1 x 1 grid the source's loop reaches the single cell through five offset pairs,
      where the textbook count reaches it through all eight; a live lone cell dies either way. */
  lemma SingleCellCountsItselfFiveTimes()
    ensures LiveNeighbors([Alive], 1, 1, 0, 0) == 5
    ensures TorusNeighbors([Alive], 1, 1, 0, 0) == 8
    ensures NextGeneration([Alive], 1, 1) == [Dead]
  {
    NineContributions([Alive], 1, 1, 0, 0, 0, 0, 1, 0, 0, 1);
    var next := NextGeneration([Alive], 1, 1);
    assert At(next, 1, 1, 0, 0) == next[0];
  }
}
