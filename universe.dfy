/**
  The universe object: its dimensions and row-major cell buffer, and the operations
  that build, read, advance and edit it in place.
*/
module Life {
  import opened Grid
  import opened Rules
  import opened Edits

  class Universe {
    var width: nat
    var height: nat
    var cells: seq<Cell>

    /** The buffer holds exactly one cell per coordinate, row after row. */
    ghost predicate Valid()
      reads this
    {
      |cells| == width * height
    }

    /** The default universe: 64 x 64 cells in the seed pattern. */
    constructor ()
      ensures Valid()
      ensures width == 64 && height == 64
      ensures cells == SeedPattern(64 * 64)
    {
      width, height := 64, 64;
      cells := SeedPattern(64 * 64);
    }

    /** A width x height universe in the seed pattern. */
    constructor WithSize(width: nat, height: nat)
      ensures Valid()
      ensures this.width == width && this.height == height
      ensures cells == SeedPattern(width * height)
    {
      this.width, this.height := width, height;
      cells := SeedPattern(width * height);
    }

    /** A width x height universe of dead cells. */
    constructor Empty(width: nat, height: nat)
      ensures Valid()
      ensures this.width == width && this.height == height
      ensures cells == AllDead(width * height)
    {
      this.width, this.height := width, height;
      cells := AllDead(width * height);
    }

    /** The cell buffer, row-major, as a renderer reads it. */
    function Cells(): (c: seq<Cell>)
      reads this
      requires Valid()
      ensures |c| == width * height
    {
      cells
    }

    /** The number of live cells: one for each position that holds a live cell. */
    function AliveCount(): (n: nat)
      reads this
      ensures n == |AliveCells(cells)|
    {
      CountAliveIsCardinality(cells);
      CountAlive(cells)
    }

    /** The live neighbours of (row, col), counted over the offsets height - 1, 0, 1 and
        width - 1, 0, 1 with every (0, 0) pair skipped. */
    method LiveNeighborCount(row: nat, col: nat) returns (count: nat)
      requires Valid()
      requires row < height && col < width
      ensures count == LiveNeighbors(cells, width, height, row, col)
    {
      count := 0;
      var deltaRows, deltaCols := Deltas(height), Deltas(width);
      for i := 0 to |deltaRows|
        invariant count == OffsetSum(cells, width, height, row, col, deltaRows[..i], deltaCols)
      {
        var deltaRow := deltaRows[i];
        for j := 0 to |deltaCols|
          invariant count == OffsetSum(cells, width, height, row, col, deltaRows[..i], deltaCols)
                             + RowSum(cells, width, height, row, col, deltaRow, deltaCols[..j])
        {
          var deltaCol := deltaCols[j];
          RowSumStep(cells, width, height, row, col, deltaRow, deltaCols, j);
          if deltaRow == 0 && deltaCol == 0 {
            continue;
          }
          var neighborRow := (row + deltaRow) % height;
          var neighborCol := (col + deltaCol) % width;
          IndexInGrid(width, height, neighborRow, neighborCol);
          count := count + CellValue(cells[Index(width, neighborRow, neighborCol)]);
        }
        assert deltaCols[..|deltaCols|] == deltaCols;
        OffsetSumStep(cells, width, height, row, col, deltaRows, deltaCols, i);
      }
      assert deltaRows[..|deltaRows|] == deltaRows;
    }

    /** Advances one generation. Every cell's next state is computed from the buffer as it
        was before the tick, never from cells already written in this tick. */
    method Tick()
      requires Valid()
      modifies this
      ensures Valid()
      ensures width == old(width) && height == old(height)
      ensures cells == NextGeneration(old(cells), width, height)
    {
      var next := cells;
      for row := 0 to height
        invariant unchanged(this)
        invariant |next| == |cells|
        invariant forall r: nat, c: nat :: r < row && c < width ==>
                    At(next, width, height, r, c)
                    == NextCell(At(cells, width, height, r, c), LiveNeighbors(cells, width, height, r, c))
      {
        for col := 0 to width
          invariant unchanged(this)
          invariant |next| == |cells|
          invariant forall r: nat, c: nat :: r < height && c < width && (r < row || (r == row && c < col)) ==>
                      At(next, width, height, r, c)
                      == NextCell(At(cells, width, height, r, c), LiveNeighbors(cells, width, height, r, c))
        {
          IndexInGrid(width, height, row, col);
          var idx := Index(width, row, col);
          var cell := cells[idx];
          var liveNeighbors := LiveNeighborCount(row, col);
          UpdateKeepsOthers(next, width, height, row, col, NextCell(cell, liveNeighbors));
          next := next[idx := NextCell(cell, liveNeighbors)];
        }
      }
      SameGrid(next, NextGeneration(cells, width, height), width, height);
      cells := next;
    }

    /** Flips the cell at (row, col) and leaves every other cell as it was. */
    method ToggleCell(row: nat, col: nat)
      requires Valid()
      requires row < height && col < width
      modifies this
      ensures Valid()
      ensures width == old(width) && height == old(height)
      ensures cells == WithCell(old(cells), width, height, row, col, Flip(At(old(cells), width, height, row, col)))
    {
      IndexInGrid(width, height, row, col);
      var idx := Index(width, row, col);
      cells := cells[idx := Flip(cells[idx])];
    }

    /** Stores `cell` at (row, col) and leaves every other cell as it was. */
    method SetCell(row: nat, col: nat, cell: Cell)
      requires Valid()
      requires row < height && col < width
      modifies this
      ensures Valid()
      ensures width == old(width) && height == old(height)
      ensures cells == WithCell(old(cells), width, height, row, col, cell)
    {
      IndexInGrid(width, height, row, col);
      var idx := Index(width, row, col);
      cells := cells[idx := cell];
    }

    /** Makes every cell dead, keeping the dimensions. */
    method Clear()
      requires Valid()
      modifies this
      ensures Valid()
      ensures width == old(width) && height == old(height)
      ensures cells == AllDead(|old(cells)|)
    {
      for i := 0 to |cells|
        invariant width == old(width) && height == old(height)
        invariant |cells| == |old(cells)|
        invariant forall k :: 0 <= k < i ==> cells[k] == Dead
      {
        cells := cells[i := Dead];
      }
      assert cells == AllDead(|old(cells)|);
    }

    /** Sets each cell from one random draw in [0, 1): alive when the draw is below 0.5.
        The draws are given in buffer order, one per cell. */
    method Randomize(draws: seq<real>)
      requires Valid()
      requires |draws| == |cells|
      modifies this
      ensures Valid()
      ensures width == old(width) && height == old(height)
      ensures |cells| == |draws|
      ensures forall i :: 0 <= i < |cells| ==> cells[i] == if draws[i] < 0.5 then Alive else Dead
    {
      for i := 0 to |cells|
        invariant width == old(width) && height == old(height)
        invariant |cells| == |draws|
        invariant forall k :: 0 <= k < i ==> cells[k] == if draws[k] < 0.5 then Alive else Dead
      {
        cells := cells[i := if draws[i] < 0.5 then Alive else Dead];
      }
    }

    /** Stamps a glider with its top-left corner at (startRow, startCol): its five cells,
        each coordinate wrapped around its side, become alive and every other cell keeps
        its state. */
    method SetGlider(startRow: nat, startCol: nat)
      requires Valid()
      requires width >= 1 && height >= 1
      modifies this
      ensures Valid()
      ensures width == old(width) && height == old(height)
      ensures |cells| == |old(cells)|
      ensures forall i :: 0 <= i < |cells| ==>
                cells[i] == if i in Targets(width, height, startRow, startCol, GliderPattern) then Alive else old(cells)[i]
    {
      var pattern := GliderPattern;
      for k := 0 to |pattern|
        invariant Valid()
        invariant width == old(width) && height == old(height)
        invariant forall i :: 0 <= i < |cells| ==>
                    cells[i] == if i in Targets(width, height, startRow, startCol, pattern[..k]) then Alive else old(cells)[i]
      {
        var (rowOffset, colOffset) := pattern[k];
        var row := (startRow + rowOffset) % height;
        var col := (startCol + colOffset) % width;
        SetCell(row, col, Alive);
        assert pattern[..k + 1][..k] == pattern[..k];
      }
      assert pattern[..|pattern|] == pattern;
    }

    /** Changes the dimensions, keeping the cells of the top-left overlap of the old and the
        new shape at their coordinates; every other cell of the new shape is dead. */
    method Resize(newWidth: nat, newHeight: nat)
      requires Valid()
      modifies this
      ensures Valid()
      ensures width == newWidth && height == newHeight
      ensures cells == Resized(old(cells), old(width), old(height), newWidth, newHeight)
    {
      var newCells := AllDead(newWidth * newHeight);
      NothingCopied(newWidth, newHeight, cells, width, height);
      var copyWidth := if width < newWidth then width else newWidth;
      var copyHeight := if height < newHeight then height else newHeight;
      for row := 0 to copyHeight
        invariant unchanged(this)
        invariant |newCells| == newWidth * newHeight
        invariant CopiedBefore(newCells, newWidth, newHeight, cells, width, height, row, 0)
      {
        newCells := CopyRow(newCells, newWidth, newHeight, row, copyWidth);
      }
      CopyDone(newCells, newWidth, newHeight, cells, width, height, copyHeight);
      width, height, cells := newWidth, newHeight, newCells;
    }

    /** The inner loop of Resize: copies the overlap cells of row `row` into the new buffer,
        left to right. */
    method CopyRow(newCells: seq<Cell>, newWidth: nat, newHeight: nat, row: nat, copyWidth: nat)
      returns (copied: seq<Cell>)
      requires Valid()
      requires |newCells| == newWidth * newHeight
      requires row < height && row < newHeight
      requires copyWidth == if width < newWidth then width else newWidth
      requires CopiedBefore(newCells, newWidth, newHeight, cells, width, height, row, 0)
      ensures |copied| == newWidth * newHeight
      ensures CopiedBefore(copied, newWidth, newHeight, cells, width, height, row + 1, 0)
    {
      copied := newCells;
      for col := 0 to copyWidth
        invariant |copied| == newWidth * newHeight
        invariant CopiedBefore(copied, newWidth, newHeight, cells, width, height, row, col)
      {
        IndexInGrid(width, height, row, col);
        var oldIdx := Index(width, row, col);
        CopyOneCell(copied, newWidth, newHeight, cells, width, height, row, col);
        assert cells[oldIdx] == At(cells, width, height, row, col);
        copied := copied[Index(newWidth, row, col) := cells[oldIdx]];
      }
      CopyRowDone(copied, newWidth, newHeight, cells, width, height, row, copyWidth);
    }
  }
}
