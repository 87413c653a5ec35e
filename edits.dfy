/**
  What the pattern stamp and the resize do to a grid, as functions of the old grid.
*/
module Edits {
  import opened Grid

  /** The glider's cells as (row offset, column offset) from its top-left corner. */
  const GliderPattern: seq<(nat, nat)> := [(0, 1), (1, 2), (2, 0), (2, 1), (2, 2)]

  /** The buffer position that offset (dr, dc) from (row, col) lands on, each coordinate
      wrapping around its own side. Neither start coordinate need be in range. */
  function Target(width: nat, height: nat, row: nat, col: nat, dr: nat, dc: nat): (i: nat)
    requires width >= 1 && height >= 1
    ensures i < width * height
  {
    IndexInGrid(width, height, (row + dr) % height, (col + dc) % width);
    Index(width, (row + dr) % height, (col + dc) % width)
  }

  /** The positions a stamp of the given offsets sets alive. */
  function Targets(width: nat, height: nat, row: nat, col: nat, offsets: seq<(nat, nat)>): (t: set<nat>)
    requires width >= 1 && height >= 1
    ensures forall i :: i in t ==> i < width * height
  {
    if offsets == [] then {}
    else
      var k := |offsets| - 1;
      Targets(width, height, row, col, offsets[..k]) + {Target(width, height, row, col, offsets[k].0, offsets[k].1)}
  }

  /** The glider lands on these five positions. */
  lemma {:induction false} GliderTargets(width: nat, height: nat, row: nat, col: nat)
    requires width >= 1 && height >= 1
    ensures Targets(width, height, row, col, GliderPattern)
         == {Target(width, height, row, col, 0, 1), Target(width, height, row, col, 1, 2),
             Target(width, height, row, col, 2, 0), Target(width, height, row, col, 2, 1),
             Target(width, height, row, col, 2, 2)}
  {
    var p: seq<(nat, nat)> := GliderPattern;
    var t := (k: nat) requires k < 5 => Target(width, height, row, col, p[k].0, p[k].1);
    assert |p[..1][..0]| == 0;
    assert Targets(width, height, row, col, p[..1]) == {t(0)};
    assert p[..2][..1] == p[..1];
    assert Targets(width, height, row, col, p[..2]) == {t(0), t(1)};
    assert p[..3][..2] == p[..2];
    assert Targets(width, height, row, col, p[..3]) == {t(0), t(1), t(2)};
    assert p[..4][..3] == p[..3];
    assert Targets(width, height, row, col, p[..4]) == {t(0), t(1), t(2), t(3)};
    assert p[..4] == p[..|p| - 1];
  }

  /** On a grid at least 3 x 3 the five glider cells are distinct. */
  lemma GliderHasFiveCells(width: nat, height: nat, row: nat, col: nat)
    requires width >= 3 && height >= 3
    ensures |Targets(width, height, row, col, GliderPattern)| == 5
  {
    GliderTargets(width, height, row, col);
    ThreeApart(row, height);
    ThreeApart(col, width);
    var a := Target(width, height, row, col, 0, 1);
    var b := Target(width, height, row, col, 1, 2);
    var c := Target(width, height, row, col, 2, 0);
    var d := Target(width, height, row, col, 2, 1);
    var e := Target(width, height, row, col, 2, 2);
    assert a !in {b, c, d, e};
    assert b !in {c, d, e};
    assert c !in {d, e};
    assert d != e;
    assert |{d, e}| == 2;
    assert |{c, d, e}| == 3;
    assert |{b, c, d, e}| == 4;
    assert {a, b, c, d, e} == {a} + {b, c, d, e};
  }

  /** Three consecutive coordinates wrap to three different ones on a ring of at least 3. */
  lemma ThreeApart(x: nat, n: nat)
    requires n >= 3
    ensures (x + 0) % n != (x + 1) % n
    ensures (x + 1) % n != (x + 2) % n
    ensures (x + 0) % n != (x + 2) % n
  {
    var q, r := x / n, x % n;
    assert x == q * n + r;
    IndexDivMod(n, q, r);
    if r + 2 < n {
      IndexDivMod(n, q, r + 1);
      IndexDivMod(n, q, r + 2);
      assert x + 1 == q * n + (r + 1) && x + 2 == q * n + (r + 2);
    } else if r + 1 < n {
      IndexDivMod(n, q, r + 1);
      IndexDivMod(n, q + 1, 0);
      assert x + 1 == q * n + (r + 1) && x + 2 == (q + 1) * n + 0;
    } else {
      IndexDivMod(n, q + 1, 0);
      IndexDivMod(n, q + 1, 1);
      assert x + 1 == (q + 1) * n + 0 && x + 2 == (q + 1) * n + 1;
    }
  }

  /** The buffer after a resize: the top-left overlap of old and new shape keeps its cells,
      every other cell of the new shape is dead. */
  function Resized(cells: seq<Cell>, width: nat, height: nat, newWidth: nat, newHeight: nat): (r: seq<Cell>)
    requires |cells| == width * height
    ensures |r| == newWidth * newHeight
    ensures forall row: nat, col: nat :: row < newHeight && col < newWidth ==>
              At(r, newWidth, newHeight, row, col)
              == if row < height && col < width then At(cells, width, height, row, col) else Dead
  {
    var r := seq(newWidth * newHeight, i requires 0 <= i < newWidth * newHeight => ResizedAt(cells, width, height, newWidth, newHeight, i));
    ResizedCells(cells, width, height, newWidth, newHeight, r);
    r
  }

  /** The cell at position i of the resized buffer. */
  function ResizedAt(cells: seq<Cell>, width: nat, height: nat, newWidth: nat, newHeight: nat, i: nat): Cell
    requires |cells| == width * height && i < newWidth * newHeight
  {
    IndexOfPosition(newWidth, newHeight, i);
    var row, col := i / newWidth, i % newWidth;
    if row < height && col < width then At(cells, width, height, row, col) else Dead
  }

  lemma ResizedCells(cells: seq<Cell>, width: nat, height: nat, newWidth: nat, newHeight: nat, r: seq<Cell>)
    requires |cells| == width * height && |r| == newWidth * newHeight
    requires forall i :: 0 <= i < |r| ==> r[i] == ResizedAt(cells, width, height, newWidth, newHeight, i)
    ensures forall row: nat, col: nat :: row < newHeight && col < newWidth ==>
              At(r, newWidth, newHeight, row, col)
              == if row < height && col < width then At(cells, width, height, row, col) else Dead
  {
    forall row: nat, col: nat | row < newHeight && col < newWidth
      ensures At(r, newWidth, newHeight, row, col)
              == if row < height && col < width then At(cells, width, height, row, col) else Dead
    {
      IndexInGrid(newWidth, newHeight, row, col);
      var i := Index(newWidth, row, col);
      assert r[i] == ResizedAt(cells, width, height, newWidth, newHeight, i);
    }
  }

  /** Resizing to the same shape changes nothing. */
  lemma {:induction false} ResizeToSameShape(cells: seq<Cell>, width: nat, height: nat)
    requires |cells| == width * height
    ensures Resized(cells, width, height, width, height) == cells
  {
    SameGrid(Resized(cells, width, height, width, height), cells, width, height);
  }

  /** Growing and then shrinking back to the old shape restores the grid. */
  lemma {:induction false} GrowThenShrink(cells: seq<Cell>, width: nat, height: nat, newWidth: nat, newHeight: nat)
    requires |cells| == width * height
    requires width <= newWidth && height <= newHeight
    ensures Resized(Resized(cells, width, height, newWidth, newHeight), newWidth, newHeight, width, height) == cells
  {
    var grown := Resized(cells, width, height, newWidth, newHeight);
    var back := Resized(grown, newWidth, newHeight, width, height);
    forall row: nat, col: nat | row < height && col < width
      ensures At(back, width, height, row, col) == At(cells, width, height, row, col)
    {
      assert At(back, width, height, row, col) == At(grown, newWidth, newHeight, row, col);
    }
    SameGrid(back, cells, width, height);
  }

  /** The state of a resize copy before (row, col): the overlap cells of earlier rows, and
      of row `row` left of column `col`, hold their old state; every other cell is dead. */
  ghost predicate CopiedBefore(newCells: seq<Cell>, newWidth: nat, newHeight: nat,
                               cells: seq<Cell>, width: nat, height: nat, row: nat, col: nat)
    requires |newCells| == newWidth * newHeight && |cells| == width * height
  {
    forall r: nat, c: nat :: r < newHeight && c < newWidth ==>
      At(newCells, newWidth, newHeight, r, c)
      == if r < height && c < width && (r < row || (r == row && c < col)) then At(cells, width, height, r, c) else Dead
  }

  /** Before the copy starts the new buffer is all dead. */
  lemma NothingCopied(newWidth: nat, newHeight: nat, cells: seq<Cell>, width: nat, height: nat)
    requires |cells| == width * height
    ensures CopiedBefore(AllDead(newWidth * newHeight), newWidth, newHeight, cells, width, height, 0, 0)
  {
    var dead := AllDead(newWidth * newHeight);
    forall r: nat, c: nat | r < newHeight && c < newWidth
      ensures At(dead, newWidth, newHeight, r, c) == Dead
    {
      IndexInGrid(newWidth, newHeight, r, c);
    }
  }

  /** Copying the overlap cell at (row, col) moves the copy on by one column. */
  lemma CopyOneCell(newCells: seq<Cell>, newWidth: nat, newHeight: nat,
                    cells: seq<Cell>, width: nat, height: nat, row: nat, col: nat)
    requires |newCells| == newWidth * newHeight && |cells| == width * height
    requires row < height && row < newHeight && col < width && col < newWidth
    requires CopiedBefore(newCells, newWidth, newHeight, cells, width, height, row, col)
    ensures Index(newWidth, row, col) < |newCells|
    ensures CopiedBefore(newCells[Index(newWidth, row, col) := At(cells, width, height, row, col)],
                         newWidth, newHeight, cells, width, height, row, col + 1)
  {
    IndexInGrid(newWidth, newHeight, row, col);
    UpdateKeepsOthers(newCells, newWidth, newHeight, row, col, At(cells, width, height, row, col));
  }

  /** A row copied up to the narrower width is a row copied in full. */
  lemma CopyRowDone(newCells: seq<Cell>, newWidth: nat, newHeight: nat,
                    cells: seq<Cell>, width: nat, height: nat, row: nat, copyWidth: nat)
    requires |newCells| == newWidth * newHeight && |cells| == width * height
    requires copyWidth == if width < newWidth then width else newWidth
    requires CopiedBefore(newCells, newWidth, newHeight, cells, width, height, row, copyWidth)
    ensures CopiedBefore(newCells, newWidth, newHeight, cells, width, height, row + 1, 0)
  {
  }

  /** Once every row of the overlap is copied the buffer is the resized grid. */
  lemma CopyDone(newCells: seq<Cell>, newWidth: nat, newHeight: nat,
                 cells: seq<Cell>, width: nat, height: nat, copyHeight: nat)
    requires |newCells| == newWidth * newHeight && |cells| == width * height
    requires copyHeight == if height < newHeight then height else newHeight
    requires CopiedBefore(newCells, newWidth, newHeight, cells, width, height, copyHeight, 0)
    ensures newCells == Resized(cells, width, height, newWidth, newHeight)
  {
    SameGrid(newCells, Resized(cells, width, height, newWidth, newHeight), newWidth, newHeight);
  }
}
