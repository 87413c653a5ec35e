/**
  The cell grid of a Game-of-Life universe: the two-valued cell, the row-major
  index mapping, reading and replacing one cell, counting live cells, and the seed
  pattern with the closed form of its live count.
*/
module Grid {

  /** One cell of the universe; the source stores it as a byte, Dead = 0 and Alive = 1. */
  datatype Cell = Dead | Alive

  /** What a cell adds to a neighbour count: Alive counts 1, Dead counts 0. */
  function CellValue(c: Cell): (v: nat)
    ensures v <= 1
    ensures v == 1 <==> c == Alive
  {
    match c
    case Dead => 0
    case Alive => 1
  }

  /** The other state: what toggling a cell stores. */
  function Flip(c: Cell): (r: Cell)
    ensures r != c
  {
    match c
    case Dead => Alive
    case Alive => Dead
  }

  /** Row-major position of (row, col) in a buffer of rows `width` cells wide.
      The position determines the coordinates: dividing by the width gives them back. */
  function Index(width: nat, row: nat, col: nat): (i: nat)
    requires col < width
    ensures i / width == row && i % width == col
  {
    IndexDivMod(width, row, col);
    row * width + col
  }

  lemma {:induction false} IndexDivMod(width: nat, row: nat, col: nat)
    requires col < width
    ensures (row * width + col) / width == row
    ensures (row * width + col) % width == col
  {
    var i := row * width + col;
    var q, r := i / width, i % width;
    assert q * width + r == row * width + col;
    if q < row {
      assert (row - q) * width == r - col;
      MulAtLeast(row - q, width);
    } else if q > row {
      assert (q - row) * width == col - r;
      MulAtLeast(q - row, width);
    }
  }

  lemma MulAtLeast(k: nat, width: nat)
    requires k >= 1
    ensures k * width >= width
  {
  }

  /** Every in-range position lies inside a buffer of width * height cells. */
  lemma IndexInGrid(width: nat, height: nat, row: nat, col: nat)
    requires row < height && col < width
    ensures Index(width, row, col) < width * height
  {
    assert (height - row - 1) * width >= 0;
    assert height * width == row * width + width + (height - row - 1) * width;
  }

  /** Every position of a width * height buffer is the index of a coordinate pair in range. */
  lemma IndexOfPosition(width: nat, height: nat, i: nat)
    requires i < width * height
    ensures width > 0
    ensures i / width < height
    ensures Index(width, i / width, i % width) == i
  {
  }

  /** The cell at (row, col) of a width x height grid. */
  function At(cells: seq<Cell>, width: nat, height: nat, row: nat, col: nat): Cell
    requires |cells| == width * height
    requires row < height && col < width
  {
    IndexInGrid(width, height, row, col);
    cells[Index(width, row, col)]
  }

  /** Two grids of the same shape that agree at every coordinate are the same buffer. */
  lemma {:induction false} SameGrid(a: seq<Cell>, b: seq<Cell>, width: nat, height: nat)
    requires |a| == width * height && |b| == width * height
    requires forall row: nat, col: nat :: row < height && col < width ==>
               At(a, width, height, row, col) == At(b, width, height, row, col)
    ensures a == b
  {
    forall i | 0 <= i < |a|
      ensures a[i] == b[i]
    {
      IndexOfPosition(width, height, i);
      assert At(a, width, height, i / width, i % width) == At(b, width, height, i / width, i % width);
    }
  }

  /** The grid with the cell at (row, col) replaced by `c`. */
  function WithCell(cells: seq<Cell>, width: nat, height: nat, row: nat, col: nat, c: Cell): (r: seq<Cell>)
    requires |cells| == width * height
    requires row < height && col < width
    ensures |r| == |cells|
    ensures At(r, width, height, row, col) == c
    ensures forall row': nat, col': nat :: row' < height && col' < width && (row' != row || col' != col) ==>
              At(r, width, height, row', col') == At(cells, width, height, row', col')
  {
    IndexInGrid(width, height, row, col);
    UpdateKeepsOthers(cells, width, height, row, col, c);
    cells[Index(width, row, col) := c]
  }

  lemma UpdateKeepsOthers(cells: seq<Cell>, width: nat, height: nat, row: nat, col: nat, c: Cell)
    requires |cells| == width * height
    requires row < height && col < width
    ensures Index(width, row, col) < |cells|
    ensures var r := cells[Index(width, row, col) := c];
            forall row': nat, col': nat :: row' < height && col' < width && (row' != row || col' != col) ==>
              At(r, width, height, row', col') == At(cells, width, height, row', col')
  {
    IndexInGrid(width, height, row, col);
    var i := Index(width, row, col);
    var r := cells[i := c];
    forall row': nat, col': nat | row' < height && col' < width && (row' != row || col' != col)
      ensures At(r, width, height, row', col') == At(cells, width, height, row', col')
    {
      IndexInGrid(width, height, row', col');
      assert Index(width, row', col') != i;
    }
  }

  /** Flipping the same cell twice gives back the grid. */
  lemma ToggleTwice(cells: seq<Cell>, width: nat, height: nat, row: nat, col: nat)
    requires |cells| == width * height
    requires row < height && col < width
    ensures var once := WithCell(cells, width, height, row, col, Flip(At(cells, width, height, row, col)));
            WithCell(once, width, height, row, col, Flip(At(once, width, height, row, col))) == cells
  {
    var once := WithCell(cells, width, height, row, col, Flip(At(cells, width, height, row, col)));
    var twice := WithCell(once, width, height, row, col, Flip(At(once, width, height, row, col)));
    SameGrid(twice, cells, width, height);
  }

  /** A buffer of n dead cells. */
  function AllDead(n: nat): (r: seq<Cell>)
    ensures |r| == n
    ensures CountAlive(r) == 0
  {
    var r := seq(n, _ => Dead);
    assert Alive !in multiset(r);
    r
  }

  /** The number of live cells; the order in which they are counted does not matter. */
  function CountAlive(s: seq<Cell>): (n: nat)
    ensures n <= |s|
    ensures n == multiset(s)[Alive]
  {
    if s == [] then 0
    else
      var k := |s| - 1;
      assert s == s[..k] + [s[k]];
      CountAlive(s[..k]) + CellValue(s[k])
  }

  /** The positions that hold a live cell. */
  function AliveCells(s: seq<Cell>): set<nat>
  {
    set i: nat | i < |s| && s[i] == Alive
  }

  /** Counting live cells is the same as counting the positions that hold one. */
  lemma {:induction false} CountAliveIsCardinality(s: seq<Cell>)
    ensures CountAlive(s) == |AliveCells(s)|
  {
    if s != [] {
      var k := |s| - 1;
      var p := s[..k];
      CountAliveIsCardinality(p);
      if s[k] == Alive {
        assert AliveCells(s) == AliveCells(p) + {k};
        assert k !in AliveCells(p);
      } else {
        assert AliveCells(s) == AliveCells(p);
      }
    }
  }

  /** No live cell is counted exactly when every cell is dead. */
  lemma CountAliveZero(s: seq<Cell>)
    ensures CountAlive(s) == 0 <==> forall i :: 0 <= i < |s| ==> s[i] == Dead
  {
  }

  /** The source's fixed demo pattern: cell i is alive when i is even or a multiple of 7. */
  function SeedPattern(n: nat): (r: seq<Cell>)
    ensures |r| == n
  {
    seq(n, i => if i % 2 == 0 || i % 7 == 0 then Alive else Dead)
  }

  /** The seed pattern repeats every 14 cells, 8 of which are alive; a partial block of
      m cells holds (m + 1) / 2 even positions, plus position 7 once m exceeds 7. */
  lemma {:induction false} SeedPatternAliveCount(n: nat)
    ensures CountAlive(SeedPattern(n)) == 8 * (n / 14) + (n % 14 + 1) / 2 + (if n % 14 >= 8 then 1 else 0)
  {
    if n > 0 {
      var k := n - 1;
      SeedPatternAliveCount(k);
      SeedPatternStep(k);
      SeedCountStep(k);
    }
  }

  /** One more seed cell adds one to the live count exactly at a live position. */
  lemma SeedPatternStep(k: nat)
    ensures CountAlive(SeedPattern(k + 1)) == CountAlive(SeedPattern(k)) + (if k % 2 == 0 || k % 7 == 0 then 1 else 0)
  {
    assert SeedPattern(k + 1)[..k] == SeedPattern(k);
  }

  /** The closed form grows by one exactly at the seed's live positions. */
  lemma SeedCountStep(k: nat)
    ensures 8 * ((k + 1) / 14) + ((k + 1) % 14 + 1) / 2 + (if (k + 1) % 14 >= 8 then 1 else 0)
         == 8 * (k / 14) + (k % 14 + 1) / 2 + (if k % 14 >= 8 then 1 else 0)
            + (if k % 2 == 0 || k % 7 == 0 then 1 else 0)
  {
    SeedPeriod(k);
    var m := k % 14;
    if m < 13 {
      SeedBlockStep(m);
    }
  }

  /** Where position k sits in its block of 14 decides whether the seed makes it alive. */
  lemma SeedPeriod(k: nat)
    ensures (k % 2 == 0 || k % 7 == 0) <==> (k % 14) % 2 == 0 || k % 14 == 7
    ensures k % 14 == 13 ==> (k + 1) / 14 == k / 14 + 1 && (k + 1) % 14 == 0
    ensures k % 14 < 13 ==> (k + 1) / 14 == k / 14 && (k + 1) % 14 == k % 14 + 1
  {
    var q, m := k / 14, k % 14;
    assert k == q * 14 + m;
    assert k == (7 * q + m / 2) * 2 + m % 2;
    IndexDivMod(2, 7 * q + m / 2, m % 2);
    assert k == (2 * q + m / 7) * 7 + m % 7;
    IndexDivMod(7, 2 * q + m / 7, m % 7);
    SmallSevens(m);
    if m < 13 {
      IndexDivMod(14, q, m + 1);
    } else {
      assert k + 1 == (q + 1) * 14 + 0;
      IndexDivMod(14, q + 1, 0);
    }
  }

  lemma SmallSevens(m: nat)
    requires m < 14
    ensures m % 7 == 0 <==> m == 0 || m == 7
  {
    assert m == (m / 7) * 7 + m % 7;
    assert m / 7 <= 1;
  }

  /** One more cell inside a block of 14 adds one live cell exactly at the seed's live offsets. */
  lemma SeedBlockStep(m: nat)
    requires m < 13
    ensures (m + 2) / 2 + (if m + 1 >= 8 then 1 else 0)
         == (m + 1) / 2 + (if m >= 8 then 1 else 0) + (if m % 2 == 0 || m == 7 then 1 else 0)
  {
  }

  /** The default 64 x 64 universe starts with 2341 live cells. */
  lemma DefaultSeedAliveCount()
    ensures CountAlive(SeedPattern(64 * 64)) == 2341
  {
    SeedPatternAliveCount(64 * 64);
  }
}
