/**
  Callers of the universe: behaviours a caller relies on, derived from the operations'
  contracts alone.
*/
module Scenarios {
  import opened Grid
  import opened Rules
  import opened Edits
  import opened Life

  /** Toggling the same cell twice leaves the universe as it was. */
  method ToggleTwiceRestores(u: Universe, row: nat, col: nat)
    requires u.Valid()
    requires row < u.height && col < u.width
    modifies u
    ensures u.Valid()
    ensures u.width == old(u.width) && u.height == old(u.height)
    ensures u.cells == old(u.cells)
  {
    u.ToggleCell(row, col);
    u.ToggleCell(row, col);
    Grid.ToggleTwice(old(u.cells), u.width, u.height, row, col);
  }

  /** An empty universe has no live cell, and a tick leaves it without one. */
  method EmptyUniverseStaysEmpty(width: nat, height: nat) returns (u: Universe)
    ensures fresh(u) && u.Valid()
    ensures u.width == width && u.height == height
    ensures u.cells == AllDead(width * height)
    ensures u.AliveCount() == 0
  {
    u := new Universe.Empty(width, height);
    CountAliveIsCardinality(u.cells);
    assert u.AliveCount() == 0;
    u.Tick();
    DeadGridStaysDead(AllDead(width * height), width, height);
    CountAliveIsCardinality(u.cells);
  }

  /** Clearing any universe leaves no live cell. */
  method ClearedUniverseIsEmpty(u: Universe)
    requires u.Valid()
    modifies u
    ensures u.Valid() && u.AliveCount() == 0
  {
    u.Clear();
    CountAliveIsCardinality(u.cells);
  }

  /** A glider stamped on an empty universe of at least 3 x 3 cells is five live cells. */
  method GliderOnEmptyUniverse(width: nat, height: nat, row: nat, col: nat) returns (u: Universe)
    requires width >= 3 && height >= 3
    ensures fresh(u) && u.Valid()
    ensures u.AliveCount() == 5
  {
    u := new Universe.Empty(width, height);
    u.SetGlider(row, col);
    var targets := Targets(width, height, row, col, GliderPattern);
    assert AliveCells(u.cells) == targets;
    GliderHasFiveCells(width, height, row, col);
  }

  /** A 4 x 4 universe with only (1, 1) alive keeps that cell when shrunk to 2 x 2 or grown
      to 6 x 6, and every other cell of the new shape is dead. */
  method ResizeKeepsOverlap() returns (small: Universe, large: Universe)
    ensures small.Valid() && small.width == 2 && small.height == 2
    ensures forall r: nat, c: nat :: r < 2 && c < 2 ==>
              At(small.cells, 2, 2, r, c) == if r == 1 && c == 1 then Alive else Dead
    ensures large.Valid() && large.width == 6 && large.height == 6
    ensures forall r: nat, c: nat :: r < 6 && c < 6 ==>
              At(large.cells, 6, 6, r, c) == if r == 1 && c == 1 then Alive else Dead
  {
    small := new Universe.Empty(4, 4);
    small.SetCell(1, 1, Alive);
    var start := small.cells;
    assert forall r: nat, c: nat :: r < 4 && c < 4 ==>
             At(start, 4, 4, r, c) == if r == 1 && c == 1 then Alive else Dead;
    large := new Universe.Empty(4, 4);
    large.SetCell(1, 1, Alive);
    assert large.cells == start;
    small.Resize(2, 2);
    large.Resize(6, 6);
  }
}
