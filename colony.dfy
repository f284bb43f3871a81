/**
 The colony engine: a sparse store of live cells keyed by address, a
 generation counter starting at 1, point reads and writes, an 8-neighbour
 count, padded bounding ranges recomputed on every read, and the Conway step
 that sweeps the padded bounding rectangle of the current generation into a
 separate map and then swaps it in.
 */
module Colonies {
  import opened Points
  import opened Cells
  import opened Ranges
  import Life

  /** No Cell object is stored at two addresses. */
  ghost predicate Unshared(m: map<Point, Cell>) {
    forall p, q :: p in m && q in m && p != q ==> m[p] != m[q]
  }

  /** The age of the cell at every address of `m`. */
  ghost function AgesOf(m: map<Point, Cell>): map<Point, nat>
    reads m.Values
  {
    map p | p in m :: m[p].age
  }

  /** The column-major sweep reaches `p` before it reaches `(x, y)`. */
  ghost predicate SweptBefore(p: Point, x: int, y: int) {
    p.x < x || (p.x == x && p.y < y)
  }

  /** How many of the addresses `(a, lo)` up to `(a, y - 1)` of one column are live. */
  ghost function ColumnCount(live: set<Point>, a: int, lo: int, y: int): nat
    decreases y - lo
  {
    if y <= lo then 0 else ColumnCount(live, a, lo, y - 1) + Life.Alive(live, Point(a, y - 1))
  }

  /** How many addresses are live in the columns of the 3x3 block around `c` to the left of column `x`. */
  ghost function ColumnsCount(live: set<Point>, c: Point, x: int): nat
    decreases x - (c.x - 1)
  {
    if x <= c.x - 1 then 0 else ColumnsCount(live, c, x - 1) + ColumnCount(live, x - 1, c.y - 1, c.y + 2)
  }

  /** A full column of the block is its three addresses. */
  lemma ColumnOfThree(live: set<Point>, a: int, y: int)
    ensures ColumnCount(live, a, y - 1, y + 2) == Life.Alive(live, Point(a, y - 1)) + Life.Alive(live, Point(a, y)) + Life.Alive(live, Point(a, y + 1))
  {
    assert ColumnCount(live, a, y - 1, y + 2) == ColumnCount(live, a, y - 1, y + 1) + Life.Alive(live, Point(a, y + 1));
    assert ColumnCount(live, a, y - 1, y + 1) == ColumnCount(live, a, y - 1, y) + Life.Alive(live, Point(a, y));
  }

  /** The whole block is its three columns. */
  lemma BlockOfThreeColumns(live: set<Point>, c: Point)
    ensures ColumnsCount(live, c, c.x + 2)
         == ColumnCount(live, c.x - 1, c.y - 1, c.y + 2) + ColumnCount(live, c.x, c.y - 1, c.y + 2)
          + ColumnCount(live, c.x + 1, c.y - 1, c.y + 2)
  {
    assert ColumnsCount(live, c, c.x + 2) == ColumnsCount(live, c, c.x + 1) + ColumnCount(live, c.x + 1, c.y - 1, c.y + 2);
    assert ColumnsCount(live, c, c.x + 1) == ColumnsCount(live, c, c.x) + ColumnCount(live, c.x, c.y - 1, c.y + 2);
  }

  /**
   Scanning the whole 3x3 block column by column counts the live neighbours,
   plus one when the centre itself is live.
   */
  lemma ScanWholeBlock(live: set<Point>, c: Point)
    ensures ColumnsCount(live, c, c.x + 2) == Life.NeighbourCount(live, c) + Life.Alive(live, c)
  {
    BlockOfThreeColumns(live, c);
    Life.NeighbourCountUnfold(live, c);
    ColumnOfThree(live, c.x - 1, c.y);
    ColumnOfThree(live, c.x, c.y);
    ColumnOfThree(live, c.x + 1, c.y);
    assert c == Point(c.x, c.y);
  }

  /** Distinct initial addresses are never more than the initial list is long. */
  lemma {:induction false} DistinctBound(s: seq<Point>)
    ensures |(set p | p in s)| <= |s|
  {
    if s != [] {
      DistinctBound(s[1..]);
      assert (set p | p in s) == (set p | p in s[1..]) + {s[0]};
    }
  }

  /** The addresses of `next` the sweep has judged before reaching `(x, y)`. */
  ghost function Swept(next: set<Point>, x: int, y: int): set<Point> {
    set p | p in next && SweptBefore(p, x, y)
  }

  /** The addresses of `next` in the columns left of `x`. */
  ghost function Columns(next: set<Point>, x: int): set<Point> {
    set p | p in next && p.x < x
  }

  /** The padded range of the current generation covers every address that is live in the next one. */
  lemma Covered(live: set<Point>, next: set<Point>, r: IntRange, axis: Axis)
    requires IsPaddedRange(r, live, axis) && Life.Follows(live, next)
    ensures forall p :: p in next ==> r.Contains(Coord(p, axis))
  {
    forall p | p in next ensures r.Contains(Coord(p, axis)) {
      assert Life.AliveNext(live, p);
      NextInsideRange(live, r, axis, p);
    }
  }

  /** Judging `(x, y)` adds that address to the swept part exactly when it is in `next`. */
  lemma SweptStep(next: set<Point>, x: int, y: int)
    ensures Point(x, y) !in Swept(next, x, y)
    ensures Swept(next, x, y + 1) == Swept(next, x, y) + (if Point(x, y) in next then {Point(x, y)} else {})
  {
  }

  /** With every address of `next` inside the rows of `v`, a column sweep starts and ends on column boundaries. */
  lemma ColumnBounds(next: set<Point>, x: int, v: IntRange)
    requires forall p :: p in next ==> v.Contains(Coord(p, Vertical))
    ensures Swept(next, x, v.first) == Columns(next, x)
    ensures Swept(next, x, v.last + 1) == Columns(next, x + 1)
  {
  }

  /** With every address of `next` inside the columns of `h`, the rectangle sweep starts empty and ends with all of `next`. */
  lemma RectangleBounds(next: set<Point>, h: IntRange)
    requires forall p :: p in next ==> h.Contains(Coord(p, Horizontal))
    ensures Columns(next, h.first) == {}
    ensures Columns(next, h.last + 1) == next
  {
  }

  /** A cell is drawn gray in the generation after a step exactly when that step gave birth to it. */
  lemma GrayExactlyWhenBorn(ages: map<Point, nat>, p: Point)
    requires p in Life.NextAges(ages)
    ensures ColorOf(Life.NextAges(ages)[p]) == Gray <==> p !in ages
  {
    Life.NextAgesRule(ages, p);
  }

  class Colony {
    /** The generation counter; 1 for a new colony. */
    var generation: int
    /** The live cells; an absent address is dead. */
    var cells: map<Point, Cell>
    /** The next generation while a step is being computed. */
    var newCells: map<Point, Cell>

    ghost predicate Valid()
      reads this
    {
      generation >= 1 && Unshared(cells)
    }

    /** The age of the cell at every live address. */
    ghost function Ages(): map<Point, nat>
      reads this, cells.Values
    {
      AgesOf(cells)
    }

    /**
     A colony seeded with a fresh cell of age zero at every initial address;
     repeated addresses collapse to one, and no addresses give an empty colony.
     */
    constructor(initial: seq<Point> := [])
      ensures Valid()
      ensures generation == 1
      ensures cells.Keys == set p | p in initial
      ensures forall p :: p in cells ==> fresh(cells[p]) && cells[p].age == 0
      ensures |cells| <= |initial|
      ensures newCells == map[]
    {
      generation := 1;
      newCells := map[];
      var m: map<Point, Cell> := map[];
      for i := 0 to |initial|
        invariant m.Keys == set p | p in initial[..i]
        invariant forall p :: p in m ==> fresh(m[p]) && m[p].age == 0
        invariant Unshared(m)
      {
        var c := new Cell();
        assert initial[..i + 1] == initial[..i] + [initial[i]];
        m := m[initial[i] := c];
      }
      assert initial[..|initial|] == initial;
      cells := m;
      DistinctBound(initial);
    }

    /** The number of live cells. */
    function Size(): (n: nat)
      reads this
      ensures n == |cells.Keys|
      ensures n == 0 <==> cells == map[]
    {
      |cells|
    }

    /** The cell at `(x, y)`, or null when that address is dead. */
    function Get(x: int, y: int): (c: Cell?)
      reads this
      ensures c == null <==> Point(x, y) !in cells
      ensures c != null ==> c == cells[Point(x, y)]
    {
      if Point(x, y) in cells then cells[Point(x, y)] else null
    }

    /** Stores `cell` at `(x, y)`, or makes that address dead when `cell` is null; every other address keeps its cell. */
    method Set(x: int, y: int, cell: Cell?)
      modifies this
      ensures generation == old(generation) && newCells == old(newCells)
      ensures cell != null ==> cells == old(cells)[Point(x, y) := cell]
      ensures cell == null ==> cells == old(cells) - {Point(x, y)}
      ensures Get(x, y) == cell
      ensures forall p :: p != Point(x, y) ==> (p in cells <==> p in old(cells))
      ensures forall p :: p != Point(x, y) && p in cells ==> cells[p] == old(cells)[p]
      ensures old(Valid()) && (cell == null || forall q :: q in old(cells) && q != Point(x, y) ==> old(cells)[q] != cell)
              ==> Valid()
    {
      if cell != null {
        cells := cells[Point(x, y) := cell];
      } else {
        cells := cells - {Point(x, y)};
      }
    }

    /** The number of live cells among the eight addresses around `(xPos, yPos)`. */
    method NumberOfNeighbors(xPos: int, yPos: int) returns (number: int)
      ensures number == Life.NeighbourCount(cells.Keys, Point(xPos, yPos))
      ensures 0 <= number <= 8
    {
      ghost var c := Point(xPos, yPos);
      ghost var live := cells.Keys;
      number := 0;
      var x := xPos - 1;
      while x <= xPos + 1
        invariant xPos - 1 <= x <= xPos + 2
        invariant number == ColumnsCount(live, c, x)
      {
        var y := yPos - 1;
        while y <= yPos + 1
          invariant yPos - 1 <= y <= yPos + 2
          invariant number == ColumnsCount(live, c, x) + ColumnCount(live, x, yPos - 1, y)
        {
          if Get(x, y) != null {
            number := number + 1;
          }
          y := y + 1;
        }
        x := x + 1;
      }
      assert number == ColumnsCount(live, c, c.x + 2);
      ScanWholeBlock(live, c);
      assert number == Life.NeighbourCount(live, c) + Life.Alive(live, c);
      if Get(xPos, yPos) != null {
        number := number - 1;
      }
    }

    /** The horizontal range to sweep: empty for an empty colony, else one beyond the live x-coordinates on each side. */
    function GetHorizontalMinMax(): (r: IntRange)
      reads this
      ensures IsPaddedRange(r, cells.Keys, Horizontal)
      ensures r.IsEmpty() <==> cells == map[]
    {
      PaddedRange(cells.Keys, Horizontal)
    }

    /** The vertical range to sweep: empty for an empty colony, else one beyond the live y-coordinates on each side. */
    function GetVerticalMinMax(): (r: IntRange)
      reads this
      ensures IsPaddedRange(r, cells.Keys, Vertical)
      ensures r.IsEmpty() <==> cells == map[]
    {
      PaddedRange(cells.Keys, Vertical)
    }

    /**
     What holds while a step is under way: every live address still has its age
     from `ages`, bumped by one once the address has survived into `newCells`;
     a survivor keeps its Cell object, a newborn is a Cell of age zero that the
     current generation does not hold, and no Cell is stored at two addresses.
     */
    ghost predicate Stepping(ages: map<Point, nat>)
      reads this, cells.Values, newCells.Values
    {
      && ages.Keys == cells.Keys
      && Unshared(cells) && Unshared(newCells)
      && (forall p :: p in newCells && p in cells ==> newCells[p] == cells[p])
      && (forall p :: p in newCells && p !in cells ==> newCells[p].age == 0 && newCells[p] !in cells.Values)
      && (forall p :: p in cells ==> cells[p].age == ages[p] + (if p in newCells then 1 else 0))
    }

    /** A newborn: a fresh Cell of age zero at the dead address `a` of the next generation. */
    method Bear(a: Point, ghost ages: map<Point, nat>)
      requires Stepping(ages) && a !in cells && a !in newCells
      modifies this
      ensures generation == old(generation) && cells == old(cells)
      ensures Stepping(ages)
      ensures a in newCells && fresh(newCells[a])
      ensures newCells == old(newCells)[a := newCells[a]]
    {
      var born := new Cell();
      newCells := newCells[a := born];
    }

    /** A survivor: the Cell at the live address `a` moves into the next generation, one generation older. */
    method Keep(a: Point, ghost ages: map<Point, nat>)
      requires Stepping(ages) && a in cells && a !in newCells
      modifies this, cells[a]
      ensures generation == old(generation) && cells == old(cells)
      ensures Stepping(ages)
      ensures newCells == old(newCells)[a := cells[a]]
    {
      var cell := cells[a];
      newCells := newCells[a := cell];
      var _ := cell.Grow();
    }

    /**
     Judges the address `(x, y)` on the current generation: a dead address with
     three live neighbours gets a fresh Cell of age zero in the next generation,
     a live one with two or three keeps its Cell, one generation older, and
     every other address is left out of the next generation.
     */
    method Judge(x: int, y: int, ghost live: set<Point>, ghost next: set<Point>, ghost ages: map<Point, nat>)
      requires live == cells.Keys && Life.Follows(live, next)
      requires Stepping(ages) && newCells.Keys == Swept(next, x, y)
      modifies this, Get(x, y)
      ensures generation == old(generation) && cells == old(cells)
      ensures Stepping(ages) && newCells.Keys == Swept(next, x, y + 1)
      ensures forall p :: p in old(newCells) ==> p in newCells && newCells[p] == old(newCells)[p]
      ensures forall p :: p in newCells && p !in old(newCells) && p !in cells ==> fresh(newCells[p])
    {
      var address := Point(x, y);
      assert address in next <==> Life.AliveNext(live, address);
      SweptStep(next, x, y);
      var cell := Get(x, y);
      if cell == null {
        var n := NumberOfNeighbors(x, y);
        if n == 3 {
          Bear(address, ages);
        }
      } else {
        var n := NumberOfNeighbors(x, y);
        if 2 <= n <= 3 {
          Keep(address, ages);
        }
      }
    }

    /**
     Sweeps column `x` of the rectangle: reads the vertical range afresh and
     judges every address of the column from the bottom up.
     */
    method SweepColumn(x: int, ghost live: set<Point>, ghost next: set<Point>, ghost ages: map<Point, nat>)
      requires live == cells.Keys && Life.Follows(live, next)
      requires Stepping(ages) && newCells.Keys == Columns(next, x)
      modifies this, cells.Values
      ensures generation == old(generation) && cells == old(cells)
      ensures Stepping(ages) && newCells.Keys == Columns(next, x + 1)
      ensures forall p :: p in newCells && p !in cells ==> p in old(newCells) || fresh(newCells[p])
      ensures forall p :: p in old(newCells) ==> p in newCells && newCells[p] == old(newCells)[p]
    {
      var v := GetVerticalMinMax();
      Covered(live, next, v, Vertical);
      ColumnBounds(next, x, v);
      var y := v.first;
      while y <= v.last
        invariant v.first <= y <= v.last + 1
        invariant generation == old(generation) && cells == old(cells)
        invariant Stepping(ages) && newCells.Keys == Swept(next, x, y)
        invariant forall p :: p in newCells && p !in cells ==> p in old(newCells) || fresh(newCells[p])
        invariant forall p :: p in old(newCells) ==> p in newCells && newCells[p] == old(newCells)[p]
      {
        Judge(x, y, live, next, ages);
        y := y + 1;
      }
    }

    /**
     Sweeps the padded bounding rectangle of the current generation column by
     column into `newCells`, leaving the current generation in place.
     */
    method SweepRectangle(ghost live: set<Point>, ghost next: set<Point>, ghost ages: map<Point, nat>)
      requires live == cells.Keys && Life.Follows(live, next)
      requires Stepping(ages) && newCells == map[]
      modifies this, cells.Values
      ensures generation == old(generation) && cells == old(cells)
      ensures newCells.Keys == next && Unshared(newCells)
      ensures forall p :: p in newCells && p in cells ==> newCells[p] == cells[p] && newCells[p].age == old(cells[p].age) + 1
      ensures forall p :: p in newCells && p !in cells ==> fresh(newCells[p]) && newCells[p].age == 0
      ensures forall p :: p in cells && p !in newCells ==> cells[p].age == old(cells[p].age)
      ensures newCells.Keys == Life.Next(live) && AgesOf(newCells) == Life.NextAges(ages)
    {
      var h := GetHorizontalMinMax();
      Covered(live, next, h, Horizontal);
      RectangleBounds(next, h);
      var x := h.first;
      while x <= h.last
        invariant h.first <= x <= h.last + 1
        invariant generation == old(generation) && cells == old(cells)
        invariant Stepping(ages) && newCells.Keys == Columns(next, x)
        invariant forall p :: p in newCells && p !in cells ==> fresh(newCells[p])
      {
        SweepColumn(x, live, next, ages);
        x := x + 1;
      }
      Life.NextFromRule(live, next);
      Life.NextAgesFromRule(ages, AgesOf(newCells));
    }

    /**
     Replaces the current generation by the one built in `newCells`. The cells
     themselves are not touched: every age, in either map, stays as it was.
     */
    method Swap()
      modifies this
      ensures generation == old(generation)
      ensures cells == old(newCells) && newCells == old(newCells)
      ensures AgesOf(cells) == old(AgesOf(newCells))
      ensures forall p :: p in cells ==> cells[p].age == old(newCells[p].age)
      ensures forall p :: p in old(cells) ==> old(cells)[p].age == old(cells[p].age)
    {
      cells := newCells;
    }

    /**
     One step of Conway's Life. Every address of the padded bounding rectangle
     of the current generation is judged on the current generation; a survivor
     keeps its Cell object, one generation older, and a newborn gets a fresh
     Cell of age zero.
     */
    method NextGeneration()
      requires Valid()
      modifies this, cells.Values
      ensures Valid()
      ensures generation == old(generation) + 1
      ensures newCells == cells
      ensures cells.Keys == Life.Next(old(cells).Keys)
      ensures forall p :: p in cells && p in old(cells) ==>
                cells[p] == old(cells)[p] && cells[p].age == old(cells[p].age) + 1
      ensures forall p :: p in cells && p !in old(cells) ==> fresh(cells[p]) && cells[p].age == 0
      ensures Ages() == Life.NextAges(old(Ages()))
      ensures forall p :: p in old(cells) && p !in cells ==> old(cells)[p].age == old(cells[p].age)
    {
      ghost var live := cells.Keys;
      ghost var ages := Ages();
      ghost var next := Life.NextByRule(live);
      generation := generation + 1;
      newCells := map[];
      SweepRectangle(live, next, ages);
      Swap();
    }
  }
}
