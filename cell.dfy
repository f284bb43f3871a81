/**
 A live cell of the colony: a mutable age counter, zero when the cell is
 seeded or born and bumped once for each generation it survives. The age
 only decides the colour the cell is drawn in.
 */
module Cells {

  class Cell {
    var age: nat

    /** A new cell has age zero. */
    constructor()
      ensures age == 0
    {
      age := 0;
    }

    /** Ages the cell by one generation, in place, and hands back the same object. */
    method Grow() returns (r: Cell)
      modifies this
      ensures r == this
      ensures age == old(age) + 1
    {
      age := age + 1;
      r := this;
    }
  }

  datatype Color = Black | Gray

  /** The colour a cell of the given age is drawn in: gray exactly while it has not yet survived a step. */
  function ColorOf(age: nat): (c: Color)
    ensures c == Gray <==> age == 0
    ensures c == Black <==> age > 0
  {
    if age > 0 then Black else Gray
  }
}
