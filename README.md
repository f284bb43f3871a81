# Game of Life colony engine in Dafny

This project models the colony engine of the Android Game of Life app
`ru.samyual.life`: the `Colony` class and its companion `Cell` class.

A colony is a sparse store of live cells keyed by address in an unbounded
integer plane. It keeps a generation counter that starts at 1. It offers point
reads and writes and counts the eight neighbours of an address. It computes
padded bounding ranges afresh on every read. It advances one Conway step by
sweeping the padded bounding rectangle of the current generation into a
separate map, then swapping that map in. A cell carries a mutable age: a
survivor keeps its `Cell` object and ages by one, and a newborn is a fresh
cell of age zero. The age decides only the colour the cell is drawn in.

The project has five modules, one file each:

- `points.dfy` (`Points`): an address as a pair of integers, adjacency, and the
  3x3 block around an address.
- `life.dfy` (`Life`): Conway's rule stated on the set of live addresses, apart
  from any sweep. `Next` is the next live set and `NextAges` the next age map.
  These are the reference definitions the imperative step is proved against.
- `ranges.dfy` (`Ranges`): Kotlin's `IntRange`, including `IntRange.EMPTY`
  (`1..0`), and the padded range along either axis, with the proof that the
  padding covers every address that can be live next.
- `cell.dfy` (`Cells`): the `Cell` class and the age-to-colour choice.
- `colony.dfy` (`Colonies`): the `Colony` class. Its fields are `generation`,
  `cells` and `newCells`, and its methods follow the source's own loops.

`nextGeneration` is proved against `Life.Next` and `Life.NextAges`. The
proof splits it along the source's loop nest:

- the outer `for x` becomes `SweepRectangle`;
- the inner `for y` becomes `SweepColumn`;
- the loop body becomes `Judge`;
- the birth and survival branches become `Bear` and `Keep`.
- the closing `clear` and `putAll` become `Swap`.

The inner loop calls `GetVerticalMinMax` again for every column, as the
source's `verticalRange` getter does. Every neighbour count is taken on the
old generation, because new cells go to `newCells` until the swap.

## Model

| member | source | states |
|---|---|---|
| Points.NeighboursAreAdjacent | app/src/main/java/ru/samyual/life/Colony.kt:221-229 | the eight addresses scanned around a centre are exactly the addresses adjacent to it, and the 3x3 block is the centre plus those |
| Life.CountLiveZero | app/src/main/java/ru/samyual/life/Colony.kt:221-227 | a count of live addresses over a list is zero exactly when no listed address is live |
| Life.NeighbourListIsNeighbours | app/src/main/java/ru/samyual/life/Colony.kt:221-222 | the list of eight addresses the count walks holds exactly the addresses of the set of neighbours |
| Life.NeighbourCountUnfold | app/src/main/java/ru/samyual/life/Colony.kt:218-230 | the neighbour count is the sum over the eight surrounding addresses of one-if-live |
| Life.NeighbourCountZero | app/src/main/java/ru/samyual/life/Colony.kt:218-230 | the neighbour count is zero exactly when no adjacent address is live |
| Life.VicinityMembers | app/src/main/java/ru/samyual/life/Colony.kt:120-139 | an address is within one step of the live set exactly when it lies in the 3x3 block of some live address |
| Life.VicinityWitness | app/src/main/java/ru/samyual/life/Colony.kt:126 | every address of the vicinity has a live address at most one away on each axis |
| Life.OutsideVicinity | app/src/main/java/ru/samyual/life/Colony.kt:97-110 | an address away from every live address is dead and has no live neighbour, so the rule cannot make it live |
| Life.SurvivorsMembers | app/src/main/java/ru/samyual/life/Colony.kt:91-111 | filtering a set of addresses by the rule keeps an address exactly when it is in the set and the rule makes it live |
| Life.NextIsRule | app/src/main/java/ru/samyual/life/Colony.kt:94-110 | over the whole plane, an address is live next iff it is live with 2 or 3 live neighbours or dead with exactly 3 |
| Life.NextAgesRule | app/src/main/java/ru/samyual/life/Colony.kt:97-110 | an address is in the next age map iff the rule makes it live; a survivor's age is its old age plus one; a next-generation age is zero iff the address was dead |
| Life.NextFromRule | app/src/main/java/ru/samyual/life/Colony.kt:91-116 | a set that follows the rule at every address is the next generation, so the rule pins the next generation down |
| Life.NextAgesFromRule | app/src/main/java/ru/samyual/life/Colony.kt:100-108 | an age map over the next generation that ages survivors by one and gives newborns zero is the next age map |
| Life.NextByRule | app/src/main/java/ru/samyual/life/Colony.kt:94-110 | the next generation follows the rule at every address |
| Life.EmptyStaysEmpty | app/src/main/java/ru/samyual/life/Colony.kt:121-122 | no spontaneous generation: the successor of the empty colony is empty |
| Ranges.HasLeast | app/src/main/java/ru/samyual/life/Colony.kt:124 | a non-empty colony has a live address whose coordinate along the axis is least, the result of the first `reduce` |
| Ranges.HasGreatest | app/src/main/java/ru/samyual/life/Colony.kt:125 | a non-empty colony has a live address whose coordinate along the axis is greatest, the result of the second `reduce` |
| Ranges.LeastCoord | app/src/main/java/ru/samyual/life/Colony.kt:124 | the least live coordinate along the axis exists when something is live |
| Ranges.GreatestCoord | app/src/main/java/ru/samyual/life/Colony.kt:125 | the greatest live coordinate along the axis exists when something is live |
| Ranges.PaddedRange | app/src/main/java/ru/samyual/life/Colony.kt:120-139 | the range is `IntRange.EMPTY` for an empty colony; otherwise one below the least and one above the greatest live coordinate, so every live coordinate lies strictly inside; the range is empty iff nothing is live |
| Ranges.PaddedRangeUnique | app/src/main/java/ru/samyual/life/Colony.kt:31-38 | two padded ranges of the same live set are equal, so repeated getter reads over an unchanged store agree |
| Ranges.SweepCovers | app/src/main/java/ru/samyual/life/Colony.kt:126 | the padding by one on each side covers every address within one step of a live address, on either axis |
| Ranges.NextInsideRange | app/src/main/java/ru/samyual/life/Colony.kt:91-92 | every address the rule makes live next lies inside the current padded range on either axis, so the sweep misses no birth |
| Ranges.InsideAt | app/src/main/java/ru/samyual/life/Colony.kt:126 | every live coordinate lies strictly between the range's ends, so the border of the swept rectangle is never live |
| Cells.Cell.constructor | app/src/main/java/ru/samyual/life/Cell.kt:12 | a new cell has age 0 |
| Cells.Cell.Grow | app/src/main/java/ru/samyual/life/Cell.kt:15-18 | the age goes up by exactly one, only the receiver changes, and the receiver itself is returned |
| Cells.ColorOf | app/src/main/java/ru/samyual/life/Cell.kt:36 | the colour is gray iff the age is 0 and black iff the age is positive |
| Colonies.ScanWholeBlock | app/src/main/java/ru/samyual/life/Colony.kt:220-227 | the column-by-column scan of the 3x3 block counts the live neighbours plus one when the centre is live |
| Colonies.DistinctBound | app/src/main/java/ru/samyual/life/Colony.kt:56-58 | the distinct initial addresses are never more than the initial list is long |
| Colonies.Covered | app/src/main/java/ru/samyual/life/Colony.kt:91-92 | the padded range of the current generation holds every address of the next generation |
| Colonies.SweptStep | app/src/main/java/ru/samyual/life/Colony.kt:92-112 | judging one more address of a column adds exactly that address to the swept part of the next generation, when it belongs there |
| Colonies.ColumnBounds | app/src/main/java/ru/samyual/life/Colony.kt:92 | sweeping the padded vertical range of a column takes the swept part from the columns to its left to the columns up to and including it |
| Colonies.RectangleBounds | app/src/main/java/ru/samyual/life/Colony.kt:91 | sweeping the padded horizontal range starts with nothing swept and ends with the whole next generation |
| Colonies.GrayExactlyWhenBorn | app/src/main/java/ru/samyual/life/Cell.kt:36 | after a step, a live cell is drawn gray exactly when that step gave birth to it |
| Colonies.Colony.constructor | app/src/main/java/ru/samyual/life/Colony.kt:11-59 | the initial list defaults to empty, as in the Kotlin signature; generation 1; the live addresses are exactly the distinct initial addresses, each with a fresh cell of age 0 and no cell shared; the size is at most the length of the initial list |
| Colonies.Colony.Size | app/src/main/java/ru/samyual/life/Colony.kt:22-23 | the size is the number of live addresses, and zero exactly for an empty store |
| Colonies.Colony.Get | app/src/main/java/ru/samyual/life/Colony.kt:65-67 | null exactly at a dead address, otherwise the cell stored there |
| Colonies.Colony.Set | app/src/main/java/ru/samyual/life/Colony.kt:73-79 | a non-null cell is stored at the address and null removes it, so `Get` then returns the assigned value; every other address keeps its cell; the generation is unchanged; no cell becomes shared unless it was already stored elsewhere |
| Colonies.Colony.NumberOfNeighbors | app/src/main/java/ru/samyual/life/Colony.kt:218-230 | the result is the number of live addresses among the eight around the centre, the centre excluded, and lies in 0..8 |
| Colonies.Colony.GetHorizontalMinMax | app/src/main/java/ru/samyual/life/Colony.kt:120-128 | the padded x-range of the live addresses; empty iff the colony is empty |
| Colonies.Colony.GetVerticalMinMax | app/src/main/java/ru/samyual/life/Colony.kt:131-139 | the padded y-range of the live addresses; empty iff the colony is empty |
| Colonies.Colony.Bear | app/src/main/java/ru/samyual/life/Colony.kt:97-102 | a birth adds a fresh cell at the dead address to the next generation and keeps the step invariant |
| Colonies.Colony.Keep | app/src/main/java/ru/samyual/life/Colony.kt:105-110 | a survivor's own cell object moves into the next generation, one generation older, and the step invariant holds |
| Colonies.Colony.Judge | app/src/main/java/ru/samyual/life/Colony.kt:93-111 | judging one address on the old generation extends the built part of the next generation by that address exactly when the rule makes it live; earlier entries are untouched |
| Colonies.Colony.SweepColumn | app/src/main/java/ru/samyual/life/Colony.kt:92-112 | sweeping column x over the padded vertical range adds exactly the next-generation addresses of that column |
| Colonies.Colony.SweepRectangle | app/src/main/java/ru/samyual/life/Colony.kt:89-113 | sweeping the padded rectangle from an empty buffer builds exactly the next generation: survivors keep their cell, one older; newborns are fresh with age 0; a cell that dies keeps its age; the old store's keys and cells are untouched; the buffer's keys are `Life.Next` and its ages `Life.NextAges` of the old ones |
| Colonies.Colony.Swap | app/src/main/java/ru/samyual/life/Colony.kt:115-116 | the current generation becomes the built one and the buffer stays as it is; no cell's age changes |
| Colonies.Colony.NextGeneration | app/src/main/java/ru/samyual/life/Colony.kt:85-117 | the generation goes up by exactly one; the live set becomes `Life.Next` of the old live set; survivors keep the same cell object with age plus one; newborns are fresh with age 0; the age map becomes `Life.NextAges` of the old one; a cell whose address dies keeps its age; no cell is shared afterwards |

## Left out

- Drawing is not modelled. This covers `Colony.draw`, `drawUpArrow` and `drawDownArrow`, the rectangle geometry of `Cell.draw`, the `cellSize` computation from the screen size, the `arrows` map, `CELLS_PER_LINE`, and the `Paint` field of `Cell`. They are Canvas rendering with floating point. Only the colour choice in `Cell.draw` is kept, as `ColorOf`.
- The constructor's `screenSize` parameter is not modelled. It feeds only the drawing state: `cellSize` and the four `arrows`.
- Addresses use unbounded integers. Kotlin's 32-bit `Int` wrap-around in `minX - 1` and `maxX + 1`, and in neighbour addresses near the edge of the `Int` range, is not modelled.
- The `Long` counters `generation` and `age` are unbounded here, so their overflow is not modelled.
- `android.graphics.Point` is modelled as an immutable pair of integers compared by value. The constructor keys the store by the caller's own `Point` objects, which are mutable (`Colony.kt:56-58`). Those keys stay in the store until the first step re-keys it with fresh points. A caller that mutates one of its points in the meantime changes a key inside the hash map behind the colony's back. The model does not capture this aliasing of caller-owned keys.
- Colonies.Colony.NextGeneration: requires that no `Cell` object is stored at two addresses. The public `set` can store one cell object at two addresses. A step would then call `grow()` on it once per surviving address, so a shared cell's age is not the per-address age the contract states. `Set` states when it keeps that invariant.
- The order in which a Kotlin hash map's `reduce` visits keys is not modelled. Both padded-range getters depend only on the least and the greatest coordinate, so the order does not change their results.
- The other files of the app are not part of this model: the screen wrapper, the game loop and its thread, the touch handling, the arrows and the activities. Some of them use a different colony interface.
- A query over a viewport is not modelled, because `Colony.kt` has none. The only filter by bounds is in `draw`.
- A cell carries its age as `Cell.kt` keeps it: zero at birth and raised by `grow()` on each survival. It does not carry a birth generation number.
