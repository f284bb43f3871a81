/**
 The padded bounding ranges the colony sweeps: on each axis the inclusive
 interval from one below the smallest live coordinate to one above the largest,
 or Kotlin's empty range `1..0` when nothing is live.
 */
module Ranges {
  import opened Points
  import Life

  /** Kotlin's IntRange `first..last`; it holds nothing when `first > last`. */
  datatype IntRange = IntRange(first: int, last: int) {
    predicate IsEmpty() {
      first > last
    }

    predicate Contains(v: int) {
      first <= v <= last
    }
  }

  /** IntRange.EMPTY. */
  const Empty := IntRange(1, 0)

  datatype Axis = Horizontal | Vertical

  function Coord(p: Point, axis: Axis): int {
    match axis
    case Horizontal => p.x
    case Vertical => p.y
  }

  /**
   `r` is the padded range of `live` along `axis`: empty for an empty colony,
   otherwise `first + 1` and `last - 1` are coordinates of live addresses and
   every live coordinate lies strictly between `first` and `last`.
   */
  ghost predicate IsPaddedRange(r: IntRange, live: set<Point>, axis: Axis) {
    if live == {} then r == Empty
    else
      && (exists p :: p in live && Coord(p, axis) == r.first + 1)
      && (exists p :: p in live && Coord(p, axis) == r.last - 1)
      && (forall p :: p in live ==> r.first < Coord(p, axis) < r.last)
  }

  /** The coordinates of the live addresses along `axis`. */
  function Coords(live: set<Point>, axis: Axis): set<int> {
    set p | p in live :: Coord(p, axis)
  }

  /** `p` is a live address with the least coordinate along `axis`. */
  ghost predicate IsLeast(p: Point, live: set<Point>, axis: Axis) {
    p in live && forall q :: q in live ==> Coord(p, axis) <= Coord(q, axis)
  }

  /** `p` is a live address with the greatest coordinate along `axis`. */
  ghost predicate IsGreatest(p: Point, live: set<Point>, axis: Axis) {
    p in live && forall q :: q in live ==> Coord(q, axis) <= Coord(p, axis)
  }

  /** A non-empty colony has an address with the least coordinate along `axis`. */
  lemma {:induction false} HasLeast(live: set<Point>, axis: Axis) returns (p: Point)
    requires live != {}
    ensures IsLeast(p, live, axis)
    decreases live
  {
    var x :| x in live;
    if live == {x} {
      p := x;
    } else {
      var m := HasLeast(live - {x}, axis);
      p := if Coord(x, axis) < Coord(m, axis) then x else m;
      forall q | q in live ensures Coord(p, axis) <= Coord(q, axis) {
        if q != x {
          assert q in live - {x};
        }
      }
    }
  }

  /** A non-empty colony has an address with the greatest coordinate along `axis`. */
  lemma {:induction false} HasGreatest(live: set<Point>, axis: Axis) returns (p: Point)
    requires live != {}
    ensures IsGreatest(p, live, axis)
    decreases live
  {
    var x :| x in live;
    if live == {x} {
      p := x;
    } else {
      var m := HasGreatest(live - {x}, axis);
      p := if Coord(x, axis) > Coord(m, axis) then x else m;
      forall q | q in live ensures Coord(q, axis) <= Coord(p, axis) {
        if q != x {
          assert q in live - {x};
        }
      }
    }
  }

  /** The least live coordinate along `axis` exists when something is live. */
  lemma LeastCoord(live: set<Point>, axis: Axis)
    requires live != {}
    ensures exists lo :: lo in Coords(live, axis) && forall c :: c in Coords(live, axis) ==> lo <= c
  {
    var p := HasLeast(live, axis);
    var cs := Coords(live, axis);
    assert Coord(p, axis) in cs;
    forall c | c in cs ensures Coord(p, axis) <= c {
      var q :| q in live && Coord(q, axis) == c;
    }
  }

  /** The greatest live coordinate along `axis` exists when something is live. */
  lemma GreatestCoord(live: set<Point>, axis: Axis)
    requires live != {}
    ensures exists hi :: hi in Coords(live, axis) && forall c :: c in Coords(live, axis) ==> c <= hi
  {
    var p := HasGreatest(live, axis);
    var cs := Coords(live, axis);
    assert Coord(p, axis) in cs;
    forall c | c in cs ensures c <= Coord(p, axis) {
      var q :| q in live && Coord(q, axis) == c;
    }
  }

  /**
   The padded range of the source's two `reduce` calls: one below the least
   and one above the greatest live coordinate along `axis`, or the empty range
   when nothing is live.
   */
  function PaddedRange(live: set<Point>, axis: Axis): (r: IntRange)
    ensures IsPaddedRange(r, live, axis)
    ensures r.IsEmpty() <==> live == {}
  {
    if live == {} then Empty
    else
      var cs := Coords(live, axis);
      LeastCoord(live, axis);
      GreatestCoord(live, axis);
      var lo :| lo in cs && forall c :: c in cs ==> lo <= c;
      var hi :| hi in cs && forall c :: c in cs ==> c <= hi;
      assert forall p :: p in live ==> Coord(p, axis) in cs;
      IntRange(lo - 1, hi + 1)
  }

  /** The padded range is a function of the live set: reading it twice without a change gives the same range. */
  lemma PaddedRangeUnique(r1: IntRange, r2: IntRange, live: set<Point>, axis: Axis)
    requires IsPaddedRange(r1, live, axis) && IsPaddedRange(r2, live, axis)
    ensures r1 == r2
  {
  }

  /**
   The padding makes the sweep cover every address that can be live in the
   next generation: every address within one step of a live one lies inside
   the padded range, on either axis.
   */
  lemma SweepCovers(live: set<Point>, r: IntRange, axis: Axis, p: Point)
    requires IsPaddedRange(r, live, axis)
    requires p in Life.Vicinity(live)
    ensures r.Contains(Coord(p, axis))
  {
    var q := Life.VicinityWitness(live, p);
    InsideAt(live, r, axis, q);
  }

  /** Every address the rule makes live next lies inside the padded range of the current generation. */
  lemma NextInsideRange(live: set<Point>, r: IntRange, axis: Axis, p: Point)
    requires IsPaddedRange(r, live, axis)
    requires Life.AliveNext(live, p)
    ensures r.Contains(Coord(p, axis))
  {
    Life.NextIsRule(live, p);
    SweepCovers(live, r, axis, p);
  }

  /** An address on the border of the swept rectangle is never live: every live address lies strictly inside. */
  lemma InsideAt(live: set<Point>, r: IntRange, axis: Axis, q: Point)
    requires IsPaddedRange(r, live, axis) && q in live
    ensures r.first < Coord(q, axis) < r.last
  {
  }
}
