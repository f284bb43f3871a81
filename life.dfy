/**
 Conway's rule, stated on the set of live addresses independently of how the
 colony sweeps its store: a dead address with exactly three live neighbours is
 born, a live one with two or three survives, every other address is dead in
 the next generation.
 */
module Life {
  import opened Points

  /** One when `p` is live, zero when it is dead. */
  function Alive(live: set<Point>, p: Point): nat {
    if p in live then 1 else 0
  }

  /** How many addresses of `s` are live. */
  function CountLive(live: set<Point>, s: seq<Point>): (n: nat)
    ensures n <= |s|
  {
    if s == [] then 0 else Alive(live, s[0]) + CountLive(live, s[1..])
  }

  /** The eight addresses around `p`, column by column. */
  function NeighbourList(p: Point): seq<Point> {
    [ Point(p.x - 1, p.y - 1), Point(p.x - 1, p.y), Point(p.x - 1, p.y + 1),
      Point(p.x, p.y - 1),                          Point(p.x, p.y + 1),
      Point(p.x + 1, p.y - 1), Point(p.x + 1, p.y), Point(p.x + 1, p.y + 1) ]
  }

  /** The list holds exactly the eight addresses of the set of neighbours. */
  lemma NeighbourListIsNeighbours(p: Point, q: Point)
    ensures q in NeighbourList(p) <==> q in Neighbours(p)
  {
  }

  /** How many of the eight addresses around `p` are live. */
  function NeighbourCount(live: set<Point>, p: Point): (n: nat)
    ensures n <= 8
  {
    CountLive(live, NeighbourList(p))
  }

  /** A count over a list is zero exactly when none of its addresses is live. */
  lemma {:induction false} CountLiveZero(live: set<Point>, s: seq<Point>)
    ensures CountLive(live, s) == 0 <==> forall q :: q in s ==> q !in live
  {
    if s != [] {
      CountLiveZero(live, s[1..]);
      assert forall q :: q in s <==> q == s[0] || q in s[1..];
    }
  }

  /** The neighbour count, written out address by address. */
  lemma NeighbourCountUnfold(live: set<Point>, p: Point)
    ensures NeighbourCount(live, p)
         == Alive(live, Point(p.x - 1, p.y - 1)) + Alive(live, Point(p.x - 1, p.y)) + Alive(live, Point(p.x - 1, p.y + 1))
          + Alive(live, Point(p.x, p.y - 1)) + Alive(live, Point(p.x, p.y + 1))
          + Alive(live, Point(p.x + 1, p.y - 1)) + Alive(live, Point(p.x + 1, p.y)) + Alive(live, Point(p.x + 1, p.y + 1))
  {
    var s := NeighbourList(p);
    assert CountLive(live, s[7..]) == Alive(live, s[7]) + CountLive(live, s[8..]);
    assert CountLive(live, s[6..]) == Alive(live, s[6]) + CountLive(live, s[7..]);
    assert CountLive(live, s[5..]) == Alive(live, s[5]) + CountLive(live, s[6..]);
    assert CountLive(live, s[4..]) == Alive(live, s[4]) + CountLive(live, s[5..]);
    assert CountLive(live, s[3..]) == Alive(live, s[3]) + CountLive(live, s[4..]);
    assert CountLive(live, s[2..]) == Alive(live, s[2]) + CountLive(live, s[3..]);
    assert CountLive(live, s[1..]) == Alive(live, s[1]) + CountLive(live, s[2..]);
    assert CountLive(live, s) == Alive(live, s[0]) + CountLive(live, s[1..]);
  }

  /** The count is zero exactly when no address adjacent to `p` is live. */
  lemma NeighbourCountZero(live: set<Point>, p: Point)
    ensures NeighbourCount(live, p) == 0 <==> forall q :: Adjacent(p, q) ==> q !in live
  {
    CountLiveZero(live, NeighbourList(p));
    forall q ensures q in NeighbourList(p) <==> Adjacent(p, q) {
      NeighbourListIsNeighbours(p, q);
      NeighboursAreAdjacent(p, q);
    }
  }

  /** Whether `p` is live in the generation after `live`. */
  predicate AliveNext(live: set<Point>, p: Point) {
    var n := NeighbourCount(live, p);
    if p in live then n == 2 || n == 3 else n == 3
  }

  /** Every address at distance at most one from a live address: the only place life can be next. */
  ghost function Vicinity(live: set<Point>): set<Point>
    decreases live
  {
    if live == {} then {}
    else
      var q :| q in live;
      Block(q) + Vicinity(live - {q})
  }

  /** An address is in the vicinity exactly when it lies in the block of some live address. */
  lemma {:induction false} VicinityMembers(live: set<Point>, p: Point)
    ensures p in Vicinity(live) <==> exists q :: q in live && p in Block(q)
    decreases live
  {
    if live != {} {
      var q :| q in live && Vicinity(live) == Block(q) + Vicinity(live - {q});
      VicinityMembers(live - {q}, p);
      if p !in Block(q) && exists q' :: q' in live && p in Block(q') {
        var q' :| q' in live && p in Block(q');
        assert q' in live - {q};
      }
    }
  }

  /** The addresses of `s` the rule makes live, taken one at a time. */
  ghost function Survivors(live: set<Point>, s: set<Point>): set<Point>
    decreases s
  {
    if s == {} then {}
    else
      var q :| q in s;
      (if AliveNext(live, q) then {q} else {}) + Survivors(live, s - {q})
  }

  /** An address is kept exactly when it is in `s` and the rule makes it live. */
  lemma {:induction false} SurvivorsMembers(live: set<Point>, s: set<Point>, p: Point)
    ensures p in Survivors(live, s) <==> p in s && AliveNext(live, p)
    decreases s
  {
    if s != {} {
      var q :| q in s && Survivors(live, s) == (if AliveNext(live, q) then {q} else {}) + Survivors(live, s - {q});
      SurvivorsMembers(live, s - {q}, p);
    }
  }

  /** The live addresses of the next generation: the vicinity filtered by the rule. */
  ghost function Next(live: set<Point>): (s: set<Point>)
    ensures s <= Vicinity(live)
  {
    var s := Survivors(live, Vicinity(live));
    assert s <= Vicinity(live) by {
      forall p | p in s ensures p in Vicinity(live) {
        SurvivorsMembers(live, Vicinity(live), p);
      }
    }
    s
  }

  /**
   The next generation with the age each live cell carries: a survivor is one
   generation older, a newborn has age zero.
   */
  ghost function NextAges(ages: map<Point, nat>): (r: map<Point, nat>)
    ensures r.Keys <= Vicinity(ages.Keys)
  {
    map p | p in Next(ages.Keys) :: if p in ages then ages[p] + 1 else 0
  }

  /** A live address within one step of an address of the vicinity. */
  lemma VicinityWitness(live: set<Point>, p: Point) returns (q: Point)
    requires p in Vicinity(live)
    ensures q in live && -1 <= p.x - q.x <= 1 && -1 <= p.y - q.y <= 1
  {
    VicinityMembers(live, p);
    q :| q in live && p in Block(q);
    NeighboursAreAdjacent(q, p);
  }

  /** An address away from every live address is dead and has no live neighbour. */
  lemma OutsideVicinity(live: set<Point>, p: Point)
    requires p !in Vicinity(live)
    ensures p !in live && NeighbourCount(live, p) == 0
  {
    VicinityMembers(live, p);
    assert p in Block(p);
    forall q | Adjacent(p, q) ensures q !in live {
      NeighboursAreAdjacent(q, p);
    }
    NeighbourCountZero(live, p);
  }

  /** The next generation is exactly the set of addresses the rule makes live, over the whole plane. */
  lemma NextIsRule(live: set<Point>, p: Point)
    ensures p in Next(live) <==> AliveNext(live, p)
    ensures p in Next(live) <==>
              (p in live && 2 <= NeighbourCount(live, p) <= 3) || (p !in live && NeighbourCount(live, p) == 3)
  {
    SurvivorsMembers(live, Vicinity(live), p);
    if p !in Vicinity(live) {
      OutsideVicinity(live, p);
    }
  }

  /**
   A live cell of the next generation has age zero exactly when it was just
   born, and a survivor's age is its old age plus one.
   */
  lemma NextAgesRule(ages: map<Point, nat>, p: Point)
    ensures p in NextAges(ages) <==> AliveNext(ages.Keys, p)
    ensures p in NextAges(ages) && p in ages ==> NextAges(ages)[p] == ages[p] + 1
    ensures p in NextAges(ages) ==> (NextAges(ages)[p] == 0 <==> p !in ages)
  {
    NextIsRule(ages.Keys, p);
  }

  /**
   `s` holds exactly the addresses the rule makes live; the link is only
   unfolded for an address the reader names.
   */
  ghost predicate Follows(live: set<Point>, s: set<Point>) {
    forall p {:trigger AliveNext(live, p)} :: p in s <==> AliveNext(live, p)
  }

  /** A set of addresses that follows the rule at every address is the next generation. */
  lemma NextFromRule(live: set<Point>, s: set<Point>)
    requires Follows(live, s)
    ensures s == Next(live)
  {
    forall p ensures p in s <==> p in Next(live) {
      NextIsRule(live, p);
    }
  }

  /** An age map over the next generation that ages survivors and zeroes newborns is the next generation's age map. */
  lemma NextAgesFromRule(ages: map<Point, nat>, r: map<Point, nat>)
    requires r.Keys == Next(ages.Keys)
    requires forall p :: p in r ==> r[p] == if p in ages then ages[p] + 1 else 0
    ensures r == NextAges(ages)
  {
  }

  /** The next generation follows the rule at every address. */
  lemma NextByRule(live: set<Point>) returns (s: set<Point>)
    ensures Follows(live, s)
  {
    s := Next(live);
    forall p ensures p in s <==> AliveNext(live, p) {
      NextIsRule(live, p);
    }
  }

  /** No spontaneous generation: an empty colony stays empty. */
  lemma EmptyStaysEmpty()
    ensures Next({}) == {}
  {
  }
}
