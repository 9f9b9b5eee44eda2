/** The army calculator: for every bonus (a group of territories) it collects
    the territories' neighbours in the adjacency graph, keeps those outside the
    bonus, blends the bonus's share of the map with its exposure into a score
    in [0, 1], and scales the score into an army value. */
module Calculator {
  import opened Graph
  import opened Undirected
  import Cardinality

  /** A bonus: its child territories and its army value. */
  datatype Bonus = Bonus(children: seq<Vertex>, armies: int)

  const TerritoryWeight: real := 0.5
  const OuterWeight: real := 0.5

  /** std::min(x, 1.0) */
  function MinReal(x: real, y: real): (r: real)
    ensures r <= x && r <= y
    ensures r == x || r == y
  {
    if y < x then y else x
  }

  function MaxInt(a: int, b: int): (r: int)
    ensures r >= a && r >= b
    ensures r == a || r == b
  {
    if a < b then b else a
  }

  /* ---------------------------------------------------------------------- */
  /* Rounding                                                               */
  /* ---------------------------------------------------------------------- */

  /** Conversion of a floating value to an integer: the fraction is dropped. */
  function Truncate(x: real): (r: int)
    ensures x >= 0.0 ==> 0 <= r && r as real <= x < r as real + 1.0
    ensures x < 0.0 ==> r <= 0 && r as real - 1.0 < x <= r as real
  {
    if x >= 0.0 then x.Floor else -((-x).Floor)
  }

  /** Rounding to the nearest integer, halfway cases away from zero. */
  function RoundHalfAway(x: real): (r: int)
    ensures r as real - x <= 0.5 && x - r as real <= 0.5
    ensures r as real - x == 0.5 ==> x > 0.0
    ensures x - r as real == 0.5 ==> x < 0.0
  {
    if x >= 0.0 then (x + 0.5).Floor else -((-x + 0.5).Floor)
  }

  /** The army value as line 141 computes it: the explicit template argument
      selects the integral overload of round, so the product is converted to an
      integer (dropping its fraction) before it is "rounded". */
  function ArmiesAsWritten(score: real, minArmies: int, maxArmies: int): (a: int)
    ensures a >= minArmies
    ensures a >= Truncate(score * maxArmies as real)
    ensures a > minArmies ==> a == Truncate(score * maxArmies as real)
  {
    MaxInt(Truncate(score * maxArmies as real), minArmies)
  }

  /** The army value as intended: the product rounded half away from zero,
      raised to the minimum. */
  function Armies(score: real, minArmies: int, maxArmies: int): (a: int)
    ensures a >= minArmies
    ensures a >= RoundHalfAway(score * maxArmies as real)
    ensures a > minArmies ==> a == RoundHalfAway(score * maxArmies as real)
  {
    MaxInt(RoundHalfAway(score * maxArmies as real), minArmies)
  }

  /** Above the minimum, the army value is within one half of the scaled score. */
  lemma ArmiesNearScaledScore(score: real, minArmies: int, maxArmies: int)
    ensures var a := Armies(score, minArmies, maxArmies);
            a > minArmies ==>
              (a as real - score * maxArmies as real <= 0.5 && score * maxArmies as real - a as real <= 0.5)
  {
    var x := score * maxArmies as real;
    assert Armies(score, minArmies, maxArmies) == MaxInt(RoundHalfAway(x), minArmies);
  }

  /** A score in [0, 1] with a non-negative maximum gives at least the minimum
      and at most the larger of the maximum and the minimum. */
  lemma ArmiesBounds(score: real, minArmies: int, maxArmies: int)
    requires 0.0 <= score <= 1.0 && 0 <= maxArmies
    ensures minArmies <= Armies(score, minArmies, maxArmies) <= MaxInt(maxArmies, minArmies)
  {
    var x := score * maxArmies as real;
    ScaledScoreBounds(score, maxArmies as real);
    RoundedAtMost(RoundHalfAway(x), x, maxArmies);
  }

  /** An integer within one half above a value of at most m is at most m. */
  lemma RoundedAtMost(r: int, x: real, m: int)
    requires r as real <= x + 0.5 && x <= m as real
    ensures r <= m
  {
  }

  lemma ScaledScoreBounds(score: real, m: real)
    requires 0.0 <= score <= 1.0 && 0.0 <= m
    ensures 0.0 <= score * m <= m
  {
    assert m - score * m == (1.0 - score) * m;
  }

  /** The same bounds hold for the army value as written. */
  lemma ArmiesAsWrittenBounds(score: real, minArmies: int, maxArmies: int)
    requires 0.0 <= score <= 1.0 && 0 <= maxArmies
    ensures minArmies <= ArmiesAsWritten(score, minArmies, maxArmies) <= MaxInt(maxArmies, minArmies)
  {
    var x := score * maxArmies as real;
    ScaledScoreBounds(score, maxArmies as real);
    RoundedAtMost(Truncate(x), x, maxArmies);
  }

  /** An input on which the code as written and the intended rounding differ:
      the score 0.25 on a maximum of 10 gives 2 instead of 3. */
  lemma RoundingDiscrepancy()
    ensures ArmiesAsWritten(0.25, 1, 10) == 2
    ensures Armies(0.25, 1, 10) == 3
  {
    assert Truncate(2.5) == 2;
    assert RoundHalfAway(2.5) == 3;
  }

  /* ---------------------------------------------------------------------- */
  /* The calculator                                                         */
  /* ---------------------------------------------------------------------- */

  /** The distinct territories of a bonus. */
  function ChildSet(children: seq<Vertex>): (r: set<Vertex>)
    ensures forall v :: v in r <==> v in children
  {
    set v | v in children
  }

  /** Territories whose ids are below n number at most n. */
  lemma ChildSetSize(children: seq<Vertex>, n: nat)
    requires forall k :: 0 <= k < |children| ==> children[k] < n
    ensures |ChildSet(children)| <= n
  {
    var below := Cardinality.Below(n);
    assert ChildSet(children) <= below;
    Cardinality.SubsetSize(ChildSet(children), below);
  }

  class ArmyCalculator {
    /** The number of territories of the map (only the size of the territory list is read). */
    const territoryCount: nat
    const bonuses: array<Bonus>
    const neighbors: UndirectedGraph

    constructor (territoryCount: nat, bonuses: array<Bonus>, neighbors: UndirectedGraph)
      ensures this.territoryCount == territoryCount
      ensures this.bonuses == bonuses && this.neighbors == neighbors
    {
      this.territoryCount := territoryCount;
      this.bonuses := bonuses;
      this.neighbors := neighbors;
    }

    /** get_score: half the share of the map's territories (an integer
        division, so 0 unless the bonus holds them all) plus half the
        exposure, half an outer neighbour per territory capped at 1. The score
        lies in [0, 1] for a bonus of at most all territories, and in [0, 0.5]
        for a bonus of fewer. */
    function GetScore(territories: nat, connections: nat): (score: real)
      requires territories > 0 && territoryCount > 0
      ensures 0.0 <= score
      ensures territories < territoryCount ==> score <= OuterWeight
      ensures territories <= territoryCount ==> score <= 1.0
    {
      var share := territories / territoryCount;
      var exposure := 0.5 * connections as real / territories as real;
      assert exposure >= 0.0;
      assert territories < territoryCount ==> share == 0;
      assert territories == territoryCount ==> share == 1;
      TerritoryWeight * (share as real) + OuterWeight * MinReal(exposure, 1.0)
    }

    /** The exposure part is capped: beyond two outer neighbours per
        territory, more outer neighbours no longer raise the score. */
    lemma ScoreSaturates(territories: nat, connections: nat)
      requires territories > 0 && territoryCount > 0
      requires connections >= 2 * territories
      ensures GetScore(territories, connections) == GetScore(territories, 2 * territories)
    {
      var t := territories as real;
      HalfOfDoubleRatio(territories);
      RatioAtLeastOne(0.5 * connections as real, t);
    }

    /** The ring of five territories 0-1-2-3-4-0 with the chord 0-2, and the
        bonus {0, 1}: its outer adjacents are {2, 4}, its score is 0.25 (the
        territory share 2 / 5 is 0 in integer division), and it gets 3 armies
        for a maximum of 10, where the code as written gives 2. */
    lemma FiveTerritoryScenario()
      requires territoryCount == 5
      ensures OuterAdjacents(RingWithChord(), [0, 1]) == {2, 4}
      ensures GetScore(2, 2) == 0.25
      ensures BonusArmies(RingWithChord(), [0, 1], 1, 10) == 3
      ensures ArmiesAsWritten(GetScore(2, 2), 1, 10) == 2
    {
      RingWithChordOuter();
      assert |ChildSet([0, 1])| == 2 by {
        assert ChildSet([0, 1]) == {0, 1};
      }
      assert |OuterAdjacents(RingWithChord(), [0, 1])| == 2;
      TwoOfFiveScore();
      RoundingDiscrepancy();
      assert BonusArmies(RingWithChord(), [0, 1], 1, 10) == Armies(GetScore(2, 2), 1, 10);
    }

    /** Two territories of five with two outer neighbours score 0.25: the
        territory share is 0 and the exposure term is 0.5 × 1. */
    lemma TwoOfFiveScore()
      requires territoryCount == 5
      ensures GetScore(2, 2) == 0.25
    {
      assert 2 / territoryCount == 0;
      assert 0.5 * (2 as real) / (2 as real) == 0.5;
    }

    /** More outer neighbours never lower the score. */
    lemma ScoreMonotone(territories: nat, c1: nat, c2: nat)
      requires territories > 0 && territoryCount > 0
      requires c1 <= c2
      ensures GetScore(territories, c1) <= GetScore(territories, c2)
    {
      var t := territories as real;
      assert 0.5 * c1 as real / t <= 0.5 * c2 as real / t;
    }

    /** A bonus with no outer neighbours scores strictly lower than one of the
        same size with some. */
    lemma IsolatedScoresLower(territories: nat, connections: nat)
      requires territories > 0 && territoryCount > 0
      requires connections > 0
      ensures GetScore(territories, 0) < GetScore(territories, connections)
    {
      var t := territories as real;
      assert 0.5 * connections as real / t > 0.0;
    }

    /** The army value calculate_armies assigns to a bonus with these
        children, in a graph with these adjacency pairs. */
    function BonusArmies(edges: set<Edge>, children: seq<Vertex>, minArmies: int, maxArmies: int): (a: int)
      requires |children| > 0 && territoryCount > 0
      ensures a >= minArmies
    {
      assert children[0] in ChildSet(children);
      Armies(GetScore(|ChildSet(children)|, |OuterAdjacents(edges, children)|), minArmies, maxArmies)
    }

    /** A bonus of map territories gets at least the minimum and at most the
        larger of the maximum and the minimum. */
    lemma BonusArmiesBounds(edges: set<Edge>, children: seq<Vertex>, minArmies: int, maxArmies: int)
      requires |children| > 0 && territoryCount > 0
      requires forall k :: 0 <= k < |children| ==> children[k] < territoryCount
      requires 0 <= maxArmies
      ensures minArmies <= BonusArmies(edges, children, minArmies, maxArmies) <= MaxInt(maxArmies, minArmies)
    {
      assert children[0] in ChildSet(children);
      ChildSetSize(children, territoryCount);
      ArmiesBounds(GetScore(|ChildSet(children)|, |OuterAdjacents(edges, children)|), minArmies, maxArmies);
    }

    /** The loop of calculate_armies over one bonus's children: collects the
        children and all their neighbours, then keeps the neighbours that are
        not children. */
    method Exposure(childRefs: seq<Vertex>) returns (children: set<Vertex>, outer: set<Vertex>)
      ensures children == ChildSet(childRefs)
      ensures outer == OuterAdjacents(neighbors.edges, childRefs)
    {
      children := {};
      var adjacents: set<Vertex> := {};
      for c := 0 to |childRefs|
        invariant children == ChildSet(childRefs[..c])
        invariant adjacents == AdjacentSet(neighbors.edges, childRefs[..c])
      {
        var child := childRefs[c];
        children := children + {child};
        var around := neighbors.Adjacents(child);
        ghost var before := adjacents;
        for k := 0 to |around|
          invariant forall v :: v in adjacents <==> v in before || v in around[..k]
        {
          adjacents := adjacents + {around[k]};
        }
        assert around[..|around|] == around;
        AdjacentStep(neighbors, childRefs, c);
        ChildStep(childRefs, c);
      }
      assert childRefs[..|childRefs|] == childRefs;
      outer := adjacents - children;
    }

    /** calculate_armies: assigns every bonus the army value of its score, and
        changes nothing else about it. */
    method CalculateArmies(minArmies: int, maxArmies: int)
      requires territoryCount > 0
      requires forall k :: 0 <= k < bonuses.Length ==> |bonuses[k].children| > 0
      modifies bonuses
      ensures forall k :: 0 <= k < bonuses.Length ==>
                bonuses[k] == old(bonuses[k]).(armies := BonusArmies(neighbors.edges, old(bonuses[k]).children, minArmies, maxArmies))
    {
      ghost var edges := neighbors.edges;
      ghost var before := bonuses[..];
      for b := 0 to bonuses.Length
        invariant forall k :: 0 <= k < b ==>
                    bonuses[k] == before[k].(armies := BonusArmies(edges, before[k].children, minArmies, maxArmies))
        invariant forall k :: b <= k < bonuses.Length ==> bonuses[k] == before[k]
      {
        var bonus := bonuses[b];
        var children, outer := Exposure(bonus.children);
        assert bonus.children[0] in children;
        var score := GetScore(|children|, |outer|);
        assert neighbors.edges == edges;
        assert |children| == |ChildSet(bonus.children)|;
        assert |outer| == |OuterAdjacents(edges, bonus.children)|;
        var armies := Armies(score, minArmies, maxArmies);
        assert armies == BonusArmies(edges, bonus.children, minArmies, maxArmies);
        bonuses[b] := bonus.(armies := armies);
      }
    }
  }

  /** Half of 2n, divided by n, is 1. */
  lemma HalfOfDoubleRatio(n: nat)
    requires n > 0
    ensures 0.5 * (2 * n) as real / n as real == 1.0
  {
    assert 0.5 * (2 * n) as real == n as real;
  }

  /** Dividing a quantity by a positive one it is at least gives at least 1. */
  lemma RatioAtLeastOne(a: real, t: real)
    requires 0.0 < t <= a
    ensures a / t >= 1.0
  {
    var q := a / t;
    assert q * t == a;
  }

  /** The pairs of the ring 0-1-2-3-4-0 with the chord 0-2. */
  function RingWithChord(): set<Edge>
  {
    {(0, 1), (1, 0), (1, 2), (2, 1), (2, 3), (3, 2), (3, 4), (4, 3), (4, 0), (0, 4), (0, 2), (2, 0)}
  }

  /** In that graph the bonus {0, 1} has the outer adjacents {2, 4}. */
  lemma RingWithChordOuter()
    ensures OuterAdjacents(RingWithChord(), [0, 1]) == {2, 4}
  {
    var edges := RingWithChord();
    assert AdjacentSet(edges, [0, 1]) == {0, 1, 2, 4} by {
      forall v | v in AdjacentSet(edges, [0, 1]) ensures v in {0, 1, 2, 4} {
        var e :| e in edges && e.0 in [0, 1] && e.1 == v;
      }
      assert (1, 0) in edges && (0, 1) in edges && (0, 2) in edges && (0, 4) in edges;
    }
    assert ChildSet([0, 1]) == {0, 1};
  }

  /** The neighbours of the given territories. */
  function AdjacentSet(edges: set<Edge>, children: seq<Vertex>): set<Vertex>
  {
    set e | e in edges && e.0 in children :: e.1
  }

  /** The neighbours of a bonus's territories that are not in the bonus. */
  function OuterAdjacents(edges: set<Edge>, children: seq<Vertex>): set<Vertex>
  {
    AdjacentSet(edges, children) - ChildSet(children)
  }

  /** A territory is an outer adjacent of a bonus exactly when it is not one of
      the bonus's children and some child has it as a neighbour. */
  lemma OuterAdjacentsMembers(edges: set<Edge>, children: seq<Vertex>, v: Vertex)
    ensures v in OuterAdjacents(edges, children) <==> v !in children && exists c :: c in children && (c, v) in edges
  {
    if v in OuterAdjacents(edges, children) {
      var e :| e in edges && e.0 in children && e.1 == v;
    }
  }

  lemma AdjacentStep(g: UndirectedGraph, children: seq<Vertex>, c: nat)
    requires c < |children|
    ensures AdjacentSet(g.edges, children[..c + 1]) == AdjacentSet(g.edges, children[..c]) + g.Neighbours(children[c])
  {
    assert children[..c + 1] == children[..c] + [children[c]];
  }

  lemma ChildStep(children: seq<Vertex>, c: nat)
    requires c < |children|
    ensures ChildSet(children[..c + 1]) == ChildSet(children[..c]) + {children[c]}
  {
    assert children[..c + 1] == children[..c] + [children[c]];
  }

}
