/**
 Per-state facility counts of the facility map.

 Every state polygon is tested against every facility point; the number of
 points the containment test accepts is stored under the state's name. The
 containment test itself (a point-in-multipolygon predicate) is a parameter:
 nothing here depends on its geometry.
 */
module Counting {

  /** A state polygon feature: its `NAME` property and its geometry. */
  datatype StateFeature<G> = StateFeature(name: string, geometry: G)

  /** The points of `points` that lie inside `g`. */
  function PointsWithin<P(==,!new), G>(points: seq<P>, g: G, inside: (P, G) -> bool): (within: seq<P>)
    // each point occurs in the result exactly as often as in the input when
    // it is inside, and not at all otherwise
    ensures forall p :: multiset(within)[p] == if inside(p, g) then multiset(points)[p] else 0
  {
    if |points| == 0 then []
    else
      assert points == [points[0]] + points[1..];
      (if inside(points[0], g) then [points[0]] else []) + PointsWithin(points[1..], g, inside)
  }

  /** The facility count of one polygon does not depend on the order of the points. */
  lemma CountIsOrderFree<P(!new), G>(ps: seq<P>, qs: seq<P>, g: G, inside: (P, G) -> bool)
    requires multiset(ps) == multiset(qs)
    ensures |PointsWithin(ps, g, inside)| == |PointsWithin(qs, g, inside)|
  {
    var a, b := PointsWithin(ps, g, inside), PointsWithin(qs, g, inside);
    assert multiset(a) == multiset(b);
    assert |multiset(a)| == |a| && |multiset(b)| == |b|;
  }

  /** The state names present in the polygon data. */
  ghost function Names<G>(states: seq<StateFeature<G>>): set<string> {
    set s | s in states :: s.name
  }

  /** Feature `i` is the last one in the polygon data that carries its name. */
  ghost predicate LastOfName<G>(states: seq<StateFeature<G>>, i: int)
    requires 0 <= i < |states|
  {
    forall j :: i < j < |states| ==> states[j].name != states[i].name
  }

  /** The count map, filled state by state in the order of the polygon data;
      a later feature with the same name overwrites an earlier one. */
  function BuildCounts<P(==,!new), G>(states: seq<StateFeature<G>>, points: seq<P>, inside: (P, G) -> bool)
    : (counts: map<string, nat>)
    // one entry per state name, zero-count states included, and nothing else
    ensures counts.Keys == Names(states)
    // each entry is the count of the last feature carrying that name
    ensures forall i :: 0 <= i < |states| && LastOfName(states, i) ==>
              counts[states[i].name] == |PointsWithin(points, states[i].geometry, inside)|
  {
    if |states| == 0 then map[]
    else
      var last := states[|states| - 1];
      var front := states[..|states| - 1];
      assert states == front + [last];
      BuildCounts(front, points, inside)[last.name := |PointsWithin(points, last.geometry, inside)|]
  }

  /** With distinct state names, every state's entry is its own count. */
  lemma CountsOfDistinctNames<P(!new), G>(states: seq<StateFeature<G>>, points: seq<P>, inside: (P, G) -> bool, i: int)
    requires forall j, k :: 0 <= j < k < |states| ==> states[j].name != states[k].name
    requires 0 <= i < |states|
    ensures BuildCounts(states, points, inside)[states[i].name] == |PointsWithin(points, states[i].geometry, inside)|
  {
    assert LastOfName(states, i);
  }

  /** Permuting the facility points leaves the whole count map unchanged. */
  lemma {:induction false} CountsAreOrderFree<P(!new), G>(states: seq<StateFeature<G>>, ps: seq<P>, qs: seq<P>, inside: (P, G) -> bool)
    requires multiset(ps) == multiset(qs)
    ensures BuildCounts(states, ps, inside) == BuildCounts(states, qs, inside)
    decreases |states|
  {
    if |states| > 0 {
      var last := states[|states| - 1];
      CountsAreOrderFree(states[..|states| - 1], ps, qs, inside);
      CountIsOrderFree(ps, qs, last.geometry, inside);
    }
  }

  /** The count shown for a state: its entry, or 0 when the name has none. */
  function CountOf(counts: map<string, nat>, name: string): (n: nat)
    ensures name in counts ==> n == counts[name]
    ensures name !in counts ==> n == 0
  {
    if name in counts then counts[name] else 0
  }

  /** Looking a name up in the built map: the name's last feature's count when
      the polygon data carries it, and 0 (not an error) otherwise. */
  lemma LookupAfterBuild<P(!new), G>(states: seq<StateFeature<G>>, points: seq<P>, inside: (P, G) -> bool, name: string)
    ensures name !in Names(states) ==> CountOf(BuildCounts(states, points, inside), name) == 0
    ensures forall i :: 0 <= i < |states| && states[i].name == name && LastOfName(states, i) ==>
              CountOf(BuildCounts(states, points, inside), name) == |PointsWithin(points, states[i].geometry, inside)|
  {
  }
}
