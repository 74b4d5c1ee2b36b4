/** The record filter of the map page's `updateMap`: a point is shown when its state and
    its city are both among the ticked checkboxes. */
module MapFilter {
  import opened JsRecords
  import opened Seqs
  import opened FilterColumns

  /** `selected.includes(v)`: checkbox values are strings and `includes` compares strictly,
      so only a string value can match. */
  predicate Includes(selected: seq<string>, v: JsValue)
  {
    v.JStr? && v.s in selected
  }

  /** The test of line 193 for one point. */
  predicate OnSelection(states: seq<string>, cities: seq<string>, p: Record)
  {
    Includes(states, Get(p, EstadoFiltro)) && Includes(cities, Get(p, CidadeFiltro))
  }

  /** `points_data.filter(...)` of line 193. */
  function VisiblePoints(points: seq<Record>, states: seq<string>, cities: seq<string>): (r: seq<Record>)
    ensures |r| <= |points|
    ensures forall k :: 0 <= k < |r| ==> r[k] in points && OnSelection(states, cities, r[k])
    ensures forall k :: 0 <= k < |points| && OnSelection(states, cities, points[k]) ==> points[k] in r
  {
    Filter(points, p => OnSelection(states, cities, p))
  }

  /** The filter keeps every selected point as often as it occurs and drops the rest, and
      it keeps their order: filtering two halves and joining the results is filtering
      the whole. */
  lemma VisiblePointsExact(a: seq<Record>, b: seq<Record>, states: seq<string>, cities: seq<string>, p: Record)
    ensures VisiblePoints(a + b, states, cities) == VisiblePoints(a, states, cities) + VisiblePoints(b, states, cities)
    ensures multiset(VisiblePoints(a, states, cities))[p] == if OnSelection(states, cities, p) then multiset(a)[p] else 0
  {
    FilterAppend(a, b, p => OnSelection(states, cities, p));
    FilterMultiplicity(a, p => OnSelection(states, cities, p), p);
  }

  /** A point whose state is not a string (a number, or a missing value serialised as
      `null`) is never shown, even with every checkbox ticked. */
  lemma NonTextStateHidden(states: seq<string>, cities: seq<string>, p: Record)
    requires !Get(p, EstadoFiltro).JStr?
    ensures p !in VisiblePoints([p], states, cities)
  {
  }
}
