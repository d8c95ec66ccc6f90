/**
 * Nearest-sample probing: the chart's pointer position is turned into the
 * sample closest to it, by bisection and a comparison of the two neighbours.
 */
module Nearest {
  import opened Wrappers
  import opened Sampler
  import opened Intakes
  import opened Decay

  ghost predicate Ascending(data: seq<Sample>) {
    forall i, j :: 0 <= i < j < |data| ==> data[i].datetime <= data[j].datetime
  }

  ghost predicate StrictlyAscending(data: seq<Sample>) {
    forall i, j :: 0 <= i < j < |data| ==> data[i].datetime < data[j].datetime
  }

  /** A chart series lies on the 15-minute grid, so its sample times strictly increase. */
  lemma SeriesStrictlyAscending(data: seq<Sample>, intakes: seq<Intake>, halfLife: real, factor: DecayFactor)
    requires |intakes| > 0 && IsSeries(data, intakes, halfLife, factor)
    ensures StrictlyAscending(data) && Ascending(data)
  {
    var times := SampleTimes(data);
    forall i, j | 0 <= i < j < |data|
      ensures data[i].datetime < data[j].datetime
    {
      assert times[i] == data[i].datetime && times[j] == data[j].datetime;
    }
  }

  function Distance(query: real, t: int): (d: real)
    ensures d >= 0.0 && (d == query - t as real || d == t as real - query)
  {
    if query >= t as real then query - t as real else t as real - query
  }

  /**
   * The left bisection of d3 over the sample times, searching from `lo`: the
   * first index at or after `lo` whose time is not before the query.
   */
  method BisectLeft(data: seq<Sample>, query: real, lo: nat) returns (i: nat)
    requires Ascending(data)
    ensures lo <= |data| ==> lo <= i <= |data|
    ensures lo <= |data| ==> forall j :: lo <= j < i ==> (data[j].datetime as real) < query
    ensures lo <= |data| ==> forall j :: i <= j < |data| ==> (data[j].datetime as real) >= query
    ensures lo > |data| ==> i == lo
  {
    var hi := |data|;
    i := lo;
    if i >= hi {
      return;
    }
    while i < hi
      invariant lo <= i <= hi <= |data|
      invariant forall j :: lo <= j < i ==> (data[j].datetime as real) < query
      invariant forall j :: hi <= j < |data| ==> (data[j].datetime as real) >= query
      decreases hi - i
    {
      var mid := (i + hi) / 2;
      if (data[mid].datetime as real) < query {
        i := mid + 1;
      } else {
        hi := mid;
      }
    }
  }

  /**
   * The sample under the pointer: none for an empty series; otherwise the
   * neighbour before the bisection point when it is strictly closer, and the
   * one at the bisection point when not.
   */
  method NearestSample(data: seq<Sample>, query: real) returns (chosen: Option<int>)
    requires Ascending(data)
    ensures chosen.None? <==> |data| == 0
    ensures chosen.Some? ==> 0 <= chosen.value < |data|
    ensures chosen.Some? ==> forall j :: 0 <= j < |data| ==>
      Distance(query, data[chosen.value].datetime) <= Distance(query, data[j].datetime)
    ensures chosen.Some? && StrictlyAscending(data) ==> forall j :: chosen.value < j < |data| ==>
      Distance(query, data[chosen.value].datetime) < Distance(query, data[j].datetime)
    ensures StrictlyAscending(data) && |data| > 0 && query <= data[0].datetime as real ==> chosen == Some(0)
    ensures StrictlyAscending(data) && |data| > 0 && query >= data[|data| - 1].datetime as real ==>
      chosen == Some(|data| - 1)
  {
    var index := BisectLeft(data, query, 1);
    var hasBefore := index - 1 < |data|;
    var hasAt := index < |data|;
    if !hasBefore {
      chosen := if hasAt then Some(index) else None;
    } else if !hasAt {
      chosen := Some(index - 1);
    } else if Distance(query, data[index - 1].datetime) < Distance(query, data[index].datetime) {
      chosen := Some(index - 1);
    } else {
      chosen := Some(index);
    }
  }
}
