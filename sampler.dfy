/**
 * The timeline sampler: the 15-minute time grid from the earliest intake to
 * 15 hours past the latest, the caffeine level at a time as a superposition
 * of the intakes already taken, the half-life choice, and the series the
 * chart is drawn from.
 */
module Sampler {
  import opened Wrappers
  import opened Clock
  import opened Decay
  import opened Intakes

  const StepMinutes: int := 15
  const HorizonMinutes: int := 15 * MinutesPerHour
  const DefaultHalfLife: real := 5.0

  // ---------------------------------------------------------------------------
  // Level at one time

  /** One intake's share of the level at `target`: nothing before it is taken, its remaining mass from then on. */
  function Term(x: Intake, target: int, halfLife: real, factor: DecayFactor): real {
    var elapsed := target - x.datetime;
    if elapsed >= 0 then Remaining(x.caffeine as real, halfLife, elapsed as real / 60.0, factor) else 0.0
  }

  /** The level at `target`: the shares of the intakes, added in list order. */
  function Level(intakes: seq<Intake>, target: int, halfLife: real, factor: DecayFactor): real {
    if intakes == [] then 0.0
    else
      Level(intakes[..|intakes| - 1], target, halfLife, factor)
      + Term(intakes[|intakes| - 1], target, halfLife, factor)
  }

  /** The intakes taken at or before `target`, in list order. */
  function Started(intakes: seq<Intake>, target: int): (r: seq<Intake>)
    ensures forall x :: x in r <==> x in intakes && x.datetime <= target
  {
    if intakes == [] then []
    else
      var last := intakes[|intakes| - 1];
      Started(intakes[..|intakes| - 1], target) + (if last.datetime <= target then [last] else [])
  }

  /** The plain sum of the intakes' remaining masses at `target`, without any guard. */
  function TotalRemaining(intakes: seq<Intake>, target: int, halfLife: real, factor: DecayFactor): real {
    if intakes == [] then 0.0
    else
      var last := intakes[|intakes| - 1];
      TotalRemaining(intakes[..|intakes| - 1], target, halfLife, factor)
      + Remaining(last.caffeine as real, halfLife, (target - last.datetime) as real / 60.0, factor)
  }

  /** The level is the total remaining mass of exactly the intakes already taken. */
  lemma {:induction false} LevelOverStarted(intakes: seq<Intake>, target: int, halfLife: real, factor: DecayFactor)
    ensures Level(intakes, target, halfLife, factor)
         == TotalRemaining(Started(intakes, target), target, halfLife, factor)
  {
    if intakes != [] {
      var init, last := intakes[..|intakes| - 1], intakes[|intakes| - 1];
      LevelOverStarted(init, target, halfLife, factor);
      var r := Started(init, target);
      var share := Remaining(last.caffeine as real, halfLife, (target - last.datetime) as real / 60.0, factor);
      if last.datetime <= target {
        var s := r + [last];
        assert Started(intakes, target) == s;
        assert s[..|s| - 1] == r && s[|s| - 1] == last;
        assert TotalRemaining(s, target, halfLife, factor) == TotalRemaining(r, target, halfLife, factor) + share;
        assert Term(last, target, halfLife, factor) == share;
      } else {
        assert Started(intakes, target) == r + [];
        assert r + [] == r;
        assert Term(last, target, halfLife, factor) == 0.0;
      }
    }
  }

  /** Superposition: the level of two groups of intakes is the sum of their levels. */
  lemma {:induction false} LevelAppend(xs: seq<Intake>, ys: seq<Intake>, target: int, halfLife: real, factor: DecayFactor)
    ensures Level(xs + ys, target, halfLife, factor)
         == Level(xs, target, halfLife, factor) + Level(ys, target, halfLife, factor)
  {
    if ys == [] {
      assert xs + ys == xs;
    } else {
      var s := xs + ys;
      assert s[..|s| - 1] == xs + ys[..|ys| - 1];
      LevelAppend(xs, ys[..|ys| - 1], target, halfLife, factor);
    }
  }

  /** Intakes later than `target` add nothing to the level there. */
  lemma {:induction false} LevelIgnoresLater(xs: seq<Intake>, ys: seq<Intake>, target: int, halfLife: real, factor: DecayFactor)
    requires forall i :: 0 <= i < |ys| ==> ys[i].datetime > target
    ensures Level(xs + ys, target, halfLife, factor) == Level(xs, target, halfLife, factor)
  {
    LevelAppend(xs, ys, target, halfLife, factor);
    LaterLevelZero(ys, target, halfLife, factor);
  }

  lemma {:induction false} LaterLevelZero(ys: seq<Intake>, target: int, halfLife: real, factor: DecayFactor)
    requires forall i :: 0 <= i < |ys| ==> ys[i].datetime > target
    ensures Level(ys, target, halfLife, factor) == 0.0
  {
    if ys != [] {
      LaterLevelZero(ys[..|ys| - 1], target, halfLife, factor);
    }
  }

  lemma LevelRemove(ys: seq<Intake>, i: nat, target: int, halfLife: real, factor: DecayFactor)
    requires i < |ys|
    ensures Level(ys, target, halfLife, factor)
         == Level(ys[..i] + ys[i + 1..], target, halfLife, factor) + Term(ys[i], target, halfLife, factor)
  {
    assert ys == ys[..i] + [ys[i]] + ys[i + 1..];
    LevelAppend(ys[..i] + [ys[i]], ys[i + 1..], target, halfLife, factor);
    LevelAppend(ys[..i], [ys[i]], target, halfLife, factor);
    LevelAppend(ys[..i], ys[i + 1..], target, halfLife, factor);
    assert [ys[i]][..0] == [];
  }

  lemma MultisetWithout(s: seq<Intake>, i: nat)
    requires i < |s|
    ensures multiset(s[..i] + s[i + 1..]) == multiset(s) - multiset{s[i]}
  {
    assert s == s[..i] + [s[i]] + s[i + 1..];
  }

  /** The level does not depend on the order the intakes are listed in. */
  lemma {:induction false} LevelPermutation(xs: seq<Intake>, ys: seq<Intake>, target: int, halfLife: real, factor: DecayFactor)
    requires multiset(xs) == multiset(ys)
    ensures Level(xs, target, halfLife, factor) == Level(ys, target, halfLife, factor)
  {
    if xs == [] {
      assert |ys| == |multiset(ys)| == 0;
    } else {
      var init, last := xs[..|xs| - 1], xs[|xs| - 1];
      MultisetWithout(xs, |xs| - 1);
      assert xs[|xs|..] == [] && init + [] == init;
      assert last in multiset(ys);
      var i :| 0 <= i < |ys| && ys[i] == last;
      var rest := ys[..i] + ys[i + 1..];
      MultisetWithout(ys, i);
      LevelPermutation(init, rest, target, halfLife, factor);
      LevelRemove(ys, i, target, halfLife, factor);
    }
  }

  /** With positive masses and a non-negative factor the level is never negative. */
  lemma {:induction false} LevelNonNegative(intakes: seq<Intake>, target: int, halfLife: real, factor: DecayFactor)
    requires forall i :: 0 <= i < |intakes| ==> intakes[i].caffeine > 0
    requires NonNegative(factor)
    ensures Level(intakes, target, halfLife, factor) >= 0.0
  {
    if intakes != [] {
      var last := intakes[|intakes| - 1];
      LevelNonNegative(intakes[..|intakes| - 1], target, halfLife, factor);
      RemainingNonNegative(last.caffeine as real, halfLife, (target - last.datetime) as real / 60.0, factor);
    }
  }

  /** Accumulates the share of every intake already taken at `target`. */
  method CalculateCaffeineLevel(intakes: seq<Intake>, target: int, halfLife: real, factor: DecayFactor)
    returns (total: real)
    ensures total == Level(intakes, target, halfLife, factor)
  {
    total := 0.0;
    for i := 0 to |intakes|
      invariant total == Level(intakes[..i], target, halfLife, factor)
    {
      var intake := intakes[i];
      var timeDiff := target - intake.datetime;
      assert intakes[..i + 1][..i] == intakes[..i];
      if timeDiff >= 0 {
        total := total + Remaining(intake.caffeine as real, halfLife, timeDiff as real / 60.0, factor);
      }
    }
    assert intakes[..|intakes|] == intakes;
  }

  // ---------------------------------------------------------------------------
  // Time grid

  function EarliestTime(intakes: seq<Intake>): (t: int)
    requires |intakes| > 0
    ensures exists i :: 0 <= i < |intakes| && intakes[i].datetime == t
    ensures forall i :: 0 <= i < |intakes| ==> t <= intakes[i].datetime
  {
    if |intakes| == 1 then intakes[0].datetime
    else
      var rest := EarliestTime(intakes[..|intakes| - 1]);
      var last := intakes[|intakes| - 1].datetime;
      if last < rest then last else rest
  }

  function LatestTime(intakes: seq<Intake>): (t: int)
    requires |intakes| > 0
    ensures exists i :: 0 <= i < |intakes| && intakes[i].datetime == t
    ensures forall i :: 0 <= i < |intakes| ==> intakes[i].datetime <= t
  {
    if |intakes| == 1 then intakes[0].datetime
    else
      var rest := LatestTime(intakes[..|intakes| - 1]);
      var last := intakes[|intakes| - 1].datetime;
      if last > rest then last else rest
  }

  /** The earliest and latest times depend only on which intakes there are. */
  lemma ExtremesPermutation(xs: seq<Intake>, ys: seq<Intake>)
    requires |xs| > 0 && multiset(xs) == multiset(ys)
    ensures |ys| > 0
    ensures EarliestTime(xs) == EarliestTime(ys) && LatestTime(xs) == LatestTime(ys)
  {
    assert |ys| == |multiset(ys)| == |multiset(xs)| == |xs|;
    forall x | x in xs ensures x in ys {
      assert x in multiset(xs);
    }
    forall y | y in ys ensures y in xs {
      assert y in multiset(ys);
    }
    var i :| 0 <= i < |xs| && xs[i].datetime == EarliestTime(xs);
    var j :| 0 <= j < |ys| && ys[j].datetime == EarliestTime(ys);
    assert xs[i] in ys && ys[j] in xs;
    var i' :| 0 <= i' < |xs| && xs[i'].datetime == LatestTime(xs);
    var j' :| 0 <= j' < |ys| && ys[j'].datetime == LatestTime(ys);
    assert xs[i'] in ys && ys[j'] in xs;
  }

  /**
   * The grid from `start` to `end`: one point every 15 minutes starting at
   * `start`, the last point at most `end` and the next one past it.
   */
  ghost predicate IsTimeGrid(points: seq<int>, start: int, end: int) {
    && |points| >= 1
    && |points| == (end - start) / StepMinutes + 1
    && (forall k :: 0 <= k < |points| ==> points[k] == start + StepMinutes * k)
    && points[|points| - 1] <= end < points[|points| - 1] + StepMinutes
  }

  /** Points every 15 minutes from the earliest intake to 15 hours after the latest. */
  method GenerateTimePoints(intakes: seq<Intake>) returns (points: seq<int>)
    ensures |intakes| == 0 ==> points == []
    ensures |intakes| > 0 ==>
      IsTimeGrid(points, EarliestTime(intakes), LatestTime(intakes) + HorizonMinutes)
  {
    if |intakes| == 0 {
      return [];
    }
    var start := EarliestTime(intakes);
    var end := LatestTime(intakes) + HorizonMinutes;
    points := [];
    var current := start;
    while current <= end
      invariant current == start + StepMinutes * |points|
      invariant current - StepMinutes <= end
      invariant forall k :: 0 <= k < |points| ==> points[k] == start + StepMinutes * k
      decreases end - current
    {
      points := points + [current];
      current := current + StepMinutes;
    }
    DivisionUnique(end - start, StepMinutes, |points| - 1, end - (current - StepMinutes));
  }

  /** The grid starts at an intake no later than any other and ends within one step of 15 hours past the latest. */
  lemma GridSpansIntakes(points: seq<int>, intakes: seq<Intake>)
    requires |intakes| > 0
    requires IsTimeGrid(points, EarliestTime(intakes), LatestTime(intakes) + HorizonMinutes)
    ensures forall i :: 0 <= i < |intakes| ==> points[0] <= intakes[i].datetime
    ensures forall i :: 0 <= i < |intakes| ==> intakes[i].datetime + HorizonMinutes < points[|points| - 1] + StepMinutes
    ensures points[|points| - 1] <= LatestTime(intakes) + HorizonMinutes
  {
  }

  // ---------------------------------------------------------------------------
  // Half-life and series

  /** The metabolism selector: a preset half-life, or a custom entry (None when it does not parse). */
  datatype HalfLifeSetting = PresetRate(hours: real) | CustomRate(entry: Option<real>)

  /** `parseFloat(custom) || 5` for a custom entry, the preset's value otherwise. */
  function ResolveHalfLife(setting: HalfLifeSetting): real {
    match setting
    case PresetRate(h) => h
    case CustomRate(None) => DefaultHalfLife
    case CustomRate(Some(h)) => if h == 0.0 then DefaultHalfLife else h
  }

  /**
   * Only an unparseable or zero custom entry falls back to 5 hours; any other
   * custom entry, a negative one included, and every preset is used as it is.
   */
  lemma ResolveHalfLifeCases(setting: HalfLifeSetting)
    ensures setting.PresetRate? ==> ResolveHalfLife(setting) == setting.hours
    ensures setting.CustomRate? ==>
      (ResolveHalfLife(setting) == DefaultHalfLife
       <==> setting.entry.None? || setting.entry.value == 0.0 || setting.entry.value == DefaultHalfLife)
    ensures setting.CustomRate? && setting.entry.Some? && setting.entry.value != 0.0 ==>
      ResolveHalfLife(setting) == setting.entry.value
    ensures setting.CustomRate? ==>
      (ResolveHalfLife(setting) > 0.0 <==> setting.entry.None? || setting.entry.value >= 0.0)
  {
  }

  datatype Sample = Sample(datetime: int, level: real)

  function SampleTimes(data: seq<Sample>): (times: seq<int>)
    ensures |times| == |data| && forall k :: 0 <= k < |data| ==> times[k] == data[k].datetime
  {
    seq(|data|, k requires 0 <= k < |data| => data[k].datetime)
  }

  /** One sample per grid point, in grid order, each holding the level at its time. */
  ghost predicate IsSeries(data: seq<Sample>, intakes: seq<Intake>, halfLife: real, factor: DecayFactor)
    requires |intakes| > 0
  {
    && IsTimeGrid(SampleTimes(data), EarliestTime(intakes), LatestTime(intakes) + HorizonMinutes)
    && forall k :: 0 <= k < |data| ==> data[k].level == Level(intakes, data[k].datetime, halfLife, factor)
  }

  /**
   * The chart's data: empty when no row is eligible, otherwise the level of
   * the eligible intakes at every grid point under the selected half-life.
   */
  method UpdateChart(rows: seq<Row>, setting: HalfLifeSetting, factor: DecayFactor) returns (data: seq<Sample>)
    ensures data == [] <==> Eligible(rows) == []
    ensures Eligible(rows) != [] ==> IsSeries(data, Eligible(rows), ResolveHalfLife(setting), factor)
  {
    var intakes := GetIntakeData(rows);
    var halfLife := ResolveHalfLife(setting);
    ghost var eligible := Eligible(rows);
    if |intakes| == 0 {
      return [];
    }
    var points := GenerateTimePoints(intakes);
    ExtremesPermutation(intakes, eligible);
    data := [];
    for k := 0 to |points|
      invariant |data| == k
      invariant forall i {:trigger data[i]} :: 0 <= i < k ==> data[i] == Sample(points[i], Level(eligible, points[i], halfLife, factor))
    {
      var level := CalculateCaffeineLevel(intakes, points[k], halfLife, factor);
      LevelPermutation(intakes, eligible, points[k], halfLife, factor);
      data := data + [Sample(points[k], level)];
    }
    assert SampleTimes(data) == points;
  }
}
