/**
 * The prototype simulation: whole-hour clock times are turned into hours
 * after the first intake (rolling over to the next day when earlier), doses
 * are keyed by that offset in an insertion-ordered dictionary, and the level
 * is sampled on an index-based grid up to 12 hours after the last intake.
 */
module Prototype {
  import opened Decay

  predicate IsHour(h: int) {
    0 <= h < 24
  }

  /** `caffeine_amount`: the decay constant divides by the half-life, so it must not be zero. */
  function CaffeineAmount(initial: real, halfLife: real, elapsed: real, factor: DecayFactor): real
    requires halfLife != 0.0
  {
    Remaining(initial, halfLife, elapsed, factor)
  }

  lemma CaffeineAmountAtZero(initial: real, halfLife: real, factor: DecayFactor)
    requires halfLife != 0.0 && StartsWhole(factor)
    ensures CaffeineAmount(initial, halfLife, 0.0, factor) == initial
  {
    RemainingAtZero(initial, halfLife, factor);
  }

  /** `parse_time`: hours from the reference clock hour to `hour`, on the next day when `hour` is earlier. */
  function ParseTime(hour: int, referenceHour: int): (offset: int)
    requires IsHour(hour) && IsHour(referenceHour)
    ensures 0 <= offset < 24
    ensures offset == (hour - referenceHour) % 24
  {
    if hour < referenceHour then hour - referenceHour + 24 else hour - referenceHour
  }

  /** The reference maps to 0, and an earlier clock hour lands on the next day. */
  lemma ParseTimeRollover(hour: int, referenceHour: int)
    requires IsHour(hour) && IsHour(referenceHour)
    ensures ParseTime(referenceHour, referenceHour) == 0
    ensures hour < referenceHour ==> ParseTime(hour, referenceHour) == 24 + hour - referenceHour
    ensures hour >= referenceHour ==> ParseTime(hour, referenceHour) == hour - referenceHour
  {
  }

  lemma ParseTimeInjective(h1: int, h2: int, referenceHour: int)
    requires IsHour(h1) && IsHour(h2) && IsHour(referenceHour) && h1 != h2
    ensures ParseTime(h1, referenceHour) != ParseTime(h2, referenceHour)
  {
  }

  // ---------------------------------------------------------------------------
  // The offset dictionary

  /** One input intake: a clock hour (the parsed `'8AM'` key) and its dose in mg. */
  datatype ClockIntake = ClockIntake(hour: int, dose: real)

  /** One dictionary item: an offset in hours and the dose stored under it. */
  datatype Entry = Entry(offset: int, dose: real)

  function Keys(d: seq<Entry>): set<int> {
    if d == [] then {} else {d[0].offset} + Keys(d[1..])
  }

  predicate DistinctKeys(d: seq<Entry>) {
    d == [] || (d[0].offset !in Keys(d[1..]) && DistinctKeys(d[1..]))
  }

  /**
   * `d[key] = dose` on an insertion-ordered dictionary: an existing key keeps
   * its position and takes the new dose; a new key is appended.
   */
  function Put(d: seq<Entry>, key: int, dose: real): (r: seq<Entry>)
    ensures Keys(r) == Keys(d) + {key}
    ensures DistinctKeys(d) ==> DistinctKeys(r)
    ensures 1 <= |r| <= |d| + 1 && (|d| > 0 ==> r[0].offset == d[0].offset)
    ensures key !in Keys(d) ==> r == d + [Entry(key, dose)]
  {
    if d == [] then [Entry(key, dose)]
    else if d[0].offset == key then [Entry(key, dose)] + d[1..]
    else
      var rest := Put(d[1..], key, dose);
      assert ([d[0]] + rest)[1..] == rest;
      [d[0]] + rest
  }

  /**
   * On a key already present, `d[key] = dose` keeps every item in its place
   * and replaces only that key's dose.
   */
  lemma {:induction false} PutExisting(d: seq<Entry>, key: int, dose: real)
    requires DistinctKeys(d) && key in Keys(d)
    ensures var r := Put(d, key, dose);
      |r| == |d| && forall i :: 0 <= i < |d| ==> r[i] == (if d[i].offset == key then Entry(key, dose) else d[i])
  {
    var r := Put(d, key, dose);
    if d[0].offset == key {
      forall i | 1 <= i < |d|
        ensures d[i].offset != key
      {
        DistinctKeysIndices(d, i);
      }
    } else {
      var rest := Put(d[1..], key, dose);
      PutExisting(d[1..], key, dose);
      assert r == [d[0]] + rest;
      forall i | 1 <= i < |d|
        ensures r[i] == (if d[i].offset == key then Entry(key, dose) else d[i])
      {
        assert r[i] == rest[i - 1] && d[i] == d[1..][i - 1];
      }
    }
  }

  /** `{parse_time(t, first_time): amt for t, amt in caffeine_intakes.items()}`. */
  function OffsetIntakes(intakes: seq<ClockIntake>, referenceHour: int): (d: seq<Entry>)
    requires IsHour(referenceHour) && forall i :: 0 <= i < |intakes| ==> IsHour(intakes[i].hour)
    ensures |d| <= |intakes| && (|intakes| > 0 ==> |d| > 0)
    ensures DistinctKeys(d)
    ensures forall k :: k in Keys(d) ==> 0 <= k < 24
  {
    if intakes == [] then []
    else
      var init, last := intakes[..|intakes| - 1], intakes[|intakes| - 1];
      Put(OffsetIntakes(init, referenceHour), ParseTime(last.hour, referenceHour), last.dose)
  }

  /** The dictionary holds exactly the parsed offsets of the intakes. */
  lemma {:induction false} OffsetIntakesKeys(intakes: seq<ClockIntake>, referenceHour: int)
    requires IsHour(referenceHour) && forall i :: 0 <= i < |intakes| ==> IsHour(intakes[i].hour)
    ensures Keys(OffsetIntakes(intakes, referenceHour))
      == set i | 0 <= i < |intakes| :: ParseTime(intakes[i].hour, referenceHour)
  {
    if intakes != [] {
      var n := |intakes| - 1;
      var init, last := intakes[..n], intakes[n];
      OffsetIntakesKeys(init, referenceHour);
      var before := set i | 0 <= i < n :: ParseTime(init[i].hour, referenceHour);
      var after := set i | 0 <= i < |intakes| :: ParseTime(intakes[i].hour, referenceHour);
      forall k | k in after
        ensures k in before + {ParseTime(last.hour, referenceHour)}
      {
        var i :| 0 <= i < |intakes| && k == ParseTime(intakes[i].hour, referenceHour);
        if i < n {
          assert init[i] == intakes[i];
        }
      }
      forall k | k in before
        ensures k in after
      {
        var i :| 0 <= i < n && k == ParseTime(init[i].hour, referenceHour);
        assert init[i] == intakes[i];
      }
      assert after == before + {ParseTime(last.hour, referenceHour)};
    }
  }

  predicate DistinctHours(intakes: seq<ClockIntake>) {
    forall i, j :: 0 <= i < j < |intakes| ==> intakes[i].hour != intakes[j].hour
  }

  /** Distinct clock hours give distinct offsets: one dictionary item per intake, in input order. */
  lemma {:induction false} OffsetIntakesOnePerIntake(intakes: seq<ClockIntake>, referenceHour: int)
    requires IsHour(referenceHour) && forall i :: 0 <= i < |intakes| ==> IsHour(intakes[i].hour)
    requires DistinctHours(intakes)
    ensures var d := OffsetIntakes(intakes, referenceHour);
      |d| == |intakes|
      && forall i :: 0 <= i < |d| ==> d[i] == Entry(ParseTime(intakes[i].hour, referenceHour), intakes[i].dose)
  {
    if intakes != [] {
      var init, last := intakes[..|intakes| - 1], intakes[|intakes| - 1];
      OffsetIntakesOnePerIntake(init, referenceHour);
      var key := ParseTime(last.hour, referenceHour);
      var prior := OffsetIntakes(init, referenceHour);
      if key in Keys(prior) {
        var i := KeyIndex(prior, key);
        assert prior[i].offset == ParseTime(init[i].hour, referenceHour);
        ParseTimeInjective(init[i].hour, last.hour, referenceHour);
        assert false;
      }
    }
  }

  /** The first intake is the reference, so the first item's offset is 0. */
  lemma {:induction false} FirstOffsetZero(intakes: seq<ClockIntake>)
    requires |intakes| > 0 && forall i :: 0 <= i < |intakes| ==> IsHour(intakes[i].hour)
    ensures var d := OffsetIntakes(intakes, intakes[0].hour); |d| > 0 && d[0].offset == 0
  {
    PrefixFirstOffset(intakes, intakes[0].hour, |intakes|);
    assert intakes[..|intakes|] == intakes;
  }

  lemma {:induction false} PrefixFirstOffset(intakes: seq<ClockIntake>, referenceHour: int, n: nat)
    requires 1 <= n <= |intakes| && IsHour(referenceHour)
    requires forall i :: 0 <= i < |intakes| ==> IsHour(intakes[i].hour)
    ensures var d := OffsetIntakes(intakes[..n], referenceHour);
      |d| > 0 && d[0].offset == ParseTime(intakes[0].hour, referenceHour)
  {
    if n > 1 {
      PrefixFirstOffset(intakes, referenceHour, n - 1);
      assert intakes[..n][..n - 1] == intakes[..n - 1];
    } else {
      assert intakes[..1][..0] == [];
    }
  }

  function MaxOffset(d: seq<Entry>): (m: int)
    requires |d| > 0
    ensures exists i :: 0 <= i < |d| && d[i].offset == m
    ensures forall i :: 0 <= i < |d| ==> d[i].offset <= m
  {
    if |d| == 1 then d[0].offset
    else
      var rest := MaxOffset(d[..|d| - 1]);
      if d[|d| - 1].offset > rest then d[|d| - 1].offset else rest
  }

  // ---------------------------------------------------------------------------
  // Time grid and levels

  /** Python's `int()` on a float: truncation toward zero. */
  function Trunc(x: real): (n: int)
    ensures x >= 0.0 ==> n as real <= x < n as real + 1.0
    ensures x < 0.0 ==> n as real - 1.0 < x <= n as real
  {
    if x >= 0.0 then x.Floor else -((-x).Floor)
  }

  /** `[i * step for i in range(int(total / step) + 1)]`. */
  function TimeGrid(total: real, step: real): seq<real>
    requires step != 0.0
  {
    var n := Trunc(total / step) + 1;
    seq(if n > 0 then n else 0, i requires 0 <= i => i as real * step)
  }

  /** For a positive step the grid starts at 0, rises by `step`, never passes `total`, and one more step would. */
  lemma TimeGridShape(total: real, step: real)
    requires total >= 0.0 && step > 0.0
    ensures var times := TimeGrid(total, step);
      |times| >= 1 && times[0] == 0.0
      && (forall i :: 0 <= i < |times| ==> times[i] == i as real * step)
      && (forall i :: 0 <= i < |times| - 1 ==> times[i] < times[i + 1])
      && (forall i :: 0 <= i < |times| ==> times[i] <= total)
      && total < |times| as real * step
  {
    var times := TimeGrid(total, step);
    GridCount(total, step);
    GridWithinTotal(total, step);
    GridEndsPastTotal(total, step);
  }

  lemma GridWithinTotal(total: real, step: real)
    requires total >= 0.0 && step > 0.0
    ensures forall i :: 0 <= i < |TimeGrid(total, step)| ==> TimeGrid(total, step)[i] <= total
  {
    var times := TimeGrid(total, step);
    var q := total / step;
    GridCount(total, step);
    forall i | 0 <= i < |times|
      ensures times[i] <= total
    {
      assert i as real <= (|times| - 1) as real <= q;
      ScaleLessEq(i as real, q, step);
      assert times[i] == i as real * step;
    }
  }

  lemma GridEndsPastTotal(total: real, step: real)
    requires total >= 0.0 && step > 0.0
    ensures total < |TimeGrid(total, step)| as real * step
  {
    var n := |TimeGrid(total, step)|;
    var q := total / step;
    GridCount(total, step);
    assert q < n as real;
    ScaleLess(q, n as real, step);
    assert q * step < n as real * step;
  }

  /** The grid has one point more than the whole number of steps in `total`. */
  lemma GridCount(total: real, step: real)
    requires total >= 0.0 && step > 0.0
    ensures var q := total / step;
      q >= 0.0 && q * step == total
      && |TimeGrid(total, step)| == q.Floor + 1
      && (|TimeGrid(total, step)| - 1) as real <= q < |TimeGrid(total, step)| as real
  {
  }

  lemma ScaleLessEq(a: real, b: real, c: real)
    requires a <= b && c > 0.0
    ensures a * c <= b * c
  {
  }

  lemma ScaleLess(a: real, b: real, c: real)
    requires a < b && c > 0.0
    ensures a * c < b * c
  {
  }

  /** The level at time `t`: the doses already taken, each decayed since its offset, added in item order. */
  function LevelAt(d: seq<Entry>, t: real, halfLife: real, factor: DecayFactor): real
    requires halfLife != 0.0
  {
    if d == [] then 0.0
    else
      var last := d[|d| - 1];
      LevelAt(d[..|d| - 1], t, halfLife, factor)
      + (if t >= last.offset as real then CaffeineAmount(last.dose, halfLife, t - last.offset as real, factor) else 0.0)
  }

  /** The items whose dose has been taken by time `t`, in item order. */
  function Taken(d: seq<Entry>, t: real): (r: seq<Entry>)
    ensures forall e :: e in r <==> e in d && e.offset as real <= t
  {
    if d == [] then []
    else
      var last := d[|d| - 1];
      Taken(d[..|d| - 1], t) + (if last.offset as real <= t then [last] else [])
  }

  /** Every item's dose decayed to `t`, taken or not, added in item order. */
  function PlainLevel(d: seq<Entry>, t: real, halfLife: real, factor: DecayFactor): real
    requires halfLife != 0.0
  {
    if d == [] then 0.0
    else
      var last := d[|d| - 1];
      PlainLevel(d[..|d| - 1], t, halfLife, factor) + CaffeineAmount(last.dose, halfLife, t - last.offset as real, factor)
  }

  /**
   * The level at `t` is the plain sum over the doses already taken there,
   * each counted from its own offset; the later doses add nothing.
   */
  lemma {:induction false} LevelAtOverTaken(d: seq<Entry>, t: real, halfLife: real, factor: DecayFactor)
    requires halfLife != 0.0
    ensures LevelAt(d, t, halfLife, factor) == PlainLevel(Taken(d, t), t, halfLife, factor)
    ensures LevelAt(d, t, halfLife, factor) == LevelAt(Taken(d, t), t, halfLife, factor)
  {
    if d != [] {
      var init, last := d[..|d| - 1], d[|d| - 1];
      LevelAtOverTaken(init, t, halfLife, factor);
      var r := Taken(init, t);
      if last.offset as real <= t {
        var s := r + [last];
        assert Taken(d, t) == s;
        assert s[..|s| - 1] == r && s[|s| - 1] == last;
        assert PlainLevel(s, t, halfLife, factor)
            == PlainLevel(r, t, halfLife, factor) + CaffeineAmount(last.dose, halfLife, t - last.offset as real, factor);
        assert LevelAt(s, t, halfLife, factor)
            == LevelAt(r, t, halfLife, factor) + CaffeineAmount(last.dose, halfLife, t - last.offset as real, factor);
      } else {
        assert Taken(d, t) == r + [];
        assert r + [] == r;
      }
    }
  }

  /** At the first intake's time only the first dose has been taken, and it is whole. */
  lemma {:induction false} LevelAtFirstIntake(d: seq<Entry>, halfLife: real, factor: DecayFactor, n: nat)
    requires halfLife != 0.0 && StartsWhole(factor)
    requires 1 <= n <= |d| && d[0].offset == 0
    requires forall i :: 1 <= i < |d| ==> d[i].offset > 0
    ensures LevelAt(d[..n], 0.0, halfLife, factor) == d[0].dose
  {
    if n == 1 {
      assert d[..1][..0] == [];
      CaffeineAmountAtZero(d[0].dose, halfLife, factor);
    } else {
      LevelAtFirstIntake(d, halfLife, factor, n - 1);
      assert d[..n][..n - 1] == d[..n - 1];
    }
  }

  lemma {:induction false} DistinctKeysIndices(d: seq<Entry>, i: nat)
    requires DistinctKeys(d) && 1 <= i < |d|
    ensures d[i].offset != d[0].offset
  {
    assert d[i] == d[1..][i - 1];
    KeysHasMembers(d[1..], i - 1);
  }

  /** Where a key sits in the items. */
  function KeyIndex(d: seq<Entry>, key: int): (i: nat)
    requires key in Keys(d)
    ensures i < |d| && d[i].offset == key
  {
    if d[0].offset == key then 0 else 1 + KeyIndex(d[1..], key)
  }

  lemma {:induction false} KeysHasMembers(d: seq<Entry>, i: nat)
    requires i < |d|
    ensures d[i].offset in Keys(d)
  {
    if i > 0 {
      KeysHasMembers(d[1..], i - 1);
    }
  }

  /**
   * In a simulation, the level at hour 0 is the dose stored under the first
   * key: that of the last intake at the first intake's hour. With distinct
   * hours it is the first intake's own dose.
   */
  lemma SimulationStartsAtFirstDose(intakes: seq<ClockIntake>, halfLife: real, factor: DecayFactor)
    requires |intakes| > 0 && forall i :: 0 <= i < |intakes| ==> IsHour(intakes[i].hour)
    requires halfLife != 0.0 && StartsWhole(factor)
    ensures var d := OffsetIntakes(intakes, intakes[0].hour);
      |d| > 0 && LevelAt(d, 0.0, halfLife, factor) == d[0].dose
    ensures DistinctHours(intakes) ==>
      LevelAt(OffsetIntakes(intakes, intakes[0].hour), 0.0, halfLife, factor) == intakes[0].dose
  {
    var d := OffsetIntakes(intakes, intakes[0].hour);
    FirstOffsetZero(intakes);
    forall i | 1 <= i < |d| ensures d[i].offset > 0 {
      DistinctKeysIndices(d, i);
      KeysHasMembers(d, i);
      assert d[i].offset in Keys(d);
    }
    LevelAtFirstIntake(d, halfLife, factor, |d|);
    assert d[..|d|] == d;
    if DistinctHours(intakes) {
      OffsetIntakesOnePerIntake(intakes, intakes[0].hour);
    }
  }

  /** `{'8AM': 100, '9AM': 50, '08AM': 70}`: the repeated hour keeps its first place and its last dose. */
  lemma RepeatedHourExample(halfLife: real, factor: DecayFactor)
    requires halfLife != 0.0 && StartsWhole(factor)
    ensures var d := OffsetIntakes([ClockIntake(8, 100.0), ClockIntake(9, 50.0), ClockIntake(8, 70.0)], 8);
      d == [Entry(0, 70.0), Entry(1, 50.0)] && LevelAt(d, 0.0, halfLife, factor) == 70.0
  {
    var intakes := [ClockIntake(8, 100.0), ClockIntake(9, 50.0), ClockIntake(8, 70.0)];
    assert intakes[..2][..1] == [ClockIntake(8, 100.0)] && intakes[..2][..1][..0] == [];
    SimulationStartsAtFirstDose(intakes, halfLife, factor);
  }

  /**
   * `caffeine_simulation` without its plot: the offset dictionary, the grid
   * up to 12 hours past the largest offset, and the level at each grid time.
   */
  method CaffeineSimulation(intakes: seq<ClockIntake>, halfLife: real, step: real, factor: DecayFactor)
    returns (times: seq<real>, levels: seq<real>)
    requires |intakes| > 0 && forall i :: 0 <= i < |intakes| ==> IsHour(intakes[i].hour)
    requires halfLife != 0.0 && step != 0.0
    ensures var d := OffsetIntakes(intakes, intakes[0].hour);
      |d| > 0 && times == TimeGrid(MaxOffset(d) as real + 12.0, step)
    ensures |levels| == |times|
    ensures forall k :: 0 <= k < |levels| ==>
      levels[k] == LevelAt(OffsetIntakes(intakes, intakes[0].hour), times[k], halfLife, factor)
  {
    var offsets := OffsetIntakes(intakes, intakes[0].hour);
    var totalDuration := MaxOffset(offsets) as real + 12.0;
    times := TimeGrid(totalDuration, step);
    levels := [];
    for k := 0 to |times|
      invariant |levels| == k
      invariant forall j :: 0 <= j < k ==> levels[j] == LevelAt(offsets, times[j], halfLife, factor)
    {
      var t := times[k];
      var total := LevelAtTime(offsets, t, halfLife, factor);
      levels := levels + [total];
    }
  }

  /** The inner loop of the simulation: adds up the decayed doses already taken at `t`. */
  method LevelAtTime(offsets: seq<Entry>, t: real, halfLife: real, factor: DecayFactor) returns (total: real)
    requires halfLife != 0.0
    ensures total == LevelAt(offsets, t, halfLife, factor)
  {
    total := 0.0;
    for i := 0 to |offsets|
      invariant total == LevelAt(offsets[..i], t, halfLife, factor)
    {
      LevelAtStep(offsets, i, t, halfLife, factor);
      var intake := offsets[i];
      if t >= intake.offset as real {
        total := total + intake.dose * factor(halfLife, t - intake.offset as real);
      }
    }
    assert offsets[..|offsets|] == offsets;
  }

  lemma LevelAtStep(d: seq<Entry>, i: nat, t: real, halfLife: real, factor: DecayFactor)
    requires i < |d| && halfLife != 0.0
    ensures LevelAt(d[..i + 1], t, halfLife, factor) == LevelAt(d[..i], t, halfLife, factor)
      + (if t >= d[i].offset as real then d[i].dose * factor(halfLife, t - d[i].offset as real) else 0.0)
  {
    assert d[..i + 1][..i] == d[..i];
  }
}
