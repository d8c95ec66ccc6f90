/**
 * Intake rows as the editing surface holds them, the caffeine mass each row
 * stands for, and the extraction of the dated, timed, non-empty intakes in
 * time order that the chart is computed from.
 */
module Intakes {
  import opened Wrappers
  import opened Clock

  /**
   * A drink or amount selector: a preset option's numeric value, or a custom
   * entry whose text parsed as a number (None when it did not parse).
   */
  datatype Selection = Preset(value: real) | Custom(entry: Option<real>)

  /** Drink options in mg per 100 ml, and the one selected in a new row. */
  const DrinkPresets: seq<real> := [20.0, 30.0, 32.0, 40.0, 80.0, 212.0]
  const DefaultDrink: real := 40.0

  /** Amount options in ml, and the one selected in a new row. */
  const AmountPresets: seq<real> := [30.0, 200.0, 250.0, 330.0, 350.0, 500.0]
  const DefaultAmount: real := 200.0

  /** One intake row: its data id, date field (a day), time field (a minute of the day) and selectors. */
  datatype Row = Row(id: int, date: Option<int>, time: Option<int>, drink: Selection, amount: Selection)

  /** A row as the page builds it: a time field holds a minute of the day, and a preset is one of the listed options. */
  predicate WellFormed(r: Row) {
    && (r.time.Some? ==> IsMinuteOfDay(r.time.value))
    && (r.drink.Preset? ==> r.drink.value in DrinkPresets)
    && (r.amount.Preset? ==> r.amount.value in AmountPresets)
  }

  predicate AllWellFormed(rows: seq<Row>) {
    forall k :: 0 <= k < |rows| ==> WellFormed(rows[k])
  }

  /** mg per ml of the selected drink; an unparseable custom concentration counts as 0. */
  function CaffeinePerMl(drink: Selection): real {
    match drink
    case Preset(v) => v / 100.0
    case Custom(None) => 0.0
    case Custom(Some(v)) => v / 100.0
  }

  /** ml of the selected amount; an unparseable custom amount counts as 0. */
  function Volume(amount: Selection): real {
    match amount
    case Preset(v) => v
    case Custom(None) => 0.0
    case Custom(Some(v)) => v
  }

  /** `Math.round`: the nearest integer, halves rounded up. */
  function Round(x: real): (n: int)
    ensures n as real - 0.5 <= x < n as real + 0.5
  {
    (x + 0.5).Floor
  }

  lemma RoundUnique(x: real, n: int)
    requires n as real - 0.5 <= x < n as real + 0.5
    ensures Round(x) == n
  {
  }

  /** The whole milligrams of caffeine a row stands for. */
  function Mass(r: Row): int {
    Round(CaffeinePerMl(r.drink) * Volume(r.amount))
  }

  /**
   * A parsed custom value counts exactly like a preset of the same value, and
   * an unparseable custom field makes the mass 0.
   */
  lemma MassFromFields(r: Row)
    ensures r.drink.Custom? && r.drink.entry.Some? ==> Mass(r) == Mass(r.(drink := Preset(r.drink.entry.value)))
    ensures r.amount.Custom? && r.amount.entry.Some? ==> Mass(r) == Mass(r.(amount := Preset(r.amount.entry.value)))
    ensures r.drink == Custom(None) || r.amount == Custom(None) ==> Mass(r) == 0
  {
    if r.drink == Custom(None) || r.amount == Custom(None) {
      RoundUnique(0.0, 0);
    }
  }

  /** A new row (filtered coffee, small mug) stands for 80 mg. */
  lemma DefaultRowMass(id: int, date: Option<int>, time: Option<int>)
    ensures Mass(Row(id, date, time, Preset(DefaultDrink), Preset(DefaultAmount))) == 80
  {
    RoundUnique(CaffeinePerMl(Preset(DefaultDrink)) * Volume(Preset(DefaultAmount)), 80);
  }

  /** An intake as the chart sees it: its datetime in minutes and its mass in mg. */
  datatype Intake = Intake(datetime: int, caffeine: int)

  predicate IsEligible(r: Row) {
    r.date.Some? && r.time.Some? && Mass(r) > 0
  }

  function ToIntake(r: Row): Intake
    requires r.date.Some? && r.time.Some?
  {
    Intake(DateTime(r.date.value, r.time.value), Mass(r))
  }

  /** The rows that enter the computation, as intakes, in row order. */
  function Eligible(rows: seq<Row>): seq<Intake> {
    if rows == [] then []
    else
      var last := rows[|rows| - 1];
      Eligible(rows[..|rows| - 1]) + (if IsEligible(last) then [ToIntake(last)] else [])
  }

  /** Every eligible row is represented, and nothing else is. */
  lemma {:induction false} EligibleExactly(rows: seq<Row>)
    ensures forall k :: 0 <= k < |rows| && IsEligible(rows[k]) ==> ToIntake(rows[k]) in Eligible(rows)
    ensures forall x :: x in Eligible(rows) ==>
      exists k :: 0 <= k < |rows| && IsEligible(rows[k]) && x == ToIntake(rows[k])
    ensures forall x :: x in Eligible(rows) ==> x.caffeine > 0
    ensures |Eligible(rows)| <= |rows|
  {
    if rows != [] {
      var init := rows[..|rows| - 1];
      EligibleExactly(init);
      forall k | 0 <= k < |init| && IsEligible(rows[k])
        ensures ToIntake(rows[k]) in Eligible(rows)
      {
        assert init[k] == rows[k];
      }
      forall x | x in Eligible(rows)
        ensures exists k :: 0 <= k < |rows| && IsEligible(rows[k]) && x == ToIntake(rows[k])
      {
        if x !in Eligible(init) {
          assert x == ToIntake(rows[|rows| - 1]);
        } else {
          var k :| 0 <= k < |init| && IsEligible(init[k]) && x == ToIntake(init[k]);
          assert rows[k] == init[k];
        }
      }
    }
  }

  predicate Sorted(s: seq<Intake>) {
    forall i, j :: 0 <= i < j < |s| ==> s[i].datetime <= s[j].datetime
  }

  /** Inserts `x` after every intake not later than it (so equal times keep their order). */
  function InsertByTime(s: seq<Intake>, x: Intake): (r: seq<Intake>)
    ensures multiset(r) == multiset(s) + multiset{x}
  {
    if s == [] then [x]
    else if x.datetime < s[0].datetime then [x] + s
    else
      assert s == [s[0]] + s[1..];
      [s[0]] + InsertByTime(s[1..], x)
  }

  lemma {:induction false} InsertByTimeBound(s: seq<Intake>, x: Intake, bound: int)
    requires forall i :: 0 <= i < |s| ==> bound <= s[i].datetime
    requires bound <= x.datetime
    ensures forall i :: 0 <= i < |InsertByTime(s, x)| ==> bound <= InsertByTime(s, x)[i].datetime
  {
    if s != [] && x.datetime >= s[0].datetime {
      InsertByTimeBound(s[1..], x, bound);
    }
  }

  lemma {:induction false} InsertByTimeSorted(s: seq<Intake>, x: Intake)
    requires Sorted(s)
    ensures Sorted(InsertByTime(s, x))
  {
    if s != [] && x.datetime >= s[0].datetime {
      var rest := InsertByTime(s[1..], x);
      InsertByTimeSorted(s[1..], x);
      InsertByTimeBound(s[1..], x, s[0].datetime);
      var r := [s[0]] + rest;
      assert forall j :: 0 < j < |r| ==> r[j] == rest[j - 1];
    }
  }

  /** The stable sort of intakes by datetime (`sort((a, b) => a.datetime - b.datetime)`). */
  function SortByTime(s: seq<Intake>): (r: seq<Intake>)
    ensures Sorted(r)
    ensures multiset(r) == multiset(s)
    ensures |r| == |s|
  {
    if s == [] then []
    else
      assert s == s[..|s| - 1] + [s[|s| - 1]];
      InsertByTimeSorted(SortByTime(s[..|s| - 1]), s[|s| - 1]);
      InsertByTime(SortByTime(s[..|s| - 1]), s[|s| - 1])
  }

  /**
   * Collects the dated, timed rows with a positive mass, in row order, and
   * returns them sorted by datetime.
   */
  method GetIntakeData(rows: seq<Row>) returns (intakes: seq<Intake>)
    ensures Sorted(intakes)
    ensures multiset(intakes) == multiset(Eligible(rows))
    ensures intakes == SortByTime(Eligible(rows))
  {
    var pushed: seq<Intake> := [];
    for i := 0 to |rows|
      invariant pushed == Eligible(rows[..i])
    {
      var row := rows[i];
      assert rows[..i + 1][..i] == rows[..i];
      if row.date.Some? && row.time.Some? && Mass(row) > 0 {
        pushed := pushed + [Intake(DateTime(row.date.value, row.time.value), Mass(row))];
      }
    }
    assert rows[..|rows|] == rows;
    intakes := SortByTime(pushed);
  }
}
