/**
 * The editing session: the intake rows, the start date, the half-life
 * selector and the counter that numbers new rows, with the operations that
 * change them and re-run the date sequencer.
 */
module Calculator {
  import opened Wrappers
  import opened Clock
  import opened Intakes
  import opened Sequencer
  import opened Sampler

  /** A freshly created row: no date yet, the given time, filtered coffee, small mug. */
  function NewRow(id: int, time: int): Row {
    Row(id, None, Some(time), Preset(DefaultDrink), Preset(DefaultAmount))
  }

  /** The time field of the last row, if there is a last row. */
  function LastRowTime(rows: seq<Row>): Option<int> {
    if |rows| == 0 then None else rows[|rows| - 1].time
  }

  class CaffeineCalculator {
    var intakeCounter: nat
    var startDate: Option<int>
    var halfLife: HalfLifeSetting
    var rows: seq<Row>

    ghost predicate Valid()
      reads this
    {
      AllWellFormed(rows)
    }

    /**
     * A session over the rows the page starts with: the counter starts at 1,
     * an empty start date becomes today, and the rows are re-anchored to it.
     */
    constructor (pageStartDate: Option<int>, today: int, pageRows: seq<Row>, pageHalfLife: HalfLifeSetting)
      requires AllWellFormed(pageRows)
      requires ReanchorDefined(pageRows, Some(if pageStartDate.Some? then pageStartDate.value else today))
      ensures Valid()
      ensures intakeCounter == 1 && halfLife == pageHalfLife
      ensures startDate == Some(if pageStartDate.Some? then pageStartDate.value else today)
      ensures rows == Reanchor(pageRows, startDate)
    {
      intakeCounter := 1;
      startDate := if pageStartDate.Some? then pageStartDate else Some(today);
      halfLife := pageHalfLife;
      rows := pageRows;
      new;
      UpdateIntakeDates();
    }

    /** Infers each row's day from the clock times in row order. */
    method UpdateSequentialDates()
      requires Valid()
      modifies this
      ensures Valid()
      ensures rows == SequentialDates(old(rows), startDate)
      ensures startDate == old(startDate) && halfLife == old(halfLife) && intakeCounter == old(intakeCounter)
    {
      if |rows| <= 1 {
        return;
      }
      if startDate.None? {
        return;
      }
      var start := startDate.value;
      var original := rows;
      var dated := original[0 := original[0].(date := startDate)];
      var currentDate := start;
      var previousTime := original[0].time;
      var index := 1;
      while index < |dated|
        invariant unchanged(this)
        invariant |dated| == |original| && 1 <= index <= |dated|
        invariant Walk(currentDate, previousTime) == WalkAfter(original, start, index)
        invariant dated[0] == original[0].(date := Some(start))
        invariant forall k {:trigger dated[k]} :: 1 <= k < index ==> dated[k] == Redate(original[k], WalkAfter(original, start, k))
        invariant forall k :: index <= k < |dated| ==> dated[k] == original[k]
      {
        ghost var before := dated;
        ghost var w := WalkAfter(original, start, index);
        WalkStep(original, start, index);
        var row := dated[index];
        if row.time.Some? && previousTime.Some? {
          var currentTimeMinutes := row.time.value;
          if currentTimeMinutes <= previousTime.value {
            currentDate := currentDate + 1;
          }
          dated := dated[index := row.(date := Some(currentDate))];
          previousTime := Some(currentTimeMinutes);
        }
        assert dated[index] == Redate(original[index], w);
        assert forall k :: 0 <= k < |dated| && k != index ==> dated[k] == before[k];
        index := index + 1;
      }
      SequentialDatesByRows(original, start, dated);
      rows := dated;
    }

    /**
     * Moves the rows to the start date: first-time initialisation for a lone
     * or undated first row, otherwise every row keeps its offset from row 0,
     * all offsets being read before any date is written.
     */
    method UpdateIntakeDates()
      requires Valid() && ReanchorDefined(rows, startDate)
      modifies this
      ensures Valid()
      ensures rows == Reanchor(old(rows), old(startDate))
      ensures startDate == old(startDate) && halfLife == old(halfLife) && intakeCounter == old(intakeCounter)
    {
      ReanchorFrame(rows, startDate);
      if startDate.None? {
        return;
      }
      if |rows| == 0 {
        return;
      }
      if |rows| == 1 || rows[0].date.None? {
        rows := rows[0 := rows[0].(date := startDate)];
        UpdateSequentialDates();
        return;
      }
      ghost var original := rows;
      var first := rows[0];
      var originalFirstDateTime := DateTime(first.date.value, first.time.value);
      var intakeOffsets: seq<int> := [];
      for i := 0 to |rows|
        invariant rows == original
        invariant |intakeOffsets| == i
        invariant forall k :: 0 <= k < i ==> intakeOffsets[k] == Offset(original, k)
      {
        var row := rows[i];
        if row.date.Some? && row.time.Some? {
          intakeOffsets := intakeOffsets + [DateTime(row.date.value, row.time.value) - originalFirstDateTime];
        } else {
          intakeOffsets := intakeOffsets + [0];
        }
      }
      var newStart := DateTime(startDate.value, first.time.value);
      for i := 0 to |rows|
        invariant |rows| == |original|
        invariant startDate == old(startDate) && halfLife == old(halfLife) && intakeCounter == old(intakeCounter)
        invariant forall k :: 0 <= k < i ==> rows[k] == original[k].(date := Some(DayOf(newStart + intakeOffsets[k])))
        invariant forall k :: i <= k < |rows| ==> rows[k] == original[k]
      {
        rows := rows[i := rows[i].(date := Some(DayOf(newStart + intakeOffsets[i])))];
      }
    }

    /** Appends a row one hour after the last row's time (08:00 by default), numbered by the counter. */
    method AddIntakeRow()
      requires Valid()
      modifies this
      ensures Valid()
      ensures rows == SequentialDates(old(rows) + [NewRow(old(intakeCounter), NextTime(LastRowTime(old(rows))))], startDate)
      ensures intakeCounter == old(intakeCounter) + 1
      ensures startDate == old(startDate) && halfLife == old(halfLife)
    {
      var newTime := DefaultTime;
      if |rows| > 0 {
        var lastRow := rows[|rows| - 1];
        if lastRow.time.Some? {
          newTime := HourLater(lastRow.time.value);
        }
      }
      rows := rows + [NewRow(intakeCounter, newTime)];
      intakeCounter := intakeCounter + 1;
      UpdateSequentialDates();
    }

    /**
     * Inserts a copy of row k just after it, one hour later, with no date.
     * A row without a time cannot be copied: nothing changes and `ok` is false.
     */
    method DuplicateIntake(k: nat) returns (ok: bool)
      requires Valid() && k < |rows|
      modifies this
      ensures Valid()
      ensures ok == old(rows)[k].time.Some?
      ensures !ok ==> rows == old(rows) && intakeCounter == old(intakeCounter)
      ensures ok ==>
        var source := old(rows)[k];
        var copy := Row(old(intakeCounter), None, Some(HourLater(source.time.value)), source.drink, source.amount);
        rows == SequentialDates(old(rows)[..k + 1] + [copy] + old(rows)[k + 1..], startDate)
        && intakeCounter == old(intakeCounter) + 1
      ensures startDate == old(startDate) && halfLife == old(halfLife)
    {
      var sourceRow := rows[k];
      if sourceRow.time.None? {
        return false;
      }
      var newTime := HourLater(sourceRow.time.value);
      var newRow := Row(intakeCounter, None, Some(newTime), sourceRow.drink, sourceRow.amount);
      rows := rows[..k + 1] + [newRow] + rows[k + 1..];
      intakeCounter := intakeCounter + 1;
      UpdateSequentialDates();
      ok := true;
    }

    /** Deletes row k; the other rows keep their fields. The last row cannot be removed (its button is hidden). */
    method RemoveIntake(k: nat)
      requires Valid() && k < |rows| && |rows| >= 2
      modifies this
      ensures Valid()
      ensures rows == old(rows)[..k] + old(rows)[k + 1..]
      ensures startDate == old(startDate) && halfLife == old(halfLife) && intakeCounter == old(intakeCounter)
    {
      rows := rows[..k] + rows[k + 1..];
    }

    /**
     * Once confirmed, resets to one default row at 08:00 with id 0, the
     * counter to 1 and the half-life to the 5-hour preset, then re-anchors.
     */
    method ClearAll(confirmed: bool)
      requires Valid()
      modifies this
      ensures Valid()
      ensures !confirmed ==> rows == old(rows) && intakeCounter == old(intakeCounter) && halfLife == old(halfLife)
      ensures confirmed ==>
        rows == Reanchor([NewRow(0, DefaultTime)], startDate)
        && intakeCounter == 1 && halfLife == PresetRate(DefaultHalfLife)
      ensures startDate == old(startDate)
    {
      if confirmed {
        rows := [NewRow(0, DefaultTime)];
        intakeCounter := 1;
        halfLife := PresetRate(DefaultHalfLife);
        UpdateIntakeDates();
      }
    }

    /** A new start date re-anchors the rows. */
    method SetStartDate(date: Option<int>)
      requires Valid() && ReanchorDefined(rows, date)
      modifies this
      ensures Valid()
      ensures startDate == date && rows == Reanchor(old(rows), date)
      ensures halfLife == old(halfLife) && intakeCounter == old(intakeCounter)
    {
      startDate := date;
      UpdateIntakeDates();
    }

    /** Editing a time field re-runs the day-rollover inference. */
    method SetTime(k: nat, time: Option<int>)
      requires Valid() && k < |rows|
      requires time.Some? ==> IsMinuteOfDay(time.value)
      modifies this
      ensures Valid()
      ensures rows == SequentialDates(old(rows)[k := old(rows)[k].(time := time)], startDate)
      ensures startDate == old(startDate) && halfLife == old(halfLife) && intakeCounter == old(intakeCounter)
    {
      rows := rows[k := rows[k].(time := time)];
      UpdateSequentialDates();
    }

    /** Editing a date field changes that field alone. */
    method SetDate(k: nat, date: Option<int>)
      requires Valid() && k < |rows|
      modifies this
      ensures Valid()
      ensures rows == old(rows)[k := old(rows)[k].(date := date)]
      ensures startDate == old(startDate) && halfLife == old(halfLife) && intakeCounter == old(intakeCounter)
    {
      rows := rows[k := rows[k].(date := date)];
    }
  }
}
