/**
 * The date sequencer. Day-rollover inference walks the rows in row order and
 * moves a timed row to the next day whenever its clock time does not advance
 * past the last timed row's; re-anchoring moves every row to a new start
 * date while keeping each row's offset from the first row.
 */
module Sequencer {
  import opened Wrappers
  import opened Clock
  import opened Intakes

  // ---------------------------------------------------------------------------
  // Day-rollover inference

  /** The walk's running state: the current day and the last timed row's minute of the day. */
  datatype Walk = Walk(day: int, previous: Option<int>)

  /** The walk over one later row: a timed row after a timed row advances the day when its time does not increase. */
  function Step(r: Row, w: Walk): Walk {
    if r.time.Some? && w.previous.Some? then
      Walk(if r.time.value <= w.previous.value then w.day + 1 else w.day, r.time)
    else w
  }

  /** The walk's state after the first k rows (row 0 starts it at the start date). */
  function WalkAfter(rows: seq<Row>, start: int, k: nat): Walk
    requires 1 <= k <= |rows|
  {
    if k == 1 then Walk(start, rows[0].time) else Step(rows[k - 1], WalkAfter(rows, start, k - 1))
  }

  /** A later row as the walk leaves it: re-dated when it and some earlier row are timed. */
  function Redate(r: Row, w: Walk): Row {
    if r.time.Some? && w.previous.Some? then r.(date := Some(Step(r, w).day)) else r
  }

  /** Row k as the walk from `start` leaves it: row 0 takes the start date, later rows are re-dated. */
  function DatedRow(rows: seq<Row>, start: int, k: nat): Row
    requires k < |rows|
  {
    if k == 0 then rows[0].(date := Some(start)) else Redate(rows[k], WalkAfter(rows, start, k))
  }

  /** The rows after the rollover walk from `startDate`. */
  function SequentialDates(rows: seq<Row>, startDate: Option<int>): seq<Row> {
    if |rows| <= 1 || startDate.None? then rows
    else seq(|rows|, k requires 0 <= k < |rows| => DatedRow(rows, startDate.value, k))
  }

  /** Only date fields change; with no start date or at most one row nothing changes. */
  lemma SequentialDatesFrame(rows: seq<Row>, startDate: Option<int>)
    ensures var out := SequentialDates(rows, startDate);
      |out| == |rows|
      && (forall k :: 0 <= k < |rows| ==> out[k] == rows[k].(date := out[k].date))
      && (|rows| <= 1 || startDate.None? ==> out == rows)
      && (|rows| >= 2 && startDate.Some? ==> out[0].date == startDate)
  {
  }

  /** One more row advances the walk by one step. */
  lemma WalkStep(rows: seq<Row>, start: int, k: nat)
    requires 1 <= k < |rows|
    ensures WalkAfter(rows, start, k + 1) == Step(rows[k], WalkAfter(rows, start, k))
  {
  }

  /** Row 0 takes the start date and each later row is re-dated by the walk over the rows before it. */
  predicate Walked(rows: seq<Row>, start: int, out: seq<Row>)
    requires |rows| >= 1
  {
    && |out| == |rows|
    && out[0] == rows[0].(date := Some(start))
    && forall k {:trigger out[k]} :: 1 <= k < |rows| ==> out[k] == Redate(rows[k], WalkAfter(rows, start, k))
  }

  /** Walking the rows is the rollover inference: it only writes dates, and time fields stay in range. */
  lemma SequentialDatesByRows(rows: seq<Row>, start: int, out: seq<Row>)
    requires |rows| >= 2 && Walked(rows, start, out)
    ensures out == SequentialDates(rows, Some(start))
    ensures AllWellFormed(rows) ==> AllWellFormed(out)
  {
    forall k | 0 <= k < |rows| ensures out[k] == rows[k].(date := out[k].date) {
    }
  }

  /** The last timed row before row k. */
  function LastTimed(rows: seq<Row>, k: nat): (j: nat)
    requires 1 <= k <= |rows| && rows[0].time.Some?
    ensures j < k && rows[j].time.Some?
    ensures forall m :: j < m < k ==> rows[m].time.None?
  {
    if rows[k - 1].time.Some? then k - 1 else LastTimed(rows, k - 1)
  }

  /** The walk's clock time is the last timed row's, and its day is the day that row was given. */
  lemma {:induction false} WalkTracksLastTimed(rows: seq<Row>, start: int, k: nat)
    requires 1 <= k <= |rows| && rows[0].time.Some?
    ensures var j := LastTimed(rows, k);
      WalkAfter(rows, start, k).previous == rows[j].time
      && WalkAfter(rows, start, k).day == WalkAfter(rows, start, j + 1).day
  {
    if k > 1 {
      WalkTracksLastTimed(rows, start, k - 1);
    }
  }

  lemma {:induction false} WalkDayMonotone(rows: seq<Row>, start: int, i: nat, k: nat)
    requires 1 <= i <= k <= |rows|
    ensures WalkAfter(rows, start, i).day <= WalkAfter(rows, start, k).day
  {
    if i < k {
      WalkDayMonotone(rows, start, i, k - 1);
    }
  }

  lemma {:induction false} WalkStaysUntimed(rows: seq<Row>, start: int, k: nat)
    requires 1 <= k <= |rows| && rows[0].time.None?
    ensures WalkAfter(rows, start, k) == Walk(start, None)
  {
    if k > 1 {
      WalkStaysUntimed(rows, start, k - 1);
    }
  }

  /** When row 0 is timed, each timed row's date is the walk's day just after it. */
  lemma AssignedDay(rows: seq<Row>, start: int, j: nat)
    requires |rows| >= 2 && j < |rows| && rows[0].time.Some? && rows[j].time.Some?
    ensures SequentialDates(rows, Some(start))[j].date == Some(WalkAfter(rows, start, j + 1).day)
  {
    if j > 0 {
      WalkTracksLastTimed(rows, start, j);
    }
  }

  /**
   * The rollover rule: a timed row whose previous timed row is row j gets
   * row j's day, plus one when its minute of the day is not later than row j's.
   */
  lemma RolloverRule(rows: seq<Row>, start: int, j: nat, k: nat)
    requires |rows| >= 2 && j < k < |rows|
    requires rows[0].time.Some? && rows[j].time.Some? && rows[k].time.Some?
    requires forall m :: j < m < k ==> rows[m].time.None?
    ensures var out := SequentialDates(rows, Some(start));
      out[j].date.Some?
      && out[k].date == Some(out[j].date.value + (if rows[k].time.value <= rows[j].time.value then 1 else 0))
  {
    var last := LastTimed(rows, k);
    assert last == j;
    WalkTracksLastTimed(rows, start, k);
    AssignedDay(rows, start, j);
    AssignedDay(rows, start, k);
  }

  /** The inferred days never decrease in row order among timed rows. */
  lemma DaysNonDecreasing(rows: seq<Row>, start: int, j: nat, k: nat)
    requires |rows| >= 2 && j < k < |rows|
    requires rows[0].time.Some? && rows[j].time.Some? && rows[k].time.Some?
    ensures var out := SequentialDates(rows, Some(start));
      out[j].date.Some? && out[k].date.Some? && out[j].date.value <= out[k].date.value
  {
    var out := SequentialDates(rows, Some(start));
    var dj, dk := WalkAfter(rows, start, j + 1).day, WalkAfter(rows, start, k + 1).day;
    WalkDayMonotone(rows, start, j + 1, k + 1);
    AssignedDay(rows, start, j);
    assert out[j].date == Some(dj);
    AssignedDay(rows, start, k);
    assert out[k].date == Some(dk);
  }

  /** Untimed later rows keep their date; if row 0 is untimed, no later row is re-dated. */
  lemma UntimedRowsKeepDates(rows: seq<Row>, start: int, k: nat)
    requires |rows| >= 2 && 1 <= k < |rows|
    requires rows[k].time.None? || rows[0].time.None?
    ensures SequentialDates(rows, Some(start))[k] == rows[k]
  {
    if rows[0].time.None? {
      WalkStaysUntimed(rows, start, k);
    }
  }

  /** Rows timed 09:00, 14:00, 08:00 are placed on days 0, 0 and 1 after the start date. */
  lemma SequentialExample(start: int, a: Row, b: Row, c: Row)
    requires a.time == Some(9 * 60) && b.time == Some(14 * 60) && c.time == Some(8 * 60)
    ensures var out := SequentialDates([a, b, c], Some(start));
      out[0].date == Some(start) && out[1].date == Some(start) && out[2].date == Some(start + 1)
  {
    var rows := [a, b, c];
    assert WalkAfter(rows, start, 2) == Walk(start, Some(14 * 60));
  }

  lemma {:induction false} WalkAfterPrefix(rows: seq<Row>, more: seq<Row>, start: int, k: nat)
    requires 1 <= k <= |rows|
    ensures WalkAfter(rows + more, start, k) == WalkAfter(rows, start, k)
  {
    if k > 1 {
      WalkAfterPrefix(rows, more, start, k - 1);
      assert (rows + more)[k - 1] == rows[k - 1];
    }
  }

  /**
   * Rows added at the end never re-date the earlier ones: once there are two
   * rows, the walk over a prefix does not look past it.
   */
  lemma AppendKeepsEarlierDates(rows: seq<Row>, more: seq<Row>, startDate: Option<int>)
    requires |rows| >= 2
    ensures SequentialDates(rows + more, startDate)[..|rows|] == SequentialDates(rows, startDate)
  {
    if startDate.Some? {
      forall k | 1 <= k < |rows|
        ensures SequentialDates(rows + more, startDate)[k] == SequentialDates(rows, startDate)[k]
      {
        WalkAfterPrefix(rows, more, startDate.value, k);
      }
    }
  }

  // ---------------------------------------------------------------------------
  // Re-anchoring

  predicate HasInstant(r: Row) {
    r.date.Some? && r.time.Some?
  }

  function Instant(r: Row): int
    requires HasInstant(r)
  {
    DateTime(r.date.value, r.time.value)
  }

  /**
   * Re-anchoring reads row 0's clock time once row 0 has a date; without one
   * the new datetime is not a number and writing it back fails.
   */
  predicate ReanchorDefined(rows: seq<Row>, startDate: Option<int>) {
    startDate.Some? && |rows| >= 2 && rows[0].date.Some? ==> rows[0].time.Some?
  }

  /** Row k's offset in minutes from row 0, taken from the rows before any is rewritten; 0 for a row without a date or time. */
  function Offset(rows: seq<Row>, k: nat): int
    requires k < |rows| && HasInstant(rows[0])
  {
    if HasInstant(rows[k]) then Instant(rows[k]) - Instant(rows[0]) else 0
  }

  /** The rows after the start date is set to `startDate`. */
  function Reanchor(rows: seq<Row>, startDate: Option<int>): seq<Row>
    requires ReanchorDefined(rows, startDate)
  {
    if startDate.None? || |rows| == 0 then rows
    else if |rows| == 1 || rows[0].date.None? then
      SequentialDates(rows[0 := rows[0].(date := startDate)], startDate)
    else
      var anchor := DateTime(startDate.value, rows[0].time.value);
      seq(|rows|, k requires 0 <= k < |rows| => rows[k].(date := Some(DayOf(anchor + Offset(rows, k)))))
  }

  /** With no start date or no rows nothing changes; a lone or undated row 0 just takes the start date before the rollover walk. */
  lemma ReanchorGuards(rows: seq<Row>, startDate: Option<int>)
    requires ReanchorDefined(rows, startDate)
    ensures startDate.None? || |rows| == 0 ==> Reanchor(rows, startDate) == rows
    ensures startDate.Some? && (|rows| == 1 || (|rows| >= 2 && rows[0].date.None?)) ==>
      var first := rows[0 := rows[0].(date := startDate)];
      Reanchor(rows, startDate) == SequentialDates(first, startDate)
      && Reanchor(rows, startDate)[0] == rows[0].(date := startDate)
  {
  }

  /** Re-anchoring only writes date fields. */
  lemma ReanchorFrame(rows: seq<Row>, startDate: Option<int>)
    requires ReanchorDefined(rows, startDate)
    ensures var out := Reanchor(rows, startDate);
      |out| == |rows| && forall k :: 0 <= k < |rows| ==> out[k] == rows[k].(date := out[k].date)
  {
    if startDate.Some? && (|rows| == 1 || (|rows| >= 2 && rows[0].date.None?)) {
      SequentialDatesFrame(rows[0 := rows[0].(date := startDate)], startDate);
    }
  }

  /**
   * Once row 0 has a date and a time, every fully specified row moves by
   * exactly the number of days between the old and the new start, every
   * other row lands on the new start date, and no time field changes.
   */
  lemma ReanchorShift(rows: seq<Row>, start: int)
    requires AllWellFormed(rows) && |rows| >= 2 && HasInstant(rows[0])
    ensures var out := Reanchor(rows, Some(start));
      |out| == |rows|
      && (forall k :: 0 <= k < |rows| ==> out[k] == rows[k].(date := out[k].date))
      && (forall k :: 0 <= k < |rows| && HasInstant(rows[k]) ==>
            out[k].date == Some(start + rows[k].date.value - rows[0].date.value))
      && (forall k :: 0 <= k < |rows| && !HasInstant(rows[k]) ==> out[k].date == Some(start))
  {
    var out := Reanchor(rows, Some(start));
    var d0, t0 := rows[0].date.value, rows[0].time.value;
    forall k | 0 <= k < |rows|
      ensures HasInstant(rows[k]) ==> out[k].date == Some(start + rows[k].date.value - d0)
      ensures !HasInstant(rows[k]) ==> out[k].date == Some(start)
    {
      var anchor := DateTime(start, t0);
      if HasInstant(rows[k]) {
        var tk := rows[k].time.value;
        assert WellFormed(rows[k]);
        assert anchor + Offset(rows, k) == DateTime(start + rows[k].date.value - d0, tk);
        DayOfDateTime(start + rows[k].date.value - d0, tk);
      } else {
        assert WellFormed(rows[0]);
        DayOfDateTime(start, t0);
      }
    }
  }

  /** Re-anchoring shifts every fully specified row by the same amount, so the gaps between them are kept. */
  lemma ReanchorKeepsOffsets(rows: seq<Row>, start: int, j: nat, k: nat)
    requires AllWellFormed(rows) && |rows| >= 2 && HasInstant(rows[0])
    requires j < |rows| && k < |rows| && HasInstant(rows[j]) && HasInstant(rows[k])
    ensures var out := Reanchor(rows, Some(start));
      HasInstant(out[j]) && HasInstant(out[k])
      && Instant(out[k]) == Instant(rows[k]) + (start - rows[0].date.value) * MinutesPerDay
      && Instant(out[k]) - Instant(out[j]) == Instant(rows[k]) - Instant(rows[j])
  {
    ReanchorShift(rows, start);
  }

  /** Rows at D0 09:00 and D0 14:00 re-anchored to D1 sit at D1 09:00 and D1 14:00. */
  lemma ReanchorExample(d0: int, d1: int, a: Row, b: Row)
    requires a.date == Some(d0) && a.time == Some(9 * 60)
    requires b.date == Some(d0) && b.time == Some(14 * 60)
    requires WellFormed(a) && WellFormed(b)
    ensures var out := Reanchor([a, b], Some(d1));
      out[0].date == Some(d1) && out[0].time == Some(9 * 60)
      && out[1].date == Some(d1) && out[1].time == Some(14 * 60)
  {
    ReanchorShift([a, b], d1);
  }
}
