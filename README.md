# Caffeine calculator timeline engine, in Dafny

This project models the timeline engine of the caffeine calculator web page
(`script.js`, class `CaffeineCalculator`) and the Python prototype it grew
from (`caffeine_calculator.py`), and proves properties of the model.

The user keeps a table of intake rows. Each row has an optional date, an
optional clock time, a drink (a preset or a custom concentration in
mg/100 ml) and an amount (a preset or a custom volume in ml). From these
rows the page does four things:

- it infers the days of later rows from the order of their clock times
  (day rollover);
- it re-anchors every row when the start date changes;
- it extracts the dated, timed intakes with positive mass, sorted by time;
- it samples the summed, decayed level every 15 minutes, from the first
  intake to 15 hours after the last, and finds the sample nearest the pointer.

Time is an integer number of minutes, `day * 1440 + minuteOfDay`, with day
numbers for dates, in one idealised time zone. Exponential decay is
floating point, so it is kept opaque: a decay factor `(halfLife, hours) -> real`
is a parameter everywhere. Only the guard, the summation, the grid and the
bookkeeping around the decay are verified.

Modules, one per file:

- `Wrappers`: `Option`.
- `Clock`:
  - minutes, days and hours;
  - the "one hour later" default time;
  - `HH:MM` text and its round trip;
  - the 12-hour chart label.
- `Decay`: the opaque decay factor and `Remaining`.
- `Intakes`:
  - rows and selections;
  - mass per row, with JavaScript `Math.round`;
  - eligibility, and the stable sort by datetime;
  - `GetIntakeData`.
- `Sequencer`: day-rollover inference (`SequentialDates`) and re-anchoring
  (`Reanchor`) as specification functions, with their properties.
- `Sampler`:
  - the level at a time (`Level`) and its loop;
  - the 15-minute grid loop;
  - the half-life choice;
  - the chart series.
- `Nearest`: the d3 left bisection from index 1 and the neighbour choice.
- `Prototype`:
  - `parse_time`;
  - the offset dictionary, an insertion-ordered list in which a repeated key keeps its place and takes the new dose;
  - the `int()`-truncated grid;
  - the nested summation loops.
- `Calculator`: the `CaffeineCalculator` class. Its fields are `rows`,
  `startDate`, `halfLife` and `intakeCounter`. Each method updates them in
  place and is proved against the specification functions above.

## Model

| member | source | states |
|---|---|---|
| Calculator.CaffeineCalculator.constructor | script.js:2-21 | the counter starts at 1, an empty start date becomes today, and the initial rows are re-anchored to it |
| Calculator.CaffeineCalculator.UpdateSequentialDates | script.js:81-118 | the in-place walk leaves exactly `SequentialDates(old rows, startDate)` and keeps every other field; time fields stay in range |
| Calculator.CaffeineCalculator.UpdateIntakeDates | script.js:23-79 | offsets are read in a first loop and dates written in a second; the result is exactly `Reanchor(old rows, startDate)` |
| Calculator.CaffeineCalculator.AddIntakeRow | script.js:171-244 | appends an undated row numbered by the counter, at one hour after the last row's time (08:00 when there is none, filtered coffee, small mug), increments the counter, then re-runs the rollover |
| Calculator.CaffeineCalculator.DuplicateIntake | script.js:540-629 | a timed row is copied right after itself one hour later, undated, with its drink and amount, under the next counter value, then the rollover runs; an untimed row changes nothing |
| Calculator.CaffeineCalculator.RemoveIntake | script.js:524-529 | removes exactly row k, only when more than one row is left, without re-dating |
| Calculator.CaffeineCalculator.ClearAll | script.js:246-311 | when confirmed: one default 08:00 row with id 0, counter 1, the 5-hour preset, then re-anchoring; otherwise nothing changes |
| Calculator.CaffeineCalculator.SetStartDate | script.js:144-149 | a new start date re-anchors the rows |
| Calculator.CaffeineCalculator.SetTime | script.js:501-505 | editing a time re-runs the rollover over the edited rows |
| Calculator.CaffeineCalculator.SetDate | script.js:509-512 | editing a date changes that field only |
| Sequencer.SequentialDatesFrame | script.js:81-86 | only date fields change; with no start date or at most one row nothing changes; otherwise row 0 gets the start date |
| Sequencer.RolloverRule | script.js:104-116 | when row 0 is timed: a timed row whose previous timed row is j gets row j's day, plus one exactly when its minute of the day is not later (`<=`) |
| Sequencer.DaysNonDecreasing | script.js:88-117 | when row 0 is timed, the days given to timed rows never decrease in row order |
| Sequencer.UntimedRowsKeepDates | script.js:98-105 | an untimed later row keeps its date, and when row 0 is untimed no later row is re-dated |
| Sequencer.AssignedDay | script.js:104-115 | each timed row's date is the walk's day right after it |
| Sequencer.WalkTracksLastTimed | script.js:93-115 | the walk's previous time is the last timed row's, and its day is the day that row got |
| Sequencer.AppendKeepsEarlierDates | script.js:81-118 | rows added at the end never change the dates inferred for the rows before them |
| Sequencer.SequentialExample | script.js:104-116 | rows at 09:00, 14:00 and 08:00 land on the start day, the start day and the next day |
| Sequencer.ReanchorGuards | script.js:24-38 | no start date or no rows: no change; one row or an undated row 0: row 0 takes the start date and the rollover decides the rest |
| Sequencer.ReanchorFrame | script.js:66-78 | re-anchoring writes date fields only |
| Sequencer.ReanchorShift | script.js:41-78 | with row 0 dated and timed, each dated and timed row moves by the number of days between the old and new start; every other row lands on the new start date |
| Sequencer.ReanchorKeepsOffsets | script.js:41-78 | the gap between any two fully specified rows is unchanged |
| Sequencer.ReanchorExample | script.js:41-78 | rows at D0 09:00 and D0 14:00 re-anchored to D1 sit at D1 09:00 and D1 14:00 |
| Intakes.Round | script.js:662 | `Math.round`: the nearest integer, with halves rounded up |
| Intakes.RoundUnique | script.js:662 | that integer is unique |
| Intakes.MassFromFields | script.js:646-662 | a parsed custom concentration or volume gives the same mass as a preset of that value, and an unparseable custom field makes the mass 0 |
| Intakes.DefaultRowMass | script.js:209-221 | the default row (40 mg/100 ml, 200 ml) weighs 80 mg |
| Intakes.EligibleExactly | script.js:672-689 | the extracted intakes are exactly the rows with a date, a time and positive mass |
| Intakes.InsertByTimeSorted | script.js:691 | inserting into a sorted list keeps it sorted |
| Intakes.SortByTime | script.js:691 | the sort's output is ascending by datetime and a permutation of its input |
| Intakes.GetIntakeData | script.js:668-692 | the push loop plus the sort give a sorted permutation of exactly the eligible rows |
| Decay.RemainingAtZero | script.js:702 | a factor that is 1 at zero hours leaves the whole dose |
| Decay.RemainingNonNegative | script.js:702 | a non-negative dose and factor leave a non-negative amount |
| Sampler.Started | script.js:699-703 | the intakes already taken at the target are exactly those with a time difference of 0 or more |
| Sampler.LevelOverStarted | script.js:694-707 | the level is the total remaining of exactly the intakes already taken |
| Sampler.LevelAppend | script.js:699-704 | superposition: two groups' level is the sum of their levels |
| Sampler.LevelIgnoresLater | script.js:700-703 | intakes after the target add nothing |
| Sampler.LevelPermutation | script.js:694-707 | the level does not depend on intake order |
| Sampler.LevelNonNegative | script.js:694-707 | positive masses and a non-negative factor give a non-negative level |
| Sampler.CalculateCaffeineLevel | script.js:694-707 | the accumulation loop returns `Level` |
| Sampler.EarliestTime | script.js:712 | a minimum over the intake times that is one of them |
| Sampler.LatestTime | script.js:713 | a maximum over the intake times that is one of them |
| Sampler.ExtremesPermutation | script.js:712-713 | the extremes depend only on which intakes there are |
| Sampler.GenerateTimePoints | script.js:709-726 | empty for no intakes; otherwise, with start the earliest intake and end the latest plus 15 hours: ⌊(end − start)/15⌋ + 1 points, point k at start + 15k, the last at most end and less than 15 minutes before it |
| Sampler.GridSpansIntakes | script.js:709-726 | the grid starts no later than any intake and covers every intake's 15-hour horizon to within one step |
| Sampler.ResolveHalfLifeCases | script.js:757-762 | a preset is used as it is; a custom value that is unparseable or 0 becomes 5 hours; a negative custom value is kept |
| Sampler.UpdateChart | script.js:752-776 | no samples exactly when there are no eligible intakes; otherwise one sample per grid point, in grid order, each holding the level there |
| Nearest.Distance | script.js:942 | the absolute difference between query and sample time |
| Nearest.BisectLeft | script.js:933-934 | the first index at or after `lo` whose time is not before the query |
| Nearest.SeriesStrictlyAscending | script.js:709-726 | a chart series lies on the 15-minute grid, so its sample times strictly increase |
| Nearest.NearestSample | script.js:928-945 | none for an empty series; otherwise a sample no farther than any other, ties going to the later sample; queries before the first or after the last sample pick that sample |
| Clock.DayOf | script.js:76 | the day number of a datetime, floor division by 1440 |
| Clock.MinuteOf | script.js:76 | the minute of the day, which together with the day gives back the datetime |
| Clock.DayOfDateTime | script.js:63-76 | reading the day of `day * 1440 + minute` gives back the day |
| Clock.HourLater | script.js:185-187 | one hour later modulo 24 hours, minutes kept |
| Clock.NextTime | script.js:179-188 | the new row's time: 08:00 without a previous time, otherwise one hour after it modulo 24 |
| Clock.NatToStringRoundTrip | script.js:187 | decimal digits read back as the number |
| Clock.Pad2 | script.js:187 | the two-digit zero padding reads back as the number |
| Clock.TimeStringRoundTrip | script.js:554-556 | the `HH:MM` text of a minute of the day parses back to it |
| Clock.ClockHour12 | script.js:734-747 | 0 gives 12 AM, 1-11 AM, 12 PM, 13-23 minus 12 PM; the hour is in 1..12 |
| Clock.ClockHour12RoundTrip | script.js:734-747 | the 12-hour reading names the hour it came from |
| Clock.ClockHour12Inverse | script.js:734-747 | every reading with an hour in 1..12 labels exactly one hour of the day |
| Clock.FormatDateTime | script.js:728-750 | the label is `month/day h` with h the hour of the day modulo 12, where 0 reads as 12, followed by AM before noon and PM from noon on |
| Clock.FormatDateTimeHour | script.js:728-750 | the label's hour text is digits naming 1..12, and with the period it gives back the instant's hour |
| Prototype.CaffeineAmountAtZero | caffeine_calculator.py:4-22 | with a factor that is 1 at zero hours, nothing has decayed after zero hours |
| Prototype.ParseTime | caffeine_calculator.py:33-39 | the offset is `(hour − reference) mod 24`, in 0..23 |
| Prototype.ParseTimeRollover | caffeine_calculator.py:37-39 | the reference maps to 0; an earlier hour rolls to the next day |
| Prototype.ParseTimeInjective | caffeine_calculator.py:33-39 | distinct clock hours give distinct offsets |
| Prototype.Put | caffeine_calculator.py:54 | the key set grows by the key; a new key is appended; distinct keys stay distinct; the first key stays first |
| Prototype.PutExisting | caffeine_calculator.py:54 | on a key already present every item keeps its place and only that key's dose is replaced |
| Prototype.OffsetIntakes | caffeine_calculator.py:51-54 | the dictionary has distinct keys in 0..23, and no more entries than intakes |
| Prototype.OffsetIntakesKeys | caffeine_calculator.py:51-54 | the dictionary's keys are exactly the parsed offsets of the intakes |
| Prototype.OffsetIntakesOnePerIntake | caffeine_calculator.py:51-54 | distinct clock hours give one entry per intake, in input order |
| Prototype.FirstOffsetZero | caffeine_calculator.py:51-54 | the first intake's offset is 0 |
| Prototype.MaxOffset | caffeine_calculator.py:57 | the largest offset, which is one of them |
| Prototype.Trunc | caffeine_calculator.py:58 | Python's `int()` on a float truncates toward zero |
| Prototype.TimeGridShape | caffeine_calculator.py:57-58 | the grid starts at 0, rises by `step` and never passes the total; one more step would |
| Prototype.Taken | caffeine_calculator.py:66 | the doses already taken at `t` are exactly those with an offset of at most `t` |
| Prototype.LevelAtOverTaken | caffeine_calculator.py:63-68 | the level is the plain sum of every dose taken by then, each decayed from its own offset; later doses add nothing |
| Prototype.SimulationStartsAtFirstDose | caffeine_calculator.py:51-68 | at hour 0 the level is the dose stored under the first key (the last intake at the first intake's hour); when the clock hours are distinct, it is the first intake's dose |
| Prototype.RepeatedHourExample | caffeine_calculator.py:51-54 | `8AM: 100, 9AM: 50, 08AM: 70` gives the items `0: 70, 1: 50`, and the level at hour 0 is 70 |
| Prototype.CaffeineSimulation | caffeine_calculator.py:41-68 | times is the grid up to 12 hours after the largest offset, and levels has one entry per time, the level there |
| Prototype.LevelAtTime | caffeine_calculator.py:64-68 | the inner loop returns the level at `t` |

## Left out

- The HTML rows, listeners, templates, confirmation dialog, storage (saving,
  loading, restoring) and rendering, on the page and in matplotlib. These are
  I/O. `ClearAll` takes the dialog's answer as a parameter.
- Floating-point decay (`Math.exp`, `math.exp`, the logarithm). The decay factor is an opaque
  parameter, and nothing is claimed about half a dose remaining after one half-life.
- Intakes.Mass, Sampler.Level, Sampler.UpdateChart and Prototype.TimeGrid use
  exact real arithmetic where the source uses IEEE doubles. The results can
  differ: for a custom 14.5 mg/100 ml and 100 ml the page computes
  14.5 / 100 * 100 = 14.499999999999998 and shows 14 mg, and `Intakes.Mass`
  gives 15. `Sampler.LevelPermutation` holds only exactly, since double
  addition depends on order. `int(total_duration / step)` can also come out
  one lower in doubles for a step that is not a binary fraction.
- JavaScript `Date` time zones and daylight saving: one idealised zone is
  used, with whole days of 1440 minutes.
- Clock.FormatDateTime: the calendar month and day of the month are
  caller-supplied. The day-number-to-calendar conversion is not modelled.
- Text parsing (`parseFloat`, `parseInt`, `split`, `strptime`). Parsed values
  are the model's input as optional numbers and hours 0..23. `Clock.TimeString`
  and `ParseTimeString` cover only the `HH:MM` form.
- Sequencer.Reanchor: it requires row 0 to be timed when it is dated and there
  are at least two rows, because there the page computes an invalid date and
  the date conversion throws.
- Calculator.CaffeineCalculator.SetStartDate, Calculator.CaffeineCalculator.UpdateIntakeDates and the
  constructor carry that same requirement.
- Intakes.SortByTime: the sort is modelled as a stable insertion sort. Its
  stability for equal datetimes is not stated, since the engine's sort only
  has to be consistent.
- Intakes.Selection: a custom value hidden behind a preset selection is not
  kept. Only the value in effect is modelled.
- Selecting a drink, amount or half-life preset is not a method. It is a new
  `Selection` or `HalfLifeSetting` value, and `ResolveHalfLife` reads it.
  The list of half-life presets lives in the HTML page, which is not part of
  this model.
- Prototype.LevelAtTime is the nested loop of the simulation, taken out as its own method.
- Prototype.CaffeineSimulation, Prototype.CaffeineAmount and Prototype.LevelAt require a
  non-zero half-life, and Prototype.CaffeineSimulation a non-zero step, because the
  source divides by both and the `ZeroDivisionError` is not modelled. Prototype.CaffeineSimulation
  also requires at least one
  intake: on an empty dictionary the source's lookup of the first key raises
  `IndexError`, and that error path is not modelled. The defaults
  `half_life=5` and `step=0.25` are not modelled as defaults; both are
  always passed.
- `updateRemoveButtons` is modelled only as the requirement that
  `RemoveIntake` leaves at least one row.
- The chart's mouse coordinates: `Nearest.NearestSample` takes the already
  inverted pointer time.
