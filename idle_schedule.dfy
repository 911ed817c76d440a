/**
 * The idle ambient timeline of the portfolio list (AnimationManager.startIdleAnimation).
 *
 * For R rows the timeline first holds, row by row, a pair of calls that hide and show the
 * row's counter marker, and then, column by column (artists, albums, categories, labels,
 * years), a fade-out tween for every row followed by a fade-in tween for every row.
 * Times are whole milliseconds: a column starts 250 ms after the previous one, rows are
 * 50 ms apart, and a cell is shown again R * 50 / 2 = 25 R ms after it was hidden.
 */
module IdleSchedule {

  const COLUMNS := 5              // artists, albums, categories, labels, years
  const COLUMN_START_DELAY := 250 // ms
  const ROW_DELAY := 50           // ms
  const TWEEN_DURATION := 100     // ms, every fade tween
  const REPEAT_DELAY := 2000      // ms, pause between two cycles
  const FADED := 5                // opacity 0.05, in hundredths
  const OPAQUE := 100             // opacity 1, in hundredths

  /** One entry of the timeline: a toggle of a row's `counter-hidden` class, or an opacity tween on one cell. */
  datatype Step =
    | CounterToggle(at: nat, row: nat, hidden: bool)
    | Fade(at: nat, column: nat, row: nat, opacity: nat)

  /** Time between hiding and showing the same cell: totalRows * rowDelay * 0.5. */
  function Gap(rows: nat): nat { rows * ROW_DELAY / 2 }

  function ColumnStart(column: nat): nat { (column + 1) * COLUMN_START_DELAY }

  function HideTime(column: nat, row: nat): nat { ColumnStart(column) + row * ROW_DELAY }

  function ShowTime(column: nat, row: nat, rows: nat): nat { ColumnStart(column) + Gap(rows) + row * ROW_DELAY }

  function CounterHideTime(row: nat): nat { row * ROW_DELAY }

  function CounterShowTime(row: nat, rows: nat): nat { Gap(rows) + row * ROW_DELAY }

  /** The counter calls for the first `n` rows, in the order they are added. */
  function CounterSteps(rows: nat, n: nat): (steps: seq<Step>)
    ensures |steps| == 2 * n
  {
    if n == 0 then []
    else CounterSteps(rows, n - 1)
         + [CounterToggle(CounterHideTime(n - 1), n - 1, true), CounterToggle(CounterShowTime(n - 1, rows), n - 1, false)]
  }

  /** The fade-out tweens of one column for its first `n` rows. */
  function HideSteps(column: nat, n: nat): (steps: seq<Step>)
    ensures |steps| == n
    ensures forall r :: 0 <= r < n ==> steps[r] == Fade(250 * (column + 1) + 50 * r, column, r, FADED)
  {
    seq(n, r requires 0 <= r => Fade(HideTime(column, r), column, r, FADED))
  }

  /** The fade-in tweens of one column for its first `n` rows. */
  function ShowSteps(column: nat, rows: nat, n: nat): (steps: seq<Step>)
    ensures |steps| == n
    ensures forall r :: 0 <= r < n ==> steps[r] == Fade(250 * (column + 1) + 25 * rows + 50 * r, column, r, OPAQUE)
  {
    seq(n, r requires 0 <= r => Fade(ShowTime(column, r, rows), column, r, OPAQUE))
  }

  /** The tweens of the first `m` columns: each column's hides, then its shows. */
  function ColumnSteps(rows: nat, m: nat): seq<Step>
  {
    if m == 0 then [] else ColumnSteps(rows, m - 1) + HideSteps(m - 1, rows) + ShowSteps(m - 1, rows, rows)
  }

  /** The column passes add only fade tweens, each on one of the first `m` columns and an existing row. */
  lemma {:induction false} ColumnStepsAreFades(rows: nat, m: nat)
    ensures forall k :: 0 <= k < |ColumnSteps(rows, m)| ==>
      ColumnSteps(rows, m)[k].Fade? && ColumnSteps(rows, m)[k].column < m && ColumnSteps(rows, m)[k].row < rows
  {
    if m > 0 {
      ColumnStepsAreFades(rows, m - 1);
    }
  }

  lemma {:induction false} ColumnStepsLength(rows: nat, m: nat)
    ensures |ColumnSteps(rows, m)| == 2 * rows * m
  {
    if m > 0 {
      ColumnStepsLength(rows, m - 1);
    }
  }

  /** The whole timeline built for `rows` items. */
  function IdleTimeline(rows: nat): (timeline: seq<Step>)
    ensures |timeline| == 12 * rows
  {
    ColumnStepsLength(rows, COLUMNS);
    CounterSteps(rows, rows) + ColumnSteps(rows, COLUMNS)
  }

  /** The instant a step is over: tweens last TWEEN_DURATION, calls are instantaneous. */
  function StepEnd(s: Step): nat
  {
    match s
    case CounterToggle(at, _, _) => at
    case Fade(at, _, _, _) => at + TWEEN_DURATION
  }

  /** The duration of a timeline: the latest instant at which one of its steps is over. */
  function End(steps: seq<Step>): nat
  {
    if steps == [] then 0
    else
      var rest := End(steps[..|steps| - 1]);
      var last := StepEnd(steps[|steps| - 1]);
      if rest < last then last else rest
  }

  /** Time from the start of one cycle of the repeating timeline to the start of the next. */
  function CyclePeriod(rows: nat): nat { End(IdleTimeline(rows)) + REPEAT_DELAY }

  /** A step sits where the closed-form schedule puts it. */
  predicate Scheduled(s: Step, rows: nat)
  {
    match s
    case CounterToggle(at, row, hidden) =>
      row < rows && at == (if hidden then row * 50 else 25 * rows + row * 50)
    case Fade(at, column, row, opacity) =>
      column < COLUMNS && row < rows && (opacity == FADED || opacity == OPAQUE)
      && at == (if opacity == FADED then 250 * (column + 1) + 50 * row
                else 250 * (column + 1) + 25 * rows + 50 * row)
  }

  /** Builds the timeline the way the source does: the counter calls row by row, then the columns one by one. */
  method BuildIdleTimeline(rows: nat) returns (timeline: seq<Step>)
    ensures timeline == IdleTimeline(rows)
  {
    timeline := [];
    var r := 0;
    while r < rows
      invariant r <= rows
      invariant timeline == CounterSteps(rows, r)
    {
      timeline := timeline + [CounterToggle(CounterHideTime(r), r, true), CounterToggle(CounterShowTime(r, rows), r, false)];
      r := r + 1;
    }
    var c := 0;
    while c < COLUMNS
      invariant c <= COLUMNS
      invariant timeline == CounterSteps(rows, rows) + ColumnSteps(rows, c)
    {
      timeline := AppendColumn(timeline, c, rows);
      c := c + 1;
    }
  }

  /** The body run for one column: its fade-out tweens row by row, then its fade-in tweens row by row. */
  method AppendColumn(timeline: seq<Step>, column: nat, rows: nat) returns (extended: seq<Step>)
    ensures extended == timeline + HideSteps(column, rows) + ShowSteps(column, rows, rows)
  {
    extended := timeline;
    var r := 0;
    while r < rows
      invariant r <= rows
      invariant extended == timeline + HideSteps(column, r)
    {
      extended := extended + [Fade(HideTime(column, r), column, r, FADED)];
      r := r + 1;
    }
    r := 0;
    while r < rows
      invariant r <= rows
      invariant extended == timeline + HideSteps(column, rows) + ShowSteps(column, rows, r)
    {
      extended := extended + [Fade(ShowTime(column, r, rows), column, r, OPAQUE)];
      r := r + 1;
    }
  }

  // ---------------------------------------------------------------------------
  // Where each step sits in the timeline
  // ---------------------------------------------------------------------------

  lemma {:induction false} CounterStepsAt(rows: nat, n: nat, r: nat)
    requires r < n
    ensures CounterSteps(rows, n)[2 * r] == CounterToggle(r * 50, r, true)
    ensures CounterSteps(rows, n)[2 * r + 1] == CounterToggle(25 * rows + r * 50, r, false)
  {
    if r < n - 1 {
      CounterStepsAt(rows, n - 1, r);
    }
  }

  /** Column c's tweens start right after those of the columns before it: its hides, then its shows. */
  lemma {:induction false} ColumnStepsAt(rows: nat, m: nat, c: nat, r: nat)
    requires c < m && r < rows
    ensures var before := |ColumnSteps(rows, c)|;
      && before + rows + r < |ColumnSteps(rows, m)|
      && ColumnSteps(rows, m)[before + r] == Fade(250 * (c + 1) + 50 * r, c, r, FADED)
      && ColumnSteps(rows, m)[before + rows + r] == Fade(250 * (c + 1) + 25 * rows + 50 * r, c, r, OPAQUE)
  {
    var all := ColumnSteps(rows, m);
    var earlier, hides, shows := ColumnSteps(rows, m - 1), HideSteps(m - 1, rows), ShowSteps(m - 1, rows, rows);
    assert all == earlier + hides + shows;
    var before := |ColumnSteps(rows, c)|;
    if c < m - 1 {
      ColumnStepsAt(rows, m - 1, c, r);
      assert all[before + r] == earlier[before + r];
      assert all[before + rows + r] == earlier[before + rows + r];
    } else {
      assert all[before + r] == hides[r];
      assert all[before + rows + r] == shows[r];
    }
  }

  /** Row r's counter marker is hidden at 50 r ms and shown again at 25 R + 50 r ms. */
  lemma CounterScheduleAt(rows: nat, r: nat)
    requires r < rows
    ensures IdleTimeline(rows)[2 * r] == CounterToggle(50 * r, r, true)
    ensures IdleTimeline(rows)[2 * r + 1] == CounterToggle(25 * rows + 50 * r, r, false)
  {
    var counters := CounterSteps(rows, rows);
    assert IdleTimeline(rows) == counters + ColumnSteps(rows, COLUMNS);
    CounterStepsAt(rows, rows, r);
  }

  /**
   * Where column c's tweens start in the timeline: after the 2 R counter calls and the
   * 2 R tweens of every column before it (counted by addition, one column at a time).
   */
  function ColumnOffset(rows: nat, c: nat): nat
  {
    if c == 0 then 2 * rows else ColumnOffset(rows, c - 1) + 2 * rows
  }

  /** The offset is the length of everything added to the timeline before column c. */
  lemma {:induction false} ColumnOffsetIsPrefix(rows: nat, c: nat)
    ensures ColumnOffset(rows, c) == |CounterSteps(rows, rows)| + |ColumnSteps(rows, c)|
  {
    if c > 0 {
      ColumnOffsetIsPrefix(rows, c - 1);
    }
  }

  /** Column c starts at index 2 R (c + 1). */
  lemma {:induction false} ColumnOffsetValue(rows: nat, c: nat)
    ensures ColumnOffset(rows, c) == 2 * rows * (c + 1)
  {
    if c > 0 {
      ColumnOffsetValue(rows, c - 1);
    }
  }

  /**
   * Cell (c, r) fades out at 250 (c + 1) + 50 r ms, at index ColumnOffset(rows, c) + r,
   * and back in exactly 25 R ms later, R places further on.
   */
  lemma CellScheduleAt(rows: nat, c: nat, r: nat)
    requires c < COLUMNS && r < rows
    ensures var i := ColumnOffset(rows, c);
      && i + rows + r < |IdleTimeline(rows)|
      && IdleTimeline(rows)[i + r] == Fade(250 * (c + 1) + 50 * r, c, r, FADED)
      && IdleTimeline(rows)[i + rows + r] == Fade(250 * (c + 1) + 50 * r + 25 * rows, c, r, OPAQUE)
  {
    var counters, columns := CounterSteps(rows, rows), ColumnSteps(rows, COLUMNS);
    var t := IdleTimeline(rows);
    assert t == counters + columns;
    ColumnStepsAt(rows, COLUMNS, c, r);
    ColumnOffsetIsPrefix(rows, c);
  }

  /** Within a column, each row fades out 50 ms after the row above it, and fades back in 50 ms after it too. */
  lemma RowsFollowEachOther(rows: nat, c: nat, r1: nat, r2: nat)
    requires c < COLUMNS && r1 <= r2 < rows
    ensures var t, column := IdleTimeline(rows), ColumnOffset(rows, c);
      && column + rows + r2 < |t|
      && t[column + r2].at == t[column + r1].at + 50 * (r2 - r1)
      && t[column + rows + r2].at == t[column + rows + r1].at + 50 * (r2 - r1)
  {
    CellScheduleAt(rows, c, r1);
    CellScheduleAt(rows, c, r2);
  }

  /** The same row fades out 250 ms later in each column than in the one before it, 2 R places further on. */
  lemma ColumnsFollowEachOther(rows: nat, c: nat, r: nat)
    requires c + 1 < COLUMNS && r < rows
    ensures var t, column := IdleTimeline(rows), ColumnOffset(rows, c);
      && column + 2 * rows + r < |t|
      && t[column + 2 * rows + r].at == t[column + r].at + 250
  {
    CellScheduleAt(rows, c, r);
    CellScheduleAt(rows, c + 1, r);
  }

  /** The worked example: with five rows, column 0 ("artists") row 2 hides at 350 ms and shows at 475 ms. */
  lemma FiveRowExample()
    ensures IdleTimeline(5)[10 + 2] == Fade(350, 0, 2, FADED)
    ensures IdleTimeline(5)[10 + 5 + 2] == Fade(475, 0, 2, OPAQUE)
  {
    CellScheduleAt(5, 0, 2);
  }

  // ---------------------------------------------------------------------------
  // Every step of the timeline follows the closed-form schedule
  // ---------------------------------------------------------------------------

  lemma {:induction false} CounterStepsScheduled(rows: nat, n: nat)
    requires n <= rows
    ensures forall k :: 0 <= k < |CounterSteps(rows, n)| ==> Scheduled(CounterSteps(rows, n)[k], rows)
  {
    if n > 0 {
      CounterStepsScheduled(rows, n - 1);
    }
  }

  lemma {:induction false} ColumnStepsScheduled(rows: nat, m: nat)
    requires m <= COLUMNS
    ensures forall k :: 0 <= k < |ColumnSteps(rows, m)| ==> Scheduled(ColumnSteps(rows, m)[k], rows)
  {
    if m > 0 {
      ColumnStepsScheduled(rows, m - 1);
    }
  }

  /**
   * Every step of the timeline touches an existing row (and one of the five columns) and
   * happens at the instant the closed-form schedule gives; in particular every fade-in of a
   * cell is 25 R ms after its fade-out and every fade targets 0.05 or 1.
   */
  lemma IdleTimelineScheduled(rows: nat)
    ensures forall k :: 0 <= k < |IdleTimeline(rows)| ==> Scheduled(IdleTimeline(rows)[k], rows)
  {
    CounterStepsScheduled(rows, rows);
    ColumnStepsScheduled(rows, COLUMNS);
  }

  // ---------------------------------------------------------------------------
  // Duration of one cycle
  // ---------------------------------------------------------------------------

  lemma {:induction false} EndAtLeast(steps: seq<Step>, k: nat)
    requires k < |steps|
    ensures StepEnd(steps[k]) <= End(steps)
  {
    if k < |steps| - 1 {
      EndAtLeast(steps[..|steps| - 1], k);
    }
  }

  lemma {:induction false} EndAtMost(steps: seq<Step>, bound: nat)
    requires forall k :: 0 <= k < |steps| ==> StepEnd(steps[k]) <= bound
    ensures End(steps) <= bound
  {
    if steps != [] {
      EndAtMost(steps[..|steps| - 1], bound);
    }
  }

  /**
   * With at least one row, a cycle lasts until the fade-in of the last row of the last
   * column is over, 75 R + 1300 ms after it starts; the next cycle starts 2000 ms later.
   */
  lemma CyclePeriodValue(rows: nat)
    requires rows >= 1
    ensures End(IdleTimeline(rows)) == 75 * rows + 1300
    ensures CyclePeriod(rows) == 75 * rows + 3300
  {
    var t := IdleTimeline(rows);
    var bound := 75 * rows + 1300;
    IdleTimelineScheduled(rows);
    forall k | 0 <= k < |t|
      ensures StepEnd(t[k]) <= bound
    {
      assert Scheduled(t[k], rows);
    }
    EndAtMost(t, bound);
    CellScheduleAt(rows, COLUMNS - 1, rows - 1);
    ColumnOffsetValue(rows, COLUMNS - 1);
    EndAtLeast(t, ColumnOffset(rows, COLUMNS - 1) + rows + (rows - 1));
  }
}
