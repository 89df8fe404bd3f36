/** The integer part of the month heatmap: the days of the month laid out in rows of
    seven, and for each day how many of the habits that count that day were done. */
module Heatmap {
  import opened Seqs
  import opened Habits
  import opened Gregorian
  import opened Store

  /** `(1..maxDays).toList().chunked(7)`. */
  function Weeks(maxDays: nat): (r: seq<seq<int>>)
    ensures Flatten(r) == Range(1, maxDays + 1)
    ensures forall k :: 0 <= k < |r| ==> 0 < |r[k]| <= 7
    ensures forall k :: 0 <= k < |r| - 1 ==> |r[k]| == 7
  {
    Chunk(Range(1, maxDays + 1), 7)
  }

  /** The weeks hold the days in order: day `7 * k + j + 1` is cell `j` of week `k`. */
  lemma WeeksPlaceDays(maxDays: nat, k: nat, j: nat)
    requires j < 7 && 7 * k + j + 1 <= maxDays
    ensures k < |Weeks(maxDays)| && j < |Weeks(maxDays)[k]|
    ensures Weeks(maxDays)[k][j] == 7 * k + j + 1
  {
    ChunkAt(Range(1, maxDays + 1), 7, k, j);
  }

  /** Each day of the month appears exactly once in the weeks. */
  lemma WeeksHoldEachDayOnce(maxDays: nat, d: int)
    requires 1 <= d <= maxDays
    ensures OccursOnce(Flatten(Weeks(maxDays)), d)
  {
    var days := Flatten(Weeks(maxDays));
    assert days[d - 1] == d;
    assert forall j :: 0 <= j < |days| && j != d - 1 ==> days[j] != d;
  }

  /** A month of 28 days fills four weeks; 29 to 31 days need a fifth. */
  lemma WeekCount(year: int, month: int)
    requires 1 <= month <= 12
    ensures |Weeks(DaysInMonth(year, month))| == if DaysInMonth(year, month) == 28 then 4 else 5
  {
    ChunkCount(Range(1, DaysInMonth(year, month) + 1), 7);
  }

  /** What a day's square is computed from: the number of habits not hidden that day
      and how many of those are done. */
  datatype DayCell = DayCell(effectiveTotal: nat, count: nat)

  function CellFor(habits: seq<Habit>, day: int): (c: DayCell)
    ensures c.count <= c.effectiveTotal <= |habits|
  {
    var effective := FilterHidden(habits, day);
    DayCell(|effective|, DoneCount(effective, day))
  }

  /** The total counts the habits without the hidden code for the day, and the count
      is zero exactly when every one of those is not done. */
  lemma CellForCounts(habits: seq<Habit>, day: int)
    ensures CellFor(habits, day).effectiveTotal == Count(habits, h => !IsHiddenOn(h, day))
    ensures CellFor(habits, day).count == 0
      <==> forall i :: 0 <= i < |habits| ==> IsHiddenOn(habits[i], day) || !IsCompletedOn(habits[i], day)
  {
    var effective := FilterHidden(habits, day);
    assert effective == Filter(habits, h => !IsHiddenOn(h, day));
    if CellFor(habits, day).count == 0 {
      forall i | 0 <= i < |habits| && !IsHiddenOn(habits[i], day) ensures !IsCompletedOn(habits[i], day) {
        assert habits[i] in effective;
      }
    }
  }

  /** The intensity `count / effectiveTotal` as a fraction, 0 when nothing counts. */
  function Intensity(c: DayCell): (r: (nat, nat))
    requires c.count <= c.effectiveTotal
    ensures r.1 > 0 && r.0 <= r.1
    ensures r.0 == 0 <==> c.effectiveTotal == 0 || c.count == 0
    ensures r.0 == r.1 <==> c.effectiveTotal > 0 && c.count == c.effectiveTotal
  {
    if c.effectiveTotal > 0 then (c.count, c.effectiveTotal) else (0, 1)
  }

  /** One slot of a rendered row: a day's square (drawn from `CellFor` that day), or a
      spacer. */
  datatype Slot = Square(day: int) | Spacer

  /** A week's row: its days, then `7 - week.size` spacers. */
  function RowSlots(week: seq<int>): (r: seq<Slot>)
    requires |week| <= 7
    ensures |r| == 7
    ensures forall j :: 0 <= j < 7 ==> (r[j].Square? <==> j < |week|)
  {
    seq(|week|, j requires 0 <= j < |week| => Square(week[j]))
    + seq(7 - |week|, _ => Spacer)
  }

  function Grid(maxDays: nat): (r: seq<seq<Slot>>)
    ensures |r| == |Weeks(maxDays)|
    ensures forall k :: 0 <= k < |r| ==> |r[k]| == 7
  {
    var weeks := Weeks(maxDays);
    seq(|weeks|, k requires 0 <= k < |weeks| => RowSlots(weeks[k]))
  }

  /** Day `7 * k + j + 1` is drawn at column `j` of row `k`. */
  lemma GridPlacesDay(maxDays: nat, k: nat, j: nat)
    requires j < 7 && 7 * k + j + 1 <= maxDays
    ensures k < |Grid(maxDays)|
    ensures Grid(maxDays)[k][j] == Square(7 * k + j + 1)
  {
    var weeks := Weeks(maxDays);
    var d := 7 * k + j + 1;
    WeeksPlaceDays(maxDays, k, j);
    var row := RowSlots(weeks[k]);
    assert Grid(maxDays)[k] == row;
    assert weeks[k][j] == d;
    assert row[j] == Square(d);
  }

  /** Past the last day a row holds spacers, and only the last row can. */
  lemma GridPadsLastRow(maxDays: nat, k: nat, j: nat)
    requires j < 7 && k < |Grid(maxDays)|
    ensures Grid(maxDays)[k][j].Spacer? <==> 7 * k + j + 1 > maxDays
    ensures k < |Grid(maxDays)| - 1 ==> Grid(maxDays)[k][j].Square?
  {
    var weeks := Weeks(maxDays);
    assert Grid(maxDays)[k] == RowSlots(weeks[k]);
    WeekHoldsDay(maxDays, k, j);
  }

  /** Week `k` has a cell at column `j` exactly when day `7 * k + j + 1` is in the month. */
  lemma WeekHoldsDay(maxDays: nat, k: nat, j: nat)
    requires k < |Weeks(maxDays)| && j < 7
    ensures j < |Weeks(maxDays)[k]| <==> 7 * k + j + 1 <= maxDays
  {
    var weeks := Weeks(maxDays);
    FlattenLengths(weeks, 7);
  }

  /** When every piece but the last has `n` elements, the flattening has
      `(|ss| - 1) * n` elements plus those of the last piece. */
  lemma {:induction false} FlattenLengths(ss: seq<seq<int>>, n: nat)
    requires |ss| > 0
    requires forall i :: 0 <= i < |ss| - 1 ==> |ss[i]| == n
    ensures |Flatten(ss)| == (|ss| - 1) * n + |ss[|ss| - 1]|
    decreases |ss|
  {
    if |ss| > 1 {
      FlattenLengths(ss[1..], n);
      MulSucc(|ss| - 2, n);
    }
  }

  /** While `currentMonthAllHabits` is in step with `habitsStore`, the heatmap square for
      the selected day counts exactly what the day's progress counts: the visible habits,
      and those of them that are done. */
  lemma SquareMatchesDailyProgress(s: Store)
    requires InStep(s)
    ensures CellFor(s.allHabits, s.selectedDay) == DayCell(|Visible(s)|, DoneCount(Visible(s), s.selectedDay))
    ensures Intensity(CellFor(s.allHabits, s.selectedDay)).0 == 0 ==> DailyProgress(Visible(s), s.selectedDay) == 0
    ensures DailyProgress(Visible(s), s.selectedDay) == 100 <==> |Visible(s)| > 0 && Intensity(CellFor(s.allHabits, s.selectedDay)).0 == Intensity(CellFor(s.allHabits, s.selectedDay)).1
  {
    if |Visible(s)| > 0 {
      DailyProgressExtremes(Visible(s), s.selectedDay);
    }
  }

  /** As written, `resetCurrentMonth` leaves the heatmap behind: one habit "Run", done on
      the selected day 1; after the reset the day's progress is 0, but the heatmap square
      still counts "Run" as done. */
  lemma ResetLeavesHeatmapStale()
    ensures var run := Habit("Run", {1}, "Check");
      var s := Store(1, 2025, 1, map[(1, 2025) := [run]], [run]);
      var r := ResetCurrentMonth(s);
      && InStep(s)
      && DailyProgress(Visible(r), r.selectedDay) == 0
      && CellFor(r.allHabits, r.selectedDay) == DayCell(1, 1)
      && !InStep(r)
  {
    var run := Habit("Run", {1}, "Check");
    var s := Store(1, 2025, 1, map[(1, 2025) := [run]], [run]);
    var r := ResetCurrentMonth(s);
    assert AllHabits(r) == [run.(completedDays := {})];
    ResetShowsEverything(s);
    assert FilterHidden([run], 1) == [run] by { FilterHiddenNoneHidden([run], 1); }
    assert DoneCount([run], 1) == 1;
    assert r.allHabits[0] != AllHabits(r)[0];
  }

  /** With the corrected reset, the heatmap follows: the selected day's square again
      agrees with the day's progress, and every square of the month shows no completion. */
  lemma ResetFixedClearsHeatmap(s: Store, day: int)
    ensures var r := ResetCurrentMonthFixed(s);
      && InStep(r)
      && CellFor(r.allHabits, r.selectedDay) == DayCell(|Visible(r)|, DoneCount(Visible(r), r.selectedDay))
      && CellFor(r.allHabits, day).count == 0
  {
    var r := ResetCurrentMonthFixed(s);
    SquareMatchesDailyProgress(r);
    CellForCounts(r.allHabits, day);
  }
}
