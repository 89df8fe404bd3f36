/** `HabitRepository`: the in-memory habit store. Every `mutex.withLock` block is one
    atomic transition of a `Store`. `AllHabits` is the displayed month's list in
    `habitsStore`, and `Visible` is `currentMonthData.habits`, its filtered view, as it
    stands after every locked block; after a move into another month the app shows an
    empty list until `loadCurrentMonth` publishes what `LoadLocal` computes. The
    field `allHabits` is the separate StateFlow `currentMonthAllHabits`, which the
    heatmap draws: each block that writes a month's list also publishes it there,
    except `resetCurrentMonth`. The clock is replaced by the store's own date and by
    an explicit `today`. */
module Store {
  import opened Options
  import opened Text
  import opened Habits
  import opened Gregorian

  /** (month, year); the source keys `habitsStore` by the string "month-year",
      which is injective for months 1..12. */
  type MonthKey = (int, int)

  datatype Store = Store(month: int, year: int, selectedDay: int,
                         habitsStore: map<MonthKey, seq<Habit>>, allHabits: seq<Habit>)

  function Key(s: Store): MonthKey {
    (s.month, s.year)
  }

  /** The displayed month and selected day form a real calendar date. */
  predicate Valid(s: Store) {
    ValidDate(Date(s.year, s.month, s.selectedDay))
  }

  /** `habitsStore[key] ?: emptyList()`: every habit of the displayed month. */
  function AllHabits(s: Store): seq<Habit> {
    if Key(s) in s.habitsStore then s.habitsStore[Key(s)] else []
  }

  /** The habits shown for the selected day. */
  function Visible(s: Store): seq<Habit> {
    FilterHidden(AllHabits(s), s.selectedDay)
  }

  /** Only the displayed month's list may differ between `s` and `r`: the date is kept,
      every other month keeps its list, and no month other than the displayed one appears. */
  predicate OtherMonthsUnchanged(s: Store, r: Store) {
    && r.month == s.month && r.year == s.year && r.selectedDay == s.selectedDay
    && (forall k :: k in s.habitsStore && k != Key(s) ==> k in r.habitsStore && r.habitsStore[k] == s.habitsStore[k])
    && (forall k :: k in r.habitsStore ==> k in s.habitsStore || k == Key(s))
  }

  /** `currentMonthAllHabits` shows the displayed month's list as `habitsStore` holds it. */
  predicate InStep(s: Store) {
    s.allHabits == AllHabits(s)
  }

  /** `after` is `before` with only position `i` replaced by `h`. */
  predicate ReplacedAt(before: seq<Habit>, after: seq<Habit>, i: nat, h: Habit) {
    i < |before| && |after| == |before| && after[i] == h
    && forall j :: 0 <= j < |before| && j != i ==> after[j] == before[j]
  }

  /** `habits.indexOfFirst { it.name == name }`, with -1 as `None`. */
  function IndexOfName(habits: seq<Habit>, name: string): (r: Option<nat>)
    ensures r.Some? ==> r.value < |habits| && habits[r.value].name == name
    ensures r.Some? ==> forall j :: 0 <= j < r.value ==> habits[j].name != name
    ensures r.None? ==> forall j :: 0 <= j < |habits| ==> habits[j].name != name
  {
    IndexOfNameFrom(habits, name, 0)
  }

  function IndexOfNameFrom(habits: seq<Habit>, name: string, from: nat): (r: Option<nat>)
    ensures r.Some? ==> from <= r.value < |habits| && habits[r.value].name == name
    ensures r.Some? ==> forall j :: from <= j < r.value ==> habits[j].name != name
    ensures r.None? ==> forall j :: from <= j < |habits| ==> habits[j].name != name
    decreases |habits| - from
  {
    if from >= |habits| then None
    else if habits[from].name == name then Some(from)
    else IndexOfNameFrom(habits, name, from + 1)
  }

  // ---------------------------------------------------------------- toggle

  /** The day codes after toggling `day`: its completion flips and its hidden marker goes. */
  function ToggleDay(days: set<int>, day: int): (r: set<int>)
    ensures day in r <==> day !in days
    ensures HiddenCode(day) !in r
    ensures forall k :: k != day && k != HiddenCode(day) ==> (k in r <==> k in days)
  {
    (if day in days then days - {day} else days + {day}) - {HiddenCode(day)}
  }

  /** Toggling a day twice restores its completion and leaves it un-hidden. */
  lemma ToggleDayTwice(days: set<int>, day: int)
    ensures ToggleDay(ToggleDay(days, day), day) == days - {HiddenCode(day)}
  {
  }

  /** The new store, and the cell value `toggleHabitCompletion` then sends to the sheet:
      "1" unless the habit was found and was already done ("" then). */
  datatype Toggled = Toggled(store: Store, status: string)

  function ToggleHabitCompletion(s: Store, name: string): (r: Toggled)
    ensures OtherMonthsUnchanged(s, r.store)
    ensures Key(s) !in s.habitsStore || IndexOfName(AllHabits(s), name).None? ==> r == Toggled(s, "1")
    ensures Key(s) in s.habitsStore && IndexOfName(AllHabits(s), name).Some? ==>
      var i := IndexOfName(AllHabits(s), name).value;
      var h := AllHabits(s)[i];
      && Key(s) in r.store.habitsStore
      && ReplacedAt(AllHabits(s), AllHabits(r.store), i, h.(completedDays := ToggleDay(h.completedDays, s.selectedDay)))
      && InStep(r.store)
      && r.status == (if IsCompletedOn(h, s.selectedDay) then "" else "1")
  {
    var key := Key(s);
    if key !in s.habitsStore then Toggled(s, "1")
    else
      var habits := s.habitsStore[key];
      match IndexOfName(habits, name)
      case None => Toggled(s, "1")
      case Some(i) =>
        var h := habits[i];
        var h' := h.(completedDays := ToggleDay(h.completedDays, s.selectedDay));
        var habits' := habits[i := h'];
        Toggled(s.(habitsStore := s.habitsStore[key := habits'], allHabits := habits'),
                if s.selectedDay in h.completedDays then "" else "1")
  }

  // ---------------------------------------------------------------- add

  predicate HasNameIgnoreCase(habits: seq<Habit>, name: string) {
    exists i :: 0 <= i < |habits| && EqualsIgnoreCase(habits[i].name, name)
  }

  /** `addHabit(name, icon)`: ignored for a blank name or a name already present up to case;
      otherwise a habit with no day codes is appended (creating the month's list if needed). */
  function AddHabit(s: Store, name: string, icon: string): (r: Store)
    ensures OtherMonthsUnchanged(s, r)
    ensures IsBlank(name) || HasNameIgnoreCase(AllHabits(s), name) ==> r == s
    ensures !IsBlank(name) && !HasNameIgnoreCase(AllHabits(s), name) ==>
      && Key(s) in r.habitsStore
      && |AllHabits(r)| == |AllHabits(s)| + 1
      && AllHabits(r)[..|AllHabits(s)|] == AllHabits(s)
      && AllHabits(r)[|AllHabits(s)|] == Habit(name, {}, icon)
      && InStep(r)
  {
    if IsBlank(name) then s
    else
      var habits := AllHabits(s);
      if HasNameIgnoreCase(habits, name) then s
      else
        var habits' := habits + [Habit(name, {}, icon)];
        s.(habitsStore := s.habitsStore[Key(s) := habits'], allHabits := habits')
  }

  /** No two habits of a list have names equal up to case. */
  predicate NamesUniqueIgnoreCase(habits: seq<Habit>) {
    forall i, j :: 0 <= i < j < |habits| ==> !EqualsIgnoreCase(habits[i].name, habits[j].name)
  }

  /** `addHabit` is the only way the app grows a month's list locally, and it keeps the
      names unique up to case. */
  lemma AddHabitKeepsNamesUnique(s: Store, name: string, icon: string)
    requires NamesUniqueIgnoreCase(AllHabits(s))
    ensures NamesUniqueIgnoreCase(AllHabits(AddHabit(s, name, icon)))
  {
    var r := AddHabit(s, name, icon);
    if r != s {
      var old_, new_ := AllHabits(s), AllHabits(r);
      forall i, j | 0 <= i < j < |new_| ensures !EqualsIgnoreCase(new_[i].name, new_[j].name) {
        assert new_[i] == old_[i];
        if j < |old_| {
          assert new_[j] == old_[j];
        } else {
          assert !EqualsIgnoreCase(old_[i].name, name);
        }
      }
    }
  }

  /** A freshly added habit is shown on the selected day, after the habits already shown. */
  lemma AddHabitIsVisible(s: Store, name: string, icon: string)
    requires !IsBlank(name) && !HasNameIgnoreCase(AllHabits(s), name)
    ensures Visible(AddHabit(s, name, icon)) == Visible(s) + [Habit(name, {}, icon)]
  {
    var r := AddHabit(s, name, icon);
    assert AllHabits(r) == AllHabits(s) + [Habit(name, {}, icon)];
    FilterHiddenConcat(AllHabits(s), [Habit(name, {}, icon)], s.selectedDay);
  }

  // ---------------------------------------------------------------- hide

  /** `removeHabit(name)`: hides the first habit named exactly `name` on the selected day
      by adding the code `100 + day`; an unknown name or month changes nothing. */
  function RemoveHabit(s: Store, name: string): (r: Store)
    ensures OtherMonthsUnchanged(s, r)
    ensures Key(s) !in s.habitsStore || IndexOfName(AllHabits(s), name).None? ==> r == s
    ensures Key(s) in s.habitsStore && IndexOfName(AllHabits(s), name).Some? ==>
      var i := IndexOfName(AllHabits(s), name).value;
      var h := AllHabits(s)[i];
      && Key(s) in r.habitsStore
      && ReplacedAt(AllHabits(s), AllHabits(r), i, h.(completedDays := h.completedDays + {HiddenCode(s.selectedDay)}))
      && InStep(r)
  {
    var key := Key(s);
    if key !in s.habitsStore then s
    else
      var habits := s.habitsStore[key];
      match IndexOfName(habits, name)
      case None => s
      case Some(i) =>
        var h := habits[i];
        var habits' := habits[i := h.(completedDays := h.completedDays + {HiddenCode(s.selectedDay)})];
        s.(habitsStore := s.habitsStore[key := habits'], allHabits := habits')
  }

  /** After hiding, the habit is still in the month's list but no longer shown that day. */
  lemma RemoveHabitHidesIt(s: Store, name: string)
    requires Key(s) in s.habitsStore && IndexOfName(AllHabits(s), name).Some?
    ensures var i := IndexOfName(AllHabits(s), name).value;
      var r := RemoveHabit(s, name);
      && AllHabits(r)[i].name == name
      && AllHabits(r)[i] in AllHabits(r)
      && AllHabits(r)[i] !in Visible(r)
  {
  }

  // ---------------------------------------------------------------- delete

  /** `deleteHabitPermanently(name)`: removes the first habit named exactly `name`;
      the others keep their relative order. */
  function DeleteHabitPermanently(s: Store, name: string): (r: Store)
    ensures OtherMonthsUnchanged(s, r)
    ensures Key(s) !in s.habitsStore || IndexOfName(AllHabits(s), name).None? ==> r == s
    ensures Key(s) in s.habitsStore && IndexOfName(AllHabits(s), name).Some? ==>
      var i := IndexOfName(AllHabits(s), name).value;
      && Key(s) in r.habitsStore
      && AllHabits(r) == AllHabits(s)[..i] + AllHabits(s)[i + 1..]
      && |AllHabits(r)| == |AllHabits(s)| - 1
      && InStep(r)
  {
    var key := Key(s);
    if key !in s.habitsStore then s
    else
      var habits := s.habitsStore[key];
      match IndexOfName(habits, name)
      case None => s
      case Some(i) =>
        var habits' := habits[..i] + habits[i + 1..];
        s.(habitsStore := s.habitsStore[key := habits'], allHabits := habits')
  }

  /** When names are unique, a permanent delete leaves no habit of that name. */
  lemma DeleteRemovesName(s: Store, name: string)
    requires NamesUniqueIgnoreCase(AllHabits(s))
    ensures forall j :: 0 <= j < |AllHabits(DeleteHabitPermanently(s, name))| ==>
              AllHabits(DeleteHabitPermanently(s, name))[j].name != name
  {
    var hs := AllHabits(s);
    if Key(s) in s.habitsStore && IndexOfName(hs, name).Some? {
      var i := IndexOfName(hs, name).value;
      var rest := AllHabits(DeleteHabitPermanently(s, name));
      forall j | 0 <= j < |rest| ensures rest[j].name != name {
        var k := if j < i then j else j + 1;
        assert rest[j] == hs[k];
        if k > i {
          assert !EqualsIgnoreCase(hs[i].name, hs[k].name);
        }
      }
    }
  }

  // ---------------------------------------------------------------- reset

  /** The displayed month's habits with all their day codes cleared. */
  function Cleared(habits: seq<Habit>): (r: seq<Habit>)
    ensures |r| == |habits|
    ensures forall i :: 0 <= i < |habits| ==> r[i] == habits[i].(completedDays := {})
  {
    seq(|habits|, i requires 0 <= i < |habits| => habits[i].(completedDays := {}))
  }

  /** `resetCurrentMonth()`: every habit of the displayed month loses all its day codes
      (completions and hidden markers); a missing month becomes an empty list. As written,
      the block does not publish the new list to `currentMonthAllHabits`. */
  function ResetCurrentMonth(s: Store): (r: Store)
    ensures OtherMonthsUnchanged(s, r)
    ensures Key(s) in r.habitsStore
    ensures |AllHabits(r)| == |AllHabits(s)|
    ensures forall i :: 0 <= i < |AllHabits(s)| ==>
      AllHabits(r)[i] == AllHabits(s)[i].(completedDays := {})
    ensures r.allHabits == s.allHabits
  {
    s.(habitsStore := s.habitsStore[Key(s) := Cleared(AllHabits(s))])
  }

  /** `resetCurrentMonth` as evidently intended: the same reset, also published to
      `currentMonthAllHabits` as every other block publishes its list. */
  function ResetCurrentMonthFixed(s: Store): (r: Store)
    ensures r.habitsStore == ResetCurrentMonth(s).habitsStore
    ensures OtherMonthsUnchanged(s, r)
    ensures InStep(r)
    ensures forall i :: 0 <= i < |r.allHabits| ==> r.allHabits[i].completedDays == {}
  {
    var cleared := Cleared(AllHabits(s));
    s.(habitsStore := s.habitsStore[Key(s) := cleared], allHabits := cleared)
  }

  /** After a reset nothing is hidden, so the source's shortcut of showing the unfiltered
      list agrees with `filterHidden`, and the day's progress is 0. */
  lemma ResetShowsEverything(s: Store)
    ensures Visible(ResetCurrentMonth(s)) == AllHabits(ResetCurrentMonth(s))
    ensures DailyProgress(Visible(ResetCurrentMonth(s)), s.selectedDay) == 0
  {
    var r := ResetCurrentMonth(s);
    FilterHiddenNoneHidden(AllHabits(r), r.selectedDay);
  }

  // ---------------------------------------------------------------- remote merge

  function SetOf(xs: seq<int>): (r: set<int>)
    ensures forall x :: x in r <==> x in xs
  {
    set x | x in xs
  }

  /** The second locked block of `loadCurrentMonth`: the displayed month's list becomes
      the master list, each habit carrying the day codes read for its exact name from the
      month sheet (none when the month sheet has no row for it). */
  function LoadRemote(s: Store, master: seq<Habit>, monthDays: map<string, seq<int>>): (r: Store)
    ensures OtherMonthsUnchanged(s, r)
    ensures Key(s) in r.habitsStore
    ensures |AllHabits(r)| == |master|
    ensures forall i :: 0 <= i < |master| ==>
      && AllHabits(r)[i].name == master[i].name
      && AllHabits(r)[i].iconName == master[i].iconName
      && (master[i].name in monthDays ==> AllHabits(r)[i].completedDays == SetOf(monthDays[master[i].name]))
      && (master[i].name !in monthDays ==> AllHabits(r)[i].completedDays == {})
    ensures InStep(r)
  {
    var remote := seq(|master|, i requires 0 <= i < |master| =>
      Habit(master[i].name,
            if master[i].name in monthDays then SetOf(monthDays[master[i].name]) else {},
            master[i].iconName));
    s.(habitsStore := s.habitsStore[Key(s) := remote], allHabits := remote)
  }

  /** A failed read of the master sheet reaches `loadCurrentMonth` as an empty list
      (`?: emptyList()`), so the displayed month loses every habit. */
  lemma LoadRemoteFailedMaster(s: Store, monthDays: map<string, seq<int>>)
    ensures Key(s) in LoadRemote(s, [], monthDays).habitsStore
    ensures AllHabits(LoadRemote(s, [], monthDays)) == []
  {
  }

  /** A failed read of the month sheet reaches `loadCurrentMonth` as an empty map, so
      every habit of the displayed month loses its completions and hidden markers. */
  lemma LoadRemoteFailedMonth(s: Store, master: seq<Habit>)
    ensures var r := LoadRemote(s, master, map[]);
      |AllHabits(r)| == |master|
      && forall i :: 0 <= i < |master| ==> AllHabits(r)[i].completedDays == {}
  {
  }

  /** The first block of `loadCurrentMonth`: the list `habitsStore` holds for the
      displayed month (or none) is published to `currentMonthAllHabits`. */
  function LoadLocal(s: Store): (r: Store)
    ensures r.habitsStore == s.habitsStore
    ensures r.month == s.month && r.year == s.year && r.selectedDay == s.selectedDay
    ensures InStep(r)
    ensures Key(s) !in s.habitsStore ==> r.allHabits == []
  {
    s.(allHabits := AllHabits(s))
  }

  /** Every block that writes the displayed month's list, except the reset, leaves
      `currentMonthAllHabits` in step with `habitsStore`. */
  lemma TransitionsKeepInStep(s: Store, name: string, icon: string,
                              master: seq<Habit>, monthDays: map<string, seq<int>>)
    requires InStep(s)
    ensures InStep(ToggleHabitCompletion(s, name).store)
    ensures InStep(AddHabit(s, name, icon))
    ensures InStep(RemoveHabit(s, name))
    ensures InStep(DeleteHabitPermanently(s, name))
    ensures InStep(LoadRemote(s, master, monthDays))
    ensures InStep(ResetCurrentMonthFixed(s))
  {
  }

  // ---------------------------------------------------------------- navigation

  /** `modifyDay(delta)`: moves the selected date by `delta` days, switching the displayed
      month and year when the date leaves the month. */
  function ModifyDay(s: Store, delta: int): (r: Store)
    requires Valid(s)
    ensures Valid(r)
    ensures r.habitsStore == s.habitsStore && r.allHabits == s.allHabits
    ensures delta == 1 ==> Date(r.year, r.month, r.selectedDay) == NextDate(Date(s.year, s.month, s.selectedDay))
    ensures delta == -1 ==> Date(r.year, r.month, r.selectedDay) == PrevDate(Date(s.year, s.month, s.selectedDay))
  {
    var d := AddDays(Date(s.year, s.month, s.selectedDay), delta);
    s.(year := d.year, month := d.month, selectedDay := d.day)
  }

  /** Moving a number of days and then back returns to the same store. */
  lemma ModifyDayInverse(s: Store, delta: int)
    requires Valid(s)
    ensures ModifyDay(ModifyDay(s, delta), -delta) == s
  {
    AddDaysInverse(Date(s.year, s.month, s.selectedDay), delta);
  }

  /** `modifyMonth(delta)`: the month moves by `delta`, wrapping into the next or previous
      year past 12 or below 1, and the selected day is clamped to the new month's length. */
  function ModifyMonth(s: Store, delta: int): (r: Store)
    ensures 1 <= r.month <= 12
    ensures r.selectedDay <= DaysInMonth(r.year, r.month)
    ensures r.selectedDay == if s.selectedDay > DaysInMonth(r.year, r.month) then DaysInMonth(r.year, r.month) else s.selectedDay
    ensures r.habitsStore == s.habitsStore && r.allHabits == s.allHabits
    ensures s.month == 12 && delta == 1 ==> r.month == 1 && r.year == s.year + 1
    ensures s.month == 1 && delta == -1 ==> r.month == 12 && r.year == s.year - 1
    ensures Valid(s) ==> Valid(r)
  {
    var m := s.month + delta;
    var ym := if m > 12 then (1, s.year + 1) else if m < 1 then (12, s.year - 1) else (m, s.year);
    var max := DaysInMonth(ym.1, ym.0);
    s.(month := ym.0, year := ym.1, selectedDay := if s.selectedDay > max then max else s.selectedDay)
  }

  /** Months counted from year 0, so that consecutive months differ by one. */
  function MonthOrdinal(s: Store): int {
    s.year * 12 + (s.month - 1)
  }

  /** For the app's two buttons (delta = +1 and -1) `modifyMonth` moves to the adjacent
      calendar month, and the two moves undo each other's month and year. */
  lemma ModifyMonthIsAdjacent(s: Store, delta: int)
    requires 1 <= s.month <= 12
    requires delta == 1 || delta == -1
    ensures MonthOrdinal(ModifyMonth(s, delta)) == MonthOrdinal(s) + delta
    ensures Key(ModifyMonth(ModifyMonth(s, delta), -delta)) == Key(s)
  {
  }

  // ---------------------------------------------------------------- statistics

  /** How many of `habits` are done on `day`. */
  function DoneCount(habits: seq<Habit>, day: int): (n: nat)
    ensures n <= |habits|
    ensures n == 0 <==> forall i :: 0 <= i < |habits| ==> !IsCompletedOn(habits[i], day)
    ensures n == |habits| <==> forall i :: 0 <= i < |habits| ==> IsCompletedOn(habits[i], day)
  {
    Seqs.Count(habits, h => IsCompletedOn(h, day))
  }

  /** `calculateDailyProgress(habits)`: the percentage, rounded down, of the habits done
      on `day`; 0 for an empty list. */
  function DailyProgress(habits: seq<Habit>, day: int): (r: int)
    ensures 0 <= r <= 100
    ensures |habits| == 0 ==> r == 0
    ensures |habits| > 0 ==> r * |habits| <= DoneCount(habits, day) * 100 < (r + 1) * |habits|
  {
    if |habits| == 0 then 0
    else
      DivBounds(DoneCount(habits, day) * 100, |habits|);
      (DoneCount(habits, day) * 100) / |habits|
  }

  lemma DivBounds(a: nat, n: nat)
    requires 0 < n && a <= 100 * n
    ensures 0 <= a / n <= 100
    ensures (a / n) * n <= a < (a / n + 1) * n
  {
  }

  lemma MulMono(a: int, b: int, n: int)
    requires n >= 0 && a <= b
    ensures a * n <= b * n
  {
  }

  lemma LtFromMul(q: int, b: int, n: int)
    requires n > 0 && q * n < b * n
    ensures q < b
  {
    if q >= b {
      MulMono(b, q, n);
    }
  }

  lemma HundredPercent(n: nat)
    requires 0 < n
    ensures (n * 100) / n == 100
  {
  }

  lemma BelowHundredPercent(done: nat, n: nat)
    requires done < n
    ensures (done * 100) / n < 100
  {
    DivBounds(done * 100, n);
    MulMono(done + 1, n, 100);
    LtFromMul((done * 100) / n, 100, n);
  }

  /** With `done <= n`, the rounded-down percentage is 100 exactly when `done == n`. */
  lemma PercentFull(done: nat, n: nat)
    requires 0 < n && done <= n
    ensures (done * 100) / n == 100 <==> done == n
  {
    if done == n {
      HundredPercent(n);
    } else {
      BelowHundredPercent(done, n);
    }
  }

  /** 100% exactly when every habit is done on the day; 0% when none is. */
  lemma DailyProgressExtremes(habits: seq<Habit>, day: int)
    requires |habits| > 0
    ensures DailyProgress(habits, day) == 100 <==> forall i :: 0 <= i < |habits| ==> IsCompletedOn(habits[i], day)
    ensures (forall i :: 0 <= i < |habits| ==> !IsCompletedOn(habits[i], day)) ==> DailyProgress(habits, day) == 0
  {
    PercentFull(DoneCount(habits, day), |habits|);
  }

  /** The completion codes of a habit: codes up to 31 (hidden markers are 101..131). */
  function CompletionCodes(h: Habit): set<int> {
    set x | x in h.completedDays && x <= 31
  }

  function TotalCompletions(habits: seq<Habit>): nat
    decreases |habits|
  {
    if |habits| == 0 then 0 else |CompletionCodes(habits[0])| + TotalCompletions(habits[1..])
  }

  /** Every completion code of the month lies on a day of that month. */
  predicate CodesWithinMonth(data: MonthData)
    requires 1 <= data.month <= 12
  {
    forall i, x :: 0 <= i < |data.habits| && x in CompletionCodes(data.habits[i]) ==>
      1 <= x <= DaysInMonth(data.year, data.month)
  }

  /** `calculateMonthlyProgress(data)`: completions over (habits x days of the month), as a
      percentage rounded down; 0 for a month without habits. */
  function MonthlyProgress(data: MonthData): (r: int)
    requires 1 <= data.month <= 12
    ensures r >= 0
    ensures |data.habits| == 0 ==> r == 0
    ensures |data.habits| > 0 ==>
      var slots := |data.habits| * DaysInMonth(data.year, data.month);
      r * slots <= TotalCompletions(data.habits) * 100 < (r + 1) * slots
  {
    if |data.habits| == 0 then 0
    else
      var slots := |data.habits| * DaysInMonth(data.year, data.month);
      DivFloor(TotalCompletions(data.habits) * 100, slots);
      (TotalCompletions(data.habits) * 100) / slots
  }

  lemma DivFloor(a: nat, n: int)
    requires 0 < n
    ensures a / n >= 0
    ensures (a / n) * n <= a < (a / n + 1) * n
  {
  }

  /** The monthly percentage never exceeds 100 while every completion code names a day
      of the month (hidden markers are not counted). */
  lemma MonthlyProgressAtMost100(data: MonthData)
    requires 1 <= data.month <= 12
    requires CodesWithinMonth(data)
    ensures MonthlyProgress(data) <= 100
  {
    if |data.habits| > 0 {
      var days := DaysInMonth(data.year, data.month);
      var slots := |data.habits| * days;
      TotalCompletionsBound(data.habits, days);
      MulMono(TotalCompletions(data.habits), |data.habits| * days, 100);
      DivBounds(TotalCompletions(data.habits) * 100, slots);
    }
  }

  /** At most `days` completion codes fit into the days 1..days. */
  lemma {:induction false} TotalCompletionsBound(habits: seq<Habit>, days: nat)
    requires forall i, x :: 0 <= i < |habits| && x in CompletionCodes(habits[i]) ==> 1 <= x <= days
    ensures TotalCompletions(habits) <= |habits| * days
    decreases |habits|
  {
    if |habits| > 0 {
      DaysCardinality(CompletionCodes(habits[0]), days);
      TotalCompletionsBound(habits[1..], days);
    }
  }

  /** A set of days drawn from 1..n has at most n elements. */
  lemma {:induction false} DaysCardinality(s: set<int>, n: nat)
    requires forall x :: x in s ==> 1 <= x <= n
    ensures |s| <= n
    decreases n
  {
    if n > 0 {
      DaysCardinality(s - {n}, n - 1);
    } else {
      assert forall x :: x !in s;
      assert s == {};
    }
  }

  /** `calculateStreak(h)`: the number of consecutive done days ending at `today`, or at
      yesterday when today is not done yet; counting stops at the first gap or at day 1.
      `today` is the day of the month read from the clock in the source. */
  method CalculateStreak(h: Habit, today: int) returns (s: int)
    ensures s >= 0
    ensures today >= 0 ==> s <= today
    ensures var start := if today in h.completedDays then today else today - 1;
      s <= if start > 0 then start else 0
    ensures var start := if today in h.completedDays then today else today - 1;
      && (forall k :: start - s < k <= start ==> k in h.completedDays)
      && (start - s < 1 || (start - s) !in h.completedDays)
  {
    s := 0;
    var d := if today !in h.completedDays then today - 1 else today;
    ghost var start := d;
    while d >= 1
      invariant d == start - s
      invariant s >= 0 && (s == 0 || d >= 0)
      invariant forall k :: d < k <= start ==> k in h.completedDays
      decreases d
    {
      if d in h.completedDays {
        s := s + 1;
      } else {
        break;
      }
      d := d - 1;
    }
  }
}
