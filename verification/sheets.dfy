/** `GoogleSheetsRepository` without its HTTP calls. The spreadsheet is seen as lists of
    rows of cell strings: the "MasterHabits" sheet (column A holds "name | icon") and one
    sheet per month titled "month-year" (column A the habit name, columns B..AF the days
    1..31, where "1" means done and "2" means hidden). Rows are the data rows read from
    row 2 on, so list index i is sheet row i + 2. */
module Sheets {
  import opened Options
  import opened Seqs
  import opened Text
  import opened Decimal
  import opened Habits

  type Row = seq<string>

  /** `row.getOrNull(i)?.toString() ?: ""`: a missing cell reads as the empty string. */
  function Cell(row: Row, i: int): string {
    if 0 <= i < |row| then row[i] else ""
  }

  // ---------------------------------------------------------------- A1 column labels

  predicate IsUpper(c: char) {
    'A' <= c <= 'Z'
  }

  predicate IsLabel(s: string) {
    |s| >= 1 && forall i :: 0 <= i < |s| ==> IsUpper(s[i])
  }

  function Letter(k: int): (c: char)
    requires 0 <= k < 26
    ensures IsUpper(c) && c as int - 'A' as int == k
  {
    ('A' as int + k) as char
  }

  /** `getColLetter(day)`: the A1 letters of 0-based column `day` ("A" is column 0, so
      the day columns 1..31 are "B".."AF"). Defined here for the one- and two-letter
      columns 0..701. */
  function ColLetter(day: int): (r: string)
    requires 0 <= day < 702
    ensures IsLabel(r) && |r| <= 2
    ensures |r| == 1 <==> day < 26
  {
    if day < 26 then [Letter(day)] else [Letter(day / 26 - 1), Letter(day % 26)]
  }

  /** The 1-based number of an A1 label read as bijective base 26 ("A" = 1, "Z" = 26,
      "AA" = 27). */
  function LabelNumber(s: string): int
    requires forall i :: 0 <= i < |s| ==> IsUpper(s[i])
    decreases |s|
  {
    if |s| == 0 then 0
    else LabelNumber(s[..|s| - 1]) * 26 + (s[|s| - 1] as int - 'A' as int + 1)
  }

  /** The 0-based column a label denotes. */
  function ColumnIndex(col: string): int
    requires IsLabel(col)
  {
    LabelNumber(col) - 1
  }

  /** `getColLetter` names the column it is given: reading the label back gives the day. */
  lemma ColLetterIndex(day: int)
    requires 0 <= day < 702
    ensures ColumnIndex(ColLetter(day)) == day
  {
    var r := ColLetter(day);
    if day < 26 {
      assert r[..|r| - 1] == [];
      assert LabelNumber(r) == day + 1;
    } else {
      var first := r[..1];
      assert first == [Letter(day / 26 - 1)] && first[..0] == [];
      assert LabelNumber(first) == day / 26;
      assert r[..|r| - 1] == first;
      assert LabelNumber(r) == (day / 26) * 26 + day % 26 + 1;
    }
  }

  /** Distinct days are written to distinct columns. */
  lemma ColLetterInjective(a: int, b: int)
    requires 0 <= a < 702 && 0 <= b < 702
    requires ColLetter(a) == ColLetter(b)
    ensures a == b
  {
    ColLetterIndex(a);
    ColLetterIndex(b);
  }

  /** The day columns: "B".."Z" for days 1..25 and "AA".."AF" for days 26..31. */
  lemma DayColumns(day: int)
    requires 1 <= day <= 31
    ensures day <= 25 ==> ColLetter(day) == [Letter(day)] && 'B' <= ColLetter(day)[0] <= 'Z'
    ensures day >= 26 ==> ColLetter(day) == ['A', Letter(day - 26)] && 'A' <= ColLetter(day)[1] <= 'F'
    ensures ColumnIndex(ColLetter(day)) == day
  {
    ColLetterIndex(day);
  }

  // ---------------------------------------------------------------- month sheets

  /** The day codes one cell contributes: "1" in column d is day d, "2" is 100 + d. */
  function CellCodes(value: string, d: int): (r: seq<int>)
    ensures forall x :: x in r <==> (value == "1" && x == d) || (value == "2" && x == HiddenCode(d))
  {
    if value == "1" then [d] else if value == "2" then [HiddenCode(d)] else []
  }

  /** The codes of the day cells 1..31 of a row, one list per day. */
  function DayCells(row: Row): (r: seq<seq<int>>)
    ensures |r| == 31
  {
    seq(31, k requires 0 <= k < 31 => CellCodes(Cell(row, k + 1), k + 1))
  }

  /** The loop of `fetchMonthData` over columns 1..31 of one row, in column order. */
  function DecodeMonthRow(row: Row): seq<int> {
    Flatten(DayCells(row))
  }

  /** A decoded row says exactly what its day cells say: day d is done iff column d holds
      "1", hidden iff it holds "2", and no other code appears. */
  lemma DecodeMonthRowCodes(row: Row)
    ensures forall d :: 1 <= d <= 31 ==> (d in DecodeMonthRow(row) <==> Cell(row, d) == "1")
    ensures forall d :: 1 <= d <= 31 ==> (HiddenCode(d) in DecodeMonthRow(row) <==> Cell(row, d) == "2")
    ensures forall x :: x in DecodeMonthRow(row) ==> 1 <= x <= 31 || 101 <= x <= 131
  {
    var cells := DayCells(row);
    forall x ensures x in DecodeMonthRow(row) <==> exists k :: 0 <= k < 31 && x in cells[k] {
      FlattenMember(cells, x);
    }
    forall d | 1 <= d <= 31 ensures d in DecodeMonthRow(row) <==> Cell(row, d) == "1" {
      assert cells[d - 1] == CellCodes(Cell(row, d), d);
    }
    forall d | 1 <= d <= 31 ensures HiddenCode(d) in DecodeMonthRow(row) <==> Cell(row, d) == "2" {
      assert cells[d - 1] == CellCodes(Cell(row, d), d);
    }
  }

  /** "month-year", the title of a month's sheet. */
  function SheetTitle(month: int, year: int): string {
    IntToString(month) + "-" + IntToString(year)
  }

  /** The key of `rowIndexCache`: "$sheetTitle-$name". */
  function CacheKey(title: string, name: string): string {
    title + "-" + name
  }

  lemma CacheKeyInjective(title: string, a: string, b: string)
    requires CacheKey(title, a) == CacheKey(title, b)
    ensures a == b
  {
    assert a == CacheKey(title, a)[|title| + 1..];
    assert b == CacheKey(title, b)[|title| + 1..];
  }

  /** Row `i` is the last of the first `n` rows whose name cell equals its own. */
  ghost predicate LastNamedBefore(rows: seq<Row>, i: int, n: int)
    requires 0 <= i < n <= |rows|
  {
    forall j :: i < j < n ==> Cell(rows[j], 0) != Cell(rows[i], 0)
  }

  /** Row `i` is the last row whose name cell equals its own. */
  ghost predicate IsLastNamed(rows: seq<Row>, i: int)
    requires 0 <= i < |rows|
  {
    LastNamedBefore(rows, i, |rows|)
  }

  /** The names `fetchMonthData` keeps from the first `n` rows: the non-blank ones. */
  ghost predicate NamesOfPrefix(days: map<string, seq<int>>, rows: seq<Row>, n: int)
    requires 0 <= n <= |rows|
  {
    forall name :: name in days <==> !IsBlank(name) && exists i :: 0 <= i < n && Cell(rows[i], 0) == name
  }

  /** Among the first `n` rows, the last row of each name is the one recorded. */
  ghost predicate LastRowsRecorded(days: map<string, seq<int>>, cache: map<string, int>, title: string, rows: seq<Row>, n: int)
    requires 0 <= n <= |rows|
  {
    forall i :: 0 <= i < n && !IsBlank(Cell(rows[i], 0)) && LastNamedBefore(rows, i, n) ==>
      && Cell(rows[i], 0) in days
      && days[Cell(rows[i], 0)] == DecodeMonthRow(rows[i])
      && CacheKey(title, Cell(rows[i], 0)) in cache
      && cache[CacheKey(title, Cell(rows[i], 0))] == i + 2
  }

  /** The cache differs from `cache0` only at the keys of recorded names. */
  ghost predicate CacheExtends(cache0: map<string, int>, cache: map<string, int>, days: map<string, seq<int>>, title: string) {
    && (forall k :: k in cache0 ==> k in cache)
    && (forall k :: k in cache && k !in cache0 ==> exists name :: name in days && k == CacheKey(title, name))
    && (forall k :: k in cache0 && (forall name :: name in days ==> k != CacheKey(title, name)) ==> cache[k] == cache0[k])
  }

  /** What `fetchMonthData` has built after its first `n` rows: the day map and the cache. */
  function MonthDataUpTo(cache: map<string, int>, title: string, rows: seq<Row>, n: int): (map<string, seq<int>>, map<string, int>)
    requires 0 <= n <= |rows|
    decreases n
  {
    if n == 0 then (map[], cache)
    else
      var (days, cache') := MonthDataUpTo(cache, title, rows, n - 1);
      var name := Cell(rows[n - 1], 0);
      if IsBlank(name) then (days, cache')
      else (days[name := DecodeMonthRow(rows[n - 1])], cache'[CacheKey(title, name) := n + 1])
  }

  /** After any prefix of the rows, the map holds exactly the non-blank names seen. */
  lemma {:induction false} MonthDataUpToNames(cache: map<string, int>, title: string, rows: seq<Row>, n: int)
    requires 0 <= n <= |rows|
    ensures NamesOfPrefix(MonthDataUpTo(cache, title, rows, n).0, rows, n)
    decreases n
  {
    if n > 0 {
      MonthDataUpToNames(cache, title, rows, n - 1);
      var days := MonthDataUpTo(cache, title, rows, n - 1).0;
      if IsBlank(Cell(rows[n - 1], 0)) {
        SkipBlankName(days, rows, n - 1);
      } else {
        RecordRowName(days, rows, n - 1, DecodeMonthRow(rows[n - 1]));
      }
    }
  }

  /** After any prefix of the rows, the last row of each name is the one recorded in both
      the map and the cache. */
  lemma {:induction false} MonthDataUpToLast(cache: map<string, int>, title: string, rows: seq<Row>, n: int)
    requires 0 <= n <= |rows|
    ensures LastRowsRecorded(MonthDataUpTo(cache, title, rows, n).0, MonthDataUpTo(cache, title, rows, n).1, title, rows, n)
    decreases n
  {
    if n > 0 {
      MonthDataUpToLast(cache, title, rows, n - 1);
      var (days, cache') := MonthDataUpTo(cache, title, rows, n - 1);
      if IsBlank(Cell(rows[n - 1], 0)) {
        SkipBlankLast(days, cache', title, rows, n - 1);
      } else {
        RecordRowLast(days, cache', title, rows, n - 1);
      }
    }
  }

  /** After any prefix of the rows, the cache changed only at keys of recorded names. */
  lemma {:induction false} MonthDataUpToCache(cache: map<string, int>, title: string, rows: seq<Row>, n: int)
    requires 0 <= n <= |rows|
    ensures CacheExtends(cache, MonthDataUpTo(cache, title, rows, n).1, MonthDataUpTo(cache, title, rows, n).0, title)
    decreases n
  {
    if n > 0 {
      MonthDataUpToCache(cache, title, rows, n - 1);
      var (days, cache') := MonthDataUpTo(cache, title, rows, n - 1);
      var name := Cell(rows[n - 1], 0);
      if !IsBlank(name) {
        RecordRowCache(cache, cache', days, title, name, DecodeMonthRow(rows[n - 1]), n + 1);
      }
    }
  }

  /** `fetchMonthData`: the day codes of every named row, and the row number of each name
      recorded in the cache. Blank names are skipped; when a name repeats, the later
      row wins in both the map and the cache. */
  method FetchMonthData(cache: map<string, int>, title: string, rows: seq<Row>)
    returns (days: map<string, seq<int>>, cache': map<string, int>)
    ensures NamesOfPrefix(days, rows, |rows|)
    ensures LastRowsRecorded(days, cache', title, rows, |rows|)
    ensures CacheExtends(cache, cache', days, title)
    ensures CacheCoherent(cache, title, rows) ==> CacheCoherent(cache', title, rows)
  {
    days, cache' := map[], cache;
    var n := 0;
    while n < |rows|
      invariant 0 <= n <= |rows|
      invariant (days, cache') == MonthDataUpTo(cache, title, rows, n)
    {
      var name := Cell(rows[n], 0);
      if !IsBlank(name) {
        days := days[name := DecodeMonthRow(rows[n])];
        cache' := cache'[CacheKey(title, name) := n + 2];
      }
      n := n + 1;
    }
    MonthDataUpToNames(cache, title, rows, n);
    MonthDataUpToLast(cache, title, rows, n);
    MonthDataUpToCache(cache, title, rows, n);
    if CacheCoherent(cache, title, rows) {
      MonthDataUpToCoherent(cache, title, rows, n);
    }
  }

  /** Every row number `fetchMonthData` caches points at a row of that name, so reading
      a month sheet keeps a coherent cache coherent, and makes a cache holding no key of
      that sheet coherent. */
  lemma {:induction false} MonthDataUpToCoherent(cache: map<string, int>, title: string, rows: seq<Row>, n: int)
    requires 0 <= n <= |rows|
    requires CacheCoherent(cache, title, rows)
    ensures CacheCoherent(MonthDataUpTo(cache, title, rows, n).1, title, rows)
    decreases n
  {
    if n > 0 {
      MonthDataUpToCoherent(cache, title, rows, n - 1);
      var c := MonthDataUpTo(cache, title, rows, n - 1).1;
      var name := Cell(rows[n - 1], 0);
      if !IsBlank(name) {
        var c' := c[CacheKey(title, name) := n + 1];
        forall nm | CacheKey(title, nm) in c'
          ensures 2 <= c'[CacheKey(title, nm)] < |rows| + 2 && Cell(rows[c'[CacheKey(title, nm)] - 2], 0) == nm
        {
          if CacheKey(title, nm) == CacheKey(title, name) {
            CacheKeyInjective(title, nm, name);
          }
        }
      }
    }
  }

  /** One step of `fetchMonthData`'s loop over a row with a non-blank name: the names. */
  lemma RecordRowName(days: map<string, seq<int>>, rows: seq<Row>, n: int, codes: seq<int>)
    requires 0 <= n < |rows| && !IsBlank(Cell(rows[n], 0))
    requires NamesOfPrefix(days, rows, n)
    ensures NamesOfPrefix(days[Cell(rows[n], 0) := codes], rows, n + 1)
  {
    var days2 := days[Cell(rows[n], 0) := codes];
    forall nm ensures nm in days2 <==> !IsBlank(nm) && exists i :: 0 <= i < n + 1 && Cell(rows[i], 0) == nm {
      if nm != Cell(rows[n], 0) && exists i :: 0 <= i < n + 1 && Cell(rows[i], 0) == nm {
        var i :| 0 <= i < n + 1 && Cell(rows[i], 0) == nm;
        assert i < n;
      }
    }
  }

  /** One step of `fetchMonthData`'s loop: the last row of each name stays recorded. */
  lemma RecordRowLast(days: map<string, seq<int>>, cache': map<string, int>, title: string, rows: seq<Row>, n: int)
    requires 0 <= n < |rows| && !IsBlank(Cell(rows[n], 0))
    requires LastRowsRecorded(days, cache', title, rows, n)
    ensures var name := Cell(rows[n], 0);
      LastRowsRecorded(days[name := DecodeMonthRow(rows[n])], cache'[CacheKey(title, name) := n + 2], title, rows, n + 1)
  {
    var name := Cell(rows[n], 0);
    var days2 := days[name := DecodeMonthRow(rows[n])];
    var cache2 := cache'[CacheKey(title, name) := n + 2];
    forall i | 0 <= i < n + 1 && !IsBlank(Cell(rows[i], 0)) && LastNamedBefore(rows, i, n + 1)
      ensures Cell(rows[i], 0) in days2 && days2[Cell(rows[i], 0)] == DecodeMonthRow(rows[i])
      ensures CacheKey(title, Cell(rows[i], 0)) in cache2 && cache2[CacheKey(title, Cell(rows[i], 0))] == i + 2
    {
      if i < n {
        var other := Cell(rows[i], 0);
        assert other != name;
        assert LastNamedBefore(rows, i, n);
        if CacheKey(title, other) == CacheKey(title, name) {
          CacheKeyInjective(title, other, name);
        }
      }
    }
  }

  /** One step of `fetchMonthData`'s loop over a row with a blank name: no name is added. */
  lemma SkipBlankName(days: map<string, seq<int>>, rows: seq<Row>, n: int)
    requires 0 <= n < |rows| && IsBlank(Cell(rows[n], 0))
    requires NamesOfPrefix(days, rows, n)
    ensures NamesOfPrefix(days, rows, n + 1)
  {
    forall nm | !IsBlank(nm) && (exists i :: 0 <= i < n + 1 && Cell(rows[i], 0) == nm)
      ensures exists i :: 0 <= i < n && Cell(rows[i], 0) == nm
    {
      var i :| 0 <= i < n + 1 && Cell(rows[i], 0) == nm;
      assert i < n;
    }
  }

  /** One step of `fetchMonthData`'s loop over a row with a blank name: the recorded rows
      stay the last of their names. */
  lemma SkipBlankLast(days: map<string, seq<int>>, cache': map<string, int>, title: string, rows: seq<Row>, n: int)
    requires 0 <= n < |rows| && IsBlank(Cell(rows[n], 0))
    requires LastRowsRecorded(days, cache', title, rows, n)
    ensures LastRowsRecorded(days, cache', title, rows, n + 1)
  {
    forall i | 0 <= i < n + 1 && !IsBlank(Cell(rows[i], 0)) && LastNamedBefore(rows, i, n + 1)
      ensures LastNamedBefore(rows, i, n)
    {
    }
  }

  /** One step of `fetchMonthData`'s loop: only keys of recorded names change. */
  lemma RecordRowCache(cache: map<string, int>, cache': map<string, int>, days: map<string, seq<int>>,
                       title: string, name: string, codes: seq<int>, v: int)
    requires CacheExtends(cache, cache', days, title)
    ensures CacheExtends(cache, cache'[CacheKey(title, name) := v], days[name := codes], title)
  {
    var days2 := days[name := codes];
    var cache2 := cache'[CacheKey(title, name) := v];
    forall k | k in cache2 && k !in cache ensures exists nm :: nm in days2 && k == CacheKey(title, nm) {
      if k != CacheKey(title, name) {
        var nm :| nm in days && k == CacheKey(title, nm);
        assert nm in days2;
      } else {
        assert name in days2;
      }
    }
  }

  /** `updateHabitStatus`'s scan of column A: the first row named exactly `habitName`. */
  function FindRow(rows: seq<Row>, habitName: string): (r: Option<nat>)
    ensures r.Some? ==> r.value < |rows| && Cell(rows[r.value], 0) == habitName
    ensures r.Some? ==> forall j :: 0 <= j < r.value ==> Cell(rows[j], 0) != habitName
    ensures r.None? ==> forall j :: 0 <= j < |rows| ==> Cell(rows[j], 0) != habitName
    decreases |rows|
  {
    if |rows| == 0 then None
    else if Cell(rows[0], 0) == habitName then Some(0)
    else match FindRow(rows[1..], habitName)
      case None => None
      case Some(i) => Some(i + 1)
  }

  /** The 32-cell row appended for a habit the month sheet does not have yet: the name,
      the status in the day's column when the day is 1..31, and empty cells elsewhere. */
  function NewRow(habitName: string, day: int, status: string): (r: Row)
    ensures |r| == 32
    ensures r[0] == habitName
    ensures forall i :: 1 <= i < 32 ==> r[i] == (if i == day then status else "")
  {
    seq(32, i requires 0 <= i < 32 => if i == 0 then habitName else if 1 <= day <= 31 && i == day then status else "")
  }

  /** A request `updateHabitStatus` sends: overwrite one cell, or append one row. */
  datatype SheetWrite = SetCell(rowNum: int, column: string, value: string) | AppendRow(cells: Row)

  datatype StatusUpdate = StatusUpdate(write: SheetWrite, cache: map<string, int>)

  /** `updateHabitStatus(month, year, habitName, day, status)`: a cached row number is used
      as is; otherwise the name column is scanned, and the first row named `habitName`
      (list index + 2) is cached and written, or, with no such row, a new row is appended
      and nothing is cached. `nameColumn` is what the read of column A returns. */
  function UpdateHabitStatus(cache: map<string, int>, title: string, nameColumn: seq<Row>,
                             habitName: string, day: int, status: string): (r: StatusUpdate)
    requires 0 <= day < 702
    ensures r.write.SetCell? ==> r.write.column == ColLetter(day) && r.write.value == status
    ensures var key := CacheKey(title, habitName);
      key in cache && cache[key] != -1 ==> r.write.SetCell? && r.write.rowNum == cache[key] && r.cache == cache
    ensures var key := CacheKey(title, habitName);
      !(key in cache && cache[key] != -1) && FindRow(nameColumn, habitName).Some? ==>
        && r.write.SetCell?
        && r.write.rowNum == FindRow(nameColumn, habitName).value + 2
        && r.cache == cache[key := r.write.rowNum]
    ensures var key := CacheKey(title, habitName);
      !(key in cache && cache[key] != -1) && FindRow(nameColumn, habitName).None? ==>
        r == StatusUpdate(AppendRow(NewRow(habitName, day, status)), cache)
  {
    var key := CacheKey(title, habitName);
    var rowNum := if key in cache then cache[key] else -1;
    if rowNum != -1 then StatusUpdate(SetCell(rowNum, ColLetter(day), status), cache)
    else match FindRow(nameColumn, habitName)
      case Some(i) => StatusUpdate(SetCell(i + 2, ColLetter(day), status), cache[key := i + 2])
      case None => StatusUpdate(AppendRow(NewRow(habitName, day, status)), cache)
  }

  /** `row` with cell `col` set to `value`, padding with empty cells if the row is short. */
  function SetRowCell(row: Row, col: nat, value: string): (r: Row)
    ensures |r| == if col < |row| then |row| else col + 1
    ensures Cell(r, col) == value
    ensures forall i :: i != col ==> Cell(r, i) == Cell(row, i)
  {
    var padded := if col < |row| then row else row + seq(col + 1 - |row|, _ => "");
    padded[col := value]
  }

  /** The effect of a write on the data rows (sheet row n is list index n - 2; a row past
      the end is created empty first). Writes above row 2 do not touch the data rows. */
  function ApplyWrite(rows: seq<Row>, w: SheetWrite): (r: seq<Row>)
    requires w.SetCell? ==> IsLabel(w.column)
  {
    match w
    case AppendRow(cells) => rows + [cells]
    case SetCell(rowNum, column, value) =>
      var idx := rowNum - 2;
      var col := ColumnIndex(column);
      if idx < 0 || col < 0 then rows
      else
        var padded := if idx < |rows| then rows else rows + seq(idx + 1 - |rows|, _ => []);
        padded[idx := SetRowCell(padded[idx], col, value)]
  }

  /** Every cached row number of this sheet points at a data row carrying that name. */
  ghost predicate CacheCoherent(cache: map<string, int>, title: string, rows: seq<Row>) {
    forall name :: CacheKey(title, name) in cache ==>
      2 <= cache[CacheKey(title, name)] < |rows| + 2 && Cell(rows[cache[CacheKey(title, name)] - 2], 0) == name
  }

  /** What `updateHabitStatus` writes for a day 1..31 lands in the habit's row under that
      day's column: afterwards some row of that name holds `status` for the day, every
      other cell of the sheet is as before or newly appended, and the cache still points
      at rows of the right names. */
  lemma StatusWriteLands(cache: map<string, int>, title: string, rows: seq<Row>,
                         habitName: string, day: int, status: string)
    requires 1 <= day <= 31
    requires CacheCoherent(cache, title, rows)
    ensures var u := UpdateHabitStatus(cache, title, rows, habitName, day, status);
      var rows' := ApplyWrite(rows, u.write);
      && |rows'| >= |rows|
      && CacheCoherent(u.cache, title, rows')
      && (exists k :: 0 <= k < |rows'| && Cell(rows'[k], 0) == habitName && Cell(rows'[k], day) == status
            && forall j, c :: 0 <= j < |rows| && (j != k || c != day) ==> Cell(rows'[j], c) == Cell(rows[j], c))
  {
    var key := CacheKey(title, habitName);
    var u := UpdateHabitStatus(cache, title, rows, habitName, day, status);
    var rows' := ApplyWrite(rows, u.write);
    DayColumns(day);
    if u.write.AppendRow? {
      var k := |rows|;
      assert Cell(rows'[k], 0) == habitName && Cell(rows'[k], day) == status;
      assert forall j :: 0 <= j < |rows| ==> rows'[j] == rows[j];
    } else {
      var k := u.write.rowNum - 2;
      assert 0 <= k < |rows|;
      assert rows'[k] == SetRowCell(rows[k], day, status);
      assert forall j :: 0 <= j < |rows| && j != k ==> rows'[j] == rows[j];
      assert |rows'| == |rows|;
      assert Cell(rows'[k], 0) == habitName;
      forall name | CacheKey(title, name) in u.cache
        ensures 2 <= u.cache[CacheKey(title, name)] < |rows'| + 2
        ensures Cell(rows'[u.cache[CacheKey(title, name)] - 2], 0) == name
      {
        if CacheKey(title, name) == key {
          CacheKeyInjective(title, name, habitName);
        }
      }
    }
  }

  // ---------------------------------------------------------------- headers

  /** The header `ensureSheetExists` writes into a new month sheet: "Habit Name", then the
      day numbers 1..31. */
  function MonthHeader(): (r: Row)
    ensures |r| == 32 && r[0] == "Habit Name"
    ensures forall d :: 1 <= d <= 31 ==> r[d] == IntToString(d)
  {
    seq(32, i requires 0 <= i < 32 => if i == 0 then "Habit Name" else IntToString(i))
  }

  /** Each day's status column sits under the header cell showing that day's number. */
  lemma HeaderLabelsDayColumns(day: int)
    requires 1 <= day <= 31
    ensures Cell(MonthHeader(), ColumnIndex(ColLetter(day))) == IntToString(day)
  {
    ColLetterIndex(day);
  }

  // ---------------------------------------------------------------- permanent delete

  /** The month-sheet filter of `deleteHabitPermanently`: keep the rows whose first cell
      differs from `habitName`. */
  function DeleteFromMonth(rows: seq<Row>, habitName: string): (r: seq<Row>)
    ensures |r| <= |rows|
    ensures forall i :: 0 <= i < |r| ==> r[i] in rows && Cell(r[i], 0) != habitName
    ensures forall i :: 0 <= i < |rows| && Cell(rows[i], 0) != habitName ==> rows[i] in r
  {
    Filter(rows, row => Cell(row, 0) != habitName)
  }

  /** The filter keeps the surviving rows in their original order. */
  lemma DeleteFromMonthKeepsOrder(a: seq<Row>, b: seq<Row>, habitName: string)
    ensures DeleteFromMonth(a + b, habitName) == DeleteFromMonth(a, habitName) + DeleteFromMonth(b, habitName)
  {
    FilterConcat(a, b, row => Cell(row, 0) != habitName);
  }

  /** The cache entry `deleteHabitPermanently` drops: only the deleted habit's own. */
  function DeleteFromCache(cache: map<string, int>, title: string, habitName: string): (r: map<string, int>)
    ensures CacheKey(title, habitName) !in r
    ensures forall k :: k in r <==> k in cache && k != CacheKey(title, habitName)
    ensures forall k :: k in r ==> r[k] == cache[k]
  {
    cache - {CacheKey(title, habitName)}
  }

  /** Deleting a row moves every later row up by one, yet the other cached row numbers
      are kept. With "A" in row 2 and "B" in row 3, deleting "A" leaves "B" in row 2 but
      cached at row 3, so the next toggle of "B" marks day 1 in a new nameless row
      and leaves "B"'s own row untouched. */
  lemma StaleCacheAfterDelete()
    ensures var title := "1-2026";
      var rows: seq<Row> := [["A"], ["B"]];
      var cache := map[CacheKey(title, "A") := 2, CacheKey(title, "B") := 3];
      var rows' := DeleteFromMonth(rows, "A");
      var cache' := DeleteFromCache(cache, title, "A");
      && CacheCoherent(cache, title, rows)
      && rows' == [["B"]]
      && !CacheCoherent(cache', title, rows')
      && ApplyWrite(rows', UpdateHabitStatus(cache', title, rows', "B", 1, "1").write) == [["B"], ["", "1"]]
  {
    var title := "1-2026";
    var rows: seq<Row> := [["A"], ["B"]];
    assert CacheKey(title, "B") != CacheKey(title, "A") by {
      assert CacheKey(title, "B")[|title| + 1] == 'B';
    }
    var cache := map[CacheKey(title, "A") := 2, CacheKey(title, "B") := 3];
    assert cache[CacheKey(title, "A")] == 2 && cache[CacheKey(title, "B")] == 3;
    forall name | CacheKey(title, name) in cache
      ensures 2 <= cache[CacheKey(title, name)] < |rows| + 2 && Cell(rows[cache[CacheKey(title, name)] - 2], 0) == name
    {
      if CacheKey(title, name) == CacheKey(title, "A") {
        CacheKeyInjective(title, name, "A");
      } else {
        CacheKeyInjective(title, name, "B");
      }
    }
    assert Filter(rows[1..], row => Cell(row, 0) != "A") == [["B"]];
    var rows' := DeleteFromMonth(rows, "A");
    assert rows' == [["B"]];
    var cache' := DeleteFromCache(cache, title, "A");
    assert CacheKey(title, "B") in cache' && cache'[CacheKey(title, "B")] == 3;
    assert !CacheCoherent(cache', title, rows');
    DayColumns(1);
    var u := UpdateHabitStatus(cache', title, rows', "B", 1, "1");
    assert u.write == SetCell(3, ColLetter(1), "1");
    assert ColumnIndex(ColLetter(1)) == 1;
    var empty: Row := [];
    assert SetRowCell(empty, 1, "1") == ["", "1"] by {
      assert empty + seq(2, _ => "") == ["", ""];
    }
    var padded := rows' + seq(1, _ => empty);
    assert padded == [["B"], empty];
    assert ApplyWrite(rows', u.write) == padded[1 := SetRowCell(padded[1], 1, "1")];
  }

  /** The keys of one sheet's entries: those starting with "title-". */
  predicate IsSheetKey(title: string, k: string) {
    |k| > |title| && k[..|title| + 1] == title + "-"
  }

  /** Corrected cache update for a deleted row: drop every entry of that sheet, since the
      rows below the deleted one have moved; entries of other sheets stay. */
  function DeleteFromCacheFixed(cache: map<string, int>, title: string): (r: map<string, int>)
    ensures forall k :: k in r <==> k in cache && !IsSheetKey(title, k)
    ensures forall k :: k in r ==> r[k] == cache[k]
  {
    map k | k in cache && !IsSheetKey(title, k) :: cache[k]
  }

  /** After the corrected delete, the cache again points only at rows of the right
      names, whatever it held before. */
  lemma DeleteKeepsCacheCoherent(cache: map<string, int>, title: string, rows: seq<Row>, habitName: string)
    ensures CacheCoherent(DeleteFromCacheFixed(cache, title), title, DeleteFromMonth(rows, habitName))
  {
    forall name ensures IsSheetKey(title, CacheKey(title, name)) {
      assert CacheKey(title, name)[..|title| + 1] == title + "-";
    }
  }
}
