/** The "MasterHabits" sheet of `GoogleSheetsRepository`: column A holds one habit per row
    as "name | icon". Covers reading it (`fetchMasterHabits`), the value `addHabit`
    appends, the master filter of `deleteHabitPermanently`, and `syncToMaster`. Besides
    the parser as written (split at the first " | "), a corrected parser (split at the
    last " | ") is given, under which every name round-trips. */
module MasterSheet {
  import opened Options
  import opened Seqs
  import opened Text
  import opened Habits
  import opened Sheets

  const Separator: string := " | "

  /** The value `addHabit` appends to the master sheet. */
  function MasterRaw(name: string, icon: string): string {
    name + Separator + icon
  }

  // ---------------------------------------------------------------- parsing as written

  /** `raw.split(" | ")[0]`: the habit name of a master cell, as the code reads it. */
  function MasterName(raw: string): (r: string)
    ensures !Contains(raw, Separator) ==> r == raw
    ensures Contains(raw, Separator) ==> r == raw[..IndexOf(raw, Separator).value]
  {
    Split(raw, Separator)[0]
  }

  /** The row mapping of `fetchMasterHabits`: blank cells are skipped; the name is the
      text before the first " | ", the icon the second piece, or "Check" without one. */
  function ParseMasterRow(row: Row): (r: Option<Habit>)
    ensures r.None? <==> IsBlank(Cell(row, 0))
    ensures r.Some? ==> r.value.completedDays == {} && r.value.name == MasterName(Cell(row, 0))
    ensures r.Some? && !Contains(Cell(row, 0), Separator) ==> r.value.iconName == DefaultIcon
    ensures r.Some? && Contains(Cell(row, 0), Separator) ==>
      var raw := Cell(row, 0);
      var i := IndexOf(raw, Separator).value;
      r.value.iconName == MasterName(raw[i + |Separator|..])
  {
    var raw := Cell(row, 0);
    if IsBlank(raw) then None
    else
      var parts := Split(raw, Separator);
      var icon := if |parts| > 1 then parts[1] else DefaultIcon;
      Some(Habit(parts[0], {}, icon))
  }

  /** `" | "` never straddles the end of `name`: it neither occurs in `name` nor would
      start inside it once " | " follows (a name ending in " |" would). */
  predicate SeparatorFreeName(name: string) {
    !Contains(name, Separator) && !(|name| >= 2 && name[|name| - 2..] == " |")
  }

  /** Under the parser as written, the value `addHabit` writes reads back as the same
      name and icon when the name satisfies `SeparatorFreeName` and the icon has no " | ". */
  lemma MasterRoundTrip(name: string, icon: string)
    requires SeparatorFreeName(name) && !Contains(icon, Separator)
    ensures ParseMasterRow([MasterRaw(name, icon)]) == Some(Habit(name, {}, icon))
  {
    var raw := MasterRaw(name, icon);
    forall j | 0 <= j < |name| ensures !OccursAt(raw, Separator, j) {
      NoSeparatorInName(name, icon, j);
    }
    SplitAfterFirst(name, Separator, icon);
    assert !IsBlank(raw) by { assert raw[|name| + 1] == '|'; }
  }

  /** In `name + " | " + icon`, no " | " starts inside a name satisfying `SeparatorFreeName`. */
  lemma NoSeparatorInName(name: string, icon: string, j: int)
    requires SeparatorFreeName(name) && 0 <= j < |name|
    ensures !OccursAt(MasterRaw(name, icon), Separator, j)
  {
    var raw := MasterRaw(name, icon);
    assert raw[..|name|] == name;
    if j + 3 <= |name| {
      assert raw[j..j + 3] == raw[..|name|][j..j + 3];
      assert !OccursAt(name, Separator, j);
    } else if j == |name| - 2 {
      assert name[|name| - 2..] == [name[|name| - 2], name[|name| - 1]];
      assert name[|name| - 2] != ' ' || name[|name| - 1] != '|';
      assert raw[j] == name[j] && raw[j + 1] == name[j + 1];
      assert raw[j..j + 3][0] == raw[j] && raw[j..j + 3][1] == raw[j + 1];
    } else {
      assert raw[j..j + 3][1] == raw[j + 1] == ' ';
    }
  }

  /** A name ending in " |" does not survive: "Read |" with icon "Book" is written as
      "Read | | Book" and read back as the habit "Read" with icon "| Book". */
  lemma NameEndingInBarMisparsed()
    ensures ParseMasterRow([MasterRaw("Read |", "Book")]) == Some(Habit("Read", {}, "| Book"))
  {
    var raw := MasterRaw("Read |", "Book");
    ReadBarSplits();
    assert !IsBlank(raw) by { assert raw[0] == 'R'; }
  }

  /** "Read | | Book" splits at its first " | " into "Read" and "| Book". */
  lemma ReadBarSplits()
    ensures Split(MasterRaw("Read |", "Book"), Separator) == ["Read", "| Book"]
  {
    var raw := MasterRaw("Read |", "Book");
    assert raw == "Read" + Separator + "| Book";
    forall j | 0 <= j < 4 ensures !OccursAt(raw, Separator, j) {
      assert raw[j + 1] != '|';
    }
    SplitAfterFirst("Read", Separator, "| Book");
    BarBookHasNoSeparator();
  }

  lemma BarBookHasNoSeparator()
    ensures !Contains("| Book", Separator)
  {
    var s := "| Book";
    assert s == ['|', ' ', 'B', 'o', 'o', 'k'];
    NoSpaceBeforeBar(s);
  }

  /** A text in which no space is followed by '|' holds no " | ". */
  lemma NoSpaceBeforeBar(s: string)
    requires forall i :: 0 <= i < |s| - 1 ==> s[i] != ' ' || s[i + 1] != '|'
    ensures !Contains(s, Separator)
  {
    forall j | 0 <= j <= |s| ensures !OccursAt(s, Separator, j) {
      if j + 3 <= |s| {
        assert s[j..j + 3][0] == s[j] && s[j..j + 3][1] == s[j + 1];
      }
    }
  }

  // ---------------------------------------------------------------- corrected parsing

  /** The name part under the corrected reading: the text before the LAST " | ". */
  function MasterNameFixed(raw: string): (r: string)
    ensures !Contains(raw, Separator) ==> r == raw
    ensures Contains(raw, Separator) ==> r == raw[..LastIndexOf(raw, Separator).value]
  {
    match LastIndexOf(raw, Separator)
    case None => raw
    case Some(i) => raw[..i]
  }

  /** The corrected row mapping: split at the last " | ", so the cell is exactly
      name + " | " + icon with no " | " after the name. */
  function ParseMasterRowFixed(row: Row): (r: Option<Habit>)
    ensures r.None? <==> IsBlank(Cell(row, 0))
    ensures r.Some? ==> r.value.completedDays == {} && r.value.name == MasterNameFixed(Cell(row, 0))
    ensures r.Some? && !Contains(Cell(row, 0), Separator) ==> r.value.iconName == DefaultIcon
    ensures r.Some? && Contains(Cell(row, 0), Separator) ==>
      && MasterRaw(r.value.name, r.value.iconName) == Cell(row, 0)
      && forall j :: |r.value.name| < j ==> !OccursAt(Cell(row, 0), Separator, j)
  {
    var raw := Cell(row, 0);
    if IsBlank(raw) then None
    else match LastIndexOf(raw, Separator)
      case None => Some(Habit(raw, {}, DefaultIcon))
      case Some(i) =>
        assert raw == raw[..i] + Separator + raw[i + |Separator|..];
        Some(Habit(raw[..i], {}, raw[i + |Separator|..]))
  }

  /** " | " never straddles the start of `icon`: it neither occurs in `icon` nor would end
      inside it after a preceding " | " (an icon starting with "| " would). */
  predicate SeparatorFreeIcon(icon: string) {
    !Contains(icon, Separator) && !(|icon| >= 2 && icon[..2] == "| ")
  }

  /** Under the corrected parser every name round-trips, whatever it contains, provided
      the icon satisfies `SeparatorFreeIcon` (icon names are plain words). */
  lemma MasterRoundTripFixed(name: string, icon: string)
    requires SeparatorFreeIcon(icon)
    ensures ParseMasterRowFixed([MasterRaw(name, icon)]) == Some(Habit(name, {}, icon))
  {
    var raw := MasterRaw(name, icon);
    var n := |name|;
    assert OccursAt(raw, Separator, n) by { assert raw[n..n + 3] == Separator; }
    forall j | n < j ensures !OccursAt(raw, Separator, j) {
      NoSeparatorAfterName(name, icon, j);
    }
    var i := LastIndexOf(raw, Separator).value;
    assert i == n;
    assert raw[..n] == name && raw[n + 3..] == icon;
    assert !IsBlank(raw) by { assert raw[n + 1] == '|'; }
  }

  /** In `name + " | " + icon`, no " | " starts after the one that ends the name. */
  lemma NoSeparatorAfterName(name: string, icon: string, j: int)
    requires SeparatorFreeIcon(icon) && |name| < j
    ensures !OccursAt(MasterRaw(name, icon), Separator, j)
  {
    var raw := MasterRaw(name, icon);
    var n := |name|;
    if j + 3 <= |raw| {
      assert raw[n + 3..] == icon;
      if j == n + 1 {
        assert raw[j] == '|';
      } else if j == n + 2 {
        assert raw[j + 1] == icon[0] && raw[j + 2] == icon[1];
        assert icon[..2] == [icon[0], icon[1]];
      } else {
        SuffixSlice(raw, n + 3, j, 3);
        assert !OccursAt(icon, Separator, j - n - 3);
      }
    }
  }

  /** On a cell with exactly one " | " the two parsers agree, so the correction changes
      nothing for well-formed rows. */
  lemma ParsersAgreeOnOneSeparator(row: Row)
    requires Contains(Cell(row, 0), Separator)
    requires forall j, k :: OccursAt(Cell(row, 0), Separator, j) && OccursAt(Cell(row, 0), Separator, k) ==> j == k
    ensures ParseMasterRow(row) == ParseMasterRowFixed(row)
  {
    var raw := Cell(row, 0);
    var i := IndexOf(raw, Separator).value;
    assert LastIndexOf(raw, Separator).value == i;
    var rest := raw[i + 3..];
    forall j ensures !OccursAt(rest, Separator, j) {
      if OccursAt(rest, Separator, j) {
        OccursInSuffix(raw, Separator, i + 3, j);
      }
    }
  }

  // ---------------------------------------------------------------- reading the sheet

  /** The `mapNotNull` of `fetchMasterHabits` for a given row mapping. */
  function FetchWith(rows: seq<Row>, parse: Row -> Option<Habit>): (r: seq<Habit>)
    ensures |r| <= |rows|
    decreases |rows|
  {
    if |rows| == 0 then []
    else match parse(rows[0])
      case None => FetchWith(rows[1..], parse)
      case Some(h) => [h] + FetchWith(rows[1..], parse)
  }

  /** `fetchMasterHabits` as written. */
  function FetchMasterHabits(rows: seq<Row>): seq<Habit> {
    FetchWith(rows, ParseMasterRow)
  }

  /** `fetchMasterHabits` with the corrected row mapping. */
  function FetchMasterHabitsFixed(rows: seq<Row>): seq<Habit> {
    FetchWith(rows, ParseMasterRowFixed)
  }

  /** Reading is row by row: appended rows are read after the existing ones. */
  lemma {:induction false} FetchWithAppend(a: seq<Row>, b: seq<Row>, parse: Row -> Option<Habit>)
    ensures FetchWith(a + b, parse) == FetchWith(a, parse) + FetchWith(b, parse)
    decreases |a|
  {
    if |a| == 0 {
      assert a + b == b;
    } else {
      assert (a + b)[1..] == a[1..] + b;
      FetchWithAppend(a[1..], b, parse);
    }
  }

  /** A habit is read from the sheet iff some row parses to it. */
  lemma {:induction false} FetchWithMember(rows: seq<Row>, parse: Row -> Option<Habit>, h: Habit)
    ensures h in FetchWith(rows, parse) <==> exists k :: 0 <= k < |rows| && parse(rows[k]) == Some(h)
    decreases |rows|
  {
    if |rows| > 0 {
      FetchWithMember(rows[1..], parse, h);
      if exists k :: 0 <= k < |rows| && parse(rows[k]) == Some(h) {
        var k :| 0 <= k < |rows| && parse(rows[k]) == Some(h);
        if k > 0 {
          assert rows[1..][k - 1] == rows[k];
        }
      }
      if h in FetchWith(rows[1..], parse) {
        var k :| 0 <= k < |rows[1..]| && parse(rows[1..][k]) == Some(h);
        assert rows[k + 1] == rows[1..][k];
      }
    }
  }

  /** A name is read from the sheet iff some row parses to a habit of that name. */
  lemma FetchWithNames(rows: seq<Row>, parse: Row -> Option<Habit>, name: string)
    ensures (exists i :: 0 <= i < |FetchWith(rows, parse)| && FetchWith(rows, parse)[i].name == name)
        <==> (exists k :: 0 <= k < |rows| && parse(rows[k]).Some? && parse(rows[k]).value.name == name)
  {
    var r := FetchWith(rows, parse);
    if exists i :: 0 <= i < |r| && r[i].name == name {
      var i :| 0 <= i < |r| && r[i].name == name;
      FetchWithMember(rows, parse, r[i]);
    }
    if exists k :: 0 <= k < |rows| && parse(rows[k]).Some? && parse(rows[k]).value.name == name {
      var k :| 0 <= k < |rows| && parse(rows[k]).Some? && parse(rows[k]).value.name == name;
      var h := parse(rows[k]).value;
      FetchWithMember(rows, parse, h);
      var i :| 0 <= i < |r| && r[i] == h;
    }
  }

  // ---------------------------------------------------------------- permanent delete

  /** The master filter of `deleteHabitPermanently`: keep the rows whose name part (text
      before the first " | ") differs from `habitName`; the kept rows are written back
      from row 2 on. */
  function DeleteFromMaster(rows: seq<Row>, habitName: string): (r: seq<Row>)
    ensures |r| <= |rows|
    ensures forall i :: 0 <= i < |r| ==> r[i] in rows && MasterName(Cell(r[i], 0)) != habitName
    ensures forall i :: 0 <= i < |rows| && MasterName(Cell(rows[i], 0)) != habitName ==> rows[i] in r
  {
    Filter(rows, row => MasterName(Cell(row, 0)) != habitName)
  }

  /** The filter keeps the surviving rows in their original order. */
  lemma DeleteFromMasterKeepsOrder(a: seq<Row>, b: seq<Row>, habitName: string)
    ensures DeleteFromMaster(a + b, habitName) == DeleteFromMaster(a, habitName) + DeleteFromMaster(b, habitName)
  {
    FilterConcat(a, b, row => MasterName(Cell(row, 0)) != habitName);
  }

  /** After the master filter, no habit of that name is read back from the master sheet. */
  lemma DeletedNameIsGone(rows: seq<Row>, habitName: string)
    ensures forall i :: 0 <= i < |FetchMasterHabits(DeleteFromMaster(rows, habitName))| ==>
      FetchMasterHabits(DeleteFromMaster(rows, habitName))[i].name != habitName
  {
    var d := DeleteFromMaster(rows, habitName);
    var parse: Row -> Option<Habit> := ParseMasterRow;
    forall k | 0 <= k < |d| && parse(d[k]).Some? ensures parse(d[k]).value.name != habitName {
      assert parse(d[k]) == ParseMasterRow(d[k]);
    }
    FetchWithNames(d, parse, habitName);
  }

  // ---------------------------------------------------------------- sync to master

  function LowerNames(habits: seq<Habit>): (r: set<string>)
    ensures forall n :: n in r <==> exists i :: 0 <= i < |habits| && Lower(habits[i].name) == n
  {
    set i | 0 <= i < |habits| :: Lower(habits[i].name)
  }

  /** The diff of `syncToMaster`: the local habits whose lower-cased name is not among
      the remote lower-cased names, in local order (the remote names are read once,
      before anything is appended). */
  function SyncToMaster(local: seq<Habit>, remote: seq<Habit>): (r: seq<Habit>)
    ensures |r| <= |local|
    ensures forall i :: 0 <= i < |r| ==> r[i] in local && Lower(r[i].name) !in LowerNames(remote)
    ensures forall i :: 0 <= i < |local| && Lower(local[i].name) !in LowerNames(remote) ==> local[i] in r
  {
    Filter(local, MissingFrom(remote))
  }

  /** A failed read of the master sheet reaches `syncToMaster` as an empty list, so
      every local habit is appended again. */
  lemma SyncAfterFailedRead(local: seq<Habit>)
    ensures SyncToMaster(local, []) == local
  {
    assert LowerNames([]) == {};
    FilterAll(local, MissingFrom([]));
  }

  /** The test `syncToMaster` applies to each local habit. */
  function MissingFrom(remote: seq<Habit>): Habit -> bool {
    (h: Habit) => Lower(h.name) !in LowerNames(remote)
  }

  /** The master rows `addHabit` appends for a list of habits, one per habit. */
  function RawRows(hs: seq<Habit>): (r: seq<Row>)
    ensures |r| == |hs|
    ensures forall i :: 0 <= i < |hs| ==> r[i] == [MasterRaw(hs[i].name, hs[i].iconName)]
  {
    seq(|hs|, i requires 0 <= i < |hs| => [MasterRaw(hs[i].name, hs[i].iconName)])
  }

  /** The rows one `syncToMaster` run appends, for a given row mapping. */
  function SyncAppendsWith(local: seq<Habit>, masterRows: seq<Row>, parse: Row -> Option<Habit>): seq<Row> {
    RawRows(SyncToMaster(local, FetchWith(masterRows, parse)))
  }

  /** `h` is read back as itself (without days) from the row `addHabit` writes for it. */
  predicate RoundTrips(parse: Row -> Option<Habit>, h: Habit) {
    parse([MasterRaw(h.name, h.iconName)]) == Some(Habit(h.name, {}, h.iconName))
  }

  /** Reading back rows written for round-tripping habits gives their names in order. */
  lemma {:induction false} FetchRawRows(hs: seq<Habit>, parse: Row -> Option<Habit>)
    requires forall i :: 0 <= i < |hs| ==> RoundTrips(parse, hs[i])
    ensures |FetchWith(RawRows(hs), parse)| == |hs|
    ensures forall i :: 0 <= i < |hs| ==> FetchWith(RawRows(hs), parse)[i].name == hs[i].name
    decreases |hs|
  {
    if |hs| > 0 {
      var rows := RawRows(hs);
      assert rows[1..] == RawRows(hs[1..]);
      FetchRawRows(hs[1..], parse);
      assert parse(rows[0]) == Some(Habit(hs[0].name, {}, hs[0].iconName));
      var r := FetchWith(rows, parse);
      assert r == [Habit(hs[0].name, {}, hs[0].iconName)] + FetchWith(RawRows(hs[1..]), parse);
    }
  }

  /** When every local habit round-trips, one sync run is enough: the next run, reading
      the sheet with the appended rows, appends nothing. */
  lemma SyncSettles(local: seq<Habit>, rows: seq<Row>, parse: Row -> Option<Habit>)
    requires forall i :: 0 <= i < |local| ==> RoundTrips(parse, local[i])
    ensures SyncAppendsWith(local, rows + SyncAppendsWith(local, rows, parse), parse) == []
  {
    var remote := FetchWith(rows, parse);
    var missing := SyncToMaster(local, remote);
    var added := RawRows(missing);
    FetchWithAppend(rows, added, parse);
    forall i | 0 <= i < |missing| ensures RoundTrips(parse, missing[i]) {
      var j :| 0 <= j < |local| && local[j] == missing[i];
    }
    FetchRawRows(missing, parse);
    var remote' := FetchWith(rows + added, parse);
    assert remote' == remote + FetchWith(added, parse);
    forall i | 0 <= i < |local| ensures Lower(local[i].name) in LowerNames(remote') {
      if Lower(local[i].name) in LowerNames(remote) {
        var k :| 0 <= k < |remote| && Lower(remote[k].name) == Lower(local[i].name);
        assert remote'[k] == remote[k];
      } else {
        var j :| 0 <= j < |missing| && missing[j] == local[i];
        assert remote'[|remote| + j].name == local[i].name;
      }
    }
    assert Count(local, MissingFrom(remote')) == 0;
  }

  /** As written, a sync run settles when every local name satisfies `SeparatorFreeName`
      and no icon contains " | ". */
  lemma SyncSettlesAsWritten(local: seq<Habit>, rows: seq<Row>)
    requires forall i :: 0 <= i < |local| ==> SeparatorFreeName(local[i].name) && !Contains(local[i].iconName, Separator)
    ensures SyncAppendsWith(local, rows + SyncAppendsWith(local, rows, ParseMasterRow), ParseMasterRow) == []
  {
    forall i | 0 <= i < |local| ensures RoundTrips(ParseMasterRow, local[i]) {
      MasterRoundTrip(local[i].name, local[i].iconName);
    }
    SyncSettles(local, rows, ParseMasterRow);
  }

  /** On an empty master sheet, a sync run appends "Read | | Book" for the habit "Read |". */
  lemma FirstSyncAppendsReadBar()
    ensures SyncAppendsWith([Habit("Read |", {}, "Book")], [], ParseMasterRow) == [["Read | | Book"]]
  {
    var local := [Habit("Read |", {}, "Book")];
    var none: seq<Row> := [];
    assert FetchWith(none, ParseMasterRow) == [];
    assert Count(local, MissingFrom([])) == 1;
    FilterAll(local, MissingFrom([]));
    assert SyncToMaster(local, []) == local;
    assert MasterRaw("Read |", "Book") == "Read | | Book";
    assert RawRows(local) == [[MasterRaw("Read |", "Book")]];
  }

  /** As written, a habit named "Read |" is appended again by every sync run: the sheet
      never shows it under its own name. */
  lemma SyncNeverSettles()
    ensures var local := [Habit("Read |", {}, "Book")];
      var once := SyncAppendsWith(local, [], ParseMasterRow);
      && once == [["Read | | Book"]]
      && SyncAppendsWith(local, once, ParseMasterRow) == once
  {
    var local := [Habit("Read |", {}, "Book")];
    FirstSyncAppendsReadBar();
    var once: seq<Row> := [["Read | | Book"]];
    NameEndingInBarMisparsed();
    assert once[0] == [MasterRaw("Read |", "Book")];
    var remote := FetchWith(once, ParseMasterRow);
    assert once[1..] == [];
    assert remote == [Habit("Read", {}, "| Book")];
    assert Lower("Read |") !in LowerNames(remote) by {
      assert |Lower(remote[0].name)| == 4;
    }
    assert Count(local, MissingFrom(remote)) == 1;
    FilterAll(local, MissingFrom(remote));
    assert SyncToMaster(local, remote) == local;
  }

  /** With the corrected parser a sync run settles for any names, provided no icon
      breaks `SeparatorFreeIcon`. */
  lemma SyncSettlesFixed(local: seq<Habit>, rows: seq<Row>)
    requires forall i :: 0 <= i < |local| ==> SeparatorFreeIcon(local[i].iconName)
    ensures SyncAppendsWith(local, rows + SyncAppendsWith(local, rows, ParseMasterRowFixed), ParseMasterRowFixed) == []
  {
    forall i | 0 <= i < |local| ensures RoundTrips(ParseMasterRowFixed, local[i]) {
      MasterRoundTripFixed(local[i].name, local[i].iconName);
    }
    SyncSettles(local, rows, ParseMasterRowFixed);
  }
}
