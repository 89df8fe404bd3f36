/** The setup screen's link handling: pulling the spreadsheet id out of a pasted
    Google Sheets link, and the submit decision that stores it or reports an error. */
module Setup {
  import opened Options
  import opened Text

  /** The literal part of the pattern `/spreadsheets/d/([a-zA-Z0-9-_]+)`. */
  const Prefix: string := "/spreadsheets/d/"

  const InvalidLinkMessage: string := "Invalid Link. Please paste the full Google Sheets URL."

  /** The character class `[a-zA-Z0-9-_]`. */
  predicate IsIdChar(c: char) {
    ('a' <= c <= 'z') || ('A' <= c <= 'Z') || ('0' <= c <= '9') || c == '-' || c == '_'
  }

  predicate AllIdChars(s: string) {
    forall i :: 0 <= i < |s| ==> IsIdChar(s[i])
  }

  /** The pattern matches at `i`: the prefix, then at least one id character. */
  predicate MatchAt(url: string, i: int) {
    OccursAt(url, Prefix, i) && i + |Prefix| < |url| && IsIdChar(url[i + |Prefix|])
  }

  /** No id character continues the run at position `k`. */
  predicate IdEndsAt(s: string, k: int) {
    k == |s| || (0 <= k < |s| && !IsIdChar(s[k]))
  }

  /** The end of the longest run of id characters starting at `i` (the greedy `+`). */
  function RunEnd(s: string, i: nat): (r: nat)
    requires i <= |s|
    ensures i <= r <= |s|
    ensures AllIdChars(s[i..r])
    ensures r == |s| || !IsIdChar(s[r])
    decreases |s| - i
  {
    if i < |s| && IsIdChar(s[i]) then RunEnd(s, i + 1) else i
  }

  /** The leftmost match at or after `from` (`Regex.find` scans left to right). */
  function FindMatchFrom(url: string, from: nat): (r: Option<nat>)
    ensures r.Some? ==> from <= r.value && MatchAt(url, r.value)
    ensures r.Some? ==> forall j :: from <= j < r.value ==> !MatchAt(url, j)
    ensures r.None? ==> forall j :: from <= j ==> !MatchAt(url, j)
    decreases |url| - from
  {
    if from + |Prefix| >= |url| then None
    else if MatchAt(url, from) then Some(from)
    else FindMatchFrom(url, from + 1)
  }

  /** `extractId(url)`: the id group of the leftmost match; with no match, the whole
      input when it is longer than 20 characters and has no '/'; otherwise `None`. */
  function ExtractId(url: string): (r: Option<string>)
    ensures r.Some? ==> |r.value| > 0 && '/' !in r.value
  {
    match FindMatchFrom(url, 0)
    case Some(i) =>
      var start := i + |Prefix|;
      var id := url[start..RunEnd(url, start)];
      assert id[0] == url[start];
      Some(id)
    case None =>
      if |url| > 20 && '/' !in url then Some(url) else None
  }

  /** The first match at `i`: the pattern matches there and nowhere before. */
  predicate FirstMatchAt(url: string, i: int) {
    MatchAt(url, i) && forall j :: 0 <= j < i ==> !MatchAt(url, j)
  }

  /** With a match, the result is the longest run of id characters right after the
      prefix of the first match. */
  lemma ExtractIdMatched(url: string, i: nat)
    requires FirstMatchAt(url, i)
    ensures ExtractId(url).Some?
    ensures var id := ExtractId(url).value;
      AllIdChars(id) && OccursAt(url, Prefix + id, i) && IdEndsAt(url, i + |Prefix| + |id|)
  {
    assert FindMatchFrom(url, 0) == Some(i);
    var id := ExtractId(url).value;
    assert url[i..i + |Prefix| + |id|] == Prefix + id by {
      assert url[i..i + |Prefix|] == Prefix;
    }
  }

  /** Without a match, only a bare id longer than 20 characters and free of '/' passes. */
  lemma ExtractIdUnmatched(url: string)
    requires forall i :: !MatchAt(url, i)
    ensures ExtractId(url).Some? <==> |url| > 20 && '/' !in url
    ensures ExtractId(url).Some? ==> ExtractId(url).value == url
  {
    assert FindMatchFrom(url, 0).None?;
  }

  /** A link built as `base + "/spreadsheets/d/" + id + rest`, where the prefix does not
      occur earlier and `rest` does not continue the id, gives back exactly `id`. */
  lemma ExtractIdFromLink(base: string, id: string, rest: string)
    requires IndexOf(base + Prefix, Prefix) == Some(|base|)
    requires |id| > 0 && AllIdChars(id)
    requires |rest| == 0 || !IsIdChar(rest[0])
    ensures ExtractId(base + Prefix + id + rest) == Some(id)
  {
    var url := base + Prefix + id + rest;
    var start := |base| + |Prefix|;
    LinkMatchesAfterBase(base, id, rest);
    assert url[start..start + |id|] == id;
    RunOver(url, start, start + |id|);
    assert start + |id| == |url| || url[start + |id|] == rest[0];
  }

  /** In such a link the first match is the one right after `base`. */
  lemma LinkMatchesAfterBase(base: string, id: string, rest: string)
    requires IndexOf(base + Prefix, Prefix) == Some(|base|)
    requires |id| > 0
    requires IsIdChar(id[0])
    ensures FindMatchFrom(base + Prefix + id + rest, 0) == Some(|base|)
  {
    var url := base + Prefix + id + rest;
    var start := |base| + |Prefix|;
    assert url[|base|..start] == Prefix;
    assert MatchAt(url, |base|) by { assert url[start] == id[0]; }
    forall j | 0 <= j < |base| ensures !MatchAt(url, j) {
      assert url[j..j + |Prefix|] == (base + Prefix)[j..j + |Prefix|];
      assert !OccursAt(base + Prefix, Prefix, j);
    }
  }

  /** The run starting at `i` covers at least `[i, k)` when those are all id characters,
      and stops at `k` when `k` ends the input or holds a non-id character. */
  lemma {:induction false} RunOver(s: string, i: nat, k: nat)
    requires i <= k <= |s|
    requires forall j :: i <= j < k ==> IsIdChar(s[j])
    requires k == |s| || !IsIdChar(s[k])
    ensures RunEnd(s, i) == k
    decreases k - i
  {
    if i < k {
      RunOver(s, i + 1, k);
    }
  }

  /** The setup screen's state: the stored spreadsheet id, the error shown under the
      text field, and whether setup has finished. */
  datatype SetupState = SetupState(spreadsheetId: Option<string>, error: Option<string>, completed: bool)

  /** `onSubmit()`: store the extracted id and finish, or show the error. */
  function Submit(s: SetupState, url: string): (r: SetupState)
    ensures r.completed <==> ExtractId(url).Some? || s.completed
    ensures ExtractId(url).Some? ==> r.spreadsheetId == ExtractId(url) && r.error == s.error
    ensures ExtractId(url).None? ==> r.spreadsheetId == s.spreadsheetId && r.error == Some(InvalidLinkMessage)
  {
    match ExtractId(url)
    case Some(id) => s.(spreadsheetId := Some(id), completed := true)
    case None => s.(error := Some(InvalidLinkMessage))
  }
}
