/** String helpers of the Kotlin standard library that the app relies on:
    `isBlank`, `lowercase`, `equals(ignoreCase = true)`, `indexOf`, `lastIndexOf`,
    `split(delimiter)` and `joinToString(separator)`. */
module Text {
  import opened Options

  /** Kotlin's `Char.isWhitespace()` on the JVM: `Character.isWhitespace(c) ||
      Character.isSpaceChar(c)`, i.e. the ASCII controls 9..13 and 28..31 and the
      Unicode space separators. */
  predicate IsWhitespace(c: char) {
    var k := c as int;
    (9 <= k <= 13) || (28 <= k <= 32) || k == 0xA0 || k == 0x1680
    || (0x2000 <= k <= 0x200A) || k == 0x2028 || k == 0x2029 || k == 0x202F
    || k == 0x205F || k == 0x3000
  }

  /** `s.isBlank()`: empty or only whitespace. */
  predicate IsBlank(s: string) {
    forall i :: 0 <= i < |s| ==> IsWhitespace(s[i])
  }

  /** Lower-casing of one character, restricted to the ASCII letters. */
  function LowerChar(c: char): (r: char)
    ensures 'A' <= c <= 'Z' ==> 'a' <= r <= 'z' && r as int - c as int == 32
    ensures !('A' <= c <= 'Z') ==> r == c
  {
    if 'A' <= c <= 'Z' then (c as int + 32) as char else c
  }

  /** `s.lowercase()`, restricted to the ASCII letters. */
  function Lower(s: string): (r: string)
    ensures |r| == |s|
    ensures forall i :: 0 <= i < |s| ==> r[i] == LowerChar(s[i])
  {
    seq(|s|, i requires 0 <= i < |s| => LowerChar(s[i]))
  }

  /** `a.equals(b, ignoreCase = true)`: same length and the characters agree up to case. */
  predicate EqualsIgnoreCase(a: string, b: string) {
    |a| == |b| && forall i :: 0 <= i < |a| ==> LowerChar(a[i]) == LowerChar(b[i])
  }

  /** The case-insensitive comparison of `addHabit` and the lower-cased comparison of
      `syncToMaster` are the same relation. */
  lemma EqualsIgnoreCaseIffLowerEqual(a: string, b: string)
    ensures EqualsIgnoreCase(a, b) <==> Lower(a) == Lower(b)
  {
    if Lower(a) == Lower(b) {
      assert |a| == |b|;
      forall i | 0 <= i < |a| ensures LowerChar(a[i]) == LowerChar(b[i]) {
        assert Lower(a)[i] == Lower(b)[i];
      }
    }
  }

  /** `pat` occurs in `s` starting at index `i`. */
  predicate OccursAt(s: string, pat: string, i: int) {
    0 <= i && i + |pat| <= |s| && s[i..i + |pat|] == pat
  }

  /** An occurrence inside the suffix `s[k..]` is an occurrence in `s`, shifted by `k`. */
  lemma OccursInSuffix(s: string, pat: string, k: nat, j: int)
    requires k <= |s| && OccursAt(s[k..], pat, j)
    ensures OccursAt(s, pat, k + j)
  {
    var t := s[k..];
    assert forall m :: j <= m < j + |pat| ==> t[m] == s[k + m];
    assert s[k + j..k + j + |pat|] == t[j..j + |pat|];
  }

  /** A slice of `s` lying after `k` is the same slice of the suffix `s[k..]`, shifted by `k`. */
  lemma SuffixSlice(s: string, k: nat, j: nat, len: nat)
    requires k <= j && j + len <= |s|
    ensures s[j..j + len] == s[k..][j - k..j - k + len]
  {
    var t := s[k..];
    assert forall m :: j - k <= m < j - k + len ==> t[m] == s[k + m];
  }

  /** `pat` occurs somewhere in `s` (Kotlin's `s.contains(pat)`). */
  predicate Contains(s: string, pat: string) {
    exists i :: 0 <= i <= |s| && OccursAt(s, pat, i)
  }

  /** The first occurrence of `pat` at or after `from`. */
  function IndexOfFrom(s: string, pat: string, from: nat): (r: Option<nat>)
    ensures r.Some? ==> from <= r.value && OccursAt(s, pat, r.value)
    ensures r.Some? ==> forall j :: from <= j < r.value ==> !OccursAt(s, pat, j)
    ensures r.None? ==> forall j :: from <= j ==> !OccursAt(s, pat, j)
    decreases |s| - from
  {
    if from + |pat| > |s| then None
    else if s[from..from + |pat|] == pat then Some(from)
    else IndexOfFrom(s, pat, from + 1)
  }

  /** `s.indexOf(pat)`, with -1 as `None`. */
  function IndexOf(s: string, pat: string): (r: Option<nat>)
    ensures r.Some? ==> OccursAt(s, pat, r.value) && forall j :: 0 <= j < r.value ==> !OccursAt(s, pat, j)
    ensures r.None? <==> !Contains(s, pat)
  {
    IndexOfFrom(s, pat, 0)
  }

  /** The last occurrence of `pat` that starts strictly before `upTo`. */
  function LastIndexBefore(s: string, pat: string, upTo: nat): (r: Option<nat>)
    ensures r.Some? ==> r.value < upTo && OccursAt(s, pat, r.value)
    ensures r.Some? ==> forall j :: r.value < j < upTo ==> !OccursAt(s, pat, j)
    ensures r.None? ==> forall j :: 0 <= j < upTo ==> !OccursAt(s, pat, j)
    decreases upTo
  {
    if upTo == 0 then None
    else if OccursAt(s, pat, upTo - 1) then Some(upTo - 1)
    else LastIndexBefore(s, pat, upTo - 1)
  }

  /** `s.lastIndexOf(pat)`, with -1 as `None`. */
  function LastIndexOf(s: string, pat: string): (r: Option<nat>)
    ensures r.Some? ==> OccursAt(s, pat, r.value) && forall j :: r.value < j ==> !OccursAt(s, pat, j)
    ensures r.None? <==> !Contains(s, pat)
  {
    LastIndexBefore(s, pat, |s| + 1)
  }

  /** No occurrence of `pat` starts before `i` in `s`, so none occurs in `s[..i]`. */
  lemma NoneInPrefix(s: string, pat: string, i: nat)
    requires |pat| > 0 && i <= |s|
    requires forall j :: 0 <= j < i ==> !OccursAt(s, pat, j)
    ensures !Contains(s[..i], pat)
  {
    forall j | 0 <= j <= i ensures !OccursAt(s[..i], pat, j) {
      if j + |pat| <= i {
        assert !OccursAt(s, pat, j);
        assert s[..i][j..j + |pat|] == s[j..j + |pat|];
      }
    }
  }

  /** `s.split(sep)` for a non-empty literal delimiter: cut at the leftmost occurrence,
      then continue after it, so occurrences never overlap. Empty pieces are kept. */
  function Split(s: string, sep: string): (r: seq<string>)
    requires |sep| > 0
    ensures |r| >= 1
    ensures !Contains(s, sep) ==> r == [s]
    decreases |s|
  {
    match IndexOf(s, sep)
    case None => [s]
    case Some(i) => [s[..i]] + Split(s[i + |sep|..], sep)
  }

  /** The first piece of a split never contains the delimiter. */
  lemma FirstPieceHasNoDelimiter(s: string, sep: string)
    requires |sep| > 0
    ensures !Contains(Split(s, sep)[0], sep)
  {
    match IndexOf(s, sep)
    case None =>
    case Some(i) => NoneInPrefix(s, sep, i);
  }

  /** `parts.joinToString(sep)`. */
  function Join(parts: seq<string>, sep: string): (r: string)
    ensures |parts| == 0 ==> r == []
    ensures |parts| == 1 ==> r == parts[0]
    decreases |parts|
  {
    if |parts| == 0 then []
    else if |parts| == 1 then parts[0]
    else parts[0] + sep + Join(parts[1..], sep)
  }

  lemma JoinCons(a: string, tail: seq<string>, sep: string)
    requires |tail| >= 1
    ensures Join([a] + tail, sep) == a + sep + Join(tail, sep)
  {
    assert ([a] + tail)[1..] == tail;
  }

  /** Splitting loses nothing: joining the pieces with the delimiter rebuilds the input. */
  lemma {:induction false} JoinSplit(s: string, sep: string)
    requires |sep| > 0
    ensures Join(Split(s, sep), sep) == s
    decreases |s|
  {
    var o := IndexOf(s, sep);
    if o.Some? {
      var i := o.value;
      var rest := s[i + |sep|..];
      JoinSplit(rest, sep);
      SplitStep(s, sep, i);
      JoinCons(s[..i], Split(rest, sep), sep);
    }
  }

  /** One step of `split`: the piece before the first delimiter, then the rest. */
  lemma SplitStep(s: string, sep: string, i: nat)
    requires |sep| > 0
    requires IndexOf(s, sep) == Some(i)
    ensures Split(s, sep) == [s[..i]] + Split(s[i + |sep|..], sep)
    ensures s == s[..i] + sep + s[i + |sep|..]
  {
    assert s == s[..i] + s[i..i + |sep|] + s[i + |sep|..];
  }

  /** When the first occurrence of `sep` in `a + sep + b` is the one right after `a`,
      splitting yields `a` followed by the pieces of `b`. */
  lemma SplitAfterFirst(a: string, sep: string, b: string)
    requires |sep| > 0
    requires forall j :: 0 <= j < |a| ==> !OccursAt(a + sep + b, sep, j)
    ensures Split(a + sep + b, sep) == [a] + Split(b, sep)
  {
    var s := a + sep + b;
    assert OccursAt(s, sep, |a|) by { assert s[|a|..|a| + |sep|] == sep; }
    assert IndexOf(s, sep) == Some(|a|);
    assert s[..|a|] == a;
    assert s[|a| + |sep|..] == b;
  }

  /** A string without the character `c` does not contain `[c]`. */
  lemma CharAbsent(s: string, c: char)
    requires forall i :: 0 <= i < |s| ==> s[i] != c
    ensures !Contains(s, [c])
  {
    forall j | 0 <= j <= |s| ensures !OccursAt(s, [c], j) {
      if j < |s| { assert s[j..j + 1][0] == s[j]; }
    }
  }

  /** For a one-character delimiter that occurs in none of the pieces,
      `split` undoes `joinToString`. */
  lemma {:induction false} SplitJoinChar(parts: seq<string>, c: char)
    requires |parts| >= 1
    requires forall k, i :: 0 <= k < |parts| && 0 <= i < |parts[k]| ==> parts[k][i] != c
    ensures Split(Join(parts, [c]), [c]) == parts
    decreases |parts|
  {
    if |parts| == 1 {
      CharAbsent(parts[0], c);
    } else {
      var a := parts[0];
      var b := Join(parts[1..], [c]);
      forall j | 0 <= j < |a| ensures !OccursAt(a + [c] + b, [c], j) {
        assert (a + [c] + b)[j..j + 1][0] == a[j];
      }
      SplitAfterFirst(a, [c], b);
      SplitJoinChar(parts[1..], c);
    }
  }
}
