/** The Room `Converters` of `HabitEntity`: a set of day codes is stored as its decimal
    numbers joined by ",", and read back by splitting at "," and keeping the tokens that
    parse as 32-bit integers. A Kotlin set is iterated in insertion order, so the set is
    given here as the sequence of its elements in that order. */
module Converters {
  import opened Options
  import opened Text
  import opened Decimal

  /** `fromSet(days)`: `days.joinToString(",")`. */
  function FromSet(days: seq<int>): (r: string)
    ensures |days| == 0 <==> r == []
  {
    Join(seq(|days|, i requires 0 <= i < |days| => IntToString(days[i])), ",")
  }

  /** The integers the tokens parse to; tokens `toIntOrNull` rejects are dropped. */
  function ParsedTokens(tokens: seq<string>): (r: set<int>)
    ensures forall x :: x in r <==> exists i :: 0 <= i < |tokens| && ParseInt(tokens[i]) == Some(x)
  {
    set i | 0 <= i < |tokens| && ParseInt(tokens[i]).Some? :: ParseInt(tokens[i]).value
  }

  /** `toSet(data)`: the empty string is the empty set; otherwise the parsed tokens. */
  function ToSet(data: string): (r: set<int>)
    ensures |data| == 0 ==> r == {}
    ensures forall x :: x in r ==> IsInt32(x)
  {
    if |data| == 0 then {} else ParsedTokens(Split(data, ","))
  }

  /** The decimal text of an integer has no comma. */
  lemma IntToStringHasNoComma(x: int)
    ensures forall i :: 0 <= i < |IntToString(x)| ==> IntToString(x)[i] != ','
  {
  }

  /** Storing and loading a set of 32-bit integers gives the same set back. */
  lemma ToSetFromSet(days: seq<int>)
    requires forall i :: 0 <= i < |days| ==> IsInt32(days[i])
    ensures ToSet(FromSet(days)) == set i | 0 <= i < |days| :: days[i]
  {
    if |days| > 0 {
      var parts := seq(|days|, i requires 0 <= i < |days| => IntToString(days[i]));
      forall k, i | 0 <= k < |parts| && 0 <= i < |parts[k]| ensures parts[k][i] != ',' {
        IntToStringHasNoComma(days[k]);
      }
      SplitJoinChar(parts, ',');
      assert Split(FromSet(days), ",") == parts;
      forall i | 0 <= i < |days| ensures ParseInt(parts[i]) == Some(days[i]) {
        ParseIntToString(days[i]);
      }
    }
  }

  /** A single token contributes its value, or nothing when it does not parse. */
  lemma ToSetOneToken(tok: string)
    requires |tok| > 0 && !Contains(tok, ",")
    ensures ParseInt(tok).Some? ==> ToSet(tok) == {ParseInt(tok).value}
    ensures ParseInt(tok).None? ==> ToSet(tok) == {}
  {
    assert Split(tok, ",") == [tok];
    if ParseInt(tok).Some? {
      var tokens := [tok];
      assert ParseInt(tokens[0]) == Some(ParseInt(tok).value);
      assert ParseInt(tok).value in ParsedTokens(tokens);
    }
  }
}
