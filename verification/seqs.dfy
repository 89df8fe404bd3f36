/** Generic list operations from the Kotlin standard library used by the app:
    `filter`, `count`, `chunked` and `IntRange.toList`. */
module Seqs {

  /** `s.filter(p)`: the elements satisfying `p`, in their original order. */
  function Filter<T>(s: seq<T>, p: T -> bool): (r: seq<T>)
    ensures |r| <= |s|
    ensures forall i :: 0 <= i < |r| ==> r[i] in s && p(r[i])
    ensures forall i :: 0 <= i < |s| && p(s[i]) ==> s[i] in r
    decreases |s|
  {
    if |s| == 0 then []
    else if p(s[0]) then [s[0]] + Filter(s[1..], p)
    else Filter(s[1..], p)
  }

  /** Filtering distributes over concatenation: the kept elements of `a` all come
      before the kept elements of `b`, so the relative order is preserved. */
  lemma {:induction false} FilterConcat<T>(a: seq<T>, b: seq<T>, p: T -> bool)
    ensures Filter(a + b, p) == Filter(a, p) + Filter(b, p)
    decreases |a|
  {
    if |a| == 0 {
      assert a + b == b;
    } else {
      assert (a + b)[1..] == a[1..] + b;
      FilterConcat(a[1..], b, p);
    }
  }

  /** Filtering keeps everything exactly when every element satisfies `p`. */
  lemma {:induction false} FilterAll<T>(s: seq<T>, p: T -> bool)
    ensures Filter(s, p) == s <==> forall i :: 0 <= i < |s| ==> p(s[i])
    decreases |s|
  {
    if |s| > 0 {
      FilterAll(s[1..], p);
      if !p(s[0]) {
        assert |Filter(s, p)| < |s| by { assert |Filter(s[1..], p)| <= |s[1..]|; }
      } else if Filter(s, p) == s {
        assert Filter(s[1..], p) == Filter(s, p)[1..];
      }
    }
  }

  /** `s.count(p)`. */
  function Count<T>(s: seq<T>, p: T -> bool): (n: nat)
    ensures n <= |s|
    ensures n == |Filter(s, p)|
    ensures n == 0 <==> forall i :: 0 <= i < |s| ==> !p(s[i])
    ensures n == |s| <==> forall i :: 0 <= i < |s| ==> p(s[i])
    decreases |s|
  {
    if |s| == 0 then 0
    else (if p(s[0]) then 1 else 0) + Count(s[1..], p)
  }

  /** The element `x` occurs exactly once in `s`. */
  ghost predicate OccursOnce<T>(s: seq<T>, x: T) {
    exists i :: 0 <= i < |s| && s[i] == x && forall j :: 0 <= j < |s| && j != i ==> s[j] != x
  }

  /** `(lo until hi).toList()`: the integers lo, lo+1, ..., hi-1. */
  function Range(lo: int, hi: int): (r: seq<int>)
    ensures |r| == if hi <= lo then 0 else hi - lo
    ensures forall i :: 0 <= i < |r| ==> r[i] == lo + i
  {
    if hi <= lo then [] else seq(hi - lo, i requires 0 <= i < hi - lo => lo + i)
  }

  /** Concatenation of a list of lists. */
  function Flatten<T>(ss: seq<seq<T>>): seq<T>
    decreases |ss|
  {
    if |ss| == 0 then [] else ss[0] + Flatten(ss[1..])
  }

  lemma {:induction false} FlattenMember<T>(ss: seq<seq<T>>, x: T)
    ensures x in Flatten(ss) <==> exists k :: 0 <= k < |ss| && x in ss[k]
    decreases |ss|
  {
    if |ss| > 0 {
      FlattenMember(ss[1..], x);
      assert forall k :: 0 <= k < |ss[1..]| ==> ss[1..][k] == ss[k + 1];
      if x in Flatten(ss[1..]) {
        var k :| 0 <= k < |ss[1..]| && x in ss[1..][k];
        assert x in ss[k + 1];
      }
    }
  }

  /** `s.chunked(n)`: consecutive pieces of `n` elements; only the last may be shorter,
      none is empty, and gluing them back gives `s`. */
  function Chunk<T>(s: seq<T>, n: nat): (r: seq<seq<T>>)
    requires n > 0
    ensures Flatten(r) == s
    ensures forall k :: 0 <= k < |r| ==> 0 < |r[k]| <= n
    ensures forall k :: 0 <= k < |r| - 1 ==> |r[k]| == n
    decreases |s|
  {
    if |s| == 0 then []
    else if |s| <= n then [s]
    else [s[..n]] + Chunk(s[n..], n)
  }

  /** `chunked(n)` makes the fewest pieces that hold `s`: the first `|r| - 1` pieces do
      not reach the end, and `|r|` pieces of `n` do. */
  lemma {:induction false} ChunkCount<T>(s: seq<T>, n: nat)
    requires n > 0
    ensures |s| == 0 <==> |Chunk(s, n)| == 0
    ensures |Chunk(s, n)| > 0 ==> (|Chunk(s, n)| - 1) * n < |s| <= |Chunk(s, n)| * n
    decreases |s|
  {
    if |s| > n {
      ChunkCount(s[n..], n);
      var m := |Chunk(s[n..], n)|;
      assert |Chunk(s, n)| == m + 1;
      MulSucc(m, n);
    }
  }

  /** Element `k * n + j` of `s` sits at position `j` of piece `k`. */
  lemma {:induction false} ChunkAt<T>(s: seq<T>, n: nat, k: nat, j: nat)
    requires n > 0 && j < n && k * n + j < |s|
    ensures k < |Chunk(s, n)| && j < |Chunk(s, n)[k]|
    ensures Chunk(s, n)[k][j] == s[k * n + j]
    decreases k
  {
    if k > 0 {
      MulSucc(k - 1, n);
      var i: nat := (k - 1) * n + j;
      assert i + n == k * n + j;
      ChunkAt(s[n..], n, k - 1, j);
      assert Chunk(s, n)[k] == Chunk(s[n..], n)[k - 1];
      assert s[n..][i] == s[i + n];
    }
  }

  lemma MulSucc(m: nat, n: nat)
    ensures (m + 1) * n == m * n + n
    ensures m * n >= 0
  {
  }
}
