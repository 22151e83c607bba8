/** The array primitives the route handlers use on `likes` and `comments`:
    counting matches with `filter(...).length`, `indexOf`, and `splice(start, 1)`
    with JavaScript's treatment of a negative start. */
module Sequences {

  /** Number of elements equal to `x`: the length of `s.filter(e => e === x)`. */
  function Count<T(==)>(s: seq<T>, x: T): (n: nat)
    ensures n <= |s|
    ensures n == multiset(s)[x]
  {
    if s == [] then 0
    else
      assert s == [s[0]] + s[1..];
      (if s[0] == x then 1 else 0) + Count(s[1..], x)
  }

  /** A filter that keeps something is exactly a membership test. */
  lemma {:induction false} CountPositiveIff<T>(s: seq<T>, x: T)
    ensures Count(s, x) > 0 <==> x in s
  {
    if s != [] {
      CountPositiveIff(s[1..], x);
      assert s == [s[0]] + s[1..];
    }
  }

  /** `Array.prototype.indexOf`: the first position holding `x`, or -1. */
  function IndexOf<T(==)>(s: seq<T>, x: T): (i: int)
    ensures -1 <= i < |s|
    ensures i == -1 <==> x !in s
    ensures 0 <= i ==> s[i] == x && x !in s[..i]
  {
    if s == [] then -1
    else if s[0] == x then 0
    else
      var j := IndexOf(s[1..], x);
      if j == -1 then -1
      else
        assert s[..j + 1] == [s[0]] + s[1..][..j];
        j + 1
  }

  /** `Array.prototype.splice(start, 1)` seen through the array it leaves
      behind: a negative start counts back from the end (clamped to 0), a start
      past the end deletes nothing. */
  function Splice1<T>(s: seq<T>, start: int): (r: seq<T>)
    ensures 0 <= start < |s| ==> r == s[..start] + s[start + 1..]
    ensures |s| <= start ==> r == s
    ensures start == -1 && s != [] ==> r == s[..|s| - 1]
    ensures |r| == if start < |s| && s != [] then |s| - 1 else |s|
  {
    var actual := if start < 0 then (if |s| + start < 0 then 0 else |s| + start)
                  else (if start < |s| then start else |s|);
    var deleteCount := if actual < |s| then 1 else 0;
    s[..actual] + s[actual + deleteCount..]
  }

  /** Position `k` of `s` with position `i` removed is position `k` or `k + 1` of `s`. */
  lemma RemoveAtIndexing<T>(s: seq<T>, i: nat, r: seq<T>)
    requires i < |s| && r == s[..i] + s[i + 1..]
    ensures |r| == |s| - 1
    ensures forall k :: 0 <= k < |r| ==> r[k] == s[if k < i then k else k + 1]
  {
  }

  /** Removing position `i` takes exactly one copy of `s[i]` out of the multiset. */
  lemma RemoveAtMultiset<T>(s: seq<T>, i: nat)
    requires i < |s|
    ensures multiset(s[..i] + s[i + 1..]) == multiset(s) - multiset{s[i]}
  {
    assert s == s[..i] + [s[i]] + s[i + 1..];
  }
}
