/** Ordering rows by a score, highest first, and keeping the first `k`: a descending
    sort on one column followed by a head of `k` rows. pandas sorts with an unstable
    quicksort, so nothing here promises an order among rows of equal score: the sort below
    is one admissible arrangement, and every property is stated for all of them. */
module Ranking {

  /** Scores never increase along `s`. */
  ghost predicate NonIncreasing<T>(s: seq<T>, score: T -> int) {
    forall i, j :: 0 <= i < j < |s| ==> score(s[i]) >= score(s[j])
  }

  /** `chosen` is a valid result of sorting `s` by descending score and keeping the first `k`
      rows, whatever order the sort gives rows of equal score. */
  ghost predicate IsTopSelection<T>(s: seq<T>, score: T -> int, k: nat, chosen: seq<T>) {
    && |chosen| == (if |s| < k then |s| else k)
    && multiset(chosen) <= multiset(s)
    && NonIncreasing(chosen, score)
    && forall x, y :: x in multiset(s) - multiset(chosen) && y in chosen ==> score(x) <= score(y)
  }

  /** Places `x` into the non-increasing sequence `s`. */
  function InsertDescending<T>(x: T, s: seq<T>, score: T -> int): (r: seq<T>)
    requires NonIncreasing(s, score)
    ensures NonIncreasing(r, score)
    ensures multiset(r) == multiset(s) + multiset{x}
    ensures |r| == |s| + 1
  {
    if s == [] then [x]
    else if score(x) >= score(s[0]) then [x] + s
    else
      var rest := InsertDescending(x, s[1..], score);
      assert s == [s[0]] + s[1..];
      TailBoundedByHead(x, s, rest, score);
      PrependKeepsNonIncreasing(s[0], rest, score);
      [s[0]] + rest
  }

  /** What is inserted after the head of `s` scores no more than that head. */
  lemma TailBoundedByHead<T>(x: T, s: seq<T>, rest: seq<T>, score: T -> int)
    requires s != [] && NonIncreasing(s, score) && score(x) < score(s[0])
    requires multiset(rest) == multiset(s[1..]) + multiset{x}
    ensures forall j :: 0 <= j < |rest| ==> score(rest[j]) <= score(s[0])
  {
    forall j | 0 <= j < |rest| ensures score(rest[j]) <= score(s[0]) {
      assert rest[j] in multiset(rest);
      if rest[j] != x {
        assert rest[j] in multiset(s[1..]);
        var a :| 0 <= a < |s[1..]| && s[1..][a] == rest[j];
        assert s[a + 1] == rest[j];
      }
    }
  }

  lemma PrependKeepsNonIncreasing<T>(h: T, t: seq<T>, score: T -> int)
    requires NonIncreasing(t, score)
    requires forall j :: 0 <= j < |t| ==> score(t[j]) <= score(h)
    ensures NonIncreasing([h] + t, score)
  {
    var r := [h] + t;
    forall i, j | 0 <= i < j < |r| ensures score(r[i]) >= score(r[j]) {
      assert r[j] == t[j - 1];
      if i > 0 { assert r[i] == t[i - 1]; }
    }
  }

  /** A permutation of `s` whose scores never increase. */
  function SortDescending<T>(s: seq<T>, score: T -> int): (r: seq<T>)
    ensures NonIncreasing(r, score)
    ensures multiset(r) == multiset(s)
    ensures |r| == |s|
  {
    if s == [] then []
    else
      assert s == [s[0]] + s[1..];
      InsertDescending(s[0], SortDescending(s[1..], score), score)
  }

  /** The first `k` rows of any descending arrangement of `s` are a top selection. */
  lemma {:induction false} HeadOfDescendingIsTopSelection<T>(s: seq<T>, t: seq<T>, score: T -> int, k: nat)
    requires multiset(t) == multiset(s)
    requires NonIncreasing(t, score)
    ensures IsTopSelection(s, score, k, t[..if |t| < k then |t| else k])
  {
    var m := if |t| < k then |t| else k;
    assert |t| == |s| by { assert |multiset(t)| == |multiset(s)|; }
    var head, tail := t[..m], t[m..];
    assert t == head + tail;
    assert multiset(s) - multiset(head) == multiset(tail);
    forall x, y | x in multiset(s) - multiset(head) && y in head
      ensures score(x) <= score(y)
    {
      assert x in multiset(tail);
      var a :| 0 <= a < |tail| && tail[a] == x;
      var b :| 0 <= b < m && head[b] == y;
      assert t[b] == y && t[m + a] == x;
    }
    assert multiset(head) <= multiset(s);
    assert NonIncreasing(head, score) by {
      forall i, j | 0 <= i < j < |head| ensures score(head[i]) >= score(head[j]) {
        assert head[i] == t[i] && head[j] == t[j];
      }
    }
  }

  /** The `k` highest-scoring rows of `s`, highest first. */
  function TopByScore<T>(s: seq<T>, score: T -> int, k: nat): (r: seq<T>)
    ensures IsTopSelection(s, score, k, r)
  {
    var sorted := SortDescending(s, score);
    HeadOfDescendingIsTopSelection(s, sorted, score, k);
    sorted[..if |sorted| < k then |sorted| else k]
  }

  /** When `s` has at most `k` rows, a top selection keeps every one of them. */
  lemma {:induction false} SmallInputIsKeptWhole<T>(s: seq<T>, score: T -> int, k: nat, chosen: seq<T>)
    requires IsTopSelection(s, score, k, chosen)
    requires |s| <= k
    ensures multiset(chosen) == multiset(s)
  {
    var rest := multiset(s) - multiset(chosen);
    assert multiset(s) == multiset(chosen) + rest;
    assert |rest| == 0;
  }

  /** A row left out of a top selection scores no more than the last row kept. */
  lemma LeftOutScoresAtMostLastKept<T>(s: seq<T>, score: T -> int, k: nat, chosen: seq<T>, x: T)
    requires IsTopSelection(s, score, k, chosen)
    requires x in multiset(s) - multiset(chosen)
    ensures chosen != [] ==> score(x) <= score(chosen[|chosen| - 1])
  {
    if chosen != [] {
      assert chosen[|chosen| - 1] in chosen;
    }
  }
}
