/** Row selection by a boolean mask, as pandas does with `frame[mask]`. */
module Sequences {

  /** The elements of `s` that satisfy `p`, in their original order. */
  function Filter<T(==)>(s: seq<T>, p: T -> bool): (r: seq<T>)
    ensures |r| <= |s|
    ensures forall i :: 0 <= i < |r| ==> p(r[i])
    ensures forall i :: 0 <= i < |r| ==> r[i] in s
    ensures forall i :: 0 <= i < |s| && p(s[i]) ==> s[i] in r
    ensures multiset(r) <= multiset(s)
  {
    if s == [] then []
    else
      var last := s[|s| - 1];
      assert s == s[..|s| - 1] + [last];
      var init := Filter(s[..|s| - 1], p);
      if p(last) then init + [last] else init
  }

  /** A mask that selects nothing gives an empty frame. */
  lemma {:induction false} FilterNone<T>(s: seq<T>, p: T -> bool)
    requires forall i :: 0 <= i < |s| ==> !p(s[i])
    ensures Filter(s, p) == []
  {
    if s != [] {
      FilterNone(s[..|s| - 1], p);
    }
  }

  /** A mask keeps every row at the positions it selects and nothing else: the `k`-th kept
      row is the row at the `k`-th selected position, so copies and table order survive. */
  lemma {:induction false} FilterIsPositions<T>(s: seq<T>, p: T -> bool)
    ensures |Filter(s, p)| == |Positions(s, p)|
    ensures forall k :: 0 <= k < |Filter(s, p)| ==> Filter(s, p)[k] == s[Positions(s, p)[k]]
  {
    if s != [] {
      var init := s[..|s| - 1];
      FilterIsPositions(init, p);
      var kept, at := Filter(init, p), Positions(init, p);
      assert Filter(s, p) == if p(s[|s| - 1]) then kept + [s[|s| - 1]] else kept;
      assert Positions(s, p) == if p(s[|s| - 1]) then at + [|s| - 1] else at;
      forall k | 0 <= k < |kept| ensures kept[k] == s[at[k]] {
        assert init[at[k]] == s[at[k]];
      }
    }
  }

  /** The positions of the elements of `s` that satisfy `p`, ascending: the index labels
      that survive a boolean mask when every row has a distinct label. */
  function Positions<T>(s: seq<T>, p: T -> bool): (r: seq<nat>)
    ensures forall k :: 0 <= k < |r| ==> r[k] < |s| && p(s[r[k]])
    ensures forall k, l :: 0 <= k < l < |r| ==> r[k] < r[l]
    ensures forall i :: 0 <= i < |s| && p(s[i]) ==> i in r
  {
    if s == [] then []
    else
      var init := Positions(s[..|s| - 1], p);
      if p(s[|s| - 1]) then init + [|s| - 1] else init
  }
}
