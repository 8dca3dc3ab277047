/** `Array.prototype.filter` and `find`, and what they keep of the input:
    order, multiplicity and the positions of the kept elements. */
module Sequences {

  import opened Wrappers

  /** `s.filter(p)`: the elements satisfying `p`, in input order. */
  function Filter<T(!new)>(s: seq<T>, p: T -> bool): (r: seq<T>)
    ensures |r| <= |s|
    ensures forall x :: x in r <==> x in s && p(x)
    decreases |s|
  {
    if s == [] then []
    else
      var init, last := s[..|s| - 1], s[|s| - 1];
      assert s == init + [last];
      Filter(init, p) + (if p(last) then [last] else [])
  }

  /** Each element is kept as many times as it occurs, or not at all. */
  lemma {:induction false} FilterMultiplicity<T(!new)>(s: seq<T>, p: T -> bool, x: T)
    ensures multiset(Filter(s, p))[x] == if p(x) then multiset(s)[x] else 0
    decreases |s|
  {
    if s != [] {
      FilterMultiplicity(s[..|s| - 1], p, x);
      assert s == s[..|s| - 1] + [s[|s| - 1]];
    }
  }

  /** The input positions `s.filter(p)` keeps: strictly increasing, and
      exactly those whose element satisfies `p`. */
  function KeptPositions<T>(s: seq<T>, p: T -> bool): (r: seq<nat>)
    ensures forall k :: 0 <= k < |r| ==> r[k] < |s|
    ensures forall k, l :: 0 <= k < l < |r| ==> r[k] < r[l]
    ensures forall j :: 0 <= j < |s| ==> (j in r <==> p(s[j]))
    decreases |s|
  {
    if s == [] then []
    else
      var n := |s| - 1;
      var init := KeptPositions(s[..n], p);
      assert forall j :: 0 <= j < n ==> s[..n][j] == s[j];
      init + (if p(s[n]) then [n] else [])
  }

  /** A pick of positions of a prefix of `s`, followed by a pick of
      positions of `s`, picks the concatenation from `s`. */
  lemma AppendPicks<T>(s: seq<T>, n: nat, a: seq<T>, pa: seq<nat>, b: seq<T>, pb: seq<nat>)
    requires n <= |s| && |pa| == |a| && |pb| == |b|
    requires forall k :: 0 <= k < |a| ==> pa[k] < n && a[k] == s[..n][pa[k]]
    requires forall k :: 0 <= k < |b| ==> pb[k] < |s| && b[k] == s[pb[k]]
    ensures |pa + pb| == |a + b|
    ensures forall k :: 0 <= k < |a + b| ==> (pa + pb)[k] < |s| && (a + b)[k] == s[(pa + pb)[k]]
  {
    forall k | 0 <= k < |a + b| ensures (pa + pb)[k] < |s| && (a + b)[k] == s[(pa + pb)[k]] {
      if k < |a| {
        assert (a + b)[k] == a[k] && (pa + pb)[k] == pa[k];
      } else {
        assert (a + b)[k] == b[k - |a|] && (pa + pb)[k] == pb[k - |a|];
      }
    }
  }

  /** `Filter` and `KeptPositions` of a list, from those of the list
      without its last element. */
  lemma FilterSnoc<T(!new)>(s: seq<T>, p: T -> bool)
    requires s != []
    ensures var n := |s| - 1;
      && Filter(s, p) == Filter(s[..n], p) + (if p(s[n]) then [s[n]] else [])
      && KeptPositions(s, p) == KeptPositions(s[..n], p) + (if p(s[n]) then [n] else [])
  {
  }

  /** `s.filter(p)` is the subsequence of `s` at the kept positions; so a
      kept element's index in the result (a stacking index, say) follows
      input order. */
  lemma {:induction false} FilterPositions<T(!new)>(s: seq<T>, p: T -> bool)
    ensures |KeptPositions(s, p)| == |Filter(s, p)|
    ensures forall k :: 0 <= k < |Filter(s, p)| ==> Filter(s, p)[k] == s[KeptPositions(s, p)[k]]
    decreases |s|
  {
    if s != [] {
      var n := |s| - 1;
      FilterPositions(s[..n], p);
      FilterSnoc(s, p);
      AppendPicks(s, n, Filter(s[..n], p), KeptPositions(s[..n], p),
                  if p(s[n]) then [s[n]] else [], if p(s[n]) then [n] else []);
    }
  }

  /** A first match in the tail of `s` is a first match in `s` when the
      head does not match. */
  lemma FirstMatchShift<T>(s: seq<T>, pred: T -> bool, r: Option<T>)
    requires s != [] && !pred(s[0])
    requires r.Some? ==> exists k :: 0 <= k < |s[1..]| && s[1..][k] == r.value && forall j :: 0 <= j < k ==> !pred(s[1..][j])
    ensures r.Some? ==> exists k :: 0 <= k < |s| && s[k] == r.value && forall j :: 0 <= j < k ==> !pred(s[j])
  {
    if r.Some? {
      var k :| 0 <= k < |s[1..]| && s[1..][k] == r.value && forall j :: 0 <= j < k ==> !pred(s[1..][j]);
      assert s[k + 1] == r.value;
      assert forall j :: 0 <= j < k + 1 ==> !pred(s[j]) by {
        forall j | 0 <= j < k + 1 ensures !pred(s[j]) {
          if j > 0 { assert s[j] == s[1..][j - 1]; }
        }
      }
    }
  }

  /** `s.find(pred)`: the first element satisfying `pred`, if any. */
  function Find<T(!new)>(s: seq<T>, pred: T -> bool): (r: Option<T>)
    ensures r.Some? ==> r.value in s && pred(r.value)
    ensures r.None? <==> forall x :: x in s ==> !pred(x)
    ensures r.Some? ==> exists k :: 0 <= k < |s| && s[k] == r.value && forall j :: 0 <= j < k ==> !pred(s[j])
    decreases |s|
  {
    if s == [] then None
    else if pred(s[0]) then Some(s[0])
    else
      var r := Find(s[1..], pred);
      assert forall x :: x in s <==> x == s[0] || x in s[1..];
      FirstMatchShift(s, pred, r);
      r
  }
}
