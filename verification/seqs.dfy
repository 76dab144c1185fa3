/** Sequence operations shared by the components: `Array.prototype.filter`
    and `Array.prototype.map`, with the facts the components rely on. */
module Seqs {

  /** The elements of `s` satisfying `p`, in their original order. */
  function Filter<T(==)>(s: seq<T>, p: T -> bool): (r: seq<T>)
    ensures |r| <= |s|
    ensures forall k :: 0 <= k < |r| ==> p(r[k]) && r[k] in s
    ensures forall i :: 0 <= i < |s| && p(s[i]) ==> s[i] in r
    decreases |s|
  {
    if |s| == 0 then []
    else
      var init := Filter(s[..|s| - 1], p);
      assert s == s[..|s| - 1] + [s[|s| - 1]];
      if p(s[|s| - 1]) then init + [s[|s| - 1]] else init
  }

  /** Filtering repeats no element more often than `s` holds it. */
  lemma {:induction false} FilterSubMultiset<T>(s: seq<T>, p: T -> bool)
    ensures multiset(Filter(s, p)) <= multiset(s)
    decreases |s|
  {
    if |s| > 0 {
      var init := s[..|s| - 1];
      FilterSubMultiset(init, p);
      assert s == init + [s[|s| - 1]];
    }
  }

  /** The indices of `s` whose elements satisfy `p`, in increasing order:
      an independent description of what `Filter` keeps. */
  function Positions<T>(s: seq<T>, p: T -> bool): (ps: seq<nat>)
    ensures forall k :: 0 <= k < |ps| ==> ps[k] < |s| && p(s[ps[k]])
    ensures forall j, k :: 0 <= j < k < |ps| ==> ps[j] < ps[k]
    ensures forall i :: 0 <= i < |s| && p(s[i]) ==> i in ps
    decreases |s|
  {
    if |s| == 0 then []
    else
      var init := Positions(s[..|s| - 1], p);
      if p(s[|s| - 1]) then init + [|s| - 1] else init
  }

  /** `r` is `s` read at the strictly increasing indices `idx`: an
      order-preserving selection that adds nothing. */
  ghost predicate SelectedAt<T>(r: seq<T>, s: seq<T>, idx: seq<nat>)
  {
    && |idx| == |r|
    && (forall k :: 0 <= k < |idx| ==> idx[k] < |s| && r[k] == s[idx[k]])
    && (forall j, k :: 0 <= j < k < |idx| ==> idx[j] < idx[k])
  }

  /** `Filter` keeps exactly the elements at the positions satisfying `p`,
      in order. */
  lemma {:induction false} FilterIsSelection<T>(s: seq<T>, p: T -> bool)
    ensures SelectedAt(Filter(s, p), s, Positions(s, p))
    ensures forall i :: 0 <= i < |s| ==> (p(s[i]) <==> i in Positions(s, p))
    decreases |s|
  {
    var r, ps := Filter(s, p), Positions(s, p);
    if |s| > 0 {
      var n := |s| - 1;
      var s' := s[..n];
      var r', ps' := Filter(s', p), Positions(s', p);
      FilterIsSelection(s', p);
      if p(s[n]) {
        assert r == r' + [s[n]] && ps == ps' + [n];
        forall k | 0 <= k < |ps|
          ensures ps[k] < |s| && r[k] == s[ps[k]]
        {
          if k < |ps'| {
            assert r[k] == r'[k] == s'[ps'[k]];
          }
        }
      } else {
        assert r == r' && ps == ps';
        forall k | 0 <= k < |ps|
          ensures ps[k] < |s| && r[k] == s[ps[k]]
        {
          assert r[k] == s'[ps'[k]];
        }
      }
    }
    forall i | 0 <= i < |s| && i in ps
      ensures p(s[i])
    {
      var k :| 0 <= k < |ps| && ps[k] == i;
    }
  }

  /** Filtering a sequence whose elements all satisfy `p` returns it whole. */
  lemma {:induction false} FilterKeepsAll<T>(s: seq<T>, p: T -> bool)
    requires forall k :: 0 <= k < |s| ==> p(s[k])
    ensures Filter(s, p) == s
    decreases |s|
  {
    if |s| > 0 {
      var s' := s[..|s| - 1];
      FilterKeepsAll(s', p);
      assert s' + [s[|s| - 1]] == s;
    }
  }

  /** Filtering twice by the same predicate is filtering once. */
  lemma FilterIdempotent<T>(s: seq<T>, p: T -> bool)
    ensures Filter(Filter(s, p), p) == Filter(s, p)
  {
    FilterKeepsAll(Filter(s, p), p);
  }

  /** Predicates that agree on every element of `s` filter it alike. */
  lemma {:induction false} FilterCongruent<T>(s: seq<T>, p: T -> bool, q: T -> bool)
    requires forall k :: 0 <= k < |s| ==> p(s[k]) == q(s[k])
    ensures Filter(s, p) == Filter(s, q)
    decreases |s|
  {
    if |s| > 0 {
      FilterCongruent(s[..|s| - 1], p, q);
    }
  }

  /** The element-wise image of `s` under `f`. */
  function Map<T, U>(s: seq<T>, f: T -> U): (r: seq<U>)
    ensures |r| == |s|
    ensures forall i :: 0 <= i < |s| ==> r[i] == f(s[i])
  {
    seq(|s|, i requires 0 <= i < |s| => f(s[i]))
  }
}
