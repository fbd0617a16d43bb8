/** Order-preserving selection over sequences, the model's stand-in for a store query. */
module Seqs {
  import opened Wrappers

  /** The elements of `s` satisfying `p`, in their original order. */
  function Filter<T>(s: seq<T>, p: T -> bool): (r: seq<T>)
    ensures |r| <= |s|
    ensures forall i :: 0 <= i < |r| ==> r[i] in s && p(r[i])
    ensures forall i :: 0 <= i < |s| && p(s[i]) ==> s[i] in r
    decreases |s|
  {
    if |s| == 0 then []
    else
      var init := s[..|s| - 1];
      assert s == init + [s[|s| - 1]];
      Filter(init, p) + (if p(s[|s| - 1]) then [s[|s| - 1]] else [])
  }

  /** Selection distributes over concatenation. */
  lemma {:induction false} FilterAppend<T>(a: seq<T>, b: seq<T>, p: T -> bool)
    ensures Filter(a + b, p) == Filter(a, p) + Filter(b, p)
    decreases |b|
  {
    if |b| == 0 {
      assert a + b == a;
    } else {
      var b' := b[..|b| - 1];
      assert a + b == (a + b') + [b[|b| - 1]];
      assert (a + b)[..|a + b| - 1] == a + b';
      FilterAppend(a, b', p);
    }
  }

  /** Selecting from a sequence all of whose elements qualify changes nothing. */
  lemma {:induction false} FilterKeepsAll<T>(s: seq<T>, p: T -> bool)
    requires forall i :: 0 <= i < |s| ==> p(s[i])
    ensures Filter(s, p) == s
    decreases |s|
  {
    if |s| > 0 {
      FilterKeepsAll(s[..|s| - 1], p);
    }
  }

  /** Selection splits at any position. */
  lemma FilterSplit<T>(s: seq<T>, n: nat, p: T -> bool)
    requires n <= |s|
    ensures Filter(s, p) == Filter(s[..n], p) + Filter(s[n..], p)
  {
    assert s == s[..n] + s[n..];
    FilterAppend(s[..n], s[n..], p);
  }

  /** Selecting from a sequence none of whose elements qualify yields nothing. */
  lemma FilterDropsAll<T>(s: seq<T>, p: T -> bool)
    requires forall i :: 0 <= i < |s| ==> !p(s[i])
    ensures Filter(s, p) == []
  {
  }

  /** Two selections that decide alike position by position select equally many elements. */
  lemma {:induction false} FilterSameCount<T, U>(a: seq<T>, p: T -> bool, b: seq<U>, q: U -> bool)
    requires |a| == |b|
    requires forall k :: 0 <= k < |a| ==> p(a[k]) == q(b[k])
    ensures |Filter(a, p)| == |Filter(b, q)|
    decreases |a|
  {
    if |a| > 0 {
      FilterSameCount(a[..|a| - 1], p, b[..|b| - 1], q);
    }
  }

  // ---------------------------------------------------------------------------
  // Rewriting or dropping each element

  /** Each element replaced by `f`'s value for it, or dropped where `f` gives none. */
  function FilterMap<T, U>(s: seq<T>, f: T -> Option<U>): (r: seq<U>)
    ensures |r| <= |s|
    decreases |s|
  {
    if |s| == 0 then []
    else
      var init := s[..|s| - 1];
      FilterMap(init, f) + (match f(s[|s| - 1]) case Some(y) => [y] case None => [])
  }

  /** `f`, then `g` on what `f` kept. */
  function Then<T, U, V>(f: T -> Option<U>, g: U -> Option<V>): T -> Option<V> {
    (x: T) => match f(x) case Some(y) => g(y) case None => None
  }

  /** An element of the result is `f`'s value for some element of the input. */
  lemma {:induction false} FilterMapMember<T, U>(s: seq<T>, f: T -> Option<U>, y: U)
    ensures y in FilterMap(s, f) <==> exists i :: 0 <= i < |s| && f(s[i]) == Some(y)
    decreases |s|
  {
    if |s| > 0 {
      var init := s[..|s| - 1];
      FilterMapMember(init, f, y);
      if exists i :: 0 <= i < |init| && f(init[i]) == Some(y) {
        var i :| 0 <= i < |init| && f(init[i]) == Some(y);
        assert s[i] == init[i];
      }
      if exists i :: 0 <= i < |s| && f(s[i]) == Some(y) {
        var i :| 0 <= i < |s| && f(s[i]) == Some(y);
        if i < |init| {
          assert init[i] == s[i];
        }
      }
    }
  }

  /** Two passes are one pass of the composed rewrite. */
  lemma {:induction false} FilterMapThen<T, U, V>(s: seq<T>, f: T -> Option<U>, g: U -> Option<V>)
    ensures FilterMap(FilterMap(s, f), g) == FilterMap(s, Then(f, g))
    decreases |s|
  {
    if |s| > 0 {
      var init := s[..|s| - 1];
      FilterMapThen(init, f, g);
      var tail := match f(s[|s| - 1]) case Some(y) => [y] case None => [];
      var mid := FilterMap(init, f);
      assert FilterMap(s, f) == mid + tail;
      FilterMapAppend(mid, tail, g);
    } else {
      assert FilterMap(s, f) == [];
    }
  }

  /** Rewriting distributes over concatenation. */
  lemma {:induction false} FilterMapAppend<T, U>(a: seq<T>, b: seq<T>, f: T -> Option<U>)
    ensures FilterMap(a + b, f) == FilterMap(a, f) + FilterMap(b, f)
    decreases |b|
  {
    if |b| == 0 {
      assert a + b == a;
    } else {
      var b' := b[..|b| - 1];
      assert a + b == (a + b') + [b[|b| - 1]];
      assert (a + b)[..|a + b| - 1] == a + b';
      FilterMapAppend(a, b', f);
    }
  }

  /** Rewrites that agree on every element give the same result. */
  lemma {:induction false} FilterMapSame<T, U>(s: seq<T>, f: T -> Option<U>, g: T -> Option<U>)
    requires forall i :: 0 <= i < |s| ==> f(s[i]) == g(s[i])
    ensures FilterMap(s, f) == FilterMap(s, g)
    decreases |s|
  {
    if |s| > 0 {
      FilterMapSame(s[..|s| - 1], f, g);
    }
  }

  /**
   * A rewrite that keeps every selected element as it is, and selects what it keeps exactly
   * when it selected the original, selects the same elements afterwards.
   */
  lemma {:induction false} FilterMapKeepsSelected<T>(s: seq<T>, f: T -> Option<T>, p: T -> bool)
    requires forall i :: 0 <= i < |s| && p(s[i]) ==> f(s[i]) == Some(s[i])
    requires forall i :: 0 <= i < |s| && f(s[i]).Some? ==> p(f(s[i]).value) == p(s[i])
    ensures Filter(FilterMap(s, f), p) == Filter(s, p)
    decreases |s|
  {
    if |s| > 0 {
      var init, last := s[..|s| - 1], s[|s| - 1];
      FilterMapKeepsSelected(init, f, p);
      var tail := match f(last) case Some(y) => [y] case None => [];
      assert FilterMap(s, f) == FilterMap(init, f) + tail;
      FilterAppend(FilterMap(init, f), tail, p);
      assert Filter(s, p) == Filter(init, p) + (if p(last) then [last] else []);
      assert Filter(tail, p) == (if p(last) then [last] else []) by {
        FilterSingle(tail, p);
      }
    }
  }

  /** A rewrite that preserves selection never selects more elements than before. */
  lemma {:induction false} FilterMapCount<T>(s: seq<T>, f: T -> Option<T>, p: T -> bool)
    requires forall i :: 0 <= i < |s| && f(s[i]).Some? ==> p(f(s[i]).value) == p(s[i])
    ensures |Filter(FilterMap(s, f), p)| <= |Filter(s, p)|
    decreases |s|
  {
    if |s| > 0 {
      var init, last := s[..|s| - 1], s[|s| - 1];
      FilterMapCount(init, f, p);
      var tail := match f(last) case Some(y) => [y] case None => [];
      assert FilterMap(s, f) == FilterMap(init, f) + tail;
      FilterAppend(FilterMap(init, f), tail, p);
      assert Filter(s, p) == Filter(init, p) + (if p(last) then [last] else []);
      assert |Filter(tail, p)| <= (if p(last) then 1 else 0) by {
        FilterSingle(tail, p);
      }
    }
  }

  /** Selecting from at most one element. */
  lemma FilterSingle<T>(s: seq<T>, p: T -> bool)
    requires |s| <= 1
    ensures Filter(s, p) == if |s| == 1 && p(s[0]) then s else []
  {
    if |s| == 1 {
      assert s[..0] == [];
    }
  }

  /** A rewrite that keeps keys keeps distinct keys distinct. */
  lemma {:induction false} FilterMapKeysDistinct<T, K>(s: seq<T>, f: T -> Option<T>, key: T -> K)
    requires forall i, j :: 0 <= i < j < |s| ==> key(s[i]) != key(s[j])
    requires forall i :: 0 <= i < |s| && f(s[i]).Some? ==> key(f(s[i]).value) == key(s[i])
    ensures forall a, b :: 0 <= a < b < |FilterMap(s, f)| ==> key(FilterMap(s, f)[a]) != key(FilterMap(s, f)[b])
    decreases |s|
  {
    if |s| > 0 {
      var init := s[..|s| - 1];
      var last := s[|s| - 1];
      FilterMapKeysDistinct(init, f, key);
      var r := FilterMap(s, f);
      var prev := FilterMap(init, f);
      forall a, b | 0 <= a < b < |r| ensures key(r[a]) != key(r[b]) {
        if b >= |prev| {
          assert r[a] == prev[a] && r[b] == f(last).value;
          FilterMapMember(init, f, prev[a]);
          var i :| 0 <= i < |init| && f(init[i]) == Some(prev[a]);
          assert init[i] == s[i];
        } else {
          assert r[a] == prev[a] && r[b] == prev[b];
        }
      }
    }
  }

  /** Elements selected by one of two exclusive tests, counted by test. */
  lemma {:induction false} FilterSplitCount<T>(s: seq<T>, p: T -> bool, q: T -> bool, pq: T -> bool)
    requires forall i :: 0 <= i < |s| ==> !(p(s[i]) && q(s[i])) && (pq(s[i]) == (p(s[i]) || q(s[i])))
    ensures |Filter(s, p)| + |Filter(s, q)| == |Filter(s, pq)|
    decreases |s|
  {
    if |s| > 0 {
      FilterSplitCount(s[..|s| - 1], p, q, pq);
    }
  }

  /** Nothing is selected exactly when no element qualifies. */
  lemma FilterEmpty<T>(s: seq<T>, p: T -> bool)
    ensures |Filter(s, p)| == 0 <==> forall i :: 0 <= i < |s| ==> !p(s[i])
  {
    if |Filter(s, p)| > 0 {
      assert Filter(s, p)[0] in s;
    }
  }

  /** Two tests that agree on every element select the same elements. */
  lemma {:induction false} FilterAgree<T>(s: seq<T>, p: T -> bool, q: T -> bool)
    requires forall i :: 0 <= i < |s| ==> p(s[i]) == q(s[i])
    ensures Filter(s, p) == Filter(s, q)
    decreases |s|
  {
    if |s| > 0 {
      FilterAgree(s[..|s| - 1], p, q);
    }
  }

  /** `a` is `b` with some elements left out, the rest in their order. */
  ghost predicate IsSubsequence<T>(a: seq<T>, b: seq<T>)
    decreases |b|
  {
    if |a| == 0 then true
    else if |b| == 0 then false
    else (a[|a| - 1] == b[|b| - 1] && IsSubsequence(a[..|a| - 1], b[..|b| - 1])) || IsSubsequence(a, b[..|b| - 1])
  }

  /** A selection keeps the order of the sequence it selects from. */
  lemma {:induction false} FilterIsSubsequence<T>(s: seq<T>, p: T -> bool)
    ensures IsSubsequence(Filter(s, p), s)
    decreases |s|
  {
    if |s| > 0 {
      var init := s[..|s| - 1];
      FilterIsSubsequence(init, p);
      if p(s[|s| - 1]) {
        var r := Filter(s, p);
        assert r == Filter(init, p) + [s[|s| - 1]];
        assert r[..|r| - 1] == Filter(init, p);
      } else {
        assert Filter(s, p) == Filter(init, p);
      }
    }
  }

  /** A selection holds each selected value as often as the sequence does, and no other value. */
  lemma {:induction false} FilterMultiplicity<T>(s: seq<T>, p: T -> bool, x: T)
    ensures multiset(Filter(s, p))[x] == if p(x) then multiset(s)[x] else 0
    decreases |s|
  {
    if |s| > 0 {
      var init := s[..|s| - 1];
      FilterMultiplicity(init, p, x);
      assert s == init + [s[|s| - 1]];
      assert multiset(s) == multiset(init) + multiset{s[|s| - 1]};
      assert multiset(Filter(s, p)) ==
        multiset(Filter(init, p)) + (if p(s[|s| - 1]) then multiset{s[|s| - 1]} else multiset{});
    }
  }

  /** `FilterMultiplicity` for every value at once. */
  lemma FilterMultiplicities<T(!new)>(s: seq<T>, p: T -> bool)
    ensures forall x :: multiset(Filter(s, p))[x] == if p(x) then multiset(s)[x] else 0
  {
    forall x ensures multiset(Filter(s, p))[x] == if p(x) then multiset(s)[x] else 0 {
      FilterMultiplicity(s, p, x);
    }
  }
}
