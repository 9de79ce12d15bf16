/** Sums and filters over sequences, defined in the order `Array.prototype.reduce`
    and `Array.prototype.filter` visit their elements, with the facts the rest of
    the model needs about them. */
module Seqs {

  /** The sum of `f` over `s`, accumulated from the first element to the last. */
  function Sum<T>(s: seq<T>, f: T -> real): real
    decreases |s|
  {
    if |s| == 0 then 0.0 else Sum(s[..|s| - 1], f) + f(s[|s| - 1])
  }

  /** The elements of `s` that satisfy `p`, in their original order. */
  function Filter<T(!new)>(s: seq<T>, p: T -> bool): (r: seq<T>)
    ensures |r| <= |s|
    ensures forall x :: x in r <==> x in s && p(x)
    decreases |s|
  {
    if |s| == 0 then []
    else Filter(s[..|s| - 1], p) + (if p(s[|s| - 1]) then [s[|s| - 1]] else [])
  }

  /** No value occurs twice in `s`. */
  predicate Distinct<T(==)>(s: seq<T>) {
    forall i, j :: 0 <= i < j < |s| ==> s[i] != s[j]
  }

  /** Extending a sequence by one element adds that element's value to its sum. */
  lemma SumSnoc<T>(s: seq<T>, x: T, f: T -> real)
    ensures Sum(s + [x], f) == Sum(s, f) + f(x)
  {
    assert (s + [x])[..|s|] == s;
  }

  /** Adding the values of `f` up is compatible with concatenation. */
  lemma {:induction false} SumAppend<T>(a: seq<T>, b: seq<T>, f: T -> real)
    ensures Sum(a + b, f) == Sum(a, f) + Sum(b, f)
    decreases |b|
  {
    if |b| == 0 {
      assert a + b == a;
    } else {
      var b' := b[..|b| - 1];
      assert a + b == (a + b') + [b[|b| - 1]];
      SumSnoc(a + b', b[|b| - 1], f);
      SumAppend(a, b', f);
      SumSnoc(b', b[|b| - 1], f);
      assert b' + [b[|b| - 1]] == b;
    }
  }

  /** The negation of a predicate. */
  function Not<T>(p: T -> bool): T -> bool {
    x => !p(x)
  }

  /** A sum over a sequence splits into the sum over the elements that satisfy a
      predicate and the sum over those that do not. */
  lemma {:induction false} SumFilterSplit<T(!new)>(s: seq<T>, f: T -> real, p: T -> bool)
    ensures Sum(s, f) == Sum(Filter(s, p), f) + Sum(Filter(s, Not(p)), f)
    decreases |s|
  {
    if |s| > 0 {
      var s' := s[..|s| - 1];
      var x := s[|s| - 1];
      SumFilterSplit(s', f, p);
      assert Filter(s, p) == Filter(s', p) + (if p(x) then [x] else []);
      assert Filter(s, Not(p)) == Filter(s', Not(p)) + (if Not(p)(x) then [x] else []);
      if p(x) {
        SumSnoc(Filter(s', p), x, f);
        assert Filter(s, Not(p)) == Filter(s', Not(p));
      } else {
        SumSnoc(Filter(s', Not(p)), x, f);
        assert Filter(s, p) == Filter(s', p);
      }
    }
  }

  /** Removing the element at index `k` takes its value off the sum. */
  lemma SumRemove<T>(b: seq<T>, k: int, f: T -> real)
    requires 0 <= k < |b|
    ensures Sum(b, f) == Sum(b[..k] + b[k + 1..], f) + f(b[k])
  {
    assert b == (b[..k] + [b[k]]) + b[k + 1..];
    SumAppend(b[..k] + [b[k]], b[k + 1..], f);
    SumSnoc(b[..k], b[k], f);
    SumAppend(b[..k], b[k + 1..], f);
  }

  /** Removing the element at index `k` of a sequence without repetitions leaves
      a sequence without repetitions that holds every other value. */
  lemma RemoveDistinct<T>(b: seq<T>, k: int)
    requires 0 <= k < |b| && Distinct(b)
    ensures Distinct(b[..k] + b[k + 1..])
    ensures forall y :: y in b[..k] + b[k + 1..] <==> y in b && y != b[k]
  {
    var b' := b[..k] + b[k + 1..];
    assert forall i :: 0 <= i < |b'| ==> b'[i] == b[if i < k then i else i + 1];
    forall y | y in b && y != b[k] ensures y in b' {
      var i :| 0 <= i < |b| && b[i] == y;
      assert b'[if i < k then i else i - 1] == y;
    }
  }

  /** A non-empty sequence holds its first element. */
  lemma HeadIsMember<T>(b: seq<T>)
    ensures |b| > 0 ==> b[0] in b
  {
  }

  /** Two sequences without repetitions that hold the same values have the same sum. */
  lemma {:induction false} SumDistinctSameSet<T>(a: seq<T>, b: seq<T>, f: T -> real)
    requires Distinct(a) && Distinct(b)
    requires forall x :: x in a <==> x in b
    ensures Sum(a, f) == Sum(b, f)
    decreases |a|
  {
    if |a| == 0 {
      HeadIsMember(b);
    } else {
      var x := a[|a| - 1];
      assert x in a;
      assert x in b;
      var k :| 0 <= k < |b| && b[k] == x;
      RemoveDistinct(a, |a| - 1);
      RemoveDistinct(b, k);
      var a', b' := a[..|a| - 1], b[..k] + b[k + 1..];
      assert a[..|a| - 1] + a[|a|..] == a';
      forall y ensures y in a' <==> y in b' {
        assert y in a' <==> y in a && y != x;
        assert y in b' <==> y in b && y != x;
      }
      SumDistinctSameSet(a', b', f);
      SumRemove(b, k, f);
    }
  }

  /** Filtering a sequence extended by one element. */
  lemma FilterSnoc<T(!new)>(s: seq<T>, x: T, p: T -> bool)
    ensures Filter(s + [x], p) == Filter(s, p) + (if p(x) then [x] else [])
  {
    assert (s + [x])[..|s|] == s;
  }

  /** Filtering keeps everything when every element satisfies the predicate. */
  lemma {:induction false} FilterAll<T(!new)>(s: seq<T>, p: T -> bool)
    requires forall i :: 0 <= i < |s| ==> p(s[i])
    ensures Filter(s, p) == s
    decreases |s|
  {
    if |s| > 0 {
      FilterAll(s[..|s| - 1], p);
      assert s[..|s| - 1] + [s[|s| - 1]] == s;
    }
  }

  /** `idx` lists, in increasing order, exactly the positions of `s` whose
      element satisfies `p`, and `r` holds the elements at those positions. */
  ghost predicate PicksAt<T>(r: seq<T>, s: seq<T>, p: T -> bool, idx: seq<int>) {
    |idx| == |r|
    && (forall k :: 0 <= k < |idx| ==> 0 <= idx[k] < |s| && r[k] == s[idx[k]] && p(s[idx[k]]))
    && (forall k, l :: 0 <= k < l < |idx| ==> idx[k] < idx[l])
    && (forall i :: 0 <= i < |s| && p(s[i]) ==> i in idx)
  }

  /** `r` is the subsequence of `s` made of the elements that satisfy `p`:
      each of them, as often as it occurs, and in the order of `s`. */
  ghost predicate SelectedInOrder<T>(r: seq<T>, s: seq<T>, p: T -> bool) {
    exists idx :: PicksAt(r, s, p, idx)
  }

  /** The filter keeps the order and the multiplicity of the kept elements. */
  lemma {:induction false} FilterInOrder<T(!new)>(s: seq<T>, p: T -> bool)
    ensures SelectedInOrder(Filter(s, p), s, p)
    decreases |s|
  {
    if |s| == 0 {
      assert PicksAt(Filter(s, p), s, p, []);
    } else {
      var front, x := s[..|s| - 1], s[|s| - 1];
      assert s == front + [x];
      FilterInOrder(front, p);
      var idx :| PicksAt(Filter(front, p), front, p, idx);
      FilterSnoc(front, x, p);
      PicksAtSnoc(Filter(front, p), front, x, p, idx);
      if p(x) {
        assert PicksAt(Filter(s, p), s, p, idx + [|front|]);
      } else {
        assert PicksAt(Filter(s, p), s, p, idx);
      }
    }
  }

  /** Picks from `front` extend to picks from `front + [x]`, taking `x` when
      it satisfies `p`. */
  lemma PicksAtSnoc<T>(r: seq<T>, front: seq<T>, x: T, p: T -> bool, idx: seq<int>)
    requires PicksAt(r, front, p, idx)
    ensures p(x) ==> PicksAt(r + [x], front + [x], p, idx + [|front|])
    ensures !p(x) ==> PicksAt(r, front + [x], p, idx)
  {
    var s := front + [x];
    forall i | 0 <= i < |s| && p(s[i])
      ensures i < |front| ==> i in idx
    {
      if i < |front| {
        assert front[i] == s[i];
      }
    }
    if p(x) {
      var r', idx' := r + [x], idx + [|front|];
      forall k | 0 <= k < |idx'|
        ensures 0 <= idx'[k] < |s| && r'[k] == s[idx'[k]] && p(s[idx'[k]])
      {
        if k < |idx| {
          assert idx'[k] == idx[k] && r'[k] == r[k] && s[idx[k]] == front[idx[k]];
        }
      }
    } else {
      forall k | 0 <= k < |idx|
        ensures s[idx[k]] == front[idx[k]]
      {
      }
    }
  }

  /** Conversely, the ordered selection determines its result: it is the filter. */
  lemma SelectedInOrderIsFilter<T(!new)>(r: seq<T>, s: seq<T>, p: T -> bool)
    requires SelectedInOrder(r, s, p)
    ensures r == Filter(s, p)
  {
    var idx :| PicksAt(r, s, p, idx);
    PicksAtIsFilter(r, s, p, idx);
  }

  /** The elements at the positions picked by `p` form the filter. */
  lemma {:induction false} PicksAtIsFilter<T(!new)>(r: seq<T>, s: seq<T>, p: T -> bool, idx: seq<int>)
    requires PicksAt(r, s, p, idx)
    ensures r == Filter(s, p)
    decreases |s|
  {
    if |s| == 0 {
      IncreasingBelow(idx, |s|);
    } else {
      var front, x := s[..|s| - 1], s[|s| - 1];
      assert s == front + [x];
      FilterSnoc(front, x, p);
      PicksAtFront(r, front, x, p, idx);
      if p(x) {
        PicksAtIsFilter(r[..|r| - 1], front, p, idx[..|idx| - 1]);
        assert r == r[..|r| - 1] + [x];
      } else {
        PicksAtIsFilter(r, front, p, idx);
      }
    }
  }

  /** Strictly increasing positions below `n` number at most `n`. */
  lemma {:induction false} IncreasingBelow(idx: seq<int>, n: int)
    requires 0 <= n
    requires forall k :: 0 <= k < |idx| ==> 0 <= idx[k] < n
    requires forall k, l :: 0 <= k < l < |idx| ==> idx[k] < idx[l]
    ensures |idx| <= n
    decreases |idx|
  {
    if |idx| > 0 {
      IncreasingBelow(idx[..|idx| - 1], idx[|idx| - 1]);
    }
  }

  /** Picks from `front + [x]` restrict to picks from `front`, dropping the
      last pick when `x` satisfies `p`; that last pick is then `x`. */
  lemma PicksAtFront<T>(r: seq<T>, front: seq<T>, x: T, p: T -> bool, idx: seq<int>)
    requires PicksAt(r, front + [x], p, idx)
    ensures p(x) ==> |r| > 0 && r[|r| - 1] == x && PicksAt(r[..|r| - 1], front, p, idx[..|idx| - 1])
    ensures !p(x) ==> PicksAt(r, front, p, idx)
  {
    var s := front + [x];
    if p(x) {
      assert s[|front|] == x;
      var k :| 0 <= k < |idx| && idx[k] == |front|;
      assert idx[|idx| - 1] >= idx[k];
      var r', idx' := r[..|r| - 1], idx[..|idx| - 1];
      forall k' | 0 <= k' < |idx'|
        ensures 0 <= idx'[k'] < |front| && r'[k'] == front[idx'[k']] && p(front[idx'[k']])
      {
        assert idx'[k'] == idx[k'] < idx[|idx| - 1];
        assert s[idx[k']] == front[idx[k']];
      }
      forall i | 0 <= i < |front| && p(front[i])
        ensures i in idx'
      {
        assert s[i] == front[i];
        var j :| 0 <= j < |idx| && idx[j] == i;
        assert idx'[j] == i;
      }
    } else {
      forall k | 0 <= k < |idx|
        ensures idx[k] < |front| && s[idx[k]] == front[idx[k]]
      {
        assert idx[k] != |front|;
      }
      forall i | 0 <= i < |front| && p(front[i])
        ensures i in idx
      {
        assert s[i] == front[i];
      }
    }
  }

  /** A sum of non-negative values is non-negative. */
  lemma {:induction false} SumNonNegative<T>(s: seq<T>, f: T -> real)
    requires forall i :: 0 <= i < |s| ==> f(s[i]) >= 0.0
    ensures Sum(s, f) >= 0.0
    decreases |s|
  {
    if |s| > 0 {
      SumNonNegative(s[..|s| - 1], f);
    }
  }

  /** The elements of `xs` whose key is `k`. */
  function KeyIs<T>(key: T -> string, k: string): T -> bool {
    x => key(x) == k
  }

  /** Applying the key test. */
  lemma KeyIsApplied<T>(key: T -> string, k: string, x: T)
    ensures KeyIs(key, k)(x) <==> key(x) == k
  {
  }

  /** The sum of `f` over each group of `xs` by key, for the keys in `keys`. */
  function GroupTotal<T(!new)>(keys: seq<string>, xs: seq<T>, key: T -> string, f: T -> real): real
    decreases |keys|
  {
    if |keys| == 0 then 0.0
    else GroupTotal(keys[..|keys| - 1], xs, key, f) + Sum(Filter(xs, KeyIs(key, keys[|keys| - 1])), f)
  }

  /** One more element adds its value to the total of its own group only. */
  lemma {:induction false} GroupTotalSnoc<T(!new)>(keys: seq<string>, xs: seq<T>, x: T, key: T -> string, f: T -> real)
    requires Distinct(keys)
    ensures GroupTotal(keys, xs + [x], key, f)
            == GroupTotal(keys, xs, key, f) + (if key(x) in keys then f(x) else 0.0)
    decreases |keys|
  {
    if |keys| > 0 {
      var front, k := keys[..|keys| - 1], keys[|keys| - 1];
      var p := KeyIs(key, k);
      assert keys == front + [k];
      assert Distinct(front);
      GroupTotalSnoc(front, xs, x, key, f);
      assert Sum(Filter(xs + [x], p), f) == Sum(Filter(xs, p), f) + (if key(x) == k then f(x) else 0.0) by {
        FilterSnoc(xs, x, p);
        KeyIsApplied(key, k, x);
        if key(x) == k {
          SumSnoc(Filter(xs, p), x, f);
        } else {
          assert Filter(xs, p) + [] == Filter(xs, p);
        }
      }
      assert key(x) in keys <==> key(x) in front || key(x) == k;
      assert key(x) == k ==> key(x) !in front;
    }
  }

  /** Grouping by key loses and duplicates nothing: when every element's key is
      one of `keys` and no key is repeated, the group totals add up to the total. */
  lemma {:induction false} GroupsPartition<T(!new)>(keys: seq<string>, xs: seq<T>, key: T -> string, f: T -> real)
    requires Distinct(keys)
    requires forall i :: 0 <= i < |xs| ==> key(xs[i]) in keys
    ensures GroupTotal(keys, xs, key, f) == Sum(xs, f)
    decreases |xs|
  {
    if |xs| == 0 {
      GroupTotalEmpty(keys, xs, key, f);
    } else {
      var front, x := xs[..|xs| - 1], xs[|xs| - 1];
      GroupsPartition(keys, front, key, f);
      GroupTotalSnoc(keys, front, x, key, f);
      assert front + [x] == xs;
    }
  }

  /** Grouping the empty sequence gives zero totals. */
  lemma {:induction false} GroupTotalEmpty<T(!new)>(keys: seq<string>, xs: seq<T>, key: T -> string, f: T -> real)
    requires |xs| == 0
    ensures GroupTotal(keys, xs, key, f) == 0.0
    decreases |keys|
  {
    if |keys| > 0 {
      GroupTotalEmpty(keys[..|keys| - 1], xs, key, f);
    }
  }

  /** Filters by predicates that agree on every element pick the same elements. */
  lemma {:induction false} FilterSamePredicate<T(!new)>(s: seq<T>, p: T -> bool, q: T -> bool)
    requires forall i :: 0 <= i < |s| ==> p(s[i]) == q(s[i])
    ensures Filter(s, p) == Filter(s, q)
    decreases |s|
  {
    if |s| > 0 {
      FilterSamePredicate(s[..|s| - 1], p, q);
    }
  }

  /** Sums of functions that agree on every element are equal. */
  lemma {:induction false} SumSameFunction<T>(s: seq<T>, f: T -> real, g: T -> real)
    requires forall i :: 0 <= i < |s| ==> f(s[i]) == g(s[i])
    ensures Sum(s, f) == Sum(s, g)
    decreases |s|
  {
    if |s| > 0 {
      SumSameFunction(s[..|s| - 1], f, g);
    }
  }

  /** A sum of positive values is positive exactly when there is a value. */
  lemma {:induction false} SumPositive<T>(s: seq<T>, f: T -> real)
    requires forall i :: 0 <= i < |s| ==> f(s[i]) > 0.0
    ensures Sum(s, f) >= 0.0
    ensures Sum(s, f) > 0.0 <==> |s| > 0
    decreases |s|
  {
    if |s| > 0 {
      SumPositive(s[..|s| - 1], f);
    }
  }

  /** Sums over two sequences of the same length whose terms agree position by
      position are equal. */
  lemma {:induction false} SumPointwise<A, B>(a: seq<A>, b: seq<B>, f: A -> real, g: B -> real)
    requires |a| == |b|
    requires forall i :: 0 <= i < |a| ==> f(a[i]) == g(b[i])
    ensures Sum(a, f) == Sum(b, g)
    decreases |a|
  {
    if |a| > 0 {
      SumPointwise(a[..|a| - 1], b[..|b| - 1], f, g);
    }
  }

  /** Filtering a sequence without repeated values gives one without them. */
  lemma {:induction false} FilterDistinct<T(!new)>(s: seq<T>, p: T -> bool)
    requires Distinct(s)
    ensures Distinct(Filter(s, p))
    decreases |s|
  {
    if |s| > 0 {
      var front, x := s[..|s| - 1], s[|s| - 1];
      assert Distinct(front);
      FilterDistinct(front, p);
      assert x !in front;
    }
  }

  /** When `p` holds exactly where one of two exclusive predicates `q` and `r`
      holds, the sum over the elements satisfying `p` is the sum of the sums
      over those satisfying `q` and `r`. */
  lemma {:induction false} SumFilterDisjoint<T(!new)>(s: seq<T>, f: T -> real, p: T -> bool, q: T -> bool, r: T -> bool)
    requires forall i :: 0 <= i < |s| ==> (p(s[i]) <==> q(s[i]) || r(s[i])) && !(q(s[i]) && r(s[i]))
    ensures Sum(Filter(s, p), f) == Sum(Filter(s, q), f) + Sum(Filter(s, r), f)
    decreases |s|
  {
    if |s| > 0 {
      var front, x := s[..|s| - 1], s[|s| - 1];
      assert s == front + [x];
      SumFilterDisjoint(front, f, p, q, r);
      FilterSnoc(front, x, p);
      FilterSnoc(front, x, q);
      FilterSnoc(front, x, r);
      var fp, fq, fr := Filter(front, p), Filter(front, q), Filter(front, r);
      assert (p(x) <==> q(x) || r(x)) && !(q(x) && r(x));
      if q(x) {
        assert Filter(s, r) == fr + [] == fr;
        SumSnoc(fp, x, f);
        SumSnoc(fq, x, f);
      } else if r(x) {
        assert Filter(s, q) == fq + [] == fq;
        SumSnoc(fp, x, f);
        SumSnoc(fr, x, f);
      } else {
        assert Filter(s, p) == fp + [] == fp;
        assert Filter(s, q) == fq + [] == fq;
        assert Filter(s, r) == fr + [] == fr;
      }
    }
  }
}
