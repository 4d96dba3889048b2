/** Sequence vocabulary shared by every part of the model: order-preserving
    filtering, subsequences, distinct keys and dense 1-based key ranges. */
module Seqs {

  /** The elements of `s` that satisfy `keep`, in their original order
      (a SQL `WHERE` clause over a table read as a sequence). */
  function Filter<T>(s: seq<T>, keep: T -> bool): (r: seq<T>)
    ensures |r| <= |s|
    ensures forall i :: 0 <= i < |r| ==> keep(r[i])
  {
    if |s| == 0 then []
    else Filter(s[..|s| - 1], keep) + (if keep(s[|s| - 1]) then [s[|s| - 1]] else [])
  }

  lemma {:induction false} FilterMembers<T>(s: seq<T>, keep: T -> bool)
    ensures forall x :: x in Filter(s, keep) <==> x in s && keep(x)
  {
    if |s| > 0 {
      FilterMembers(s[..|s| - 1], keep);
      assert s == s[..|s| - 1] + [s[|s| - 1]];
    }
  }

  lemma {:induction false} FilterAppend<T>(s: seq<T>, t: seq<T>, keep: T -> bool)
    ensures Filter(s + t, keep) == Filter(s, keep) + Filter(t, keep)
    decreases |t|
  {
    if |t| == 0 {
      assert s + t == s;
    } else {
      var t' := t[..|t| - 1];
      assert (s + t)[..|s + t| - 1] == s + t';
      FilterAppend(s, t', keep);
    }
  }

  lemma FilterSnoc<T>(s: seq<T>, x: T, keep: T -> bool)
    ensures Filter(s + [x], keep) == Filter(s, keep) + (if keep(x) then [x] else [])
  {
  }

  /** Every occurrence of a kept element survives; nothing else does. */
  lemma {:induction false} FilterMultiset<T>(s: seq<T>, keep: T -> bool)
    ensures forall x :: multiset(Filter(s, keep))[x] == if keep(x) then multiset(s)[x] else 0
  {
    if |s| > 0 {
      var s' := s[..|s| - 1];
      FilterMultiset(s', keep);
      assert s == s' + [s[|s| - 1]];
    }
  }

  lemma {:induction false} FilterKeepsAll<T>(s: seq<T>, keep: T -> bool)
    requires forall i :: 0 <= i < |s| ==> keep(s[i])
    ensures Filter(s, keep) == s
  {
    if |s| > 0 {
      FilterKeepsAll(s[..|s| - 1], keep);
    }
  }

  lemma {:induction false} FilterCongruent<T>(s: seq<T>, f: T -> bool, g: T -> bool)
    requires forall i :: 0 <= i < |s| ==> f(s[i]) == g(s[i])
    ensures Filter(s, f) == Filter(s, g)
  {
    if |s| > 0 {
      FilterCongruent(s[..|s| - 1], f, g);
    }
  }

  /** Filtering out a single rejected element between kept ones splices it out. */
  lemma {:induction false} FilterDropsOne<T>(a: seq<T>, x: T, b: seq<T>, keep: T -> bool)
    requires forall i :: 0 <= i < |a| ==> keep(a[i])
    requires forall i :: 0 <= i < |b| ==> keep(b[i])
    requires !keep(x)
    ensures Filter(a + [x] + b, keep) == a + b
  {
    FilterAppend(a + [x], b, keep);
    FilterSnoc(a, x, keep);
    FilterKeepsAll(a, keep);
    FilterKeepsAll(b, keep);
    assert Filter(a + [x], keep) == a;
  }

  /** The positions of `s` whose element satisfies `keep`. */
  function KeptPositions<T>(s: seq<T>, keep: T -> bool): set<int>
  {
    set i | 0 <= i < |s| && keep(s[i])
  }

  /** A filter keeps one element per satisfying position. */
  lemma {:induction false} FilterCount<T>(s: seq<T>, keep: T -> bool)
    ensures |Filter(s, keep)| == |KeptPositions(s, keep)|
  {
    if |s| > 0 {
      var s', x := s[..|s| - 1], s[|s| - 1];
      FilterCount(s', keep);
      var before, after := KeptPositions(s', keep), KeptPositions(s, keep);
      assert forall i :: 0 <= i < |s'| ==> s'[i] == s[i];
      if keep(x) {
        assert after == before + {|s'|};
        assert |s'| !in before;
      } else {
        assert after == before;
      }
    } else {
      assert KeptPositions(s, keep) == {};
    }
  }

  /** Two filters in a row are one filter by the conjunction. */
  lemma {:induction false} FilterTwice<T>(s: seq<T>, f: T -> bool, g: T -> bool, both: T -> bool)
    requires forall x :: both(x) == (f(x) && g(x))
    ensures Filter(Filter(s, f), g) == Filter(s, both)
  {
    if |s| > 0 {
      var s', x := s[..|s| - 1], s[|s| - 1];
      FilterTwice(s', f, g, both);
      if f(x) {
        FilterSnoc(Filter(s', f), x, g);
      } else {
        assert Filter(s, f) == Filter(s', f);
      }
    }
  }

  /** `a` is obtained from `b` by deleting elements: each element of `b` is
      used at most once and the relative order is kept. */
  predicate IsSubsequence<T(==)>(a: seq<T>, b: seq<T>)
    decreases |b|
  {
    if |a| == 0 then true
    else if |b| == 0 then false
    else (a[|a| - 1] == b[|b| - 1] && IsSubsequence(a[..|a| - 1], b[..|b| - 1]))
         || IsSubsequence(a, b[..|b| - 1])
  }

  lemma {:induction false} FilterIsSubsequence<T>(s: seq<T>, keep: T -> bool)
    ensures IsSubsequence(Filter(s, keep), s)
  {
    if |s| > 0 {
      var s' := s[..|s| - 1];
      FilterIsSubsequence(s', keep);
      var r := Filter(s, keep);
      if keep(s[|s| - 1]) {
        assert r[..|r| - 1] == Filter(s', keep);
      } else if |r| > 0 {
        assert r == Filter(s', keep);
      }
    }
  }

  lemma {:induction false} SubsequenceMembers<T>(a: seq<T>, b: seq<T>)
    requires IsSubsequence(a, b)
    ensures forall x :: x in a ==> x in b
    decreases |b|
  {
    if |a| > 0 {
      if a[|a| - 1] == b[|b| - 1] && IsSubsequence(a[..|a| - 1], b[..|b| - 1]) {
        SubsequenceMembers(a[..|a| - 1], b[..|b| - 1]);
        assert a == a[..|a| - 1] + [a[|a| - 1]];
        assert b == b[..|b| - 1] + [b[|b| - 1]];
      } else {
        SubsequenceMembers(a, b[..|b| - 1]);
        assert b == b[..|b| - 1] + [b[|b| - 1]];
      }
    }
  }

  /** No two elements of `s` share a key. */
  predicate DistinctBy<T>(s: seq<T>, key: T -> int)
  {
    forall i, j :: 0 <= i < j < |s| ==> key(s[i]) != key(s[j])
  }

  lemma {:induction false} DistinctByAppend<T>(a: seq<T>, b: seq<T>, key: T -> int)
    requires DistinctBy(a, key) && DistinctBy(b, key)
    requires forall i, j :: 0 <= i < |a| && 0 <= j < |b| ==> key(a[i]) != key(b[j])
    ensures DistinctBy(a + b, key)
  {
  }

  /** A subsequence of a sequence with distinct keys has distinct keys. */
  lemma {:induction false} SubsequenceDistinct<T>(a: seq<T>, b: seq<T>, key: T -> int)
    requires IsSubsequence(a, b) && DistinctBy(b, key)
    ensures DistinctBy(a, key)
    decreases |b|
  {
    if |a| > 0 {
      var b' := b[..|b| - 1];
      assert DistinctBy(b', key);
      if a[|a| - 1] == b[|b| - 1] && IsSubsequence(a[..|a| - 1], b') {
        var a' := a[..|a| - 1];
        SubsequenceDistinct(a', b', key);
        SubsequenceMembers(a', b');
        forall i | 0 <= i < |a'|
          ensures key(a'[i]) != key(a[|a| - 1])
        {
          assert a'[i] in b';
          var j :| 0 <= j < |b'| && b'[j] == a'[i];
        }
        assert a == a' + [a[|a| - 1]];
        DistinctByAppend(a', [a[|a| - 1]], key);
      } else {
        SubsequenceDistinct(a, b', key);
      }
    }
  }

  /** The integers `1..n`. */
  function UpTo(n: int): (r: set<int>)
    ensures forall k :: k in r <==> 1 <= k <= n
    ensures |r| == if n < 0 then 0 else n
  {
    if n <= 0 then {} else UpTo(n - 1) + {n}
  }

  lemma SubsetOfEqualSize(a: set<int>, b: set<int>)
    requires a <= b && |a| == |b|
    ensures a == b
  {
    assert b == a + (b - a);
    assert a * (b - a) == {};
    assert |b - a| == 0;
  }

  /** The set of keys that occur in `s`. */
  function KeySet<T>(s: seq<T>, key: T -> int): set<int>
  {
    set i | 0 <= i < |s| :: key(s[i])
  }

  lemma KeySetSnoc<T>(s: seq<T>, key: T -> int)
    requires |s| > 0
    ensures KeySet(s, key) == KeySet(s[..|s| - 1], key) + {key(s[|s| - 1])}
  {
  }

  /** A sequence has distinct keys exactly when it has as many keys as elements. */
  lemma {:induction false} KeySetSize<T>(s: seq<T>, key: T -> int)
    ensures |KeySet(s, key)| <= |s|
    ensures DistinctBy(s, key) <==> |KeySet(s, key)| == |s|
  {
    if |s| == 0 {
      assert KeySet(s, key) == {};
    } else {
      var s' := s[..|s| - 1];
      var last := s[|s| - 1];
      KeySetSize(s', key);
      KeySetSnoc(s, key);
      if key(last) in KeySet(s', key) {
        var i :| 0 <= i < |s'| && key(s'[i]) == key(last);
        assert key(s[i]) == key(s[|s| - 1]);
      } else {
        if DistinctBy(s', key) {
          forall i | 0 <= i < |s'|
            ensures key(s'[i]) != key(last)
          {
            assert key(s'[i]) in KeySet(s', key);
          }
          DistinctByAppend(s', [last], key);
          assert s == s' + [last];
        }
      }
    }
  }

  /** The keys of `s` are exactly `1..|s|`, each once. */
  predicate Dense<T>(s: seq<T>, key: T -> int)
  {
    && (forall i :: 0 <= i < |s| ==> 1 <= key(s[i]) <= |s|)
    && DistinctBy(s, key)
  }

  /** Density is the same as "the key set is `{1..N}`" for `N` elements. */
  lemma DenseIffRange<T>(s: seq<T>, key: T -> int)
    ensures Dense(s, key) <==> KeySet(s, key) == UpTo(|s|)
  {
    KeySetSize(s, key);
    if Dense(s, key) {
      assert KeySet(s, key) <= UpTo(|s|);
      SubsetOfEqualSize(KeySet(s, key), UpTo(|s|));
    }
    if KeySet(s, key) == UpTo(|s|) {
      forall i | 0 <= i < |s|
        ensures 1 <= key(s[i]) <= |s|
      {
        assert key(s[i]) in KeySet(s, key);
      }
    }
  }

  /** Appending an element whose key is `N + 1` keeps a dense sequence dense. */
  lemma DenseSnoc<T>(s: seq<T>, x: T, key: T -> int)
    requires Dense(s, key) && key(x) == |s| + 1
    ensures Dense(s + [x], key)
  {
  }
}
