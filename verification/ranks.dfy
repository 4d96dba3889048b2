/** Ranking elements by an integer key: the arithmetic behind SQL's
    `row_number() over (order by key)` when the keys are distinct. */
module Ranks {
  import opened Seqs

  /** How many elements of `s` have a key strictly below `v`. */
  function CountBelow<T>(s: seq<T>, key: T -> int, v: int): (n: nat)
    ensures n <= |s|
  {
    if |s| == 0 then 0
    else CountBelow(s[..|s| - 1], key, v) + (if key(s[|s| - 1]) < v then 1 else 0)
  }

  /** The 1-based position key `v` takes when `s` is ordered by ascending key. */
  function Rank<T>(s: seq<T>, key: T -> int, v: int): int
  {
    CountBelow(s, key, v) + 1
  }

  lemma {:induction false} CountBelowMonotone<T>(s: seq<T>, key: T -> int, v: int, w: int)
    requires v <= w
    ensures CountBelow(s, key, v) <= CountBelow(s, key, w)
  {
    if |s| > 0 {
      CountBelowMonotone(s[..|s| - 1], key, v, w);
    }
  }

  /** An element whose key lies in `[v, w)` makes the count below `w` exceed
      the count below `v`. */
  lemma {:induction false} CountBelowStrict<T>(s: seq<T>, key: T -> int, i: int, v: int, w: int)
    requires 0 <= i < |s| && v <= key(s[i]) < w
    ensures CountBelow(s, key, v) < CountBelow(s, key, w)
  {
    var s' := s[..|s| - 1];
    if i == |s| - 1 {
      CountBelowMonotone(s', key, v, w);
    } else {
      assert s'[i] == s[i];
      CountBelowStrict(s', key, i, v, w);
    }
  }

  /** An element is never counted below its own key, so ranks stay within `1..|s|`. */
  lemma {:induction false} CountBelowOwn<T>(s: seq<T>, key: T -> int, i: int)
    requires 0 <= i < |s|
    ensures CountBelow(s, key, key(s[i])) < |s|
  {
    var s' := s[..|s| - 1];
    if i < |s| - 1 {
      assert s'[i] == s[i];
      CountBelowOwn(s', key, i);
    }
  }

  lemma {:induction false} CountBelowAppend<T>(s: seq<T>, t: seq<T>, key: T -> int, v: int)
    ensures CountBelow(s + t, key, v) == CountBelow(s, key, v) + CountBelow(t, key, v)
    decreases |t|
  {
    if |t| == 0 {
      assert s + t == s;
    } else {
      assert (s + t)[..|s + t| - 1] == s + t[..|t| - 1];
      CountBelowAppend(s, t[..|t| - 1], key, v);
    }
  }

  /** The members of `keys` below `v`. */
  function Below(keys: set<int>, v: int): set<int>
  {
    set x | x in keys && x < v
  }

  /** With distinct keys, counting elements is counting keys. */
  lemma {:induction false} CountBelowIsKeyCount<T>(s: seq<T>, key: T -> int, v: int)
    requires DistinctBy(s, key)
    ensures CountBelow(s, key, v) == |Below(KeySet(s, key), v)|
  {
    if |s| == 0 {
      assert Below(KeySet(s, key), v) == {};
    } else {
      var s' := s[..|s| - 1];
      var k := key(s[|s| - 1]);
      assert DistinctBy(s', key);
      CountBelowIsKeyCount(s', key, v);
      KeySetSnoc(s, key);
      LastKeyFresh(s, key);
      var before := Below(KeySet(s', key), v);
      if k < v {
        assert Below(KeySet(s, key), v) == before + {k};
        assert k !in before;
      } else {
        assert Below(KeySet(s, key), v) == before;
      }
    }
  }

  /** With distinct keys the last element's key is not among the earlier ones. */
  lemma LastKeyFresh<T>(s: seq<T>, key: T -> int)
    requires DistinctBy(s, key) && |s| > 0
    ensures key(s[|s| - 1]) !in KeySet(s[..|s| - 1], key)
  {
  }

  /** In a dense sequence key `v` has exactly `v - 1` keys below it. */
  lemma CountBelowDense<T>(s: seq<T>, key: T -> int, v: int)
    requires Dense(s, key) && 1 <= v <= |s| + 1
    ensures CountBelow(s, key, v) == v - 1
  {
    CountBelowIsKeyCount(s, key, v);
    DenseIffRange(s, key);
    assert Below(UpTo(|s|), v) == UpTo(v - 1);
  }
}
