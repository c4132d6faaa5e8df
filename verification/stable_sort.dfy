/** Python's `list.sort(key=...)`: a stable sort. `reverse=True` keeps
    stability, so it is the ascending sort on the negated key. */
module StableSort {

  /** Keys never decrease along `s`. */
  predicate SortedBy<T>(s: seq<T>, key: T -> int)
  {
    forall i, j :: 0 <= i < j < |s| ==> key(s[i]) <= key(s[j])
  }

  /** The elements of `s` whose key is `k`, in their order in `s`. Stability
      means a sort leaves every one of these subsequences unchanged. */
  function WithKey<T>(s: seq<T>, key: T -> int, k: int): seq<T>
  {
    if |s| == 0 then []
    else (if key(s[0]) == k then [s[0]] else []) + WithKey(s[1..], key, k)
  }

  /** Puts `x` before the first element whose key is not smaller. */
  function Insert<T>(x: T, s: seq<T>, key: T -> int): seq<T>
  {
    if |s| == 0 then [x]
    else if key(s[0]) < key(x) then [s[0]] + Insert(x, s[1..], key)
    else [x] + s
  }

  lemma {:induction false} InsertMultiset<T>(x: T, s: seq<T>, key: T -> int)
    ensures multiset(Insert(x, s, key)) == multiset(s) + multiset{x}
  {
    if |s| > 0 && key(s[0]) < key(x) {
      var r' := Insert(x, s[1..], key);
      InsertMultiset(x, s[1..], key);
      assert Insert(x, s, key) == [s[0]] + r';
      assert s == [s[0]] + s[1..];
      assert multiset([s[0]] + r') == multiset{s[0]} + multiset(r');
      assert multiset([s[0]] + s[1..]) == multiset{s[0]} + multiset(s[1..]);
    }
  }

  lemma {:induction false} InsertSorted<T>(x: T, s: seq<T>, key: T -> int)
    requires SortedBy(s, key)
    ensures SortedBy(Insert(x, s, key), key)
  {
    if |s| > 0 && key(s[0]) < key(x) {
      var r' := Insert(x, s[1..], key);
      InsertSorted(x, s[1..], key);
      InsertMultiset(x, s[1..], key);
      forall i | 0 <= i < |r'|
        ensures key(s[0]) <= key(r'[i])
      {
        assert r'[i] in multiset(r');
        if r'[i] != x {
          assert r'[i] in multiset(s[1..]);
          var j :| 0 <= j < |s[1..]| && s[1..][j] == r'[i];
          assert s[j + 1] == r'[i];
        }
      }
    }
  }

  lemma {:induction false} InsertWithKey<T>(x: T, s: seq<T>, key: T -> int, k: int)
    ensures WithKey(Insert(x, s, key), key, k)
         == (if key(x) == k then [x] else []) + WithKey(s, key, k)
  {
    if |s| == 0 {
      WithKeyCons(x, [], key, k);
    } else if key(s[0]) < key(x) {
      InsertWithKey(x, s[1..], key, k);
      InsertWithKeyLater(x, s, key, k);
    } else {
      WithKeyCons(x, s, key, k);
    }
  }

  /** Inserting behind a smaller front: the front's key differs from `x`'s,
      so at most one of the two lands in the key-`k` subsequence. */
  lemma InsertWithKeyLater<T>(x: T, s: seq<T>, key: T -> int, k: int)
    requires |s| > 0 && key(s[0]) < key(x)
    requires WithKey(Insert(x, s[1..], key), key, k)
          == (if key(x) == k then [x] else []) + WithKey(s[1..], key, k)
    ensures WithKey(Insert(x, s, key), key, k)
         == (if key(x) == k then [x] else []) + WithKey(s, key, k)
  {
    var r' := Insert(x, s[1..], key);
    assert Insert(x, s, key) == [s[0]] + r';
    WithKeyCons(s[0], r', key, k);
    WithKeyCons(s[0], s[1..], key, k);
    assert s == [s[0]] + s[1..];
    SwapFronts(if key(s[0]) == k then [s[0]] else [], if key(x) == k then [x] else [], WithKey(s[1..], key, k));
  }

  lemma SwapFronts<T>(a: seq<T>, b: seq<T>, t: seq<T>)
    requires a == [] || b == []
    ensures a + (b + t) == b + (a + t)
  {
  }

  lemma WithKeyCons<T>(x: T, s: seq<T>, key: T -> int, k: int)
    ensures WithKey([x] + s, key, k) == (if key(x) == k then [x] else []) + WithKey(s, key, k)
  {
    assert ([x] + s)[1..] == s;
  }

  /** Stable insertion sort by ascending key: the output is ordered by key, is a
      permutation of the input, and keeps elements of equal key in input order. */
  function SortBy<T>(s: seq<T>, key: T -> int): (r: seq<T>)
    ensures SortedBy(r, key)
    ensures multiset(r) == multiset(s)
    ensures forall k :: WithKey(r, key, k) == WithKey(s, key, k)
  {
    if |s| == 0 then []
    else
      var rest := SortBy(s[1..], key);
      SortStep(s, rest, key);
      Insert(s[0], rest, key)
  }

  /** Inserting the front into the sorted rest sorts the whole list. */
  lemma SortStep<T>(s: seq<T>, rest: seq<T>, key: T -> int)
    requires |s| > 0 && SortedBy(rest, key) && multiset(rest) == multiset(s[1..])
    requires forall k :: WithKey(rest, key, k) == WithKey(s[1..], key, k)
    ensures var r := Insert(s[0], rest, key);
      && SortedBy(r, key)
      && multiset(r) == multiset(s)
      && forall k :: WithKey(r, key, k) == WithKey(s, key, k)
  {
    InsertSorted(s[0], rest, key);
    InsertMultiset(s[0], rest, key);
    assert s == [s[0]] + s[1..];
    forall k
      ensures WithKey(Insert(s[0], rest, key), key, k) == WithKey(s, key, k)
    {
      InsertWithKey(s[0], rest, key, k);
      WithKeyCons(s[0], s[1..], key, k);
    }
  }
}

/** Consequences of stability. */
module StableSortFacts {
  import opened StableSort

  /** Two elements of equal key keep their relative order in the key
      subsequence: `i` and `j` are their positions there. */
  lemma {:induction false} WithKeyPositions<T>(s: seq<T>, key: T -> int, a: nat, b: nat) returns (i: nat, j: nat)
    requires a < b < |s| && key(s[a]) == key(s[b])
    ensures var w := WithKey(s, key, key(s[a]));
      i < j < |w| && w[i] == s[a] && w[j] == s[b]
  {
    var k := key(s[a]);
    var w' := WithKey(s[1..], key, k);
    assert s[1..][b - 1] == s[b];
    if a == 0 {
      var j' := WithKeyIndex(s[1..], key, b - 1);
      i, j := 0, j' + 1;
    } else {
      assert s[1..][a - 1] == s[a];
      var i', j' := WithKeyPositions(s[1..], key, a - 1, b - 1);
      if key(s[0]) == k {
        i, j := i' + 1, j' + 1;
      } else {
        i, j := i', j';
      }
    }
  }

  /** The position of a key-`k` element of `s` in the key subsequence. */
  lemma {:induction false} WithKeyIndex<T>(s: seq<T>, key: T -> int, b: nat) returns (j: nat)
    requires b < |s|
    ensures var w := WithKey(s, key, key(s[b]));
      j < |w| && w[j] == s[b]
  {
    if b == 0 {
      j := 0;
    } else {
      assert s[1..][b - 1] == s[b];
      var j' := WithKeyIndex(s[1..], key, b - 1);
      assert s == [s[0]] + s[1..];
      WithKeyCons(s[0], s[1..], key, key(s[b]));
      j := if key(s[0]) == key(s[b]) then j' + 1 else j';
    }
  }

  /** `rank` strictly increases along `s`. */
  predicate Ranked<T>(s: seq<T>, rank: T -> int)
  {
    forall a, b :: 0 <= a < b < |s| ==> rank(s[a]) < rank(s[b])
  }

  /** A subsequence of a rank-increasing list is rank-increasing. */
  lemma {:induction false} WithKeyRanked<T>(s: seq<T>, key: T -> int, rank: T -> int, k: int)
    requires Ranked(s, rank)
    ensures Ranked(WithKey(s, key, k), rank)
  {
    if |s| > 0 {
      var w' := WithKey(s[1..], key, k);
      assert Ranked(s[1..], rank);
      WithKeyRanked(s[1..], key, rank, k);
      WithKeySubset(s[1..], key, k);
      var w := WithKey(s, key, k);
      if key(s[0]) == k {
        assert w == [s[0]] + w';
        forall a, b | 0 <= a < b < |w|
          ensures rank(w[a]) < rank(w[b])
        {
          assert w[b] == w'[b - 1];
          if a == 0 {
            assert w'[b - 1] in s[1..];
            var j :| 0 <= j < |s[1..]| && s[1..][j] == w'[b - 1];
            assert s[j + 1] == w[b];
          } else {
            assert w[a] == w'[a - 1];
          }
        }
      } else {
        assert w == w';
      }
    }
  }

  lemma {:induction false} WithKeySubset<T>(s: seq<T>, key: T -> int, k: int)
    ensures forall x :: x in WithKey(s, key, k) ==> x in s
  {
    if |s| > 0 {
      WithKeySubset(s[1..], key, k);
    }
  }

  /** Stability: when the input is increasing in some rank (its position, say),
      elements of equal key leave the sort still increasing in that rank. */
  lemma StableTies<T>(s: seq<T>, key: T -> int, rank: T -> int)
    requires Ranked(s, rank)
    ensures var r := SortBy(s, key);
      forall a, b :: 0 <= a < b < |r| && key(r[a]) == key(r[b]) ==> rank(r[a]) < rank(r[b])
  {
    var r := SortBy(s, key);
    forall a, b | 0 <= a < b < |r| && key(r[a]) == key(r[b])
      ensures rank(r[a]) < rank(r[b])
    {
      var k := key(r[a]);
      var i, j := WithKeyPositions(r, key, a, b);
      WithKeyRanked(s, key, rank, k);
      assert WithKey(r, key, k) == WithKey(s, key, k);
    }
  }
}
