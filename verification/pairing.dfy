/** The portrait pairing shared by three scripts: take the front of the
    remaining list, pair it with the first best-scoring candidate among a window
    of the remaining items, remove both, repeat; a front with no candidate is
    left alone. The scripts differ in the score, the window and the order of
    the list they start from. */
module Pairing {
  import opened Wrappers
  import opened Scoring
  import opened Selection
  import opened StableSort

  /** A painting as the builders see it: its index and its tags. */
  datatype Item = Item(idx: nat, tags: Tags)

  /** The pairing score of `10_computable_moments.py`: the size of the union. */
  function UnionSize(a: Tags, b: Tags): int
  {
    |a + b|
  }

  /** The diversity score of the other two scripts: union minus intersection,
      which is the size of the symmetric difference. */
  function Diversity(a: Tags, b: Tags): (r: int)
    ensures r == |(a - b) + (b - a)|
  {
    SplitCardinality(a, b);
    SplitCardinality(b, a);
    assert a + b == (a - b) + (b - a) + (a * b);
    assert (a - b) + (b - a) !! a * b;
    assert (a - b) !! (b - a);
    |a + b| - |a * b|
  }

  /** The scores of the candidates against the front item. */
  function PairScores(front: Item, cands: seq<Item>, score: (Tags, Tags) -> int): (r: seq<int>)
    ensures |r| == |cands|
    ensures forall i :: 0 <= i < |cands| ==> r[i] == score(front.tags, cands[i].tags)
  {
    Scores(cands, (y: Item) => score(front.tags, y.tags))
  }

  /** One round: the group formed for the front item, and the items left. */
  datatype Round = Round(group: seq<Item>, next: seq<Item>)

  /** One round of pairing: the front item with the first best-scoring
      candidate in the window, or alone when the window holds no candidate. */
  function PairRound(items: seq<Item>, score: (Tags, Tags) -> int, window: Option<nat>): (r: Round)
    requires |items| > 0
    ensures 1 <= |r.group| <= 2 && r.group[0] == items[0]
    ensures |r.next| + |r.group| == |items|
    ensures multiset(r.group) + multiset(r.next) == multiset(items)
    ensures |r.group| == 1 <==> |Window(items[1..], window)| == 0
  {
    var rest := items[1..];
    var cands := Window(rest, window);
    assert items == [items[0]] + rest;
    if |cands| == 0 then Round([items[0]], rest)
    else
      var j := FirstMax(PairScores(items[0], cands, score));
      Round([items[0], rest[j]], RemoveAt(rest, j))
  }

  /** Greedy pairing of `items` in list order. */
  function GreedyPair(items: seq<Item>, score: (Tags, Tags) -> int, window: Option<nat>): (out: seq<seq<Item>>)
    ensures forall n :: 0 <= n < |out| ==> 1 <= |out[n]| <= 2
    decreases |items|
  {
    if |items| == 0 then []
    else
      var r := PairRound(items, score, window);
      [r.group] + GreedyPair(r.next, score, window)
  }

  /** All items of the groups, in order. */
  function Flatten(gs: seq<seq<Item>>): seq<Item>
  {
    if |gs| == 0 then [] else gs[0] + Flatten(gs[1..])
  }

  /** The painting indices of one group, as the scripts return it. */
  function Indices(g: seq<Item>): (r: seq<nat>)
    ensures |r| == |g| && forall k :: 0 <= k < |g| ==> r[k] == g[k].idx
  {
    seq(|g|, k requires 0 <= k < |g| => g[k].idx)
  }

  /** The painting indices of each group. */
  function Members(gs: seq<seq<Item>>): (r: seq<seq<nat>>)
    ensures |r| == |gs|
    ensures forall n :: 0 <= n < |gs| ==> r[n] == Indices(gs[n])
  {
    seq(|gs|, n requires 0 <= n < |gs| => Indices(gs[n]))
  }

  /** The sort key of `sort(key=len(tags), reverse=True)`: a stable ascending
      sort on the negated tag count. */
  function ByTagCountDesc(it: Item): int
  {
    -|it.tags|
  }

  /** A round whose window holds candidates emits the front with the first
      best-scoring one and leaves the rest. */
  lemma PairedStep(done: seq<seq<nat>>, items: seq<Item>, score: (Tags, Tags) -> int, window: Option<nat>, j: nat)
    requires |items| > 0 && |Window(items[1..], window)| > 0
    requires j == FirstMax(PairScores(items[0], Window(items[1..], window), score))
    ensures j < |items| - 1
    ensures done + Members(GreedyPair(items, score, window))
            == (done + [[items[0].idx, items[1..][j].idx]]) + Members(GreedyPair(RemoveAt(items[1..], j), score, window))
  {
    PairedRound(items, score, window, j);
    var y, next := items[1..][j], RemoveAt(items[1..], j);
    GreedyPairUnfold(items, score, window);
    EmitGroup(done, GreedyPair(items, score, window), [items[0], y], GreedyPair(next, score, window));
    IndicesPair(items[0], y);
  }

  lemma IndicesPair(a: Item, b: Item)
    ensures Indices([a, b]) == [a.idx, b.idx]
  {
  }

  /** The pairing of a nonempty list is its first round's group followed by
      the pairing of what the round leaves. */
  lemma GreedyPairUnfold(items: seq<Item>, score: (Tags, Tags) -> int, window: Option<nat>)
    requires |items| > 0
    ensures var r := PairRound(items, score, window);
      GreedyPair(items, score, window) == [r.group] + GreedyPair(r.next, score, window)
  {
  }

  /** Emitting the front group behind the groups emitted so far. */
  lemma EmitGroup(done: seq<seq<nat>>, out: seq<seq<Item>>, g: seq<Item>, tail: seq<seq<Item>>)
    requires out == [g] + tail
    ensures done + Members(out) == (done + [Indices(g)]) + Members(tail)
  {
    MembersCons(g, tail);
    SeqAssoc(done, [Indices(g)], Members(tail));
  }

  /** The round of a front whose window holds candidates. */
  lemma PairedRound(items: seq<Item>, score: (Tags, Tags) -> int, window: Option<nat>, j: nat)
    requires |items| > 0 && |Window(items[1..], window)| > 0
    requires j == FirstMax(PairScores(items[0], Window(items[1..], window), score))
    ensures j < |items| - 1
    ensures PairRound(items, score, window) == Round([items[0], items[1..][j]], RemoveAt(items[1..], j))
  {
  }

  /** A round whose window is empty emits the front alone. */
  lemma SingleStep(done: seq<seq<nat>>, items: seq<Item>, score: (Tags, Tags) -> int, window: Option<nat>)
    requires |items| > 0 && |Window(items[1..], window)| == 0
    ensures done + Members(GreedyPair(items, score, window))
            == (done + [[items[0].idx]]) + Members(GreedyPair(items[1..], score, window))
  {
    var r := PairRound(items, score, window);
    PairStep(done, items, score, window);
    assert Indices(r.group) == [items[0].idx];
  }

  /** No painting index occurs twice, as for the keys of a dictionary: every
      item occurs once, and items with the same index are the same item. */
  predicate DistinctIdx(s: seq<Item>)
  {
    && (forall x :: x in multiset(s) ==> multiset(s)[x] == 1)
    && (forall x, y :: x in multiset(s) && y in multiset(s) && x.idx == y.idx ==> x == y)
  }

  lemma MembersCons(g: seq<Item>, gs: seq<seq<Item>>)
    ensures Members([g] + gs) == [Indices(g)] + Members(gs)
  {
    var ms := Members([g] + gs);
    assert |ms| == 1 + |gs|;
    forall n | 0 <= n < |ms|
      ensures ms[n] == ([Indices(g)] + Members(gs))[n]
    {
      if n > 0 {
        assert ([g] + gs)[n] == gs[n - 1];
      }
    }
  }

  /** Unfolding one round of the pairing behind the groups emitted so far. */
  lemma PairStep(done: seq<seq<nat>>, items: seq<Item>, score: (Tags, Tags) -> int, window: Option<nat>)
    requires |items| > 0
    ensures var r := PairRound(items, score, window);
      done + Members(GreedyPair(items, score, window))
      == (done + [Indices(r.group)]) + Members(GreedyPair(r.next, score, window))
  {
    var r := PairRound(items, score, window);
    GreedyPairUnfold(items, score, window);
    EmitGroup(done, GreedyPair(items, score, window), r.group, GreedyPair(r.next, score, window));
  }

  /** Distinctness passes to any sub-multiset. */
  lemma DistinctSub(s: seq<Item>, t: seq<Item>)
    requires DistinctIdx(s) && multiset(t) <= multiset(s)
    ensures DistinctIdx(t)
  {
    forall x | x in multiset(t)
      ensures multiset(t)[x] == 1
    {
      assert multiset(t)[x] <= multiset(s)[x];
    }
  }

  /** Distinctness passes to a suffix. */
  lemma DistinctSuffix(s: seq<Item>, i: nat)
    requires DistinctIdx(s) && i <= |s|
    ensures DistinctIdx(s[i..])
  {
    assert s == s[..i] + s[i..];
    assert multiset(s) == multiset(s[..i]) + multiset(s[i..]);
    DistinctSub(s, s[i..]);
  }

  /** Taking the front item leaves distinct items, none sharing its index. */
  lemma DistinctTail(items: seq<Item>)
    requires DistinctIdx(items) && |items| > 0
    ensures DistinctIdx(items[1..])
    ensures forall it :: it in items[1..] ==> it in items && it.idx != items[0].idx
  {
    var rest := items[1..];
    assert items == [items[0]] + rest;
    assert multiset(items) == multiset{items[0]} + multiset(rest);
    DistinctSub(items, rest);
    forall it | it in rest
      ensures it.idx != items[0].idx
    {
      assert it in multiset(rest) && items[0] in multiset(items);
      assert multiset(items)[items[0]] == 1 + multiset(rest)[items[0]];
    }
  }

  /** Taking the front item and its partner leaves distinct items, none
      sharing the index of either. */
  lemma DistinctAfterPair(items: seq<Item>, j: nat)
    requires DistinctIdx(items) && |items| > 0 && j < |items| - 1
    ensures var next := RemoveAt(items[1..], j);
      && DistinctIdx(next)
      && forall it :: it in next ==> it in items && it.idx != items[0].idx && it.idx != items[1..][j].idx
  {
    var rest := items[1..];
    var next := RemoveAt(rest, j);
    DistinctTail(items);
    assert multiset(rest) == multiset(next) + multiset{rest[j]};
    DistinctSub(rest, next);
    forall it | it in next
      ensures it in items && it in rest && it.idx != rest[j].idx
    {
      assert it in multiset(next);
      assert it in multiset(rest) && rest[j] in multiset(rest);
      assert multiset(rest)[rest[j]] == multiset(next)[rest[j]] + 1;
      assert it in multiset(items);
    }
  }

  /** No item of `items` has an index in `used`. */
  predicate NoneUsed(items: seq<Item>, used: set<nat>)
  {
    forall it :: it in items ==> it.idx !in used
  }

  /** Marking a front and its partner used keeps the remaining items unused. */
  lemma NoneUsedAfterPair(items: seq<Item>, j: nat, used: set<nat>)
    requires DistinctIdx(items) && |items| > 0 && j < |items| - 1 && NoneUsed(items, used)
    ensures DistinctIdx(RemoveAt(items[1..], j))
    ensures NoneUsed(RemoveAt(items[1..], j), used + {items[0].idx, items[1..][j].idx})
  {
    DistinctAfterPair(items, j);
  }

  /** Taking the front leaves the remaining items distinct and unused. */
  lemma NoneUsedTail(items: seq<Item>, used: set<nat>)
    requires DistinctIdx(items) && |items| > 0 && NoneUsed(items, used)
    ensures DistinctIdx(items[1..]) && NoneUsed(items[1..], used) && items[0].idx !in used
  {
    DistinctTail(items);
  }

  /** Every item lands in exactly one group. */
  lemma {:induction false} GreedyPairPartition(items: seq<Item>, score: (Tags, Tags) -> int, window: Option<nat>)
    ensures multiset(Flatten(GreedyPair(items, score, window))) == multiset(items)
    decreases |items|
  {
    if |items| > 0 {
      var r := PairRound(items, score, window);
      GreedyPairPartition(r.next, score, window);
      assert GreedyPair(items, score, window)[1..] == GreedyPair(r.next, score, window);
    }
  }

  /** With a window that admits a candidate, a round leaves the front alone
      only when it is the last item. */
  lemma OpenWindowPairs(items: seq<Item>, score: (Tags, Tags) -> int, window: Option<nat>)
    requires |items| > 0 && OpenWindow(window)
    ensures |PairRound(items, score, window).group| == 1 <==> |items| == 1
  {
  }

  /** With a window that admits a candidate there are ceil(n / 2) groups. */
  lemma {:induction false} GreedyPairCount(items: seq<Item>, score: (Tags, Tags) -> int, window: Option<nat>)
    requires OpenWindow(window)
    ensures |GreedyPair(items, score, window)| == (|items| + 1) / 2
    decreases |items|
  {
    if |items| > 0 {
      var r := PairRound(items, score, window);
      OpenWindowPairs(items, score, window);
      GreedyPairCount(r.next, score, window);
    }
  }

  /** With a window that admits a candidate, every group but the last is a pair. */
  lemma {:induction false} GreedyPairShape(items: seq<Item>, score: (Tags, Tags) -> int, window: Option<nat>)
    requires OpenWindow(window)
    ensures var out := GreedyPair(items, score, window);
      forall n :: 0 <= n < |out| - 1 ==> |out[n]| == 2
    decreases |items|
  {
    if |items| > 0 {
      var r := PairRound(items, score, window);
      var tail := GreedyPair(r.next, score, window);
      assert GreedyPair(items, score, window) == [r.group] + tail;
      OpenWindowPairs(items, score, window);
      GreedyPairShape(r.next, score, window);
      GreedyPairCount(r.next, score, window);
      PairsCons(r.group, tail);
    }
  }

  /** A pair in front of groups that are pairs but for the last keeps them so. */
  lemma PairsCons(g: seq<Item>, tail: seq<seq<Item>>)
    requires |tail| > 0 ==> |g| == 2
    requires forall n :: 0 <= n < |tail| - 1 ==> |tail[n]| == 2
    ensures forall n :: 0 <= n < |tail| ==> |([g] + tail)[n]| == 2
  {
    forall n | 0 <= n < |tail|
      ensures |([g] + tail)[n]| == 2
    {
      if n > 0 {
        assert ([g] + tail)[n] == tail[n - 1];
      }
    }
  }

  /** With a window that admits a candidate, the last group is a single item
      exactly when the number of items is odd. */
  lemma GreedyPairLastSingle(items: seq<Item>, score: (Tags, Tags) -> int, window: Option<nat>)
    requires OpenWindow(window) && |items| > 0
    ensures var out := GreedyPair(items, score, window);
      |out| > 0 && (|out[|out| - 1]| == 1 <==> |items| % 2 == 1)
  {
    var out := GreedyPair(items, score, window);
    GreedyPairCount(items, score, window);
    GreedyPairShape(items, score, window);
    GreedyPairPartition(items, score, window);
    SameLength(Flatten(out), items);
    FlattenPairsLength(out);
    LastParity(|items|, |out|, |out[|out| - 1]|);
  }

  lemma SameLength(a: seq<Item>, b: seq<Item>)
    requires multiset(a) == multiset(b)
    ensures |a| == |b|
  {
    assert |multiset(a)| == |multiset(b)|;
  }

  /** `n` items in `c = ceil(n / 2)` groups, all pairs but a last of size
      `last`: that last is single exactly when `n` is odd. */
  lemma LastParity(n: nat, c: nat, last: nat)
    requires c == (n + 1) / 2 && c > 0 && n == 2 * (c - 1) + last
    ensures last == 1 <==> n % 2 == 1
  {
  }

  /** Groups that are pairs but for the last hold twice their number of
      items, less one when the last is single. */
  lemma {:induction false} FlattenPairsLength(gs: seq<seq<Item>>)
    requires |gs| > 0 && forall n :: 0 <= n < |gs| - 1 ==> |gs[n]| == 2
    ensures |Flatten(gs)| == 2 * (|gs| - 1) + |gs[|gs| - 1]|
  {
    if |gs| > 1 {
      FlattenPairsLength(gs[1..]);
      assert gs[1..][|gs| - 2] == gs[|gs| - 1];
    } else {
      assert Flatten(gs[1..]) == [];
    }
  }

  /** The first group of the pairing is the first round's group. */
  lemma GreedyPairFirst(items: seq<Item>, score: (Tags, Tags) -> int, window: Option<nat>)
    requires |items| > 0
    ensures GreedyPair(items, score, window)[0] == PairRound(items, score, window).group
  {
  }

  /** Removing an element keeps a list ordered. */
  lemma RemoveAtSorted(s: seq<Item>, j: nat, key: Item -> int)
    requires j < |s| && SortedBy(s, key)
    ensures SortedBy(RemoveAt(s, j), key)
  {
    var r := RemoveAt(s, j);
    forall a, b | 0 <= a < b < |r|
      ensures key(r[a]) <= key(r[b])
    {
      var a' := if a < j then a else a + 1;
      var b' := if b < j then b else b + 1;
      assert r[a] == s[a'] && r[b] == s[b'];
    }
  }

  lemma RoundSorted(items: seq<Item>, score: (Tags, Tags) -> int, window: Option<nat>, key: Item -> int)
    requires |items| > 0 && SortedBy(items, key)
    ensures SortedBy(PairRound(items, score, window).next, key)
  {
    var rest := items[1..];
    assert SortedBy(rest, key);
    var cands := Window(rest, window);
    if |cands| > 0 {
      RemoveAtSorted(rest, FirstMax(PairScores(items[0], cands, score)), key);
    }
  }

  lemma {:induction false} FlattenContains(gs: seq<seq<Item>>, m: nat, k: nat)
    requires m < |gs| && k < |gs[m]|
    ensures gs[m][k] in multiset(Flatten(gs))
  {
    if m > 0 {
      FlattenContains(gs[1..], m - 1, k);
    }
  }
}

/** Order facts about the pairing: on an ordered list, group heads come in order. */
module PairingOrder {
  import opened Wrappers
  import opened Scoring
  import opened Selection
  import opened StableSort
  import opened Pairing

  /** Each group's front item has a key no greater than any item of the same
      or a later group. */
  predicate HeadsLeast(out: seq<seq<Item>>, key: Item -> int)
  {
    forall n, m, k :: 0 <= n <= m < |out| && 0 <= k < |out[m]| && 0 < |out[n]| ==>
      key(out[n][0]) <= key(out[m][k])
  }

  /** When the list is ordered by a key, the front item of every group has the
      least key of everything not yet grouped: heads are taken in list order. */
  lemma {:induction false} GreedyPairHeadsLeast(items: seq<Item>, score: (Tags, Tags) -> int,
                                                window: Option<nat>, key: Item -> int)
    requires SortedBy(items, key)
    ensures HeadsLeast(GreedyPair(items, score, window), key)
    decreases |items|
  {
    var out := GreedyPair(items, score, window);
    if |items| > 0 {
      var r := PairRound(items, score, window);
      RoundSorted(items, score, window, key);
      GreedyPairHeadsLeast(r.next, score, window, key);
      forall n, m, k | 0 <= n <= m < |out| && 0 <= k < |out[m]| && 0 < |out[n]|
        ensures key(out[n][0]) <= key(out[m][k])
      {
        HeadsCase(items, score, window, key, n, m, k);
      }
    }
  }

  lemma {:induction false} HeadsCase(items: seq<Item>, score: (Tags, Tags) -> int, window: Option<nat>,
                                     key: Item -> int, n: nat, m: nat, k: nat)
    requires |items| > 0 && SortedBy(items, key)
    requires HeadsLeast(GreedyPair(PairRound(items, score, window).next, score, window), key)
    requires n <= m < |GreedyPair(items, score, window)| && k < |GreedyPair(items, score, window)[m]|
    ensures key(GreedyPair(items, score, window)[n][0]) <= key(GreedyPair(items, score, window)[m][k])
  {
    if n > 0 {
      HeadsShift(items, score, window, key, n, m, k);
    } else {
      var out := GreedyPair(items, score, window);
      HeadBoundsAll(items, score, window, key);
      assert out[0][0] == items[0];
      assert key(items[0]) <= key(out[m][k]);
    }
  }

  lemma {:induction false} HeadsShift(items: seq<Item>, score: (Tags, Tags) -> int, window: Option<nat>, key: Item -> int,
                   n: nat, m: nat, k: nat)
    requires |items| > 0
    requires HeadsLeast(GreedyPair(PairRound(items, score, window).next, score, window), key)
    requires 0 < n <= m < |GreedyPair(items, score, window)| && k < |GreedyPair(items, score, window)[m]|
    ensures key(GreedyPair(items, score, window)[n][0]) <= key(GreedyPair(items, score, window)[m][k])
  {
    var r := PairRound(items, score, window);
    var tail := GreedyPair(r.next, score, window);
    assert GreedyPair(items, score, window) == [r.group] + tail;
    HeadsLeastCons(r.group, tail, key, n, m, k);
  }

  /** A group put in front of groups whose heads are least shifts their positions by one. */
  lemma HeadsLeastCons(g: seq<Item>, tail: seq<seq<Item>>, key: Item -> int, n: nat, m: nat, k: nat)
    requires HeadsLeast(tail, key)
    requires 0 < n <= m < |tail| + 1 && k < |([g] + tail)[m]| && 0 < |([g] + tail)[n]|
    ensures key(([g] + tail)[n][0]) <= key(([g] + tail)[m][k])
  {
    var out := [g] + tail;
    assert out[n] == tail[n - 1] && out[m] == tail[m - 1];
    assert key(tail[n - 1][0]) <= key(tail[m - 1][k]);
  }

  /** Every grouped item comes from the input. */
  lemma GroupItemIn(items: seq<Item>, score: (Tags, Tags) -> int, window: Option<nat>, m: nat, k: nat)
    requires m < |GreedyPair(items, score, window)| && k < |GreedyPair(items, score, window)[m]|
    ensures GreedyPair(items, score, window)[m][k] in items
  {
    var out := GreedyPair(items, score, window);
    FlattenContains(out, m, k);
    GreedyPairPartition(items, score, window);
    assert out[m][k] in multiset(items);
  }

  /** The front item's key bounds every item of every group. */
  lemma {:induction false} HeadBoundsAll(items: seq<Item>, score: (Tags, Tags) -> int, window: Option<nat>, key: Item -> int)
    requires |items| > 0 && SortedBy(items, key)
    ensures var out := GreedyPair(items, score, window);
      forall m, k :: 0 <= m < |out| && 0 <= k < |out[m]| ==> key(items[0]) <= key(out[m][k])
  {
    var out := GreedyPair(items, score, window);
    forall m, k | 0 <= m < |out| && 0 <= k < |out[m]|
      ensures key(items[0]) <= key(out[m][k])
    {
      GroupItemIn(items, score, window, m, k);
      var i :| 0 <= i < |items| && items[i] == out[m][k];
    }
  }
}
