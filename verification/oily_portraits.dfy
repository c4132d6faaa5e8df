/** `110_oily_portraits.py`: every painting is paired by diversity with the
    best of the next 50 (after sorting by tag count), and the frames are
    arranged greedily looking only at the next 100. */
module OilyPortraits {
  import opened Wrappers
  import opened Scoring
  import opened Selection
  import opened StableSort
  import opened Pairing
  import opened Greedy

  /** The window of `items[:50]` in the pairing. */
  const PairWindow: nat := 50

  /** The window of `glassframes[:100]` in the arrangement. */
  const ArrangeWindow: nat := 100

  /** `fast_pair_portraits`: after a stable sort by descending tag count, the
      front painting is paired with the most diverse of the next 50 (the first
      such), both leave the list, and a front with nothing after it stays
      single. A painting taken as front is never already used, and neither is
      a candidate, since both members of a pair leave the list at once. */
  method FastPairPortraits(paintings: seq<Item>) returns (pairs: seq<seq<nat>>)
    requires DistinctIdx(paintings)
    ensures pairs == Members(GreedyPair(SortBy(paintings, ByTagCountDesc), Diversity, Some(PairWindow)))
  {
    var items := SortBy(paintings, ByTagCountDesc);
    ghost var all := items;
    DistinctSub(paintings, items);
    var used: set<nat> := {};
    pairs := [];
    FastPairStart(all);
    while |items| > 0
      invariant FastPairing(all, items, used, pairs)
      decreases |items|
    {
      items, used, pairs := FastPairRound(all, items, used, pairs);
    }
    FastPairDone(all, used, pairs);
  }

  lemma FastPairStart(all: seq<Item>)
    requires DistinctIdx(all)
    ensures FastPairing(all, all, {}, [])
  {
    assert [] + Members(GreedyPair(all, Diversity, Some(PairWindow))) == Members(GreedyPair(all, Diversity, Some(PairWindow)));
  }

  lemma FastPairDone(all: seq<Item>, used: set<nat>, pairs: seq<seq<nat>>)
    requires FastPairing(all, [], used, pairs)
    ensures pairs == Members(GreedyPair(all, Diversity, Some(PairWindow)))
  {
    assert Members(GreedyPair([], Diversity, Some(PairWindow))) == [];
    assert pairs + [] == pairs;
  }

  /** One turn of the `while items` loop: the front painting is taken and
      either paired or left single. */
  method FastPairRound(ghost all: seq<Item>, items: seq<Item>, used: set<nat>, pairs: seq<seq<nat>>)
    returns (items': seq<Item>, used': set<nat>, pairs': seq<seq<nat>>)
    requires |items| > 0 && FastPairing(all, items, used, pairs)
    ensures |items'| < |items| && FastPairing(all, items', used', pairs')
  {
    var front := items[0];
    var rest := items[1..];
    FrontUnused(all, items, used, pairs);
    if front.idx in used {
      assert false;
    }
    var cands := Window(rest, Some(PairWindow));
    var scores := PairScores(front, cands, Diversity);
    var best := ScanBest(scores, None);
    if best.Some? {
      var j := best.value;
      FastPairWith(all, items, used, pairs, j);
      var partner := rest[j];
      pairs' := pairs + [[front.idx, partner.idx]];
      used' := used + {front.idx, partner.idx};
      items' := RemoveAt(rest, j);
    } else {
      FastPairSingle(all, items, used, pairs);
      pairs' := pairs + [[front.idx]];
      used' := used;
      items' := rest;
    }
  }

  lemma FrontUnused(all: seq<Item>, items: seq<Item>, used: set<nat>, pairs: seq<seq<nat>>)
    requires FastPairing(all, items, used, pairs) && |items| > 0
    ensures items[0].idx !in used
  {
    assert items[0] in items;
  }

  /** The loop state of `fast_pair_portraits`: the items left are distinct and
      unused, and the pairs so far followed by the pairing of the items left
      make up the pairing of the sorted list. */
  predicate FastPairing(all: seq<Item>, items: seq<Item>, used: set<nat>, pairs: seq<seq<nat>>)
  {
    && DistinctIdx(items)
    && NoneUsed(items, used)
    && pairs + Members(GreedyPair(items, Diversity, Some(PairWindow)))
       == Members(GreedyPair(all, Diversity, Some(PairWindow)))
  }

  lemma FastPairWith(all: seq<Item>, items: seq<Item>, used: set<nat>, pairs: seq<seq<nat>>, j: nat)
    requires FastPairing(all, items, used, pairs) && |items| > 0
    requires var cands := Window(items[1..], Some(PairWindow));
      |cands| > 0 && j == FirstMax(PairScores(items[0], cands, Diversity))
    ensures j < |items| - 1
    ensures FastPairing(all, RemoveAt(items[1..], j), used + {items[0].idx, items[1..][j].idx},
                        pairs + [[items[0].idx, items[1..][j].idx]])
  {
    NoneUsedAfterPair(items, j, used);
    PairedStep(pairs, items, Diversity, Some(PairWindow), j);
  }

  lemma FastPairSingle(all: seq<Item>, items: seq<Item>, used: set<nat>, pairs: seq<seq<nat>>)
    requires FastPairing(all, items, used, pairs) && |items| > 0
    requires |Window(items[1..], Some(PairWindow))| == 0
    ensures FastPairing(all, items[1..], used, pairs + [[items[0].idx]])
  {
    NoneUsedTail(items, used);
    SingleStep(pairs, items, Diversity, Some(PairWindow));
  }

  /** `greedy_arrangement`: the first frame stays first; then the frame of the
      next 100 with the highest local satisfaction against the last one placed
      (the first such) is moved to the end of the arrangement. The fallback
      that appends the front frame when no candidate scored above minus
      infinity is never taken, since the window is never empty. */
  method GreedyArrangement(glassframes: seq<seq<nat>>, cache: seq<Tags>) returns (arranged: seq<seq<nat>>)
    requires |glassframes| > 0
    requires |glassframes| >= 2 ==> forall i :: 0 <= i < |glassframes| ==> ValidFrame(glassframes[i], cache)
    ensures arranged == GreedyOrder(glassframes, Satisfaction(CachedTags(cache)), Some(ArrangeWindow))
    ensures |arranged| == |glassframes| && arranged[0] == glassframes[0]
    ensures multiset(arranged) == multiset(glassframes)
  {
    var score := Satisfaction(CachedTags(cache));
    var frames := glassframes[1..];
    arranged := [glassframes[0]];
    assert GreedyOrder(glassframes, score, Some(ArrangeWindow))
           == [glassframes[0]] + Chain(glassframes[0], frames, score, Some(ArrangeWindow));
    while |frames| > 0
      invariant |arranged| > 0
      invariant arranged + Chain(arranged[|arranged| - 1], frames, score, Some(ArrangeWindow))
                == GreedyOrder(glassframes, score, Some(ArrangeWindow))
      decreases |frames|
    {
      var current := arranged[|arranged| - 1];
      var cands := Window(frames, Some(ArrangeWindow));
      var scores := CandidateScores(current, cands, score);
      var best := ScanBest(scores, None);
      if best.Some? {
        var k := best.value;
        AppendPick(arranged, frames, k, score, Some(ArrangeWindow));
        arranged := arranged + [frames[k]];
        frames := RemoveAt(frames, k);
      } else {
        assert false;
      }
    }
  }
}
