/** `fast_greedy` and `batch_processing` of `11_randomizing_paintings.py`:
    after the first frame, the next frame is the one `heappop` returns from a
    heap of `(-score, frame)` built against the tail, so ties go to the
    lexicographically smallest frame; batches of frames are ordered one by
    one and concatenated. */
module HeapGreedy {
  import opened Wrappers
  import opened Scoring
  import opened Selection

  type Frame = seq<nat>

  /** Local satisfaction of a candidate frame with the tail frame, through the
      tag cache. The heap stores its negation. */
  function TailScore(tail: Frame, cache: seq<Tags>): Frame -> int
  {
    (g: Frame) => Local(FrameTags(tail, cache), FrameTags(g, cache)) as int
  }

  /** The frames appended after `cur`: each time the heap's least entry,
      removed from the list by value. */
  function HeapChain(cur: Frame, pool: seq<Frame>, cache: seq<Tags>): (out: seq<Frame>)
    ensures |out| == |pool|
    ensures multiset(out) == multiset(pool)
    decreases |pool|
  {
    if |pool| == 0 then []
    else
      var v := HeapMin(pool, TailScore(cur, cache));
      [v] + HeapChain(v, RemoveFirst(pool, v), cache)
  }

  /** The arrangement `fast_greedy` returns. */
  function HeapOrder(frames: seq<Frame>, cache: seq<Tags>): (out: seq<Frame>)
    requires |frames| > 0
    ensures |out| == |frames| && out[0] == frames[0]
    ensures multiset(out) == multiset(frames)
  {
    assert frames == [frames[0]] + frames[1..];
    [frames[0]] + HeapChain(frames[0], frames[1..], cache)
  }

  /** The heap's pick is a frame of highest score against the tail, and among
      those the lexicographically smallest. */
  predicate IsHeapPick(cur: Frame, pool: seq<Frame>, v: Frame, cache: seq<Tags>)
  {
    var f := TailScore(cur, cache);
    && v in pool
    && (forall y :: y in pool ==> f(y) <= f(v))
    && (forall y :: y in pool && f(y) == f(v) && y != v ==> LexLess(v, y))
  }

  /** The first frame appended is the heap's pick, and no other frame is. */
  lemma HeapPick(cur: Frame, pool: seq<Frame>, cache: seq<Tags>, w: Frame)
    requires |pool| > 0
    ensures IsHeapPick(cur, pool, HeapChain(cur, pool, cache)[0], cache)
    ensures IsHeapPick(cur, pool, w, cache) ==> w == HeapChain(cur, pool, cache)[0]
  {
    var f := TailScore(cur, cache);
    var v := HeapMin(pool, f);
    forall y | y in pool && f(y) == f(v) && y != v
      ensures LexLess(v, y)
    {
      LexTotal(v, y);
    }
    if w != v && w in pool {
      assert !HeapBefore(f, w, v);
    }
  }

  /** The arrangement depends on which frames follow the first, not on their
      order in the list. */
  lemma {:induction false} HeapChainOrderFree(cur: Frame, p: seq<Frame>, q: seq<Frame>, cache: seq<Tags>)
    requires multiset(p) == multiset(q)
    ensures HeapChain(cur, p, cache) == HeapChain(cur, q, cache)
    decreases |p|
  {
    if |p| > 0 {
      var f := TailScore(cur, cache);
      HeapMinOrderFree(p, q, f);
      var v := HeapMin(p, f);
      RemoveSame(p, q, v);
      HeapChainOrderFree(v, RemoveFirst(p, v), RemoveFirst(q, v), cache);
    } else {
      assert |q| == |multiset(q)| == 0;
    }
  }

  /** Removing the same frame from two permutations of each other leaves
      permutations of each other. */
  lemma RemoveSame(p: seq<Frame>, q: seq<Frame>, v: Frame)
    requires multiset(p) == multiset(q) && v in p
    ensures v in q && multiset(RemoveFirst(p, v)) == multiset(RemoveFirst(q, v))
  {
    assert v in multiset(q);
    assert multiset(RemoveFirst(p, v)) == multiset(p) - multiset{v};
    assert multiset(RemoveFirst(q, v)) == multiset(q) - multiset{v};
  }

  /** Ordering an ordered list again changes nothing. */
  lemma HeapOrderIdempotent(frames: seq<Frame>, cache: seq<Tags>)
    requires |frames| > 0
    ensures HeapOrder(HeapOrder(frames, cache), cache) == HeapOrder(frames, cache)
  {
    var out := HeapOrder(frames, cache);
    var tail := HeapChain(frames[0], frames[1..], cache);
    assert out[1..] == tail;
    HeapChainOrderFree(frames[0], tail, frames[1..], cache);
  }

  /** `fast_greedy`: the first frame is taken off; while frames remain, the
      heap of `(-score, frame)` against the tail is rebuilt, its least entry
      appended and removed from the list by value. */
  method FastGreedy(frames: seq<Frame>, cache: seq<Tags>) returns (ordered: seq<Frame>)
    requires |frames| > 0
    requires forall i :: 0 <= i < |frames| ==> ValidFrame(frames[i], cache)
    ensures ordered == HeapOrder(frames, cache)
  {
    var pool := frames[1..];
    ordered := [frames[0]];
    ghost var whole := HeapOrder(frames, cache);
    while |pool| > 0
      invariant HeapOrdering(whole, cache, ordered, pool)
      decreases |pool|
    {
      var tail := ordered[|ordered| - 1];
      var best := HeapMin(pool, TailScore(tail, cache));
      HeapStep(whole, cache, ordered, pool);
      ordered := ordered + [best];
      pool := RemoveFirst(pool, best);
    }
    assert HeapChain(ordered[|ordered| - 1], pool, cache) == [];
  }

  /** The state of the `fast_greedy` loop: the frames placed so far, followed
      by the chain from the last one through the frames left, give the whole
      arrangement. */
  predicate HeapOrdering(whole: seq<Frame>, cache: seq<Tags>, ordered: seq<Frame>, pool: seq<Frame>)
  {
    |ordered| > 0 && ordered + HeapChain(ordered[|ordered| - 1], pool, cache) == whole
  }

  lemma HeapStep(whole: seq<Frame>, cache: seq<Tags>, ordered: seq<Frame>, pool: seq<Frame>)
    requires |pool| > 0 && HeapOrdering(whole, cache, ordered, pool)
    ensures var best := HeapMin(pool, TailScore(ordered[|ordered| - 1], cache));
      best in pool && HeapOrdering(whole, cache, ordered + [best], RemoveFirst(pool, best))
  {
    var tail := ordered[|ordered| - 1];
    var best := HeapMin(pool, TailScore(tail, cache));
    var rest := RemoveFirst(pool, best);
    HeapChainCons(tail, pool, cache);
    MoveFront(ordered, HeapChain(tail, pool, cache), best, HeapChain(best, rest, cache), whole);
  }

  /** Moving the front of the chain onto the end of the ordered prefix. */
  lemma MoveFront(ordered: seq<Frame>, chain: seq<Frame>, v: Frame, chain': seq<Frame>, whole: seq<Frame>)
    requires ordered + chain == whole && chain == [v] + chain'
    ensures (ordered + [v]) + chain' == whole && (ordered + [v])[|ordered + [v]| - 1] == v
  {
    SeqAssoc(ordered, [v], chain');
  }

  /** The chain starts with the heap's pick. */
  lemma HeapChainCons(cur: Frame, pool: seq<Frame>, cache: seq<Tags>)
    requires |pool| > 0
    ensures var v := HeapMin(pool, TailScore(cur, cache));
      v in pool && HeapChain(cur, pool, cache) == [v] + HeapChain(v, RemoveFirst(pool, v), cache)
  {
  }

  /** All frames of the batches, in order. */
  function Concat(bs: seq<seq<Frame>>): seq<Frame>
  {
    if |bs| == 0 then [] else bs[0] + Concat(bs[1..])
  }

  lemma {:induction false} ConcatSnoc(bs: seq<seq<Frame>>, b: seq<Frame>)
    ensures Concat(bs + [b]) == Concat(bs) + b
  {
    if |bs| > 0 {
      assert (bs + [b])[1..] == bs[1..] + [b];
      ConcatSnoc(bs[1..], b);
    } else {
      assert bs + [b] == [b];
    }
  }

  /** The slices `frames[i:i + size]` for `i` in `range(0, len(frames), size)`. */
  function Chunks(frames: seq<Frame>, size: nat): (r: seq<seq<Frame>>)
    requires size > 0
    ensures forall k :: 0 <= k < |r| ==> 0 < |r[k]| <= size
    ensures forall k :: 0 <= k < |r| - 1 ==> |r[k]| == size
    ensures Concat(r) == frames
    decreases |frames|
  {
    if |frames| == 0 then []
    else if |frames| <= size then
      assert Concat([frames]) == frames + Concat([]);
      [frames]
    else
      var rest := Chunks(frames[size..], size);
      assert Concat([frames[..size]] + rest) == frames[..size] + Concat(rest) by {
        assert ([frames[..size]] + rest)[1..] == rest;
      }
      assert frames == frames[..size] + frames[size..];
      [frames[..size]] + rest
  }

  /** Each batch ordered on its own, in batch order. */
  function OrderedBatches(bs: seq<seq<Frame>>, cache: seq<Tags>): (r: seq<seq<Frame>>)
    requires forall k :: 0 <= k < |bs| ==> |bs[k]| > 0
    ensures |r| == |bs| && forall k :: 0 <= k < |bs| ==> r[k] == HeapOrder(bs[k], cache)
  {
    seq(|bs|, k requires 0 <= k < |bs| => HeapOrder(bs[k], cache))
  }

  /** Ordering every batch keeps every frame. */
  lemma {:induction false} OrderedBatchesMultiset(bs: seq<seq<Frame>>, cache: seq<Tags>)
    requires forall k :: 0 <= k < |bs| ==> |bs[k]| > 0
    ensures multiset(Concat(OrderedBatches(bs, cache))) == multiset(Concat(bs))
  {
    if |bs| > 0 {
      var tail := bs[1..];
      OrderedBatchesMultiset(tail, cache);
      assert OrderedBatches(bs, cache)[1..] == OrderedBatches(tail, cache);
    }
  }

  /** `batch_processing` with a positive batch size: the concatenation of the
      batches, each ordered by `fast_greedy`. */
  function BatchOrder(frames: seq<Frame>, cache: seq<Tags>, size: nat): seq<Frame>
    requires size > 0
  {
    Concat(OrderedBatches(Chunks(frames, size), cache))
  }

  /** Batching returns a permutation of its input, and nothing for nothing. */
  lemma BatchOrderPermutes(frames: seq<Frame>, cache: seq<Tags>, size: nat)
    requires size > 0
    ensures multiset(BatchOrder(frames, cache, size)) == multiset(frames)
    ensures |frames| == 0 ==> BatchOrder(frames, cache, size) == []
  {
    OrderedBatchesMultiset(Chunks(frames, size), cache);
  }

  /** Batches of at least the whole list leave a single `fast_greedy` pass. */
  lemma BatchOrderOneBatch(frames: seq<Frame>, cache: seq<Tags>, size: nat)
    requires 0 < |frames| <= size
    ensures BatchOrder(frames, cache, size) == HeapOrder(frames, cache)
  {
    var bs := OrderedBatches([frames], cache);
    assert Concat(bs) == bs[0] + Concat([]);
  }

  /** `batch_processing`: the list is cut into slices of `batch_size`, each is
      ordered by `fast_greedy`, and the ordered batches are concatenated; every
      batch but the first passes through `fast_greedy` a second time, which
      changes nothing. A zero batch size is rejected by `range` with a
      `ValueError`; a negative one gives an empty range and so an empty
      result. */
  method BatchProcessing(frames: seq<Frame>, cache: seq<Tags>, batchSize: int)
    returns (result: Result<seq<Frame>, string>)
    requires batchSize > 0 ==> forall i :: 0 <= i < |frames| ==> ValidFrame(frames[i], cache)
    ensures result.Failure? <==> batchSize == 0
    ensures batchSize < 0 ==> result == Success([])
    ensures batchSize > 0 ==> result == Success(BatchOrder(frames, cache, batchSize))
  {
    if batchSize == 0 {
      return Failure("range() arg 3 must not be zero");
    }
    if batchSize < 0 {
      return Success([]);
    }
    var ordered := OrderEachBatch(frames, cache, batchSize);
    var finalSequence := JoinBatches(frames, cache, batchSize, ordered);
    return Success(finalSequence);
  }

  /** The first loop of `batch_processing`: every batch through `fast_greedy`. */
  method OrderEachBatch(frames: seq<Frame>, cache: seq<Tags>, size: nat) returns (orderedBatches: seq<seq<Frame>>)
    requires size > 0 && forall i :: 0 <= i < |frames| ==> ValidFrame(frames[i], cache)
    ensures orderedBatches == OrderedBatches(Chunks(frames, size), cache)
  {
    var batches := Chunks(frames, size);
    ghost var target := OrderedBatches(batches, cache);
    orderedBatches := [];
    for b := 0 to |batches|
      invariant orderedBatches == target[..b]
    {
      ChunkFramesValid(frames, cache, size, b);
      var ordered := FastGreedy(batches[b], cache);
      SnocPrefixOf(target, b);
      orderedBatches := orderedBatches + [ordered];
    }
    assert target[..|batches|] == target;
  }

  /** The second loop of `batch_processing`: the first ordered batch is taken
      as it is, every later one goes through `fast_greedy` again, which leaves
      it unchanged. */
  method JoinBatches(frames: seq<Frame>, cache: seq<Tags>, size: nat, target: seq<seq<Frame>>)
    returns (finalSequence: seq<Frame>)
    requires size > 0 && forall i :: 0 <= i < |frames| ==> ValidFrame(frames[i], cache)
    requires target == OrderedBatches(Chunks(frames, size), cache)
    ensures finalSequence == Concat(target)
  {
    var orderedBatches := target;
    finalSequence := [];
    var done := 0;
    JoinStart(target);
    while |orderedBatches| > 0
      invariant Joined(target, done, orderedBatches, finalSequence)
      decreases |orderedBatches|
    {
      var current := orderedBatches[0];
      JoinStep(target, done, orderedBatches, finalSequence);
      orderedBatches := orderedBatches[1..];
      if |finalSequence| == 0 {
        finalSequence := finalSequence + current;
      } else {
        BatchReorder(frames, cache, size, target, done);
        var again := FastGreedy(current, cache);
        finalSequence := finalSequence + again;
      }
      done := done + 1;
    }
    JoinDone(target, done, orderedBatches, finalSequence);
  }

  /** The state of the second loop: `done` ordered batches joined, the rest
      still to come. */
  predicate Joined(target: seq<seq<Frame>>, done: nat, rest: seq<seq<Frame>>, joined: seq<Frame>)
  {
    done <= |target| && rest == target[done..] && joined == Concat(target[..done])
  }

  lemma JoinStart(target: seq<seq<Frame>>)
    ensures Joined(target, 0, target, [])
  {
    assert target[..0] == [];
  }

  lemma JoinStep(target: seq<seq<Frame>>, done: nat, rest: seq<seq<Frame>>, joined: seq<Frame>)
    requires Joined(target, done, rest, joined) && |rest| > 0
    ensures done < |target| && rest[0] == target[done]
    ensures Joined(target, done + 1, rest[1..], joined + rest[0])
  {
    SnocPrefixOf(target, done);
    ConcatSnoc(target[..done], target[done]);
  }

  lemma JoinDone(target: seq<seq<Frame>>, done: nat, rest: seq<seq<Frame>>, joined: seq<Frame>)
    requires Joined(target, done, rest, joined) && |rest| == 0
    ensures joined == Concat(target)
  {
    assert target[..done] == target;
  }

  /** An ordered batch is a valid, nonempty list that ordering again leaves
      unchanged. */
  lemma BatchReorder(frames: seq<Frame>, cache: seq<Tags>, size: nat, target: seq<seq<Frame>>, b: nat)
    requires size > 0 && forall i :: 0 <= i < |frames| ==> ValidFrame(frames[i], cache)
    requires target == OrderedBatches(Chunks(frames, size), cache) && b < |target|
    ensures |target[b]| > 0 && forall i :: 0 <= i < |target[b]| ==> ValidFrame(target[b][i], cache)
    ensures HeapOrder(target[b], cache) == target[b]
  {
    HeapOrderIdempotent(Chunks(frames, size)[b], cache);
    ChunkValid(frames, cache, size, b);
  }

  /** Every frame of a batch is a frame of the list. */
  lemma ChunkMember(frames: seq<Frame>, size: nat, b: nat)
    requires size > 0 && b < |Chunks(frames, size)|
    ensures forall x :: x in Chunks(frames, size)[b] ==> x in frames
  {
    ConcatMember(Chunks(frames, size), b);
  }

  lemma {:induction false} ConcatMember(bs: seq<seq<Frame>>, b: nat)
    requires b < |bs|
    ensures forall x :: x in bs[b] ==> x in Concat(bs)
  {
    if b > 0 {
      ConcatMember(bs[1..], b - 1);
    }
  }

  lemma SnocPrefixOf(t: seq<seq<Frame>>, b: nat)
    requires b < |t|
    ensures t[..b + 1] == t[..b] + [t[b]]
  {
  }

  /** The frames of a batch are valid when the list's are. */
  lemma ChunkFramesValid(frames: seq<Frame>, cache: seq<Tags>, size: nat, b: nat)
    requires size > 0 && b < |Chunks(frames, size)|
    requires forall i :: 0 <= i < |frames| ==> ValidFrame(frames[i], cache)
    ensures var c := Chunks(frames, size)[b];
      |c| > 0 && forall i :: 0 <= i < |c| ==> ValidFrame(c[i], cache)
  {
    var c := Chunks(frames, size)[b];
    ChunkMember(frames, size, b);
    forall i | 0 <= i < |c|
      ensures ValidFrame(c[i], cache)
    {
      assert c[i] in frames;
    }
  }

  /** The frames of an ordered batch are valid when the list's are. */
  lemma ChunkValid(frames: seq<Frame>, cache: seq<Tags>, size: nat, b: nat)
    requires size > 0 && b < |Chunks(frames, size)|
    requires forall i :: 0 <= i < |frames| ==> ValidFrame(frames[i], cache)
    ensures var o := HeapOrder(Chunks(frames, size)[b], cache);
      forall i :: 0 <= i < |o| ==> ValidFrame(o[i], cache)
  {
    var c := Chunks(frames, size)[b];
    var o := HeapOrder(c, cache);
    ChunkMember(frames, size, b);
    forall i | 0 <= i < |o|
      ensures ValidFrame(o[i], cache)
    {
      assert o[i] in multiset(o);
      assert o[i] in c;
    }
  }
}
