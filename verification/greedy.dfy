/** Greedy nearest-neighbour sequencing, as three scripts write it: keep the
    first frame as head, then repeatedly append the remaining frame that scores
    best against the current tail, the first such frame on ties, looking at the
    whole remaining list or only at a window at its front. */
module Greedy {
  import opened Wrappers
  import opened Scoring
  import opened Selection

  /** Scores of candidate frames against the tail. */
  function CandidateScores<F>(tail: F, cands: seq<F>, score: (F, F) -> int): (r: seq<int>)
    ensures |r| == |cands|
    ensures forall i :: 0 <= i < |cands| ==> r[i] == score(tail, cands[i])
  {
    Scores(cands, (f: F) => score(tail, f))
  }

  /** The scripts' score of two adjacent frames: local satisfaction of their tags. */
  function Satisfaction<F>(tagsOf: F -> Tags): (F, F) -> int
  {
    (a: F, b: F) => Local(tagsOf(a), tagsOf(b)) as int
  }

  /** `k` is a greedy choice from `pool` after a tail with tags `tail`: it lies
      in the window, no windowed candidate scores more, and every earlier
      windowed candidate scores strictly less. */
  predicate IsGreedyPick<F>(tail: F, pool: seq<F>, k: nat, score: (F, F) -> int, window: Option<nat>)
  {
    var w := Window(pool, window);
    && k < |w|
    && (forall i :: 0 <= i < |w| ==> score(tail, w[i]) <= score(tail, w[k]))
    && (forall i :: 0 <= i < k ==> score(tail, w[i]) < score(tail, w[k]))
  }

  /** The position the scan selects. */
  function Pick<F>(tail: F, pool: seq<F>, score: (F, F) -> int, window: Option<nat>): (k: nat)
    requires |pool| > 0 && OpenWindow(window)
    ensures k < |pool|
    ensures IsGreedyPick(tail, pool, k, score, window)
  {
    FirstMax(CandidateScores(tail, Window(pool, window), score))
  }

  /** There is only one greedy choice: the scan's. */
  lemma PickUnique<F>(tail: F, pool: seq<F>, k: nat, score: (F, F) -> int, window: Option<nat>)
    requires |pool| > 0 && OpenWindow(window)
    requires IsGreedyPick(tail, pool, k, score, window)
    ensures k == Pick(tail, pool, score, window)
  {
    var p := Pick(tail, pool, score, window);
    var w := Window(pool, window);
    assert score(tail, w[k]) <= score(tail, w[p]);
    assert score(tail, w[p]) <= score(tail, w[k]);
  }

  /** The frames appended after `cur`, drawn greedily from `pool`. */
  function Chain<F>(cur: F, pool: seq<F>, score: (F, F) -> int, window: Option<nat>): (out: seq<F>)
    requires OpenWindow(window)
    ensures |out| == |pool|
    ensures multiset(out) == multiset(pool)
    decreases |pool|
  {
    if |pool| == 0 then []
    else
      var k := Pick(cur, pool, score, window);
      [pool[k]] + Chain(pool[k], RemoveAt(pool, k), score, window)
  }

  /** The whole arrangement: the first frame, then the greedy chain of the rest. */
  function GreedyOrder<F>(frames: seq<F>, score: (F, F) -> int, window: Option<nat>): (out: seq<F>)
    requires |frames| > 0 && OpenWindow(window)
    ensures |out| == |frames| && out[0] == frames[0]
    ensures multiset(out) == multiset(frames)
  {
    assert frames == [frames[0]] + frames[1..];
    [frames[0]] + Chain(frames[0], frames[1..], score, window)
  }

  /** Declarative reading of a greedy arrangement: each frame of `out` is a
      greedy choice against the previous one from what was still left. */
  ghost predicate IsGreedyChain<F>(cur: F, pool: seq<F>, out: seq<F>, score: (F, F) -> int, window: Option<nat>)
    decreases |pool|
  {
    && |out| == |pool|
    && (|pool| == 0 ||
        exists k: nat :: k < |pool| && IsGreedyPick(cur, pool, k, score, window)
               && out[0] == pool[k]
               && IsGreedyChain(pool[k], RemoveAt(pool, k), out[1..], score, window))
  }

  /** The chain is a sequence of greedy choices. */
  lemma {:induction false} ChainIsGreedy<F>(cur: F, pool: seq<F>, score: (F, F) -> int, window: Option<nat>)
    requires OpenWindow(window)
    ensures IsGreedyChain(cur, pool, Chain(cur, pool, score, window), score, window)
    decreases |pool|
  {
    if |pool| > 0 {
      var p := Pick(cur, pool, score, window);
      var c := Chain(cur, pool, score, window);
      assert c[0] == pool[p] && c[1..] == Chain(pool[p], RemoveAt(pool, p), score, window);
      ChainIsGreedy(pool[p], RemoveAt(pool, p), score, window);
    }
  }

  /** Any sequence of greedy choices is the chain: the greedy arrangement is
      determined by its input. */
  lemma {:induction false} GreedyIsChain<F>(cur: F, pool: seq<F>, out: seq<F>, score: (F, F) -> int, window: Option<nat>)
    requires OpenWindow(window)
    requires IsGreedyChain(cur, pool, out, score, window)
    ensures out == Chain(cur, pool, score, window)
    decreases |pool|, 1
  {
    if |pool| > 0 {
      var k: nat :| k < |pool| && IsGreedyPick(cur, pool, k, score, window)
             && out[0] == pool[k]
             && IsGreedyChain(pool[k], RemoveAt(pool, k), out[1..], score, window);
      GreedyStepIsChain(cur, pool, out, k, score, window);
    }
  }

  lemma {:induction false} GreedyStepIsChain<F>(cur: F, pool: seq<F>, out: seq<F>, k: nat,
                                                score: (F, F) -> int, window: Option<nat>)
    requires OpenWindow(window) && k < |pool| && |out| == |pool|
    requires IsGreedyPick(cur, pool, k, score, window) && out[0] == pool[k]
    requires IsGreedyChain(pool[k], RemoveAt(pool, k), out[1..], score, window)
    ensures out == Chain(cur, pool, score, window)
    decreases |pool|, 0
  {
    GreedyIsChain(pool[k], RemoveAt(pool, k), out[1..], score, window);
    ChainFromTail(cur, pool, out, k, score, window);
  }

  lemma ChainFromTail<F>(cur: F, pool: seq<F>, out: seq<F>, k: nat, score: (F, F) -> int, window: Option<nat>)
    requires OpenWindow(window) && k < |pool| && |out| == |pool|
    requires IsGreedyPick(cur, pool, k, score, window) && out[0] == pool[k]
    requires out[1..] == Chain(pool[k], RemoveAt(pool, k), score, window)
    ensures out == Chain(cur, pool, score, window)
  {
    PickUnique(cur, pool, k, score, window);
    ChainUnfold(cur, pool, k, score, window);
    FrontSplit(out);
  }

  lemma ChainUnfold<F>(cur: F, pool: seq<F>, k: nat, score: (F, F) -> int, window: Option<nat>)
    requires OpenWindow(window) && k < |pool| && k == Pick(cur, pool, score, window)
    ensures Chain(cur, pool, score, window) == [pool[k]] + Chain(pool[k], RemoveAt(pool, k), score, window)
  {
  }

  /** A first-maximum scan over the whole pool is the greedy step, and the first
      occurrence of the picked value is at the picked position. */
  lemma ScanIsPick<F>(tail: F, pool: seq<F>, scores: seq<int>, k: nat, score: (F, F) -> int)
    requires |pool| > 0 && |scores| == |pool|
    requires forall i :: 0 <= i < |pool| ==> scores[i] == score(tail, pool[i])
    requires k == FirstMax(scores)
    ensures k == Pick(tail, pool, score, None)
    ensures IndexOf(pool, pool[k]) == k
  {
    var f := (x: F) => score(tail, x);
    assert Scores(pool, f) == scores;
    assert CandidateScores(tail, Window(pool, None), score) == scores;
    RemoveFirstMaxByValue(pool, f);
  }

  /** One step of a loop that builds the arrangement: appending the pick to the
      frames placed so far leaves the completed arrangement unchanged. */
  lemma AppendPick<F>(placed: seq<F>, pool: seq<F>, k: nat, score: (F, F) -> int, window: Option<nat>)
    requires OpenWindow(window) && |placed| > 0 && k < |pool|
    requires k == Pick(placed[|placed| - 1], pool, score, window)
    ensures var next := placed + [pool[k]];
            && next[|next| - 1] == pool[k]
            && placed + Chain(placed[|placed| - 1], pool, score, window)
               == next + Chain(pool[k], RemoveAt(pool, k), score, window)
  {
    var rest := Chain(pool[k], RemoveAt(pool, k), score, window);
    ChainUnfold(placed[|placed| - 1], pool, k, score, window);
    SeqAssoc(placed, [pool[k]], rest);
  }
}
