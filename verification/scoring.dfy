/** The satisfaction scorer, re-implemented identically by every script:
    the local score of two adjacent frames and the global score of a sequence. */
module Scoring {

  /** A tag set; tags are opaque strings. */
  type Tags = set<string>

  function Min3(a: nat, b: nat, c: nat): (m: nat)
    ensures m <= a && m <= b && m <= c
    ensures m == a || m == b || m == c
  {
    if a <= b && a <= c then a else if b <= c then b else c
  }

  /** Local satisfaction: the least of the shared tags, the tags only in `a`
      and the tags only in `b`. */
  function Local(a: Tags, b: Tags): (r: nat)
    ensures r <= |a * b| && r <= |a - b| && r <= |b - a|
  {
    Min3(|a * b|, |a - b|, |b - a|)
  }

  /** The score is one of the three counts, not merely a bound on them. */
  lemma LocalAttained(a: Tags, b: Tags)
    ensures var r := Local(a, b); r == |a * b| || r == |a - b| || r == |b - a|
  {
  }

  /** The score does not depend on which frame comes first. */
  lemma LocalSymmetric(a: Tags, b: Tags)
    ensures Local(a, b) == Local(b, a)
  {
    assert a * b == b * a;
  }

  /** Two frames with the same tags score zero (nothing is unique to either). */
  lemma LocalEqualIsZero(a: Tags, b: Tags)
    requires a == b
    ensures Local(a, b) == 0
  {
    assert a - b == {};
  }

  /** The shared tags and the tags only in `a` split `a`. */
  lemma SplitCardinality(a: Tags, b: Tags)
    ensures |a * b| + |a - b| == |a|
  {
    assert a == (a * b) + (a - b);
    assert (a * b) !! (a - b);
  }

  /** Local satisfaction never exceeds half the tags of either frame, because
      it is bounded by both halves of each frame's split. */
  lemma LocalAtMostHalf(a: Tags, b: Tags)
    ensures 2 * Local(a, b) <= |a|
    ensures 2 * Local(a, b) <= |b|
  {
    SplitCardinality(a, b);
    SplitCardinality(b, a);
    assert b * a == a * b;
  }

  /** Global satisfaction: the sum of local satisfaction over adjacent tag sets. */
  function GlobalScore(ts: seq<Tags>): nat
  {
    if |ts| <= 1 then 0 else Local(ts[0], ts[1]) + GlobalScore(ts[1..])
  }

  /** Sequences of zero or one frame score nothing. */
  lemma GlobalScoreShort(ts: seq<Tags>)
    requires |ts| <= 1
    ensures GlobalScore(ts) == 0
  {
  }

  /** Appending a frame adds exactly its local score against the old tail. */
  lemma {:induction false} GlobalScoreSnoc(ts: seq<Tags>, t: Tags)
    requires |ts| >= 1
    ensures GlobalScore(ts + [t]) == GlobalScore(ts) + Local(ts[|ts| - 1], t)
  {
    if |ts| == 1 {
      assert ts + [t] == [ts[0], t];
    } else {
      var u := ts + [t];
      assert u[0] == ts[0] && u[1] == ts[1];
      assert u[1..] == ts[1..] + [t];
      assert ts[1..][|ts| - 2] == ts[|ts| - 1];
      GlobalScoreSnoc(ts[1..], t);
      GlobalScoreFront(u);
      GlobalScoreFront(ts);
    }
  }

  /** Concatenating two nonempty sequences adds the one boundary score: chunked
      sequencing never optimises that boundary. */
  lemma {:induction false} GlobalScoreConcat(xs: seq<Tags>, ys: seq<Tags>)
    requires |xs| >= 1 && |ys| >= 1
    ensures GlobalScore(xs + ys)
         == GlobalScore(xs) + Local(xs[|xs| - 1], ys[0]) + GlobalScore(ys)
  {
    var u := xs + ys;
    GlobalScoreFront(u);
    if |xs| == 1 {
      assert u[0] == xs[0] && u[1] == ys[0];
      assert u[1..] == ys;
    } else {
      assert u[0] == xs[0] && u[1] == xs[1];
      assert u[1..] == xs[1..] + ys;
      assert xs[1..][|xs| - 2] == xs[|xs| - 1];
      GlobalScoreConcat(xs[1..], ys);
      GlobalScoreFront(xs);
    }
  }

  /** The score of two or more frames: the first pair plus the rest. */
  lemma GlobalScoreFront(ts: seq<Tags>)
    requires |ts| >= 2
    ensures GlobalScore(ts) == Local(ts[0], ts[1]) + GlobalScore(ts[1..])
  {
  }

  /** Twice the global score is bounded by the total tag count of the frames:
      each local score is at most half of either neighbour's tags. */
  lemma {:induction false} GlobalScoreBound(ts: seq<Tags>)
    ensures 2 * GlobalScore(ts) <= TotalTags(ts)
  {
    if |ts| > 1 {
      LocalAtMostHalf(ts[0], ts[1]);
      GlobalScoreBound(ts[1..]);
    }
  }

  function TotalTags(ts: seq<Tags>): nat
  {
    if |ts| == 0 then 0 else |ts[0]| + TotalTags(ts[1..])
  }

  /** The scoring loop (`for i in range(len - 1)`), summing left to right. */
  method AdjacentSum(ts: seq<Tags>) returns (total: nat)
    ensures total == GlobalScore(ts)
  {
    total := 0;
    if |ts| <= 1 {
      return;
    }
    var i := 0;
    assert ts[0..] == ts;
    while i < |ts| - 1
      invariant 0 <= i <= |ts| - 1
      invariant total + GlobalScore(ts[i..]) == GlobalScore(ts)
    {
      GlobalScoreStep(ts, i);
      total := total + Local(ts[i], ts[i + 1]);
      i := i + 1;
    }
  }

  /** The score of a suffix: its first pair plus the rest. */
  lemma GlobalScoreStep(ts: seq<Tags>, i: nat)
    requires i + 1 < |ts|
    ensures GlobalScore(ts[i..]) == Local(ts[i], ts[i + 1]) + GlobalScore(ts[i + 1..])
  {
    assert ts[i..][1..] == ts[i + 1..];
  }

  /** The tags of a frame: the union of its members' tags in the tag cache
      (member indices outside the cache contribute nothing; every operation
      requires them to be inside, since the source raises `KeyError`). */
  function FrameTags(frame: seq<nat>, cache: seq<Tags>): (r: Tags)
    ensures forall t :: t in r <==>
      exists k :: 0 <= k < |frame| && frame[k] < |cache| && t in cache[frame[k]]
  {
    if |frame| == 0 then {}
    else
      var rest := FrameTags(frame[1..], cache);
      assert forall k :: 1 <= k < |frame| ==> frame[k] == frame[1..][k - 1];
      (if frame[0] < |cache| then cache[frame[0]] else {}) + rest
  }

  /** A frame the scorer can look up: nonempty (`set.union()` of nothing raises)
      and every member present in the tag cache. */
  predicate ValidFrame(frame: seq<nat>, cache: seq<Tags>)
  {
    |frame| > 0 && forall k :: 0 <= k < |frame| ==> frame[k] < |cache|
  }

  function FramesTags(frames: seq<seq<nat>>, cache: seq<Tags>): (r: seq<Tags>)
    ensures |r| == |frames|
    ensures forall i :: 0 <= i < |frames| ==> r[i] == FrameTags(frames[i], cache)
  {
    seq(|frames|, i requires 0 <= i < |frames| => FrameTags(frames[i], cache))
  }

  /** Frame tags looked up through a fixed cache. */
  function CachedTags(cache: seq<Tags>): seq<nat> -> Tags
  {
    (f: seq<nat>) => FrameTags(f, cache)
  }

  /** `calculate_score` of the index-list scripts: the global score of the
      frames' member-tag unions. Frames are only looked up when there are at
      least two of them. */
  method CalculateScore(frames: seq<seq<nat>>, cache: seq<Tags>) returns (score: nat)
    requires |frames| >= 2 ==> forall i :: 0 <= i < |frames| ==> ValidFrame(frames[i], cache)
    ensures score == GlobalScore(FramesTags(frames, cache))
    ensures |frames| <= 1 ==> score == 0
  {
    ghost var ts := FramesTags(frames, cache);
    score := 0;
    if |frames| <= 1 {
      return;
    }
    var i := 0;
    assert ts[0..] == ts;
    while i < |frames| - 1
      invariant 0 <= i <= |frames| - 1
      invariant score + GlobalScore(ts[i..]) == GlobalScore(ts)
    {
      var tags1 := FrameTags(frames[i], cache);
      var tags2 := FrameTags(frames[i + 1], cache);
      GlobalScoreStep(ts, i);
      score := score + Local(tags1, tags2);
      i := i + 1;
    }
  }
}
