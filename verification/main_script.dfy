/** `main.py`: frameglasses built straight from the token lists (landscapes,
    then consecutive portraits merged pairwise), scored on tag sets, and
    ordered by a full greedy scan. */
module MainScript {
  import opened Wrappers
  import opened Scoring
  import opened Selection
  import opened Greedy

  /** A frameglass of this script: one painting index and a tag list (a pair
      keeps only its first index and both tag lists, concatenated). */
  datatype Entry = Entry(idx: nat, tags: seq<string>)

  /** `parts[2:]`: the tokens after the type letter and the tag count (none
      when the line has fewer than three tokens). */
  function TagTokens(parts: seq<string>): (r: seq<string>)
    ensures |parts| >= 2 ==> parts[..2] + r == parts
    ensures |r| == if |parts| >= 2 then |parts| - 2 else 0
  {
    if |parts| >= 2 then parts[2..] else []
  }

  /** The lines among the first `n` whose first token is `kind`, as entries in
      line order. */
  function OfKind(lines: seq<seq<string>>, kind: string, n: nat): (r: seq<Entry>)
    requires n <= |lines| && forall i :: 0 <= i < |lines| ==> |lines[i]| > 0
    ensures forall e :: e in r ==> e.idx < n && lines[e.idx][0] == kind && e.tags == TagTokens(lines[e.idx])
    ensures forall i :: 0 <= i < n ==> (lines[i][0] == kind <==> Entry(i, TagTokens(lines[i])) in r)
    ensures forall a, b :: 0 <= a < b < |r| ==> r[a].idx < r[b].idx
  {
    if n == 0 then []
    else
      var prev := OfKind(lines, kind, n - 1);
      prev + (if lines[n - 1][0] == kind then [Entry(n - 1, TagTokens(lines[n - 1]))] else [])
  }

  lemma DropPair(ps: seq<Entry>, j: nat)
    requires 2 * j + 3 < |ps|
    ensures ps[2..][2 * j] == ps[2 * (j + 1)] && ps[2..][2 * j + 1] == ps[2 * (j + 1) + 1]
  {
  }

  /** `range(0, len(portraits) - 1, 2)`: portraits `2j` and `2j + 1` merged,
      the first index kept and the tag lists concatenated; an odd last
      portrait is left out. */
  function PairConsecutive(ps: seq<Entry>): (r: seq<Entry>)
    ensures |r| == |ps| / 2
    ensures forall j :: 0 <= j < |r| ==> r[j] == Entry(ps[2 * j].idx, ps[2 * j].tags + ps[2 * j + 1].tags)
    decreases |ps|
  {
    if |ps| < 2 then []
    else
      var rest := PairConsecutive(ps[2..]);
      var r := [Entry(ps[0].idx, ps[0].tags + ps[1].tags)] + rest;
      assert forall j :: 1 <= j < |r| ==> r[j] == Entry(ps[2 * j].idx, ps[2 * j].tags + ps[2 * j + 1].tags) by {
        forall j | 1 <= j < |r|
          ensures r[j] == Entry(ps[2 * j].idx, ps[2 * j].tags + ps[2 * j + 1].tags)
        {
          DropPair(ps, j - 1);
          assert r[j] == rest[j - 1];
        }
      }
      r
  }

  /** `generate_frameglasses`: the landscapes in line order, then the portrait
      pairs. Lines of another type letter are skipped. */
  function GenerateFrameglasses(lines: seq<seq<string>>): seq<Entry>
    requires forall i :: 0 <= i < |lines| ==> |lines[i]| > 0
  {
    OfKind(lines, "L", |lines|) + PairConsecutive(OfKind(lines, "P", |lines|))
  }

  /** `generate_frameglasses` on lines that may be blank: `parts[0]` of a
      blank line raises IndexError, otherwise the frameglasses are built. */
  function GenerateChecked(lines: seq<seq<string>>): (r: Result<seq<Entry>, string>)
    ensures r.Failure? <==> exists i :: 0 <= i < |lines| && |lines[i]| == 0
    ensures r.Failure? ==> r.error == "list index out of range"
    ensures r.Success? ==> forall i :: 0 <= i < |lines| ==> |lines[i]| > 0
    ensures r.Success? ==>
              var ls := OfKind(lines, "L", |lines|);
              var ps := OfKind(lines, "P", |lines|);
              && |r.value| == |ls| + |ps| / 2
              && r.value[..|ls|] == ls
              && forall j :: 0 <= j < |ps| / 2 ==>
                   r.value[|ls| + j] == Entry(ps[2 * j].idx, ps[2 * j].tags + ps[2 * j + 1].tags)
  {
    if forall i :: 0 <= i < |lines| ==> |lines[i]| > 0 then
      GenerateShape(lines);
      Success(GenerateFrameglasses(lines))
    else Failure("list index out of range")
  }

  /** `L + floor(P / 2)` frameglasses: each landscape once in line order, then
      each consecutive portrait pair. */
  lemma GenerateShape(lines: seq<seq<string>>)
    requires forall i :: 0 <= i < |lines| ==> |lines[i]| > 0
    ensures var out := GenerateFrameglasses(lines);
            var ls := OfKind(lines, "L", |lines|);
            var ps := OfKind(lines, "P", |lines|);
            && |out| == |ls| + |ps| / 2
            && out[..|ls|] == ls
            && forall j :: 0 <= j < |ps| / 2 ==>
                 out[|ls| + j] == Entry(ps[2 * j].idx, ps[2 * j].tags + ps[2 * j + 1].tags)
  {
    var ps := OfKind(lines, "P", |lines|);
    var pairs := PairConsecutive(ps);
    AppendPairs(GenerateFrameglasses(lines), OfKind(lines, "L", |lines|), pairs, ps);
  }

  lemma AppendPairs(out: seq<Entry>, ls: seq<Entry>, pairs: seq<Entry>, ps: seq<Entry>)
    requires out == ls + pairs && |pairs| == |ps| / 2
    requires forall j :: 0 <= j < |pairs| ==> pairs[j] == Entry(ps[2 * j].idx, ps[2 * j].tags + ps[2 * j + 1].tags)
    ensures |out| == |ls| + |ps| / 2 && out[..|ls|] == ls
    ensures forall j :: 0 <= j < |ps| / 2 ==>
              out[|ls| + j] == Entry(ps[2 * j].idx, ps[2 * j].tags + ps[2 * j + 1].tags)
  {
    assert out[..|ls|] == ls;
  }

  /** The frameglass at position `k`: a landscape, or the pair of portraits
      `2j` and `2j + 1`. */
  lemma EntryAt(lines: seq<seq<string>>, k: nat)
    requires forall i :: 0 <= i < |lines| ==> |lines[i]| > 0
    requires k < |GenerateFrameglasses(lines)|
    ensures var ls := OfKind(lines, "L", |lines|);
            var ps := OfKind(lines, "P", |lines|);
            var e := GenerateFrameglasses(lines)[k];
            if k < |ls| then e in ls
            else 2 * (k - |ls|) + 1 < |ps| && e.idx == ps[2 * (k - |ls|)].idx
  {
    GenerateShape(lines);
  }

  /** A pair head `2j` is neither an odd position nor an odd last one. */
  lemma PairHeadNotLost(j: nat, m: nat, n: nat)
    requires 2 * j + 1 < n && (m % 2 == 1 || (m == n - 1 && n % 2 == 1))
    ensures 2 * j != m
  {
  }

  /** The second portrait of each pair, and an odd last portrait, give their
      index to no frameglass: only line numbers of landscapes and of
      even-placed portraits survive. */
  lemma LostPortraits(lines: seq<seq<string>>, m: nat)
    requires forall i :: 0 <= i < |lines| ==> |lines[i]| > 0
    requires var ps := OfKind(lines, "P", |lines|);
      m < |ps| && (m % 2 == 1 || (m == |ps| - 1 && |ps| % 2 == 1))
    ensures forall e :: e in GenerateFrameglasses(lines) ==> e.idx != OfKind(lines, "P", |lines|)[m].idx
  {
    var out := GenerateFrameglasses(lines);
    forall e | e in out
      ensures e.idx != OfKind(lines, "P", |lines|)[m].idx
    {
      var k :| 0 <= k < |out| && out[k] == e;
      NotLostAt(lines, m, k);
    }
  }

  lemma NotLostAt(lines: seq<seq<string>>, m: nat, k: nat)
    requires forall i :: 0 <= i < |lines| ==> |lines[i]| > 0
    requires var ps := OfKind(lines, "P", |lines|);
      m < |ps| && (m % 2 == 1 || (m == |ps| - 1 && |ps| % 2 == 1))
    requires k < |GenerateFrameglasses(lines)|
    ensures GenerateFrameglasses(lines)[k].idx != OfKind(lines, "P", |lines|)[m].idx
  {
    var ls := OfKind(lines, "L", |lines|);
    var ps := OfKind(lines, "P", |lines|);
    assert ps[m] in ps;
    EntryAt(lines, k);
    if k >= |ls| {
      var j := k - |ls|;
      PairHeadNotLost(j, m, |ps|);
      assert ps[2 * j].idx != ps[m].idx;
    }
  }

  /** `set(tags)`: the distinct tags of a list. */
  function ToSet(tags: seq<string>): (r: Tags)
    ensures forall t :: t in r <==> t in tags
  {
    set t | t in tags
  }

  function EntryTags(e: Entry): Tags
  {
    ToSet(e.tags)
  }

  function EntryTagSets(es: seq<Entry>): (r: seq<Tags>)
    ensures |r| == |es| && forall i :: 0 <= i < |es| ==> r[i] == ToSet(es[i].tags)
  {
    seq(|es|, i requires 0 <= i < |es| => ToSet(es[i].tags))
  }

  /** `calculate_global_satisfaction`: the adjacent sum over the tag sets, so
      a repeated tag counts once; zero for fewer than two frameglasses. */
  method GlobalSatisfaction(frameglasses: seq<Entry>) returns (total: nat)
    ensures total == GlobalScore(EntryTagSets(frameglasses))
    ensures |frameglasses| <= 1 ==> total == 0
  {
    if |frameglasses| <= 1 {
      GlobalScoreShort(EntryTagSets(frameglasses));
    }
    total := AdjacentSum(EntryTagSets(frameglasses));
  }

  /** Only the tag sets matter: lists with the same distinct tags score alike. */
  lemma GlobalSatisfactionBySets(a: seq<Entry>, b: seq<Entry>)
    requires |a| == |b| && forall i :: 0 <= i < |a| ==> ToSet(a[i].tags) == ToSet(b[i].tags)
    ensures GlobalScore(EntryTagSets(a)) == GlobalScore(EntryTagSets(b))
  {
    assert EntryTagSets(a) == EntryTagSets(b);
  }

  /** Local satisfaction of each remaining frameglass with the current one. */
  function SatisfactionWith(current: Entry, remaining: seq<Entry>): (r: seq<int>)
    ensures r == CandidateScores(current, remaining, Satisfaction(EntryTags))
  {
    seq(|remaining|, i requires 0 <= i < |remaining| => Satisfaction(EntryTags)(current, remaining[i]))
  }

  /** A local satisfaction is never negative, so the scan from `-1` always
      finds a frameglass while some remain. */
  lemma SatisfactionAboveSentinel(current: Entry, remaining: seq<Entry>)
    ensures NoneAbove(SatisfactionWith(current, remaining), |remaining|, Some(-1)) <==> |remaining| == 0
  {
    if |remaining| > 0 {
      assert Satisfaction(EntryTags)(current, remaining[0]) == Local(EntryTags(current), EntryTags(remaining[0])) as int;
    }
  }

  /** `optimize_frameglass_sequence`: on a copy of the list, the first
      frameglass stays first; then the first remaining frameglass of strictly
      greatest local satisfaction with the current one is appended and removed
      by value. */
  method OptimizeFrameglassSequence(frameglasses: seq<Entry>) returns (optimized: seq<Entry>)
    requires |frameglasses| > 0
    ensures optimized == GreedyOrder(frameglasses, Satisfaction(EntryTags), None)
    ensures |optimized| == |frameglasses| && optimized[0] == frameglasses[0]
    ensures multiset(optimized) == multiset(frameglasses)
  {
    var score := Satisfaction(EntryTags);
    var remaining := frameglasses[1..];
    var current := frameglasses[0];
    optimized := [current];
    assert GreedyOrder(frameglasses, score, None) == [current] + Chain(current, remaining, score, None);
    while |remaining| > 0
      invariant |optimized| > 0 && current == optimized[|optimized| - 1]
      invariant optimized + Chain(current, remaining, score, None) == GreedyOrder(frameglasses, score, None)
      decreases |remaining|
    {
      var scores := SatisfactionWith(current, remaining);
      var best := ScanBest(scores, Some(-1));
      SatisfactionAboveSentinel(current, remaining);
      if best.None? {
        assert false;
      } else {
        var k := best.value;
        ScanIsPick(current, remaining, scores, k, score);
        var next := remaining[k];
        AppendPick(optimized, remaining, k, score, None);
        optimized := optimized + [next];
        remaining := RemoveFirst(remaining, next);
        current := next;
      }
    }
  }
}
