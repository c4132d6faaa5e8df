/** `10_computable_moments.py`: landscapes as singleton frameglasses in input
    order, portraits sorted by tag count and paired by largest union, then a
    full-scan greedy ordering. */
module ComputableMoments {
  import opened Wrappers
  import opened Scoring
  import opened Selection
  import opened StableSort
  import opened Pairing
  import opened PairingOrder
  import opened StableSortFacts
  import opened Greedy

  /** A parsed painting: its type letter and its tags. */
  datatype Painting = Painting(kind: string, tags: Tags)

  /** A frameglass: its member indices and the union of their tags, cached
      when it is built. */
  datatype Frameglass = Frameglass(members: seq<nat>, tags: Tags)

  /** The tag cache: painting index to tags. */
  function TagCache(ps: seq<Painting>): (c: seq<Tags>)
    ensures |c| == |ps| && forall i :: 0 <= i < |ps| ==> c[i] == ps[i].tags
  {
    seq(|ps|, i requires 0 <= i < |ps| => ps[i].tags)
  }

  /** The paintings of one type letter among the first `n`, in input order:
      exactly those of that letter, each once, by increasing index. */
  function OfKind(ps: seq<Painting>, kind: string, n: nat): (r: seq<Item>)
    requires n <= |ps|
    ensures forall it :: it in r ==> it.idx < n && ps[it.idx].kind == kind && it.tags == ps[it.idx].tags
    ensures forall i :: 0 <= i < n ==> (ps[i].kind == kind <==> Item(i, ps[i].tags) in r)
    ensures forall a, b :: 0 <= a < b < |r| ==> r[a].idx < r[b].idx
  {
    if n == 0 then []
    else
      var prev := OfKind(ps, kind, n - 1);
      prev + (if ps[n - 1].kind == kind then [Item(n - 1, ps[n - 1].tags)] else [])
  }

  function Landscapes(ps: seq<Painting>): seq<Item>
  {
    OfKind(ps, "L", |ps|)
  }

  function Portraits(ps: seq<Painting>): seq<Item>
  {
    OfKind(ps, "P", |ps|)
  }

  /** The union of the tags of a group's items. */
  function GroupTags(g: seq<Item>): Tags
  {
    if |g| == 0 then {} else g[0].tags + GroupTags(g[1..])
  }

  function ToFrameglass(g: seq<Item>): Frameglass
  {
    Frameglass(Indices(g), GroupTags(g))
  }

  function ToFrameglasses(gs: seq<seq<Item>>): (r: seq<Frameglass>)
    ensures |r| == |gs| && forall n :: 0 <= n < |gs| ==> r[n] == ToFrameglass(gs[n])
  {
    seq(|gs|, n requires 0 <= n < |gs| => ToFrameglass(gs[n]))
  }

  /** The portrait groups: sorted by descending tag count (stable), then
      paired with the first remaining portrait of largest union. */
  function PortraitGroups(ps: seq<Painting>): seq<seq<Item>>
  {
    GreedyPair(SortBy(Portraits(ps), ByTagCountDesc), UnionSize, None)
  }

  /** One singleton frameglass per landscape, in input order. */
  function LandscapeFrames(ps: seq<Painting>): (r: seq<Frameglass>)
    ensures |r| == |Landscapes(ps)|
  {
    var ls := Landscapes(ps);
    ToFrameglasses(seq(|ls|, i requires 0 <= i < |ls| => [ls[i]]))
  }

  /** `create_frameglasses`: the landscape frameglasses, then ceil(P / 2)
      portrait frameglasses (the early return without portraits included). */
  function CreateFrameglasses(ps: seq<Painting>): (r: seq<Frameglass>)
    ensures |r| == |Landscapes(ps)| + (|Portraits(ps)| + 1) / 2
    ensures r[..|Landscapes(ps)|] == LandscapeFrames(ps)
    ensures r[|Landscapes(ps)|..] == ToFrameglasses(PortraitGroups(ps))
  {
    PortraitGroupCount(ps);
    if |Portraits(ps)| == 0 then
      assert SortBy(Portraits(ps), ByTagCountDesc) == [];
      LandscapeFrames(ps)
    else LandscapeFrames(ps) + ToFrameglasses(PortraitGroups(ps))
  }

  /** Sorting the portraits keeps their number. */
  lemma SortedPortraitsLength(ps: seq<Painting>)
    ensures |SortBy(Portraits(ps), ByTagCountDesc)| == |Portraits(ps)|
  {
    var sorted := SortBy(Portraits(ps), ByTagCountDesc);
    assert |sorted| == |multiset(sorted)| == |multiset(Portraits(ps))| == |Portraits(ps)|;
  }

  /** Landscapes come first: one singleton frameglass per landscape, in input
      order; with no portraits there is nothing else. */
  lemma LandscapesFirst(ps: seq<Painting>)
    ensures var out := CreateFrameglasses(ps);
            var ls := Landscapes(ps);
            && |out| >= |ls|
            && (forall i :: 0 <= i < |ls| ==> out[i] == Frameglass([ls[i].idx], ls[i].tags))
            && (|Portraits(ps)| == 0 ==> |out| == |ls|)
  {
    var ls := Landscapes(ps);
    var lf := LandscapeFrames(ps);
    forall i | 0 <= i < |ls|
      ensures lf[i] == Frameglass([ls[i].idx], ls[i].tags)
    {
      assert GroupTags([ls[i]]) == ls[i].tags + GroupTags([]);
    }
  }

  /** After the landscapes come the portrait groups, which hold every portrait
      exactly once, in ceil(P / 2) frameglasses. */
  lemma PortraitFramesPartition(ps: seq<Painting>)
    ensures var out := CreateFrameglasses(ps);
            var ls := Landscapes(ps);
            var gs := PortraitGroups(ps);
            && |out| == |ls| + (|Portraits(ps)| + 1) / 2
            && |gs| == (|Portraits(ps)| + 1) / 2
            && out[|ls|..] == ToFrameglasses(gs)
            && multiset(Flatten(gs)) == multiset(Portraits(ps))
  {
    PortraitGroupCount(ps);
    PortraitGroupsPartition(ps);
    FramesLayout(ps);
  }

  lemma PortraitGroupCount(ps: seq<Painting>)
    ensures |PortraitGroups(ps)| == (|Portraits(ps)| + 1) / 2
  {
    SortedPortraitsLength(ps);
    GreedyPairCount(SortBy(Portraits(ps), ByTagCountDesc), UnionSize, None);
  }

  lemma PortraitGroupsPartition(ps: seq<Painting>)
    ensures multiset(Flatten(PortraitGroups(ps))) == multiset(Portraits(ps))
  {
    var sorted := SortBy(Portraits(ps), ByTagCountDesc);
    GreedyPairPartition(sorted, UnionSize, None);
    assert multiset(sorted) == multiset(Portraits(ps));
  }

  lemma FramesLayout(ps: seq<Painting>)
    ensures var out := CreateFrameglasses(ps);
            && |out| == |Landscapes(ps)| + |PortraitGroups(ps)|
            && out[|Landscapes(ps)|..] == ToFrameglasses(PortraitGroups(ps))
  {
    var lf := LandscapeFrames(ps);
    CreateSplit(ps);
    assert (lf + ToFrameglasses(PortraitGroups(ps)))[|lf|..] == ToFrameglasses(PortraitGroups(ps));
  }

  /** With no portraits the portrait frameglasses are empty, so the output is
      always the landscape frameglasses followed by the portrait ones. */
  lemma CreateSplit(ps: seq<Painting>)
    ensures CreateFrameglasses(ps) == LandscapeFrames(ps) + ToFrameglasses(PortraitGroups(ps))
  {
    if |Portraits(ps)| == 0 {
      assert SortBy(Portraits(ps), ByTagCountDesc) == [];
      assert ToFrameglasses(PortraitGroups(ps)) == [];
    }
  }

  /** Every portrait frameglass but the last is a pair; the last is a single
      portrait exactly when the number of portraits is odd. */
  lemma PortraitFramesShape(ps: seq<Painting>)
    ensures var gs := PortraitGroups(ps);
            && (forall n :: 0 <= n < |gs| - 1 ==> |ToFrameglass(gs[n]).members| == 2)
            && (|gs| > 0 ==> (|ToFrameglass(gs[|gs| - 1]).members| == 1 <==> |Portraits(ps)| % 2 == 1))
  {
    var sorted := SortBy(Portraits(ps), ByTagCountDesc);
    var gs := GreedyPair(sorted, UnionSize, None);
    SortedPortraitsLength(ps);
    GreedyPairShape(sorted, UnionSize, None);
    if |sorted| > 0 {
      GreedyPairLastSingle(sorted, UnionSize, None);
    }
    FrameglassSizes(gs);
  }

  /** A frameglass has one member per item of its group. */
  lemma FrameglassSizes(gs: seq<seq<Item>>)
    ensures forall n :: 0 <= n < |gs| ==> |ToFrameglass(gs[n]).members| == |gs[n]|
  {
  }

  /** Union of the tags of items taken from the paintings equals the frame tags
      looked up through the tag cache. */
  lemma {:induction false} GroupTagsFromCache(g: seq<Item>, ps: seq<Painting>)
    requires forall it :: it in g ==> it.idx < |ps| && it.tags == ps[it.idx].tags
    ensures GroupTags(g) == FrameTags(ToFrameglass(g).members, TagCache(ps))
  {
    if |g| > 0 {
      var c := TagCache(ps);
      var m := Indices(g);
      assert g[0] in g;
      GroupTagsFromCache(g[1..], ps);
      assert m[1..] == Indices(g[1..]);
      assert FrameTags(m, c) == c[g[0].idx] + FrameTags(m[1..], c);
    }
  }

  /** The items of a portrait group are portraits of the input. */
  lemma PortraitGroupItems(ps: seq<Painting>, n: nat)
    requires n < |PortraitGroups(ps)|
    ensures forall it :: it in PortraitGroups(ps)[n] ==> it.idx < |ps| && it.tags == ps[it.idx].tags
  {
    var gs := PortraitGroups(ps);
    PortraitGroupsPartition(ps);
    forall it: Item | it in gs[n]
      ensures it.idx < |ps| && it.tags == ps[it.idx].tags
    {
      var k :| 0 <= k < |gs[n]| && gs[n][k] == it;
      FlattenContains(gs, n, k);
      assert it in multiset(Flatten(gs));
      assert it in Portraits(ps);
    }
  }

  /** The tags a frameglass caches are the union of its members' tags looked
      up in the tag cache. */
  predicate CachesMemberTags(f: Frameglass, cache: seq<Tags>)
  {
    f.tags == FrameTags(f.members, cache)
  }

  /** A landscape frameglass caches its landscape's tags. */
  lemma LandscapeFrameTags(ps: seq<Painting>, i: nat)
    requires i < |Landscapes(ps)|
    ensures CachesMemberTags(LandscapeFrames(ps)[i], TagCache(ps))
  {
    var ls := Landscapes(ps);
    assert ls[i] in ls;
    GroupTagsFromCache([ls[i]], ps);
  }

  /** A portrait frameglass caches the union of its portraits' tags. */
  lemma PortraitFrameTags(ps: seq<Painting>, n: nat)
    requires n < |PortraitGroups(ps)|
    ensures CachesMemberTags(ToFrameglass(PortraitGroups(ps)[n]), TagCache(ps))
  {
    var g := PortraitGroups(ps)[n];
    PortraitGroupItems(ps, n);
    GroupTagsFromCache(g, ps);
  }

  /** Every landscape frameglass caches its landscape's tags. */
  lemma LandscapeFramesCache(ps: seq<Painting>)
    ensures forall f :: f in LandscapeFrames(ps) ==> CachesMemberTags(f, TagCache(ps))
  {
    var lf := LandscapeFrames(ps);
    forall f | f in lf
      ensures CachesMemberTags(f, TagCache(ps))
    {
      var i :| 0 <= i < |lf| && lf[i] == f;
      LandscapeFrameTags(ps, i);
    }
  }

  /** Every portrait frameglass caches the union of its portraits' tags. */
  lemma PortraitFramesCache(ps: seq<Painting>)
    ensures forall f :: f in ToFrameglasses(PortraitGroups(ps)) ==> CachesMemberTags(f, TagCache(ps))
  {
    var pf := ToFrameglasses(PortraitGroups(ps));
    forall f | f in pf
      ensures CachesMemberTags(f, TagCache(ps))
    {
      var n :| 0 <= n < |pf| && pf[n] == f;
      PortraitFrameTags(ps, n);
    }
  }

  /** Every frameglass caches exactly the union of its members' tags. */
  lemma TagsAreMemberUnion(ps: seq<Painting>)
    ensures forall f :: f in CreateFrameglasses(ps) ==> CachesMemberTags(f, TagCache(ps))
  {
    LandscapeFramesCache(ps);
    PortraitFramesCache(ps);
  }

  /** The sort puts more tags first, and portraits with equally many tags stay
      in input order. */
  lemma PortraitSortOrder(ps: seq<Painting>)
    ensures var sorted := SortBy(Portraits(ps), ByTagCountDesc);
      forall a, b :: 0 <= a < b < |sorted| ==>
        |sorted[a].tags| >= |sorted[b].tags|
        && (|sorted[a].tags| == |sorted[b].tags| ==> sorted[a].idx < sorted[b].idx)
  {
    var sorted := SortBy(Portraits(ps), ByTagCountDesc);
    StableTies(Portraits(ps), ByTagCountDesc, (it: Item) => it.idx as int);
    forall a, b | 0 <= a < b < |sorted|
      ensures |sorted[a].tags| >= |sorted[b].tags|
    {
      assert ByTagCountDesc(sorted[a]) <= ByTagCountDesc(sorted[b]);
    }
  }

  /** Each pair's first portrait has at least as many tags as any portrait
      paired at the same time or later. */
  lemma PairHeadsMostTags(ps: seq<Painting>)
    ensures HeadsLeast(PortraitGroups(ps), ByTagCountDesc)
  {
    GreedyPairHeadsLeast(SortBy(Portraits(ps), ByTagCountDesc), UnionSize, None, ByTagCountDesc);
  }

  /** The tags a frameglass carries. */
  function FgTags(fg: Frameglass): Tags
  {
    fg.tags
  }

  /** `optimize_sequence`: the first frameglass stays first; then the remaining
      frameglass of highest local satisfaction with the last one placed (the
      first such in list order, as `max` returns it) is appended and removed by
      value, until none is left. */
  method OptimizeSequence(frameglasses: seq<Frameglass>) returns (sequence: seq<Frameglass>)
    requires |frameglasses| > 0
    ensures sequence == GreedyOrder(frameglasses, Satisfaction(FgTags), None)
    ensures |sequence| == |frameglasses| && sequence[0] == frameglasses[0]
    ensures multiset(sequence) == multiset(frameglasses)
  {
    var score := Satisfaction(FgTags);
    var pool := frameglasses[1..];
    sequence := [frameglasses[0]];
    assert GreedyOrder(frameglasses, score, None) == [frameglasses[0]] + Chain(frameglasses[0], pool, score, None);
    while |pool| > 0
      invariant |sequence| > 0
      invariant sequence + Chain(sequence[|sequence| - 1], pool, score, None) == GreedyOrder(frameglasses, score, None)
      decreases |pool|
    {
      var last := sequence[|sequence| - 1];
      var scores := SatisfactionWith(last, pool);
      var k := FirstMax(scores);
      var best := pool[k];
      ScanIsPick(last, pool, scores, k, score);
      var rest := RemoveFirst(pool, best);
      assert rest == RemoveAt(pool, k);
      AppendPick(sequence, pool, k, score, None);
      sequence := sequence + [best];
      pool := rest;
    }
  }

  /** The cached tags of each frameglass, in order. */
  function FgTagSeq(fs: seq<Frameglass>): (r: seq<Tags>)
    ensures |r| == |fs| && forall i :: 0 <= i < |fs| ==> r[i] == fs[i].tags
  {
    if |fs| == 0 then [] else [fs[0].tags] + FgTagSeq(fs[1..])
  }

  /** The member lists of the frameglasses, as written to the output. */
  function FgMembers(fs: seq<Frameglass>): (r: seq<seq<nat>>)
    ensures |r| == |fs| && forall i :: 0 <= i < |fs| ==> r[i] == fs[i].members
  {
    seq(|fs|, i requires 0 <= i < |fs| => fs[i].members)
  }

  /** `calculate_global_score`: the adjacent sum of local satisfaction over
      the cached tags; zero for fewer than two frameglasses. */
  method CalculateGlobalScore(sequence: seq<Frameglass>) returns (score: nat)
    ensures score == GlobalScore(FgTagSeq(sequence))
    ensures |sequence| <= 1 ==> score == 0
  {
    if |sequence| <= 1 {
      GlobalScoreShort(FgTagSeq(sequence));
    }
    score := AdjacentSum(FgTagSeq(sequence));
  }

  /** Frameglasses that cache their members' tags score as the member lists
      do when every member's tags are looked up afresh. */
  lemma CachedScoreAgrees(fs: seq<Frameglass>, cache: seq<Tags>)
    requires forall f :: f in fs ==> CachesMemberTags(f, cache)
    ensures GlobalScore(FgTagSeq(fs)) == GlobalScore(FramesTags(FgMembers(fs), cache))
  {
    forall i | 0 <= i < |fs|
      ensures FgTagSeq(fs)[i] == FramesTags(FgMembers(fs), cache)[i]
    {
      assert fs[i] in fs;
    }
    assert FgTagSeq(fs) == FramesTags(FgMembers(fs), cache);
  }

  /** Any arrangement of the created frameglasses scores the same through
      their cached tags as through the input's tags. */
  lemma ArrangedScoreAgrees(ps: seq<Painting>, sequence: seq<Frameglass>)
    requires multiset(sequence) == multiset(CreateFrameglasses(ps))
    ensures GlobalScore(FgTagSeq(sequence)) == GlobalScore(FramesTags(FgMembers(sequence), TagCache(ps)))
  {
    TagsAreMemberUnion(ps);
    forall f | f in sequence
      ensures CachesMemberTags(f, TagCache(ps))
    {
      assert f in multiset(CreateFrameglasses(ps));
    }
    CachedScoreAgrees(sequence, TagCache(ps));
  }

  /** Local satisfaction of each frameglass of `pool` with `last`. */
  function SatisfactionWith(last: Frameglass, pool: seq<Frameglass>): (r: seq<int>)
    ensures |r| == |pool|
    ensures forall i :: 0 <= i < |pool| ==> r[i] == Satisfaction(FgTags)(last, pool[i])
  {
    seq(|pool|, i requires 0 <= i < |pool| => Satisfaction(FgTags)(last, pool[i]))
  }
}
