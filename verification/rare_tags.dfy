/** `arrange_landscapes_by_rare_tags` of `11_randomizing_paintings.py`: tags
    are visited from the least to the most frequent, and each painting not yet
    placed that carries the tag becomes a singleton frame. The order in which
    `Counter` lists the tags depends on set iteration order, so it is a
    parameter (`keys`). */
module RareTags {
  import opened Selection
  import opened StableSort
  import opened Pairing

  /** `tag_to_paintings[t]`: the indices of the paintings carrying `t`, in
      input order. */
  function Carriers(ps: seq<Item>, t: string): (r: seq<nat>)
    ensures forall x :: x in r ==> exists i :: 0 <= i < |ps| && ps[i].idx == x && t in ps[i].tags
    ensures forall i :: 0 <= i < |ps| && t in ps[i].tags ==> ps[i].idx in r
  {
    if |ps| == 0 then []
    else
      var rest := Carriers(ps[1..], t);
      assert forall i :: 1 <= i < |ps| ==> ps[i] == ps[1..][i - 1];
      (if t in ps[0].tags then [ps[0].idx] else []) + rest
  }

  /** The frequency `Counter` assigns a tag: the number of paintings carrying
      it (each painting's tags form a set). */
  function FreqKey(ps: seq<Item>): string -> int
  {
    (t: string) => |Carriers(ps, t)|
  }

  /** `keys` lists the `Counter`'s keys: each tag of some painting, once. */
  predicate TagKeys(ps: seq<Item>, keys: seq<string>)
  {
    && (forall a, b :: 0 <= a < b < |keys| ==> keys[a] != keys[b])
    && (forall i, t :: 0 <= i < |ps| && t in ps[i].tags ==> t in keys)
    && (forall k :: 0 <= k < |keys| ==> |Carriers(ps, keys[k])| > 0)
  }

  /** `rare_tags`: the keys stably sorted by ascending frequency. */
  function RareOrder(ps: seq<Item>, keys: seq<string>): seq<string>
  {
    SortBy(keys, FreqKey(ps))
  }

  /** The position in `rare` of the first tag that `x` carries (`|rare|` when
      none does). */
  function FirstTag(ps: seq<Item>, rare: seq<string>, x: nat): (k: nat)
    ensures k <= |rare|
    ensures forall m :: 0 <= m < k ==> x !in Carriers(ps, rare[m])
    ensures k < |rare| ==> x in Carriers(ps, rare[k])
  {
    if |rare| == 0 then 0
    else if x in Carriers(ps, rare[0]) then 0
    else
      var k := FirstTag(ps, rare[1..], x);
      assert forall m :: 1 <= m < |rare| ==> rare[m] == rare[1..][m - 1];
      1 + k
  }

  /** The first index of the one-element frames. */
  function Heads(fs: seq<seq<nat>>): (r: seq<nat>)
    requires forall k :: 0 <= k < |fs| ==> |fs[k]| == 1
    ensures |r| == |fs| && forall k :: 0 <= k < |fs| ==> r[k] == fs[k][0]
  {
    seq(|fs|, k requires 0 <= k < |fs| => fs[k][0])
  }

  predicate Singles(fs: seq<seq<nat>>)
  {
    forall k :: 0 <= k < |fs| ==> |fs[k]| == 1
  }

  predicate NoDup(s: seq<nat>)
  {
    forall a, b :: 0 <= a < b < |s| ==> s[a] != s[b]
  }

  /** `a` is placed before `b`: its first tag comes earlier, or both first
      carry the same tag and `a` comes earlier in that tag's list. */
  predicate PlacedBefore(ps: seq<Item>, rare: seq<string>, a: nat, b: nat)
  {
    var ka := FirstTag(ps, rare, a);
    var kb := FirstTag(ps, rare, b);
    ka < kb || (ka == kb < |rare| && IndexOf(Carriers(ps, rare[ka]), a) < IndexOf(Carriers(ps, rare[ka]), b))
  }

  predicate RareOrdered(ps: seq<Item>, rare: seq<string>, s: seq<nat>)
  {
    forall a, b :: 0 <= a < b < |s| ==> PlacedBefore(ps, rare, s[a], s[b])
  }

  /** What the loops have placed after the first `r` tags and the first `c`
      carriers of tag `r`. */
  ghost predicate Placed(ps: seq<Item>, rare: seq<string>, r: nat, c: nat, used: set<nat>, arranged: seq<seq<nat>>)
    requires r < |rare| && c <= |Carriers(ps, rare[r])|
  {
    && Singles(arranged)
    && (forall x :: x in used <==> x in Heads(arranged))
    && (forall x :: x in used <==> FirstTag(ps, rare, x) < r || x in Carriers(ps, rare[r])[..c])
    && NoDup(Heads(arranged))
    && RareOrdered(ps, rare, Heads(arranged))
  }

  /** What the loops have placed after the first `r` tags. */
  ghost predicate PlacedTags(ps: seq<Item>, rare: seq<string>, r: nat, used: set<nat>, arranged: seq<seq<nat>>)
  {
    && Singles(arranged)
    && (forall x :: x in used <==> x in Heads(arranged))
    && (forall x :: x in used <==> FirstTag(ps, rare, x) < r)
    && NoDup(Heads(arranged))
    && RareOrdered(ps, rare, Heads(arranged))
  }

  lemma StartTag(ps: seq<Item>, rare: seq<string>, r: nat, used: set<nat>, arranged: seq<seq<nat>>)
    requires r < |rare| && PlacedTags(ps, rare, r, used, arranged)
    ensures Placed(ps, rare, r, 0, used, arranged)
  {
  }

  /** Skipping carrier `c` of tag `r` when it is already used. */
  lemma SkipCarrier(ps: seq<Item>, rare: seq<string>, r: nat, c: nat, used: set<nat>, arranged: seq<seq<nat>>)
    requires r < |rare| && c < |Carriers(ps, rare[r])|
    requires Placed(ps, rare, r, c, used, arranged)
    requires Carriers(ps, rare[r])[c] in used
    ensures Placed(ps, rare, r, c + 1, used, arranged)
  {
    UsedSkip(ps, rare, r, c, used);
  }

  /** A used carrier was counted already. */
  lemma UsedSkip(ps: seq<Item>, rare: seq<string>, r: nat, c: nat, used: set<nat>)
    requires r < |rare| && c < |Carriers(ps, rare[r])|
    requires forall x :: x in used <==> FirstTag(ps, rare, x) < r || x in Carriers(ps, rare[r])[..c]
    requires Carriers(ps, rare[r])[c] in used
    ensures var cs := Carriers(ps, rare[r]);
      forall x :: x in used <==> FirstTag(ps, rare, x) < r || x in cs[..c + 1]
  {
    CountedAlready((x: nat) => FirstTag(ps, rare, x) < r, Carriers(ps, rare[r]), c, used);
  }

  lemma CountedAlready(early: nat -> bool, cs: seq<nat>, c: nat, used: set<nat>)
    requires c < |cs| && cs[c] in used
    requires forall x :: x in used <==> early(x) || x in cs[..c]
    ensures forall x :: x in used <==> early(x) || x in cs[..c + 1]
  {
    assert cs[..c + 1] == cs[..c] + [cs[c]];
  }

  /** Carrier `c` of tag `r`, not placed before, has first tag `r` and sits
      at position `c` of the tag's list. */
  lemma FreshCarrier(ps: seq<Item>, rare: seq<string>, r: nat, c: nat, used: set<nat>)
    requires r < |rare| && c < |Carriers(ps, rare[r])|
    requires forall x :: x in used <==> FirstTag(ps, rare, x) < r || x in Carriers(ps, rare[r])[..c]
    requires Carriers(ps, rare[r])[c] !in used
    ensures var cs := Carriers(ps, rare[r]);
      FirstTag(ps, rare, cs[c]) == r && IndexOf(cs, cs[c]) == c
  {
    var cs := Carriers(ps, rare[r]);
    var p := cs[c];
    assert p !in cs[..c];
    forall q | 0 <= q < c
      ensures cs[q] != p
    {
      assert cs[..c][q] == cs[q];
    }
  }

  /** Appending such a carrier keeps the placement order. */
  lemma PlaceOrdered(ps: seq<Item>, rare: seq<string>, r: nat, c: nat, used: set<nat>, hs: seq<nat>)
    requires r < |rare| && c < |Carriers(ps, rare[r])|
    requires var cs := Carriers(ps, rare[r]);
      FirstTag(ps, rare, cs[c]) == r && IndexOf(cs, cs[c]) == c
    requires forall x :: x in used ==> FirstTag(ps, rare, x) < r || x in Carriers(ps, rare[r])[..c]
    requires forall a :: 0 <= a < |hs| ==> hs[a] in used
    requires RareOrdered(ps, rare, hs)
    ensures RareOrdered(ps, rare, hs + [Carriers(ps, rare[r])[c]])
  {
    var cs := Carriers(ps, rare[r]);
    var p := cs[c];
    forall a | 0 <= a < |hs|
      ensures PlacedBefore(ps, rare, hs[a], p)
    {
      var x := hs[a];
      if FirstTag(ps, rare, x) == r {
        var q' :| 0 <= q' < c && cs[..c][q'] == x;
        assert cs[q'] == x;
      }
    }
    var hs' := hs + [p];
    forall a, b | 0 <= a < b < |hs'|
      ensures PlacedBefore(ps, rare, hs'[a], hs'[b])
    {
      if b < |hs| {
        assert hs'[a] == hs[a] && hs'[b] == hs[b];
      }
    }
  }

  /** Placing carrier `c` of tag `r` when it is not used yet. */
  lemma PlaceCarrier(ps: seq<Item>, rare: seq<string>, r: nat, c: nat, used: set<nat>, arranged: seq<seq<nat>>)
    requires r < |rare| && c < |Carriers(ps, rare[r])|
    requires Placed(ps, rare, r, c, used, arranged)
    requires Carriers(ps, rare[r])[c] !in used
    ensures var p := Carriers(ps, rare[r])[c];
      Placed(ps, rare, r, c + 1, used + {p}, arranged + [[p]])
  {
    var cs := Carriers(ps, rare[r]);
    var p := cs[c];
    var hs := Heads(arranged);
    HeadsSnoc(arranged, p);
    assert p !in hs;
    NoDupSnoc(hs, p);
    UsedSnoc(ps, rare, r, c, used);
    HeadsUsed(hs, used, p);
    FreshCarrier(ps, rare, r, c, used);
    PlaceOrdered(ps, rare, r, c, used, hs);
  }

  lemma HeadsSnoc(arranged: seq<seq<nat>>, p: nat)
    requires Singles(arranged)
    ensures Singles(arranged + [[p]]) && Heads(arranged + [[p]]) == Heads(arranged) + [p]
  {
    var a' := arranged + [[p]];
    assert forall k :: 0 <= k < |arranged| ==> a'[k] == arranged[k];
  }

  lemma NoDupSnoc(hs: seq<nat>, p: nat)
    requires NoDup(hs) && p !in hs
    ensures NoDup(hs + [p])
  {
    var hs' := hs + [p];
    forall a, b | 0 <= a < b < |hs'|
      ensures hs'[a] != hs'[b]
    {
      assert hs'[a] == hs[a];
      if b == |hs| {
        assert hs[a] in hs;
      }
    }
  }

  /** The used set grows by the placed carrier. */
  lemma UsedSnoc(ps: seq<Item>, rare: seq<string>, r: nat, c: nat, used: set<nat>)
    requires r < |rare| && c < |Carriers(ps, rare[r])|
    requires forall x :: x in used <==> FirstTag(ps, rare, x) < r || x in Carriers(ps, rare[r])[..c]
    ensures var cs := Carriers(ps, rare[r]);
      forall x :: x in used + {cs[c]} <==> FirstTag(ps, rare, x) < r || x in cs[..c + 1]
  {
    var cs := Carriers(ps, rare[r]);
    assert cs[..c + 1] == cs[..c] + [cs[c]];
  }

  /** The used set and the placed heads grow together. */
  lemma HeadsUsed(hs: seq<nat>, used: set<nat>, p: nat)
    requires forall x :: x in used <==> x in hs
    ensures forall x :: x in used + {p} <==> x in hs + [p]
    ensures forall a :: 0 <= a < |hs| ==> hs[a] in used
  {
  }

  /** Finishing tag `r`: every painting whose first tag is `r` is now used. */
  lemma FinishTag(ps: seq<Item>, rare: seq<string>, r: nat, used: set<nat>, arranged: seq<seq<nat>>)
    requires r < |rare| && Placed(ps, rare, r, |Carriers(ps, rare[r])|, used, arranged)
    ensures PlacedTags(ps, rare, r + 1, used, arranged)
  {
    var cs := Carriers(ps, rare[r]);
    assert cs[..|cs|] == cs;
  }

  /** `arrange_landscapes_by_rare_tags`: one-painting frames, no painting
      twice, exactly the paintings that carry a tag of `rare`, each placed
      while its rarest tag is visited, in that tag's list order. */
  method ArrangeByRareTags(paintings: seq<Item>, keys: seq<string>) returns (arranged: seq<seq<nat>>)
    requires TagKeys(paintings, keys)
    ensures Singles(arranged)
    ensures var rare := RareOrder(paintings, keys);
      && NoDup(Heads(arranged))
      && (forall x :: x in Heads(arranged) <==> FirstTag(paintings, rare, x) < |rare|)
      && RareOrdered(paintings, rare, Heads(arranged))
  {
    var rare := SortBy(keys, FreqKey(paintings));
    var used: set<nat> := {};
    arranged := [];
    for r := 0 to |rare|
      invariant PlacedTags(paintings, rare, r, used, arranged)
    {
      var carriers := Carriers(paintings, rare[r]);
      StartTag(paintings, rare, r, used, arranged);
      for c := 0 to |carriers|
        invariant Placed(paintings, rare, r, c, used, arranged)
      {
        var p := carriers[c];
        if p !in used {
          PlaceCarrier(paintings, rare, r, c, used, arranged);
          arranged := arranged + [[p]];
          used := used + {p};
        } else {
          SkipCarrier(paintings, rare, r, c, used, arranged);
        }
      }
      FinishTag(paintings, rare, r, used, arranged);
    }
  }

  /** With the keys of every tag, the placed paintings are exactly those that
      carry at least one tag. */
  lemma RareCoverage(ps: seq<Item>, keys: seq<string>, x: nat)
    requires TagKeys(ps, keys)
    ensures var rare := RareOrder(ps, keys);
      FirstTag(ps, rare, x) < |rare| <==> exists i :: 0 <= i < |ps| && ps[i].idx == x && ps[i].tags != {}
  {
    var rare := RareOrder(ps, keys);
    var k := FirstTag(ps, rare, x);
    if k < |rare| {
      assert x in Carriers(ps, rare[k]);
    }
    if i :| 0 <= i < |ps| && ps[i].idx == x && ps[i].tags != {} {
      var t :| t in ps[i].tags;
      assert t in keys;
      assert t in multiset(rare);
      var m :| 0 <= m < |rare| && rare[m] == t;
      assert x in Carriers(ps, rare[m]);
    }
  }
}
