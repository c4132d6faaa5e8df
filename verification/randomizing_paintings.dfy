/** `11_randomizing_paintings.py`: portraits paired by diversity with a full
    scan in input order; landscapes ordered by their rarest tag; frames
    arranged by a heap-based greedy, batch by batch. */
module RandomizingPaintings {
  import opened Wrappers
  import opened Scoring
  import opened Selection
  import opened StableSort
  import opened Pairing
  import opened Greedy

  /** The items of `s` whose index is not in `used`, in order. */
  function Unused(s: seq<Item>, used: set<nat>): (r: seq<Item>)
    ensures |r| <= |s|
    ensures forall it :: it in r ==> it in s && it.idx !in used
    ensures forall it :: it in s && it.idx !in used ==> it in r
  {
    if |s| == 0 then []
    else if s[0].idx in used then Unused(s[1..], used)
    else [s[0]] + Unused(s[1..], used)
  }

  lemma {:induction false} UnusedConcat(a: seq<Item>, b: seq<Item>, used: set<nat>)
    ensures Unused(a + b, used) == Unused(a, used) + Unused(b, used)
  {
    if |a| > 0 {
      var x, t := a[0], a[1..];
      assert a + b == [x] + (t + b) by {
        assert a == [x] + t;
        SeqAssoc([x], t, b);
      }
      UnusedConcat(t, b, used);
      UnusedCons(x, t + b, used);
      UnusedCons(x, t, used);
      SeqAssoc(if x.idx in used then [] else [x], Unused(t, used), Unused(b, used));
    } else {
      assert a + b == b;
    }
  }

  lemma UnusedCons(x: Item, t: seq<Item>, used: set<nat>)
    ensures Unused([x] + t, used) == (if x.idx in used then [] else [x]) + Unused(t, used)
  {
    assert ([x] + t)[1..] == t;
  }

  lemma {:induction false} UnusedAllUsed(s: seq<Item>, used: set<nat>)
    requires forall k :: 0 <= k < |s| ==> s[k].idx in used
    ensures Unused(s, used) == []
  {
    if |s| > 0 {
      UnusedAllUsed(s[1..], used);
    }
  }

  /** Marking an index no item carries changes nothing. */
  lemma {:induction false} UnusedAbsent(s: seq<Item>, used: set<nat>, v: nat)
    requires forall it :: it in s ==> it.idx != v
    ensures Unused(s, used + {v}) == Unused(s, used)
  {
    if |s| > 0 {
      assert s[0] in s;
      UnusedAbsent(s[1..], used, v);
    }
  }

  /** With distinct indices, marking the `j`-th unused item removes exactly it. */
  lemma {:induction false} UnusedMark(s: seq<Item>, used: set<nat>, j: nat)
    requires DistinctIdx(s) && j < |Unused(s, used)|
    ensures Unused(s, used + {Unused(s, used)[j].idx}) == RemoveAt(Unused(s, used), j)
  {
    DistinctTail(s);
    if s[0].idx in used {
      UnusedMark(s[1..], used, j);
      MarkSkip(s, used, j);
    } else if j == 0 {
      MarkFront(s, used);
    } else {
      var u' := Unused(s[1..], used);
      assert u'[j - 1] in u';
      UnusedMark(s[1..], used, j - 1);
      MarkLater(s, used, j);
    }
  }

  /** Marking behind a used front: the front contributes nothing either way. */
  lemma MarkSkip(s: seq<Item>, used: set<nat>, j: nat)
    requires |s| > 0 && s[0].idx in used && j < |Unused(s[1..], used)|
    requires var u' := Unused(s[1..], used);
      Unused(s[1..], used + {u'[j].idx}) == RemoveAt(u', j)
    ensures j < |Unused(s, used)|
    ensures Unused(s, used + {Unused(s, used)[j].idx}) == RemoveAt(Unused(s, used), j)
  {
    var y := Unused(s[1..], used)[j];
    assert Unused(s, used) == Unused(s[1..], used);
    assert Unused(s, used + {y.idx}) == Unused(s[1..], used + {y.idx});
  }

  /** Marking the unused front removes it and nothing else. */
  lemma MarkFront(s: seq<Item>, used: set<nat>)
    requires |s| > 0 && s[0].idx !in used
    requires forall it :: it in s[1..] ==> it.idx != s[0].idx
    ensures 0 < |Unused(s, used)| && Unused(s, used)[0] == s[0]
    ensures Unused(s, used + {s[0].idx}) == RemoveAt(Unused(s, used), 0)
  {
    var u' := Unused(s[1..], used);
    assert Unused(s, used) == [s[0]] + u';
    UnusedAbsent(s[1..], used, s[0].idx);
    assert Unused(s, used + {s[0].idx}) == Unused(s[1..], used + {s[0].idx});
  }

  /** Marking an unused item behind the unused front keeps the front. */
  lemma MarkLater(s: seq<Item>, used: set<nat>, j: nat)
    requires |s| > 0 && s[0].idx !in used && 0 < j
    requires var u' := Unused(s[1..], used);
      && j - 1 < |u'| && u'[j - 1].idx != s[0].idx
      && Unused(s[1..], used + {u'[j - 1].idx}) == RemoveAt(u', j - 1)
    ensures j < |Unused(s, used)|
    ensures Unused(s, used + {Unused(s, used)[j].idx}) == RemoveAt(Unused(s, used), j)
  {
    var u' := Unused(s[1..], used);
    var y := u'[j - 1];
    assert Unused(s, used) == [s[0]] + u';
    assert Unused(s, used + {y.idx}) == [s[0]] + Unused(s[1..], used + {y.idx});
    RemoveAtCons(s[0], u', j);
  }

  lemma RemoveAtCons(x: Item, t: seq<Item>, j: nat)
    requires 0 < j <= |t|
    ensures RemoveAt([x] + t, j) == [x] + RemoveAt(t, j - 1)
  {
  }

  /** The inner scan of `pair_portraits` skips used items and the front itself:
      its candidates are the items not yet used, the front counted as used. */
  function Candidates(items: seq<Item>, used: set<nat>, front: nat): seq<Item>
  {
    Unused(items, used + {front})
  }

  /** At an unused front whose predecessors are all used, the candidates are
      exactly the unused items after it. */
  lemma CandidatesAfter(items: seq<Item>, used: set<nat>, i: nat)
    requires DistinctIdx(items) && i < |items| && items[i].idx !in used
    requires forall j :: 0 <= j < i ==> items[j].idx in used
    ensures Candidates(items, used, items[i].idx) == Unused(items[i + 1..], used)
    ensures Unused(items[i..], used) == [items[i]] + Unused(items[i + 1..], used)
  {
    var x := items[i];
    var used' := used + {x.idx};
    assert items == items[..i] + ([x] + items[i + 1..]);
    UnusedConcat(items[..i], [x] + items[i + 1..], used');
    UnusedConcat([x], items[i + 1..], used');
    UnusedAllUsed(items[..i], used');
    assert Unused([x], used') == [];
    DistinctSuffix(items, i);
    assert items[i..][1..] == items[i + 1..];
    DistinctTail(items[i..]);
    UnusedAbsent(items[i + 1..], used, x.idx);
  }

  /** After pairing the front with the `j`-th unused item after it, the unused
      items after the front lose exactly that one. */
  lemma MarkPair(items: seq<Item>, used: set<nat>, i: nat, j: nat)
    requires DistinctIdx(items) && i < |items|
    requires j < |Unused(items[i + 1..], used)|
    requires forall it :: it in items[i + 1..] ==> it.idx != items[i].idx
    ensures var y := Unused(items[i + 1..], used)[j];
      Unused(items[i + 1..], used + {items[i].idx, y.idx}) == RemoveAt(Unused(items[i + 1..], used), j)
  {
    var rest := items[i + 1..];
    var y := Unused(rest, used)[j];
    DistinctSuffix(items, i + 1);
    assert used + {items[i].idx, y.idx} == (used + {y.idx}) + {items[i].idx};
    UnusedAbsent(rest, used + {y.idx}, items[i].idx);
    UnusedMark(rest, used, j);
  }

  /** A diversity score is never negative, so every candidate clears the
      integer sentinel `-1`. */
  lemma DiversityAboveSentinel(front: Item, cands: seq<Item>)
    ensures NoneAbove(PairScores(front, cands, Diversity), |cands|, Some(-1)) <==> |cands| == 0
  {
    if |cands| > 0 {
      assert PairScores(front, cands, Diversity)[0] >= 0;
    }
  }

  /** The loop state of `pair_portraits` after visiting `items[..i]`: the
      groups emitted so far followed by the greedy pairing of the unused items
      still ahead make up the greedy pairing of all items; and either every
      visited item is used, or nothing unused lies ahead. */
  predicate PairedSoFar(items: seq<Item>, i: nat, used: set<nat>, paired: seq<seq<nat>>)
    requires i <= |items|
  {
    && paired + Members(GreedyPair(Unused(items[i..], used), Diversity, None))
       == Members(GreedyPair(items, Diversity, None))
    && ((forall j :: 0 <= j < i ==> items[j].idx in used) || |Unused(items[i..], used)| == 0)
  }

  lemma PairSkip(items: seq<Item>, i: nat, used: set<nat>, paired: seq<seq<nat>>)
    requires i < |items| && items[i].idx in used && PairedSoFar(items, i, used, paired)
    ensures PairedSoFar(items, i + 1, used, paired)
  {
    var a := items[i..];
    assert a[1..] == items[i + 1..];
    UnusedSkipFront(a, used);
  }

  /** A used front contributes nothing. */
  lemma UnusedSkipFront(s: seq<Item>, used: set<nat>)
    requires |s| > 0 && s[0].idx in used
    ensures Unused(s, used) == Unused(s[1..], used)
  {
  }

  lemma PairSingle(items: seq<Item>, i: nat, used: set<nat>, paired: seq<seq<nat>>)
    requires DistinctIdx(items) && i < |items| && items[i].idx !in used && PairedSoFar(items, i, used, paired)
    requires |Candidates(items, used, items[i].idx)| == 0
    ensures PairedSoFar(items, i + 1, used, paired + [[items[i].idx]])
  {
    var remaining := Unused(items[i..], used);
    assert items[i] in items[i..];
    CandidatesAfter(items, used, i);
    SingleStep(paired, remaining, Diversity, None);
  }

  lemma PairWith(items: seq<Item>, i: nat, used: set<nat>, paired: seq<seq<nat>>, j: nat)
    requires DistinctIdx(items) && i < |items| && items[i].idx !in used && PairedSoFar(items, i, used, paired)
    requires var cands := Candidates(items, used, items[i].idx);
      |cands| > 0 && j == FirstMax(PairScores(items[i], cands, Diversity))
    ensures var cands := Candidates(items, used, items[i].idx);
      && j < |cands|
      && PairedSoFar(items, i + 1, used + {items[i].idx, cands[j].idx},
                     paired + [[items[i].idx, cands[j].idx]])
  {
    var remaining := Unused(items[i..], used);
    assert items[i] in items[i..];
    CandidatesAfter(items, used, i);
    assert remaining[1..] == Window(remaining[1..], None);
    PairedStep(paired, remaining, Diversity, None, j);
    DistinctSuffix(items, i);
    DistinctTail(items[i..]);
    assert items[i..][1..] == items[i + 1..];
    MarkPair(items, used, i, j);
  }

  /** `pair_portraits`: visiting the portraits in input order, an unused one
      is paired with the first most diverse other unused portrait, and both are
      marked used; one with no other unused portrait stays single (and is not
      marked). This is the greedy pairing over the whole remaining list. */
  method PairPortraits(items: seq<Item>) returns (paired: seq<seq<nat>>)
    requires DistinctIdx(items)
    ensures paired == Members(GreedyPair(items, Diversity, None))
  {
    var used: set<nat> := {};
    paired := [];
    UnusedNone(items);
    for i := 0 to |items|
      invariant PairedSoFar(items, i, used, paired)
    {
      var front := items[i];
      if front.idx in used {
        PairSkip(items, i, used, paired);
      } else {
        var cands := Candidates(items, used, front.idx);
        var scores := PairScores(front, cands, Diversity);
        var best := ScanBest(scores, Some(-1));
        DiversityAboveSentinel(front, cands);
        if best.Some? {
          var j := best.value;
          PairWith(items, i, used, paired, j);
          paired := paired + [[front.idx, cands[j].idx]];
          used := used + {front.idx, cands[j].idx};
        } else {
          PairSingle(items, i, used, paired);
          paired := paired + [[front.idx]];
        }
      }
    }
    assert items[|items|..] == [];
  }

  /** Nothing is used at the start. */
  lemma {:induction false} UnusedNone(items: seq<Item>)
    ensures Unused(items, {}) == items
  {
    if |items| > 0 {
      UnusedNone(items[1..]);
      assert items == [items[0]] + items[1..];
    }
  }
}
