/** The selection rules every greedy loop uses: the first maximum of a strict
    `>` scan (and of Python's `max` with a key), list removal by position and by
    value, and the heap's `(-score, frame)` order. */
module Selection {
  import opened Wrappers

  /** Index of the first maximal score. */
  function FirstMax(scores: seq<int>): (k: nat)
    requires |scores| > 0
    ensures k < |scores|
    ensures forall i :: 0 <= i < |scores| ==> scores[i] <= scores[k]
    ensures forall i :: 0 <= i < k ==> scores[i] < scores[k]
  {
    if |scores| == 1 then 0
    else
      var j := FirstMax(scores[1..]);
      if scores[0] >= scores[1..][j] then 0 else j + 1
  }

  /** No score among the first `n` clears the floor (with no floor, only when `n` is 0). */
  predicate NoneAbove(scores: seq<int>, n: nat, floor: Option<int>)
    requires n <= |scores|
  {
    match floor
    case None => n == 0
    case Some(lo) => forall j :: 0 <= j < n ==> scores[j] <= lo
  }

  /** The comparison `score > best_score` at position `i`, against the best
      so far or, before any, against the floor. */
  function Improves(scores: seq<int>, i: nat, floor: Option<int>, best: Option<nat>): bool
    requires i < |scores| && (best.Some? ==> best.value < |scores|)
  {
    match best
    case Some(b) => scores[i] > scores[b]
    case None => floor.None? || scores[i] > floor.value
  }

  /** The scan's state after the first `i` scores. */
  predicate Scanned(scores: seq<int>, i: nat, floor: Option<int>, best: Option<nat>)
    requires i <= |scores|
  {
    && (best.None? <==> NoneAbove(scores, i, floor))
    && (best.Some? ==> 0 < i && best.value == FirstMax(scores[..i]))
  }

  lemma ScanStep(scores: seq<int>, i: nat, floor: Option<int>, best: Option<nat>)
    requires i < |scores| && Scanned(scores, i, floor, best)
    ensures best.Some? ==> best.value < i
    ensures Scanned(scores, i + 1, floor, if Improves(scores, i, floor, best) then Some(i) else best)
  {
    if best.Some? {
      FirstMaxSnoc(scores[..i], scores[i]);
      assert scores[..i] + [scores[i]] == scores[..i + 1];
    } else if Improves(scores, i, floor, best) {
      FirstMaxAboveFloor(scores[..i + 1], floor);
    }
  }

  /** The strict-improvement scan `if score > best_score` starting from a floor
      (`None` is the `float('-inf')` sentinel; `Some(-1)` the integer one).
      It finds nothing exactly when no score clears the floor, and otherwise
      finds the first maximum. */
  method ScanBest(scores: seq<int>, floor: Option<int>) returns (best: Option<nat>)
    ensures best.None? <==> NoneAbove(scores, |scores|, floor)
    ensures best.Some? ==> |scores| > 0 && best.value == FirstMax(scores)
  {
    best := None;
    var i := 0;
    while i < |scores|
      invariant 0 <= i <= |scores| && Scanned(scores, i, floor, best)
      invariant best.Some? ==> best.value < i
    {
      ScanStep(scores, i, floor, best);
      if Improves(scores, i, floor, best) {
        best := Some(i);
      }
      i := i + 1;
    }
    assert scores[..i] == scores;
  }

  /** Extending the scores by one moves the first maximum to the new position
      exactly when the new score is strictly greater. */
  lemma FirstMaxSnoc(s: seq<int>, x: int)
    requires |s| > 0
    ensures FirstMax(s + [x]) == (if x > s[FirstMax(s)] then |s| else FirstMax(s))
  {
    var k := FirstMax(s);
    var k' := FirstMax(s + [x]);
    assert (s + [x])[k] == s[k];
    assert (s + [x])[|s|] == x;
    assert forall i :: 0 <= i < |s| ==> (s + [x])[i] == s[i];
  }

  lemma FirstMaxAboveFloor(s: seq<int>, floor: Option<int>)
    requires |s| > 0 && NoneAbove(s, |s| - 1, floor)
    requires floor.Some? ==> s[|s| - 1] > floor.value
    ensures FirstMax(s) == |s| - 1
  {
    var k := FirstMax(s);
    assert k < |s| - 1 ==> s[k] >= s[|s| - 1];
  }

  /** The candidates a scan examines: the whole list, or only its first `w`
      elements (`items[:w]`). */
  function Window<T>(s: seq<T>, window: Option<nat>): (c: seq<T>)
    ensures |c| <= |s| && c == s[..|c|]
    ensures window.None? ==> c == s
    ensures window.Some? ==> |c| == if window.value < |s| then window.value else |s|
  {
    match window
    case None => s
    case Some(w) => if w < |s| then s[..w] else s
  }

  /** A window that admits a candidate whenever one remains. */
  predicate OpenWindow(window: Option<nat>)
  {
    window.None? || window.value > 0
  }

  /** Concatenation is associative (a step the solver is slow to find in a
      large context). */
  lemma SeqAssoc<T>(a: seq<T>, b: seq<T>, c: seq<T>)
    ensures a + (b + c) == (a + b) + c
  {
  }

  lemma FrontSplit<T>(s: seq<T>)
    requires |s| > 0
    ensures s == [s[0]] + s[1..]
  {
  }

  /** `list.pop(k)`: the list without its `k`-th element. */
  function RemoveAt<T>(s: seq<T>, k: nat): (r: seq<T>)
    requires k < |s|
    ensures |r| == |s| - 1
    ensures forall i :: 0 <= i < k ==> r[i] == s[i]
    ensures forall i :: k <= i < |r| ==> r[i] == s[i + 1]
    ensures multiset(r) + multiset{s[k]} == multiset(s)
  {
    assert s == s[..k] + [s[k]] + s[k + 1..];
    s[..k] + s[k + 1..]
  }

  /** Position of the first element equal to `x`. */
  function IndexOf<T(==)>(s: seq<T>, x: T): (k: nat)
    requires x in s
    ensures k < |s| && s[k] == x
    ensures forall i :: 0 <= i < k ==> s[i] != x
  {
    if s[0] == x then 0 else 1 + IndexOf(s[1..], x)
  }

  /** `list.remove(x)`: drops the first element equal to `x`. */
  function RemoveFirst<T(==)>(s: seq<T>, x: T): (r: seq<T>)
    requires x in s
    ensures multiset(r) + multiset{x} == multiset(s)
  {
    RemoveAt(s, IndexOf(s, x))
  }

  /** The scores of a list under a key function. */
  function Scores<T>(s: seq<T>, f: T -> int): (r: seq<int>)
    ensures |r| == |s|
    ensures forall i :: 0 <= i < |s| ==> r[i] == f(s[i])
  {
    seq(|s|, i requires 0 <= i < |s| => f(s[i]))
  }

  /** Removing the first maximum by value removes it at its own position: an
      earlier equal element would score the same and so be an earlier maximum.
      This is why `remove(best)` after `max(...)` removes the chosen frame. */
  lemma RemoveFirstMaxByValue<T>(s: seq<T>, f: T -> int)
    requires |s| > 0
    ensures IndexOf(s, s[FirstMax(Scores(s, f))]) == FirstMax(Scores(s, f))
  {
    var k := FirstMax(Scores(s, f));
    var j := IndexOf(s, s[k]);
    assert Scores(s, f)[j] == f(s[k]);
  }

  /** Python's ordering of integer lists: lexicographic, a proper prefix first. */
  predicate LexLess(a: seq<nat>, b: seq<nat>)
  {
    if |a| == 0 then |b| > 0
    else if |b| == 0 then false
    else a[0] < b[0] || (a[0] == b[0] && LexLess(a[1..], b[1..]))
  }

  lemma {:induction false} LexIrreflexive(a: seq<nat>)
    ensures !LexLess(a, a)
  {
    if |a| > 0 {
      LexIrreflexive(a[1..]);
    }
  }

  lemma {:induction false} LexTransitive(a: seq<nat>, b: seq<nat>, c: seq<nat>)
    requires LexLess(a, b) && LexLess(b, c)
    ensures LexLess(a, c)
  {
    if |a| > 0 && |b| > 0 && |c| > 0 && a[0] == b[0] == c[0] {
      LexTransitive(a[1..], b[1..], c[1..]);
    }
  }

  lemma {:induction false} LexTotal(a: seq<nat>, b: seq<nat>)
    requires a != b
    ensures LexLess(a, b) || LexLess(b, a)
  {
    if |a| > 0 && |b| > 0 && a[0] == b[0] {
      assert a == [a[0]] + a[1..] && b == [b[0]] + b[1..];
      LexTotal(a[1..], b[1..]);
    }
  }

  /** The heap order on `(-score, frame)`: a higher score first, then the
      lexicographically smaller frame. */
  predicate HeapBefore(f: seq<nat> -> int, x: seq<nat>, y: seq<nat>)
  {
    f(x) > f(y) || (f(x) == f(y) && LexLess(x, y))
  }

  lemma HeapBeforeTransitive(f: seq<nat> -> int, x: seq<nat>, y: seq<nat>, z: seq<nat>)
    requires HeapBefore(f, x, y) && HeapBefore(f, y, z)
    ensures HeapBefore(f, x, z)
  {
    if f(x) == f(y) == f(z) {
      LexTransitive(x, y, z);
    }
  }

  /** What `heappop` returns: the least frame under the heap order. */
  function HeapMin(fs: seq<seq<nat>>, f: seq<nat> -> int): (v: seq<nat>)
    requires |fs| > 0
    ensures v in fs
    ensures forall y :: y in fs ==> !HeapBefore(f, y, v)
  {
    if |fs| == 1 then
      LexIrreflexive(fs[0]);
      fs[0]
    else
      var m := HeapMin(fs[1..], f);
      if HeapBefore(f, fs[0], m) then
        assert forall y :: y in fs[1..] ==> !HeapBefore(f, y, fs[0]) by {
          forall y | y in fs[1..] && HeapBefore(f, y, fs[0])
            ensures false
          {
            HeapBeforeTransitive(f, y, fs[0], m);
          }
        }
        LexIrreflexive(fs[0]);
        assert fs == [fs[0]] + fs[1..];
        fs[0]
      else
        assert fs == [fs[0]] + fs[1..];
        m
  }

  /** The heap's choice is the unique least element, so it depends only on
      which frames are present and not on the order of the list. */
  lemma HeapMinOrderFree(fs: seq<seq<nat>>, gs: seq<seq<nat>>, f: seq<nat> -> int)
    requires |fs| > 0 && multiset(fs) == multiset(gs)
    ensures |gs| > 0
    ensures HeapMin(fs, f) == HeapMin(gs, f)
  {
    assert |gs| == |multiset(gs)| == |multiset(fs)| == |fs|;
    var v := HeapMin(fs, f);
    var w := HeapMin(gs, f);
    assert v in multiset(fs) && w in multiset(gs);
    assert v in gs && w in fs;
    if v != w {
      if f(v) == f(w) {
        LexTotal(v, w);
      }
    }
  }
}
